// What each NawFS operation does to the catalog in memory and, write by write, to the disk.
module FsModel {
  import opened NawBase
  import opened FsFormat

  type Sector = seq<byte>

  // The used part of the catalog, and the disk.
  datatype Fs = Fs(entries: seq<Entry>, disk: seq<Sector>)

  datatype Write = Write(lba: int, data: Sector)

  predicate DiskOk(disk: seq<Sector>) {
    |disk| == DISK_SECTORS && forall i :: 0 <= i < |disk| ==> |disk[i]| == SECTOR_SIZE
  }

  // One sector write: atomic, and refused outside the disk.
  function Apply(disk: seq<Sector>, w: Write): (d: seq<Sector>)
    ensures |d| == |disk|
  {
    if 0 <= w.lba < |disk| then disk[w.lba := w.data] else disk
  }

  function ApplyAll(disk: seq<Sector>, ws: seq<Write>): (d: seq<Sector>)
    ensures |d| == |disk|
  {
    if ws == [] then disk else Apply(ApplyAll(disk, ws[..|ws| - 1]), ws[|ws| - 1])
  }

  lemma NoWrites(disk: seq<Sector>)
    ensures ApplyAll(disk, []) == disk
  {
  }

  lemma {:induction false} ApplyConcat(disk: seq<Sector>, a: seq<Write>, b: seq<Write>)
    ensures ApplyAll(disk, a + b) == ApplyAll(ApplyAll(disk, a), b)
  {
    if b == [] {
      assert a + b == a;
    } else {
      assert (a + b)[..|a + b| - 1] == a + b[..|b| - 1];
      ApplyConcat(disk, a, b[..|b| - 1]);
    }
  }

  lemma ApplyLast(disk: seq<Sector>, ws: seq<Write>, w: Write)
    ensures ApplyAll(disk, ws + [w]) == Apply(ApplyAll(disk, ws), w)
  {
    assert (ws + [w])[..|ws + [w]| - 1] == ws;
  }

  // One write and then others.
  lemma OneThen(disk: seq<Sector>, w: Write, ws: seq<Write>)
    ensures ApplyAll(disk, [w] + ws) == ApplyAll(Apply(disk, w), ws)
  {
    ApplyConcat(disk, [w], ws);
    assert [w][..0] == [];
  }

  // ----- keys and lookups -----

  type Key = (seq<byte>, seq<byte>)

  function KeyOf(name: CString, ext: CString): Key {
    (Pack(FILENAME_LEN, name), Pack(EXTENSION_LEN, ext))
  }

  // Two names are one file exactly when their first eight characters and the first three of their extensions are
  // the same.
  lemma SameFile(name: CString, ext: CString, name2: CString, ext2: CString)
    ensures KeyOf(name, ext) == KeyOf(name2, ext2) <==>
      Front(name, 8) == Front(name2, 8) && Front(ext, 3) == Front(ext2, 3)
  {
    hide Pack;
    PackSame(8, name, name2);
    PackSame(3, ext, ext2);
  }

  // And a key holds the name it was made from.
  lemma NameKept(name: CString, ext: CString)
    ensures CStr(KeyOf(name, ext).0) == Front(name, 8) && CStr(KeyOf(name, ext).1) == Front(ext, 3)
  {
    hide Pack;
    PackHolds(8, name);
    PackHolds(3, ext);
  }

  function EntryKey(e: Entry): Key { (e.name, e.ext) }

  // The first entry with a key, or -1.
  function FindFrom(entries: seq<Entry>, key: Key, i: nat): (r: int)
    requires i <= |entries|
    ensures r == -1 || (i <= r < |entries| && EntryKey(entries[r]) == key)
    ensures r == -1 ==> forall j :: i <= j < |entries| ==> EntryKey(entries[j]) != key
    ensures r >= 0 ==> forall j :: i <= j < r ==> EntryKey(entries[j]) != key
    decreases |entries| - i
  {
    if i == |entries| then -1 else if EntryKey(entries[i]) == key then i else FindFrom(entries, key, i + 1)
  }

  function Find(entries: seq<Entry>, key: Key): (r: int)
    ensures r == -1 || (0 <= r < |entries| && EntryKey(entries[r]) == key)
    ensures r == -1 ==> forall j :: 0 <= j < |entries| ==> EntryKey(entries[j]) != key
    ensures r >= 0 ==> forall j :: 0 <= j < r ==> EntryKey(entries[j]) != key
  {
    FindFrom(entries, key, 0)
  }

  predicate InUse(entries: seq<Entry>, sector: int) {
    exists i :: 0 <= i < |entries| && entries[i].sector == sector
  }

  // The first data sector from s that no entry uses, or -1.
  function FreeFrom(entries: seq<Entry>, s: int): (r: int)
    requires DATA_START <= s <= DATA_START + DATA_SECTORS
    ensures r == -1 || (s <= r < DATA_START + DATA_SECTORS && !InUse(entries, r))
    ensures r == -1 ==> forall t :: s <= t < DATA_START + DATA_SECTORS ==> InUse(entries, t)
    ensures r >= 0 ==> forall t :: s <= t < r ==> InUse(entries, t)
    decreases DATA_START + DATA_SECTORS - s
  {
    if s == DATA_START + DATA_SECTORS then -1 else if !InUse(entries, s) then s else FreeFrom(entries, s + 1)
  }

  // ----- the catalog on disk -----

  // The 32 bytes of catalog slot i; slots past the last entry are zero.
  function Slot(entries: seq<Entry>, i: nat): (b: seq<byte>)
    ensures |b| == ENTRY_SIZE
  {
    if i < |entries| && WellShaped(entries[i]) then Encode(entries[i]) else Zeros(ENTRY_SIZE)
  }

  // The bytes of n consecutive slots.
  function Slots(entries: seq<Entry>, from: nat, n: nat): (b: seq<byte>)
    ensures |b| == n * ENTRY_SIZE
    decreases n
  {
    if n == 0 then [] else Slots(entries, from, n - 1) + Slot(entries, from + n - 1)
  }

  function CatalogSector(entries: seq<Entry>, i: nat): (b: Sector)
    ensures |b| == SECTOR_SIZE
  {
    Slots(entries, i * ENTRIES_PER_SECTOR, ENTRIES_PER_SECTOR)
  }

  // The first n sector writes of a flush.
  function FlushWrites(entries: seq<Entry>, n: nat): (ws: seq<Write>)
    ensures |ws| == n
    decreases n
  {
    if n == 0 then [] else FlushWrites(entries, n - 1) + [Write(CATALOG_START + n - 1, CatalogSector(entries, n - 1))]
  }

  function SlotOnDisk(disk: seq<Sector>, i: nat): (b: seq<byte>)
    requires DiskOk(disk) && i < CATALOG_SECTORS * ENTRIES_PER_SECTOR
    ensures |b| == ENTRY_SIZE
  {
    var at := i % ENTRIES_PER_SECTOR * ENTRY_SIZE;
    disk[CATALOG_START + i / ENTRIES_PER_SECTOR][at..at + ENTRY_SIZE]
  }

  lemma SlotPlace(disk: seq<Sector>, i: nat, j: nat)
    requires DiskOk(disk) && i < CATALOG_SECTORS && j < ENTRIES_PER_SECTOR
    ensures SlotOnDisk(disk, i * ENTRIES_PER_SECTOR + j)
         == disk[CATALOG_START + i][j * ENTRY_SIZE..j * ENTRY_SIZE + ENTRY_SIZE]
  {
  }

  // The entries that loading finds in the first n slots.
  function LoadSlots(disk: seq<Sector>, n: nat): (es: seq<Entry>)
    requires DiskOk(disk) && n <= CATALOG_SECTORS * ENTRIES_PER_SECTOR
    ensures |es| <= MAX_FILES && forall i :: 0 <= i < |es| ==> IsValidEntry(es[i])
  {
    if n == 0 then []
    else
      var es, e := LoadSlots(disk, n - 1), Decode(SlotOnDisk(disk, n - 1));
      if IsValidEntry(e) && |es| < MAX_FILES then es + [e] else es
  }

  function Load(disk: seq<Sector>): seq<Entry>
    requires DiskOk(disk)
  {
    LoadSlots(disk, CATALOG_SECTORS * ENTRIES_PER_SECTOR)
  }

  // ----- operations -----

  // The new catalog, the sector writes in their order, and the return code.
  datatype Effect = Effect(entries: seq<Entry>, writes: seq<Write>, code: int)

  const ZERO_SECTOR: Sector := Zeros(SECTOR_SIZE)

  predicate Nameless(s: CString) { s.None? || s.value == [] }

  function NewEntry(key: Key, sector: u16): Entry {
    Entry(key.0, key.1, 0, sector, Zeros(RESERVED_LEN))
  }

  function Create(entries: seq<Entry>, name: CString, ext: CString): Effect {
    var free := FreeFrom(entries, DATA_START);
    if |entries| >= MAX_FILES || Nameless(name) || Nameless(ext)
       || Find(entries, KeyOf(name, ext)) >= 0 || free < 0 then
      Effect(entries, [], -1)
    else
      var es := entries + [NewEntry(KeyOf(name, ext), free)];
      Effect(es, [Write(free, ZERO_SECTOR)] + FlushWrites(es, CATALOG_SECTORS), 0)
  }

  // The part of a text that is stored: its length is taken modulo 65536 and cut to a sector.
  function Stored(data: seq<byte>): (s: seq<byte>)
    ensures |s| <= MAX_FILE_SIZE && s <= data
  {
    data[..Min(|data| % 0x1_0000, MAX_FILE_SIZE)]
  }

  function DataSector(data: seq<byte>): (b: Sector)
    ensures |b| == SECTOR_SIZE
  {
    Stored(data) + Zeros(SECTOR_SIZE - |Stored(data)|)
  }

  function WriteFile(entries: seq<Entry>, name: CString, ext: CString, data: CString): Effect {
    var i := Find(entries, KeyOf(name, ext));
    if i < 0 || data.None? then Effect(entries, [], -1)
    else
      var es := entries[i := entries[i].(size := |Stored(data.value)|)];
      Effect(es, [Write(entries[i].sector, DataSector(data.value))] + FlushWrites(es, CATALOG_SECTORS), 0)
  }

  // The later entries move up over entry i.
  function Without(es: seq<Entry>, i: nat): seq<Entry>
    requires i < |es|
  {
    es[..i] + es[i + 1..]
  }

  function Delete(entries: seq<Entry>, name: CString, ext: CString): Effect {
    var i := Find(entries, KeyOf(name, ext));
    if i < 0 then Effect(entries, [], -1)
    else
      var es := Without(entries, i);
      Effect(es, [Write(entries[i].sector, ZERO_SECTOR)] + FlushWrites(es, CATALOG_SECTORS), 0)
  }

  lemma DeleteIs(es: seq<Entry>, name: CString, ext: CString)
    ensures
      var i := Find(es, KeyOf(name, ext));
      Delete(es, name, ext) == if i < 0 then Effect(es, [], -1)
        else Effect(Without(es, i),
          [Write(es[i].sector, ZERO_SECTOR)] + FlushWrites(Without(es, i), CATALOG_SECTORS), 0)
  {
  }

  // The text a reader gets for an entry: the sector up to the recorded size, as a C string.
  function Content(disk: seq<Sector>, e: Entry): seq<byte> {
    if e.sector < |disk| && e.size <= |disk[e.sector]| then CStr(disk[e.sector][..e.size]) else []
  }

  // What reading a key gives.
  function ReadKey(entries: seq<Entry>, disk: seq<Sector>, key: Key): Option<seq<byte>> {
    var i := Find(entries, key);
    if i < 0 then None else Some(Content(disk, entries[i]))
  }

  function FormatWrites(): seq<Write> {
    [Write(SUPERBLOCK_SECTOR, Superblock())] + ZeroWrites(CATALOG_START, CATALOG_SECTORS)
    + ZeroWrites(DATA_START, DATA_SECTORS)
  }

  function ZeroWrites(from: int, n: nat): (ws: seq<Write>)
    ensures |ws| == n
    decreases n
  {
    if n == 0 then [] else ZeroWrites(from, n - 1) + [Write(from + n - 1, ZERO_SECTOR)]
  }
}
