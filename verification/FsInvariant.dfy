// What holds of NawFS between operations, and that every operation keeps it.
module FsInvariant {
  import opened NawBase
  import opened FsFormat
  import opened FsModel
  import opened FsCatalog

  predicate IsData(sector: int) { DATA_START <= sector < DATA_START + DATA_SECTORS }

  predicate DistinctKeys(entries: seq<Entry>) {
    forall i, j :: 0 <= i < j < |entries| ==> EntryKey(entries[i]) != EntryKey(entries[j])
  }

  // Entries of one key are on one sector, and the other way round.
  predicate Paired(entries: seq<Entry>) {
    forall i, j :: 0 <= i < |entries| && 0 <= j < |entries| ==>
      (EntryKey(entries[i]) == EntryKey(entries[j]) <==> entries[i].sector == entries[j].sector)
  }

  predicate SamePlace(a: Entry, b: Entry) { EntryKey(a) == EntryKey(b) && a.sector == b.sector }

  predicate Placed(entries: seq<Entry>, e: Entry) {
    exists i :: 0 <= i < |entries| && SamePlace(e, entries[i])
  }

  // Entries at the places of others are paired when those are.
  lemma PairedFrom(a: seq<Entry>, b: seq<Entry>)
    requires Paired(a) && forall j :: 0 <= j < |b| ==> Placed(a, b[j])
    ensures Paired(b)
  {
    forall j, k | 0 <= j < |b| && 0 <= k < |b|
      ensures EntryKey(b[j]) == EntryKey(b[k]) <==> b[j].sector == b[k].sector
    {
      assert Placed(a, b[j]) && Placed(a, b[k]);
      var p :| 0 <= p < |a| && SamePlace(b[j], a[p]);
      var q :| 0 <= q < |a| && SamePlace(b[k], a[q]);
    }
  }

  lemma PairedAppend(es: seq<Entry>, e: Entry)
    requires Paired(es) && !InUse(es, e.sector) && Find(es, EntryKey(e)) < 0
    ensures Paired(es + [e])
  {
    assert forall i :: 0 <= i < |es| ==> es[i].sector != e.sector;
  }

  // An entry's sector holds a text of the recorded size.
  predicate Holds(disk: seq<Sector>, e: Entry) {
    e.sector < |disk| && e.size <= |disk[e.sector]| && 0 !in disk[e.sector][..e.size]
  }

  predicate AllHold(disk: seq<Sector>, entries: seq<Entry>) {
    forall i :: 0 <= i < |entries| ==> Holds(disk, entries[i])
  }

  // What holds even after a stop in the middle of any operation: no two files share a sector.
  ghost predicate Sound(st: Fs) {
    && DiskOk(st.disk) && SuperblockValid(st.disk[SUPERBLOCK_SECTOR]) && Mirrored(st.disk, st.entries)
    && AllValid(st.entries) && Paired(st.entries)
  }

  // And what holds as long as no stopped deletion has left an entry twice.
  ghost predicate Inv(st: Fs) { Sound(st) && DistinctKeys(st.entries) }

  // And every text is whole: as long as its entry says. A stop in the middle of a write or a deletion can end this.
  predicate WholeTexts(st: Fs) { AllHold(st.disk, st.entries) }

  // The state once all of an operation's writes are done.
  function After(st: Fs, effect: Effect): Fs {
    Fs(effect.entries, ApplyAll(st.disk, effect.writes))
  }

  // The disk when the machine stops after the first k writes of an operation.
  function StoppedAt(disk: seq<Sector>, effect: Effect, k: nat): seq<Sector>
    requires k <= |effect.writes|
  {
    ApplyAll(disk, effect.writes[..k])
  }

  // ----- one data sector written, then the catalog flushed -----

  lemma {:induction false} FlushPrefix(entries: seq<Entry>, n: nat, k: nat)
    requires k <= n
    ensures FlushWrites(entries, n)[..k] == FlushWrites(entries, k)
    decreases n
  {
    hide CatalogSector;
    if k < n {
      FlushPrefix(entries, n - 1, k);
      assert FlushWrites(entries, n)[..k] == FlushWrites(entries, n - 1)[..k];
    }
  }

  function OpWrites(w: Write, entries: seq<Entry>): seq<Write> {
    [w] + FlushWrites(entries, CATALOG_SECTORS)
  }

  lemma PartialIs(disk: seq<Sector>, w: Write, entries: seq<Entry>, k: nat)
    requires 1 <= k <= 1 + CATALOG_SECTORS
    ensures ApplyAll(disk, OpWrites(w, entries)[..k]) == ApplyAll(Apply(disk, w), FlushWrites(entries, k - 1))
  {
    hide FlushWrites, ApplyAll, Apply;
    FlushPrefix(entries, CATALOG_SECTORS, k - 1);
    TakeCons(w, FlushWrites(entries, CATALOG_SECTORS), k);
    OneThen(disk, w, FlushWrites(entries, k - 1));
  }

  lemma TakeCons(w: Write, ws: seq<Write>, k: nat)
    requires 1 <= k <= 1 + |ws|
    ensures ([w] + ws)[..k] == [w] + ws[..k - 1]
  {
  }

  predicate IsDataWrite(w: Write) { IsData(w.lba) && |w.data| == SECTOR_SIZE }

  lemma DataWriteKeepsDisk(disk: seq<Sector>, w: Write)
    requires DiskOk(disk) && IsDataWrite(w)
    ensures DiskOk(Apply(disk, w))
  {
  }

  lemma DataWriteKeepsCatalog(disk: seq<Sector>, w: Write, entries: seq<Entry>)
    requires DiskOk(disk) && IsDataWrite(w) && Mirrored(disk, entries)
    ensures DiskOk(Apply(disk, w)) && Mirrored(Apply(disk, w), entries)
  {
    DataWriteKeepsDisk(disk, w);
    hide DiskOk, SlotOnDisk, Slot;
    DiskLength(disk);
    forall i | 0 <= i < SLOTS ensures SlotOnDisk(Apply(disk, w), i) == Slot(entries, i) {
      SameSlot(disk, Apply(disk, w), i);
    }
  }

  // Sectors outside the catalog change by the data write only.
  lemma OtherSector(disk: seq<Sector>, w: Write, entries: seq<Entry>, k: nat, s: int)
    requires |disk| == DISK_SECTORS && IsDataWrite(w) && 1 <= k <= 1 + CATALOG_SECTORS
    requires s == SUPERBLOCK_SECTOR || IsData(s)
    ensures ApplyAll(disk, OpWrites(w, entries)[..k])[s] == if s == w.lba then w.data else disk[s]
  {
    hide FlushWrites, ApplyAll, OpWrites;
    PartialIs(disk, w, entries, k);
    FlushSector(Apply(disk, w), entries, k - 1, s);
  }

  // What a reload finds when an operation stops after k writes, the first of them to a data sector.
  lemma StoppedLoads(disk: seq<Sector>, old': seq<Entry>, new': seq<Entry>, w: Write, k: nat)
    requires DiskOk(disk) && Mirrored(disk, old') && AllValid(old') && AllValid(new') && IsDataWrite(w)
    requires 1 <= k <= 1 + CATALOG_SECTORS && |Mix(old', new', (k - 1) * ENTRIES_PER_SECTOR)| <= MAX_FILES
    ensures DiskOk(ApplyAll(disk, OpWrites(w, new')[..k]))
    ensures Load(ApplyAll(disk, OpWrites(w, new')[..k])) == Mix(old', new', (k - 1) * ENTRIES_PER_SECTOR)
  {
    hide DiskOk, Mirrored, FlushWrites, ApplyAll, Apply, AllValid, Mix, LoadSlots, OpWrites;
    DataWriteKeepsCatalog(disk, w, old');
    PartialIs(disk, w, new', k);
    CrashedFlush(Apply(disk, w), old', new', k - 1);
  }

  // ----- the invariant after one data write and a whole flush -----

  lemma KeepsSound(st: Fs, new': seq<Entry>, w: Write)
    requires Sound(st) && IsDataWrite(w) && AllValid(new') && Paired(new')
    ensures Sound(Fs(new', ApplyAll(st.disk, OpWrites(w, new'))))
  {
    hide DiskOk, Mirrored, FlushWrites, ApplyAll, Apply, SuperblockValid, IsValidEntry, Paired;
    var k := 1 + CATALOG_SECTORS;
    assert OpWrites(w, new')[..k] == OpWrites(w, new');
    DiskLength(st.disk);
    DataWriteKeepsDisk(st.disk, w);
    PartialIs(st.disk, w, new', k);
    FlushMirrors(Apply(st.disk, w), new');
    OtherSector(st.disk, w, new', k, SUPERBLOCK_SECTOR);
  }

  // The entry on the written sector has the size of a text at its front, and the others are old ones.
  predicate TextsFit(st: Fs, new': seq<Entry>, w: Write) {
    forall i :: 0 <= i < |new'| ==>
      if new'[i].sector == w.lba then new'[i].size <= |w.data| && 0 !in w.data[..new'[i].size]
      else new'[i] in st.entries
  }

  lemma KeepsWhole(st: Fs, new': seq<Entry>, w: Write)
    requires Sound(st) && WholeTexts(st) && IsDataWrite(w) && AllValid(new') && TextsFit(st, new', w)
    ensures WholeTexts(Fs(new', ApplyAll(st.disk, OpWrites(w, new'))))
  {
    hide DiskOk, Mirrored, FlushWrites, ApplyAll, Apply, SuperblockValid, IsValidEntry, Paired;
    var k, d := 1 + CATALOG_SECTORS, ApplyAll(st.disk, OpWrites(w, new'));
    assert OpWrites(w, new')[..k] == OpWrites(w, new');
    DiskLength(st.disk);
    forall i | 0 <= i < |new'| ensures Holds(d, new'[i]) {
      SectorIsData(new'[i]);
      OtherSector(st.disk, w, new', k, new'[i].sector);
      if new'[i].sector != w.lba {
        var j :| 0 <= j < |st.entries| && st.entries[j] == new'[i];
        assert Holds(st.disk, st.entries[j]);
      }
    }
  }

  lemma SectorIsData(e: Entry)
    requires IsValidEntry(e)
    ensures IsData(e.sector)
  {
  }

  // ----- pigeonhole -----

  function SectorsOf(entries: seq<Entry>): (s: set<int>)
    ensures |s| <= |entries|
    ensures forall i :: 0 <= i < |entries| ==> entries[i].sector in s
  {
    if entries == [] then {} else SectorsOf(entries[..|entries| - 1]) + {entries[|entries| - 1].sector as int}
  }

  function DataSectors(n: nat): (s: set<int>)
    ensures |s| == n && forall x :: x in s <==> DATA_START <= x < DATA_START + n
  {
    if n == 0 then {} else DataSectors(n - 1) + {DATA_START + n - 1}
  }

  lemma SubsetSize<T>(a: set<T>, b: set<T>)
    requires a <= b
    ensures |a| <= |b|
  {
    assert b == a + (b - a);
  }

  // With room in the catalog there is a free data sector.
  lemma SectorIsFree(entries: seq<Entry>)
    requires |entries| < MAX_FILES
    ensures FreeFrom(entries, DATA_START) >= 0
  {
    if FreeFrom(entries, DATA_START) < 0 {
      forall x | x in DataSectors(DATA_SECTORS) ensures x in SectorsOf(entries) {
        assert InUse(entries, x);
      }
      SubsetSize(DataSectors(DATA_SECTORS), SectorsOf(entries));
    }
  }

  // Creating a file succeeds exactly when there is room, both name parts are given and the key is new.
  lemma CreateSucceeds(entries: seq<Entry>, name: CString, ext: CString)
    ensures Create(entries, name, ext).code == 0 <==>
      && |entries| < 64 && name.Some? && name.value != [] && ext.Some? && ext.value != []
      && Lookup(entries, KeyOf(name, ext)).None?
  {
    if |entries| < MAX_FILES { SectorIsFree(entries); }
  }

  // ----- each operation -----

  function NewFile(entries: seq<Entry>, name: CString, ext: CString): Entry
    requires FreeFrom(entries, DATA_START) >= 0
  {
    NewEntry(KeyOf(name, ext), FreeFrom(entries, DATA_START))
  }

  lemma NewFileValid(entries: seq<Entry>, name: CString, ext: CString)
    requires FreeFrom(entries, DATA_START) >= 0 && !Nameless(name)
    ensures IsValidEntry(NewFile(entries, name, ext)) && EntryKey(NewFile(entries, name, ext)) == KeyOf(name, ext)
    ensures !InUse(entries, NewFile(entries, name, ext).sector)
  {
    assert name.value[0] in name.value;
  }

  lemma CreateKeepsInv(st: Fs, name: CString, ext: CString)
    requires Sound(st)
    ensures
      var st' := After(st, Create(st.entries, name, ext));
      Sound(st') && (Inv(st) ==> Inv(st')) && (WholeTexts(st) ==> WholeTexts(st'))
  {
    hide DiskOk, Mirrored, FlushWrites, ApplyAll, Apply, SuperblockValid, IsValidEntry, FreeFrom, KeyOf, FindFrom,
      Paired;
    var effect := Create(st.entries, name, ext);
    if effect.code == 0 {
      var e := NewFile(st.entries, name, ext);
      NewFileValid(st.entries, name, ext);
      PairedAppend(st.entries, e);
      var new' := st.entries + [e];
      assert effect.entries == new';
      var w := Write(e.sector, ZERO_SECTOR);
      SectorIsData(e);
      assert forall i :: 0 <= i < |st.entries| ==> st.entries[i].sector != e.sector;
      assert effect.writes == OpWrites(w, new');
      KeepsSound(st, new', w);
      if WholeTexts(st) { KeepsWhole(st, new', w); }
    } else {
      NoWrites(st.disk);
    }
  }

  // A stored text has no zero in it and fills the front of its sector.
  lemma StoredText(data: CString)
    requires data.Some?
    ensures 0 !in Stored(data.value) && DataSector(data.value)[..|Stored(data.value)|] == Stored(data.value)
  {
    assert forall x :: x in Stored(data.value) ==> x in data.value;
  }

  lemma WriteKeepsInv(st: Fs, name: CString, ext: CString, data: CString)
    requires Sound(st)
    ensures
      var st' := After(st, WriteFile(st.entries, name, ext, data));
      Sound(st') && (Inv(st) ==> Inv(st') && (WholeTexts(st) ==> WholeTexts(st')))
  {
    hide DiskOk, Mirrored, FlushWrites, ApplyAll, Apply, SuperblockValid, KeyOf, FindFrom, Stored, DataSector;
    var effect := WriteFile(st.entries, name, ext, data);
    var i := Find(st.entries, KeyOf(name, ext));
    if i >= 0 && data.Some? {
      StoredText(data);
      var new' := effect.entries;
      var w := Write(st.entries[i].sector, DataSector(data.value));
      assert effect.writes == OpWrites(w, new');
      ResizedPaired(st.entries, i, new'[i].size);
      KeepsSound(st, new', w);
      if Inv(st) && WholeTexts(st) { KeepsWhole(st, new', w); }
    } else {
      NoWrites(st.disk);
    }
  }

  lemma ResizedPaired(es: seq<Entry>, i: nat, size: u16)
    requires i < |es| && Paired(es)
    ensures Paired(es[i := es[i].(size := size)])
  {
    var new' := es[i := es[i].(size := size)];
    hide Paired;
    forall j | 0 <= j < |new'| ensures Placed(es, new'[j]) { assert SamePlace(new'[j], es[j]); }
    PairedFrom(es, new');
  }

  lemma WithoutPaired(es: seq<Entry>, i: nat)
    requires i < |es| && Paired(es)
    ensures Paired(Without(es, i))
  {
    var new' := Without(es, i);
    hide Paired;
    forall j | 0 <= j < |new'| ensures Placed(es, new'[j]) {
      assert SamePlace(new'[j], es[if j < i then j else j + 1]);
    }
    PairedFrom(es, new');
  }

  lemma DeleteKeepsInv(st: Fs, name: CString, ext: CString)
    requires Sound(st)
    ensures
      var st' := After(st, Delete(st.entries, name, ext));
      Sound(st') && (Inv(st) ==> Inv(st') && (WholeTexts(st) ==> WholeTexts(st')))
  {
    hide DiskOk, Mirrored, FlushWrites, ApplyAll, Apply, SuperblockValid, KeyOf, FindFrom;
    var effect := Delete(st.entries, name, ext);
    var i := Find(st.entries, KeyOf(name, ext));
    if i >= 0 {
      var new' := effect.entries;
      var w := Write(st.entries[i].sector, ZERO_SECTOR);
      assert effect.writes == OpWrites(w, new');
      WithoutPaired(st.entries, i);
      forall j | 0 <= j < |new'| ensures new'[j] in st.entries && (Inv(st) ==> new'[j].sector != w.lba) {
        assert new'[j] == st.entries[if j < i then j else j + 1];
      }
      KeepsSound(st, new', w);
      if Inv(st) && WholeTexts(st) { KeepsWhole(st, new', w); }
    } else {
      NoWrites(st.disk);
    }
  }

  // ----- formatting -----

  lemma {:induction false} ZeroSector(disk: seq<Sector>, from: nat, n: nat, s: nat)
    requires |disk| == DISK_SECTORS && from + n <= DISK_SECTORS && s < DISK_SECTORS
    ensures ApplyAll(disk, ZeroWrites(from, n))[s] == if from <= s < from + n then ZERO_SECTOR else disk[s]
    decreases n
  {
    if n > 0 {
      ZeroSector(disk, from, n - 1, s);
      ApplyLast(disk, ZeroWrites(from, n - 1), Write(from + n - 1, ZERO_SECTOR));
    }
  }

  lemma FormatSector(disk: seq<Sector>, s: nat)
    requires |disk| == DISK_SECTORS && s < DISK_SECTORS
    ensures ApplyAll(disk, FormatWrites())[s] ==
      if s == SUPERBLOCK_SECTOR then Superblock()
      else if CATALOG_START <= s < DATA_START + DATA_SECTORS then ZERO_SECTOR
      else disk[s]
  {
    hide ZeroWrites, Superblock;
    var w, catalog, data := Write(SUPERBLOCK_SECTOR, Superblock()), ZeroWrites(CATALOG_START, CATALOG_SECTORS),
      ZeroWrites(DATA_START, DATA_SECTORS);
    var d := Apply(disk, w);
    assert FormatWrites() == [w] + catalog + data == [w] + (catalog + data);
    OneThen(disk, w, catalog + data);
    ApplyConcat(d, catalog, data);
    ZeroSector(d, CATALOG_START, CATALOG_SECTORS, s);
    ZeroSector(ApplyAll(d, catalog), DATA_START, DATA_SECTORS, s);
  }

  // Formatting any disk gives an empty file system.
  lemma FormatEstablishesInv(disk: seq<Sector>)
    requires DiskOk(disk)
    ensures Inv(Fs([], ApplyAll(disk, FormatWrites()))) && WholeTexts(Fs([], ApplyAll(disk, FormatWrites())))
  {
    hide ApplyAll, FormatWrites;
    var d := ApplyAll(disk, FormatWrites());
    forall s | 0 <= s < |d| ensures |d[s]| == SECTOR_SIZE { FormatSector(disk, s); }
    FormatSector(disk, SUPERBLOCK_SECTOR);
    SuperblockRecognised(Superblock());
    forall i | 0 <= i < SLOTS ensures SlotOnDisk(d, i) == Slot([], i) {
      FormatSector(disk, CATALOG_START + i / ENTRIES_PER_SECTOR);
    }
  }

  // A reload, at any time between operations, finds the catalog as it is in memory.
  lemma ReloadIsIdentity(st: Fs)
    requires Sound(st)
    ensures Load(st.disk) == st.entries
  {
    LoadMirror(st.disk, st.entries);
  }
}
