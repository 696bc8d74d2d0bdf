// The file system as it runs: a fixed table of entries in memory and a disk of sectors. Every method
// is proved to have the effect FsModel gives the operation, with its sector writes in that order.
module NawFs {
  import opened NawBase
  import opened FsFormat
  import opened FsModel

  lemma SlotsNone(entries: seq<Entry>, from: nat)
    ensures Slots(entries, from, 0) == []
  {
  }

  lemma SlotsNext(entries: seq<Entry>, from: nat, n: nat)
    ensures Slots(entries, from, n + 1) == Slots(entries, from, n) + Slot(entries, from + n)
  {
  }

  lemma SlotPast(entries: seq<Entry>, i: nat)
    requires i >= |entries|
    ensures Slot(entries, i) == Zeros(ENTRY_SIZE)
  {
  }

  // Overwriting the first slot of a zeroed tail; a zero slot overwrites nothing.
  lemma PutAt(done: seq<byte>, slot: seq<byte>, n: nat)
    requires |slot| == ENTRY_SIZE <= n
    ensures
      var b := done + Zeros(n);
      && b[..|done|] + slot + b[|done| + ENTRY_SIZE..] == done + slot + Zeros(n - ENTRY_SIZE)
      && (slot == Zeros(ENTRY_SIZE) ==> b == done + slot + Zeros(n - ENTRY_SIZE))
  {
  }

  lemma SectorLength(disk: seq<Sector>, i: nat)
    requires DiskOk(disk) && i < DISK_SECTORS
    ensures |disk[i]| == SECTOR_SIZE
  {
  }

  lemma NewEntryValid(name: CString, ext: CString, sector: u16)
    requires !Nameless(name) && DATA_START <= sector < DATA_START + DATA_SECTORS
    ensures IsValidEntry(NewEntry(KeyOf(name, ext), sector))
  {
    assert name.value[0] in name.value;
  }

  lemma ZeroWritesNone(from: nat)
    ensures ZeroWrites(from, 0) == []
  {
  }

  lemma ZeroWritesNext(from: nat, i: nat)
    ensures ZeroWrites(from, i + 1) == ZeroWrites(from, i) + [Write(from + i, ZERO_SECTOR)]
  {
  }

  lemma ShiftedIs(es: seq<Entry>, shifted: seq<Entry>, i: nat)
    requires i < |es| == |shifted| + 1
    requires forall k :: 0 <= k < |shifted| ==> shifted[k] == es[if k < i then k else k + 1]
    ensures shifted == Without(es, i)
  {
  }

  lemma NothingLoaded(disk: seq<Sector>)
    requires DiskOk(disk)
    ensures LoadSlots(disk, 0) == []
  {
  }

  lemma ValidSector(e: Entry)
    requires IsValidEntry(e)
    ensures 0 <= e.sector < DISK_SECTORS
  {
  }

  class FileSystem {
    const disk: array<Sector>
    const entries: array<Entry>
    var fileCount: nat
    // Whether the drive answers; when it does not, reads fail.
    var ready: bool
    // The sector writes made so far, in order.
    ghost var log: seq<Write>

    ghost predicate Valid()
      reads this, disk, entries
    {
      && DiskOk(disk[..]) && entries.Length == MAX_FILES && fileCount <= MAX_FILES
      && forall i :: 0 <= i < fileCount ==> IsValidEntry(entries[i])
    }

    // The used part of the catalog.
    ghost function Used(): seq<Entry>
      requires fileCount <= entries.Length
      reads this`fileCount, entries
    {
      entries[..fileCount]
    }

    // The operation has had this effect.
    twostate predicate Did(effect: Effect)
      requires old(fileCount) <= entries.Length && fileCount <= entries.Length
      reads this, disk, entries
    {
      && Used() == effect.entries
      && disk[..] == ApplyAll(old(disk[..]), effect.writes)
      && log == old(log) + effect.writes
      && ready == old(ready)
    }

    constructor (disk: array<Sector>, ready: bool)
      requires DiskOk(disk[..])
      ensures Valid() && this.disk == disk && this.ready == ready && Used() == [] && log == [] && fresh(entries)
    {
      this.disk := disk;
      this.ready := ready;
      entries := new Entry[MAX_FILES](_ => EMPTY_ENTRY);
      fileCount := 0;
      log := [];
    }

    // ----- the drive -----

    method DiskWrite(lba: int, data: Sector) returns (rc: int)
      requires DiskOk(disk[..]) && |data| == SECTOR_SIZE
      modifies disk, this`log
      ensures DiskOk(disk[..]) && disk[..] == Apply(old(disk[..]), Write(lba, data))
      ensures log == old(log) + (if rc == 0 then [Write(lba, data)] else [])
      ensures rc == if 0 <= lba < DISK_SECTORS then 0 else -1
    {
      if lba < 0 || lba >= DISK_SECTORS {
        return -1;
      }
      disk[lba] := data;
      log := log + [Write(lba, data)];
      rc := 0;
    }

    method DiskRead(lba: int) returns (rc: int, data: Sector)
      requires DiskOk(disk[..])
      ensures rc == 0 <==> 0 <= lba < DISK_SECTORS && ready
      ensures rc == 0 ==> data == disk[lba]
      ensures |data| == SECTOR_SIZE
    {
      if lba < 0 || lba >= DISK_SECTORS || !ready {
        return -1, ZERO_SECTOR;
      }
      assert disk[lba] == disk[..][lba];
      return 0, disk[lba];
    }

    // ----- searching -----

    method FindFile(name: CString, ext: CString) returns (r: int)
      requires Valid()
      ensures r == Find(Used(), KeyOf(name, ext))
    {
      var i := 0;
      while i < fileCount
        invariant i <= fileCount
        invariant FindFrom(Used(), KeyOf(name, ext), i) == Find(Used(), KeyOf(name, ext))
      {
        if EntryKey(entries[i]) == KeyOf(name, ext) {
          return i;
        }
        i := i + 1;
      }
      return -1;
    }

    method FindFreeSector() returns (r: int)
      requires Valid()
      ensures r == FreeFrom(Used(), DATA_START)
    {
      hide InUse, IsValidEntry, DiskOk;
      var sector := DATA_START;
      while sector < DATA_START + DATA_SECTORS
        invariant DATA_START <= sector <= DATA_START + DATA_SECTORS
        invariant FreeFrom(Used(), sector) == FreeFrom(Used(), DATA_START)
      {
        var inUse := SectorInUse(sector);
        if !inUse {
          return sector;
        }
        sector := sector + 1;
      }
      return -1;
    }

    method SectorInUse(sector: int) returns (inUse: bool)
      requires Valid()
      ensures inUse == InUse(Used(), sector)
    {
      hide IsValidEntry, DiskOk;
      var i := 0;
      while i < fileCount
        invariant i <= fileCount
        invariant forall j :: 0 <= j < i ==> Used()[j].sector != sector
      {
        if entries[i].sector == sector {
          assert Used()[i].sector == sector;
          return true;
        }
        i := i + 1;
      }
      return false;
    }

    // ----- the catalog on disk -----

    method BuildCatalogSector(i: nat) returns (buffer: Sector)
      requires Valid()
      ensures buffer == CatalogSector(Used(), i)
    {
      hide Slots, Encode, WellShaped;
      buffer := Zeros(SECTOR_SIZE);
      var j := 0;
      SlotsNone(Used(), i * ENTRIES_PER_SECTOR);
      while j < ENTRIES_PER_SECTOR
        invariant j <= ENTRIES_PER_SECTOR
        invariant buffer == Slots(Used(), i * ENTRIES_PER_SECTOR, j) + Zeros(SECTOR_SIZE - j * ENTRY_SIZE)
      {
        ghost var done := Slots(Used(), i * ENTRIES_PER_SECTOR, j);
        var idx := i * ENTRIES_PER_SECTOR + j;
        var at := j * ENTRY_SIZE;
        SlotsNext(Used(), i * ENTRIES_PER_SECTOR, j);
        PutAt(done, Slot(Used(), idx), SECTOR_SIZE - at);
        if idx < fileCount {
          buffer := buffer[..at] + Encode(entries[idx]) + buffer[at + ENTRY_SIZE..];
        } else {
          SlotPast(Used(), idx);
        }
        j := j + 1;
      }
      assert Zeros(0) == [];
    }

    method Flush()
      requires Valid()
      modifies disk, this`log
      ensures Valid()
      ensures disk[..] == ApplyAll(old(disk[..]), FlushWrites(Used(), CATALOG_SECTORS))
      ensures log == old(log) + FlushWrites(Used(), CATALOG_SECTORS)
    {
      hide DiskOk, Slots, IsValidEntry, ApplyAll, Apply;
      ghost var was, es := disk[..], Used();
      var i := 0;
      NoWrites(was);
      while i < CATALOG_SECTORS
        invariant i <= CATALOG_SECTORS && Valid()
        invariant disk[..] == ApplyAll(was, FlushWrites(es, i))
        invariant log == old(log) + FlushWrites(es, i)
      {
        var buffer := BuildCatalogSector(i);
        var rc := DiskWrite(CATALOG_START + i, buffer);
        ApplyLast(was, FlushWrites(es, i), Write(CATALOG_START + i, buffer));
        if rc != 0 {
          return;
        }
        i := i + 1;
      }
    }

    method LoadCatalog() returns (rc: int)
      requires Valid()
      modifies this`fileCount, entries
      ensures Valid()
      ensures if ready then rc == 0 && Used() == Load(disk[..]) else rc == -1 && Used() == []
    {
      hide DiskOk, IsValidEntry, LoadSlots;
      fileCount := 0;
      ClearEntries();
      NothingLoaded(disk[..]);
      var i := 0;
      while i < CATALOG_SECTORS
        invariant i <= CATALOG_SECTORS && Valid()
        invariant Used() == LoadSlots(disk[..], i * ENTRIES_PER_SECTOR)
        invariant i > 0 ==> ready
      {
        var ok, data := DiskRead(CATALOG_START + i);
        if ok != 0 {
          return -1;
        }
        LoadSector(i, data);
        i := i + 1;
      }
      rc := 0;
    }

    method ClearEntries()
      requires entries.Length == MAX_FILES
      modifies entries
    {
      var k := 0;
      while k < MAX_FILES
        invariant k <= MAX_FILES
      {
        entries[k] := EMPTY_ENTRY;
        k := k + 1;
      }
    }

    // The valid entries of one catalog sector.
    method LoadSector(i: nat, data: Sector)
      requires Valid() && i < CATALOG_SECTORS && data == disk[CATALOG_START + i]
      requires Used() == LoadSlots(disk[..], i * ENTRIES_PER_SECTOR)
      modifies this`fileCount, entries
      ensures Valid() && Used() == LoadSlots(disk[..], (i + 1) * ENTRIES_PER_SECTOR)
    {
      hide IsValidEntry, Decode, SlotOnDisk;
      SectorLength(disk[..], CATALOG_START + i);
      var j := 0;
      while j < ENTRIES_PER_SECTOR
        invariant j <= ENTRIES_PER_SECTOR && Valid()
        invariant Used() == LoadSlots(disk[..], i * ENTRIES_PER_SECTOR + j)
      {
        var e := Decode(data[j * ENTRY_SIZE..j * ENTRY_SIZE + ENTRY_SIZE]);
        SlotPlace(disk[..], i, j);
        if IsValidEntry(e) && fileCount < MAX_FILES {
          entries[fileCount] := e;
          fileCount := fileCount + 1;
        }
        j := j + 1;
      }
    }

    method Format() returns (rc: int)
      requires Valid()
      modifies disk, this`log, this`fileCount, entries
      ensures Valid() && rc == 0 && Did(Effect([], FormatWrites(), 0))
    {
      hide DiskOk, IsValidEntry, ZeroWrites, Superblock;
      ghost var was := disk[..];
      ghost var first := [Write(SUPERBLOCK_SECTOR, Superblock())];
      rc := DiskWrite(SUPERBLOCK_SECTOR, Superblock());
      assert first[..0] == [];
      assert disk[..] == ApplyAll(was, first);
      rc := ZeroSectors(CATALOG_START, CATALOG_SECTORS);
      ApplyConcat(was, first, ZeroWrites(CATALOG_START, CATALOG_SECTORS));
      rc := ZeroSectors(DATA_START, DATA_SECTORS);
      ApplyConcat(was, first + ZeroWrites(CATALOG_START, CATALOG_SECTORS), ZeroWrites(DATA_START, DATA_SECTORS));
      fileCount := 0;
      ClearEntries();
    }

    method ZeroSectors(from: nat, n: nat) returns (rc: int)
      requires Valid() && from + n <= DISK_SECTORS
      modifies disk, this`log
      ensures Valid() && rc == 0
      ensures disk[..] == ApplyAll(old(disk[..]), ZeroWrites(from, n)) && log == old(log) + ZeroWrites(from, n)
    {
      hide DiskOk, ApplyAll, Apply, ZeroWrites, IsValidEntry;
      ghost var was := disk[..];
      var i := 0;
      NoWrites(was);
      ZeroWritesNone(from);
      while i < n
        invariant i <= n && Valid()
        invariant disk[..] == ApplyAll(was, ZeroWrites(from, i)) && log == old(log) + ZeroWrites(from, i)
      {
        rc := DiskWrite(from + i, ZERO_SECTOR);
        ZeroWritesNext(from, i);
        ApplyLast(was, ZeroWrites(from, i), Write(from + i, ZERO_SECTOR));
        if rc != 0 {
          return -1;
        }
        i := i + 1;
      }
      rc := 0;
    }

    // Mounting: format when the superblock is not ours, then load the catalog.
    method Init()
      requires Valid() && Used() == []
      modifies disk, this`log, this`fileCount, entries
      ensures Valid()
      ensures !ready ==> disk[..] == old(disk[..]) && Used() == []
      ensures ready ==>
        var d := if SuperblockValid(old(disk[SUPERBLOCK_SECTOR])) then old(disk[..])
                 else ApplyAll(old(disk[..]), FormatWrites());
        disk[..] == d && Used() == Load(d)
    {
      var rc, data := DiskRead(SUPERBLOCK_SECTOR);
      if rc != 0 {
        return;
      }
      if !SuperblockValid(data) {
        rc := Format();
      }
      rc := LoadCatalog();
    }

    // ----- operations -----

    method CreateFile(name: CString, ext: CString) returns (rc: int)
      requires Valid()
      modifies disk, this`log, this`fileCount, entries
      ensures Valid()
      ensures var effect := Create(old(Used()), name, ext); Did(effect) && rc == effect.code
    {
      hide DiskOk, ApplyAll, FlushWrites, FindFrom, FreeFrom, KeyOf;
      NoWrites(disk[..]);
      if fileCount >= MAX_FILES {
        return -1;
      }
      if Nameless(name) || Nameless(ext) {
        return -1;
      }
      var found := FindFile(name, ext);
      if found >= 0 {
        return -1;
      }
      var free := FindFreeSector();
      if free < 0 {
        return -1;
      }
      ghost var was, es := disk[..], Used() + [NewEntry(KeyOf(name, ext), free)];
      entries[fileCount] := NewEntry(KeyOf(name, ext), free);
      NewEntryValid(name, ext, free);
      rc := DiskWrite(free, ZERO_SECTOR);
      if rc != 0 {
        return -1;
      }
      fileCount := fileCount + 1;
      assert Used() == es;
      Flush();
      OneThen(was, Write(free, ZERO_SECTOR), FlushWrites(es, CATALOG_SECTORS));
      rc := 0;
    }

    method WriteData(name: CString, ext: CString, data: CString) returns (rc: int)
      requires Valid()
      modifies disk, this`log, entries
      ensures Valid()
      ensures var effect := WriteFile(old(Used()), name, ext, data); Did(effect) && rc == effect.code
    {
      hide DiskOk, ApplyAll, FlushWrites, FindFrom, FreeFrom, KeyOf;
      NoWrites(disk[..]);
      var i := FindFile(name, ext);
      if i < 0 || data.None? {
        return -1;
      }
      ghost var was := disk[..];
      var text := Stored(data.value);
      var buffer := text + Zeros(SECTOR_SIZE - |text|);
      var sector := entries[i].sector;
      rc := DiskWrite(sector, buffer);
      if rc != 0 {
        return -1;
      }
      entries[i] := entries[i].(size := |text|);
      Flush();
      OneThen(was, Write(sector, buffer), FlushWrites(Used(), CATALOG_SECTORS));
      rc := 0;
    }

    // The text of a file as a C string, None when there is no such file or the drive does not answer.
    method ReadData(name: CString, ext: CString) returns (r: Option<seq<byte>>)
      requires Valid()
      ensures r == if ready then ReadKey(Used(), disk[..], KeyOf(name, ext)) else None
    {
      var i := 0;
      while i < fileCount
        invariant i <= fileCount
        invariant FindFrom(Used(), KeyOf(name, ext), i) == Find(Used(), KeyOf(name, ext))
      {
        if EntryKey(entries[i]) == KeyOf(name, ext) {
          var rc, buffer := DiskRead(entries[i].sector);
          if rc != 0 {
            return None;
          }
          var size := if entries[i].size > MAX_FILE_SIZE then MAX_FILE_SIZE else entries[i].size;
          return Some(CStr(buffer[..size]));
        }
        i := i + 1;
      }
      return None;
    }

    method DeleteFile(name: CString, ext: CString) returns (rc: int)
      requires Valid()
      modifies disk, this`log, this`fileCount, entries
      ensures Valid()
      ensures var effect := Delete(old(Used()), name, ext); Did(effect) && rc == effect.code
    {
      hide DiskOk, ApplyAll, Apply, FlushWrites, FindFrom, FreeFrom, KeyOf, Delete, Without, IsValidEntry;
      NoWrites(disk[..]);
      DeleteIs(Used(), name, ext);
      var i := FindFile(name, ext);
      if i < 0 {
        return -1;
      }
      ghost var was, sector := disk[..], entries[i].sector;
      ValidSector(entries[i]);
      var _ := DiskWrite(entries[i].sector, ZERO_SECTOR);
      RemoveEntry(i);
      Flush();
      OneThen(was, Write(sector, ZERO_SECTOR), FlushWrites(Used(), CATALOG_SECTORS));
      rc := 0;
    }

    // Shifts the later entries down over entry i.
    method RemoveEntry(i: nat)
      requires Valid() && i < fileCount
      modifies this`fileCount, entries
      ensures Valid() && Used() == Without(old(Used()), i)
    {
      hide DiskOk, IsValidEntry, Without;
      ghost var es := Used();
      ShiftDown(i);
      if fileCount > 0 {
        entries[fileCount - 1] := EMPTY_ENTRY;
      }
      fileCount := fileCount - 1;
      ShiftedIs(es, Used(), i);
    }

    method ShiftDown(i: nat)
      requires i < fileCount <= entries.Length
      modifies entries
      ensures forall k :: 0 <= k < fileCount - 1 ==> entries[k] == old(entries[if k < i then k else k + 1])
    {
      var j := i;
      while j < fileCount - 1
        invariant i <= j <= fileCount - 1
        invariant forall k :: 0 <= k < fileCount ==> entries[k] == old(entries[if i <= k < j then k + 1 else k])
      {
        entries[j] := entries[j + 1];
        j := j + 1;
      }
    }
  }
}
