// The catalog on disk and in memory: what a flush leaves there, whole or cut short, and what loading
// it back finds.
module FsCatalog {
  import opened NawBase
  import opened FsFormat
  import opened FsModel

  const SLOTS := 144

  // The disk's catalog holds exactly these entries.
  ghost predicate Mirrored(disk: seq<Sector>, entries: seq<Entry>)
    requires DiskOk(disk)
  {
    forall i :: 0 <= i < SLOTS ==> SlotOnDisk(disk, i) == Slot(entries, i)
  }

  predicate AllValid(entries: seq<Entry>) {
    |entries| <= MAX_FILES && forall i :: 0 <= i < |entries| ==> IsValidEntry(entries[i])
  }

  // ----- the effect of a flush on the disk -----

  lemma SliceOfLeft(a: seq<byte>, b: seq<byte>, lo: nat, hi: nat)
    requires lo <= hi <= |a|
    ensures (a + b)[lo..hi] == a[lo..hi]
  {
  }

  lemma SliceOfRight(a: seq<byte>, b: seq<byte>, lo: nat, hi: nat)
    requires lo == |a| && hi == |a| + |b|
    ensures (a + b)[lo..hi] == b
  {
  }

  lemma {:induction false} SlotsAt(entries: seq<Entry>, from: nat, n: nat, j: nat, lo: nat, hi: nat)
    requires j < n && lo == j * ENTRY_SIZE && hi == lo + ENTRY_SIZE
    ensures hi <= n * ENTRY_SIZE && Slots(entries, from, n)[lo..hi] == Slot(entries, from + j)
    decreases n
  {
    hide Slot;
    var init := Slots(entries, from, n - 1);
    if j < n - 1 {
      SlotsAt(entries, from, n - 1, j, lo, hi);
      SliceOfLeft(init, Slot(entries, from + n - 1), lo, hi);
    } else {
      SliceOfRight(init, Slot(entries, from + n - 1), lo, hi);
    }
  }

  // The first k writes of a flush replace the first k catalog sectors, and touch nothing else.
  lemma {:induction false} FlushSector(disk: seq<Sector>, entries: seq<Entry>, k: nat, s: nat)
    requires |disk| == DISK_SECTORS && k <= CATALOG_SECTORS && s < DISK_SECTORS
    ensures ApplyAll(disk, FlushWrites(entries, k))[s] ==
      if CATALOG_START <= s < CATALOG_START + k then CatalogSector(entries, s - CATALOG_START) else disk[s]
    decreases k
  {
    hide CatalogSector;
    if k > 0 {
      FlushSector(disk, entries, k - 1, s);
      ApplyLast(disk, FlushWrites(entries, k - 1), Write(CATALOG_START + k - 1, CatalogSector(entries, k - 1)));
    }
  }

  lemma FlushDiskOk(disk: seq<Sector>, entries: seq<Entry>, k: nat)
    requires DiskOk(disk) && k <= CATALOG_SECTORS
    ensures DiskOk(ApplyAll(disk, FlushWrites(entries, k)))
  {
    hide ApplyAll, FlushWrites, CatalogSector;
    var d := ApplyAll(disk, FlushWrites(entries, k));
    forall s | 0 <= s < |d| ensures |d[s]| == SECTOR_SIZE { FlushSector(disk, entries, k, s); }
  }

  // Slot by slot: the new catalog as far as the flush got, the old one after that.
  lemma FlushSlots(disk: seq<Sector>, old': seq<Entry>, new': seq<Entry>, k: nat, i: nat)
    requires DiskOk(disk) && k <= CATALOG_SECTORS && i < SLOTS && SlotOnDisk(disk, i) == Slot(old', i)
    ensures DiskOk(ApplyAll(disk, FlushWrites(new', k)))
    ensures SlotOnDisk(ApplyAll(disk, FlushWrites(new', k)), i) ==
      Slot(if i < k * ENTRIES_PER_SECTOR then new' else old', i)
  {
    FlushDiskOk(disk, new', k);
    hide ApplyAll, FlushWrites, Slot, Slots, DiskOk, SlotOnDisk, CatalogSector;
    var s := i / ENTRIES_PER_SECTOR;
    DiskLength(disk);
    FlushSector(disk, new', k, CATALOG_START + s);
    if s < k {
      NewSlot(ApplyAll(disk, FlushWrites(new', k)), new', i);
    } else {
      SameSlot(disk, ApplyAll(disk, FlushWrites(new', k)), i);
    }
  }

  lemma NewSlot(disk: seq<Sector>, entries: seq<Entry>, i: nat)
    requires DiskOk(disk) && i < SLOTS
    requires disk[CATALOG_START + i / ENTRIES_PER_SECTOR] == CatalogSector(entries, i / ENTRIES_PER_SECTOR)
    ensures SlotOnDisk(disk, i) == Slot(entries, i)
  {
    hide Slot, Slots;
    var j := i % ENTRIES_PER_SECTOR;
    SlotsAt(entries, i / ENTRIES_PER_SECTOR * ENTRIES_PER_SECTOR, ENTRIES_PER_SECTOR, j,
            j * ENTRY_SIZE, j * ENTRY_SIZE + ENTRY_SIZE);
  }

  lemma SameSlot(was: seq<Sector>, disk: seq<Sector>, i: nat)
    requires DiskOk(was) && DiskOk(disk) && i < SLOTS
    requires disk[CATALOG_START + i / ENTRIES_PER_SECTOR] == was[CATALOG_START + i / ENTRIES_PER_SECTOR]
    ensures SlotOnDisk(disk, i) == SlotOnDisk(was, i)
  {
  }

  lemma DiskLength(disk: seq<Sector>)
    requires DiskOk(disk)
    ensures |disk| == DISK_SECTORS
  {
  }

  // ----- what loading finds -----

  lemma SlotEntry(entries: seq<Entry>, i: nat)
    requires AllValid(entries)
    ensures i < |entries| ==> Decode(Slot(entries, i)) == entries[i]
    ensures i >= |entries| ==> !IsValidEntry(Decode(Slot(entries, i)))
  {
    if i < |entries| { EncodeDecode(entries[i]); } else { EmptySlot(); }
  }

  // The entries found when the first m slots hold those of new' and the others those of old'.
  function Mix(old': seq<Entry>, new': seq<Entry>, m: nat): seq<Entry> {
    new'[..Min(m, |new'|)] + old'[Min(m, |old'|)..]
  }

  function MixUpTo(old': seq<Entry>, new': seq<Entry>, m: nat, n: nat): (es: seq<Entry>) {
    if n <= m then new'[..Min(n, |new'|)]
    else new'[..Min(m, |new'|)] + old'[Min(m, |old'|)..Min(n, |old'|)]
  }

  lemma {:induction false} LoadMix(disk: seq<Sector>, old': seq<Entry>, new': seq<Entry>, m: nat, n: nat)
    requires DiskOk(disk) && AllValid(old') && AllValid(new') && n <= SLOTS && |Mix(old', new', m)| <= MAX_FILES
    requires forall i :: 0 <= i < SLOTS ==> SlotOnDisk(disk, i) == Slot(if i < m then new' else old', i)
    ensures LoadSlots(disk, n) == MixUpTo(old', new', m, n)
    decreases n
  {
    if n > 0 {
      LoadMix(disk, old', new', m, n - 1);
      hide IsValidEntry, Decode, Slot, SlotOnDisk;
      var k := n - 1;
      assert SlotOnDisk(disk, k) == Slot(if k < m then new' else old', k);
      SlotEntry(new', k);
      SlotEntry(old', k);
      MixNext(old', new', m, k);
    }
  }

  // The valid entries of slots m to n, at most 64, whatever the slots hold.
  function LoadRange(disk: seq<Sector>, m: nat, n: nat): (es: seq<Entry>)
    requires DiskOk(disk) && m <= n <= SLOTS
    ensures |es| <= MAX_FILES
    decreases n
  {
    if n == m then []
    else
      var es, e := LoadRange(disk, m, n - 1), Decode(SlotOnDisk(disk, n - 1));
      if IsValidEntry(e) && |es| < MAX_FILES then es + [e] else es
  }

  // With the first m slots empty, loading finds what the others hold.
  lemma {:induction false} LoadPastEmpty(disk: seq<Sector>, was: seq<Sector>, m: nat, n: nat)
    requires DiskOk(disk) && DiskOk(was) && m <= SLOTS && n <= SLOTS
    requires forall i: nat :: i < m ==> SlotOnDisk(disk, i) == Slot([], i)
    requires forall i: nat :: m <= i < SLOTS ==> SlotOnDisk(disk, i) == SlotOnDisk(was, i)
    ensures LoadSlots(disk, n) == if n <= m then [] else LoadRange(was, m, n)
    decreases n
  {
    hide DiskOk, SlotOnDisk, Slot, Decode, IsValidEntry;
    if n > 0 {
      LoadPastEmpty(disk, was, m, n - 1);
      NoEntries();
      SlotEntry([], n - 1);
    }
  }

  lemma {:induction false} RangeOfMirror(disk: seq<Sector>, entries: seq<Entry>, m: nat, n: nat)
    requires DiskOk(disk) && AllValid(entries) && Mirrored(disk, entries) && m <= n <= SLOTS
    ensures LoadRange(disk, m, n) == entries[Min(m, |entries|)..Min(n, |entries|)]
    decreases n
  {
    hide DiskOk, SlotOnDisk, Slot, Decode, IsValidEntry, Mirrored;
    if n > m {
      RangeOfMirror(disk, entries, m, n - 1);
      SlotEntry(entries, n - 1);
      MirroredAt(disk, entries, n - 1);
      if n <= |entries| { SliceNext(entries, m, n - 1); }
    }
  }

  lemma MirroredAt(disk: seq<Sector>, entries: seq<Entry>, i: nat)
    requires DiskOk(disk) && Mirrored(disk, entries) && i < SLOTS
    ensures SlotOnDisk(disk, i) == Slot(entries, i)
  {
  }

  // Where an entry lies on the disk.
  lemma EntryPlace(disk: seq<Sector>, entries: seq<Entry>, i: nat)
    requires DiskOk(disk) && Mirrored(disk, entries) && AllValid(entries) && i < |entries|
    ensures disk[130 + i / 16][i % 16 * 32..i % 16 * 32 + 32] == Encode(entries[i])
  {
    hide Mirrored, IsValidEntry, DiskOk, Encode;
    MirroredAt(disk, entries, i);
    ValidShape(entries, i);
    SlotPlace(disk, i / 16, i % 16);
    assert i / 16 * 16 + i % 16 == i;
  }

  lemma ValidShape(entries: seq<Entry>, i: nat)
    requires AllValid(entries) && i < |entries|
    ensures WellShaped(entries[i]) && |entries| <= 64
  {
  }

  lemma SliceNext(entries: seq<Entry>, m: nat, n: nat)
    requires m <= n < |entries|
    ensures entries[m..n + 1] == entries[m..n] + [entries[n]]
  {
  }

  lemma MixNext(old': seq<Entry>, new': seq<Entry>, m: nat, k: nat)
    requires |Mix(old', new', m)| <= MAX_FILES
    ensures var es := if k < m then new' else old';
      if k < |es| then
        MixUpTo(old', new', m, k + 1) == MixUpTo(old', new', m, k) + [es[k]] && |MixUpTo(old', new', m, k)| < MAX_FILES
      else MixUpTo(old', new', m, k + 1) == MixUpTo(old', new', m, k)
    decreases k
  {
    if k >= m && k < |old'| {
      assert old'[Min(m, |old'|)..k + 1] == old'[Min(m, |old'|)..k] + [old'[k]];
      assert k == m ==> old'[m..k] == [];
    }
  }

  // A reload after a flush that stopped after k sectors.
  lemma CrashedFlush(disk: seq<Sector>, old': seq<Entry>, new': seq<Entry>, k: nat)
    requires DiskOk(disk) && Mirrored(disk, old') && AllValid(old') && AllValid(new') && k <= CATALOG_SECTORS
    requires |Mix(old', new', k * ENTRIES_PER_SECTOR)| <= MAX_FILES
    ensures DiskOk(ApplyAll(disk, FlushWrites(new', k)))
    ensures Load(ApplyAll(disk, FlushWrites(new', k))) == Mix(old', new', k * ENTRIES_PER_SECTOR)
  {
    hide ApplyAll, FlushWrites, DiskOk, Slot, SlotOnDisk, AllValid;
    FlushDiskOk(disk, new', k);
    var d := ApplyAll(disk, FlushWrites(new', k));
    var m := k * ENTRIES_PER_SECTOR;
    forall i | 0 <= i < SLOTS ensures SlotOnDisk(d, i) == Slot(if i < m then new' else old', i) {
      FlushSlots(disk, old', new', k, i);
    }
    LoadMix(d, old', new', m, SLOTS);
    MixWhole(old', new', m);
  }

  lemma MixWhole(old': seq<Entry>, new': seq<Entry>, m: nat)
    requires AllValid(old') && AllValid(new') && m <= SLOTS
    ensures MixUpTo(old', new', m, SLOTS) == Mix(old', new', m)
  {
    assert old'[Min(m, |old'|)..|old'|] == old'[Min(m, |old'|)..];
    if m == SLOTS { assert old'[Min(m, |old'|)..] == []; }
  }

  lemma FlushMirrors(disk: seq<Sector>, entries: seq<Entry>)
    requires DiskOk(disk)
    ensures
      var d := ApplyAll(disk, FlushWrites(entries, CATALOG_SECTORS));
      DiskOk(d) && Mirrored(d, entries)
  {
    hide ApplyAll, FlushWrites, DiskOk, Slot, Slots, SlotOnDisk, CatalogSector;
    FlushDiskOk(disk, entries, CATALOG_SECTORS);
    DiskLength(disk);
    var d := ApplyAll(disk, FlushWrites(entries, CATALOG_SECTORS));
    forall i | 0 <= i < SLOTS ensures SlotOnDisk(d, i) == Slot(entries, i) {
      FlushSector(disk, entries, CATALOG_SECTORS, CATALOG_START + i / ENTRIES_PER_SECTOR);
      NewSlot(d, entries, i);
    }
  }

  // A disk that mirrors a catalog loads as that catalog.
  lemma LoadMirror(disk: seq<Sector>, entries: seq<Entry>)
    requires DiskOk(disk) && AllValid(entries) && Mirrored(disk, entries)
    ensures Load(disk) == entries
  {
    hide DiskOk, Slot, SlotOnDisk, AllValid;
    NoEntries();
    assert Mix([], entries, SLOTS) == entries[..Min(SLOTS, |entries|)];
    MixBound(entries);
    LoadMix(disk, [], entries, SLOTS, SLOTS);
  }

  lemma NoEntries()
    ensures AllValid([])
  {
  }

  lemma MixBound(entries: seq<Entry>)
    requires AllValid(entries)
    ensures |entries| <= MAX_FILES && entries[..Min(SLOTS, |entries|)] == entries
  {
  }

  // Flushing a catalog and loading it restores the same entries in the same order.
  lemma FlushLoad(disk: seq<Sector>, entries: seq<Entry>)
    requires DiskOk(disk) && AllValid(entries)
    ensures
      var d := ApplyAll(disk, FlushWrites(entries, CATALOG_SECTORS));
      DiskOk(d) && Load(d) == entries
  {
    hide ApplyAll, FlushWrites, DiskOk, Slot, SlotOnDisk, AllValid, LoadSlots, Mirrored;
    FlushMirrors(disk, entries);
    LoadMirror(ApplyAll(disk, FlushWrites(entries, CATALOG_SECTORS)), entries);
  }

  // ----- lookups -----

  // The entry a key leads to: the first one with it.
  function Lookup(entries: seq<Entry>, key: Key): Option<Entry> {
    var i := Find(entries, key);
    if i < 0 then None else Some(entries[i])
  }

  lemma LookupConcat(a: seq<Entry>, b: seq<Entry>, key: Key)
    ensures Lookup(a + b, key) == if Lookup(a, key).Some? then Lookup(a, key) else Lookup(b, key)
  {
    var i, j := Find(a, key), Find(b, key);
    if i >= 0 {
      assert (a + b)[i] == a[i];
      FindIs(a + b, key, i);
    } else if j >= 0 {
      assert (a + b)[|a| + j] == b[j];
      FindIs(a + b, key, |a| + j);
    }
  }

  lemma FindIs(entries: seq<Entry>, key: Key, i: nat)
    requires i < |entries| && EntryKey(entries[i]) == key
    requires forall j :: 0 <= j < i ==> EntryKey(entries[j]) != key
    ensures Find(entries, key) == i
  {
  }

  // A second copy of an entry further down changes no lookup.
  lemma LookupDuplicate(a: seq<Entry>, e: Entry, b: seq<Entry>, key: Key)
    requires e in a
    ensures Lookup(a + [e] + b, key) == Lookup(a + b, key)
  {
    hide Lookup;
    LookupConcat(a + [e], b, key);
    LookupConcat(a, [e], key);
    LookupConcat(a, b, key);
    LookupOne(a, e, key);
  }

  lemma LookupOne(a: seq<Entry>, e: Entry, key: Key)
    requires e in a
    ensures Lookup([e], key).Some? ==> Lookup(a, key).Some?
  {
    var i :| 0 <= i < |a| && a[i] == e;
    if EntryKey(e) == key { assert EntryKey(a[i]) == key; }
  }

  // What reading gives depends on the entry found and its sector only.
  lemma ReadIsLookup(entries: seq<Entry>, disk: seq<Sector>, key: Key)
    ensures ReadKey(entries, disk, key) ==
      if Lookup(entries, key).None? then None else Some(Content(disk, Lookup(entries, key).value))
  {
  }
}
