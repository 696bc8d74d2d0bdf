// Stopping between any two sector writes of an operation, and loading the disk again.
module FsCrash {
  import opened NawBase
  import opened FsFormat
  import opened FsModel
  import opened FsCatalog
  import opened FsInvariant

  // Two catalogs that answer every lookup alike.
  ghost predicate SameLookups(a: seq<Entry>, b: seq<Entry>) {
    forall key: Key :: Lookup(a, key) == Lookup(b, key)
  }

  // What a reader finds under a key after the machine stopped after k writes and loaded the disk.
  function ReadStopped(st: Fs, effect: Effect, k: nat, key: Key): Option<seq<byte>>
    requires k <= |effect.writes| && DiskOk(StoppedAt(st.disk, effect, k))
  {
    var d := StoppedAt(st.disk, effect, k);
    ReadKey(Load(d), d, key)
  }

  lemma StoppedAtStart(disk: seq<Sector>, effect: Effect)
    ensures StoppedAt(disk, effect, 0) == disk
  {
    assert effect.writes[..0] == [];
    NoWrites(disk);
  }

  // ----- creating -----

  lemma MixOfAppend(es: seq<Entry>, e: Entry, m: nat)
    ensures Mix(es, es + [e], m) == if m <= |es| then es else es + [e]
  {
    if m <= |es| {
      assert (es + [e])[..m] == es[..m];
      assert es[..m] + es[m..] == es;
    }
  }

  // A creation that stops anywhere leaves the old catalog or the new one, and no stored text changes.
  lemma CreateCrash(st: Fs, name: CString, ext: CString, k: nat)
    requires Sound(st) && k <= |Create(st.entries, name, ext).writes|
    ensures
      var effect := Create(st.entries, name, ext);
      var d := StoppedAt(st.disk, effect, k);
      && DiskOk(d) && SuperblockValid(d[SUPERBLOCK_SECTOR])
      && (Load(d) == st.entries || Load(d) == effect.entries)
      && forall e :: e in st.entries ==> Content(d, e) == Content(st.disk, e)
  {
    hide DiskOk, Mirrored, FlushWrites, ApplyAll, Apply, SuperblockValid, IsValidEntry, FreeFrom, KeyOf, FindFrom,
      Load, Content, Mix, LoadSlots, OpWrites, StoppedAt;
    var effect := Create(st.entries, name, ext);
    ReloadIsIdentity(st);
    StoppedAtStart(st.disk, effect);
    if k > 0 {
      var e := NewFile(st.entries, name, ext);
      NewFileValid(st.entries, name, ext);
      SectorIsData(e);
      var new', w := st.entries + [e], Write(e.sector, ZERO_SECTOR);
      WholeOp(effect, w);
      MixOfAppend(st.entries, e, (k - 1) * ENTRIES_PER_SECTOR);
      StoppedOp(st, new', effect, w, k);
      forall x | x in st.entries ensures Content(StoppedAt(st.disk, effect, k), x) == Content(st.disk, x) {
        assert InUse(st.entries, x.sector);
        SameContent(st, effect, w, k, x);
      }
    }
  }

  lemma WholeOp(effect: Effect, w: Write)
    requires effect.writes == [w] + FlushWrites(effect.entries, CATALOG_SECTORS)
    ensures effect.writes == OpWrites(w, effect.entries) && |effect.writes| == 1 + CATALOG_SECTORS
  {
  }

  lemma OpLength(w: Write, entries: seq<Entry>)
    ensures |OpWrites(w, entries)| == 1 + CATALOG_SECTORS
  {
  }

  // The reloaded catalog of an operation stopped after its data write, and its superblock.
  lemma StoppedOp(st: Fs, new': seq<Entry>, effect: Effect, w: Write, k: nat)
    requires Sound(st) && AllValid(new') && IsDataWrite(w)
    requires effect.entries == new' && effect.writes == OpWrites(w, new')
    requires 1 <= k <= |effect.writes| && |Mix(st.entries, new', (k - 1) * ENTRIES_PER_SECTOR)| <= MAX_FILES
    ensures |effect.writes| == 1 + CATALOG_SECTORS
    ensures
      var d := StoppedAt(st.disk, effect, k);
      && DiskOk(d) && SuperblockValid(d[SUPERBLOCK_SECTOR])
      && Load(d) == Mix(st.entries, new', (k - 1) * ENTRIES_PER_SECTOR)
  {
    hide DiskOk, Mirrored, FlushWrites, ApplyAll, Apply, SuperblockValid, AllValid, Load, Mix, LoadSlots;
    DiskLength(st.disk);
    StoppedLoads(st.disk, st.entries, new', w, k);
    OtherSector(st.disk, w, new', k, SUPERBLOCK_SECTOR);
  }

  // Entries on other sectors keep their text.
  lemma SameContent(st: Fs, effect: Effect, w: Write, k: nat, e: Entry)
    requires Sound(st) && IsDataWrite(w) && effect.writes == OpWrites(w, effect.entries)
    requires 1 <= k <= 1 + CATALOG_SECTORS && e in st.entries && e.sector != w.lba
    ensures k <= |effect.writes| && Content(StoppedAt(st.disk, effect, k), e) == Content(st.disk, e)
  {
    hide Mirrored, FlushWrites, ApplyAll, Apply, SuperblockValid, CStr;
    var i :| 0 <= i < |st.entries| && st.entries[i] == e;
    OtherSector(st.disk, w, effect.entries, k, e.sector);
  }

  // ----- deleting -----

  lemma MixOfRemove(es: seq<Entry>, i: nat, m: nat)
    requires i < |es|
    ensures m <= i ==> Mix(es, Without(es, i), m) == es
    ensures m >= |es| ==> Mix(es, Without(es, i), m) == Without(es, i)
    ensures i < m < |es| ==>
      var new' := Without(es, i);
      Mix(es, new', m) == new'[..m] + [new'[m - 1]] + new'[m..]
  {
    var new' := Without(es, i);
    if m <= i {
      assert new'[..m] == es[..m];
      assert es[..m] + es[m..] == es;
    } else if m < |es| {
      assert es[m..] == [es[m]] + es[m + 1..];
      assert new'[m..] == es[m + 1..];
    }
  }

  // The catalog a reload finds in the middle of a deletion answers lookups like the old or the new one.
  lemma MixOfRemoveLooksUp(es: seq<Entry>, i: nat, m: nat)
    requires i < |es|
    ensures SameLookups(Mix(es, Without(es, i), m), es) || SameLookups(Mix(es, Without(es, i), m), Without(es, i))
  {
    hide Mix, Lookup;
    MixOfRemove(es, i, m);
    if i < m < |es| {
      var new' := Without(es, i);
      forall key: Key ensures Lookup(Mix(es, new', m), key) == Lookup(new', key) {
        assert new'[..m][m - 1] == new'[m - 1];
        LookupDuplicate(new'[..m], new'[m - 1], new'[m..], key);
        assert new'[..m] + new'[m..] == new';
      }
    }
  }

  lemma MixOfRemoveFits(es: seq<Entry>, i: nat, m: nat)
    requires i < |es| <= MAX_FILES
    ensures |Mix(es, Without(es, i), m)| <= MAX_FILES
  {
  }

  // Other keys find what they found; the removed one nothing, when the entry was the only one with its key.
  lemma GoneAfterRemoval(es: seq<Entry>, i: nat, key: Key)
    requires i < |es|
    ensures DistinctKeys(es) ==> Lookup(Without(es, i), EntryKey(es[i])) == None
    ensures key != EntryKey(es[i]) ==> Lookup(Without(es, i), key) == Lookup(es, key)
  {
    var a, b := es[..i], es[i + 1..];
    assert es == a + [es[i]] + b;
    LookupConcat(a, b, key);
    LookupConcat(a + [es[i]], b, key);
    LookupConcat(a, [es[i]], key);
    if DistinctKeys(es) {
      forall r | 0 <= r < |es| - 1 ensures EntryKey(Without(es, i)[r]) != EntryKey(es[i]) {
        assert Without(es, i)[r] == es[if r < i then r else r + 1];
      }
    }
  }

  // A deletion that stops anywhere: lookups find the old or the new catalog; the other files read as
  // before; the deleted file is gone, or still listed and empty.
  lemma DeleteCrash(st: Fs, name: CString, ext: CString, i: nat, k: nat)
    requires Sound(st) && Find(st.entries, KeyOf(name, ext)) == i && 0 < k <= 1 + CATALOG_SECTORS
    ensures
      var effect := Delete(st.entries, name, ext);
      && |effect.writes| == 1 + CATALOG_SECTORS
      && var d := StoppedAt(st.disk, effect, k);
      && DiskOk(d) && SuperblockValid(d[SUPERBLOCK_SECTOR])
      && (SameLookups(Load(d), st.entries) || SameLookups(Load(d), effect.entries))
      && ReadStopped(st, effect, k, KeyOf(name, ext)) in {None, Some([])}
      && forall key: Key :: key != KeyOf(name, ext) ==>
        ReadStopped(st, effect, k, key) == ReadKey(st.entries, st.disk, key)
  {
    hide DiskOk, Mirrored, FlushWrites, ApplyAll, Apply, SuperblockValid, IsValidEntry, KeyOf, FindFrom, OpWrites,
      Load, Content, Mix, LoadSlots, StoppedAt, Paired, Lookup, AllHold, Delete, Without;
    var effect, w := Delete(st.entries, name, ext), Write(st.entries[i].sector, ZERO_SECTOR);
    DeleteIs(st.entries, name, ext);
    WholeOp(effect, w);
    DeletedOp(st, i, effect, w, k);
    MixOfRemoveLooksUp(st.entries, i, (k - 1) * ENTRIES_PER_SECTOR);
    forall key: Key
      ensures key != KeyOf(name, ext) ==> ReadStopped(st, effect, k, key) == ReadKey(st.entries, st.disk, key)
      ensures key == KeyOf(name, ext) ==> ReadStopped(st, effect, k, key) in {None, Some([])}
    {
      ReadAfterDelete(st, i, effect, w, k, key);
    }
  }

  // What a reload finds when a deletion stops after its data write.
  lemma DeletedOp(st: Fs, i: nat, effect: Effect, w: Write, k: nat)
    requires Sound(st) && i < |st.entries| && w == Write(st.entries[i].sector, ZERO_SECTOR)
    requires effect.entries == Without(st.entries, i) && effect.writes == OpWrites(w, effect.entries)
    requires 1 <= k <= 1 + CATALOG_SECTORS
    ensures IsDataWrite(w) && |effect.writes| == 1 + CATALOG_SECTORS
    ensures
      var d := StoppedAt(st.disk, effect, k);
      && DiskOk(d) && SuperblockValid(d[SUPERBLOCK_SECTOR])
      && Load(d) == Mix(st.entries, Without(st.entries, i), (k - 1) * ENTRIES_PER_SECTOR)
  {
    hide DiskOk, Mirrored, FlushWrites, ApplyAll, Apply, SuperblockValid, IsValidEntry, OpWrites, Load, Mix,
      LoadSlots, StoppedAt, Paired, AllHold, Without;
    OpLength(w, effect.entries);
    SectorIsData(st.entries[i]);
    WithoutValid(st.entries, i);
    MixOfRemoveFits(st.entries, i, (k - 1) * ENTRIES_PER_SECTOR);
    StoppedOp(st, effect.entries, effect, w, k);
  }

  lemma WithoutValid(es: seq<Entry>, i: nat)
    requires i < |es| && AllValid(es)
    ensures AllValid(Without(es, i))
  {
    hide IsValidEntry;
    forall j | 0 <= j < |es| - 1 ensures IsValidEntry(Without(es, i)[j]) {
      assert Without(es, i)[j] == es[if j < i then j else j + 1];
    }
  }

  lemma ReadAfterDelete(st: Fs, i: nat, effect: Effect, w: Write, k: nat, key: Key)
    requires Sound(st) && i < |st.entries| && w == Write(st.entries[i].sector, ZERO_SECTOR) && IsDataWrite(w)
    requires effect.entries == Without(st.entries, i) && effect.writes == OpWrites(w, effect.entries)
    requires 1 <= k <= |effect.writes| == 1 + CATALOG_SECTORS && DiskOk(StoppedAt(st.disk, effect, k))
    requires
      var d := StoppedAt(st.disk, effect, k);
      SameLookups(Load(d), st.entries) || SameLookups(Load(d), Without(st.entries, i))
    ensures key != EntryKey(st.entries[i]) ==> ReadStopped(st, effect, k, key) == ReadKey(st.entries, st.disk, key)
    ensures key == EntryKey(st.entries[i]) ==> ReadStopped(st, effect, k, key) in {None, Some([])}
  {
    hide DiskOk, Mirrored, FlushWrites, ApplyAll, Apply, SuperblockValid, IsValidEntry, FindFrom, AllHold, AllValid,
      Load, Content, Mix, LoadSlots, OpWrites, StoppedAt, ReadKey, Lookup, Without;
    var d := StoppedAt(st.disk, effect, k);
    GoneAfterRemoval(st.entries, i, key);
    ReadIsLookup(Load(d), d, key);
    ReadIsLookup(st.entries, st.disk, key);
    LookupAt(st, i, st.entries, key);
    WithoutIn(st.entries, i);
    LookupAt(st, i, Without(st.entries, i), key);
    if key == EntryKey(st.entries[i]) {
      if Lookup(Load(d), key).Some? { ZeroedReadsEmpty(st, effect, w, k, Lookup(Load(d), key).value); }
    } else if Lookup(st.entries, key).Some? {
      SameContent(st, effect, w, k, Lookup(st.entries, key).value);
    }
  }

  lemma WithoutIn(es: seq<Entry>, i: nat)
    requires i < |es|
    ensures forall j :: 0 <= j < |Without(es, i)| ==> Without(es, i)[j] in es
  {
    forall j | 0 <= j < |Without(es, i)| ensures Without(es, i)[j] in es {
      assert Without(es, i)[j] == es[if j < i then j else j + 1];
    }
  }

  // A lookup finds an entry on the sector of entry i exactly for its key.
  lemma LookupAt(st: Fs, i: nat, es: seq<Entry>, key: Key)
    requires Sound(st) && i < |st.entries| && forall j :: 0 <= j < |es| ==> es[j] in st.entries
    ensures
      var r := Lookup(es, key);
      r.Some? ==>
        r.value in st.entries && (key == EntryKey(st.entries[i]) <==> r.value.sector == st.entries[i].sector)
  {
    hide DiskOk, Mirrored, SuperblockValid, AllValid, FindFrom;
    var j := Find(es, key);
    if j >= 0 { var p :| 0 <= p < |st.entries| && st.entries[p] == es[j]; }
  }

  lemma ZeroedReadsEmpty(st: Fs, effect: Effect, w: Write, k: nat, e: Entry)
    requires Sound(st) && w == Write(e.sector, ZERO_SECTOR) && IsDataWrite(w)
    requires effect.writes == OpWrites(w, effect.entries) && 1 <= k <= |effect.writes| == 1 + CATALOG_SECTORS
    ensures Content(StoppedAt(st.disk, effect, k), e) == []
  {
    hide Mirrored, FlushWrites, ApplyAll, Apply, SuperblockValid, OpWrites, CStr;
    OtherSector(st.disk, w, effect.entries, k, w.lba);
    if e.size <= SECTOR_SIZE { ZerosReadEmpty(ZERO_SECTOR[..e.size]); }
  }

  lemma ZerosReadEmpty(b: seq<byte>)
    requires forall i :: 0 <= i < |b| ==> b[i] == 0
    ensures CStr(b) == []
  {
  }

  // The entry left twice: a stopped deletion leaves distinct keys exactly when the sector boundary it
  // stopped at is not inside the shifted part.
  lemma DeleteLeavesDuplicate(st: Fs, name: CString, ext: CString, i: nat, k: nat)
    requires Inv(st) && Find(st.entries, KeyOf(name, ext)) == i && 0 < k <= 1 + CATALOG_SECTORS
    ensures
      var effect := Delete(st.entries, name, ext);
      && |effect.writes| == 1 + CATALOG_SECTORS
      && var d := StoppedAt(st.disk, effect, k);
      DiskOk(d) && (DistinctKeys(Load(d)) <==> !(i < (k - 1) * ENTRIES_PER_SECTOR < |st.entries|))
  {
    hide DiskOk, Mirrored, FlushWrites, ApplyAll, Apply, SuperblockValid, IsValidEntry, KeyOf, FindFrom, OpWrites,
      Load, Content, Mix, LoadSlots, StoppedAt, Paired, AllHold, Delete;
    var effect, w := Delete(st.entries, name, ext), Write(st.entries[i].sector, ZERO_SECTOR);
    var new', m := Without(st.entries, i), (k - 1) * ENTRIES_PER_SECTOR;
    DeleteIs(st.entries, name, ext);
    WholeOp(effect, w);
    DeletedOp(st, i, effect, w, k);
    MixOfRemove(st.entries, i, m);
    if i < m < |st.entries| {
      var mixed := new'[..m] + [new'[m - 1]] + new'[m..];
      assert mixed[m - 1] == mixed[m];
    } else {
      WithoutDistinct(st.entries, i);
    }
  }

  lemma WithoutDistinct(es: seq<Entry>, i: nat)
    requires i < |es| && DistinctKeys(es)
    ensures DistinctKeys(Without(es, i))
  {
    forall a, b | 0 <= a < b < |es| - 1 ensures EntryKey(Without(es, i)[a]) != EntryKey(Without(es, i)[b]) {
      assert Without(es, i)[a] == es[if a < i then a else a + 1];
      assert Without(es, i)[b] == es[if b < i then b else b + 1];
    }
  }

  // ----- writing -----

  lemma MixOfUpdate(es: seq<Entry>, i: nat, e: Entry, m: nat)
    requires i < |es|
    ensures Mix(es, es[i := e], m) == if m <= i then es else es[i := e]
  {
    var new' := es[i := e];
    if m <= i {
      assert new'[..m] == es[..m];
      assert es[..m] + es[m..] == es;
    } else if m <= |es| {
      assert es[m..] == new'[m..];
      assert new'[..m] + new'[m..] == new';
    }
  }

  function Cut(text: seq<byte>, n: nat): seq<byte> { text[..Min(n, |text|)] }

  // The catalog sector that holds entry i is among the first k - 1 written.
  predicate Reached(i: nat, k: nat) { i < (k - 1) * ENTRIES_PER_SECTOR }

  // What a stopped write leaves of the file: the new text, cut to the old size until the catalog
  // sector that holds its entry has been written. The other files read as before.
  lemma WriteCrash(st: Fs, name: CString, ext: CString, data: CString, effect: Effect, i: nat, k: nat)
    requires Sound(st) && Find(st.entries, KeyOf(name, ext)) == i && data.Some? && 0 < k <= 1 + CATALOG_SECTORS
    requires effect == WriteFile(st.entries, name, ext, data)
    ensures |effect.writes| == 1 + CATALOG_SECTORS
    ensures
      var d := StoppedAt(st.disk, effect, k);
      && DiskOk(d) && SuperblockValid(d[SUPERBLOCK_SECTOR])
      && Load(d) == (if Reached(i, k) then effect.entries else st.entries)
    ensures ReadStopped(st, effect, k, KeyOf(name, ext))
      == Some(if Reached(i, k) then Stored(data.value) else Cut(Stored(data.value), st.entries[i].size))
    ensures forall key: Key :: key != KeyOf(name, ext) ==>
      ReadStopped(st, effect, k, key) == ReadKey(st.entries, st.disk, key)
  {
    hide DiskOk, Mirrored, FlushWrites, ApplyAll, Apply, SuperblockValid, IsValidEntry, KeyOf, FindFrom, Cut, Load,
      Content, Mix, LoadSlots, OpWrites, StoppedAt, Stored, DataSector, Paired, Lookup,
      AllHold;
    var text := Stored(data.value);
    var w := Write(st.entries[i].sector, DataSector(data.value));
    WholeOp(effect, w);
    StoredFronted(data);
    SectorIsData(st.entries[i]);
    ResizedValid(st.entries, i, |text|);
    MixOfUpdate(st.entries, i, st.entries[i].(size := |text|), (k - 1) * ENTRIES_PER_SECTOR);
    StoppedOp(st, effect.entries, effect, w, k);
    ReadAfterWrite(st, i, text, effect, w, k, KeyOf(name, ext));
    forall key: Key | key != KeyOf(name, ext)
      ensures ReadStopped(st, effect, k, key) == ReadKey(st.entries, st.disk, key)
    {
      ReadAfterWrite(st, i, text, effect, w, k, key);
    }
  }

  lemma ResizedValid(es: seq<Entry>, i: nat, size: u16)
    requires i < |es| && AllValid(es) && size <= MAX_FILE_SIZE
    ensures AllValid(es[i := es[i].(size := size)])
  {
  }

  // A sector with a text at its front.
  predicate Fronted(b: Sector, text: seq<byte>) {
    |b| == SECTOR_SIZE && text <= b && 0 !in text && forall i :: |text| <= i < |b| ==> b[i] == 0
  }

  lemma StoredFronted(data: CString)
    requires data.Some?
    ensures Fronted(DataSector(data.value), Stored(data.value))
  {
    StoredText(data);
  }

  predicate WroteText(st: Fs, i: nat, text: seq<byte>, effect: Effect, w: Write) {
    && i < |st.entries| && Find(st.entries, EntryKey(st.entries[i])) == i && |text| <= MAX_FILE_SIZE
    && w.lba == st.entries[i].sector && IsDataWrite(w) && Fronted(w.data, text)
    && effect.entries == st.entries[i := st.entries[i].(size := |text|)]
    && effect.writes == OpWrites(w, effect.entries)
  }

  lemma ReadAfterWrite(st: Fs, i: nat, text: seq<byte>, effect: Effect, w: Write, k: nat, key: Key)
    requires Sound(st) && WroteText(st, i, text, effect, w) && 1 <= k <= |effect.writes|
    requires DiskOk(StoppedAt(st.disk, effect, k))
    requires Load(StoppedAt(st.disk, effect, k)) == if Reached(i, k) then effect.entries else st.entries
    ensures key != EntryKey(st.entries[i]) ==> ReadStopped(st, effect, k, key) == ReadKey(st.entries, st.disk, key)
    ensures key == EntryKey(st.entries[i]) ==>
      ReadStopped(st, effect, k, key) == Some(if Reached(i, k) then text else Cut(text, st.entries[i].size))
  {
    hide DiskOk, Mirrored, FlushWrites, ApplyAll, Apply, SuperblockValid, FindFrom, AllHold, Load, Content, Mix,
      LoadSlots, OpWrites, StoppedAt, ReadKey, Lookup, Paired, Fronted, Reached;
    var d := StoppedAt(st.disk, effect, k);
    OpLength(w, effect.entries);
    ReadIsLookup(Load(d), d, key);
    ReadIsLookup(st.entries, st.disk, key);
    LookupAt(st, i, st.entries, key);
    LookupResized(st.entries, i, |text|, key);
    if key == EntryKey(st.entries[i]) {
      WrittenContent(st, i, text, effect, w, k, Load(d)[i]);
      assert Cut(text, |text|) == text;
    } else if Lookup(st.entries, key).Some? {
      SameContent(st, effect, w, k, Lookup(st.entries, key).value);
    }
  }

  // A new size changes what its own key finds and no other.
  lemma LookupResized(es: seq<Entry>, i: nat, size: u16, key: Key)
    requires i < |es|
    ensures Find(es, key) == i ==>
      Lookup(es, key) == Some(es[i]) && Lookup(es[i := es[i].(size := size)], key) == Some(es[i].(size := size))
    ensures key != EntryKey(es[i]) ==> Lookup(es[i := es[i].(size := size)], key) == Lookup(es, key)
  {
    hide FindFrom;
    var new' := es[i := es[i].(size := size)];
    var r := Find(es, key);
    if r >= 0 { FindIs(new', key, r); }
  }

  // The text under an entry whose sector has just been written.
  lemma WrittenContent(st: Fs, i: nat, text: seq<byte>, effect: Effect, w: Write, k: nat, e: Entry)
    requires Sound(st) && WroteText(st, i, text, effect, w) && 1 <= k <= 1 + CATALOG_SECTORS <= |effect.writes|
    requires e.sector == st.entries[i].sector && e.size <= MAX_FILE_SIZE
    ensures Content(StoppedAt(st.disk, effect, k), e) == Cut(text, e.size)
  {
    hide Mirrored, FlushWrites, ApplyAll, Apply, SuperblockValid, OpWrites, CStr, Fronted;
    OtherSector(st.disk, w, effect.entries, k, w.lba);
    FrontReads(w.data, text, e.size);
  }

  lemma FrontReads(b: Sector, text: seq<byte>, n: nat)
    requires Fronted(b, text) && n <= SECTOR_SIZE
    ensures CStr(b[..n]) == Cut(text, n)
  {
    hide CStr;
    var cut := Cut(text, n);
    var rest := b[..n][|cut|..];
    assert b[..n] == cut + rest;
    assert forall x :: x in cut ==> x in text;
    CStrOf(cut, rest);
  }

  // A write is all or nothing at every stopping point exactly when the new text is no longer than the
  // recorded size, or extends an old text of that size.
  lemma WriteAtomic(st: Fs, name: CString, ext: CString, data: CString, effect: Effect, i: nat, was: seq<byte>)
    requires Sound(st) && Find(st.entries, KeyOf(name, ext)) == i && data.Some?
    requires effect == WriteFile(st.entries, name, ext, data) && was == Content(st.disk, st.entries[i])
    ensures forall k: nat :: 0 < k <= |effect.writes| ==> DiskOk(StoppedAt(st.disk, effect, k))
    ensures (forall k: nat :: 0 < k <= |effect.writes| ==>
        ReadStopped(st, effect, k, KeyOf(name, ext)) in {Some(was), Some(Stored(data.value))})
      <==> |Stored(data.value)| <= st.entries[i].size || (|was| == st.entries[i].size && was <= Stored(data.value))
  {
    hide DiskOk, Mirrored, FlushWrites, ApplyAll, Apply, SuperblockValid, IsValidEntry, KeyOf, FindFrom, AllValid,
      Cut, Load, Content, Mix, LoadSlots, OpWrites, StoppedAt, Stored, DataSector, Paired, DistinctKeys,
      Lookup, ReadStopped;
    var text, size := Stored(data.value), st.entries[i].size;
    forall k: nat | 0 < k <= |effect.writes|
      ensures DiskOk(StoppedAt(st.disk, effect, k))
      ensures ReadStopped(st, effect, k, KeyOf(name, ext)) == Some(if Reached(i, k) then text else Cut(text, size))
    {
      WriteCrash(st, name, ext, data, effect, i, k);
    }
    assert ReadStopped(st, effect, 1, KeyOf(name, ext)) == Some(Cut(text, size));
    CutIs(text, was, size);
  }

  lemma CutIs(text: seq<byte>, was: seq<byte>, n: nat)
    ensures Cut(text, n) == was || Cut(text, n) == text <==> |text| <= n || (|was| == n && was <= text)
  {
  }

  // Where texts are whole, the recorded size is the length of the text that is read.
  lemma WholeTextRead(st: Fs, i: nat)
    requires WholeTexts(st) && i < |st.entries|
    ensures |Content(st.disk, st.entries[i])| == st.entries[i].size
  {
    assert Holds(st.disk, st.entries[i]);
    HeldContent(st.disk, st.entries[i]);
  }

  // A text without zeros reads back whole.
  lemma HeldContent(disk: seq<Sector>, e: Entry)
    requires Holds(disk, e)
    ensures Content(disk, e) == disk[e.sector][..e.size] && |Content(disk, e)| == e.size
  {
    hide CStr;
    CStrOf(disk[e.sector][..e.size], []);
    assert disk[e.sector][..e.size] + [] == disk[e.sector][..e.size];
  }

  // ----- formatting -----

  lemma {:induction false} ZeroPrefix(from: int, n: nat, k: nat)
    requires k <= n
    ensures ZeroWrites(from, n)[..k] == ZeroWrites(from, k)
    decreases n
  {
    if k < n {
      ZeroPrefix(from, n - 1, k);
      assert ZeroWrites(from, n)[..k] == ZeroWrites(from, n - 1)[..k];
    }
  }

  // How many catalog sectors, and how many data sectors, the first k writes of a format have zeroed.
  function Wiped(k: nat): nat { if k == 0 then 0 else Min(k - 1, CATALOG_SECTORS) }
  function WipedData(k: nat): nat { Max(0, k - 1 - CATALOG_SECTORS) }

  lemma FormatPrefix(k: nat)
    requires 0 < k <= |FormatWrites()|
    ensures WipedData(k) <= DATA_SECTORS
    ensures FormatWrites()[..k] == [Write(SUPERBLOCK_SECTOR, Superblock())] + ZeroWrites(CATALOG_START, Wiped(k))
      + ZeroWrites(DATA_START, WipedData(k))
  {
    ZeroPrefix(CATALOG_START, CATALOG_SECTORS, Wiped(k));
    ZeroPrefix(DATA_START, DATA_SECTORS, WipedData(k));
    hide ZeroWrites, Superblock;
    var w := [Write(SUPERBLOCK_SECTOR, Superblock())];
    var a, b := ZeroWrites(CATALOG_START, CATALOG_SECTORS), ZeroWrites(DATA_START, DATA_SECTORS);
    TakeThree(w, a, b, k);
  }

  lemma TakeThree(w: seq<Write>, a: seq<Write>, b: seq<Write>, k: nat)
    requires |w| == 1 && 1 <= k <= 1 + |a| + |b|
    ensures (w + a + b)[..k] == w + a[..Min(k - 1, |a|)] + b[..Max(0, k - 1 - |a|)]
  {
  }

  lemma FormatStoppedSector(disk: seq<Sector>, k: nat, s: nat)
    requires |disk| == DISK_SECTORS && 0 < k <= |FormatWrites()| && s < DISK_SECTORS
    ensures ApplyAll(disk, FormatWrites()[..k])[s] ==
      if s == SUPERBLOCK_SECTOR then Superblock()
      else if CATALOG_START <= s < CATALOG_START + Wiped(k) || DATA_START <= s < DATA_START + WipedData(k) then
        ZERO_SECTOR
      else disk[s]
  {
    hide ApplyAll, FormatWrites, Superblock, ZeroWrites;
    FormatPrefix(k);
    WipedSector(disk, Wiped(k), WipedData(k), s);
  }

  lemma WipedSector(disk: seq<Sector>, x: nat, y: nat, s: nat)
    requires |disk| == DISK_SECTORS && x <= CATALOG_SECTORS && y <= DATA_SECTORS && s < DISK_SECTORS
    ensures
      var ws := [Write(SUPERBLOCK_SECTOR, Superblock())] + ZeroWrites(CATALOG_START, x) + ZeroWrites(DATA_START, y);
      ApplyAll(disk, ws)[s] ==
        if s == SUPERBLOCK_SECTOR then Superblock()
        else if CATALOG_START <= s < CATALOG_START + x || DATA_START <= s < DATA_START + y then ZERO_SECTOR
        else disk[s]
  {
    hide ZeroWrites, Superblock, ApplyAll;
    var w := Write(SUPERBLOCK_SECTOR, Superblock());
    var a, b := ZeroWrites(CATALOG_START, x), ZeroWrites(DATA_START, y);
    var d := Apply(disk, w);
    assert [w] + a + b == [w] + (a + b);
    OneThen(disk, w, a + b);
    ApplyConcat(d, a, b);
    ZeroSector(d, CATALOG_START, x, s);
    ZeroSector(ApplyAll(d, a), DATA_START, y, s);
  }

  lemma ZeroedSlot(disk: seq<Sector>, i: nat)
    requires DiskOk(disk) && i < SLOTS && disk[CATALOG_START + i / ENTRIES_PER_SECTOR] == ZERO_SECTOR
    ensures SlotOnDisk(disk, i) == Slot([], i)
  {
  }

  // The superblock is written first: a format that stops later leaves a recognised disk, which lists what
  // the catalog sectors not yet zeroed hold, whatever was on the disk.
  lemma FormatCrash(disk: seq<Sector>, k: nat)
    requires DiskOk(disk) && 0 < k <= |FormatWrites()|
    ensures
      var d := ApplyAll(disk, FormatWrites()[..k]);
      && DiskOk(d) && SuperblockValid(d[SUPERBLOCK_SECTOR])
      && Load(d) == LoadRange(disk, Wiped(k) * ENTRIES_PER_SECTOR, SLOTS)
  {
    hide ApplyAll, FormatWrites, SlotOnDisk, Slot, LoadSlots, IsValidEntry;
    var d, m := ApplyAll(disk, FormatWrites()[..k]), Wiped(k) * ENTRIES_PER_SECTOR;
    forall s | 0 <= s < |d| ensures |d[s]| == SECTOR_SIZE { FormatStoppedSector(disk, k, s); }
    FormatStoppedSector(disk, k, SUPERBLOCK_SECTOR);
    SuperblockRecognised(Superblock());
    forall i: nat | i < SLOTS ensures SlotOnDisk(d, i) == if i < m then Slot([], i) else SlotOnDisk(disk, i) {
      FormatStoppedSector(disk, k, CATALOG_START + i / ENTRIES_PER_SECTOR);
      if i < m { ZeroedSlot(d, i); } else { SameSlot(disk, d, i); }
    }
    LoadPastEmpty(d, disk, m, SLOTS);
  }

  // On a disk that held a catalog, the last of its entries; once the catalog is wiped, none.
  lemma FormatCrashTail(disk: seq<Sector>, was: seq<Entry>, k: nat)
    requires DiskOk(disk) && Mirrored(disk, was) && AllValid(was) && 0 < k <= |FormatWrites()|
    ensures
      var d := ApplyAll(disk, FormatWrites()[..k]);
      DiskOk(d) && Load(d) == was[Min(Wiped(k) * ENTRIES_PER_SECTOR, |was|)..]
  {
    hide ApplyAll, FormatWrites, LoadSlots, DiskOk, Mirrored;
    FormatCrash(disk, k);
    RangeOfMirror(disk, was, Wiped(k) * ENTRIES_PER_SECTOR, SLOTS);
  }
}
