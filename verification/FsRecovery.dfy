// Runs in which the machine may stop in the middle of any operation, and is then started again.
module FsRecovery {
  import opened NawBase
  import opened FsFormat
  import opened FsModel
  import opened FsCatalog
  import opened FsInvariant
  import opened FsCrash
  import opened FsMap

  // An operation, or one stopped after k of its sector writes and followed by a reload.
  datatype Event = Call(op: Op) | Stop(op: Op, k: nat)

  function StoppedDisk(st: Fs, op: Op, k: nat): seq<Sector> {
    var effect := EffectOf(st.entries, op);
    StoppedAt(st.disk, effect, Min(k, |effect.writes|))
  }

  function Restarted(st: Fs, op: Op, k: nat): Fs
    requires DiskOk(StoppedDisk(st, op, k))
  {
    Fs(Load(StoppedDisk(st, op, k)), StoppedDisk(st, op, k))
  }

  // The catalog slots that were rewritten before the stop.
  function Rewritten(k: nat): nat { if k == 0 then 0 else Min(k - 1, CATALOG_SECTORS) * ENTRIES_PER_SECTOR }

  // The stop leaves no entry twice: only a deletion can, when it stops inside the part it shifts.
  predicate Clean(st: Fs, op: Op, k: nat) {
    op.DeleteOp? ==>
      var i := Find(st.entries, KeyOf(op.name, op.ext));
      !(0 <= i < Rewritten(k) < |st.entries|)
  }

  // ----- the invariant after a stop -----

  lemma StoppedSlot(disk: seq<Sector>, old': seq<Entry>, new': seq<Entry>, w: Write, k: nat, i: nat)
    requires DiskOk(disk) && Mirrored(disk, old') && IsDataWrite(w) && 1 <= k <= 1 + CATALOG_SECTORS && i < SLOTS
    ensures DiskOk(ApplyAll(disk, OpWrites(w, new')[..k]))
    ensures SlotOnDisk(ApplyAll(disk, OpWrites(w, new')[..k]), i)
      == Slot(if i < (k - 1) * ENTRIES_PER_SECTOR then new' else old', i)
  {
    hide DiskOk, Mirrored, FlushWrites, ApplyAll, Apply, OpWrites, SlotOnDisk, Slot;
    DataWriteKeepsCatalog(disk, w, old');
    PartialIs(disk, w, new', k);
    MirroredAt(Apply(disk, w), old', i);
    FlushSlots(Apply(disk, w), old', new', k - 1, i);
  }

  // The slots hold the loaded catalog when the two catalogs line up at the place of the stop.
  lemma MixSlot(old': seq<Entry>, new': seq<Entry>, m: nat, i: nat)
    requires m <= Min(|old'|, |new'|) || m >= Max(|old'|, |new'|)
    ensures Slot(Mix(old', new', m), i) == Slot(if i < m then new' else old', i)
  {
  }

  lemma StoppedSound(st: Fs, new': seq<Entry>, w: Write, k: nat, m: nat, mixed: seq<Entry>)
    requires Sound(st) && AllValid(new') && IsDataWrite(w)
    requires 1 <= k <= 1 + CATALOG_SECTORS && m == (k - 1) * ENTRIES_PER_SECTOR
    requires m <= Min(|st.entries|, |new'|) || m >= Max(|st.entries|, |new'|)
    requires mixed == Mix(st.entries, new', m) && AllValid(mixed) && Paired(mixed)
    ensures DiskOk(ApplyAll(st.disk, OpWrites(w, new')[..k]))
    ensures Load(ApplyAll(st.disk, OpWrites(w, new')[..k])) == mixed
    ensures Sound(Fs(mixed, ApplyAll(st.disk, OpWrites(w, new')[..k])))
  {
    hide DiskOk, FlushWrites, ApplyAll, Apply, SuperblockValid, IsValidEntry, Paired, OpWrites, Slot, SlotOnDisk,
      Load, Mix, LoadSlots, AllValid;
    OpLength(w, new');
    var d := ApplyAll(st.disk, OpWrites(w, new')[..k]);
    ValidFits(mixed);
    DiskLength(st.disk);
    StoppedLoads(st.disk, st.entries, new', w, k);
    OtherSector(st.disk, w, new', k, SUPERBLOCK_SECTOR);
    forall i | 0 <= i < SLOTS ensures SlotOnDisk(d, i) == Slot(mixed, i) {
      StoppedSlot(st.disk, st.entries, new', w, k, i);
      MixSlot(st.entries, new', m, i);
    }
  }

  lemma ValidFits(entries: seq<Entry>)
    requires AllValid(entries)
    ensures |entries| <= MAX_FILES
  {
  }

  // The operation that was stopped, when it writes at all.
  ghost predicate Acts(st: Fs, effect: Effect, w: Write) {
    IsDataWrite(w) && effect.writes == OpWrites(w, effect.entries) && |effect.writes| == 1 + CATALOG_SECTORS
  }

  lemma CreateActs(st: Fs, name: CString, ext: CString) returns (e: Entry)
    requires Sound(st) && Create(st.entries, name, ext).code == 0
    ensures Create(st.entries, name, ext).entries == st.entries + [e] && e.size == 0 && EntryKey(e) == KeyOf(name, ext)
    ensures Acts(st, Create(st.entries, name, ext), Write(e.sector, ZERO_SECTOR))
    ensures Lookup(st.entries, KeyOf(name, ext)) == None
  {
    hide FlushWrites, FindFrom, FreeFrom, KeyOf, IsValidEntry;
    e := NewFile(st.entries, name, ext);
    NewFileValid(st.entries, name, ext);
    SectorIsData(e);
    WholeOp(Create(st.entries, name, ext), Write(e.sector, ZERO_SECTOR));
  }

  lemma WriteActs(st: Fs, name: CString, ext: CString, data: CString, i: nat)
    requires Sound(st) && Find(st.entries, KeyOf(name, ext)) == i && data.Some?
    ensures
      var effect := WriteFile(st.entries, name, ext, data);
      && effect.code == 0 && effect.entries == st.entries[i := st.entries[i].(size := |Stored(data.value)|)]
      && Acts(st, effect, Write(st.entries[i].sector, DataSector(data.value)))
  {
    hide FlushWrites, FindFrom, KeyOf, Stored, DataSector;
    EntryIsData(st, i);
    WholeOp(WriteFile(st.entries, name, ext, data), Write(st.entries[i].sector, DataSector(data.value)));
  }

  lemma DeleteActs(st: Fs, name: CString, ext: CString, i: nat)
    requires Sound(st) && Find(st.entries, KeyOf(name, ext)) == i
    ensures
      var effect := Delete(st.entries, name, ext);
      && effect.code == 0 && effect.entries == Without(st.entries, i)
      && Acts(st, effect, Write(st.entries[i].sector, ZERO_SECTOR))
  {
    hide FlushWrites, FindFrom, KeyOf;
    EntryIsData(st, i);
    WholeOp(Delete(st.entries, name, ext), Write(st.entries[i].sector, ZERO_SECTOR));
  }

  // The catalog found in the middle of a deletion is made of entries of the old one.
  lemma MixOfRemoveIn(es: seq<Entry>, i: nat, m: nat)
    requires i < |es| && AllValid(es) && Paired(es)
    ensures AllValid(Mix(es, Without(es, i), m)) && Paired(Mix(es, Without(es, i), m))
  {
    hide Paired, IsValidEntry;
    var mixed := Mix(es, Without(es, i), m);
    MixOfRemoveFits(es, i, m);
    forall j | 0 <= j < |mixed| ensures IsValidEntry(mixed[j]) && Placed(es, mixed[j]) {
      var p := MixedFrom(es, i, m, j);
      assert SamePlace(mixed[j], es[p]);
    }
    PairedFrom(es, mixed);
  }

  lemma MixedFrom(es: seq<Entry>, i: nat, m: nat, j: nat) returns (p: nat)
    requires i < |es| && j < |Mix(es, Without(es, i), m)|
    ensures p < |es| && Mix(es, Without(es, i), m)[j] == es[p]
  {
    var n := Min(m, |es| - 1);
    p := if j < n then (if j < i then j else j + 1) else j - n + Min(m, |es|);
  }

  // Any stop leaves a sound state; and the invariant, when it leaves no entry twice.
  lemma StopKeepsInv(st: Fs, op: Op, k: nat)
    requires Sound(st)
    ensures DiskOk(StoppedDisk(st, op, k)) && Sound(Restarted(st, op, k))
    ensures Inv(st) && Clean(st, op, k) ==> Inv(Restarted(st, op, k))
  {
    hide Sound, Paired, DistinctKeys, Create, WriteFile, Delete, Load, FlushWrites, Find, Mix, OpWrites, Without,
      ApplyAll, AllValid, DiskOk;
    var effect := EffectOf(st.entries, op);
    SoundParts(st);
    if k == 0 || effect.writes == [] {
      StoppedAtStart(st.disk, effect);
      ReloadIsIdentity(st);
    } else {
      var k', m := Min(k, |effect.writes|), Rewritten(k);
      StepKeepsInv(st, op);
      SoundParts(Step(st, op).0);
      match op
      case CreateOp(name, ext) =>
        ActsOnlyIfDone(st.entries, op);
        var e := CreateActs(st, name, ext);
        MixOfAppend(st.entries, e, m);
        StoppedSound(st, effect.entries, Write(e.sector, ZERO_SECTOR), k', m, Mix(st.entries, effect.entries, m));
      case WriteOp(name, ext, data) =>
        ActsOnlyIfDone(st.entries, op);
        var i := Find(st.entries, KeyOf(name, ext));
        WriteActs(st, name, ext, data, i);
        MixOfUpdate(st.entries, i, st.entries[i].(size := |Stored(data.value)|), m);
        StoppedSound(st, effect.entries, Write(st.entries[i].sector, DataSector(data.value)), k', m,
                     Mix(st.entries, effect.entries, m));
      case DeleteOp(name, ext) =>
        ActsOnlyIfDone(st.entries, op);
        var i := Find(st.entries, KeyOf(name, ext));
        DeleteActs(st, name, ext, i);
        MixOfRemove(st.entries, i, m);
        MixOfRemoveIn(st.entries, i, m);
        WithoutLength(st.entries, i);
        StoppedSound(st, effect.entries, Write(st.entries[i].sector, ZERO_SECTOR), k', m,
                     Mix(st.entries, effect.entries, m));
      case _ =>
    }
  }

  lemma SoundParts(st: Fs)
    requires Sound(st)
    ensures DiskOk(st.disk) && AllValid(st.entries) && Paired(st.entries)
  {
  }

  lemma ActsOnlyIfDone(entries: seq<Entry>, op: Op)
    requires EffectOf(entries, op).writes != []
    ensures op.CreateOp? ==> Create(entries, op.name, op.ext).code == 0
    ensures op.WriteOp? ==> Find(entries, KeyOf(op.name, op.ext)) >= 0 && op.data.Some?
    ensures op.DeleteOp? ==> Find(entries, KeyOf(op.name, op.ext)) >= 0
  {
  }

  // ----- the files after a stop -----

  // What a stopped operation may leave of the files: all as before, or done; a file deleted halfway may still
  // be listed, empty; a file written halfway may hold the front of the new text.
  ghost predicate MayLeave(files: Files, op: Op, left: Files) {
    left == files ||
    match op
    case CreateOp(_, _) => left == MapStep(files, op).0
    case WriteOp(name, ext, data) =>
      KeyOf(name, ext) in files && data.Some?
      && exists n: nat :: left == files[KeyOf(name, ext) := Cut(Stored(data.value), n)]
    case DeleteOp(name, ext) =>
      left == MapStep(files, op).0 || (KeyOf(name, ext) in files && left == files[KeyOf(name, ext) := []])
    case _ => false
  }

  lemma StopLeaves(st: Fs, op: Op, k: nat)
    requires Sound(st)
    ensures DiskOk(StoppedDisk(st, op, k)) && MayLeave(FilesOf(st), op, FilesOf(Restarted(st, op, k)))
  {
    hide Sound, Create, WriteFile, Delete, Load, StoppedAt, Find, MapStep, FilesOf, StoppedDisk, Clean,
      DistinctKeys;
    StopKeepsInv(st, op, k);
    if k == 0 || EffectOf(st.entries, op).writes == [] {
      UntouchedLeaves(st, op, k);
    } else {
      ActsOnlyIfDone(st.entries, op);
      match op
      case CreateOp(name, ext) => CreateLeaves(st, name, ext, k);
      case WriteOp(name, ext, data) => WriteLeaves(st, name, ext, data, Find(st.entries, KeyOf(name, ext)), k);
      case DeleteOp(name, ext) => DeleteLeaves(st, name, ext, Find(st.entries, KeyOf(name, ext)), k);
      case _ =>
    }
  }

  lemma UntouchedLeaves(st: Fs, op: Op, k: nat)
    requires Sound(st) && (k == 0 || EffectOf(st.entries, op).writes == [])
    ensures DiskOk(StoppedDisk(st, op, k)) && Restarted(st, op, k) == st
  {
    hide Create, WriteFile, Delete, Load, StoppedAt;
    StoppedAtStart(st.disk, EffectOf(st.entries, op));
    ReloadIsIdentity(st);
  }

  lemma RestartedIs(st: Fs, op: Op, effect: Effect, k: nat, n: nat)
    requires effect == EffectOf(st.entries, op) && n == Min(k, |effect.writes|) && DiskOk(StoppedDisk(st, op, k))
    ensures
      var d := StoppedAt(st.disk, effect, n);
      DiskOk(d) && Restarted(st, op, k) == Fs(Load(d), d)
  {
    hide DiskOk, Create, WriteFile, Delete, Load, StoppedAt;
  }

  lemma RestartedReads(st: Fs, op: Op, effect: Effect, k: nat, n: nat, key: Key)
    requires effect == EffectOf(st.entries, op) && n == Min(k, |effect.writes|) && DiskOk(StoppedDisk(st, op, k))
    ensures DiskOk(StoppedAt(st.disk, effect, n)) && View(Restarted(st, op, k), key) == ReadStopped(st, effect, n, key)
    ensures View(st, key) == ReadKey(st.entries, st.disk, key)
  {
    hide DiskOk, Create, WriteFile, Delete, Load, StoppedAt, ReadKey;
  }

  lemma CreateLeaves(st: Fs, name: CString, ext: CString, k: nat)
    requires Sound(st) && Create(st.entries, name, ext).code == 0
    requires DiskOk(StoppedDisk(st, CreateOp(name, ext), k))
    ensures MayLeave(FilesOf(st), CreateOp(name, ext), FilesOf(Restarted(st, CreateOp(name, ext), k)))
  {
    hide DiskOk, Sound, Create, Load, Content, FilesOf, View, Lookup, KeyOf, MapStep, StoppedDisk, Restarted;
    var op := CreateOp(name, ext);
    var st' := Restarted(st, op, k);
    var e := CreateActs(st, name, ext);
    CreateStepIs(st, name, ext);
    CreateRestarted(st, name, ext, k, e);
    forall key: Key
      ensures st'.entries == st.entries ==> View(st', key) == View(st, key)
      ensures st'.entries != st.entries ==> View(st', key) == if key == EntryKey(e) then Some([]) else View(st, key)
    {
      CreatedView(st, st', e, key);
    }
    if st'.entries == st.entries { SameFiles(st, st'); } else { OneFile(st, st', EntryKey(e), []); }
  }

  lemma CreateRestarted(st: Fs, name: CString, ext: CString, k: nat, e: Entry)
    requires Sound(st) && Create(st.entries, name, ext).entries == st.entries + [e]
    requires DiskOk(StoppedDisk(st, CreateOp(name, ext), k))
    ensures
      var st' := Restarted(st, CreateOp(name, ext), k);
      && (st'.entries == st.entries || st'.entries == st.entries + [e])
      && forall x :: x in st.entries ==> Content(st'.disk, x) == Content(st.disk, x)
  {
    hide DiskOk, Sound, Create, Load, Content, StoppedAt, StoppedDisk, Restarted;
    var effect := Create(st.entries, name, ext);
    RestartedIs(st, CreateOp(name, ext), effect, k, Min(k, |effect.writes|));
    CreateCrash(st, name, ext, Min(k, |effect.writes|));
  }

  lemma CreateStepIs(st: Fs, name: CString, ext: CString)
    requires Sound(st) && Create(st.entries, name, ext).code == 0
    ensures MapStep(FilesOf(st), CreateOp(name, ext)).0 == FilesOf(st)[KeyOf(name, ext) := []]
  {
    hide Sound, Create, FilesOf, KeyOf, Find, Lookup;
    CreateSucceeds(st.entries, name, ext);
    FilesAtMost(st);
    FoundIsFile(st, KeyOf(name, ext));
  }

  // Lookups in the old entries, or in them and a new empty one, whose texts are unchanged.
  lemma CreatedView(st: Fs, st': Fs, e: Entry, key: Key)
    requires st'.entries == st.entries || st'.entries == st.entries + [e]
    requires e.size == 0 && Lookup(st.entries, EntryKey(e)) == None
    requires forall x :: x in st.entries ==> Content(st'.disk, x) == Content(st.disk, x)
    ensures st'.entries == st.entries ==> View(st', key) == View(st, key)
    ensures st'.entries == st.entries + [e] ==>
      View(st', key) == if key == EntryKey(e) then Some([]) else View(st, key)
  {
    hide Content, Lookup;
    ReadIsLookup(st.entries, st.disk, key);
    ReadIsLookup(st'.entries, st'.disk, key);
    LookupConcat(st.entries, [e], key);
    LookupSingle(e, key);
    LookupIn(st.entries, key);
    NothingRead(st'.disk, e);
  }

  lemma SameFiles(st: Fs, st': Fs)
    requires forall x: Key :: View(st', x) == View(st, x)
    ensures FilesOf(st') == FilesOf(st)
  {
    hide View, FilesOf;
    forall x: Key ensures View(st', x) == if x in FilesOf(st) then Some(FilesOf(st)[x]) else None { ViewIs(st, x); }
    ViewsDetermine(st', FilesOf(st));
  }

  // How much of the new text a stopped write leaves.
  function LeftLength(st: Fs, text: seq<byte>, i: nat, k: nat): nat
    requires i < |st.entries|
  {
    if Reached(i, Min(k, 1 + CATALOG_SECTORS)) then |text| else st.entries[i].size
  }

  lemma WrittenView(st: Fs, op: Op, i: nat, k: nat, key: Key)
    requires Sound(st) && op.WriteOp? && Find(st.entries, KeyOf(op.name, op.ext)) == i && op.data.Some? && k > 0
    requires DiskOk(StoppedDisk(st, op, k))
    ensures View(Restarted(st, op, k), key) ==
      if key == KeyOf(op.name, op.ext) then
        Some(Cut(Stored(op.data.value), LeftLength(st, Stored(op.data.value), i, k)))
      else View(st, key)
  {
    hide DiskOk, Sound, Load, StoppedAt, KeyOf, Find, Stored, Cut, Reached, ReadKey, StoppedDisk, Restarted, View,
      ReadStopped;
    var effect, text := EffectOf(st.entries, op), Stored(op.data.value);
    WriteActs(st, op.name, op.ext, op.data, i);
    hide WriteFile;
    var n := Min(k, |effect.writes|);
    WriteCrash(st, op.name, op.ext, op.data, effect, i, n);
    RestartedReads(st, op, effect, k, n, key);
    CutWhole(text);
  }

  lemma WriteLeaves(st: Fs, name: CString, ext: CString, data: CString, i: nat, k: nat)
    requires Sound(st) && Find(st.entries, KeyOf(name, ext)) == i && data.Some? && k > 0
    requires DiskOk(StoppedDisk(st, WriteOp(name, ext, data), k))
    ensures MayLeave(FilesOf(st), WriteOp(name, ext, data), FilesOf(Restarted(st, WriteOp(name, ext, data), k)))
  {
    hide DiskOk, Sound, FilesOf, KeyOf, Find, Stored, Cut, StoppedDisk, Restarted, View;
    var op, key, text := WriteOp(name, ext, data), KeyOf(name, ext), Stored(data.value);
    var n := LeftLength(st, text, i, k);
    forall x: Key ensures View(Restarted(st, op, k), x) == if x == key then Some(Cut(text, n)) else View(st, x) {
      WrittenView(st, op, i, k, x);
    }
    OneFile(st, Restarted(st, op, k), key, Cut(text, n));
    FoundIsFile(st, key);
  }

  lemma CutWhole(text: seq<byte>)
    ensures Cut(text, |text|) == text
  {
  }

  lemma DeletedView(st: Fs, op: Op, i: nat, k: nat, key: Key)
    requires Sound(st) && op.DeleteOp? && Find(st.entries, KeyOf(op.name, op.ext)) == i && k > 0
    requires DiskOk(StoppedDisk(st, op, k))
    ensures if key == KeyOf(op.name, op.ext) then View(Restarted(st, op, k), key) in {None, Some([])}
            else View(Restarted(st, op, k), key) == View(st, key)
  {
    hide DiskOk, Sound, Delete, Load, StoppedAt, KeyOf, Find, ReadKey, StoppedDisk, Restarted, View, ReadStopped;
    var effect := Delete(st.entries, op.name, op.ext);
    DeleteReads(st, op.name, op.ext, effect, i, Min(k, 1 + CATALOG_SECTORS), key);
    RestartedReads(st, op, effect, k, Min(k, 1 + CATALOG_SECTORS), key);
  }

  lemma DeleteReads(st: Fs, name: CString, ext: CString, effect: Effect, i: nat, n: nat, key: Key)
    requires Sound(st) && Find(st.entries, KeyOf(name, ext)) == i && 0 < n <= 1 + CATALOG_SECTORS
    requires effect == Delete(st.entries, name, ext)
    ensures |effect.writes| == 1 + CATALOG_SECTORS && DiskOk(StoppedAt(st.disk, effect, n))
    ensures
      var text := ReadStopped(st, effect, n, key);
      if key == KeyOf(name, ext) then text in {None, Some([])} else text == ReadKey(st.entries, st.disk, key)
  {
    hide DiskOk, Sound, Delete, Load, StoppedAt, KeyOf, Find, ReadKey, ReadStopped, SameLookups;
    DeleteCrash(st, name, ext, i, n);
  }

  lemma DeleteLeaves(st: Fs, name: CString, ext: CString, i: nat, k: nat)
    requires Sound(st) && Find(st.entries, KeyOf(name, ext)) == i && k > 0
    requires DiskOk(StoppedDisk(st, DeleteOp(name, ext), k))
    ensures MayLeave(FilesOf(st), DeleteOp(name, ext), FilesOf(Restarted(st, DeleteOp(name, ext), k)))
  {
    hide DiskOk, Sound, FilesOf, KeyOf, Find, StoppedDisk, Restarted, View;
    var op, key := DeleteOp(name, ext), KeyOf(name, ext);
    var st' := Restarted(st, op, k);
    var left := View(st', key);
    DeletedView(st, op, i, k, key);
    forall x: Key ensures View(st', x) == if x == key then left else View(st, x) {
      DeletedView(st, op, i, k, x);
    }
    FoundIsFile(st, key);
    if left == None { NoFile(st, st', key); } else { OneFile(st, st', key, []); }
  }

  // ----- whole runs -----

  function EventStep(st: Fs, event: Event): (next: Fs)
    requires Sound(st)
    ensures Sound(next)
  {
    match event
    case Call(op) =>
      StepKeepsInv(st, op);
      Step(st, op).0
    case Stop(op, k) =>
      StopKeepsInv(st, op, k);
      Restarted(st, op, k)
  }

  // The last state, and the answers of the operations that were not stopped.
  function RunEvents(st: Fs, events: seq<Event>): (Fs, seq<Answer>)
    requires Sound(st)
    decreases |events|
  {
    if events == [] then (st, [])
    else
      var (last, answers) := RunEvents(EventStep(st, events[0]), events[1..]);
      (last, (if events[0].Call? then [Step(st, events[0].op).1] else []) + answers)
  }

  predicate CleanEvent(st: Fs, event: Event) { event.Stop? ==> Clean(st, event.op, event.k) }

  // No stop of the run leaves an entry twice.
  ghost predicate CleanRun(st: Fs, events: seq<Event>)
    requires Sound(st)
    decreases |events|
  {
    events != [] ==> CleanEvent(st, events[0]) && CleanRun(EventStep(st, events[0]), events[1..])
  }

  // What an operation may do to the files: in a clean run what the map does.
  ghost predicate MayCall(files: Files, op: Op, left: Files, answer: Answer, clean: bool) {
    if clean then (left, answer) == MapStep(files, op) else MayStep(files, op, left, answer)
  }

  // The map may give these answers and end as these files, a stopped operation leaving what it may.
  ghost predicate MapMayRun(files: Files, events: seq<Event>, answers: seq<Answer>, last: Files, clean: bool)
    decreases |events|
  {
    if events == [] then answers == [] && last == files
    else
      match events[0]
      case Call(op) =>
        answers != [] && exists left ::
          MayCall(files, op, left, answers[0], clean) && MapMayRun(left, events[1..], answers[1..], last, clean)
      case Stop(op, _) =>
        exists left :: MayLeave(files, op, left) && MapMayRun(left, events[1..], answers, last, clean)
  }

  lemma EventRefines(st: Fs, event: Event, clean: bool)
    requires Sound(st) && (clean ==> Inv(st) && CleanEvent(st, event))
    ensures clean ==> Inv(EventStep(st, event))
    ensures event.Call? ==>
      MayCall(FilesOf(st), event.op, FilesOf(EventStep(st, event)), Step(st, event.op).1, clean)
    ensures event.Stop? ==> MayLeave(FilesOf(st), event.op, FilesOf(EventStep(st, event)))
  {
    hide Sound, DistinctKeys, FilesOf, MapStep, MayStep, MayLeave, Step, Restarted, Clean;
    match event
    case Call(op) =>
      StepMayRefine(st, op);
      if clean { StepRefines(st, op); }
    case Stop(op, k) =>
      StopKeepsInv(st, op, k);
      StopLeaves(st, op, k);
  }

  lemma MapMayCall(files: Files, events: seq<Event>, answer: Answer, answers: seq<Answer>, left: Files, last: Files,
                   clean: bool)
    requires events != [] && events[0].Call? && MayCall(files, events[0].op, left, answer, clean)
    requires MapMayRun(left, events[1..], answers, last, clean)
    ensures MapMayRun(files, events, [answer] + answers, last, clean)
  {
    hide MayCall;
    assert ([answer] + answers)[1..] == answers;
  }

  lemma MapMayStop(files: Files, events: seq<Event>, answers: seq<Answer>, left: Files, last: Files, clean: bool)
    requires events != [] && events[0].Stop? && MayLeave(files, events[0].op, left)
    requires MapMayRun(left, events[1..], answers, last, clean)
    ensures MapMayRun(files, events, answers, last, clean)
  {
    hide MayCall, MayLeave;
  }

  lemma RunEventsIs(st: Fs, events: seq<Event>)
    requires Sound(st) && events != []
    ensures CleanRun(st, events) ==>
      CleanEvent(st, events[0]) && CleanRun(EventStep(st, events[0]), events[1..])
    ensures
      var (last, answers) := RunEvents(EventStep(st, events[0]), events[1..]);
      RunEvents(st, events) == (last, (if events[0].Call? then [Step(st, events[0].op).1] else []) + answers)
  {
    hide EventStep, CleanEvent, Step, Sound;
  }

  // Over any run of calls and stops whatever the disk answers and ends as the map may: every operation does
  // what the map does, but that a deletion may leave its file empty and a creation may find no room. In a
  // clean run from a state without doubled entries there is no such exception.
  lemma {:induction false} RunWithStops(st: Fs, events: seq<Event>, clean: bool)
    requires Sound(st) && (clean ==> Inv(st) && CleanRun(st, events))
    ensures
      var (last, answers) := RunEvents(st, events);
      && Sound(last) && (clean ==> Inv(last))
      && MapMayRun(FilesOf(st), events, answers, FilesOf(last), clean)
    decreases |events|
  {
    if events != [] {
      RunEventsIs(st, events);
      hide Sound, DistinctKeys, FilesOf, MapStep, MayCall, MayLeave, Step, EventStep, CleanEvent, CleanRun, RunEvents,
        MapMayRun;
      var next := EventStep(st, events[0]);
      EventRefines(st, events[0], clean);
      RunWithStops(next, events[1..], clean);
      var (last, answers) := RunEvents(next, events[1..]);
      if events[0].Call? {
        MapMayCall(FilesOf(st), events, Step(st, events[0].op).1, answers, FilesOf(next), FilesOf(last), clean);
      } else {
        MapMayStop(FilesOf(st), events, answers, FilesOf(next), FilesOf(last), clean);
        assert [] + answers == answers;
      }
    }
  }

  lemma FormattedRunWithStops(disk: seq<Sector>, events: seq<Event>)
    requires DiskOk(disk)
    ensures Inv(Fs([], ApplyAll(disk, FormatWrites())))
    ensures
      var st := Fs([], ApplyAll(disk, FormatWrites()));
      var (last, answers) := RunEvents(st, events);
      Sound(last) && MapMayRun(map[], events, answers, FilesOf(last), false)
      && (CleanRun(st, events) ==> Inv(last) && MapMayRun(map[], events, answers, FilesOf(last), true))
  {
    hide RunEvents, MapMayRun, Sound, DistinctKeys, ApplyAll, FormatWrites, CleanRun;
    FormatEstablishesInv(disk);
    var st := Fs([], ApplyAll(disk, FormatWrites()));
    assert FilesOf(st) == map[];
    RunWithStops(st, events, false);
    if CleanRun(st, events) { RunWithStops(st, events, true); }
  }

  // ----- one file over any run -----

  // The event is about this file.
  predicate Names(event: Event, key: Key) {
    (event.op.CreateOp? || event.op.WriteOp? || event.op.DeleteOp?) && KeyOf(event.op.name, event.op.ext) == key
  }

  lemma OtherFile(files: Files, op: Op, left: Files, answer: Answer, key: Key)
    requires MayStep(files, op, left, answer) || MayLeave(files, op, left)
    requires (op.CreateOp? || op.WriteOp? || op.DeleteOp?) ==> KeyOf(op.name, op.ext) != key
    ensures key in left <==> key in files
    ensures key in files ==> left[key] == files[key]
  {
    hide KeyOf, Stored;
  }

  // What no event is about reads at the end as at the start, whatever stops there were.
  lemma {:induction false} UntouchedFile(st: Fs, events: seq<Event>, key: Key)
    requires Sound(st) && forall i :: 0 <= i < |events| ==> !Names(events[i], key)
    ensures Sound(RunEvents(st, events).0) && View(RunEvents(st, events).0, key) == View(st, key)
    decreases |events|
  {
    if events != [] {
      RunEventsIs(st, events);
      hide Sound, DistinctKeys, FilesOf, MayStep, MayLeave, Step, EventStep, RunEvents, View;
      var next := EventStep(st, events[0]);
      assert !Names(events[0], key);
      EventRefines(st, events[0], false);
      OtherFile(FilesOf(st), events[0].op, FilesOf(next), if events[0].Call? then Step(st, events[0].op).1 else Code(0),
                key);
      ViewIs(st, key);
      ViewIs(next, key);
      UntouchedFile(next, events[1..], key);
    }
  }

  // What a successful write stored is read until an event is about that file again.
  lemma WrittenFile(st: Fs, name: CString, ext: CString, data: CString, later: seq<Event>)
    requires Sound(st) && Step(st, WriteOp(name, ext, data)).1 == Code(0)
    requires forall i :: 0 <= i < |later| ==> !Names(later[i], KeyOf(name, ext))
    ensures
      var next := EventStep(st, Call(WriteOp(name, ext, data)));
      data.Some? && View(RunEvents(next, later).0, KeyOf(name, ext)) == Some(Stored(data.value))
  {
    hide Sound, DistinctKeys, FilesOf, KeyOf, RunEvents, View, ReadKey, Load, After, WriteFile, Stored;
    var op := WriteOp(name, ext, data);
    var next := EventStep(st, Call(op));
    StepMayRefine(st, op);
    ViewIs(next, KeyOf(name, ext));
    UntouchedFile(next, later, KeyOf(name, ext));
  }

  // A deletion, carried out or stopped after any of its writes, leaves nothing or an empty file there.
  lemma DeletedFile(st: Fs, event: Event, later: seq<Event>)
    requires Sound(st) && event.op.DeleteOp? && (event.Stop? ==> event.k > 0)
    requires forall i :: 0 <= i < |later| ==> !Names(later[i], KeyOf(event.op.name, event.op.ext))
    ensures View(RunEvents(EventStep(st, event), later).0, KeyOf(event.op.name, event.op.ext)) in {None, Some([])}
  {
    hide Sound, DistinctKeys, KeyOf, RunEvents, View, Step, Restarted, StoppedDisk, Find;
    var op, next := event.op, EventStep(st, event);
    var key := KeyOf(op.name, op.ext);
    UntouchedFile(next, later, key);
    ViewIs(st, key);
    FoundIsFile(st, key);
    match event
    case Call(_) => DeletedNow(st, op);
    case Stop(_, k) =>
      StopKeepsInv(st, op, k);
      if Find(st.entries, key) >= 0 {
        DeletedView(st, op, Find(st.entries, key), k, key);
      } else {
        NothingDeleted(st, op);
        UntouchedLeaves(st, op, k);
      }
  }

  lemma DeletedNow(st: Fs, op: Op)
    requires Sound(st) && op.DeleteOp?
    ensures View(Step(st, op).0, KeyOf(op.name, op.ext)) in {None, Some([])}
  {
    hide Sound, DistinctKeys, FilesOf, KeyOf, View, Step;
    SoundParts(st);
    StepMayRefine(st, op);
    ViewIs(Step(st, op).0, KeyOf(op.name, op.ext));
  }

  lemma NothingDeleted(st: Fs, op: Op)
    requires op.DeleteOp? && Find(st.entries, KeyOf(op.name, op.ext)) < 0
    ensures EffectOf(st.entries, op).writes == []
  {
  }

  // ----- an entry left twice -----

  lemma StoppedDiskIs(st: Fs, op: Op, effect: Effect, k: nat)
    requires effect == EffectOf(st.entries, op) && k <= |effect.writes|
    ensures StoppedDisk(st, op, k) == StoppedAt(st.disk, effect, k)
  {
    hide Create, WriteFile, Delete, StoppedAt;
  }

  // The loaded catalog has the entry at m - 1 and again at m.
  lemma TwiceFound(es: seq<Entry>, i: nat, m: nat)
    requires DistinctKeys(es) && i < m < |es|
    ensures
      var mixed := Mix(es, Without(es, i), m);
      && m < |mixed| && mixed[m - 1] == mixed[m] == es[m] && Find(mixed, EntryKey(es[m])) == m - 1
  {
    var new' := Without(es, i);
    MixOfRemove(es, i, m);
    WithoutDistinct(es, i);
    assert new'[m - 1] == es[m];
    hide Mix, Without, Find;
    var mixed := Mix(es, new', m);
    assert forall j :: 0 <= j < m ==> mixed[j] == new'[j];
    FindIs(mixed, EntryKey(es[m]), m - 1);
  }

  lemma SecondCopyRead(es: seq<Entry>, j: nat, disk: seq<Sector>, effect: Effect)
    requires |disk| == DISK_SECTORS && j + 1 < |es| && es[j + 1] == es[j] && IsValidEntry(es[j])
    requires Find(es, EntryKey(es[j])) == j && effect.entries == Without(es, j)
    requires effect.writes == OpWrites(Write(es[j].sector, ZERO_SECTOR), effect.entries)
    ensures ReadKey(effect.entries, ApplyAll(disk, effect.writes), EntryKey(es[j])) == Some([])
  {
    hide OpWrites, ApplyAll, FlushWrites;
    var w, left := Write(es[j].sector, ZERO_SECTOR), effect.entries;
    assert left[j] == es[j + 1] && forall x :: 0 <= x < j ==> left[x] == es[x];
    hide Find;
    FindIs(left, EntryKey(es[j]), j);
    OpLength(w, left);
    assert OpWrites(w, left)[..1 + CATALOG_SECTORS] == OpWrites(w, left);
    OtherSector(disk, w, left, 1 + CATALOG_SECTORS, w.lba);
    ZerosReadEmpty(ZERO_SECTOR[..es[j].size]);
  }

  lemma InvParts(st: Fs, i: nat)
    requires Inv(st) && i < |st.entries|
    ensures DistinctKeys(st.entries) && IsValidEntry(st.entries[i])
  {
  }

  // When a stopped deletion has left an entry twice, deleting that file takes out only its first entry: it
  // stays listed, and reads empty.
  lemma DuplicateOutlivesDelete(st: Fs, name: CString, ext: CString, i: nat, k: nat, name2: CString, ext2: CString)
    requires Inv(st) && Find(st.entries, KeyOf(name, ext)) == i && 0 < k <= 1 + CATALOG_SECTORS
    requires i < Rewritten(k) < |st.entries| && KeyOf(name2, ext2) == EntryKey(st.entries[Rewritten(k)])
    ensures DiskOk(StoppedDisk(st, DeleteOp(name, ext), k))
    ensures
      var st' := Restarted(st, DeleteOp(name, ext), k);
      var effect := Delete(st'.entries, name2, ext2);
      && effect.code == 0
      && ReadKey(effect.entries, ApplyAll(st'.disk, effect.writes), KeyOf(name2, ext2)) == Some([])
  {
    hide DiskOk, Sound, Load, StoppedAt, Find, KeyOf, Mix, Without, ReadKey, ApplyAll, FlushWrites, StoppedDisk,
      IsValidEntry;
    var op, m := DeleteOp(name, ext), Rewritten(k);
    var effect, w := EffectOf(st.entries, op), Write(st.entries[i].sector, ZERO_SECTOR);
    DeleteActs(st, name, ext, i);
    hide Delete, Create, WriteFile;
    DeletedOp(st, i, effect, w, k);
    StoppedDiskIs(st, op, effect, k);
    var st' := Restarted(st, op, k);
    InvParts(st, m);
    TwiceFound(st.entries, i, m);
    DiskLength(st'.disk);
    DeleteIs(st'.entries, name2, ext2);
    WholeOp(Delete(st'.entries, name2, ext2), Write(st'.entries[m - 1].sector, ZERO_SECTOR));
    SecondCopyRead(st'.entries, m - 1, st'.disk, Delete(st'.entries, name2, ext2));
  }
}
