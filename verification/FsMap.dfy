// NawFS as a finite map from packed names to texts, over whole runs of operations.
module FsMap {
  import opened NawBase
  import opened FsFormat
  import opened FsModel
  import opened FsCatalog
  import opened FsInvariant
  import opened FsCrash

  type Files = map<Key, seq<byte>>

  datatype Op =
    | CreateOp(name: CString, ext: CString)
    | WriteOp(name: CString, ext: CString, data: CString)
    | ReadOp(name: CString, ext: CString)
    | DeleteOp(name: CString, ext: CString)
    | ReloadOp

  datatype Answer = Code(code: int) | Text(text: Option<seq<byte>>)

  // ----- the file system, operation by operation -----

  function EffectOf(entries: seq<Entry>, op: Op): Effect {
    match op
    case CreateOp(name, ext) => Create(entries, name, ext)
    case WriteOp(name, ext, data) => WriteFile(entries, name, ext, data)
    case DeleteOp(name, ext) => Delete(entries, name, ext)
    case _ => Effect(entries, [], 0)
  }

  function Step(st: Fs, op: Op): (Fs, Answer)
    requires DiskOk(st.disk)
  {
    match op
    case ReadOp(name, ext) => (st, Text(ReadKey(st.entries, st.disk, KeyOf(name, ext))))
    case ReloadOp => (Fs(Load(st.disk), st.disk), Code(0))
    case _ => (After(st, EffectOf(st.entries, op)), Code(EffectOf(st.entries, op).code))
  }

  // ----- the map it must behave as -----

  function MapStep(files: Files, op: Op): (Files, Answer) {
    match op
    case CreateOp(name, ext) =>
      if |files| < MAX_FILES && !Nameless(name) && !Nameless(ext) && KeyOf(name, ext) !in files
      then (files[KeyOf(name, ext) := []], Code(0)) else (files, Code(-1))
    case WriteOp(name, ext, data) =>
      if KeyOf(name, ext) in files && data.Some?
      then (files[KeyOf(name, ext) := Stored(data.value)], Code(0)) else (files, Code(-1))
    case ReadOp(name, ext) =>
      (files, Text(if KeyOf(name, ext) in files then Some(files[KeyOf(name, ext)]) else None))
    case DeleteOp(name, ext) =>
      if KeyOf(name, ext) in files then (files - {KeyOf(name, ext)}, Code(0)) else (files, Code(-1))
    case ReloadOp => (files, Code(0))
  }

  function MapRun(files: Files, ops: seq<Op>): (Files, seq<Answer>)
    decreases |ops|
  {
    if ops == [] then (files, [])
    else
      var (next, answer) := MapStep(files, ops[0]);
      var (last, answers) := MapRun(next, ops[1..]);
      (last, [answer] + answers)
  }

  // ----- the abstraction -----

  function Keys(entries: seq<Entry>): (ks: set<Key>)
    ensures forall key :: key in ks <==> exists i :: 0 <= i < |entries| && EntryKey(entries[i]) == key
  {
    set i | 0 <= i < |entries| :: EntryKey(entries[i])
  }

  lemma KeysAreLookups(entries: seq<Entry>, key: Key)
    ensures key in Keys(entries) <==> Lookup(entries, key).Some?
  {
    if Find(entries, key) >= 0 { assert EntryKey(entries[Find(entries, key)]) == key; }
  }

  lemma {:induction false} KeysCount(entries: seq<Entry>)
    requires DistinctKeys(entries)
    ensures |Keys(entries)| == |entries|
  {
    if entries == [] {
      assert Keys(entries) == {};
    } else {
      var init, last := entries[..|entries| - 1], entries[|entries| - 1];
      KeysCount(init);
      assert forall i :: 0 <= i < |init| ==> EntryKey(init[i]) == EntryKey(entries[i]);
      assert EntryKey(last) !in Keys(init);
      forall key | key in Keys(entries) ensures key in Keys(init) + {EntryKey(last)} {
        var i :| 0 <= i < |entries| && EntryKey(entries[i]) == key;
        if i < |init| { assert EntryKey(init[i]) == key; }
      }
      assert Keys(entries) == Keys(init) + {EntryKey(last)};
    }
  }

  // Every file a reader can find, with the text it reads.
  function FilesOf(st: Fs): Files {
    map key | key in Keys(st.entries) :: ReadKey(st.entries, st.disk, key).value
  }

  function View(st: Fs, key: Key): Option<seq<byte>> { ReadKey(st.entries, st.disk, key) }

  lemma ViewIs(st: Fs, key: Key)
    ensures View(st, key) == if key in FilesOf(st) then Some(FilesOf(st)[key]) else None
  {
    KeysAreLookups(st.entries, key);
  }

  lemma ViewsDetermine(st: Fs, files: Files)
    requires forall key: Key :: View(st, key) == if key in files then Some(files[key]) else None
    ensures FilesOf(st) == files
  {
    forall key: Key
      ensures key in FilesOf(st) <==> key in files
      ensures key in files ==> FilesOf(st)[key] == files[key]
    {
      assert View(st, key) == if key in files then Some(files[key]) else None;
      ViewIs(st, key);
    }
  }

  lemma FilesCount(st: Fs)
    requires DistinctKeys(st.entries)
    ensures |FilesOf(st)| == |st.entries|
  {
    KeysCount(st.entries);
    assert FilesOf(st).Keys == Keys(st.entries);
  }

  lemma {:induction false} KeysAtMost(entries: seq<Entry>)
    ensures |Keys(entries)| <= |entries|
  {
    if entries == [] {
      assert Keys(entries) == {};
    } else {
      var init, last := entries[..|entries| - 1], entries[|entries| - 1];
      KeysAtMost(init);
      forall key | key in Keys(entries) ensures key in Keys(init) + {EntryKey(last)} {
        var i :| 0 <= i < |entries| && EntryKey(entries[i]) == key;
        if i < |init| { assert EntryKey(init[i]) == key; }
      }
      SubsetSize(Keys(entries), Keys(init) + {EntryKey(last)});
    }
  }

  lemma FilesAtMost(st: Fs)
    ensures |FilesOf(st)| <= |st.entries|
  {
    KeysAtMost(st.entries);
    assert FilesOf(st).Keys == Keys(st.entries);
  }

  // There are fewer files than entries exactly when an entry is there twice.
  lemma FilesFewer(st: Fs)
    ensures |FilesOf(st)| < |st.entries| <==> !DistinctKeys(st.entries)
  {
    assert FilesOf(st).Keys == Keys(st.entries);
    hide Keys, FilesOf;
    if DistinctKeys(st.entries) {
      KeysCount(st.entries);
    } else {
      var i, j :| 0 <= i < j < |st.entries| && EntryKey(st.entries[i]) == EntryKey(st.entries[j]);
      TwiceFewer(st.entries, i, j);
    }
  }

  lemma TwiceFewer(es: seq<Entry>, i: nat, j: nat)
    requires i < j < |es| && EntryKey(es[i]) == EntryKey(es[j])
    ensures |Keys(es)| < |es|
  {
    hide Keys, EntryKey, Without;
    forall key | key in Keys(es) ensures key in Keys(Without(es, j)) { KeptKey(es, i, j, key); }
    SubsetSize(Keys(es), Keys(Without(es, j)));
    KeysAtMost(Without(es, j));
    WithoutLength(es, j);
  }

  lemma WithoutLength(es: seq<Entry>, j: nat)
    requires j < |es|
    ensures |Without(es, j)| == |es| - 1
  {
  }

  lemma KeptKey(es: seq<Entry>, i: nat, j: nat, key: Key)
    requires i < j < |es| && EntryKey(es[i]) == EntryKey(es[j]) && key in Keys(es)
    ensures key in Keys(Without(es, j))
  {
    hide EntryKey;
    var p :| 0 <= p < |es| && EntryKey(es[p]) == key;
    var q := if p == j then i else p;
    assert Without(es, j)[if q < j then q else q - 1] == es[q];
  }

  // ----- each operation on the view -----

  lemma AllWrites(disk: seq<Sector>, effect: Effect)
    ensures StoppedAt(disk, effect, |effect.writes|) == ApplyAll(disk, effect.writes)
  {
    assert effect.writes[..|effect.writes|] == effect.writes;
  }

  lemma CreateView(st: Fs, name: CString, ext: CString, effect: Effect, key: Key)
    requires Sound(st) && effect == Create(st.entries, name, ext) && effect.code == 0
    ensures View(After(st, effect), key) == if key == KeyOf(name, ext) then Some([]) else View(st, key)
  {
    hide DiskOk, Mirrored, FlushWrites, ApplyAll, Apply, SuperblockValid, IsValidEntry, KeyOf, FindFrom, FreeFrom,
      AllValid, Load, Content, StoppedAt, Paired, Lookup, AllHold, ReadKey;
    AllWrites(st.disk, effect);
    CreateCrash(st, name, ext, |effect.writes|);
    var e := NewFile(st.entries, name, ext);
    var st' := After(st, effect);
    NewFileValid(st.entries, name, ext);
    ReadIsLookup(st.entries, st.disk, key);
    ReadIsLookup(st'.entries, st'.disk, key);
    assert st'.entries == st.entries + [e];
    LookupConcat(st.entries, [e], key);
    LookupSingle(e, key);
    LookupIn(st.entries, key);
    NewFileKey(st.entries, name, ext);
    NothingRead(st'.disk, e);
  }

  lemma LookupSingle(e: Entry, key: Key)
    ensures Lookup([e], key) == if EntryKey(e) == key then Some(e) else None
  {
  }

  lemma LookupIn(es: seq<Entry>, key: Key)
    ensures Lookup(es, key).Some? ==> Lookup(es, key).value in es && EntryKey(Lookup(es, key).value) == key
  {
  }

  lemma NewFileKey(es: seq<Entry>, name: CString, ext: CString)
    requires Create(es, name, ext).code == 0
    ensures Lookup(es, KeyOf(name, ext)) == None
  {
  }

  lemma NothingRead(disk: seq<Sector>, e: Entry)
    requires e.size == 0
    ensures Content(disk, e) == []
  {
  }

  lemma WriteView(st: Fs, name: CString, ext: CString, data: CString, effect: Effect, key: Key)
    requires Sound(st) && effect == WriteFile(st.entries, name, ext, data) && effect.code == 0
    ensures View(After(st, effect), key) == if key == KeyOf(name, ext) then Some(Stored(data.value)) else View(st, key)
  {
    hide DiskOk, Mirrored, FlushWrites, ApplyAll, Apply, SuperblockValid, IsValidEntry, KeyOf, FindFrom, Stored,
      Load, Content, StoppedAt, Paired, AllHold, ReadKey, DataSector;
    var i := Find(st.entries, KeyOf(name, ext));
    var k := |effect.writes|;
    AllWrites(st.disk, effect);
    WriteCrash(st, name, ext, data, effect, i, k);
    assert Reached(i, k);
    assert ReadStopped(st, effect, k, key) == View(After(st, effect), key);
  }

  // The deleted file is gone; or empty, when a stop has left its entry twice.
  lemma DeleteView(st: Fs, name: CString, ext: CString, effect: Effect, key: Key)
    requires Sound(st) && effect == Delete(st.entries, name, ext) && effect.code == 0
    ensures key != KeyOf(name, ext) ==> View(After(st, effect), key) == View(st, key)
    ensures key == KeyOf(name, ext) ==>
      View(After(st, effect), key) in {None, Some([])} && (Inv(st) ==> View(After(st, effect), key) == None)
  {
    hide DiskOk, Mirrored, FlushWrites, ApplyAll, Apply, SuperblockValid, IsValidEntry, KeyOf, FindFrom, OpWrites,
      Load, Content, StoppedAt, Paired, DistinctKeys, ReadKey, Lookup, Without, AllValid;
    var i := Find(st.entries, KeyOf(name, ext));
    var st', w := After(st, effect), Write(st.entries[i].sector, ZERO_SECTOR);
    AllWrites(st.disk, effect);
    WholeOp(effect, w);
    GoneAfterRemoval(st.entries, i, key);
    WithoutIn(st.entries, i);
    LookupAt(st, i, Without(st.entries, i), key);
    ReadIsLookup(st.entries, st.disk, key);
    ReadIsLookup(st'.entries, st'.disk, key);
    EntryIsData(st, i);
    if Lookup(st'.entries, key).Some? {
      var e := Lookup(st'.entries, key).value;
      if key == KeyOf(name, ext) {
        ZeroedReadsEmpty(st, effect, w, |effect.writes|, e);
      } else {
        SameContent(st, effect, w, |effect.writes|, e);
      }
    }
  }

  lemma EntryIsData(st: Fs, i: nat)
    requires Sound(st) && i < |st.entries|
    ensures IsData(st.entries[i].sector)
  {
    assert IsValidEntry(st.entries[i]);
  }

  // ----- one step -----

  lemma StepKeepsInv(st: Fs, op: Op)
    requires Sound(st)
    ensures Sound(Step(st, op).0) && (Inv(st) ==> Inv(Step(st, op).0))
  {
    hide Inv, Create, WriteFile, Delete, Load, After;
    match op
    case CreateOp(name, ext) => CreateKeepsInv(st, name, ext);
    case WriteOp(name, ext, data) => WriteKeepsInv(st, name, ext, data);
    case DeleteOp(name, ext) => DeleteKeepsInv(st, name, ext);
    case ReadOp(name, ext) =>
    case ReloadOp => ReloadIsIdentity(st);
  }

  lemma CodeIs(entries: seq<Entry>, op: Op)
    requires op.WriteOp? || op.DeleteOp?
    ensures
      var effect := EffectOf(entries, op);
      if Find(entries, KeyOf(op.name, op.ext)) >= 0 && (op.WriteOp? ==> op.data.Some?) then effect.code == 0
      else effect == Effect(entries, [], -1)
  {
  }

  lemma RefusedCreate(entries: seq<Entry>, name: CString, ext: CString)
    requires Create(entries, name, ext).code != 0
    ensures Create(entries, name, ext) == Effect(entries, [], -1)
  {
  }

  lemma RefusedChangesNothing(st: Fs, code: int)
    ensures After(st, Effect(st.entries, [], code)) == st
  {
    NoWrites(st.disk);
  }

  lemma FoundIsFile(st: Fs, key: Key)
    ensures key in FilesOf(st) <==> Find(st.entries, key) >= 0
    ensures key in FilesOf(st) <==> Lookup(st.entries, key).Some?
  {
    KeysAreLookups(st.entries, key);
  }

  // One operation on the disk and one on the map give the same answer and stay in step.
  lemma StepRefines(st: Fs, op: Op)
    requires Inv(st)
    ensures Inv(Step(st, op).0)
    ensures Step(st, op).1 == MapStep(FilesOf(st), op).1
    ensures FilesOf(Step(st, op).0) == MapStep(FilesOf(st), op).0
  {
    hide Sound, DistinctKeys, Create, WriteFile, Delete, FilesOf, ReadKey, Load, KeyOf;
    StepKeepsInv(st, op);
    match op
    case CreateOp(name, ext) => CreateRefines(st, name, ext);
    case WriteOp(name, ext, data) => WriteRefines(st, name, ext, data);
    case DeleteOp(name, ext) => DeleteRefines(st, name, ext);
    case ReadOp(name, ext) =>
      ViewIs(st, KeyOf(name, ext));
    case ReloadOp =>
      ReloadIsIdentity(st);
  }

  lemma CreateRefines(st: Fs, name: CString, ext: CString)
    requires Sound(st)
    ensures
      var effect := Create(st.entries, name, ext);
      var did := (FilesOf(After(st, effect)), Code(effect.code));
      && (effect.code == 0 || |st.entries| < MAX_FILES || DistinctKeys(st.entries) ==>
            did == MapStep(FilesOf(st), CreateOp(name, ext)))
      && (effect.code != 0 ==> did == (FilesOf(st), Code(-1)))
  {
    hide DiskOk, Mirrored, ApplyAll, SuperblockValid, AllValid, KeyOf, FilesOf, Find, Paired, DistinctKeys, Create,
      After, Lookup, View;
    var effect := Create(st.entries, name, ext);
    CreateSucceeds(st.entries, name, ext);
    FilesAtMost(st);
    if DistinctKeys(st.entries) { FilesCount(st); }
    FoundIsFile(st, KeyOf(name, ext));
    if effect.code == 0 {
      forall key: Key
        ensures View(After(st, effect), key)
          == if key == KeyOf(name, ext) then Some([]) else if key in FilesOf(st) then Some(FilesOf(st)[key]) else None
      {
        CreateView(st, name, ext, effect, key);
        ViewIs(st, key);
      }
      ViewsDetermine(After(st, effect), FilesOf(st)[KeyOf(name, ext) := []]);
    } else {
      RefusedCreate(st.entries, name, ext);
      RefusedChangesNothing(st, -1);
    }
  }

  lemma WriteRefines(st: Fs, name: CString, ext: CString, data: CString)
    requires Sound(st)
    ensures
      var effect := WriteFile(st.entries, name, ext, data);
      (FilesOf(After(st, effect)), Code(effect.code)) == MapStep(FilesOf(st), WriteOp(name, ext, data))
  {
    hide DiskOk, Mirrored, ApplyAll, SuperblockValid, AllValid, KeyOf, FilesOf, Find, Paired,
      AllHold, WriteFile, After, Lookup, View, Stored;
    var op := WriteOp(name, ext, data);
    var effect := WriteFile(st.entries, name, ext, data);
    assert EffectOf(st.entries, op) == effect;
    CodeIs(st.entries, op);
    FoundIsFile(st, KeyOf(name, ext));
    if effect.code == 0 {
      forall key: Key
        ensures View(After(st, effect), key)
          == if key == KeyOf(name, ext) then Some(Stored(data.value))
             else if key in FilesOf(st) then Some(FilesOf(st)[key]) else None
      {
        WriteView(st, name, ext, data, effect, key);
        ViewIs(st, key);
      }
      ViewsDetermine(After(st, effect), FilesOf(st)[KeyOf(name, ext) := Stored(data.value)]);
    } else {
      RefusedChangesNothing(st, -1);
    }
  }

  lemma DeleteRefines(st: Fs, name: CString, ext: CString)
    requires Inv(st)
    ensures
      var effect := Delete(st.entries, name, ext);
      (FilesOf(After(st, effect)), Code(effect.code)) == MapStep(FilesOf(st), DeleteOp(name, ext))
  {
    hide DiskOk, Mirrored, ApplyAll, SuperblockValid, AllValid, KeyOf, FilesOf, Find, Paired,
      AllHold, Delete, After, Lookup, View;
    var op := DeleteOp(name, ext);
    var effect := Delete(st.entries, name, ext);
    assert EffectOf(st.entries, op) == effect;
    CodeIs(st.entries, op);
    FoundIsFile(st, KeyOf(name, ext));
    if effect.code == 0 {
      forall key: Key
        ensures View(After(st, effect), key)
          == if key == KeyOf(name, ext) then None else if key in FilesOf(st) then Some(FilesOf(st)[key]) else None
      {
        DeleteView(st, name, ext, effect, key);
        ViewIs(st, key);
      }
      ViewsDetermine(After(st, effect), FilesOf(st) - {KeyOf(name, ext)});
    } else {
      RefusedChangesNothing(st, -1);
    }
  }

  // ----- one step, when a stopped deletion may have left entries twice -----

  // What the map does; or a deletion leaves the file listed and empty, or a creation finds no room.
  ghost predicate MayStep(files: Files, op: Op, left: Files, answer: Answer) {
    || (left, answer) == MapStep(files, op)
    || (op.DeleteOp? && KeyOf(op.name, op.ext) in files
        && left == files[KeyOf(op.name, op.ext) := []] && answer == Code(0))
    || (op.CreateOp? && left == files && answer == Code(-1))
  }

  lemma StepMayRefine(st: Fs, op: Op)
    requires Sound(st)
    ensures Sound(Step(st, op).0)
    ensures MayStep(FilesOf(st), op, FilesOf(Step(st, op).0), Step(st, op).1)
  {
    hide Sound, DistinctKeys, Create, WriteFile, Delete, FilesOf, ReadKey, Load, KeyOf;
    StepKeepsInv(st, op);
    match op
    case CreateOp(name, ext) => CreateRefines(st, name, ext);
    case WriteOp(name, ext, data) => WriteRefines(st, name, ext, data);
    case DeleteOp(name, ext) => DeleteMayRefine(st, name, ext);
    case ReadOp(name, ext) => ViewIs(st, KeyOf(name, ext));
    case ReloadOp => ReloadIsIdentity(st);
  }

  lemma DeleteMayRefine(st: Fs, name: CString, ext: CString)
    requires Sound(st)
    ensures
      var effect := Delete(st.entries, name, ext);
      MayStep(FilesOf(st), DeleteOp(name, ext), FilesOf(After(st, effect)), Code(effect.code))
  {
    hide DiskOk, Mirrored, ApplyAll, SuperblockValid, AllValid, KeyOf, FilesOf, Find, Paired, DistinctKeys, Delete,
      After, Lookup, View;
    var op, key := DeleteOp(name, ext), KeyOf(name, ext);
    var effect := Delete(st.entries, name, ext);
    assert EffectOf(st.entries, op) == effect;
    CodeIs(st.entries, op);
    FoundIsFile(st, key);
    if effect.code == 0 {
      var st', left := After(st, effect), View(After(st, effect), key);
      DeleteView(st, name, ext, effect, key);
      forall x: Key ensures View(st', x) == if x == key then left else View(st, x) {
        DeleteView(st, name, ext, effect, x);
      }
      if left == None { NoFile(st, st', key); } else { OneFile(st, st', key, []); }
    } else {
      RefusedChangesNothing(st, -1);
    }
  }

  // Two states that differ in what one key reads.
  lemma OneFile(st: Fs, st': Fs, key: Key, text: seq<byte>)
    requires forall x: Key :: View(st', x) == if x == key then Some(text) else View(st, x)
    ensures FilesOf(st') == FilesOf(st)[key := text]
  {
    hide View, FilesOf;
    var files := FilesOf(st)[key := text];
    forall x: Key ensures View(st', x) == if x in files then Some(files[x]) else None { ViewIs(st, x); }
    ViewsDetermine(st', files);
  }

  lemma NoFile(st: Fs, st': Fs, key: Key)
    requires forall x: Key :: View(st', x) == if x == key then None else View(st, x)
    ensures FilesOf(st') == FilesOf(st) - {key}
  {
    hide View, FilesOf;
    var files := FilesOf(st) - {key};
    forall x: Key ensures View(st', x) == if x in files then Some(files[x]) else None { ViewIs(st, x); }
    ViewsDetermine(st', files);
  }

  // A creation is refused that the map would do exactly when doubled entries fill the table.
  lemma CreateRefusedEarly(st: Fs, name: CString, ext: CString)
    requires Sound(st)
    ensures
      Step(st, CreateOp(name, ext)).1 != MapStep(FilesOf(st), CreateOp(name, ext)).1 <==>
        && |st.entries| == MAX_FILES && !DistinctKeys(st.entries)
        && !Nameless(name) && !Nameless(ext) && KeyOf(name, ext) !in FilesOf(st)
  {
    hide DiskOk, Mirrored, SuperblockValid, KeyOf, FilesOf, Paired, DistinctKeys, Create, After, Lookup, IsValidEntry;
    CreateSucceeds(st.entries, name, ext);
    CreateRefines(st, name, ext);
    FilesFewer(st);
    FilesAtMost(st);
    FoundIsFile(st, KeyOf(name, ext));
  }

  // ----- whole runs -----

  function Run(st: Fs, ops: seq<Op>): (Fs, seq<Answer>)
    requires Inv(st)
    decreases |ops|
  {
    if ops == [] then (st, [])
    else
      StepKeepsInv(st, ops[0]);
      var (next, answer) := Step(st, ops[0]);
      var (last, answers) := Run(next, ops[1..]);
      (last, [answer] + answers)
  }

  // Over any run the disk answers as the map does, and ends holding the same files.
  lemma {:induction false} RunRefines(st: Fs, ops: seq<Op>)
    requires Inv(st)
    ensures Inv(Run(st, ops).0)
    ensures Run(st, ops).1 == MapRun(FilesOf(st), ops).1
    ensures FilesOf(Run(st, ops).0) == MapRun(FilesOf(st), ops).0
    decreases |ops|
  {
    hide Step, MapStep, FilesOf;
    if ops != [] {
      StepRefines(st, ops[0]);
      RunRefines(Step(st, ops[0]).0, ops[1..]);
    }
  }

  // From any disk, formatted, the file system is the map that starts empty.
  lemma FormattedRunRefines(disk: seq<Sector>, ops: seq<Op>)
    requires DiskOk(disk)
    ensures Inv(Fs([], ApplyAll(disk, FormatWrites())))
    ensures
      var run := Run(Fs([], ApplyAll(disk, FormatWrites())), ops);
      Inv(run.0) && run.1 == MapRun(map[], ops).1 && FilesOf(run.0) == MapRun(map[], ops).0
  {
    hide Run, MapRun, Inv, ApplyAll, FormatWrites;
    FormatEstablishesInv(disk);
    var st := Fs([], ApplyAll(disk, FormatWrites()));
    assert FilesOf(st) == map[];
    RunRefines(st, ops);
  }

  // What is kept of a text is the text cut to a sector, exactly when its 16-bit length does not drop
  // below a sector by wrapping round.
  lemma StoredIsCut(data: seq<byte>)
    ensures Stored(data) == data[..Min(|data|, MAX_FILE_SIZE)] <==>
      |data| < 0x1_0000 || |data| % 0x1_0000 >= MAX_FILE_SIZE
  {
    assert |data[..Min(|data|, MAX_FILE_SIZE)]| == Min(|data|, MAX_FILE_SIZE);
  }

  // The callers of fs_write pass texts that fit a sector: the shell at most 127 characters, the editor 511.
  lemma ShortIsStored(data: seq<byte>)
    requires |data| <= MAX_FILE_SIZE
    ensures Stored(data) == data
  {
  }

  lemma WrappedLengthLosesText(data: seq<byte>)
    requires |data| == 0x1_0000
    ensures Stored(data) == [] && data[..MAX_FILE_SIZE] != []
  {
  }
}
