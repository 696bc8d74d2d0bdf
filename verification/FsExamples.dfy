// Files and names for which a stop in the middle of an operation shows.
module FsExamples {
  import opened NawBase
  import opened FsFormat
  import opened FsModel
  import opened FsCatalog
  import opened FsInvariant
  import opened FsCrash
  import opened FsMap
  import opened FsRecovery

  const EXT: CString := Some([66])

  // One printable character, from the digit 0 on.
  function NameOf(j: nat): CString
    requires j < MAX_FILES
  {
    Some([48 + j])
  }

  lemma StepKeepsWhole(st: Fs, op: Op)
    requires Inv(st) && WholeTexts(st)
    ensures Inv(Step(st, op).0) && WholeTexts(Step(st, op).0)
  {
    hide Sound, DistinctKeys, WholeTexts, Create, WriteFile, Delete, Load, After;
    StepKeepsInv(st, op);
    match op
    case CreateOp(name, ext) => CreateKeepsInv(st, name, ext);
    case WriteOp(name, ext, data) => WriteKeepsInv(st, name, ext, data);
    case DeleteOp(name, ext) => DeleteKeepsInv(st, name, ext);
    case ReadOp(name, ext) =>
    case ReloadOp => ReloadIsIdentity(st);
  }

  // ----- a torn write -----

  const ONE: seq<byte> := [49]
  const CD: seq<byte> := [67, 68]

  function WriteCd(): Op { WriteOp(NameOf(0), EXT, Some(CD)) }

  // A formatted disk with one file, holding one byte.
  function OneByteFile(disk: seq<Sector>): (st: Fs)
    requires DiskOk(disk)
    ensures Inv(st)
  {
    FormatEstablishesInv(disk);
    var st := Fs([], ApplyAll(disk, FormatWrites()));
    StepKeepsInv(st, CreateOp(NameOf(0), EXT));
    var created := Step(st, CreateOp(NameOf(0), EXT)).0;
    StepKeepsInv(created, WriteOp(NameOf(0), EXT, Some(ONE)));
    Step(created, WriteOp(NameOf(0), EXT, Some(ONE))).0
  }

  lemma OneByteFileHolds(disk: seq<Sector>)
    requires DiskOk(disk)
    ensures WholeTexts(OneByteFile(disk)) && FilesOf(OneByteFile(disk)) == map[KeyOf(NameOf(0), EXT) := ONE]
  {
    hide Sound, DistinctKeys, WholeTexts, ApplyAll, FormatWrites, Step, FilesOf, KeyOf, DiskOk;
    FormatEstablishesInv(disk);
    var st := Fs([], ApplyAll(disk, FormatWrites()));
    var create, write := CreateOp(NameOf(0), EXT), WriteOp(NameOf(0), EXT, Some(ONE));
    EmptyFiles(st);
    SoundParts(st);
    StepKeepsWhole(st, create);
    StepRefines(st, create);
    var created := Step(st, create).0;
    SoundParts(created);
    StepKeepsWhole(created, write);
    StepRefines(created, write);
    ShortIsStored(ONE);
    assert FilesOf(created) == map[KeyOf(NameOf(0), EXT) := []];
  }

  lemma EmptyFiles(st: Fs)
    requires st.entries == []
    ensures FilesOf(st) == map[]
  {
  }

  // Stopping op after k writes leaves a reader this text under the key.
  ghost predicate Leaves(st: Fs, op: Op, k: nat, key: Key, text: seq<byte>) {
    DiskOk(StoppedDisk(st, op, k)) && View(Restarted(st, op, k), key) == Some(text)
  }

  // Writing CD over the one byte is torn when it stops before the catalog is written: a reader finds C.
  lemma TornWrite(disk: seq<Sector>)
    requires DiskOk(disk)
    ensures Leaves(OneByteFile(disk), WriteCd(), 1, KeyOf(NameOf(0), EXT), [67])
  {
    hide Sound, DistinctKeys, WholeTexts, DiskOk, FilesOf, KeyOf, OneByteFile, Leaves;
    OneByteFileHolds(disk);
    ShortIsStored(CD);
    TornOver(OneByteFile(disk), NameOf(0), EXT, CD);
    assert CD[..1] == [67];
  }

  lemma TornOver(st: Fs, name: CString, ext: CString, data: seq<byte>)
    requires Inv(st) && WholeTexts(st) && 0 !in data && |data| > 1 && Stored(data) == data
    requires FilesOf(st) == map[KeyOf(name, ext) := ONE]
    ensures Leaves(st, WriteOp(name, ext, Some(data)), 1, KeyOf(name, ext), data[..1])
  {
    hide Sound, DistinctKeys, WholeTexts, DiskOk, FilesOf, KeyOf, Find, Stored, Restarted, StoppedDisk, View;
    var key, op := KeyOf(name, ext), WriteOp(name, ext, Some(data));
    ViewIs(st, key);
    FoundIsFile(st, key);
    ViewFound(st, key);
    var i := Find(st.entries, key);
    WholeTextRead(st, i);
    StopKeepsInv(st, op, 1);
    SoundParts(Restarted(st, op, 1));
    WrittenView(st, op, i, 1, key);
  }

  lemma ViewFound(st: Fs, key: Key)
    requires Find(st.entries, key) >= 0
    ensures View(st, key) == Some(Content(st.disk, st.entries[Find(st.entries, key)]))
  {
  }

  // ----- a file listed twice -----

  // A formatted disk with n files.
  function ManyFiles(disk: seq<Sector>, n: nat): (st: Fs)
    requires DiskOk(disk) && n <= MAX_FILES
    ensures Inv(st)
    decreases n
  {
    if n == 0 then
      FormatEstablishesInv(disk);
      Fs([], ApplyAll(disk, FormatWrites()))
    else
      var st := ManyFiles(disk, n - 1);
      StepKeepsInv(st, CreateOp(NameOf(n - 1), EXT));
      Step(st, CreateOp(NameOf(n - 1), EXT)).0
  }

  lemma NamesDiffer(j: nat, k: nat)
    requires j < k < MAX_FILES
    ensures KeyOf(NameOf(j), EXT) != KeyOf(NameOf(k), EXT)
  {
    assert KeyOf(NameOf(j), EXT).0[0] == 48 + j && KeyOf(NameOf(k), EXT).0[0] == 48 + k;
  }

  lemma {:induction false} ManyFilesListed(disk: seq<Sector>, n: nat)
    requires DiskOk(disk) && n <= MAX_FILES
    ensures
      var es := ManyFiles(disk, n).entries;
      |es| == n && forall j: nat :: j < n ==> EntryKey(es[j]) == KeyOf(NameOf(j), EXT)
    decreases n
  {
    hide Sound, DistinctKeys, ApplyAll, FormatWrites, KeyOf, DiskOk, FlushWrites, Create, Lookup;
    if n > 0 {
      ManyFilesListed(disk, n - 1);
      var es, name := ManyFiles(disk, n - 1).entries, NameOf(n - 1);
      forall j | 0 <= j < |es| ensures EntryKey(es[j]) != KeyOf(name, EXT) { NamesDiffer(j, n - 1); }
      NotListed(es, KeyOf(name, EXT));
      CreateSucceeds(es, name, EXT);
      CreateAppends(es, name, EXT);
    }
  }

  lemma NotListed(es: seq<Entry>, key: Key)
    requires forall j :: 0 <= j < |es| ==> EntryKey(es[j]) != key
    ensures Lookup(es, key) == None
  {
  }

  lemma CreateAppends(es: seq<Entry>, name: CString, ext: CString)
    requires Create(es, name, ext).code == 0
    ensures
      var new' := Create(es, name, ext).entries;
      |new'| == |es| + 1 && new'[..|es|] == es && EntryKey(new'[|es|]) == KeyOf(name, ext)
  {
    hide FlushWrites, FindFrom, FreeFrom;
  }

  // With 17 files, deleting the first and stopping after the first catalog sector lists the last one twice;
  // deleted, it is still listed and reads empty.
  lemma ListedTwice(disk: seq<Sector>)
    requires DiskOk(disk)
    ensures
      var st, op := ManyFiles(disk, 17), DeleteOp(NameOf(0), EXT);
      DiskOk(StoppedDisk(st, op, 2)) && !DistinctKeys(Restarted(st, op, 2).entries)
      && var st' := Restarted(st, op, 2);
      var effect := Delete(st'.entries, NameOf(16), EXT);
      effect.code == 0 && ReadKey(effect.entries, ApplyAll(st'.disk, effect.writes), KeyOf(NameOf(16), EXT)) == Some([])
  {
    hide Sound, DistinctKeys, ApplyAll, KeyOf, DiskOk, FlushWrites, ManyFiles, Find, Load, StoppedAt, ReadKey;
    var st, op := ManyFiles(disk, 17), DeleteOp(NameOf(0), EXT);
    ManyFilesListed(disk, 17);
    FindIs(st.entries, KeyOf(NameOf(0), EXT), 0);
    DeleteLeavesDuplicate(st, NameOf(0), EXT, 0, 2);
    DuplicateOutlivesDelete(st, NameOf(0), EXT, 0, 2, NameOf(16), EXT);
  }
}
