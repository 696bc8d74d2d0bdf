// The on-disk format of NawFS: sectors, catalog entries and the superblock, byte by byte.
module FsFormat {

  import opened NawBase

  const MAX_FILES := 64
  const FILENAME_LEN := 8
  const EXTENSION_LEN := 3
  const RESERVED_LEN := 17
  const SECTOR_SIZE := 512
  const MAX_FILE_SIZE := 512
  const ENTRY_SIZE := 32
  const ENTRIES_PER_SECTOR := 16
  const SUPERBLOCK_SECTOR := 129
  const CATALOG_START := 130
  const CATALOG_SECTORS := 9
  const DATA_START := 139
  const DATA_SECTORS := 64
  const DISK_SECTORS := 4096
  const VERSION := 1

  // A C string as a caller passes it: its bytes up to the terminating zero, or a null pointer.
  type CString = s: Option<seq<byte>> | s.Some? ==> 0 !in s.value witness None

  // A string in a fixed field: cut to the field's length, padded with zeros.
  function Pack(len: nat, s: CString): (f: seq<byte>)
    ensures |f| == len
  {
    if s.None? then Zeros(len)
    else var n := Min(|s.value|, len); s.value[..n] + Zeros(len - n)
  }

  // The C string that starts a byte sequence.
  function CStr(b: seq<byte>): (s: seq<byte>)
    ensures s <= b && 0 !in s
  {
    if b == [] || b[0] == 0 then [] else [b[0]] + CStr(b[1..])
  }

  lemma {:induction false} CStrOf(s: seq<byte>, rest: seq<byte>)
    requires 0 !in s && (rest == [] || rest[0] == 0)
    ensures CStr(s + rest) == s
  {
    if s == [] {
      assert s + rest == rest;
    } else {
      assert (s + rest)[1..] == s[1..] + rest;
      assert forall x :: x in s[1..] ==> x in s;
      CStrOf(s[1..], rest);
    }
  }

  // The part of a name that a field of n bytes holds; a null pointer is an empty name.
  function Front(s: CString, n: nat): seq<byte> {
    if s.None? then [] else if |s.value| <= n then s.value else s.value[..n]
  }

  // A field holds the front of the name it was given: that is what is read back from it.
  lemma PackHolds(n: nat, s: CString)
    ensures CStr(Pack(n, s)) == Front(s, n) && Front(s, n) <= Pack(n, s)
    ensures forall i :: |Front(s, n)| <= i < n ==> Pack(n, s)[i] == 0
  {
    var f := Front(s, n);
    assert Pack(n, s) == f + Zeros(n - |f|);
    assert s.Some? ==> forall x :: x in f ==> x in s.value;
    CStrOf(f, Zeros(n - |f|));
  }

  // Two names are the same in a field exactly when their fronts are.
  lemma PackSame(n: nat, s: CString, t: CString)
    ensures Pack(n, s) == Pack(n, t) <==> Front(s, n) == Front(t, n)
  {
    PackHolds(n, s);
    PackHolds(n, t);
    if Front(s, n) == Front(t, n) {
      var f := Front(s, n);
      assert Pack(n, s)[..|f|] == f == Pack(n, t)[..|f|];
      forall i | 0 <= i < n ensures Pack(n, s)[i] == Pack(n, t)[i] {
        if i < |f| { assert Pack(n, s)[..|f|][i] == Pack(n, t)[..|f|][i]; }
      }
    }
  }

  // ----- 16-bit fields, low byte first -----

  function Put16(v: u16): (b: seq<byte>)
    ensures |b| == 2
  {
    [v % 256, v / 256]
  }

  function Get16(b: seq<byte>, at: nat): u16
    requires at + 2 <= |b|
  {
    var lo: int, hi: int := b[at], b[at + 1];
    lo + 256 * hi
  }

  // ----- catalog entries -----

  datatype Entry = Entry(name: seq<byte>, ext: seq<byte>, size: u16, sector: u16, reserved: seq<byte>)

  const EMPTY_ENTRY := Entry(Zeros(FILENAME_LEN), Zeros(EXTENSION_LEN), 0, 0, Zeros(RESERVED_LEN))

  predicate WellShaped(e: Entry) {
    |e.name| == FILENAME_LEN && |e.ext| == EXTENSION_LEN && |e.reserved| == RESERVED_LEN
  }

  function Encode(e: Entry): (b: seq<byte>)
    requires WellShaped(e)
    ensures |b| == ENTRY_SIZE
  {
    e.name + e.ext + Put16(e.size) + Put16(e.sector) + e.reserved
  }

  function Decode(b: seq<byte>): (e: Entry)
    requires |b| == ENTRY_SIZE
    ensures WellShaped(e)
  {
    Entry(b[..8], b[8..11], Get16(b, 11), Get16(b, 13), b[15..])
  }

  lemma EncodeDecode(e: Entry)
    requires WellShaped(e)
    ensures Decode(Encode(e)) == e
  {
    var b := Encode(e);
    assert b[..8] == e.name && b[8..11] == e.ext && b[15..] == e.reserved;
    assert b[11] == e.size % 256 && b[12] == e.size / 256 && b[13] == e.sector % 256 && b[14] == e.sector / 256;
  }

  lemma DecodeEncode(b: seq<byte>)
    requires |b| == ENTRY_SIZE
    ensures Encode(Decode(b)) == b
  {
    var e := Decode(b);
    assert Put16(e.size) == b[11..13] && Put16(e.sector) == b[13..15];
    assert b == b[..8] + b[8..11] + b[11..13] + b[13..15] + b[15..];
  }

  // Where the fields of an entry lie, and that the low byte of a number comes first.
  lemma EntryBytes(e: Entry)
    requires WellShaped(e)
    ensures
      var b := Encode(e);
      && b[0..8] == e.name && b[8..11] == e.ext && b[15..32] == e.reserved
      && b[11] as int + 256 * b[12] as int == e.size && b[13] as int + 256 * b[14] as int == e.sector
  {
    EncodeDecode(e);
    var b := Encode(e);
    assert b[0..8] == b[..8] && b[15..32] == b[15..];
  }

  // What the loader takes for an entry: a name, a data sector, a possible size.
  predicate IsValidEntry(e: Entry) {
    WellShaped(e) && e.name[0] != 0 && DATA_START <= e.sector < DATA_START + DATA_SECTORS && e.size <= MAX_FILE_SIZE
  }

  // The slots the loader takes, by their bytes.
  lemma ValidBytes(b: seq<byte>)
    requires |b| == ENTRY_SIZE
    ensures IsValidEntry(Decode(b)) <==>
      && b[0] != 0 && b[11] as int + 256 * b[12] as int <= 512
      && 139 <= b[13] as int + 256 * b[14] as int <= 202
  {
  }

  lemma EmptySlot()
    ensures !IsValidEntry(Decode(Zeros(ENTRY_SIZE)))
  {
  }

  // ----- the superblock -----

  const MAGIC: seq<byte> := [78, 65, 87, 70, 83, 49, 0, 0]

  function Superblock(): (b: seq<byte>)
    ensures |b| == SECTOR_SIZE
  {
    MAGIC + Put16(VERSION) + Put16(MAX_FILES) + Put16(CATALOG_START) + Put16(CATALOG_SECTORS)
    + Put16(DATA_START) + Put16(DATA_SECTORS) + Zeros(492)
  }

  // The superblock, byte by byte.
  lemma SuperblockBytes()
    ensures Superblock()[..20] == [78, 65, 87, 70, 83, 49, 0, 0, 1, 0, 64, 0, 130, 0, 9, 0, 139, 0, 64, 0]
    ensures forall i :: 20 <= i < 512 ==> Superblock()[i] == 0
  {
  }

  predicate SuperblockValid(b: seq<byte>)
    requires |b| == SECTOR_SIZE
  {
    && b[..8] == MAGIC && Get16(b, 8) == VERSION && Get16(b, 10) == MAX_FILES && Get16(b, 12) == CATALOG_START
    && Get16(b, 14) == CATALOG_SECTORS && Get16(b, 16) == DATA_START && Get16(b, 18) == DATA_SECTORS
  }

  // A formatted disk is recognised, and by nothing but its first twenty bytes.
  lemma SuperblockRecognised(b: seq<byte>)
    requires |b| == SECTOR_SIZE
    ensures SuperblockValid(b) <==> b[..20] == Superblock()[..20]
  {
    var s := Superblock();
    assert s[..8] == MAGIC;
    if SuperblockValid(b) {
      forall i | 0 <= i < 20 ensures b[i] == s[i] {
        if i < 8 { assert b[..8][i] == MAGIC[i]; }
      }
    }
    if b[..20] == s[..20] {
      forall i | 0 <= i < 20 ensures b[i] == s[i] { assert b[..20][i] == s[..20][i]; }
      assert b[..8] == s[..8];
    }
  }
}
