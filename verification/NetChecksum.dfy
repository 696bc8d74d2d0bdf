// The IPv4 checksum: a 32-bit sum folded at the end, against one's-complement addition word by word
// (section 1 of RFC 1071), and headers that check to zero (section 3.1 of RFC 791).
module NetChecksum {

  import opened NawBase

  const TWO32 := 0x1_0000_0000
  // The longest data whose word sum always fits in 32 bits.
  const MAX_EXACT := 131074

  // ----- 16-bit words, high byte first -----

  function ReadBe16(b: seq<byte>, at: nat): (v: u16)
    requires at + 2 <= |b|
  {
    var hi: int, lo: int := b[at], b[at + 1];
    hi * 256 + lo
  }

  function Be16(v: u16): (b: seq<byte>)
    ensures |b| == 2 && ReadBe16(b, 0) == v
  {
    [v / 256, v % 256]
  }

  // The word at an index; a last odd byte counts as the high half of one.
  function WordAt(data: seq<byte>, i: nat): (w: u16)
    requires i < |data|
  {
    var hi: int, lo: int := data[i], if i + 1 < |data| then data[i + 1] else 0;
    hi * 256 + lo
  }

  // The plain sum of the words from an index on.
  function SumFrom(data: seq<byte>, i: nat): (s: nat)
    decreases |data| - i
  {
    if i >= |data| then 0 else WordAt(data, i) + SumFrom(data, i + 2)
  }

  function WordSum(data: seq<byte>): nat { SumFrom(data, 0) }

  // Adding carries back in until 16 bits are left.
  function Fold(n: nat): (r: u16)
    ensures n == 0 <==> r == 0
    ensures r % 0xFFFF == n % 0xFFFF
  {
    if n < 0x1_0000 then n else Fold(n % 0x1_0000 + n / 0x1_0000)
  }

  // ----- one's-complement arithmetic -----

  // Addition with the carry brought round.
  function OnesAdd(a: u16, b: u16): (s: u16) { if a + b < 0x1_0000 then a + b else a + b - 0xFFFF }

  function OnesSumFrom(data: seq<byte>, i: nat, acc: u16): (s: u16)
    decreases |data| - i
  {
    if i >= |data| then acc else OnesSumFrom(data, i + 2, OnesAdd(acc, WordAt(data, i)))
  }

  function OnesSum(data: seq<byte>): u16 { OnesSumFrom(data, 0, 0) }

  function Complement(v: u16): u16 { 0xFFFF - v }

  lemma FoldUnique(n: nat, r: u16)
    requires (n == 0 <==> r == 0) && r % 0xFFFF == n % 0xFFFF
    ensures Fold(n) == r
  {
    hide Fold;
    var f := Fold(n);
  }

  lemma FoldAdd(n: nat, w: u16)
    ensures OnesAdd(Fold(n), w) == Fold(n + w)
  {
    hide Fold;
    OnesAddResidue(Fold(n), n, w);
    FoldUnique(n + w, OnesAdd(Fold(n), w));
  }

  lemma OnesAddResidue(acc: u16, n: nat, w: u16)
    requires acc % 0xFFFF == n % 0xFFFF
    ensures OnesAdd(acc, w) % 0xFFFF == (n + w) % 0xFFFF
  {
    var k := n / 0xFFFF - acc / 0xFFFF;
    assert n + w == acc + w + 0xFFFF * k;
    Period(acc + w, k);
    Period(acc + w, -1);
  }

  lemma Period(a: int, k: int)
    ensures (a + 0xFFFF * k) % 0xFFFF == a % 0xFFFF
  {
  }

  // Bringing carries round at each addition or all at the end comes to the same word.
  lemma {:induction false} OnesSumIsFold(data: seq<byte>, i: nat, acc: u16, n: nat)
    requires acc == Fold(n)
    ensures OnesSumFrom(data, i, acc) == Fold(n + SumFrom(data, i))
    decreases |data| - i
  {
    hide Fold, OnesAdd, WordAt;
    if i < |data| {
      var w := WordAt(data, i);
      FoldAdd(n, w);
      OnesSumIsFold(data, i + 2, OnesAdd(acc, w), n + w);
    }
  }

  lemma OnesSumFolds(data: seq<byte>)
    ensures OnesSum(data) == Fold(WordSum(data))
  {
    FoldUnique(0, 0);
    OnesSumIsFold(data, 0, 0, 0);
  }

  // ----- the program's loop -----

  method Checksum(data: seq<byte>) returns (r: u16)
    ensures r == Complement(Fold(WordSum(data) % TWO32))
  {
    hide Fold, SumFrom;
    var sum: nat := 0;
    var i := 0;
    while i < |data|
      invariant 0 <= sum < TWO32 && (sum + SumFrom(data, i)) % TWO32 == WordSum(data) % TWO32
    {
      var word: int := data[i];
      word := word * 256;
      if i + 1 < |data| {
        word := word + data[i + 1];
      }
      SumNext(data, i);
      WrapAdd(sum, word, SumFrom(data, i + 2));
      sum := (sum + word) % TWO32;
      i := i + 2;
    }
    SumPast(data, i);
    var folded := FoldSum(sum);
    r := 0xFFFF - folded;
  }

  // Adds the carries back in until 16 bits are left.
  method FoldSum(n: nat) returns (r: u16)
    ensures r == Fold(n)
  {
    hide Fold;
    var sum := n;
    while sum / 0x1_0000 > 0
      invariant sum >= 0 && Fold(sum) == Fold(n)
      decreases sum
    {
      FoldStep(sum);
      sum := sum % 0x1_0000 + sum / 0x1_0000;
    }
    FoldSmall(sum);
    r := sum;
  }

  lemma SumNext(data: seq<byte>, i: nat)
    requires i < |data|
    ensures SumFrom(data, i) == WordAt(data, i) + SumFrom(data, i + 2)
  {
  }

  lemma SumPast(data: seq<byte>, i: nat)
    requires i >= |data|
    ensures SumFrom(data, i) == 0
  {
  }

  lemma FoldStep(n: nat)
    requires n >= 0x1_0000
    ensures Fold(n) == Fold(n % 0x1_0000 + n / 0x1_0000)
  {
  }

  lemma FoldSmall(n: nat)
    requires n < 0x1_0000
    ensures Fold(n) == n
  {
  }

  lemma WrapAdd(sum: nat, word: nat, rest: nat)
    ensures ((sum + word) % TWO32 + rest) % TWO32 == (sum + (word + rest)) % TWO32
  {
    assert sum + word == (sum + word) / TWO32 * TWO32 + (sum + word) % TWO32;
    ModPlus((sum + word) / TWO32, (sum + word) % TWO32 + rest);
  }

  lemma ModPlus(k: nat, n: nat)
    ensures (k * TWO32 + n) % TWO32 == n % TWO32
  {
  }

  // ----- when the 32-bit sum is enough -----

  lemma {:induction false} SumBound(data: seq<byte>, i: nat)
    requires i <= |data|
    ensures SumFrom(data, i) <= (|data| - i + 1) / 2 * 0xFFFF
    decreases |data| - i
  {
    if i + 1 < |data| { SumBound(data, i + 2); }
  }

  // For given data, the program's word is the one's-complement one exactly when the carries lost past 32
  // bits are a multiple of 65535 and do not leave zero.
  predicate CarriesHarmless(sum: nat) {
    sum / TWO32 % 0xFFFF == 0 && (sum >= TWO32 ==> sum % TWO32 != 0)
  }

  lemma ChecksumExact(data: seq<byte>)
    ensures Complement(Fold(WordSum(data) % TWO32)) == Complement(OnesSum(data)) <==> CarriesHarmless(WordSum(data))
  {
    hide Fold, WordSum, OnesSum, CarriesHarmless;
    OnesSumFolds(data);
    FoldOfLow(WordSum(data));
  }

  lemma FoldOfLow(n: nat)
    ensures Fold(n % TWO32) == Fold(n) <==> CarriesHarmless(n)
  {
    hide Fold;
    var k, m := n / TWO32, n % TWO32;
    assert n == k * TWO32 + m;
    CarryWeight(k, m);
    if k % 0xFFFF == 0 {
      SameWeight(k, m);
      if m != 0 || k == 0 { FoldUnique(n, Fold(m)); }
    } else if Fold(m) == Fold(n) {
      SameRemainder(k, m);
    }
  }

  lemma SameWeight(k: nat, m: nat)
    requires k % 0xFFFF == 0
    ensures (k + m) % 0xFFFF == m % 0xFFFF
  {
  }

  // A carry past 32 bits weighs one.
  lemma CarryWeight(k: nat, m: nat)
    ensures (k * TWO32 + m) % 0xFFFF == (k + m) % 0xFFFF
  {
    assert TWO32 == 0x1_0001 * 0xFFFF + 1;
    assert k * TWO32 + m == (k * 0x1_0001) * 0xFFFF + (k + m);
    ModFfff(k * 0x1_0001, k + m);
  }

  lemma ModFfff(q: nat, n: nat)
    ensures (q * 0xFFFF + n) % 0xFFFF == n % 0xFFFF
  {
  }

  lemma SameRemainder(k: nat, m: nat)
    requires (k + m) % 0xFFFF == m % 0xFFFF
    ensures k % 0xFFFF == 0
  {
  }

  // ----- all data of a length -----

  function Ramp(len: nat): (data: seq<byte>)
    ensures |data| == len
  {
    seq(len, i => if i <= MAX_EXACT then 0xFF else 0)
  }

  lemma {:induction false} RampSum(len: nat, i: nat)
    requires len > MAX_EXACT && i <= MAX_EXACT && i % 2 == 0
    ensures SumFrom(Ramp(len), i) == (MAX_EXACT - i) / 2 * 0xFFFF + 0xFF00
    decreases MAX_EXACT - i
  {
    if i < MAX_EXACT {
      RampSum(len, i + 2);
    } else {
      RampRest(len, i + 2);
    }
  }

  lemma {:induction false} RampRest(len: nat, i: nat)
    requires i > MAX_EXACT
    ensures SumFrom(Ramp(len), i) == 0
    decreases len - i
  {
    if i < len { RampRest(len, i + 2); }
  }

  lemma ShortIsExact(data: seq<byte>)
    requires |data| <= MAX_EXACT
    ensures Fold(WordSum(data) % TWO32) == OnesSum(data)
  {
    hide Fold, OnesSum;
    SumBound(data, 0);
    OnesSumFolds(data);
  }

  lemma RampFails(len: nat)
    requires len > MAX_EXACT
    ensures Fold(WordSum(Ramp(len)) % TWO32) != OnesSum(Ramp(len))
  {
    hide Fold, OnesSum, Ramp, SumFrom;
    RampSum(len, 0);
    ChecksumExact(Ramp(len));
  }

  // The checksum is the one's-complement one for all data of a length exactly up to 131074 bytes.
  lemma ChecksumExactUpTo(len: nat)
    ensures (forall data: seq<byte> :: |data| == len ==> Fold(WordSum(data) % TWO32) == OnesSum(data))
      <==> len <= MAX_EXACT
  {
    hide Fold, OnesSum, WordSum;
    if len <= MAX_EXACT {
      forall data: seq<byte> | |data| == len ensures Fold(WordSum(data) % TWO32) == OnesSum(data) {
        ShortIsExact(data);
      }
    } else {
      RampFails(len);
      assert |Ramp(len)| == len;
    }
  }

  // ----- a checksum put in its place -----

  lemma {:induction false} SumWithWord(data: seq<byte>, at: nat, i: nat, more: seq<byte>)
    requires i <= at && at + 2 <= |data| == |more| && i % 2 == at % 2 == 0 && data[at] == data[at + 1] == 0
    requires forall j :: 0 <= j < |data| && j != at && j != at + 1 ==> more[j] == data[j]
    ensures SumFrom(more, i) == SumFrom(data, i) + ReadBe16(more, at)
    decreases at - i
  {
    if i < at {
      SumWithWord(data, at, i + 2, more);
    } else {
      SumSame(data, more, i + 2);
    }
  }

  lemma {:induction false} SumSame(data: seq<byte>, more: seq<byte>, i: nat)
    requires |data| == |more| && forall j :: i <= j < |data| ==> more[j] == data[j]
    ensures SumFrom(more, i) == SumFrom(data, i)
    decreases |data| - i
  {
    if i < |data| { SumSame(data, more, i + 2); }
  }

  // Data whose zeroed checksum word is replaced by its checksum has checksum zero.
  lemma ChecksToZero(data: seq<byte>, at: nat, more: seq<byte>)
    requires at + 2 <= |data| == |more| && at % 2 == 0 && data[at] == data[at + 1] == 0
    requires forall j :: 0 <= j < |data| && j != at && j != at + 1 ==> more[j] == data[j]
    requires ReadBe16(more, at) == Complement(OnesSum(data))
    ensures Complement(OnesSum(more)) == 0
  {
    hide Fold;
    SumWithWord(data, at, 0, more);
    OnesSumFolds(data);
    OnesSumFolds(more);
    var s := WordSum(data);
    SumUp(s, Fold(s));
    FoldUnique(s + 0xFFFF - Fold(s), 0xFFFF);
  }

  lemma SumUp(s: nat, f: u16)
    requires f % 0xFFFF == s % 0xFFFF && f <= s
    ensures (s + 0xFFFF - f) % 0xFFFF == 0 && s + 0xFFFF - f > 0
  {
  }

  // The worked example of section 3 of RFC 1071.
  lemma WorkedExample()
    ensures OnesSum([0x00, 0x01, 0xF2, 0x03, 0xF4, 0xF5, 0xF6, 0xF7]) == 0xDDF2
  {
    var data: seq<byte> := [0x00, 0x01, 0xF2, 0x03, 0xF4, 0xF5, 0xF6, 0xF7];
    assert OnesSumFrom(data, 8, 0xDDF2) == 0xDDF2;
    assert WordAt(data, 6) == 0xF6F7 && OnesSumFrom(data, 6, 0xE6FA) == 0xDDF2;
    assert WordAt(data, 4) == 0xF4F5 && OnesSumFrom(data, 4, 0xF204) == 0xDDF2;
    assert WordAt(data, 2) == 0xF203 && OnesSumFrom(data, 2, 0x0001) == 0xDDF2;
    assert WordAt(data, 0) == 0x0001;
  }

  // The high byte of a word comes first, and a last odd byte is one.
  lemma HighByteFirst(hi: byte, lo: byte)
    ensures WordSum([hi, lo]) == 256 * hi as int + lo as int && WordSum([hi]) == 256 * hi as int
  {
    assert SumFrom([hi, lo], 2) == 0 && SumFrom([hi], 2) == 0;
  }
}
