/** The ICMP echo prober: the Internet checksum (RFC 1071) as it is computed in a 32-bit
    accumulator, the echo request builder, and the matching of replies (RFC 792). */
module Icmp {
  import Permutations

  type byte = x: int | 0 <= x < 256

  // ----- One's-complement arithmetic

  /** The buffer as big-endian 16-bit words; an odd last byte is padded with zero. */
  function WordAt(b: seq<byte>, i: nat): int
    requires 2 * i < |b|
  {
    var low: int := if 2 * i + 1 < |b| then b[2 * i + 1] else 0;
    256 * (b[2 * i] as int) + low
  }

  function Words(b: seq<byte>): (ws: seq<int>)
    ensures |ws| == (|b| + 1) / 2 && forall i :: 0 <= i < |ws| ==> ws[i] == WordAt(b, i)
    ensures IsWords(ws)
  {
    seq((|b| + 1) / 2, i requires 0 <= i < (|b| + 1) / 2 => WordAt(b, i))
  }

  predicate IsWord(w: int) {
    0 <= w <= 0xffff
  }

  predicate IsWords(ws: seq<int>) {
    forall i :: 0 <= i < |ws| ==> IsWord(ws[i])
  }

  /** Addition with the carry brought around. */
  function OnesAdd(a: int, b: int): int {
    if a + b > 0xffff then a + b - 0xffff else a + b
  }

  function OnesSum(ws: seq<int>, n: nat): int
    requires n <= |ws|
  {
    if n == 0 then 0 else OnesAdd(OnesSum(ws, n - 1), ws[n - 1])
  }

  /** RFC 1071, section 1: the complement of the one's-complement sum of the words. */
  function Checksum(b: seq<byte>): int {
    0xffff - OnesSum(Words(b), |Words(b)|)
  }

  predicate Verifies(b: seq<byte>) {
    Checksum(b) == 0
  }

  function Sum(ws: seq<int>, n: nat): int
    requires n <= |ws|
  {
    if n == 0 then 0 else Sum(ws, n - 1) + ws[n - 1]
  }

  /** The sum of the buffer's words, as an integer. */
  function Total(b: seq<byte>): (t: int)
    ensures 0 <= t
  {
    SumNonNegative(Words(b), |Words(b)|);
    Sum(Words(b), |Words(b)|)
  }

  /** The representative of `s` modulo 65535 that is 0 only for 0. */
  function Norm(s: int): int
    requires 0 <= s
  {
    if s == 0 then 0 else (s - 1) % 0xffff + 1
  }

  lemma ModShift(x: int, q: int)
    ensures (x + 0xffff * q) % 0xffff == x % 0xffff
  {
  }

  lemma NormMeans(s: int)
    requires 0 <= s
    ensures IsWord(Norm(s)) && (Norm(s) == 0 <==> s == 0) && Norm(s) % 0xffff == s % 0xffff
  {
    if s > 0 {
      var q, r := (s - 1) / 0xffff, (s - 1) % 0xffff;
      assert s == (r + 1) + 0xffff * q;
      ModShift(r + 1, q);
    }
  }

  /** Residue and zeroness determine a word. */
  lemma SameWord(x: int, y: int)
    requires IsWord(x) && IsWord(y) && x % 0xffff == y % 0xffff && (x == 0 <==> y == 0)
    ensures x == y
  {
  }

  lemma OnesAddMeans(a: int, b: int)
    requires IsWord(a) && IsWord(b)
    ensures IsWord(OnesAdd(a, b)) && OnesAdd(a, b) % 0xffff == (a + b) % 0xffff && (OnesAdd(a, b) == 0 <==> a == 0 && b == 0)
  {
    ModShift(OnesAdd(a, b), 1);
  }

  lemma ModAdd(a: int, b: int, c: int)
    requires a % 0xffff == b % 0xffff
    ensures (a + c) % 0xffff == (b + c) % 0xffff
  {
    var q := a / 0xffff - b / 0xffff;
    assert a + c == b + c + 0xffff * q;
    ModShift(b + c, q);
  }

  lemma {:induction false} SumNonNegative(ws: seq<int>, n: nat)
    requires IsWords(ws) && n <= |ws|
    ensures 0 <= Sum(ws, n) <= 0xffff * n
    ensures Sum(ws, n) == 0 <==> forall i :: 0 <= i < n ==> ws[i] == 0
  {
    if n > 0 {
      SumNonNegative(ws, n - 1);
    }
  }

  /** Adding with carries is adding modulo 65535. */
  lemma {:induction false} OnesSumIsNorm(ws: seq<int>, n: nat)
    requires IsWords(ws) && n <= |ws|
    ensures Sum(ws, n) >= 0 && OnesSum(ws, n) == Norm(Sum(ws, n))
  {
    SumNonNegative(ws, n);
    if n > 0 {
      OnesSumIsNorm(ws, n - 1);
      SumNonNegative(ws, n - 1);
      var s, w := Sum(ws, n - 1), ws[n - 1];
      NormMeans(s);
      NormMeans(s + w);
      OnesAddMeans(Norm(s), w);
      ModAdd(Norm(s), s, w);
      SameWord(OnesAdd(Norm(s), w), Norm(s + w));
    }
  }

  lemma ChecksumIsNorm(b: seq<byte>)
    ensures Checksum(b) == 0xffff - Norm(Total(b)) && IsWord(Checksum(b))
    ensures Verifies(b) <==> Total(b) > 0 && Total(b) % 0xffff == 0
  {
    OnesSumIsNorm(Words(b), |Words(b)|);
    NormMeans(Total(b));
    Complement(Total(b));
  }

  /** The number two bytes stand for, the first the more significant. */
  function NetworkOrder(first: int, second: int): int {
    256 * first + second
  }

  /** Bytes at even positions count 256-fold. */
  function BytesSum(b: seq<byte>, n: nat): int
    requires n <= |b|
  {
    if n == 0 then 0 else BytesSum(b, n - 1) + (b[n - 1] as int) * if n % 2 == 1 then 256 else 1
  }

  lemma {:induction false} WordsOfBytes(b: seq<byte>, k: nat)
    requires 2 * k <= |b|
    ensures Sum(Words(b), k) == BytesSum(b, 2 * k)
  {
    if k > 0 {
      WordsOfBytes(b, k - 1);
      assert Words(b)[k - 1] == WordAt(b, k - 1);
      assert BytesSum(b, 2 * k - 1) == BytesSum(b, 2 * k - 2) + (b[2 * k - 2] as int) * 256;
    }
  }

  /** The checksum of a buffer on its bytes: the complement of their sum in network order
      modulo 65535. */
  lemma ChecksumOfBytes(b: seq<byte>)
    ensures 0 <= BytesSum(b, |b|) && Checksum(b) == 0xffff - Norm(BytesSum(b, |b|))
  {
    ChecksumIsNorm(b);
    WordsOfBytes(b, |b| / 2);
    if |b| % 2 == 1 {
      assert Words(b)[|b| / 2] == WordAt(b, |b| / 2) == 256 * b[|b| - 1] as int;
    }
  }

  lemma Complement(s: int)
    requires 0 <= s
    ensures Norm(s) == 0xffff <==> s > 0 && s % 0xffff == 0
  {
    NormMeans(s);
  }

  // ----- The computation

  const U32 := 0x1_0000_0000

  /** The result of summing in 32 bits, whatever the length. */
  function Checksum32(b: seq<byte>): int {
    0xffff - Norm(Total(b) % U32)
  }

  /** One fold adds the high half to the low half; the residue does not change. */
  lemma FoldKeepsNorm(s: int)
    requires 0 <= s
    ensures Norm(s % 0x1_0000 + s / 0x1_0000) == Norm(s)
    ensures s / 0x1_0000 != 0 ==> s % 0x1_0000 + s / 0x1_0000 < s
  {
    var f, q := s % 0x1_0000 + s / 0x1_0000, s / 0x1_0000;
    assert s == f + 0xffff * q;
    ModShift(f, q);
    NormMeans(s);
    NormMeans(f);
    SameWord(Norm(s), Norm(f));
  }

  /** The sum of the first words as a 32-bit accumulator holds it. */
  function Sum32(ws: seq<int>, n: nat): int
    requires n <= |ws|
  {
    if n == 0 then 0 else (Sum32(ws, n - 1) + ws[n - 1]) % U32
  }

  lemma {:induction false} Sum32IsSum(ws: seq<int>, n: nat)
    requires n <= |ws|
    ensures Sum32(ws, n) == Sum(ws, n) % U32
  {
    if n > 0 {
      Sum32IsSum(ws, n - 1);
      Wraps(Sum(ws, n - 1), ws[n - 1]);
    }
  }

  /** The accumulating loops, in wrapping 32-bit arithmetic. */
  method Accumulate(b: array<byte>) returns (sum: int)
    ensures sum == Total(b[..]) % U32
  {
    ghost var s: seq<byte>, k: nat := b[..], 0;
    var i := 0;
    sum := 0;
    while i + 1 < b.Length
      invariant i == 2 * k <= b.Length && k <= |Words(s)|
      invariant sum == Sum32(Words(s), k)
      decreases b.Length - i
    {
      assert Words(s)[k] == WordAt(s, k);
      sum := (sum + (256 * (b[i] as int) + b[i + 1])) % U32;
      i, k := i + 2, k + 1;
    }
    if b.Length % 2 == 1 {
      assert Words(s)[k] == WordAt(s, k);
      sum := (sum + 256 * (b[b.Length - 1] as int)) % U32;
    }
    Sum32IsSum(Words(s), |Words(s)|);
  }

  lemma Wraps(s: int, w: int)
    ensures (s % U32 + w) % U32 == (s + w) % U32
  {
  }

  /** The folding loop stops, at the word with the sum's residue. */
  method Fold(start: int) returns (sum: int)
    requires 0 <= start
    ensures sum == Norm(start) && IsWord(sum)
  {
    sum := start;
    while sum / 0x1_0000 != 0
      invariant 0 <= sum && Norm(sum) == Norm(start)
      decreases sum
    {
      FoldKeepsNorm(sum);
      sum := sum % 0x1_0000 + sum / 0x1_0000;
    }
    NormMeans(sum);
    SameWord(sum, Norm(sum));
  }

  method IcmpChecksum(b: array<byte>) returns (cs: int)
    ensures cs == Checksum32(b[..]) && IsWord(cs)
    ensures b.Length <= 131074 ==> cs == Checksum(b[..])
  {
    var sum := Accumulate(b);
    var folded := Fold(sum);
    cs := 0xffff - folded;
    ChecksumFits(b[..]);
  }

  /** Up to 131074 bytes the 32-bit sum cannot overflow. */
  lemma TotalFits(b: seq<byte>)
    ensures |b| <= 131074 ==> Total(b) < U32
  {
    var ws := Words(b);
    SumNonNegative(ws, |ws|);
    if |b| == 131073 {
      SumNonNegative(ws, |ws| - 1);
    }
  }

  lemma ChecksumFits(b: seq<byte>)
    ensures IsWord(Checksum32(b))
    ensures |b| <= 131074 ==> Checksum32(b) == Checksum(b)
  {
    TotalFits(b);
    ChecksumIsNorm(b);
    NormMeans(Total(b) % U32);
  }

  lemma {:induction false} SumPrefix(ws: seq<int>, vs: seq<int>, n: nat)
    requires n <= |ws| && n <= |vs| && forall i :: 0 <= i < n ==> ws[i] == vs[i]
    ensures Sum(ws, n) == Sum(vs, n)
  {
    if n > 0 {
      SumPrefix(ws, vs, n - 1);
    }
  }

  /** The bound is exact: a longer buffer of any length can wrap to a wrong checksum. */
  lemma ThirtyTwoBitsSufficeIff(n: nat)
    ensures (forall b: seq<byte> :: |b| == n ==> Checksum32(b) == Checksum(b)) <==> n <= 131074
  {
    if n <= 131074 {
      forall b: seq<byte> | |b| == n
        ensures Checksum32(b) == Checksum(b)
      {
        ChecksumFits(b);
      }
    } else {
      var b := WrappingBuffer(n);
      ChecksumIsNorm(b);
      assert Norm(255) == 255 && Norm(U32 + 255) == 256;
    }
  }

  /** 131074 bytes 0xff, then 0x01, then zeros. */
  lemma WrappingBuffer(n: nat) returns (b: seq<byte>)
    requires 131074 < n
    ensures |b| == n && Total(b) == U32 + 255
  {
    b := seq(n, i => if i < 131074 then 255 else if i == 131074 then 1 else 0);
    var ws := Words(b);
    SumOfOnes(ws, 65537);
    assert ws[65537] == WordAt(b, 65537) == 256;
    SumOfZeros(ws, 65538, |ws|);
  }

  lemma {:induction false} SumOfOnes(ws: seq<int>, n: nat)
    requires n <= |ws| && forall i :: 0 <= i < n ==> ws[i] == 0xffff
    ensures Sum(ws, n) == 0xffff * n
  {
    if n > 0 {
      SumOfOnes(ws, n - 1);
    }
  }

  lemma {:induction false} SumOfZeros(ws: seq<int>, m: nat, n: nat)
    requires m <= n <= |ws| && forall i :: m <= i < n ==> ws[i] == 0
    ensures Sum(ws, n) == Sum(ws, m)
  {
    if m < n {
      SumOfZeros(ws, m, n - 1);
    }
  }

  // ----- One word changed

  /** The buffer with word `i` replaced. */
  function WithWord(b: seq<byte>, i: nat, w: int): (r: seq<byte>)
    requires 2 * i + 1 < |b| && IsWord(w)
    ensures |r| == |b| && WordAt(r, i) == w
    ensures forall k :: 0 <= k < |b| && k != 2 * i && k != 2 * i + 1 ==> r[k] == b[k]
  {
    b[2 * i := w / 256][2 * i + 1 := w % 256]
  }

  lemma {:induction false} SumUpdate(ws: seq<int>, vs: seq<int>, i: nat, n: nat)
    requires i < n <= |ws| == |vs| && forall k :: 0 <= k < n && k != i ==> ws[k] == vs[k]
    ensures Sum(vs, n) == Sum(ws, n) - ws[i] + vs[i]
  {
    if n - 1 == i {
      SumPrefix(ws, vs, i);
    } else {
      SumUpdate(ws, vs, i, n - 1);
    }
  }

  lemma WithWordTotal(b: seq<byte>, i: nat, w: int)
    requires 2 * i + 1 < |b| && IsWord(w)
    ensures IsWord(WordAt(b, i)) && Total(WithWord(b, i, w)) == Total(b) - WordAt(b, i) + w
  {
    var r := WithWord(b, i, w);
    var ws, vs := Words(b), Words(r);
    forall k | 0 <= k < |ws| && k != i
      ensures ws[k] == vs[k]
    {
      assert WordAt(b, k) == WordAt(r, k);
    }
    assert ws[i] == WordAt(b, i) && vs[i] == w;
    SumUpdate(ws, vs, i, |ws|);
  }

  lemma ComplementCancels(s: int)
    requires 0 <= s
    ensures IsWord(Norm(s)) && s + (0xffff - Norm(s)) > 0 && (s + (0xffff - Norm(s))) % 0xffff == 0
  {
    NormMeans(s);
    ModAdd(s, Norm(s), 0xffff - Norm(s));
  }

  /** Writing the checksum into a zeroed word makes the buffer verify. */
  lemma StampedVerifies(b: seq<byte>, i: nat)
    requires 2 * i + 1 < |b| && WordAt(b, i) == 0
    ensures IsWord(Checksum(b)) && Verifies(WithWord(b, i, Checksum(b)))
  {
    ChecksumIsNorm(b);
    ComplementCancels(Total(b));
    WithWordTotal(b, i, Checksum(b));
    ChecksumIsNorm(WithWord(b, i, Checksum(b)));
  }

  predicate AllZero(b: seq<byte>) {
    forall i :: 0 <= i < |b| ==> b[i] == 0
  }

  /** Replacing a word in a sum that is 0 modulo 65535. */
  lemma ReplacedWord(s: int, v: int, w: int)
    requires s % 0xffff == 0 && IsWord(v) && IsWord(w)
    ensures (s - v + w) % 0xffff == 0 <==> w == v || (w == 0 && v == 0xffff) || (w == 0xffff && v == 0)
  {
    ModAdd(s, 0, w - v);
  }

  /** A change of one word of a verifying buffer goes unnoticed exactly if it changes
      nothing, or swaps 0x0000 and 0xffff without leaving the buffer all zero. */
  lemma SingleWordChangeDetectedIff(b: seq<byte>, i: nat, w: int)
    requires 2 * i + 1 < |b| && IsWord(w) && Verifies(b)
    ensures Verifies(WithWord(b, i, w)) <==>
              w == WordAt(b, i) ||
              (w == 0 && WordAt(b, i) == 0xffff && !AllZero(WithWord(b, i, w))) ||
              (w == 0xffff && WordAt(b, i) == 0)
  {
    var r := WithWord(b, i, w);
    ChecksumIsNorm(b);
    ChecksumIsNorm(r);
    WithWordTotal(b, i, w);
    ReplacedWord(Total(b), WordAt(b, i), w);
    ZeroTotal(r);
  }

  lemma ZeroTotal(b: seq<byte>)
    ensures Total(b) == 0 <==> AllZero(b)
  {
    var ws := Words(b);
    SumNonNegative(ws, |ws|);
    if AllZero(b) {
      forall i | 0 <= i < |ws|
        ensures ws[i] == 0
      {
        assert ws[i] == WordAt(b, i);
      }
    } else {
      var k :| 0 <= k < |b| && b[k] != 0;
      NonZeroWord(b, k);
    }
  }

  lemma NonZeroWord(b: seq<byte>, k: nat)
    requires k < |b| && b[k] != 0
    ensures k / 2 < |Words(b)| && Words(b)[k / 2] != 0
  {
    assert Words(b)[k / 2] == WordAt(b, k / 2);
    assert k == 2 * (k / 2) || k == 2 * (k / 2) + 1;
  }

  // ----- Order and byte order

  lemma {:induction false} SumPicks(ws: seq<int>, j: nat, n: nat)
    requires j <= n < |ws|
    ensures Sum(ws, n + 1) == Sum(Permutations.Without(ws, j), n) + ws[j]
  {
    if n == j {
      SumPrefix(ws, Permutations.Without(ws, j), j);
    } else {
      SumPicks(ws, j, n - 1);
    }
  }

  lemma {:induction false} SumPermutes(ws: seq<int>, vs: seq<int>)
    requires multiset(ws) == multiset(vs)
    ensures |ws| == |vs| && Sum(ws, |ws|) == Sum(vs, |vs|)
    decreases |ws|
  {
    Permutations.SameLength(ws, vs);
    if |ws| > 0 {
      var m := |ws| - 1;
      var j := Permutations.Partner(ws, vs);
      SumPermutes(Permutations.Without(ws, m), Permutations.Without(vs, j));
      SumPicks(ws, m, m);
      SumPicks(vs, j, m);
    }
  }

  /** The order of the words does not matter (RFC 1071, section 2 (A)). */
  lemma ChecksumPermutes(b: seq<byte>, c: seq<byte>)
    requires multiset(Words(b)) == multiset(Words(c))
    ensures Checksum(b) == Checksum(c)
  {
    SumPermutes(Words(b), Words(c));
    ChecksumIsNorm(b);
    ChecksumIsNorm(c);
  }

  function Swap(w: int): int
    requires IsWord(w)
  {
    256 * (w % 256) + w / 256
  }

  /** Every pair of bytes exchanged. */
  function Swapped(b: seq<byte>): (r: seq<byte>)
    requires |b| % 2 == 0
    ensures |r| == |b|
    ensures forall i :: 0 <= i < |b| / 2 ==> r[2 * i] == b[2 * i + 1] && r[2 * i + 1] == b[2 * i]
  {
    seq(|b|, i requires 0 <= i < |b| => if i % 2 == 0 then b[i + 1] else b[i - 1])
  }

  lemma SwapMeans(w: int)
    requires IsWord(w)
    ensures IsWord(Swap(w)) && Swap(w) % 0xffff == (256 * w) % 0xffff && (Swap(w) == 0 <==> w == 0)
  {
    var h, l := w / 256, w % 256;
    assert w == 256 * h + l && 0 <= h < 256 && 0 <= l < 256;
    assert 256 * w == Swap(w) + 0xffff * h;
    ModShift(Swap(w), h);
  }

  lemma SwapComplement(w: int)
    requires IsWord(w)
    ensures Swap(0xffff - w) == 0xffff - Swap(w)
  {
    var h, l := w / 256, w % 256;
    assert w == 256 * h + l && 0 <= h < 256 && 0 <= l < 256;
    assert 0xffff - w == 256 * (255 - h) + (255 - l);
  }

  lemma SwapAdds(a: int, b: int)
    requires IsWord(a) && IsWord(b)
    ensures IsWord(OnesAdd(a, b)) && OnesAdd(Swap(a), Swap(b)) == Swap(OnesAdd(a, b))
  {
    var s := OnesAdd(a, b);
    OnesAddMeans(a, b);
    SwapMeans(a);
    SwapMeans(b);
    SwapMeans(s);
    OnesAddMeans(Swap(a), Swap(b));
    ModAdd(Swap(a), 256 * a, Swap(b));
    ModAdd(Swap(b), 256 * b, 256 * a);
    ModShift(256 * s, if a + b > 0xffff then 256 else 0);
    SameWord(OnesAdd(Swap(a), Swap(b)), Swap(s));
  }

  lemma {:induction false} OnesSumSwaps(ws: seq<int>, vs: seq<int>, n: nat)
    requires IsWords(ws) && n <= |ws| == |vs| && forall i :: 0 <= i < |ws| ==> vs[i] == Swap(ws[i])
    ensures IsWord(OnesSum(ws, n)) && OnesSum(vs, n) == Swap(OnesSum(ws, n))
  {
    if n > 0 {
      OnesSumSwaps(ws, vs, n - 1);
      SwapAdds(OnesSum(ws, n - 1), ws[n - 1]);
    }
  }

  lemma SwappedWord(b: seq<byte>, i: nat)
    requires |b| % 2 == 0 && 2 * i < |b|
    ensures IsWord(WordAt(b, i)) && WordAt(Swapped(b), i) == Swap(WordAt(b, i))
  {
    var high: int, low: int := b[2 * i], b[2 * i + 1];
    assert WordAt(b, i) == 256 * high + low;
    assert (256 * high + low) / 256 == high && (256 * high + low) % 256 == low;
  }

  /** Swapping the bytes of every word swaps those of the checksum (section 2 (B)). */
  lemma ChecksumSwaps(b: seq<byte>)
    requires |b| % 2 == 0
    ensures IsWord(Checksum(b)) && Checksum(Swapped(b)) == Swap(Checksum(b))
  {
    var c := Swapped(b);
    var ws, vs := Words(b), Words(c);
    forall i | 0 <= i < |ws|
      ensures vs[i] == Swap(ws[i])
    {
      SwappedWord(b, i);
    }
    OnesSumSwaps(ws, vs, |ws|);
    SwapComplement(OnesSum(ws, |ws|));
  }

  // ----- Building requests

  /** Word `i` as the reader of a packet sees it. */
  predicate HasWord(b: seq<byte>, i: nat, w: int) {
    2 * i + 1 < |b| && WordAt(b, i) == w
  }

  function Distance(a: int, b: int): int {
    if a < b then b - a else a - b
  }

  function Clamp(payloadLen: int): int {
    if payloadLen < 16 then 16 else if payloadLen > 1400 then 1400 else payloadLen
  }

  method PutUint16(b: array<byte>, at: nat, w: int)
    requires at + 1 < b.Length && at % 2 == 0 && IsWord(w)
    modifies b
    ensures b[..] == WithWord(old(b[..]), at / 2, w)
  {
    b[at], b[at + 1] := w / 256, w % 256;
  }

  /** The request before its checksum is written. */
  function Unstamped(id: int, seqNo: int, payloadLen: int): (b: seq<byte>)
    requires IsWord(id) && IsWord(seqNo)
    ensures |b| == 8 + Clamp(payloadLen) && b[0] == 8 && b[1] == 0
    ensures HasWord(b, 1, 0) && HasWord(b, 2, id) && HasWord(b, 3, seqNo)
    ensures forall i :: 8 <= i < |b| ==> b[i] == 0
  {
    [8, 0, 0, 0, id / 256, id % 256, seqNo / 256, seqNo % 256] + seq(Clamp(payloadLen), i => 0)
  }

  method ComposeEcho(id: int, seqNo: int, payloadLen: int) returns (buf: array<byte>)
    requires IsWord(id) && IsWord(seqNo)
    ensures fresh(buf) && buf[..] == Unstamped(id, seqNo, payloadLen)
  {
    buf := new byte[8 + Clamp(payloadLen)](_ => 0);
    buf[0] := 8;
    buf[1] := 0;
    PutUint16(buf, 4, id);
    PutUint16(buf, 6, seqNo);
  }

  /** A request packet for (id, seqNo): type 8, code 0, zero payload, valid checksum. */
  predicate IsEchoRequest(b: seq<byte>, id: int, seqNo: int, payload: int) {
    |b| == 8 + payload && payload >= 0 && b[0] == 8 && b[1] == 0 &&
    NetworkOrder(b[4], b[5]) == id && NetworkOrder(b[6], b[7]) == seqNo &&
    (forall i :: 8 <= i < |b| ==> b[i] == 0) && Verifies(b)
  }

  lemma StampedIsRequest(id: int, seqNo: int, payloadLen: int)
    requires IsWord(id) && IsWord(seqNo)
    ensures var b := Unstamped(id, seqNo, payloadLen);
            IsWord(Checksum(b)) && IsEchoRequest(WithWord(b, 1, Checksum(b)), id, seqNo, Clamp(payloadLen))
  {
    var b := Unstamped(id, seqNo, payloadLen);
    StampedVerifies(b, 1);
    var r := WithWord(b, 1, Checksum(b));
    assert WordAt(r, 2) == WordAt(b, 2) && WordAt(r, 3) == WordAt(b, 3);
  }

  /** For every id, sequence number and payload length the packet re-checksums to zero. */
  method BuildIcmpEcho(id: int, seqNo: int, payloadLen: int) returns (buf: array<byte>)
    requires IsWord(id) && IsWord(seqNo)
    ensures fresh(buf) && IsEchoRequest(buf[..], id, seqNo, buf.Length - 8)
    ensures 16 <= buf.Length - 8 <= 1400
    ensures forall n :: 16 <= n <= 1400 ==> Distance(payloadLen, buf.Length - 8) <= Distance(payloadLen, n)
  {
    buf := ComposeEcho(id, seqNo, payloadLen);
    var cs := IcmpChecksum(buf);
    StampedIsRequest(id, seqNo, payloadLen);
    PutUint16(buf, 2, cs);
  }

  // ----- Matching replies

  /** Strip a prepended IPv4 header (version 4, protocol 1), by its header length. */
  function ExtractPayload(buf: seq<byte>): seq<byte> {
    var n := |buf|;
    if n >= 28 && buf[0] / 16 == 4 && buf[9] == 1 then
      var ihl := (buf[0] % 16) * 4;
      if n >= ihl + 8 then buf[ihl..] else buf
    else buf
  }

  /** Type 0, and identifier and sequence number in network order. */
  predicate IsReplyTo(pkt: seq<byte>, id: int, seqNo: int) {
    |pkt| >= 8 && pkt[0] == 0 && NetworkOrder(pkt[4], pkt[5]) == id && NetworkOrder(pkt[6], pkt[7]) == seqNo
  }

  /** Read packets until one matches; None stands for the read error that ends the wait. */
  method ReadOneEcho(arriving: seq<seq<byte>>, id: int, seqNo: int) returns (matched: int)
    requires IsWord(id) && IsWord(seqNo)
    ensures -1 <= matched < |arriving|
    ensures matched >= 0 ==> IsReplyTo(ExtractPayload(arriving[matched]), id, seqNo)
    ensures forall i :: 0 <= i < (if matched < 0 then |arriving| else matched) ==> !IsReplyTo(ExtractPayload(arriving[i]), id, seqNo)
  {
    for i := 0 to |arriving|
      invariant forall k :: 0 <= k < i ==> !IsReplyTo(ExtractPayload(arriving[k]), id, seqNo)
    {
      var pkt := ExtractPayload(arriving[i]);
      if |pkt| < 8 {
        continue;
      }
      if pkt[0] != 0 {
        continue;
      }
      if WordAt(pkt, 2) != id {
        continue;
      }
      if WordAt(pkt, 3) != seqNo {
        continue;
      }
      return i;
    }
    matched := -1;
  }

  /** An IPv4 header of `ihl` 32-bit words (five or more) announcing ICMP. */
  predicate IsIpv4Header(h: seq<byte>, ihl: int) {
    5 <= ihl < 16 && |h| == 4 * ihl && h[0] == 64 + ihl && h[9] == 1
  }

  /** An echo reply is matched by exactly the waiter for its id and sequence number,
      whether it arrives bare or inside an IPv4 frame with any header length. */
  lemma ReplyMatchesIff(pkt: seq<byte>, header: seq<byte>, ihl: int, id: int, seqNo: int)
    requires |pkt| >= 8 && pkt[0] == 0 && IsIpv4Header(header, ihl)
    ensures IsReplyTo(ExtractPayload(pkt), id, seqNo) <==> NetworkOrder(pkt[4], pkt[5]) == id && NetworkOrder(pkt[6], pkt[7]) == seqNo
    ensures IsReplyTo(ExtractPayload(header + pkt), id, seqNo) <==> NetworkOrder(pkt[4], pkt[5]) == id && NetworkOrder(pkt[6], pkt[7]) == seqNo
  {
    var frame := header + pkt;
    assert frame[0] == header[0] && frame[9] == header[9];
    assert frame[4 * ihl..] == pkt;
  }

  /** The agent's own request, looped back bare or framed, never counts as a reply. */
  lemma RequestIsNoReply(req: seq<byte>, header: seq<byte>, ihl: int, id: int, seqNo: int)
    requires |req| >= 8 && req[0] == 8 && IsIpv4Header(header, ihl)
    ensures !IsReplyTo(ExtractPayload(req), id, seqNo) && !IsReplyTo(ExtractPayload(header + req), id, seqNo)
  {
    var frame := header + req;
    assert frame[0] == header[0] && frame[9] == header[9];
    assert frame[4 * ihl..] == req;
  }
}
