/**
 * Byte strings as the server handles them (`QByteArray`), with the handful of
 * Qt helpers the protocol code relies on: indexed access with the terminating
 * '\0' visible past the end, searching, prefix tests, ASCII case mapping,
 * whitespace trimming, Latin-1 conversion and big-endian integers.
 */
module Bytes {

  newtype byte = b: int | 0 <= b < 256

  type Bytes = seq<byte>

  datatype Option<T> = None | Some(value: T)

  /** `QByteArray::at(i)`: reading index `size()` yields the '\0' terminator. */
  function At(data: Bytes, i: int): byte
  {
    if 0 <= i < |data| then data[i] else 0
  }

  /** `QString::toLatin1`: characters beyond Latin-1 become '?'. */
  function Latin1(s: string): (r: Bytes)
    ensures |r| == |s|
    ensures forall i :: 0 <= i < |s| && (s[i] as int) < 256 ==> r[i] as int == s[i] as int
  {
    seq(|s|, i requires 0 <= i < |s| => if (s[i] as int) < 256 then s[i] as int as byte else 63)
  }

  /** `QString::fromLatin1`: every byte is the code point of the same value. */
  function FromLatin1(data: Bytes): (r: string)
    ensures |r| == |data|
    ensures forall i :: 0 <= i < |data| ==> r[i] as int == data[i] as int
  {
    seq(|data|, i requires 0 <= i < |data| => data[i] as int as char)
  }

  lemma Latin1RoundTrip(data: Bytes)
    ensures Latin1(FromLatin1(data)) == data
  {
  }

  /** `QByteArray::indexOf(char, from)` for a non-negative start. */
  function IndexOf(data: Bytes, b: byte, from: nat): (r: int)
    decreases |data| - from
    ensures r == -1 || (from <= r < |data| && data[r] == b)
  {
    if from >= |data| then -1
    else if data[from] == b then from
    else IndexOf(data, b, from + 1)
  }

  /** The first occurrence, identified by its position. */
  lemma IndexOfIs(data: Bytes, b: byte, from: nat, r: int)
    requires from <= r <= |data|
    requires r < |data| ==> data[r] == b
    requires forall j :: from <= j < r ==> data[j] != b
    ensures IndexOf(data, b, from) == if r == |data| then -1 else r
    decreases r - from
  {
    if from < r {
      IndexOfIs(data, b, from + 1, r);
    }
  }

  /** A byte absent from `prefix` is found where `tail` starts with it, or not at all. */
  lemma FindsByte(data: Bytes, b: byte, pre: Bytes, prefix: Bytes, tail: Bytes, start: nat, end: nat)
    requires data == pre + prefix + tail && b !in prefix
    requires tail == [] || tail[0] == b
    requires start == |pre| && end == start + |prefix|
    ensures end <= |data| && IndexOf(data, b, start) == if tail == [] then -1 else end
    ensures data[start..end] == prefix
  {
    forall j | start <= j < end ensures data[j] != b {
      assert data[j] == prefix[j - start];
    }
    if tail != [] {
      assert data[end] == tail[0];
    }
    IndexOfIs(data, b, start, end);
  }

  /** No occurrence of `b` is skipped: every byte before the result differs from it. */
  lemma {:induction false} IndexOfFirst(data: Bytes, b: byte, from: nat)
    ensures var r := IndexOf(data, b, from);
      forall j :: from <= j < (if r == -1 then |data| else r) ==> data[j] != b
    decreases |data| - from
  {
    if from < |data| && data[from] != b {
      IndexOfFirst(data, b, from + 1);
    }
  }

  predicate OccursAt(data: Bytes, pat: Bytes, i: int)
  {
    0 <= i && i + |pat| <= |data| && data[i..i + |pat|] == pat
  }

  /** `QByteArray::indexOf(QByteArray, from)` for a non-negative start. */
  function Find(data: Bytes, pat: Bytes, from: nat): (r: int)
    decreases |data| - from
    ensures r == -1 || (from <= r && OccursAt(data, pat, r))
    ensures r == -1 ==> forall j :: from <= j ==> !OccursAt(data, pat, j)
    ensures r != -1 ==> forall j :: from <= j < r ==> !OccursAt(data, pat, j)
  {
    if from + |pat| > |data| then -1
    else if data[from..from + |pat|] == pat then from
    else Find(data, pat, from + 1)
  }

  /** Where a pattern is first found, it is still first found once more bytes follow. */
  lemma FindExtended(data: Bytes, more: Bytes, pat: Bytes)
    requires Find(data, pat, 0) != -1
    ensures Find(data + more, pat, 0) == Find(data, pat, 0)
  {
    var r := Find(data, pat, 0);
    var e := data + more;
    assert e[r..r + |pat|] == data[r..r + |pat|];
    assert OccursAt(e, pat, r);
    forall j | 0 <= j < r ensures !OccursAt(e, pat, j) {
      assert !OccursAt(data, pat, j);
      if j + |pat| <= |e| {
        assert e[j..j + |pat|] == data[j..j + |pat|];
      }
    }
  }

  predicate StartsWith(data: Bytes, prefix: Bytes)
  {
    |prefix| <= |data| && data[..|prefix|] == prefix
  }

  predicate EndsWith(data: Bytes, suffix: Bytes)
  {
    |suffix| <= |data| && data[|data| - |suffix|..] == suffix
  }

  predicate Contains(data: Bytes, pat: Bytes)
  {
    Find(data, pat, 0) != -1
  }

  predicate IsDigit(b: byte) { 48 <= b <= 57 }
  predicate IsUpper(b: byte) { 65 <= b <= 90 }
  predicate IsLower(b: byte) { 97 <= b <= 122 }

  function ToUpperByte(b: byte): byte { if IsLower(b) then b - 32 else b }
  function ToLowerByte(b: byte): byte { if IsUpper(b) then b + 32 else b }

  /** `QByteArray::toLower` on the ASCII letters. */
  function ToLower(data: Bytes): (r: Bytes)
    ensures |r| == |data|
    ensures forall i :: 0 <= i < |data| ==> r[i] == ToLowerByte(data[i])
  {
    seq(|data|, i requires 0 <= i < |data| => ToLowerByte(data[i]))
  }

  /** The bytes `QByteArray::trimmed` removes: '\t', '\n', '\v', '\f', '\r' and ' '. */
  predicate IsSpace(b: byte) { 9 <= b <= 13 || b == 32 }

  /** The first position from `i` on that does not hold whitespace, or the end. */
  function SkipSpaces(data: Bytes, i: nat): (r: nat)
    requires i <= |data|
    decreases |data| - i
    ensures i <= r <= |data|
    ensures forall j :: i <= j < r ==> IsSpace(data[j])
    ensures r < |data| ==> !IsSpace(data[r])
  {
    if i < |data| && IsSpace(data[i]) then SkipSpaces(data, i + 1) else i
  }

  /** The end of `data[lo..hi]` once trailing whitespace is dropped. */
  function EndOfText(data: Bytes, lo: nat, hi: nat): (r: nat)
    requires lo <= hi <= |data|
    ensures lo <= r <= hi
    ensures forall j :: r <= j < hi ==> IsSpace(data[j])
    ensures r > lo ==> !IsSpace(data[r - 1])
  {
    if hi > lo && IsSpace(data[hi - 1]) then EndOfText(data, lo, hi - 1) else hi
  }

  /** No whitespace at either end. */
  predicate IsTrimmed(data: Bytes)
  {
    data == [] || (!IsSpace(data[0]) && !IsSpace(data[|data| - 1]))
  }

  /** `QByteArray::trimmed`. */
  function Trimmed(data: Bytes): (r: Bytes)
    ensures IsTrimmed(r)
  {
    var start := SkipSpaces(data, 0);
    data[start..EndOfText(data, start, |data|)]
  }

  /** Trimming leaves data without surrounding whitespace as it is. */
  lemma TrimmedUnchanged(data: Bytes)
    requires IsTrimmed(data)
    ensures Trimmed(data) == data
  {
  }

  /** Unsigned lexicographic order of `QByteArray`; a proper prefix sorts first. */
  predicate Less(a: Bytes, b: Bytes)
  {
    if |a| == 0 then |b| > 0
    else if |b| == 0 then false
    else a[0] < b[0] || (a[0] == b[0] && Less(a[1..], b[1..]))
  }

  lemma {:induction false} LessIrreflexive(a: Bytes)
    ensures !Less(a, a)
  {
    if |a| > 0 { LessIrreflexive(a[1..]); }
  }

  lemma {:induction false} LessTotal(a: Bytes, b: Bytes)
    ensures Less(a, b) || a == b || Less(b, a)
  {
    if |a| > 0 && |b| > 0 && a[0] == b[0] {
      LessTotal(a[1..], b[1..]);
      if a[1..] == b[1..] {
        assert a == [a[0]] + a[1..] && b == [b[0]] + b[1..];
      }
    }
  }

  lemma {:induction false} LessAsymmetric(a: Bytes, b: Bytes)
    requires Less(a, b)
    ensures !Less(b, a) && a != b
  {
    if |a| > 0 && |b| > 0 && a[0] == b[0] {
      LessAsymmetric(a[1..], b[1..]);
    }
    if a == b { LessIrreflexive(a); }
  }

  lemma {:induction false} LessTransitive(a: Bytes, b: Bytes, c: Bytes)
    requires Less(a, b) && Less(b, c)
    ensures Less(a, c)
  {
    if |a| > 0 && a[0] == b[0] && b[0] == c[0] {
      LessTransitive(a[1..], b[1..], c[1..]);
    }
  }

  function Pow2(n: nat): (r: nat)
    ensures r >= 1
  {
    if n == 0 then 1 else 2 * Pow2(n - 1)
  }

  /** Bitwise exclusive or of the `n` low bits of `x` and `y`. */
  function XorBits(x: nat, y: nat, n: nat): (r: nat)
    ensures r < Pow2(n)
  {
    if n == 0 then 0 else (x % 2 + y % 2) % 2 + 2 * XorBits(x / 2, y / 2, n - 1)
  }

  /** Bitwise or of the `n` low bits of `x` and `y`. */
  function OrBits(x: nat, y: nat, n: nat): (r: nat)
    ensures r < Pow2(n)
  {
    if n == 0 then 0 else (if x % 2 == 1 || y % 2 == 1 then 1 else 0) + 2 * OrBits(x / 2, y / 2, n - 1)
  }

  /** The C operator `^` on two bytes. */
  function Xor(a: byte, b: byte): byte
  {
    assert Pow2(8) == 256;
    XorBits(a as nat, b as nat, 8) as byte
  }

  lemma Halves(b: nat, q: nat)
    requires b < 2
    ensures (b + 2 * q) % 2 == b && (b + 2 * q) / 2 == q
  {
  }

  lemma Split(x: nat)
    ensures x == x % 2 + 2 * (x / 2) && x % 2 < 2
  {
  }

  /** The low bit and the rest of `XorBits`. */
  lemma XorStep(x: nat, k: nat, n: nat)
    requires n > 0
    ensures XorBits(x, k, n) % 2 == (x % 2 + k % 2) % 2
    ensures XorBits(x, k, n) / 2 == XorBits(x / 2, k / 2, n - 1)
  {
    Halves((x % 2 + k % 2) % 2, XorBits(x / 2, k / 2, n - 1));
  }

  lemma BitTwice(a: nat, c: nat)
    requires a < 2 && c < 2
    ensures ((a + c) % 2 + c) % 2 == a
  {
  }

  lemma {:induction false} XorBitsInvolution(x: nat, k: nat, n: nat)
    requires x < Pow2(n)
    ensures XorBits(XorBits(x, k, n), k, n) == x
  {
    if n > 0 {
      var y := XorBits(x, k, n);
      XorStep(x, k, n);
      XorBitsInvolution(x / 2, k / 2, n - 1);
      assert (y % 2 + k % 2) % 2 == x % 2 by {
        BitTwice(x % 2, k % 2);
      }
      assert XorBits(y, k, n) == (y % 2 + k % 2) % 2 + 2 * XorBits(y / 2, k / 2, n - 1);
      Split(x);
    }
  }

  /** Applying the same key twice restores the byte. */
  lemma XorInvolution(a: byte, k: byte)
    ensures Xor(Xor(a, k), k) == a
  {
    assert Pow2(8) == 256;
    XorBitsInvolution(a as nat, k as nat, 8);
  }

  lemma {:induction false} OrZero(x: nat, n: nat)
    requires x < Pow2(n)
    ensures OrBits(x, 0, n) == x
  {
    if n > 0 {
      Split(x);
      OrZero(x / 2, n - 1);
    }
  }

  /** Or-ing bits below the low `m` zero bits of a multiple of 2^m adds them. */
  lemma {:induction false} OrDisjoint(h: nat, l: nat, n: nat, m: nat)
    requires m <= n && l < Pow2(m) && h * Pow2(m) < Pow2(n)
    ensures OrBits(h * Pow2(m), l, n) == h * Pow2(m) + l
  {
    if m == 0 {
      OrZero(h, n);
    } else {
      var p := Pow2(m - 1);
      assert h * Pow2(m) == 2 * (h * p);
      Halves(0, h * p);
      Split(l);
      OrDisjoint(h, l / 2, n - 1, m - 1);
    }
  }

  /** Big-endian value of a byte string. */
  function BigEndian(data: Bytes): (r: nat)
    ensures r < Pow256(|data|)
  {
    if data == [] then 0 else BigEndian(data[..|data| - 1]) * 256 + data[|data| - 1] as nat
  }

  function Pow256(n: nat): (r: nat)
    ensures r >= 1
  {
    if n == 0 then 1 else 256 * Pow256(n - 1)
  }

  /** The powers of 256 the 16-bit and 32-bit fields use. */
  lemma Pow256Short()
    ensures Pow256(1) == 0x100 && Pow256(2) == 0x1_0000 && Pow256(4) == 0x1_0000_0000
  {
    assert Pow256(1) == 0x100;
    assert Pow256(2) == 0x1_0000;
    assert Pow256(3) == 0x100_0000;
  }

  /** The `n` low bytes of `v`, most significant first. */
  function ToBigEndian(v: nat, n: nat): (r: Bytes)
    ensures |r| == n
  {
    if n == 0 then [] else ToBigEndian(v / 256, n - 1) + [(v % 256) as byte]
  }

  lemma DivMod256(v: nat, m: nat)
    requires v < 256 * m
    ensures v / 256 < m && (v / 256) * 256 + v % 256 == v
  {
  }

  lemma BigEndianSnoc(high: Bytes, low: byte)
    ensures BigEndian(high + [low]) == BigEndian(high) * 256 + low as nat
  {
    assert (high + [low])[..|high|] == high;
  }

  lemma {:induction false} BigEndianRoundTrip(v: nat, n: nat)
    requires v < Pow256(n)
    ensures BigEndian(ToBigEndian(v, n)) == v
  {
    if n > 0 {
      DivMod256(v, Pow256(n - 1));
      BigEndianRoundTrip(v / 256, n - 1);
      BigEndianSnoc(ToBigEndian(v / 256, n - 1), (v % 256) as byte);
    }
  }

  lemma {:induction false} ToBigEndianRoundTrip(data: Bytes)
    ensures ToBigEndian(BigEndian(data), |data|) == data
  {
    if data != [] {
      var init := data[..|data| - 1];
      ToBigEndianRoundTrip(init);
      assert data == init + [data[|data| - 1]];
    }
  }

  /** The chunks joined in order. */
  function Flatten(chunks: seq<Bytes>): (r: Bytes)
  {
    if chunks == [] then [] else chunks[0] + Flatten(chunks[1..])
  }

  lemma {:induction false} FlattenSnoc(chunks: seq<Bytes>, c: Bytes)
    ensures Flatten(chunks + [c]) == Flatten(chunks) + c
    decreases |chunks|
  {
    if chunks == [] {
      assert [] + [c] == [c];
      assert Flatten([c]) == c + Flatten([]);
    } else {
      assert (chunks + [c])[1..] == chunks[1..] + [c];
      FlattenSnoc(chunks[1..], c);
      calc {
        Flatten(chunks + [c]);
        chunks[0] + Flatten(chunks[1..] + [c]);
        chunks[0] + (Flatten(chunks[1..]) + c);
        (chunks[0] + Flatten(chunks[1..])) + c;
      }
    }
  }

  /**
   * Regrouping a concatenation. Stating it through a call keeps the solver
   * from proving it by extensionality inside larger proofs.
   */
  lemma AppendAssoc(a: Bytes, b: Bytes, c: Bytes)
    ensures a + (b + c) == (a + b) + c
  {
  }
}
