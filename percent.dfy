/**
 * Percent encoding as `QByteArray::toPercentEncoding` writes it and
 * `QByteArray::fromPercentEncoding` reads it (section 2.1 of RFC 3986).
 */
module Percent {
  import opened Bytes

  /**
   * The value Qt takes for one byte after '%': a hexadecimal digit gives its
   * value, any other byte is used as it is.
   */
  function HexValue(b: byte): byte
  {
    if 48 <= b <= 57 then b - 48
    else if 97 <= b <= 102 then b - 87
    else if 65 <= b <= 70 then b - 55
    else b
  }

  /** `(a << 4) | b`, truncated to a byte. */
  function Combine(a: byte, b: byte): byte
  {
    assert Pow2(8) == 256;
    OrBits((HexValue(a) as nat * 16) % 256, HexValue(b) as nat, 8) as byte
  }

  /** `fromPercentEncoding`: a '%' with two more bytes after it decodes them. */
  function PercentDecode(s: Bytes): (r: Bytes)
    ensures |r| <= |s|
  {
    if s == [] then []
    else if s[0] == 37 && |s| > 2 then [Combine(s[1], s[2])] + PercentDecode(s[3..])
    else [s[0]] + PercentDecode(s[1..])
  }

  /** ALPHA, DIGIT, '-', '.', '_' and '~' are never encoded. */
  predicate Unreserved(b: byte)
  {
    IsUpper(b) || IsLower(b) || IsDigit(b) || b == 45 || b == 46 || b == 95 || b == 126
  }

  function HexDigit(n: byte): (r: byte)
    requires n < 16
    ensures HexValue(r) == n
  {
    if n < 10 then 48 + n else 55 + n
  }

  /** `toPercentEncoding` with no extra exclusions: upper-case "%XX" escapes. */
  function PercentEncode(s: Bytes): (r: Bytes)
    ensures |r| >= |s|
  {
    if s == [] then []
    else
      (if Unreserved(s[0]) then [s[0]] else [37, HexDigit(s[0] / 16), HexDigit(s[0] % 16)])
      + PercentEncode(s[1..])
  }

  lemma CombineDigits(b: byte)
    ensures Combine(HexDigit(b / 16), HexDigit(b % 16)) == b
  {
    var hi: nat, lo: nat := (b / 16) as nat, (b % 16) as nat;
    assert hi < 16 && lo < 16 && hi * 16 + lo == b as nat;
    assert HexValue(HexDigit(b / 16)) as nat == hi && HexValue(HexDigit(b % 16)) as nat == lo;
    assert (hi * 16) % 256 == hi * 16;
    assert Pow2(4) == 16 && Pow2(8) == 256;
    OrDisjoint(hi, lo, 8, 4);
  }

  /** Text without '%' decodes to itself. */
  lemma {:induction false} PercentDecodePlain(s: Bytes)
    requires 37 !in s
    ensures PercentDecode(s) == s
  {
    if s != [] {
      assert s[1..] == s[|[s[0]]|..] && forall b :: b in s[1..] ==> b in s;
      PercentDecodePlain(s[1..]);
    }
  }

  /** Decoding undoes encoding for every byte string. */
  lemma {:induction false} PercentRoundTrip(s: Bytes)
    ensures PercentDecode(PercentEncode(s)) == s
  {
    if s != [] {
      var rest := PercentEncode(s[1..]);
      PercentRoundTrip(s[1..]);
      if Unreserved(s[0]) {
        assert PercentEncode(s) == [s[0]] + rest;
        assert ([s[0]] + rest)[1..] == rest;
      } else {
        var e := [37, HexDigit(s[0] / 16), HexDigit(s[0] % 16)] + rest;
        assert PercentEncode(s) == e;
        assert e[3..] == rest;
        CombineDigits(s[0]);
      }
      assert s == [s[0]] + s[1..];
    }
  }

  /** The encoding only ever contains unreserved bytes and '%'. */
  lemma {:induction false} PercentEncodeAlphabet(s: Bytes)
    ensures forall i :: 0 <= i < |PercentEncode(s)| ==>
      Unreserved(PercentEncode(s)[i]) || PercentEncode(s)[i] == 37
  {
    if s != [] {
      PercentEncodeAlphabet(s[1..]);
    }
  }
}
