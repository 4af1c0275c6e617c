/**
 * Decimal text of integers as `QByteArray::number` writes it and as
 * `QByteArray::toLongLong` (base 10) reads it.
 */
module Numbers {
  import opened Bytes

  const MinInt64: int := -0x8000_0000_0000_0000
  const MaxInt64: int := 0x7FFF_FFFF_FFFF_FFFF

  predicate AllDigits(s: Bytes)
  {
    forall i :: 0 <= i < |s| ==> IsDigit(s[i])
  }

  /** Decimal digits of `n`, without leading zeros. */
  function Digits(n: nat): (r: Bytes)
    ensures |r| >= 1 && AllDigits(r)
    ensures n > 0 ==> r[0] != 48
  {
    if n < 10 then [(48 + n) as byte] else Digits(n / 10) + [(48 + n % 10) as byte]
  }

  /** `QByteArray::number(n)`. */
  function Decimal(n: int): (r: Bytes)
    ensures |r| >= 1
    ensures r[0] == 45 <==> n < 0
  {
    if n < 0 then [45] + Digits(-n) else Digits(n)
  }

  /** The value of a run of decimal digits. */
  function DigitsValue(s: Bytes): nat
    requires AllDigits(s)
  {
    if s == [] then 0 else DigitsValue(s[..|s| - 1]) * 10 + (s[|s| - 1] - 48) as nat
  }

  /** An optional sign followed by at least one digit, within the 64-bit range. */
  function ParseSigned(t: Bytes): Option<int>
  {
    if t == [] then None
    else
      var body := if t[0] == 45 || t[0] == 43 then t[1..] else t;
      if body == [] || !AllDigits(body) then None
      else
        var v: int := if t[0] == 45 then -(DigitsValue(body) as int) else DigitsValue(body);
        if MinInt64 <= v <= MaxInt64 then Some(v) else None
  }

  /**
   * `QByteArray::toLongLong(&ok)`: surrounding whitespace, an optional sign and
   * at least one digit; values outside the 64-bit range are refused.
   */
  function ParseInt(data: Bytes): Option<int>
  {
    ParseSigned(Trimmed(data))
  }

  lemma {:induction false} DigitsRoundTrip(n: nat)
    ensures DigitsValue(Digits(n)) == n
  {
    if n >= 10 {
      var d := Digits(n);
      assert d[..|d| - 1] == Digits(n / 10);
      DigitsRoundTrip(n / 10);
    }
  }

  lemma TrimmedNoSpace(s: Bytes)
    requires forall i :: 0 <= i < |s| ==> !IsSpace(s[i])
    ensures Trimmed(s) == s
  {
  }

  lemma DecimalHasNoSpace(n: int)
    ensures forall i :: 0 <= i < |Decimal(n)| ==> !IsSpace(Decimal(n)[i])
  {
    if n < 0 {
      var ds := Digits(-n);
      assert forall i :: 0 <= i < |ds| ==> IsDigit(ds[i]);
    }
  }

  lemma ParseSignedDecimal(n: int)
    requires MinInt64 <= n <= MaxInt64
    ensures ParseSigned(Decimal(n)) == Some(n)
  {
    if n < 0 {
      var d := Decimal(n);
      assert d[1..] == Digits(-n);
      DigitsRoundTrip(-n);
    } else {
      DigitsRoundTrip(n);
    }
  }

  /** Reading back what `QByteArray::number` wrote gives the same 64-bit value. */
  lemma DecimalRoundTrip(n: int)
    requires MinInt64 <= n <= MaxInt64
    ensures ParseInt(Decimal(n)) == Some(n)
  {
    DecimalHasNoSpace(n);
    TrimmedNoSpace(Decimal(n));
    ParseSignedDecimal(n);
  }

  /** A parsed value is a 64-bit integer and the text held at least one digit. */
  lemma ParseIntBounds(data: Bytes)
    ensures ParseInt(data).Some? ==> MinInt64 <= ParseInt(data).value <= MaxInt64
    ensures ParseInt(data).Some? ==> exists i :: 0 <= i < |data| && IsDigit(data[i])
  {
    var t := Trimmed(data);
    if ParseInt(data).Some? {
      var a := SkipSpaces(data, 0);
      var k := a + (if t[0] == 45 || t[0] == 43 then 1 else 0);
      assert data[k] == t[k - a];
    }
  }
}
