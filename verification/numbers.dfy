/** Decimal and hexadecimal numerals: `%d` and `%x` on the way out,
    `strconv.ParseUint` and `strconv.ParseInt` on the way in. */
module Numerals {
  import opened ByteStrings

  const MINUS: Byte := 45
  const PLUS: Byte := 43

  const TWO_32: int := 0x1_0000_0000
  const TWO_63: int := 0x8000_0000_0000_0000
  const TWO_64: int := 0x1_0000_0000_0000_0000

  type Base = b: int | 2 <= b <= 16 witness 10

  function DigitChar(v: int): (c: Byte)
    requires 0 <= v < 16
  {
    if v < 10 then 48 + v else 87 + v
  }

  /** The value of a digit in either case, or None for any other byte. */
  function DigitValue(c: Byte): (v: Option<int>)
    ensures v.Some? ==> 0 <= v.value < 16
  {
    if 48 <= c <= 57 then Some(c - 48)
    else if 97 <= c <= 102 then Some(c - 87)
    else if 65 <= c <= 70 then Some(c - 55)
    else None
  }

  predicate IsNumeral(s: Bytes, base: Base) {
    s != [] && forall k :: 0 <= k < |s| ==> DigitValue(s[k]).Some? && DigitValue(s[k]).value < base
  }

  /** `%d` / `%x` of a non-negative number. */
  function Format(n: nat, base: Base): (s: Bytes)
    ensures s != []
    decreases n
  {
    if n < base then [DigitChar(n)] else Format(n / base, base) + [DigitChar(n % base)]
  }

  function NumeralValue(s: Bytes, base: Base): (n: nat)
    requires IsNumeral(s, base)
  {
    var d := DigitValue(s[|s| - 1]).value;
    if |s| == 1 then d else NumeralValue(s[..|s| - 1], base) * base + d
  }

  /** `strconv.ParseUint(s, base, bits)` with `limit == 2^bits`; None is its error. */
  function ParseUint(s: Bytes, base: Base, limit: nat): (r: Option<int>)
    ensures r.Some? ==> 0 <= r.value < limit
  {
    if IsNumeral(s, base) && NumeralValue(s, base) < limit then Some(NumeralValue(s, base)) else None
  }

  /** `%d` / `%x` of a signed number. */
  function FormatSigned(i: int, base: Base): (s: Bytes)
    ensures s != []
  {
    if i < 0 then [MINUS] + Format(-i, base) else Format(i, base)
  }

  /** `strconv.ParseInt(s, base, 64)`. */
  function ParseInt(s: Bytes, base: Base): (r: Option<int>)
    ensures r.Some? ==> -TWO_63 <= r.value < TWO_63
  {
    if s == [] then None
    else if s[0] == MINUS then
      match ParseUint(s[1..], base, TWO_64)
      case Some(n) => if n <= TWO_63 then Some(-n) else None
      case None => None
    else
      match ParseUint(if s[0] == PLUS then s[1..] else s, base, TWO_64)
      case Some(n) => if n < TWO_63 then Some(n) else None
      case None => None
  }

  /** Every byte of a numeral is a lower-case hexadecimal digit. */
  predicate Digits(s: Bytes) {
    forall k :: 0 <= k < |s| ==> 48 <= s[k] <= 57 || 97 <= s[k] <= 102
  }

  lemma {:induction false} FormatDigits(n: nat, base: Base)
    ensures Digits(Format(n, base))
    decreases n
  {
    if n >= base {
      FormatDigits(n / base, base);
    }
  }

  lemma NumeralAppend(s: Bytes, v: int, base: Base)
    requires IsNumeral(s, base) && 0 <= v < base
    ensures IsNumeral(s + [DigitChar(v)], base)
    ensures NumeralValue(s + [DigitChar(v)], base) == NumeralValue(s, base) * base + v
  {
    var t := s + [DigitChar(v)];
    assert DigitValue(DigitChar(v)) == Some(v);
    assert t[..|t| - 1] == s;
  }

  lemma {:induction false} FormatParses(n: nat, base: Base)
    ensures IsNumeral(Format(n, base), base) && NumeralValue(Format(n, base), base) == n
    decreases n
  {
    if n >= base {
      var q, r := FormatSplits(n, base);
      FormatParses(q, base);
      NumeralAppend(Format(q, base), r, base);
    }
  }

  /** The last digit of a numeral, and the number before it. */
  lemma FormatSplits(n: nat, base: Base) returns (q: nat, r: nat)
    requires n >= base
    ensures q < n && r < base && q * base + r == n && Format(n, base) == Format(q, base) + [DigitChar(r)]
  {
    q, r := n / base, n % base;
  }

  /** Printing and parsing an unsigned number round-trips. */
  lemma UintRoundTrip(n: nat, base: Base, limit: nat)
    requires n < limit
    ensures ParseUint(Format(n, base), base, limit) == Some(n)
  {
    FormatParses(n, base);
  }

  /** Printing and parsing a signed 64-bit number round-trips, in both signs. */
  lemma IntRoundTrip(i: int, base: Base)
    requires -TWO_63 <= i < TWO_63
    ensures ParseInt(FormatSigned(i, base), base) == Some(i)
  {
    if i < 0 {
      assert FormatSigned(i, base)[1..] == Format(-i, base);
      UintRoundTrip(-i, base, TWO_64);
    } else {
      FormatDigits(i, base);
      UintRoundTrip(i, base, TWO_64);
    }
  }

  lemma FormatSignedFree(i: int, base: Base, d: Byte)
    requires d != MINUS && !(48 <= d <= 57) && !(97 <= d <= 102)
    ensures Free(FormatSigned(i, base), d)
  {
    FormatDigits(if i < 0 then -i else i, base);
  }

  /** Distinct numbers have distinct numerals. */
  lemma FormatSignedInjective(i: int, j: int, base: Base)
    requires FormatSigned(i, base) == FormatSigned(j, base)
    ensures i == j
  {
    var m, n := if i < 0 then -i else i, if j < 0 then -j else j;
    FormatParses(m, base);
    FormatParses(n, base);
    FormatDigits(m, base);
    FormatDigits(n, base);
    assert i < 0 ==> FormatSigned(i, base)[1..] == Format(m, base) && FormatSigned(i, base)[0] == MINUS;
    assert j < 0 ==> FormatSigned(j, base)[1..] == Format(n, base) && FormatSigned(j, base)[0] == MINUS;
  }
}
