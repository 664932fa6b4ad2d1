/** The standard alphabet of section 4 of RFC 4648 without padding (section 3.2):
    Go's `base64.RawStdEncoding`. */
module Base64 {
  import opened ByteStrings

  const CR: Byte := 13
  const LF: Byte := 10

  function Symbol(v: int): (c: Byte)
    requires 0 <= v < 64
  {
    if v < 26 then 65 + v
    else if v < 52 then 71 + v
    else if v < 62 then v - 4
    else if v == 62 then 43 else 47
  }

  function SymbolValue(c: Byte): (v: Option<int>)
    ensures v.Some? ==> 0 <= v.value < 64 && Symbol(v.value) == c
  {
    if 65 <= c <= 90 then Some(c - 65)
    else if 97 <= c <= 122 then Some(c - 71)
    else if 48 <= c <= 57 then Some(c + 4)
    else if c == 43 then Some(62)
    else if c == 47 then Some(63)
    else None
  }

  function Encode(s: Bytes): Bytes {
    if |s| == 0 then []
    else if |s| == 1 then [Symbol(s[0] / 4), Symbol(s[0] % 4 * 16)]
    else if |s| == 2 then [Symbol(s[0] / 4), Symbol(s[0] % 4 * 16 + s[1] / 16), Symbol(s[1] % 16 * 4)]
    else Quad(s[0], s[1], s[2]) + Encode(s[3..])
  }

  function Quad(a: Byte, b: Byte, c: Byte): Bytes {
    [Symbol(a / 4), Symbol(a % 4 * 16 + b / 16), Symbol(b % 16 * 4 + c / 64), Symbol(c % 64)]
  }

  /** The decoder ignores line breaks. */
  function WithoutNewlines(t: Bytes): Bytes {
    if t == [] then []
    else if t[0] == CR || t[0] == LF then WithoutNewlines(t[1..])
    else [t[0]] + WithoutNewlines(t[1..])
  }

  predicate AllSymbols(t: Bytes) {
    forall k :: 0 <= k < |t| ==> SymbolValue(t[k]).Some?
  }

  /** Decoding, or None for a byte outside the alphabet or a dangling single symbol. */
  function Decode(t: Bytes): Option<Bytes> {
    var u := WithoutNewlines(t);
    if AllSymbols(u) && |u| % 4 != 1 then Some(DecodeSymbols(u)) else None
  }

  function Value(c: Byte): int
    requires SymbolValue(c).Some?
  {
    SymbolValue(c).value
  }

  function DecodeSymbols(u: Bytes): Bytes
    requires AllSymbols(u) && |u| % 4 != 1
  {
    if |u| == 0 then []
    else if |u| == 2 then [Value(u[0]) * 4 + Value(u[1]) / 16]
    else if |u| == 3 then
      [Value(u[0]) * 4 + Value(u[1]) / 16, Value(u[1]) % 16 * 16 + Value(u[2]) / 4]
    else
      Triple(Value(u[0]), Value(u[1]), Value(u[2]), Value(u[3])) + DecodeSymbols(u[4..])
  }

  function Triple(a: int, b: int, c: int, d: int): Bytes
    requires 0 <= a < 64 && 0 <= b < 64 && 0 <= c < 64 && 0 <= d < 64
  {
    [a * 4 + b / 16, b % 16 * 16 + c / 4, c % 4 * 64 + d]
  }

  lemma SymbolRoundTrip(v: int)
    requires 0 <= v < 64
    ensures SymbolValue(Symbol(v)) == Some(v)
  {
  }

  /** Three bytes as four groups of six bits, and back. */
  lemma Regroup(a: Byte, b: Byte, c: Byte)
    ensures Triple(a / 4, a % 4 * 16 + b / 16, b % 16 * 4 + c / 64, c % 64) == [a, b, c]
  {
  }

  lemma QuadRoundTrip(a: Byte, b: Byte, c: Byte)
    ensures AllSymbols(Quad(a, b, c))
    ensures var q := Quad(a, b, c);
            Triple(Value(q[0]), Value(q[1]), Value(q[2]), Value(q[3])) == [a, b, c]
  {
    SymbolsRoundTrip(a / 4, a % 4 * 16 + b / 16, b % 16 * 4 + c / 64, c % 64);
    Regroup(a, b, c);
  }

  lemma SymbolsRoundTrip(u: int, v: int, x: int, y: int)
    requires 0 <= u < 64 && 0 <= v < 64 && 0 <= x < 64 && 0 <= y < 64
    ensures var q := [Symbol(u), Symbol(v), Symbol(x), Symbol(y)];
            AllSymbols(q) && Value(q[0]) == u && Value(q[1]) == v && Value(q[2]) == x && Value(q[3]) == y
  {
    SymbolRoundTrip(u);
    SymbolRoundTrip(v);
    SymbolRoundTrip(x);
    SymbolRoundTrip(y);
  }

  lemma ShortRoundTrip(a: Byte, b: Byte)
    ensures AllSymbols(Encode([a])) && DecodeSymbols(Encode([a])) == [a]
    ensures AllSymbols(Encode([a, b])) && DecodeSymbols(Encode([a, b])) == [a, b]
  {
    SymbolsRoundTrip(a / 4, a % 4 * 16, a % 4 * 16 + b / 16, b % 16 * 4);
  }

  lemma DecodeQuad(q: Bytes, u: Bytes)
    requires |q| == 4 && AllSymbols(q) && AllSymbols(u) && |u| % 4 != 1
    ensures AllSymbols(q + u) && |q + u| % 4 != 1
    ensures DecodeSymbols(q + u)
         == Triple(Value(q[0]), Value(q[1]), Value(q[2]), Value(q[3])) + DecodeSymbols(u)
  {
    assert (q + u)[4..] == u;
  }

  lemma {:induction false} EncodeSymbols(s: Bytes)
    ensures AllSymbols(Encode(s)) && |Encode(s)| % 4 != 1
    ensures DecodeSymbols(Encode(s)) == s
  {
    if |s| >= 3 {
      EncodeSymbols(s[3..]);
      QuadRoundTrip(s[0], s[1], s[2]);
      DecodeQuad(Quad(s[0], s[1], s[2]), Encode(s[3..]));
      assert s == [s[0], s[1], s[2]] + s[3..];
    } else if |s| == 2 {
      ShortRoundTrip(s[0], s[1]);
      assert s == [s[0], s[1]];
    } else if |s| == 1 {
      ShortRoundTrip(s[0], 0);
      assert s == [s[0]];
    }
  }

  lemma {:induction false} SymbolsHaveNoNewlines(t: Bytes)
    requires AllSymbols(t)
    ensures WithoutNewlines(t) == t
  {
    if t != [] {
      SymbolsHaveNoNewlines(t[1..]);
    }
  }

  /** Any byte string at all survives encoding and decoding. */
  lemma RoundTrip(s: Bytes)
    ensures Decode(Encode(s)) == Some(s)
  {
    EncodeSymbols(s);
    SymbolsHaveNoNewlines(Encode(s));
  }

  /** No encoding contains the byte that separates range key components. */
  lemma EncodeIsNulFree(s: Bytes)
    ensures Free(Encode(s), NUL)
  {
    EncodeSymbols(s);
  }
}
