/** Range keys of the chunk index: the NUL-terminated components that every
    schema version writes, the sortable hexadecimal offsets of v5 and v6, and the
    parser that reads every version back. */
module RangeKeys {
  import opened ByteStrings
  import opened Delimited
  import opened Numerals
  import Base64

  const VERSION_1: Bytes := [49]
  const VERSION_2: Bytes := [50]
  const VERSION_3: Bytes := [51]
  const VERSION_4: Bytes := [52]
  const VERSION_5: Bytes := [53]

  /** What a built range key denotes: every component followed by a NUL. */
  function RangeKey(components: seq<Bytes>): Bytes {
    Join(components + [[]], NUL)
  }

  lemma RangeKeyCons(c: Bytes, rest: seq<Bytes>)
    ensures RangeKey([c] + rest) == c + [NUL] + RangeKey(rest)
  {
    assert ([c] + rest + [[]])[1..] == rest + [[]];
  }

  lemma {:induction false} RangeKeyAppend(front: seq<Bytes>, c: Bytes)
    ensures RangeKey(front + [c]) == RangeKey(front) + c + [NUL]
  {
    if front == [] {
      RangeKeyCons(c, []);
      assert front + [c] == [c] + [];
    } else {
      RangeKeyAppend(front[1..], c);
      assert front + [c] == [front[0]] + (front[1..] + [c]);
      assert front == [front[0]] + front[1..];
      RangeKeyCons(front[0], front[1..] + [c]);
      RangeKeyCons(front[0], front[1..]);
    }
  }

  /** Fewer components make a prefix of the key with more of them. */
  lemma {:induction false} RangeKeyPrefix(front: seq<Bytes>, back: seq<Bytes>)
    ensures RangeKey(front) <= RangeKey(front + back)
    decreases |back|
  {
    if back == [] {
      assert front + back == front;
    } else {
      RangeKeyPrefix(front + [back[0]], back[1..]);
      assert front + [back[0]] + back[1..] == front + back;
      RangeKeyAppend(front, back[0]);
    }
  }

  function KeyLength(ss: seq<Bytes>): nat {
    if ss == [] then 0 else |ss[0]| + 1 + KeyLength(ss[1..])
  }

  lemma {:induction false} KeyLengthAppend(front: seq<Bytes>, c: Bytes)
    ensures KeyLength(front + [c]) == KeyLength(front) + |c| + 1
  {
    if front == [] {
      assert front + [c] == [c];
    } else {
      KeyLengthAppend(front[1..], c);
      assert (front + [c])[1..] == front[1..] + [c];
    }
  }

  lemma {:induction false} KeyLengthPrefix(ss: seq<Bytes>, k: nat)
    requires k <= |ss|
    ensures KeyLength(ss[..k]) <= KeyLength(ss)
    ensures |RangeKey(ss)| == KeyLength(ss)
  {
    if ss != [] {
      KeyLengthPrefix(ss[1..], if k == 0 then 0 else k - 1);
      RangeKeyCons(ss[0], ss[1..]);
      assert ss == [ss[0]] + ss[1..];
      if k > 0 {
        assert ss[..k][1..] == ss[1..][..k - 1];
      }
    }
  }

  /** buildRangeKey: one pass to size a zeroed buffer, one pass to copy the components
      into it; the bytes left alone are the terminating NULs. */
  method BuildRangeKey(ss: seq<Bytes>) returns (output: Bytes)
    ensures output == RangeKey(ss)
  {
    var length := 0;
    for k := 0 to |ss|
      invariant length == KeyLength(ss[..k])
    {
      KeyLengthAppend(ss[..k], ss[k]);
      assert ss[..k + 1] == ss[..k] + [ss[k]];
      length := length + |ss[k]| + 1;
    }
    assert ss[..|ss|] == ss;
    var buffer := new Byte[length](_ => NUL);
    var i := 0;
    for k := 0 to |ss|
      invariant i == KeyLength(ss[..k]) <= length
      invariant buffer[..i] == RangeKey(ss[..k])
      invariant forall x :: i <= x < length ==> buffer[x] == NUL
    {
      var s := ss[k];
      KeyLengthAppend(ss[..k], s);
      RangeKeyAppend(ss[..k], s);
      KeyLengthPrefix(ss, k + 1);
      assert ss[..k + 1] == ss[..k] + [s];
      ghost var before := buffer[..i];
      forall x | 0 <= x < |s| {
        buffer[i + x] := s[x];
      }
      assert buffer[..i] == before;
      assert buffer[..i + |s| + 1] == before + s + [NUL];
      i := i + |s| + 1;
    }
    KeyLengthPrefix(ss, 0);
    output := buffer[..];
  }

  /** The components of a range value: what stands before each NUL. */
  function Components(rangeValue: Bytes): (r: seq<Bytes>) {
    var parts := Split(rangeValue, NUL);
    parts[..|parts| - 1]
  }

  /** Reading back the components of a built key, whatever NUL-free parts went in. */
  lemma ComponentsOfRangeKey(parts: seq<Bytes>)
    requires AllFree(parts, NUL)
    ensures Components(RangeKey(parts)) == parts
  {
    SplitJoin(parts + [[]], NUL);
  }

  /** The scanning loop of parseRangeValue. */
  method ScanComponents(rangeValue: Bytes) returns (components: seq<Bytes>)
    ensures components == Components(rangeValue)
  {
    components := [];
    var i, j := 0, 0;
    ghost var parts := Split(rangeValue, NUL);
    assert rangeValue[0..] == rangeValue;
    while j < |rangeValue|
      invariant 0 <= i <= j <= |rangeValue|
      invariant forall x :: i <= x < j ==> rangeValue[x] != NUL
      invariant parts == components + Split(rangeValue[i..], NUL)
    {
      if rangeValue[j] != NUL {
        j := j + 1;
      } else {
        CutComponent(rangeValue, i, j);
        Regroup(components, rangeValue[i..j], Split(rangeValue[j + 1..], NUL));
        components := components + [rangeValue[i..j]];
        j := j + 1;
        i := j;
      }
    }
    LastComponent(rangeValue, i, components);
  }

  lemma Regroup(front: seq<Bytes>, c: Bytes, rest: seq<Bytes>)
    ensures front + ([c] + rest) == front + [c] + rest
  {
  }

  lemma LastComponent(s: Bytes, i: nat, components: seq<Bytes>)
    requires i <= |s| && forall x :: i <= x < |s| ==> s[x] != NUL
    requires Split(s, NUL) == components + Split(s[i..], NUL)
    ensures components == Components(s)
  {
    SplitFree(s[i..], NUL);
  }

  lemma CutComponent(s: Bytes, i: nat, j: nat)
    requires i <= j < |s| && s[j] == NUL && forall x :: i <= x < j ==> s[x] != NUL
    ensures Split(s[i..], NUL) == [s[i..j]] + Split(s[j + 1..], NUL)
  {
    SplitAtDelimiter(s[i..j], NUL, s[j + 1..]);
    assert s[i..] == s[i..j] + [NUL] + s[j + 1..];
  }

  datatype Parsed =
    | Row(chunkID: Bytes, labelValue: Bytes, metadataInIndex: bool)
    | Invalid

  function DecodedRow(chunkID: Bytes, encoded: Bytes): Parsed {
    match Base64.Decode(encoded)
    case Some(v) => Row(chunkID, v, false)
    case None => Invalid
  }

  /** The meaning of a stored range value and its value column, version by version. */
  function Parse(rangeValue: Bytes, value: Option<Bytes>): Parsed {
    ParseComponents(Components(rangeValue), value)
  }

  function ParseComponents(cs: seq<Bytes>, value: Option<Bytes>): Parsed {
    if |cs| < 3 then Invalid
    else if |cs| == 3 then Row(cs[2], cs[1], true)
    else if cs[3] == VERSION_1 then DecodedRow(cs[2], cs[1])
    else if cs[3] == VERSION_2 then Row(cs[2], [], false)
    else if cs[3] == VERSION_3 then Row(cs[2], [], false)
    else if cs[3] == VERSION_4 then DecodedRow(cs[2], cs[1])
    else if cs[3] == VERSION_5 then Row(cs[2], if value.Some? then value.value else [], false)
    else Invalid
  }

  lemma ParseOfRangeKey(parts: seq<Bytes>, value: Option<Bytes>)
    requires AllFree(parts, NUL)
    ensures Parse(RangeKey(parts), value) == ParseComponents(parts, value)
  {
    ComponentsOfRangeKey(parts);
  }

  /** parseRangeValue. */
  method ParseRangeValue(rangeValue: Bytes, value: Option<Bytes>) returns (r: Parsed)
    ensures r == Parse(rangeValue, value)
  {
    var cs := ScanComponents(rangeValue);
    if |cs| < 3 {
      return Invalid;
    } else if |cs| == 3 {
      return Row(cs[2], cs[1], true);
    } else if cs[3] == VERSION_1 || cs[3] == VERSION_4 {
      return DecodedRow(cs[2], cs[1]);
    } else if cs[3] == VERSION_2 || cs[3] == VERSION_3 {
      return Row(cs[2], [], false);
    } else if cs[3] == VERSION_5 {
      return Row(cs[2], if value.Some? then value.value else [], false);
    } else {
      return Invalid;
    }
  }

  // ---------------------------------------------------------------- offsets

  type Uint32 = t: int | 0 <= t < 0x1_0000_0000

  /** The bytes of a number, least significant first. */
  function ByteOf(t: Uint32, k: int): Byte
    requires 0 <= k < 4
  {
    if k == 0 then t % 256
    else if k == 1 then t / 256 % 256
    else if k == 2 then t / 256 / 256 % 256
    else t / 256 / 256 / 256
  }

  function HexByte(b: Byte): Bytes {
    [DigitChar(b / 16), DigitChar(b % 16)]
  }

  /** encodeTime: big-endian bytes, each as two lower-case hexadecimal digits. */
  function EncodeTime(t: Uint32): (r: Bytes)
    ensures |r| == 8
  {
    HexByte(ByteOf(t, 3)) + (HexByte(ByteOf(t, 2)) + (HexByte(ByteOf(t, 1)) + HexByte(ByteOf(t, 0))))
  }

  lemma EncodeTimeDigits(t: Uint32)
    ensures Digits(EncodeTime(t)) && Free(EncodeTime(t), NUL)
  {
  }

  lemma HexByteOrder(a: Byte, b: Byte)
    requires a < b
    ensures Less(HexByte(a), HexByte(b))
  {
  }

  /** The first difference decides, wherever it is. */
  lemma FourPartOrder(a: Bytes, b: Bytes, c: Bytes, d: Bytes, e: Bytes, f: Bytes, g: Bytes, h: Bytes)
    requires |a| == |e| && |b| == |f| && |c| == |g| && |d| == |h|
    requires Less(a, e) || (a == e && Less(b, f)) || (a == e && b == f && Less(c, g))
             || (a == e && b == f && c == g && Less(d, h))
    ensures Less(a + (b + (c + d)), e + (f + (g + h)))
  {
    if Less(a, e) {
      LessExtends(a, e, b + (c + d), f + (g + h));
    } else {
      LessCommonPrefix(a, b + (c + d), f + (g + h));
      if Less(b, f) {
        LessExtends(b, f, c + d, g + h);
      } else {
        LessCommonPrefix(b, c + d, g + h);
        if Less(c, g) {
          LessExtends(c, g, d, h);
        } else {
          LessCommonPrefix(c, d, h);
        }
      }
    }
  }

  lemma HexBytesOrder(a: Byte, b: Byte, c: Byte, d: Byte, e: Byte, f: Byte, g: Byte, h: Byte)
    requires a * 0x100_0000 + b * 0x1_0000 + c * 0x100 + d < e * 0x100_0000 + f * 0x1_0000 + g * 0x100 + h
    ensures Less(HexByte(a) + (HexByte(b) + (HexByte(c) + HexByte(d))),
                 HexByte(e) + (HexByte(f) + (HexByte(g) + HexByte(h))))
  {
    if a != e {
      HexByteOrder(a, e);
    } else if b != f {
      HexByteOrder(b, f);
    } else if c != g {
      HexByteOrder(c, g);
    } else {
      HexByteOrder(d, h);
    }
    FourPartOrder(HexByte(a), HexByte(b), HexByte(c), HexByte(d), HexByte(e), HexByte(f), HexByte(g), HexByte(h));
  }

  /** encodeTime embeds the order of uint32 into the order of byte strings. */
  lemma EncodeTimeOrder(s: Uint32, t: Uint32)
    requires s < t
    ensures Less(EncodeTime(s), EncodeTime(t))
  {
    BigEndian(s);
    BigEndian(t);
    HexBytesOrder(ByteOf(s, 3), ByteOf(s, 2), ByteOf(s, 1), ByteOf(s, 0),
                  ByteOf(t, 3), ByteOf(t, 2), ByteOf(t, 1), ByteOf(t, 0));
  }

  lemma BigEndian(t: Uint32)
    ensures t == ByteOf(t, 3) * 0x100_0000 + ByteOf(t, 2) * 0x1_0000 + ByteOf(t, 1) * 0x100 + ByteOf(t, 0)
  {
    var q := t / 256;
    assert t == q * 256 + t % 256;
    assert q == q / 256 * 256 + q % 256;
  }

  function HexPair(x: Byte, y: Byte): Option<int> {
    match (DigitValue(x), DigitValue(y))
    case (Some(h), Some(l)) => Some(h * 16 + l)
    case _ => None
  }

  /** decodeTime on the eight digits that encodeTime writes. */
  function DecodeTime(bs: Bytes): Option<int>
    requires |bs| == 8
  {
    match (HexPair(bs[0], bs[1]), HexPair(bs[2], bs[3]), HexPair(bs[4], bs[5]), HexPair(bs[6], bs[7]))
    case (Some(a), Some(b), Some(c), Some(d)) => Some(a * 0x100_0000 + b * 0x1_0000 + c * 0x100 + d)
    case _ => None
  }

  lemma HexByteRoundTrip(b: Byte)
    ensures HexPair(HexByte(b)[0], HexByte(b)[1]) == Some(b)
  {
  }

  /** The hexadecimal digits of four bytes, pair by pair. */
  lemma PairsOfBytes(a: Byte, b: Byte, c: Byte, d: Byte)
    ensures var s := HexByte(a) + (HexByte(b) + (HexByte(c) + HexByte(d)));
            && |s| == 8 && HexPair(s[0], s[1]) == Some(a) && HexPair(s[2], s[3]) == Some(b)
            && HexPair(s[4], s[5]) == Some(c) && HexPair(s[6], s[7]) == Some(d)
  {
    var s := HexByte(a) + (HexByte(b) + (HexByte(c) + HexByte(d)));
    HexByteRoundTrip(a);
    HexByteRoundTrip(b);
    HexByteRoundTrip(c);
    HexByteRoundTrip(d);
    assert s[0] == HexByte(a)[0] && s[1] == HexByte(a)[1] && s[2] == HexByte(b)[0] && s[3] == HexByte(b)[1];
    assert s[4] == HexByte(c)[0] && s[5] == HexByte(c)[1] && s[6] == HexByte(d)[0] && s[7] == HexByte(d)[1];
  }

  lemma TimeRoundTrip(t: Uint32)
    ensures DecodeTime(EncodeTime(t)) == Some(t)
  {
    PairsOfBytes(ByteOf(t, 3), ByteOf(t, 2), ByteOf(t, 1), ByteOf(t, 0));
    BigEndian(t);
  }

  /** A key that starts with a later or equal offset, and no other, is at or above the scan
      start of an offset: the fact the v6 range scan rests on. */
  lemma ScanStartIff(s: Uint32, t: Uint32, rest: seq<Bytes>)
    ensures !Less(RangeKey([EncodeTime(t)] + rest), RangeKey([EncodeTime(s)])) <==> s <= t
  {
    if s <= t {
      ScanStart(s, t, rest);
    } else {
      EncodeTimeOrder(t, s);
      RangeKeyCons(EncodeTime(s), []);
      RangeKeyCons(EncodeTime(t), rest);
      assert [EncodeTime(s)] + [] == [EncodeTime(s)];
      assert RangeKey([EncodeTime(s)]) == EncodeTime(s) + ([NUL] + RangeKey([]));
      assert RangeKey([EncodeTime(t)] + rest) == EncodeTime(t) + ([NUL] + RangeKey(rest));
      LessExtends(EncodeTime(t), EncodeTime(s), [NUL] + RangeKey(rest), [NUL] + RangeKey([]));
    }
  }

  /** A key whose first component is empty is below every scan start. */
  lemma EmptyIsBelow(s: Uint32, rest: seq<Bytes>)
    ensures Less(RangeKey([[]] + rest), RangeKey([EncodeTime(s)]))
  {
    EncodeTimeDigits(s);
    RangeKeyCons([], rest);
    RangeKeyCons(EncodeTime(s), []);
    assert [EncodeTime(s)] + [] == [EncodeTime(s)];
    assert RangeKey([[]] + rest)[0] == NUL;
    assert RangeKey([EncodeTime(s)])[0] == EncodeTime(s)[0];
  }

  /** A key that starts with a later or equal offset is at or above the scan start of an
      earlier one: the fact the v6 range scan rests on. */
  lemma ScanStart(s: Uint32, t: Uint32, rest: seq<Bytes>)
    requires s <= t
    ensures !Less(RangeKey([EncodeTime(t)] + rest), RangeKey([EncodeTime(s)]))
  {
    var key := RangeKey([EncodeTime(t)] + rest);
    var start := RangeKey([EncodeTime(s)]);
    RangeKeyPrefix([EncodeTime(t)], rest);
    if s == t {
      PrefixNotGreater(start, key);
    } else {
      EncodeTimeOrder(s, t);
      RangeKeyCons(EncodeTime(s), []);
      RangeKeyCons(EncodeTime(t), rest);
      assert [EncodeTime(s)] + [] == [EncodeTime(s)];
      assert start == EncodeTime(s) + ([NUL] + RangeKey([]));
      assert key == EncodeTime(t) + ([NUL] + RangeKey(rest));
      LessExtends(EncodeTime(s), EncodeTime(t), [NUL] + RangeKey([]), [NUL] + RangeKey(rest));
      LessTrichotomy(start, key);
    }
  }
}
