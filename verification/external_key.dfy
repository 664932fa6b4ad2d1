/** External keys of chunks: how a chunk is named in the index, in the cache and in
    object storage, and how the name is read back. */
module ExternalKeys {
  import opened ByteStrings
  import opened Delimited
  import opened Numerals

  /** The part of a chunk that its key carries. A chunk written before checksums
      existed has none. Times are milliseconds, signed 64-bit. */
  datatype ChunkRef = ChunkRef(user: Bytes, fingerprint: nat, from: int, through: int, checksum: Option<int>)
  {
    /** The fields are in the range of the Go types that hold them. */
    predicate InRange() {
      && fingerprint < TWO_64
      && -TWO_63 <= from < TWO_63
      && -TWO_63 <= through < TWO_63
      && (checksum.Some? ==> 0 <= checksum.value < TWO_32)
    }
  }

  datatype KeyResult =
    | Parsed(ref: ChunkRef)
    | ErrInvalidChunkID
    | ErrNumber
    | ErrWrongMetadata

  function HexFields(r: ChunkRef): seq<Bytes>
    requires r.checksum.Some? && r.checksum.value >= 0
  {
    [Format(r.fingerprint, 16), FormatSigned(r.from, 16), FormatSigned(r.through, 16), Format(r.checksum.value, 16)]
  }

  function DecimalFields(r: ChunkRef): seq<Bytes> {
    [Format(r.fingerprint, 10), FormatSigned(r.from, 10), FormatSigned(r.through, 10)]
  }

  /** externalKey. */
  function Key(r: ChunkRef): Bytes
    requires r.InRange()
  {
    if r.checksum.Some? then Join([r.user, Join(HexFields(r), COLON)], SLASH)
    else Join([r.user, Join(DecimalFields(r), COLON)], SLASH)
  }

  /** The name a chunk without a checksum had in the index: no user in front. */
  function LegacyID(r: ChunkRef): Bytes {
    Join(DecimalFields(r), COLON)
  }

  /** parseNewExternalKey. */
  function ParseNew(key: Bytes): KeyResult {
    var parts := Split(key, SLASH);
    if |parts| != 2 then ErrInvalidChunkID
    else
      var hex := Split(parts[1], COLON);
      if |hex| != 4 then ErrInvalidChunkID
      else
        match (ParseUint(hex[0], 16, TWO_64), ParseInt(hex[1], 16), ParseInt(hex[2], 16), ParseUint(hex[3], 16, TWO_32))
        case (Some(fp), Some(from), Some(through), Some(sum)) =>
          Parsed(ChunkRef(parts[0], fp, from, through, Some(sum)))
        case _ => ErrNumber
  }

  /** parseLegacyChunkID. */
  function ParseLegacy(user: Bytes, key: Bytes): KeyResult {
    var parts := Split(key, COLON);
    if |parts| != 3 then ErrInvalidChunkID
    else
      match (ParseUint(parts[0], 10, TWO_64), ParseInt(parts[1], 10), ParseInt(parts[2], 10))
      case (Some(fp), Some(from), Some(through)) => Parsed(ChunkRef(user, fp, from, through, None))
      case _ => ErrNumber
  }

  /** parseExternalKey. */
  function Parse(user: Bytes, key: Bytes): KeyResult {
    if Free(key, SLASH) then ParseLegacy(user, key)
    else
      match ParseNew(key)
      case Parsed(r) => if r.user == user then Parsed(r) else ErrWrongMetadata
      case err => err
  }

  /** The numbers of a key, as it prints them. */
  function Fields(r: ChunkRef): seq<Bytes>
    requires r.InRange()
  {
    if r.checksum.Some? then HexFields(r) else DecimalFields(r)
  }

  lemma KeyText(r: ChunkRef)
    requires r.InRange()
    ensures Key(r) == r.user + [SLASH] + Join(Fields(r), COLON)
  {
    JoinPair(r.user, Join(Fields(r), COLON), SLASH);
  }

  lemma FieldsClean(r: ChunkRef, d: Byte)
    requires r.InRange() && d in {NUL, SLASH, COLON}
    ensures AllFree(Fields(r), d)
  {
    var base := if r.checksum.Some? then 16 else 10;
    FormatSignedFree(r.fingerprint, base, d);
    FormatSignedFree(r.from, base, d);
    FormatSignedFree(r.through, base, d);
    if r.checksum.Some? {
      FormatSignedFree(r.checksum.value, 16, d);
    }
  }

  lemma KeyParts(r: ChunkRef)
    requires r.InRange()
    ensures !Free(Key(r), SLASH)
    ensures |Split(Key(r), SLASH)| == |Split(r.user, SLASH)| + 1
    ensures Free(r.user, SLASH) ==> Split(Key(r), SLASH) == [r.user, Join(Fields(r), COLON)]
    ensures Split(Join(Fields(r), COLON), COLON) == Fields(r)
  {
    var fields := Join(Fields(r), COLON);
    FieldsClean(r, SLASH);
    FieldsClean(r, COLON);
    JoinFree(Fields(r), COLON, SLASH);
    SplitFree(fields, SLASH);
    SplitJoin(Fields(r), COLON);
    KeyText(r);
    assert Key(r)[|r.user|] == SLASH;
    SplitConcatLength(r.user, SLASH, fields);
    if Free(r.user, SLASH) {
      SplitAtDelimiter(r.user, SLASH, fields);
    }
  }

  /** Reading back a checksummed key gives the same chunk to its own user, an error to any
      other user, and an error to everybody when the user ID contains a slash. */
  lemma KeyRoundTrip(user: Bytes, r: ChunkRef)
    requires r.InRange() && r.checksum.Some?
    ensures Parse(user, Key(r)) ==
            if !Free(r.user, SLASH) then ErrInvalidChunkID
            else if r.user == user then Parsed(r)
            else ErrWrongMetadata
  {
    KeyParts(r);
    SplitLength(r.user, SLASH);
    if Free(r.user, SLASH) {
      UintRoundTrip(r.fingerprint, 16, TWO_64);
      IntRoundTrip(r.from, 16);
      IntRoundTrip(r.through, 16);
      UintRoundTrip(r.checksum.value, 16, TWO_32);
    }
  }

  /** The index name of a chunk from before checksums reads back for whoever asks. */
  lemma LegacyRoundTrip(user: Bytes, r: ChunkRef)
    requires r.InRange() && r.checksum.None?
    ensures Parse(user, LegacyID(r)) == Parsed(r.(user := user))
  {
    KeyParts(r);
    FieldsClean(r, SLASH);
    JoinFree(Fields(r), COLON, SLASH);
    UintRoundTrip(r.fingerprint, 10, TWO_64);
    IntRoundTrip(r.from, 10);
    IntRoundTrip(r.through, 10);
  }

  /** Distinct chunks have distinct keys, with or without checksums and whatever the user ID: the
      numbers follow the last slash. */
  lemma KeyInjective(a: ChunkRef, b: ChunkRef)
    requires a.InRange() && b.InRange() && Key(a) == Key(b)
    ensures a == b
  {
    KeyParts(a);
    KeyParts(b);
    KeyText(a);
    KeyText(b);
    FieldsClean(a, SLASH);
    FieldsClean(b, SLASH);
    JoinFree(Fields(a), COLON, SLASH);
    JoinFree(Fields(b), COLON, SLASH);
    LastPart(a.user, Join(Fields(a), COLON), b.user, Join(Fields(b), COLON), SLASH);
    FieldsInjective(a.(user := []), b.(user := []));
  }

  lemma FieldsInjective(a: ChunkRef, b: ChunkRef)
    requires a.InRange() && b.InRange() && a.user == b.user == [] && Fields(a) == Fields(b)
    ensures a == b
  {
    assert a.checksum.Some? <==> b.checksum.Some?;
    if a.checksum.Some? {
      KeyRoundTrip(a.user, a);
      KeyRoundTrip(a.user, b);
    } else {
      LegacyRoundTrip(a.user, a);
      LegacyRoundTrip(a.user, b);
    }
  }

  /** A key fits into one component of a range key exactly when the user ID does. */
  lemma KeyNulFree(r: ChunkRef)
    requires r.InRange()
    ensures Free(Key(r), NUL) <==> Free(r.user, NUL)
  {
    FieldsClean(r, NUL);
    JoinFree(Fields(r), COLON, NUL);
    KeyText(r);
  }
}
