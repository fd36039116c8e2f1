/** One gzip member taken from the front of a byte string: the raw reader
    (src/reader.rs, `read_one_raw_block` and `decompress_raw_block_with`) and the simple decoder
    (src/decompress.rs, `read_pgzf_block`), with what both see in an encoded member. */
module RawMember {
  import opened Prelude
  import opened LittleEndian
  import opened Format
  import opened ExtraField
  import opened Container

  /** `Panicked` is the slice panic of a ZC smaller than the member's own header. */
  datatype Raw = Block(raw: Bytes, headerSize: nat, blockType: BlockType) | End | Failed(error: Error) | Panicked

  /** Result, bytes consumed, and whether a data block was counted on the way. */
  datatype RawOutcome = RawOutcome(result: Raw, consumed: nat, counted: bool)

  function ParseRaw(s: Bytes): RawOutcome {
    if |s| < 10 then RawOutcome(End, |s|, false)
    else if |s| < 12 then RawOutcome(Failed(UnexpectedEof), |s|, false)
    else
      var xlen: nat := ReadU16(s[10..]);
      if |s| < 12 + xlen then RawOutcome(Failed(UnexpectedEof), |s|, false)
      else ParseBody(s, 12 + xlen, Interpret(Fields(s[12..12 + xlen])).zc, RawType(Fields(s[12..12 + xlen])))
  }

  /** The part after the extra field, given header size, ZC and type. */
  function ParseBody(s: Bytes, headerSize: nat, zc: u32, blockType: BlockType): RawOutcome
    requires headerSize <= |s|
  {
    var counted := blockType != Idx;
    if zc == 0 then RawOutcome(End, headerSize, counted)
    else if zc > MAX_MEMBER then RawOutcome(Failed(InvalidFormat), headerSize, counted)
    else if zc < headerSize then RawOutcome(Panicked, headerSize, counted)
    else if |s| < zc then RawOutcome(Failed(UnexpectedEof), |s|, counted)
    else RawOutcome(Block(s[..zc], headerSize, blockType), zc, counted)
  }

  function DecompressRaw(c: Codec, raw: Bytes, headerSize: nat): Result<Bytes> {
    if |raw| < PGZF_TAIL_SIZE + headerSize then Ok([])
    else
      var t := |raw| - PGZF_TAIL_SIZE;
      var expectedSize := ReadU32(raw[t + 4..]);
      if expectedSize == 0 then Ok([])
      else
        var output := c.inflate(raw[headerSize..t], expectedSize);
        if output.Err? then Err(Inflate)
        else if c.crc(output.value) != ReadU32(raw[t..]) then Err(CrcMismatch)
        else output
  }

  datatype Decoded = Decoded(data: Bytes, blockType: BlockType, zc: u32)
  datatype DecodeOutcome = DecodeOutcome(result: Result<Option<Decoded>>, consumed: nat)

  function DecodedHeaderSize(e: Extra): nat {
    match DetermineBlockType(e.gc, e.ix)
    case Beg => BEG_HEADER_SIZE
    case Dat => DAT_HEADER_SIZE
    case Idx => IDX_HEADER_BASE_SIZE + if e.ix.Some? then 8 * |e.ix.value| else 0
  }

  function DecodeMember(c: Codec, s: Bytes): DecodeOutcome {
    if |s| < 10 then DecodeOutcome(Ok(None), |s|)
    else
      var v := ValidateGzipHeader(s[..10]);
      if v.Err? then DecodeOutcome(Err(v.error), 10)
      else if |s| < 12 || |s| < 12 + ReadU16(s[10..]) then DecodeOutcome(Err(UnexpectedEof), |s|)
      else
        var h: nat := 12 + ReadU16(s[10..]);
        var e := ParseExtra(s[10..h], IsPgzfMember(v.value.0, v.value.1));
        if e.Err? then DecodeOutcome(Err(e.error), h) else DecodeBody(c, s, h, e.value)
  }

  function DecodeBody(c: Codec, s: Bytes, h: nat, e: Extra): DecodeOutcome
    requires h <= |s|
  {
    var overhead := DecodedHeaderSize(e) + PGZF_TAIL_SIZE;
    if e.zc < overhead then DecodeOutcome(Err(InvalidFormat), h)
    else
      var t := h + e.zc - overhead;
      if |s| < t + PGZF_TAIL_SIZE then DecodeOutcome(Err(UnexpectedEof), |s|)
      else if DetermineBlockType(e.gc, e.ix) == Idx then DecodeOutcome(Ok(Some(Decoded([], Idx, e.zc))), t + PGZF_TAIL_SIZE)
      else
        var output := c.inflate(s[h..t], Max(ReadU32(s[t + 4..]), 1));
        if output.Err? then DecodeOutcome(Err(Inflate), t + PGZF_TAIL_SIZE)
        else if c.crc(output.value) != ReadU32(s[t..]) then DecodeOutcome(Err(CrcMismatch), t + PGZF_TAIL_SIZE)
        else DecodeOutcome(Ok(Some(Decoded(output.value, DetermineBlockType(e.gc, e.ix), e.zc))), t + PGZF_TAIL_SIZE)
  }

  // --- What an encoded member looks like ---

  /** Header of a readable member: XLEN, subfields and block type, by either reader. */
  lemma HeaderFields(m: Member, zc: u32)
    requires m.Index? ==> 1 <= |m.entries| <= MAX_GROUP
    ensures ReadU16(HeaderOf(m, zc)[10..]) == HeaderSize(m) - 12
    ensures Interpret(Fields(HeaderOf(m, zc)[12..])).zc == zc
    ensures RawType(Fields(HeaderOf(m, zc)[12..])) == TypeOf(m)
    ensures DetermineBlockType(Interpret(Fields(HeaderOf(m, zc)[12..])).gc, Interpret(Fields(HeaderOf(m, zc)[12..])).ix) == TypeOf(m)
    ensures DecodedHeaderSize(Interpret(Fields(HeaderOf(m, zc)[12..]))) == HeaderSize(m)
  {
    hide Fields, Interpret, BegHeader, DatHeader, IdxHeader, ReadU16;
    var h := HeaderOf(m, zc);
    assert h[10..] == ExtraOf(h);
    match m
    case Index(entries) =>
      IdxExtra(zc, entries);
      assert Fields(h[12..])[1].tag == TAG_IX;
    case Data(gc, _) =>
      if gc.Some? {
        BegExtra(zc, gc.value);
        assert Fields(h[12..])[1].tag == TAG_GC;
      } else {
        DatExtra(zc);
      }
  }

  /** The first ten bytes of every header pass the gzip check and carry the PGZF marker. */
  lemma HeaderMagic(m: Member, zc: u32)
    ensures HeaderOf(m, zc)[..10] == GZIP_BASE
    ensures ValidateGzipHeader(GZIP_BASE) == Ok((GZIP_FLG_FEXTRA, PGZF_XFL_MARKER))
    ensures IsPgzfMember(GZIP_FLG_FEXTRA, PGZF_XFL_MARKER)
  {
    hide Subfield, LeU16, LeU32, LeU64, IxData, IsPgzfMember, ValidateGzipHeader;
    BaseMagic();
    match m
    case Index(entries) =>
      FirstPart(GZIP_BASE, LeU16((12 + 8 * |entries|) % U16), Subfield(TAG_ZC, LeU32(zc)), Subfield(TAG_IX, IxData(entries)));
    case Data(gc, _) =>
      if gc.Some? {
        FirstPart(GZIP_BASE, LeU16(20), Subfield(TAG_ZC, LeU32(zc)), Subfield(TAG_GC, LeU64(gc.value)));
      } else {
        FirstPart(GZIP_BASE, LeU16(8), Subfield(TAG_ZC, LeU32(zc)), []);
        assert DatHeader(zc) + [] == DatHeader(zc);
      }
  }

  lemma BaseMagic()
    ensures ValidateGzipHeader(GZIP_BASE) == Ok((GZIP_FLG_FEXTRA, PGZF_XFL_MARKER))
    ensures IsPgzfMember(GZIP_FLG_FEXTRA, PGZF_XFL_MARKER)
  {
  }

  lemma FirstPart(a: Bytes, x: Bytes, y: Bytes, z: Bytes)
    ensures (a + x + y + z)[..|a|] == a
  {
  }

  /** A member cut into header, body and trailer, with any bytes after it. */
  lemma MemberParts(c: Codec, level: nat, m: Member, rest: Bytes)
    requires Readable(c, level, m)
    ensures var s := Image(c, level, m) + rest; var h := HeaderSize(m); var zc := SizeOf(c, level, m);
            && |s| >= zc >= h + 8 && h >= 12
            && s[..zc] == Image(c, level, m)
            && s[..h] == HeaderOf(m, zc)
            && s[h..zc - 8] == Body(c, level, m)
            && s[zc - 8..zc] == Trailer(c, m)
  {
    hide HeaderOf, Trailer, Body, Image;
    ReadableSizes(c, level, m);
    AnyMemberParts(c, level, m, rest);
  }

  /** The same without the limits on what can be read: it is enough that the size fits its field. */
  lemma AnyMemberParts(c: Codec, level: nat, m: Member, rest: Bytes)
    requires SizeOf(c, level, m) < U32
    ensures var s := Image(c, level, m) + rest; var h := HeaderSize(m); var zc := SizeOf(c, level, m);
            && |s| >= zc >= h + 8 && h >= 12
            && s[..zc] == Image(c, level, m)
            && s[..h] == HeaderOf(m, zc)
            && s[h..zc - 8] == Body(c, level, m)
            && s[zc - 8..zc] == Trailer(c, m)
  {
    hide HeaderOf, Trailer, Body;
    var h, b, t := HeaderOf(m, SizeOf(c, level, m)), Body(c, level, m), Trailer(c, m);
    assert Image(c, level, m) + rest == h + (b + (t + rest));
  }

  lemma SlicesOfPrefix(s: Bytes, header: Bytes, h: nat)
    requires 12 <= h <= |s| && s[..h] == header
    ensures header[10..][..2] == s[10..][..2]
    ensures ReadU16(s[10..]) == ReadU16(header[10..])
    ensures s[12..h] == header[12..] && s[..10] == header[..10]
  {
    PrefixWindow(s, h, 10, 2);
    PrefixWindow(s, h, 12, h - 12);
    assert s[12..][..h - 12] == s[12..h] && header[12..][..h - 12] == header[12..];
    assert s[..h][..10] == s[..10];
  }

  /** The raw reader takes exactly the member's bytes, whatever follows. */
  lemma RawOfMember(c: Codec, level: nat, m: Member, rest: Bytes)
    requires Readable(c, level, m)
    ensures ParseRaw(Image(c, level, m) + rest) ==
            RawOutcome(Block(Image(c, level, m), HeaderSize(m), TypeOf(m)), SizeOf(c, level, m), m.Data?)
  {
    hide Image, HeaderOf, Trailer, Body, Fields, Interpret, RawType, ReadU16;
    var s := Image(c, level, m) + rest;
    var h, zc := HeaderSize(m), SizeOf(c, level, m);
    MemberParts(c, level, m, rest);
    SlicesOfPrefix(s, HeaderOf(m, zc), h);
    HeaderFields(m, zc);
  }

  lemma TrailerFields(c: Codec, m: Member)
    requires m.Data? && |m.payload| < U32
    ensures ReadU32(Trailer(c, m)) == c.crc(m.payload)
    ensures ReadU32(Trailer(c, m)[4..]) == |m.payload|
  {
    hide LeU32, ReadU32;
    ReadLeU32(c.crc(m.payload), LeU32(|m.payload|));
    ReadLeU32(|m.payload|, []);
    assert Trailer(c, m)[4..] == LeU32(|m.payload|) + [];
  }

  /** Decompressing a data member gives its block back, CRC check included. */
  lemma DecompressOfMember(c: Codec, level: nat, m: Member)
    requires Readable(c, level, m) && m.Data?
    ensures DecompressRaw(c, Image(c, level, m), HeaderSize(m)) == Ok(m.payload)
  {
    hide HeaderOf, Trailer, Body, ReadU32, Image;
    var raw := Image(c, level, m);
    MemberParts(c, level, m, []);
    assert raw + [] == raw;
    var t := |raw| - 8;
    TrailerFields(c, m);
    assert raw[t..] == Trailer(c, m);
    assert raw[t + 4..] == Trailer(c, m)[4..];
  }

  /** The simple decoder agrees with the raw path on every readable member. */
  lemma DecodeOfMember(c: Codec, level: nat, m: Member, rest: Bytes)
    requires Readable(c, level, m)
    ensures DecodeMember(c, Image(c, level, m) + rest) ==
            DecodeOutcome(Ok(Some(Decoded(if m.Data? then m.payload else [], TypeOf(m), SizeOf(c, level, m)))), SizeOf(c, level, m))
  {
    hide Image, HeaderOf, Trailer, Body, Fields, Interpret, ReadU16, ReadU32, DetermineBlockType, DecodedHeaderSize;
    var s := Image(c, level, m) + rest;
    var h, zc := HeaderSize(m), SizeOf(c, level, m);
    var header := HeaderOf(m, zc);
    MemberParts(c, level, m, rest);
    SlicesOfPrefix(s, header, h);
    HeaderFields(m, zc);
    HeaderMagic(m, zc);
    DecodeExtra(s, h);
    DecodeBodyOfMember(c, level, m, s, Interpret(Fields(header[12..])));
  }

  lemma DecodeExtra(s: Bytes, h: nat)
    requires 12 <= h <= |s| && ReadU16(s[10..]) == h - 12
    ensures ParseExtra(s[10..h], true) == Ok(Interpret(Fields(s[12..h])))
  {
    hide Interpret, Fields;
    Window(s, 10, h - 10, 0, 2);
    Window(s, 10, h - 10, 2, h - 12);
    assert s[10..h][0..2] == s[10..h][..2] && s[12..][..h - 12] == s[12..h];
  }

  lemma DecodeBodyOfMember(c: Codec, level: nat, m: Member, s: Bytes, e: Extra)
    requires Readable(c, level, m)
    requires var h := HeaderSize(m); var zc := SizeOf(c, level, m);
             h <= |s| && |s| >= zc && s[h..zc - 8] == Body(c, level, m) && s[zc - 8..zc] == Trailer(c, m)
    requires e.zc == SizeOf(c, level, m) && DetermineBlockType(e.gc, e.ix) == TypeOf(m) && DecodedHeaderSize(e) == HeaderSize(m)
    ensures DecodeBody(c, s, HeaderSize(m), e) ==
            DecodeOutcome(Ok(Some(Decoded(if m.Data? then m.payload else [], TypeOf(m), SizeOf(c, level, m)))), SizeOf(c, level, m))
  {
    hide Trailer, Body, DecodedHeaderSize, DetermineBlockType, ReadU32;
    var zc := SizeOf(c, level, m);
    if m.Data? {
      TrailerFields(c, m);
      PrefixRead(s, zc - 8);
    }
  }

  lemma PrefixRead(s: Bytes, t: nat)
    requires t + 8 <= |s|
    ensures ReadU32(s[t..]) == ReadU32(s[t..t + 8]) && ReadU32(s[t + 4..]) == ReadU32(s[t..t + 8][4..])
  {
    var w := s[t..t + 8];
    assert forall j :: 0 <= j < 4 ==> w[j] == s[t + j] && w[4..][j] == s[t + 4 + j];
    assert s[t..][..4] == w[..4];
    assert s[t + 4..][..4] == w[4..][..4];
  }

  /** Plain gzip never decodes: without the PGZF marker ZC stays 0, below any header. */
  lemma PlainGzipNeverDecodes(c: Codec, s: Bytes)
    requires |s| >= 10
    ensures DecodeMember(c, s).result.Ok? ==> IsPgzfMember(s[3], s[8])
  {
  }
}
