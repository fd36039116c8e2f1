/** The simple sequential decoder (src/decompress.rs) over a whole file, against the raw path. */
module Decompress {
  import opened Prelude
  import opened LittleEndian
  import opened Format
  import opened ExtraField
  import opened Container
  import opened FileStream
  import opened RawMember
  import opened IndexSpec
  import opened Reader

  /** `read_pgzf_block`. */
  method ReadPgzfBlock(c: Codec, reader: Stream) returns (r: Result<Option<Decoded>>)
    modifies reader
    ensures reader.data == old(reader.data)
    ensures var o := DecodeMember(c, Suffix(reader.data, old(reader.pos)));
            r == o.result && reader.pos == old(reader.pos) + o.consumed
  {
    hide ParseExtra, ReadU16, ReadU32, ValidateGzipHeader, IsPgzfMember, DecodeBody;
    ghost var pos := reader.pos;
    ghost var s := Suffix(reader.data, pos);
    var headerBuf := reader.ReadExact(GZIP_FIXED_HEADER_SIZE);
    if headerBuf.None? { return Ok(None); }
    DropSlice(reader.data, pos, 0, 10);
    assert headerBuf.value == s[0..10] == s[..10];
    var v := ValidateGzipHeader(headerBuf.value);
    if v.Err? { return Err(v.error); }
    var isPgzf := IsPgzfMember(v.value.0, v.value.1);
    var xlenBuf := reader.ReadExact(2);
    if xlenBuf.None? { return Err(UnexpectedEof); }
    DropSlice(reader.data, pos, 10, 12);
    assert s[10..][..2] == xlenBuf.value[..2] by { DropSlice(s, 10, 0, 2); assert s[10..][0..2] == s[10..][..2]; }
    SameReads(s[10..], xlenBuf.value);
    var xlen: nat := ReadU16(xlenBuf.value);
    var extra := reader.ReadExact(xlen);
    if extra.None? { return Err(UnexpectedEof); }
    var fullExtra := xlenBuf.value + extra.value;
    DropSlice(reader.data, pos, 12, 12 + xlen);
    Adjacent(s, 10, 12, 12 + xlen);
    var e := ParseExtraField(fullExtra, isPgzf);
    if e.Err? { return Err(e.error); }
    r := ReadBody(c, reader, e.value, s, 12 + xlen);
  }

  /** The deflate stream, the trailer and the CRC check. */
  method ReadBody(c: Codec, reader: Stream, e: Extra, ghost s: Bytes, ghost h: nat) returns (r: Result<Option<Decoded>>)
    requires h <= |s| <= |reader.data| && s == reader.data[|reader.data| - |s|..]
    requires reader.pos == |reader.data| - |s| + h
    modifies reader
    ensures reader.data == old(reader.data)
    ensures var o := DecodeBody(c, s, h, e);
            r == o.result && reader.pos == |reader.data| - |s| + o.consumed
  {
    hide ReadU32;
    var blockType := DetermineBlockType(e.gc, e.ix);
    var headerSize := match blockType
      case Beg => BEG_HEADER_SIZE
      case Dat => DAT_HEADER_SIZE
      case Idx => IDX_HEADER_BASE_SIZE + if e.ix.Some? then |e.ix.value| * 8 else 0;
    if e.zc < headerSize + PGZF_TAIL_SIZE { return Err(InvalidFormat); }
    var deflateSize := e.zc - (headerSize + PGZF_TAIL_SIZE);
    var deflateData := reader.ReadExact(deflateSize);
    if deflateData.None? { return Err(UnexpectedEof); }
    var trailer := reader.ReadExact(PGZF_TAIL_SIZE);
    if trailer.None? { return Err(UnexpectedEof); }
    ghost var t := h + deflateSize;
    ghost var base := |reader.data| - |s|;
    DropSlice(reader.data, base, h, t);
    DropSlice(reader.data, base, t, t + 8);
    PrefixRead(s, t);
    var expectedCrc := ReadU32(trailer.value);
    var expectedSize := ReadU32(trailer.value[4..]);
    if blockType == Idx { return Ok(Some(Decoded([], blockType, e.zc))); }
    var output := c.inflate(deflateData.value, Max(expectedSize, 1));
    if output.Err? { return Err(Inflate); }
    if c.crc(output.value) != expectedCrc { return Err(CrcMismatch); }
    r := Ok(Some(Decoded(output.value, blockType, e.zc)));
  }

  lemma DecodeAdvances(c: Codec, file: Bytes, pos: nat)
    ensures var o := DecodeMember(c, Suffix(file, pos));
            o.result.Ok? && o.result.value.Some? ==> pos + 12 <= pos + o.consumed <= |file|
  {
  }

  /** The data blocks the simple decoder delivers from a file position until it stops, as the
      sequential path does: IDX members are skipped. */
  function DecodeAll(c: Codec, file: Bytes, pos: nat): seq<Bytes>
    decreases Max(|file| + 1 - pos, 0)
  {
    DecodeAdvances(c, file, pos);
    var o := DecodeMember(c, Suffix(file, pos));
    if o.result.Err? || o.result.value.None? then []
    else
      var d := o.result.value.value;
      (if d.blockType == Idx then [] else [d.data]) + DecodeAll(c, file, pos + o.consumed)
  }

  lemma DecodeOne(c: Codec, level: nat, ms: seq<Member>, k: nat)
    requires AllReadable(c, level, ms) && k < |ms|
    ensures var file := FileOf(c, level, ms);
            DecodeAll(c, file, Start(c, level, ms, k)) ==
            (if ms[k].Data? then [ms[k].payload] else []) + DecodeAll(c, file, Start(c, level, ms, k + 1))
  {
    hide FileOf, Image, DecodeMember, Readable, SizeOf, Start;
    var rest := MemberAhead(c, level, ms, k);
    ReadableAt(c, level, ms, k);
    DecodeOfMember(c, level, ms[k], rest);
    ReadableBounds(c, level, ms[k]);
  }

  lemma DecodeNone(c: Codec, level: nat, ms: seq<Member>)
    ensures DecodeAll(c, FileOf(c, level, ms), Start(c, level, ms, |ms|)) == []
  {
    hide FileOf;
    assert ms[..|ms|] == ms;
  }

  /** Decoding from member k delivers the blocks from there on. */
  lemma {:induction false} DecodeMembers(c: Codec, level: nat, ms: seq<Member>, k: nat)
    requires AllReadable(c, level, ms) && k <= |ms|
    ensures Count(ms, k) <= |Blocks(ms)|
    ensures DecodeAll(c, FileOf(c, level, ms), Start(c, level, ms, k)) == Blocks(ms)[Count(ms, k)..]
    decreases |ms| - k
  {
    hide FileOf, DecodeAll, Readable, Start, Count, Blocks;
    CountAll(ms);
    if k == |ms| {
      DecodeNone(c, level, ms);
    } else {
      DecodeOne(c, level, ms, k);
      BlockOfMember(ms, k);
      DecodeMembers(c, level, ms, k + 1);
      var i := Count(ms, k);
      if ms[k].Data? { assert Blocks(ms)[i..] == [Blocks(ms)[i]] + Blocks(ms)[i + 1..]; }
    }
  }

  /** Sequential decoding of encoder output gives back the data, block by block: the same blocks
      the raw path and the reader deliver. */
  lemma DecodesEncoded(c: Codec, cfg: Config, data: Bytes)
    requires Lawful(c, cfg) && GroupsFit(cfg, data)
    ensures DecodeAll(c, Encode(c, cfg, data), 0) == Chunks(cfg.blockSize, data)
    ensures Flat(DecodeAll(c, Encode(c, cfg, data), 0)) == data
  {
    hide Lawful, GroupsFit, Layout, FileOf, DecodeAll, Chunks, AllReadable, Blocks, Start;
    LawfulSizes(c, cfg);
    var ms := Layout(c, cfg, data);
    LayoutReadable(c, cfg, data);
    LayoutBlocks(c, cfg, data);
    DecodeMembers(c, cfg.level, ms, 0);
    CountAll(ms);
    StartZero(c, cfg.level, ms);
  }
}
