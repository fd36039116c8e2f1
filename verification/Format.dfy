/** PGZF headers (src/constants.rs, src/format.rs): building them byte by byte, and reading
    the extra field back as a list of tag-length-value subfields. */
module Format {
  import opened Prelude
  import opened LittleEndian

  const GZIP_ID1: byte := 0x1f
  const GZIP_ID2: byte := 0x8b
  const GZIP_CM_DEFLATE: byte := 0x08
  const GZIP_FLG_FEXTRA: byte := 0x04
  const GZIP_OS_UNIX: byte := 0x03
  const PGZF_XFL_MARKER: byte := 0xAA

  const GZIP_FIXED_HEADER_SIZE: nat := 10
  const BEG_HEADER_SIZE: nat := 32
  const DAT_HEADER_SIZE: nat := 20
  const IDX_HEADER_BASE_SIZE: nat := 24
  const PGZF_TAIL_SIZE: nat := 8
  const ZC_VALUE_OFFSET: nat := 16
  const GC_VALUE_OFFSET: nat := 24

  const TAG_ZC: Bytes := [0x5A, 0x43]
  const TAG_GC: Bytes := [0x47, 0x43]
  const TAG_IX: Bytes := [0x49, 0x58]

  /** The largest group whose IDX extra field still fits the 16-bit XLEN. */
  const MAX_GROUP: nat := 8190

  datatype BlockType = Beg | Dat | Idx
  datatype IndexEntry = IndexEntry(compressedSize: u32, uncompressedSize: u32)

  // --- Header validation ---

  function ValidateGzipHeader(buf: Bytes): Result<(byte, byte)> {
    if |buf| < GZIP_FIXED_HEADER_SIZE then Err(InvalidFormat)
    else if buf[0] != GZIP_ID1 || buf[1] != GZIP_ID2 then Err(InvalidGzipMagic)
    else if buf[2] != GZIP_CM_DEFLATE then Err(InvalidFormat)
    else Ok((buf[3], buf[8]))
  }

  /** `flg & 0x04 != 0 && xfl == 0xAA`. */
  predicate IsPgzfMember(flg: byte, xfl: byte) {
    flg / GZIP_FLG_FEXTRA % 2 == 1 && xfl == PGZF_XFL_MARKER
  }

  // --- Header layout ---

  const GZIP_BASE: Bytes :=
    [GZIP_ID1, GZIP_ID2, GZIP_CM_DEFLATE, GZIP_FLG_FEXTRA, 0, 0, 0, 0, PGZF_XFL_MARKER, GZIP_OS_UNIX]

  /** One subfield: tag, 16-bit length, value (section 2.3.1.1 of RFC 1952). The length is narrowed. */
  function Subfield(tag: Bytes, data: Bytes): (s: Bytes)
    requires |tag| == 2
    ensures |s| == 4 + |data|
  {
    tag + LeU16(|data| % U16) + data
  }

  function IxData(entries: seq<IndexEntry>): (s: Bytes)
    ensures |s| == 8 * |entries|
  {
    if entries == [] then []
    else
      var n := |entries| - 1;
      IxData(entries[..n]) + LeU32(entries[n].compressedSize) + LeU32(entries[n].uncompressedSize)
  }

  lemma IxDataSnoc(entries: seq<IndexEntry>, i: nat)
    requires i < |entries|
    ensures IxData(entries[..i + 1]) ==
            IxData(entries[..i]) + LeU32(entries[i].compressedSize) + LeU32(entries[i].uncompressedSize)
  {
    assert entries[..i + 1][..i] == entries[..i];
  }

  function BegHeader(zc: u32, gc: u64): (h: Bytes)
    ensures |h| == BEG_HEADER_SIZE
  {
    GZIP_BASE + LeU16(20) + Subfield(TAG_ZC, LeU32(zc)) + Subfield(TAG_GC, LeU64(gc))
  }

  function DatHeader(zc: u32): (h: Bytes)
    ensures |h| == DAT_HEADER_SIZE
  {
    GZIP_BASE + LeU16(8) + Subfield(TAG_ZC, LeU32(zc))
  }

  function IdxHeader(zc: u32, entries: seq<IndexEntry>): (h: Bytes)
    ensures |h| == IDX_HEADER_BASE_SIZE + 8 * |entries|
  {
    GZIP_BASE + LeU16((12 + 8 * |entries|) % U16) + Subfield(TAG_ZC, LeU32(zc)) + Subfield(TAG_IX, IxData(entries))
  }

  // --- Header building ---

  method BuildGzipBase(buf: array<byte>)
    requires buf.Length >= GZIP_FIXED_HEADER_SIZE
    modifies buf
    ensures buf[..] == Overlay(old(buf[..]), 0, GZIP_BASE)
  {
    ghost var was := buf[..];
    buf[0], buf[1], buf[2], buf[3] := GZIP_ID1, GZIP_ID2, GZIP_CM_DEFLATE, GZIP_FLG_FEXTRA;
    buf[4], buf[5], buf[6], buf[7] := 0, 0, 0, 0;
    buf[8], buf[9] := PGZF_XFL_MARKER, GZIP_OS_UNIX;
    assert buf[..10] == GZIP_BASE;
    assert buf[10..] == was[10..];
    assert buf[..] == buf[..10] + buf[10..];
  }

  /** Writes one subfield header and value the way the builders do: two tag bytes, length, value. */
  method PutSubfield(buf: array<byte>, off: nat, tag: Bytes, data: Bytes)
    requires |tag| == 2 && off + 4 + |data| <= buf.Length
    modifies buf
    ensures buf[..] == Overlay(old(buf[..]), off, Subfield(tag, data))
  {
    hide Overlay, LeU16;
    ghost var was := buf[..];
    CopyInto(buf, off, tag);
    CopyInto(buf, off + 2, LeU16(|data| % U16));
    OverlayTwice(was, off, tag, LeU16(|data| % U16));
    CopyInto(buf, off + 4, data);
    OverlayTwice(was, off, tag + LeU16(|data| % U16), data);
  }

  /** What all members start with: the fixed part, XLEN and the ZC subfield. */
  ghost function Common(xlen: u16, zc: u32): (h: Bytes)
    ensures |h| == 20
  {
    GZIP_BASE + LeU16(xlen) + Subfield(TAG_ZC, LeU32(zc))
  }

  method PutCommon(buf: array<byte>, xlen: u16, zc: u32)
    requires buf.Length >= 20
    modifies buf
    ensures buf[..] == Common(xlen, zc) + old(buf[20..])
  {
    hide Overlay, Subfield, LeU16, LeU32;
    ghost var was := buf[..];
    BuildGzipBase(buf);
    CopyInto(buf, 10, LeU16(xlen));
    OverlayTwice(was, 0, GZIP_BASE, LeU16(xlen));
    PutSubfield(buf, 12, TAG_ZC, LeU32(zc));
    OverlayTwice(was, 0, GZIP_BASE + LeU16(xlen), Subfield(TAG_ZC, LeU32(zc)));
    OverlayStart(was, Common(xlen, zc));
  }

  method BuildBegHeader(zc: u32) returns (buf: array<byte>)
    ensures fresh(buf) && buf[..] == BegHeader(zc, 0)
  {
    hide Overlay, Subfield, LeU16, LeU32, LeU64;
    buf := new byte[BEG_HEADER_SIZE](_ => 0);
    ghost var rest := buf[20..];
    PutCommon(buf, 20, zc);
    PutSubfield(buf, 20, TAG_GC, LeU64(0));
    OverlayNext(Common(20, zc), rest, Subfield(TAG_GC, LeU64(0)));
  }

  method BuildDatHeader(zc: u32) returns (buf: array<byte>)
    ensures fresh(buf) && buf[..] == DatHeader(zc)
  {
    buf := new byte[DAT_HEADER_SIZE](_ => 0);
    PutCommon(buf, 8, zc);
  }

  lemma PutEntryStep(was: Bytes, entries: seq<IndexEntry>, i: nat)
    requires |was| == IDX_HEADER_BASE_SIZE + 8 * |entries| && i < |entries|
    ensures var a, b := LeU32(entries[i].compressedSize), LeU32(entries[i].uncompressedSize);
            Overlay(Overlay(Overlay(was, 24, IxData(entries[..i])), 24 + 8 * i, a), 28 + 8 * i, b)
            == Overlay(was, 24, IxData(entries[..i + 1]))
  {
    var a, b := LeU32(entries[i].compressedSize), LeU32(entries[i].uncompressedSize);
    IxDataSnoc(entries, i);
    OverlayTwice(was, 24, IxData(entries[..i]), a);
    OverlayTwice(was, 24, IxData(entries[..i]) + a, b);
  }

  /** The entry loop of the IDX builder: eight bytes per entry from offset 24. */
  method PutEntries(buf: array<byte>, entries: seq<IndexEntry>)
    requires buf.Length == IDX_HEADER_BASE_SIZE + 8 * |entries|
    modifies buf
    ensures buf[..] == old(buf[..24]) + IxData(entries)
  {
    ghost var was := buf[..];
    var off := 24;
    for i := 0 to |entries|
      invariant off == 24 + 8 * i
      invariant buf[..] == Overlay(was, 24, IxData(entries[..i]))
    {
      PutEntryStep(was, entries, i);
      CopyInto(buf, off, LeU32(entries[i].compressedSize));
      CopyInto(buf, off + 4, LeU32(entries[i].uncompressedSize));
      off := off + 8;
    }
    assert entries[..|entries|] == entries;
    assert was[..24] + IxData(entries) + [] == was[..24] + IxData(entries);
  }

  method BuildIdxHeader(zc: u32, entries: seq<IndexEntry>) returns (buf: array<byte>)
    ensures fresh(buf) && buf[..] == IdxHeader(zc, entries)
  {
    hide Overlay, Common, LeU16, LeU32, IxData;
    var ixDataSize := |entries| * 8;
    var xlen := 8 + 4 + ixDataSize; // ZC subfield, IX tag and length, IX data
    buf := new byte[IDX_HEADER_BASE_SIZE + ixDataSize](_ => 0);
    ghost var rest := buf[20..];
    PutCommon(buf, xlen % U16, zc);
    ghost var head := Common(xlen % U16, zc);
    var len := LeU16(ixDataSize % U16);
    CopyInto(buf, 20, TAG_IX);
    OverlayNext(head, rest, TAG_IX);
    CopyInto(buf, 22, len);
    OverlayNext(head + TAG_IX, rest[2..], len);
    assert buf[..24] == head + TAG_IX + len;
    PutEntries(buf, entries);
    Regroup(head, TAG_IX, len, IxData(entries));
    IdxHeaderParts(zc, entries);
  }

  lemma IdxHeaderParts(zc: u32, entries: seq<IndexEntry>)
    ensures IdxHeader(zc, entries) ==
            Common((12 + 8 * |entries|) % U16, zc) + (TAG_IX + LeU16((8 * |entries|) % U16) + IxData(entries))
  {
  }

  lemma Regroup(head: Bytes, a: Bytes, b: Bytes, c: Bytes)
    ensures head + a + b + c == head + (a + b + c)
  {
  }
}
