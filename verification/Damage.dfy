/** The CRC check: what decompression delivers (src/reader.rs:435-482, src/decompress.rs:64-99), stated on
    the bytes of the member, and that a damaged stream is never delivered for the block it was. */
module Damage {
  import opened Prelude
  import opened LittleEndian
  import opened Format
  import opened ExtraField
  import opened Container
  import opened RawMember

  /** A raw member delivers a non-empty block d exactly when its stream inflates to d at the size in its
      last four bytes and the CRC of d is the number in the four bytes before. */
  lemma DeliveredIff(c: Codec, raw: Bytes, h: nat, d: Bytes)
    requires d != []
    ensures DecompressRaw(c, raw, h) == Ok(d) <==>
              && h + 8 <= |raw| && Number4(raw, |raw| - 4) != 0
              && c.inflate(raw[h..|raw| - 8], Number4(raw, |raw| - 4)) == Ok(d)
              && c.crc(d) == Number4(raw, |raw| - 8)
  {
    if h + 8 <= |raw| {
      ReadsDigits(raw, |raw| - 4);
      ReadsDigits(raw, |raw| - 8);
    }
  }

  /** An error is delivered exactly when the stream does not inflate, or inflates to something with
      another CRC; and the two are told apart. */
  lemma RefusedIff(c: Codec, raw: Bytes, h: nat)
    ensures DecompressRaw(c, raw, h).Err? <==>
              && h + 8 <= |raw| && Number4(raw, |raw| - 4) != 0
              && (var out := c.inflate(raw[h..|raw| - 8], Number4(raw, |raw| - 4));
                  out.Err? || c.crc(out.value) != Number4(raw, |raw| - 8))
    ensures DecompressRaw(c, raw, h).Err? ==>
              DecompressRaw(c, raw, h).error ==
              if c.inflate(raw[h..|raw| - 8], Number4(raw, |raw| - 4)).Err? then Inflate else CrcMismatch
  {
    if h + 8 <= |raw| {
      ReadsDigits(raw, |raw| - 4);
      ReadsDigits(raw, |raw| - 8);
    }
  }

  /** The bytes of data member m with another stream in place of its own. */
  function WithStream(c: Codec, level: nat, m: Member, stream: Bytes): Bytes {
    HeaderOf(m, SizeOf(c, level, m) % U32) + stream + Trailer(c, m)
  }

  /** A damaged member: whatever its stream has become, it delivers its block's size and CRC or nothing.
      A stream that inflates to something with another CRC is refused as such. */
  lemma DamagedStream(c: Codec, level: nat, m: Member, stream: Bytes)
    requires Readable(c, level, m) && m.Data?
    ensures var out := c.inflate(stream, |m.payload|);
            DecompressRaw(c, WithStream(c, level, m, stream), HeaderSize(m)) ==
            if out.Err? then Err(Inflate)
            else if c.crc(out.value) != c.crc(m.payload) then Err(CrcMismatch)
            else Ok(out.value)
  {
    hide HeaderOf, Trailer, ReadU32;
    var raw, t := WithStream(c, level, m, stream), HeaderSize(m) + |stream|;
    TrailerFields(c, m);
    assert raw[t..] == Trailer(c, m);
    assert raw[t + 4..] == Trailer(c, m)[4..];
    assert raw[HeaderSize(m)..t] == stream;
  }

  // --- The simple decoder ---

  /** The simple decoder delivers a data block from a member with this extra field exactly when the ZC
      covers header and trailer, the stream is all there and inflates into a buffer of the trailer's size
      (at least one byte), and the CRC matches. */
  lemma DecodedIff(c: Codec, s: Bytes, h: nat, e: Extra, d: Bytes)
    requires h <= |s| && DetermineBlockType(e.gc, e.ix) != Idx
    ensures var size := if e.gc.Some? then 32 else 20; var t := h + e.zc - size - 8;
            DecodeBody(c, s, h, e).result == Ok(Some(Decoded(d, DetermineBlockType(e.gc, e.ix), e.zc))) <==>
              && size + 8 <= e.zc && t + 8 <= |s|
              && c.inflate(s[h..t], Max(Number4(s, t + 4), 1)) == Ok(d)
              && c.crc(d) == Number4(s, t)
  {
    hide Number4, ReadU32;
    var size := if e.gc.Some? then 32 else 20;
    var t := h + e.zc - size - 8;
    if size + 8 <= e.zc && t + 8 <= |s| {
      ReadsDigits(s, t);
      ReadsDigits(s, t + 4);
    }
  }

  /** And everything else is an error of its own kind; an IDX is only measured, not inflated. */
  lemma DecodeOutcomes(c: Codec, s: Bytes, h: nat, e: Extra)
    requires h <= |s|
    ensures var size := if e.ix.Some? then 24 + 8 * |e.ix.value| else if e.gc.Some? then 32 else 20;
            var t := h + e.zc - size - 8; var r := DecodeBody(c, s, h, e).result;
            && (e.zc < size + 8 <==> r == Err(InvalidFormat))
            && (e.zc >= size + 8 && t + 8 > |s| <==> r == Err(UnexpectedEof))
            && (e.zc >= size + 8 && t + 8 <= |s| ==>
                  if e.ix.Some? then r == Ok(Some(Decoded([], Idx, e.zc)))
                  else
                    var out := c.inflate(s[h..t], Max(Number4(s, t + 4), 1));
                    && (out.Err? ==> r == Err(Inflate))
                    && (out.Ok? && c.crc(out.value) != Number4(s, t) ==> r == Err(CrcMismatch)))
  {
    hide Number4, ReadU32;
    var size := if e.ix.Some? then 24 + 8 * |e.ix.value| else if e.gc.Some? then 32 else 20;
    var t := h + e.zc - size - 8;
    if size + 8 <= e.zc && t + 8 <= |s| {
      ReadsDigits(s, t);
      ReadsDigits(s, t + 4);
    }
  }

  // --- A damaged member of one byte ---

  /** Inflates by copying, with the first byte as CRC. */
  const COPYING: Codec := Codec((l, d) => d, (s, n) => Ok(s), d => if d == [] then 0 else d[0])

  /** A stored one-byte block whose stream byte changed from 7 to 8: an error, not the byte 8. */
  lemma OneByteDamaged()
    ensures DecompressRaw(COPYING, WithStream(COPYING, 0, Data(None, [7]), [7]), 20) == Ok([7])
    ensures DecompressRaw(COPYING, WithStream(COPYING, 0, Data(None, [7]), [8]), 20) == Err(CrcMismatch)
  {
    hide DecompressRaw, WithStream;
    DamagedStream(COPYING, 0, Data(None, [7]), [7]);
    DamagedStream(COPYING, 0, Data(None, [7]), [8]);
  }
}
