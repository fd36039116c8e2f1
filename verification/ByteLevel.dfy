/** The format byte by byte: what the builders write and what the readers accept, with every offset,
    constant and byte order written out (src/constants.rs, sections 2.3 and 2.3.1.1 of RFC 1952). */
module ByteLevel {
  import opened Prelude
  import opened LittleEndian
  import opened Format
  import opened ExtraField
  import opened Container
  import opened RawMember
  import opened IndexSpec
  import opened Reader

  // --- What is written ---

  lemma LeDigits(zc: u32, gc: u64, x: u16)
    ensures Number2(LeU16(x), 0) == x && Number4(LeU32(zc), 0) == zc && Number8(LeU64(gc), 0) == gc
  {
    hide Number2, Number4, Number8, LeU16, LeU32, LeU64, ReadU16, ReadU32, ReadU64;
    ReadLeU16(x, []);
    ReadLeU32(zc, []);
    ReadLeU64(gc, []);
    assert LeU16(x) + [] == LeU16(x) == LeU16(x)[0..];
    assert LeU32(zc) + [] == LeU32(zc) == LeU32(zc)[0..];
    assert LeU64(gc) + [] == LeU64(gc) == LeU64(gc)[0..];
    ReadsDigits(LeU16(x), 0);
    ReadsDigits(LeU32(zc), 0);
    ReadsDigits(LeU64(gc), 0);
  }

  /** A number does not depend on what stands around it. */
  lemma Inside(s: Bytes, a: Bytes, i: nat)
    requires i + |a| <= |s| && s[i..i + |a|] == a
    ensures |a| == 2 ==> Number2(s, i) == Number2(a, 0)
    ensures |a| == 4 ==> Number4(s, i) == Number4(a, 0)
    ensures |a| == 8 ==> Number8(s, i) == Number8(a, 0)
  {
    forall j | 0 <= j < |a|
      ensures s[i + j] == a[j]
    {
      assert s[i..i + |a|][j] == s[i + j];
    }
  }

  /** The common front of all headers, taken apart. */
  lemma Front(a: Bytes, x: Bytes, t: Bytes, l: Bytes, v: Bytes, rest: Bytes)
    requires |a| == 10 && |x| == 2 && |t| == 2 && |l| == 2 && |v| == 4
    ensures var h := a + x + (t + l + v) + rest;
            h[..10] == a && h[10..12] == x && h[12..16] == t + l && h[16..20] == v && h[20..] == rest
  {
    var h := a + x + (t + l + v) + rest;
    assert h == a + (x + ((t + l) + (v + rest)));
    assert h[0..] == h && h[0..10] == h[..10];
    Lead(h, 0, a, x + ((t + l) + (v + rest)));
    Lead(h, 10, x, (t + l) + (v + rest));
    Lead(h, 12, t + l, v + rest);
    Lead(h, 16, v, rest);
  }

  /** What stands at i, and what follows it. */
  lemma Lead(h: Bytes, i: nat, p: Bytes, q: Bytes)
    requires i <= |h| && h[i..] == p + q
    ensures |h| == i + |p| + |q| && h[i..i + |p|] == p && h[i + |p|..] == q
  {
    assert h[i..i + |p|] == h[i..][..|p|];
    DropDrop(h, i, |p|);
  }

  lemma Back(h: Bytes, t: Bytes, l: Bytes, v: Bytes)
    requires |h| >= 20 && h[20..] == t + l + v && |t| == 2 && |l| == 2
    ensures h[20..22] == t && h[22..24] == l && h[24..] == v
  {
    SeqAssoc(t, l, v);
    Lead(h, 20, t, l + v);
    Lead(h, 22, l, v);
  }

  lemma FrontBytes(h: Bytes, xlen: u16, zc: u32, rest: Bytes)
    requires h == Common(xlen, zc) + rest
    ensures |h| == 20 + |rest| && h[20..] == rest
    ensures h[..10] == [0x1f, 0x8b, 8, 4, 0, 0, 0, 0, 0xAA, 3]
    ensures h[10..12] == LeU16(xlen) && h[12..16] == [0x5A, 0x43, 4, 0] && Number2(h, 10) == xlen && Number4(h, 16) == zc
  {
    hide Number2, Number4, LeU16, LeU32;
    assert TAG_ZC + LeU16(4) == [0x5A, 0x43, 4, 0] by { SmallLe(4); }
    Front(GZIP_BASE, LeU16(xlen), TAG_ZC, LeU16(4), LeU32(zc), rest);
    LeDigits(zc, 0, xlen);
    Inside(h, LeU16(xlen), 10);
    Inside(h, LeU32(zc), 16);
  }

  lemma BegBytes(zc: u32, gc: u64)
    ensures var h := BegHeader(zc, gc);
            && |h| == 32
            && h[..10] == [0x1f, 0x8b, 8, 4, 0, 0, 0, 0, 0xAA, 3] && h[10..12] == [20, 0]
            && h[12..16] == [0x5A, 0x43, 4, 0] && Number4(h, 16) == zc
            && h[20..22] == [0x47, 0x43] && h[22..24] == [8, 0]
            && Number8(h, 24) == gc
  {
    hide Number2, Number4, Number8, LeU16, LeU32, LeU64;
    var h := BegHeader(zc, gc);
    FrontBytes(h, 20, zc, Subfield(TAG_GC, LeU64(gc)));
    SmallLe(20);
    SmallLe(8);
    Back(h, TAG_GC, LeU16(8), LeU64(gc));
    LeDigits(0, gc, 0);
    Inside(h, LeU64(gc), 24);
  }

  lemma SmallLe(x: u16)
    requires x < 256
    ensures LeU16(x) == [x, 0]
  {
    assert Le(1, 0) == [0] + Le(0, 0);
  }

  lemma DatBytes(zc: u32)
    ensures var h := DatHeader(zc);
            && |h| == 20
            && h[..10] == [0x1f, 0x8b, 8, 4, 0, 0, 0, 0, 0xAA, 3] && h[10..12] == [8, 0]
            && h[12..16] == [0x5A, 0x43, 4, 0] && Number4(h, 16) == zc
  {
    hide Number2, Number4, LeU16, LeU32, Subfield;
    var h := DatHeader(zc);
    assert h == Common(8, zc) + [];
    FrontBytes(h, 8, zc, []);
    SmallLe(8);
  }

  lemma IdxBytes(zc: u32, es: seq<IndexEntry>)
    ensures var h := IdxHeader(zc, es);
            && |h| == 24 + 8 * |es|
            && h[..10] == [0x1f, 0x8b, 8, 4, 0, 0, 0, 0, 0xAA, 3]
            && Number2(h, 10) == (12 + 8 * |es|) % 0x1_0000
            && h[12..16] == [0x5A, 0x43, 4, 0] && Number4(h, 16) == zc
            && h[20..22] == [0x49, 0x58] && Number2(h, 22) == 8 * |es| % 0x1_0000
            && h[24..] == IxData(es)
  {
    hide Number2, Number4, LeU16, LeU32, IxData;
    var h := IdxHeader(zc, es);
    var x, y := (12 + 8 * |es|) % U16, |IxData(es)| % U16;
    FrontBytes(h, x, zc, Subfield(TAG_IX, IxData(es)));
    Back(h, TAG_IX, LeU16(y), IxData(es));
    LeDigits(zc, 0, y);
    Inside(h, LeU16(y), 22);
  }

  /** Entry i stands at 8i, the compressed size first. */
  lemma {:induction false} IxBytes(es: seq<IndexEntry>, i: nat)
    requires i < |es|
    ensures Number4(IxData(es), 8 * i) == es[i].compressedSize && Number4(IxData(es), 8 * i + 4) == es[i].uncompressedSize
    decreases |es|
  {
    hide Number4, LeU32, IxData;
    var n := |es| - 1;
    assert es[..n + 1] == es;
    IxDataSnoc(es, n);
    if i < n {
      IxBytes(es[..n], i);
      SameNumber(IxData(es[..n]), LeU32(es[n].compressedSize) + LeU32(es[n].uncompressedSize), 8 * i);
      SameNumber(IxData(es[..n]), LeU32(es[n].compressedSize) + LeU32(es[n].uncompressedSize), 8 * i + 4);
      SeqAssoc(IxData(es[..n]), LeU32(es[n].compressedSize), LeU32(es[n].uncompressedSize));
    } else {
      LastEntry(IxData(es[..n]), es[n]);
    }
  }

  lemma SameNumber(s: Bytes, t: Bytes, i: nat)
    requires i + 4 <= |s|
    ensures Number4(s + t, i) == Number4(s, i)
  {
  }

  lemma LastEntry(s: Bytes, e: IndexEntry)
    ensures var d := s + LeU32(e.compressedSize) + LeU32(e.uncompressedSize);
            Number4(d, |s|) == e.compressedSize && Number4(d, |s| + 4) == e.uncompressedSize
  {
    hide Number4, LeU32;
    var a, b := LeU32(e.compressedSize), LeU32(e.uncompressedSize);
    var d := s + a + b;
    SeqAssoc(s, a, b);
    assert d[|s|..] == a + b;
    assert b + [] == b;
    Lead(d, |s|, a, b);
    Lead(d, |s| + 4, b, []);
    LeDigits(e.compressedSize, 0, 0);
    LeDigits(e.uncompressedSize, 0, 0);
    Inside(d, LeU32(e.compressedSize), |s|);
    Inside(d, LeU32(e.uncompressedSize), |s| + 4);
  }

  /** A data member ends with its CRC and its size, an IDX with eight zeros. */
  lemma TrailerBytes(c: Codec, m: Member)
    ensures |Trailer(c, m)| == 8
    ensures m.Data? ==> Number4(Trailer(c, m), 0) == c.crc(m.payload) && Number4(Trailer(c, m), 4) == |m.payload| % 0x1_0000_0000
    ensures m.Index? ==> Trailer(c, m) == [0, 0, 0, 0, 0, 0, 0, 0]
  {
    hide Number4, LeU32;
    if m.Data? {
      var e := IndexEntry(c.crc(m.payload), |m.payload| % U32);
      LastEntry([], e);
      assert [] + LeU32(e.compressedSize) == LeU32(e.compressedSize);
    }
  }

  /** Every member is a gzip member (section 2.3 of RFC 1952) on its own: behind a gzip header with an extra
      field comes a stream that inflates to the block, or to nothing for an IDX, and then the size of
      that, after its CRC. So any gzip reader gets the data, block by block. */
  lemma GzipMember(c: Codec, cfg: Config, m: Member)
    requires Lawful(c, cfg) && Readable(c, cfg.level, m)
    ensures var s := Image(c, cfg.level, m); var block := if m.Data? then m.payload else [];
            && GzipAt(s, 0) && s[3] == 4 && |s| >= 12
            && var h := 12 + Number2(s, 10);
               && h + 8 <= |s| && c.inflate(s[h..|s| - 8], |block|) == Ok(block)
               && Number4(s, |s| - 4) == |block|
               && Number4(s, |s| - 8) == if m.Data? then c.crc(block) else 0
  {
    hide Image, HeaderOf, Trailer, Number2, Number4, Body, ReadU16, SizeOf;
    var s, h, zc := Image(c, cfg.level, m), HeaderSize(m), SizeOf(c, cfg.level, m);
    assert s + [] == s;
    MemberParts(c, cfg.level, m, []);
    HeaderFieldsOf(m, zc, s, h);
    InflatesTo(c, cfg, m);
    var t := Trailer(c, m);
    TrailerBytes(c, m);
    ZeroNumber();
    TailNumbers(s, t);
  }

  lemma TailNumbers(s: Bytes, t: Bytes)
    requires |t| == 8 && |s| >= 8 && s[|s| - 8..|s|] == t
    ensures Number4(s, |s| - 8) == Number4(t, 0) && Number4(s, |s| - 4) == Number4(t, 4)
  {
    forall j | 0 <= j < 8
      ensures s[|s| - 8 + j] == t[j]
    {
      assert s[|s| - 8..|s|][j] == s[|s| - 8 + j];
    }
  }

  lemma ZeroNumber()
    ensures Number4([0, 0, 0, 0, 0, 0, 0, 0], 0) == 0 && Number4([0, 0, 0, 0, 0, 0, 0, 0], 4) == 0
  {
  }

  lemma HeaderFieldsOf(m: Member, zc: u32, s: Bytes, h: nat)
    requires h == HeaderSize(m) && 12 <= h <= |s| && s[..h] == HeaderOf(m, zc) && (m.Index? ==> 1 <= |m.entries| <= MAX_GROUP)
    ensures GzipAt(s, 0) && s[3] == 4 && Number2(s, 10) == h - 12
  {
    hide HeaderOf, Number2, ReadU16;
    HeaderFields(m, zc);
    HeaderMagic(m, zc);
    SlicesOfPrefix(s, HeaderOf(m, zc), h);
    ReadsDigits(s, 10);
    var base := s[..10];
    assert base == GZIP_BASE;
    assert s[0] == base[0] && s[1] == base[1] && s[2] == base[2] && s[3] == base[3];
  }

  lemma InflatesTo(c: Codec, cfg: Config, m: Member)
    requires Lawful(c, cfg) && Readable(c, cfg.level, m)
    ensures var block := if m.Data? then m.payload else [];
            c.inflate(Body(c, cfg.level, m), |block|) == Ok(block)
    ensures m.Data? ==> |m.payload| < U32
  {
  }

  // --- What is accepted ---

  /** Ten bytes that every reader but the raw one asks for. */
  predicate GzipAt(file: Bytes, pos: nat) {
    pos + 10 <= |file| && file[pos] == 0x1f && file[pos + 1] == 0x8b && file[pos + 2] == 8
  }

  lemma ValidIff(h: Bytes)
    requires |h| >= 10
    ensures ValidateGzipHeader(h).Ok? <==> GzipAt(h, 0)
    ensures GzipAt(h, 0) ==> ValidateGzipHeader(h) == Ok((h[3], h[8]))
    ensures !GzipAt(h, 0) ==> ValidateGzipHeader(h).error == if h[0] == 0x1f && h[1] == 0x8b then InvalidFormat else InvalidGzipMagic
  {
  }

  /** The third bit of the flags and the marker make a PGZF member. */
  lemma MarkedIff(flg: byte, xfl: byte)
    ensures IsPgzfMember(flg, xfl) <==> (flg % 8 >= 4 && xfl == 0xAA)
  {
  }

  /** Opening tells the two formats apart by the first ten bytes, on any file. */
  lemma HeaderCheckIff(file: Bytes)
    ensures HeaderCheck(file) == Ok(true) <==> GzipAt(file, 0) && file[3] % 8 >= 4 && file[8] == 0xAA
    ensures HeaderCheck(file) == Ok(false) <==> GzipAt(file, 0) && !(file[3] % 8 >= 4 && file[8] == 0xAA)
    ensures |file| < 10 <==> HeaderCheck(file) == Err(UnexpectedEof)
  {
    hide ValidateGzipHeader, IsPgzfMember;
    if |file| >= 10 {
      ValidIff(file[..10]);
      MarkedIff(file[3], file[8]);
    }
  }

  /** One turn of the index loop takes a group exactly when these bytes are there, on any file. */
  predicate GroupThere(file: Bytes, pos: nat) {
    && GzipAt(file, pos) && pos + 32 <= |file| && file[pos + 3] % 8 >= 4 && file[pos + 8] == 0xAA
    && Number8(file, pos + 24) != 0
    && var p := pos + Number8(file, pos + 24);
       && p < U64 && p + 24 <= |file| && GzipAt(file, p) && file[p + 8] == 0xAA
       && 12 <= Number2(file, p + 10) && p + 12 + Number2(file, p + 10) <= |file|
  }

  /** Every other outcome of a turn: the quiet end, at less than 32 bytes or a GC of 0, and the errors. */
  lemma TurnOutcomes(file: Bytes, pos: nat)
    ensures pos + 32 > |file| ==> GroupAt(file, pos) == Finished
    ensures pos + 32 <= |file| && !GzipAt(file, pos) ==> GroupAt(file, pos).Bad?
    ensures pos + 32 <= |file| && GzipAt(file, pos) && !(file[pos + 3] % 8 >= 4 && file[pos + 8] == 0xAA) ==>
              GroupAt(file, pos) == Bad(InvalidFormat)
    ensures pos + 32 <= |file| && GzipAt(file, pos) && file[pos + 3] % 8 >= 4 && file[pos + 8] == 0xAA ==>
              var p := pos + Number8(file, pos + 24);
              && (p == pos ==> GroupAt(file, pos) == Finished)
              && (p > pos && p >= U64 ==> GroupAt(file, pos) == Bad(Panic))
              && (pos < p < U64 && p + 24 > |file| ==> GroupAt(file, pos) == Bad(UnexpectedEof))
              && (pos < p < U64 && p + 24 <= |file| && !GzipAt(file, p) ==> GroupAt(file, pos).Bad?)
              && (pos < p < U64 && p + 24 <= |file| && GzipAt(file, p) && (file[p + 8] != 0xAA || Number2(file, p + 10) < 12) ==>
                    GroupAt(file, pos) == Bad(InvalidFormat))
              && (pos < p < U64 && p + 24 <= |file| && GzipAt(file, p) && file[p + 8] == 0xAA && Number2(file, p + 10) >= 12
                    && p + 12 + Number2(file, p + 10) > |file| ==>
                    GroupAt(file, pos) == Bad(UnexpectedEof))
  {
    hide ValidateGzipHeader, IsPgzfMember, ReadU64, IdxFrom, Number2, Number8;
    if pos + 32 <= |file| {
      ReadsDigits(file, pos + 24);
      var h := file[pos..pos + 32];
      assert h[0] == file[pos] && h[1] == file[pos + 1] && h[2] == file[pos + 2] && h[3] == file[pos + 3] && h[8] == file[pos + 8];
      ValidIff(h);
      MarkedIff(h[3], h[8]);
      var gc := ReadU64(file[pos + 24..]);
      if gc != 0 && pos + gc < U64 { IdxOutcomes(file, pos + gc, gc); }
    }
  }

  lemma IdxOutcomes(file: Bytes, p: nat, gc: u64)
    ensures p + 24 > |file| ==> IdxFrom(file, p, gc) == Bad(UnexpectedEof)
    ensures p + 24 <= |file| && !GzipAt(file, p) ==> IdxFrom(file, p, gc).Bad?
    ensures p + 24 <= |file| && GzipAt(file, p) && (file[p + 8] != 0xAA || Number2(file, p + 10) < 12) ==>
              IdxFrom(file, p, gc) == Bad(InvalidFormat)
    ensures p + 24 <= |file| && GzipAt(file, p) && file[p + 8] == 0xAA && Number2(file, p + 10) >= 12
            && p + 12 + Number2(file, p + 10) > |file| ==>
              IdxFrom(file, p, gc) == Bad(UnexpectedEof)
  {
    hide ValidateGzipHeader, ReadU16, ReadU32, EntriesOf, Number2;
    if p + 24 <= |file| {
      var h := file[p..p + 24];
      assert h[0] == file[p] && h[1] == file[p + 1] && h[2] == file[p + 2] && h[8] == file[p + 8];
      ValidIff(h);
      ReadsDigits(file, p + 10);
      Window(file, p, 24, 10, 2);
      assert h[10..12] == h[10..][..2];
      SameReads(h[10..], file[p + 10..]);
    }
  }

  lemma GroupIff(file: Bytes, pos: nat)
    ensures GroupAt(file, pos).Group? <==> GroupThere(file, pos)
    ensures GroupThere(file, pos) ==>
              var g := GroupAt(file, pos); var p := pos + Number8(file, pos + 24);
              && g.gc == Number8(file, pos + 24) && g.idxZc == Number4(file, p + 16)
              && |g.entries| == (Number2(file, p + 10) - 12) / 8
  {
    hide ValidateGzipHeader, IsPgzfMember, ReadU64, ReadU16, ReadU32, EntriesOf, IdxFrom, Number2, Number4, Number8;
    if pos + 32 <= |file| {
      ReadsDigits(file, pos + 24);
      var h := file[pos..pos + 32];
      assert h[0] == file[pos] && h[1] == file[pos + 1] && h[2] == file[pos + 2] && h[3] == file[pos + 3] && h[8] == file[pos + 8];
      ValidIff(h);
      MarkedIff(h[3], h[8]);
      var gc := ReadU64(file[pos + 24..]);
      if gc != 0 && pos + gc < U64 { IdxIff(file, pos + gc, gc); }
    }
  }

  lemma IdxIff(file: Bytes, p: nat, gc: u64)
    ensures var r := IdxFrom(file, p, gc);
            && (r.Group? <==>
                  && p + 24 <= |file| && GzipAt(file, p) && file[p + 8] == 0xAA
                  && 12 <= Number2(file, p + 10) && p + 12 + Number2(file, p + 10) <= |file|)
            && (r.Group? ==> r.gc == gc && r.idxZc == Number4(file, p + 16) && |r.entries| == (Number2(file, p + 10) - 12) / 8)
  {
    hide ValidateGzipHeader, ReadU16, ReadU32, EntriesOf, Number2, Number4;
    if p + 24 <= |file| {
      var h := file[p..p + 24];
      assert h[0] == file[p] && h[1] == file[p + 1] && h[2] == file[p + 2] && h[8] == file[p + 8];
      ValidIff(h);
      ReadsDigits(file, p + 10);
      ReadsDigits(file, p + 16);
      Window(file, p, 24, 10, 2);
      Window(file, p, 24, 16, 4);
      assert h[10..12] == h[10..][..2] && h[16..20] == h[16..][..4];
      SameReads(h[10..], file[p + 10..]);
      SameReads(h[16..], file[p + 16..]);
    }
  }

  /** And entry i of that group is read from the eight bytes at 24 + 8i of its IDX. */
  lemma {:induction false} EntriesThere(data: Bytes, i: nat)
    requires |data| % 8 == 0 && 8 * i < |data|
    ensures i < |EntriesOf(data)| && 8 * i + 8 <= |data|
    ensures EntriesOf(data)[i] == IndexEntry(Number4(data, 8 * i), Number4(data, 8 * i + 4))
    decreases |data|
  {
    hide ReadU32, Number4;
    var n := |data| - 8;
    EntriesLast(data);
    if 8 * i < n {
      EntriesThere(data[..n], i);
      assert data == data[..n] + data[n..];
      SameNumber(data[..n], data[n..], 8 * i);
      SameNumber(data[..n], data[n..], 8 * i + 4);
    } else {
      ReadsDigits(data, n);
      ReadsDigits(data, n + 4);
    }
  }

  /** Header and extra field are all there. */
  predicate HeaderThere(s: Bytes) {
    |s| >= 12 && 12 + Number2(s, 10) <= |s|
  }

  /** Every outcome of the raw reader, by the bytes: a member is taken when its ZC is at least the size of
      its header, at most 2^30, and all there. A ZC of 0 ends the file, one above 2^30 is refused, one
      below the header's size panics. A block is counted as soon as its extra field says it is one. The
      magic bytes are never looked at. */
  lemma RawOutcomes(s: Bytes)
    ensures var r := ParseRaw(s).result;
            && (|s| < 10 ==> r == End)
            && (|s| >= 10 && !HeaderThere(s) ==> r == Failed(UnexpectedEof))
            && (HeaderThere(s) ==>
                  var h := 12 + Number2(s, 10); var fs := Fields(s[12..h]); var zc := Interpret(fs).zc;
                  r == if zc == 0 then End
                       else if zc > 0x4000_0000 then Failed(InvalidFormat)
                       else if zc < h then Panicked
                       else if zc > |s| then Failed(UnexpectedEof)
                       else Block(s[..zc], h, RawType(fs)))
    ensures ParseRaw(s).counted <==> HeaderThere(s) && RawType(Fields(s[12..12 + Number2(s, 10)])) != Idx
  {
    hide ReadU16, Number2, Interpret, Fields, RawType;
    if |s| >= 12 { ReadsDigits(s, 10); }
  }

  /** A subfield with an IX tag, of any size, makes an IDX; else one with a GC tag a BEG. */
  lemma RawTypeIff(fs: seq<Field>)
    ensures RawType(fs) == Idx <==> exists i :: 0 <= i < |fs| && fs[i].tag == [0x49, 0x58]
    ensures RawType(fs) == Beg <==> (forall i :: 0 <= i < |fs| ==> fs[i].tag != [0x49, 0x58]) &&
                                    exists i :: 0 <= i < |fs| && fs[i].tag == [0x47, 0x43]
  {
    assert HasTag(fs, TAG_IX) <==> exists i :: 0 <= i < |fs| && fs[i].tag == [0x49, 0x58];
    assert HasTag(fs, TAG_GC) <==> exists i :: 0 <= i < |fs| && fs[i].tag == [0x47, 0x43];
  }

  /** The simple decoder goes on to the stream exactly behind a marked gzip header and a complete extra
      field; anything else is an error, or the end of the file below ten bytes. */
  lemma DecodeNeeds(c: Codec, s: Bytes)
    ensures |s| < 10 <==> DecodeMember(c, s).result == Ok(None)
    ensures DecodeMember(c, s).result.Ok? && |s| >= 10 ==>
              && GzipAt(s, 0) && s[3] % 8 >= 4 && s[8] == 0xAA && |s| >= 12 && 12 + Number2(s, 10) <= |s|
              && var h := 12 + Number2(s, 10); DecodeMember(c, s) == DecodeBody(c, s, h, Interpret(Fields(s[12..h])))
  {
    hide ReadU16, Number2, Interpret, Fields, ValidateGzipHeader, IsPgzfMember, ParseExtra;
    if |s| >= 10 {
      ValidIff(s[..10]);
      MarkedIff(s[3], s[8]);
      if |s| >= 12 {
        ReadsDigits(s, 10);
        if 12 + ReadU16(s[10..]) <= |s| { ExtraAt(s, 12 + ReadU16(s[10..])); }
      }
    }
  }

  lemma ExtraAt(s: Bytes, h: nat)
    requires 12 <= h <= |s| && ReadU16(s[10..]) == h - 12
    ensures ParseExtra(s[10..h], true) == Ok(Interpret(Fields(s[12..h])))
    ensures ParseExtra(s[10..h], false) == Ok(Extra(0, None, None))
  {
    hide Interpret, Fields;
    DecodeExtra(s, h);
    Window(s, 10, h - 10, 0, 2);
    assert s[10..h][0..2] == s[10..h][..2];
  }

  // --- Extra fields of any kind ---

  function Written(fs: seq<Field>): Bytes
    requires forall i :: 0 <= i < |fs| ==> |fs[i].tag| == 2
  {
    if fs == [] then [] else Subfield(fs[0].tag, fs[0].data) + Written(fs[1..])
  }

  /** Any list of subfields, known and unknown, is read back in order; what follows is ignored when it is
      not a whole subfield. */
  lemma {:induction false} FieldsRoundTrip(fs: seq<Field>, tail: Bytes)
    requires forall i :: 0 <= i < |fs| ==> |fs[i].tag| == 2 && |fs[i].data| < 0x1_0000
    requires |tail| < 4 || 4 + Number2(tail, 2) > |tail|
    ensures Fields(Written(fs) + tail) == fs
    decreases |fs|
  {
    if fs == [] {
      assert Written(fs) + tail == tail;
      if |tail| >= 4 { ReadsDigits(tail, 2); }
    } else {
      hide Fields, Subfield;
      FieldsRoundTrip(fs[1..], tail);
      FieldsCons(fs[0].tag, fs[0].data, Written(fs[1..]) + tail);
      SeqAssoc(Subfield(fs[0].tag, fs[0].data), Written(fs[1..]), tail);
      assert fs == [fs[0]] + fs[1..];
    }
  }

  predicate SizedZc(f: Field) { f.tag == [0x5A, 0x43] && |f.data| >= 4 }
  predicate SizedGc(f: Field) { f.tag == [0x47, 0x43] && |f.data| >= 8 }
  predicate SizedIx(f: Field) { f.tag == [0x49, 0x58] && |f.data| >= 8 && |f.data| % 8 == 0 }

  /** A subfield that is not well sized for a kind does not change what is reported of that kind. */
  lemma Skipped(fs: seq<Field>, f: Field)
    ensures !SizedZc(f) ==> Interpret(fs + [f]).zc == Interpret(fs).zc
    ensures !SizedGc(f) ==> Interpret(fs + [f]).gc == Interpret(fs).gc
    ensures !SizedIx(f) ==> Interpret(fs + [f]).ix == Interpret(fs).ix
  {
    hide ReadU32, ReadU64, EntriesOf, Interpret;
    InterpretSnoc(fs, f);
  }

  ghost predicate NoneAfter(fs: seq<Field>, i: nat, kind: Field -> bool) {
    forall j :: i <= j < |fs| ==> !kind(fs[j])
  }

  lemma NoneBefore(fs: seq<Field>, i: nat, kind: Field -> bool)
    requires i < |fs| && NoneAfter(fs, i, kind)
    ensures var n := |fs| - 1; NoneAfter(fs[..n], i, kind) && !kind(fs[n]) && fs[..n] + [fs[n]] == fs && fs[..n][..i] == fs[..i]
  {
  }

  lemma {:induction false} Untouched(fs: seq<Field>, i: nat)
    requires i <= |fs|
    ensures NoneAfter(fs, i, SizedZc) ==> Interpret(fs).zc == Interpret(fs[..i]).zc
    ensures NoneAfter(fs, i, SizedGc) ==> Interpret(fs).gc == Interpret(fs[..i]).gc
    ensures NoneAfter(fs, i, SizedIx) ==> Interpret(fs).ix == Interpret(fs[..i]).ix
    decreases |fs|
  {
    hide SizedZc, SizedGc, SizedIx, Interpret, NoneAfter;
    if i == |fs| {
      assert fs[..i] == fs;
    } else {
      var n := |fs| - 1;
      Untouched(fs[..n], i);
      Skipped(fs[..n], fs[n]);
      assert fs[..n] + [fs[n]] == fs && fs[..n][..i] == fs[..i];
      if NoneAfter(fs, i, SizedZc) { NoneBefore(fs, i, SizedZc); }
      if NoneAfter(fs, i, SizedGc) { NoneBefore(fs, i, SizedGc); }
      if NoneAfter(fs, i, SizedIx) { NoneBefore(fs, i, SizedIx); }
    }
  }

  /** The last well-sized subfield of a kind counts: its first four or eight bytes, or all its entries. */
  lemma LastCounts(fs: seq<Field>, i: nat)
    requires i < |fs|
    ensures SizedZc(fs[i]) && (forall j :: i < j < |fs| ==> !SizedZc(fs[j])) ==> Interpret(fs).zc == Number4(fs[i].data, 0)
    ensures SizedGc(fs[i]) && (forall j :: i < j < |fs| ==> !SizedGc(fs[j])) ==> Interpret(fs).gc == Some(Number8(fs[i].data, 0))
    ensures SizedIx(fs[i]) && (forall j :: i < j < |fs| ==> !SizedIx(fs[j])) ==> Interpret(fs).ix == Some(EntriesOf(fs[i].data))
  {
    hide SizedZc, SizedGc, SizedIx, Interpret, Number4, Number8, EntriesOf;
    Untouched(fs, i + 1);
    assert (forall j :: i < j < |fs| ==> !SizedZc(fs[j])) ==> NoneAfter(fs, i + 1, SizedZc);
    assert (forall j :: i < j < |fs| ==> !SizedGc(fs[j])) ==> NoneAfter(fs, i + 1, SizedGc);
    assert (forall j :: i < j < |fs| ==> !SizedIx(fs[j])) ==> NoneAfter(fs, i + 1, SizedIx);
    TakesItIn(fs[..i], fs[i]);
    assert fs[..i + 1] == fs[..i] + [fs[i]];
  }

  lemma TakesItIn(fs: seq<Field>, f: Field)
    ensures SizedZc(f) ==> Interpret(fs + [f]).zc == Number4(f.data, 0)
    ensures SizedGc(f) ==> Interpret(fs + [f]).gc == Some(Number8(f.data, 0))
    ensures SizedIx(f) ==> Interpret(fs + [f]).ix == Some(EntriesOf(f.data))
  {
    hide ReadU32, ReadU64, Number4, Number8, EntriesOf, Interpret;
    InterpretSnoc(fs, f);
    assert f.data[0..] == f.data;
    ReadsDigits(f.data, 0);
  }

  /** Without one nothing is reported, and ZC is 0. */
  lemma NoneCounts(fs: seq<Field>)
    ensures (forall j :: 0 <= j < |fs| ==> !SizedZc(fs[j])) ==> Interpret(fs).zc == 0
    ensures (forall j :: 0 <= j < |fs| ==> !SizedGc(fs[j])) ==> Interpret(fs).gc.None?
    ensures (forall j :: 0 <= j < |fs| ==> !SizedIx(fs[j])) ==> Interpret(fs).ix.None?
  {
    hide SizedZc, SizedGc, SizedIx;
    Untouched(fs, 0);
    assert fs[..0] == [];
    assert (forall j :: 0 <= j < |fs| ==> !SizedZc(fs[j])) ==> NoneAfter(fs, 0, SizedZc);
    assert (forall j :: 0 <= j < |fs| ==> !SizedGc(fs[j])) ==> NoneAfter(fs, 0, SizedGc);
    assert (forall j :: 0 <= j < |fs| ==> !SizedIx(fs[j])) ==> NoneAfter(fs, 0, SizedIx);
  }
}
