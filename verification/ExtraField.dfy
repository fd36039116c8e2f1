/** The two tag-length-value readers of the extra field: `parse_extra_field` (src/format.rs) and
    the inline loop of `read_one_raw_block` (src/reader.rs), with exactly when they agree. */
module ExtraField {
  import opened Prelude
  import opened LittleEndian
  import opened Format

  datatype Field = Field(tag: Bytes, data: Bytes)
  datatype Extra = Extra(zc: u32, gc: Option<u64>, ix: Option<seq<IndexEntry>>)

  /** The subfields fully contained in `extra`, up to the first one that is cut off. */
  function Fields(extra: Bytes): (fs: seq<Field>)
    decreases |extra|
  {
    if |extra| < 4 then []
    else
      var slen := ReadU16(extra[2..]);
      if 4 + slen > |extra| then []
      else [Field(extra[..2], extra[4..4 + slen])] + Fields(extra[4 + slen..])
  }

  /** IX data as entries, eight bytes each. */
  function EntriesOf(data: Bytes): (es: seq<IndexEntry>)
    requires |data| % 8 == 0
    ensures 8 * |es| == |data|
  {
    if data == [] then []
    else
      var n := |data| - 8;
      EntriesOf(data[..n]) + [IndexEntry(ReadU32(data[n..]), ReadU32(data[n + 4..]))]
  }

  lemma EntriesLast(data: Bytes)
    requires |data| % 8 == 0 && |data| >= 8
    ensures var n := |data| - 8;
            EntriesOf(data) == EntriesOf(data[..n]) + [IndexEntry(ReadU32(data[n..]), ReadU32(data[n + 4..]))]
  {
    hide ReadU32;
  }

  lemma TwoReads(init: Bytes, x: u32, y: u32)
    ensures var d := init + LeU32(x) + LeU32(y); var n := |init|;
            d[..n] == init && ReadU32(d[n..]) == x && ReadU32(d[n + 4..]) == y
  {
    hide LeU32, ReadU32;
    var d := init + LeU32(x) + LeU32(y);
    assert d[|init|..] == LeU32(x) + LeU32(y);
    assert d[|init| + 4..] == LeU32(y) + [];
    ReadLeU32(x, LeU32(y));
    ReadLeU32(y, []);
  }

  lemma {:induction false} EntriesRoundTrip(es: seq<IndexEntry>)
    ensures EntriesOf(IxData(es)) == es
  {
    hide LeU32, ReadU32;
    if es != [] {
      EntriesRoundTrip(es[..|es| - 1]);
      EntriesRoundTripStep(es, |es| - 1);
    }
  }

  lemma EntriesRoundTripStep(es: seq<IndexEntry>, n: nat)
    requires |es| == n + 1 && EntriesOf(IxData(es[..n])) == es[..n]
    ensures EntriesOf(IxData(es)) == es
  {
    hide EntriesOf, IxData, LeU32, ReadU32;
    assert es[..n + 1] == es;
    IxDataSnoc(es, n);
    TwoReads(IxData(es[..n]), es[n].compressedSize, es[n].uncompressedSize);
    EntriesLast(IxData(es));
    assert EntriesOf(IxData(es)) == es[..n] + [es[n]];
  }

  predicate GoodZc(f: Field) { f.tag == TAG_ZC && |f.data| >= 4 }
  predicate GoodGc(f: Field) { f.tag == TAG_GC && |f.data| >= 8 }
  predicate GoodIx(f: Field) { f.tag == TAG_IX && |f.data| >= 8 && |f.data| % 8 == 0 }

  /** A later subfield overrides an earlier one of the same kind; anything else is skipped. */
  function Absorb(e: Extra, f: Field): Extra {
    if GoodZc(f) then e.(zc := ReadU32(f.data))
    else if GoodGc(f) then e.(gc := Some(ReadU64(f.data)))
    else if GoodIx(f) then e.(ix := Some(EntriesOf(f.data)))
    else e
  }

  function Interpret(fs: seq<Field>): Extra {
    if fs == [] then Extra(0, None, None) else Absorb(Interpret(fs[..|fs| - 1]), fs[|fs| - 1])
  }

  function ParseExtra(buf: Bytes, isPgzf: bool): Result<Extra> {
    if |buf| < 2 || |buf| < 2 + ReadU16(buf) then Err(InvalidFormat)
    else if !isPgzf then Ok(Extra(0, None, None))
    else Ok(Interpret(Fields(buf[2..2 + ReadU16(buf)])))
  }

  function DetermineBlockType(gc: Option<u64>, ix: Option<seq<IndexEntry>>): BlockType {
    if ix.Some? then Idx else if gc.Some? then Beg else Dat
  }

  lemma FieldsHead(rest: Bytes)
    requires |rest| >= 4 && 4 + ReadU16(rest[2..]) <= |rest|
    ensures var next := 4 + ReadU16(rest[2..]);
            Fields(rest) == [Field(rest[..2], rest[4..next])] + Fields(rest[next..])
  {
    hide ReadU16;
  }

  lemma FieldsStep(extra: Bytes, off: nat, done: seq<Field>)
    requires off + 4 <= |extra| && off + 4 + ReadU16(extra[off + 2..]) <= |extra|
    requires Fields(extra) == done + Fields(extra[off..])
    ensures var next := off + 4 + ReadU16(extra[off + 2..]);
            Fields(extra) == done + [Field(extra[off..off + 2], extra[off + 4..next])] + Fields(extra[next..])
  {
    hide Fields, ReadU16;
    var rest := extra[off..];
    DropDrop(extra, off, 2);
    var slen: nat := ReadU16(extra[off + 2..]);
    var next := 4 + slen;
    SubfieldAt(extra, off, slen);
    FieldsHead(rest);
    var f, tail := Field(extra[off..off + 2], extra[off + 4..off + next]), Fields(extra[off + next..]);
    assert Fields(rest) == [f] + tail;
    SeqAssoc(done, [f], tail);
  }

  lemma SubfieldAt(extra: Bytes, off: nat, slen: nat)
    requires off + 4 + slen <= |extra|
    ensures extra[off..][..2] == extra[off..off + 2]
    ensures extra[off..][4..4 + slen] == extra[off + 4..off + 4 + slen]
    ensures extra[off..][4 + slen..] == extra[off + 4 + slen..]
  {
    DropSlice(extra, off, 0, 2);
    assert extra[off..][0..2] == extra[off..][..2];
    DropSlice(extra, off, 4, 4 + slen);
    DropDrop(extra, off, 4 + slen);
  }

  lemma FieldsStop(extra: Bytes, off: nat)
    requires off <= |extra|
    requires off + 4 <= |extra| ==> off + 4 + ReadU16(extra[off + 2..]) > |extra|
    ensures Fields(extra[off..]) == []
  {
    if off + 4 <= |extra| { DropDrop(extra, off, 2); }
  }

  method ParseEntries(data: Bytes) returns (entries: seq<IndexEntry>)
    requires |data| % 8 == 0
    ensures entries == EntriesOf(data)
  {
    entries := [];
    var i := 0;
    while i + 8 <= |data|
      invariant i % 8 == 0 && i <= |data|
      invariant entries == EntriesOf(data[..i])
    {
      assert data[..i + 8][..i] == data[..i];
      PrefixWindow(data, i + 8, i, 4);
      PrefixWindow(data, i + 8, i + 4, 4);
      assert data[i..i + 4][..4] == data[i..][..4] && data[i + 4..i + 8][..4] == data[i + 4..][..4];
      entries := entries + [IndexEntry(ReadU32(data[i..i + 4]), ReadU32(data[i + 4..i + 8]))];
      i := i + 8;
    }
    assert data[..i] == data;
  }

  lemma InterpretSnoc(fs: seq<Field>, f: Field)
    ensures Interpret(fs + [f]) == Absorb(Interpret(fs), f)
  {
    assert (fs + [f])[..|fs|] == fs;
  }

  lemma InterpretNone()
    ensures Interpret([]) == Extra(0, None, None)
  {
  }

  method ParseExtraField(buf: Bytes, isPgzf: bool) returns (r: Result<Extra>)
    ensures r == ParseExtra(buf, isPgzf)
  {
    hide Fields, Interpret, EntriesOf, ReadU16;
    if |buf| < 2 { return Err(InvalidFormat); }
    var xlen: nat := ReadU16(buf);
    if |buf| < 2 + xlen { return Err(InvalidFormat); }
    var extra := buf[2..2 + xlen];
    var zc: u32 := 0;
    var gc: Option<u64> := None;
    var ix: Option<seq<IndexEntry>> := None;
    if !isPgzf { return Ok(Extra(zc, gc, ix)); }

    var off := 0;
    ghost var done: seq<Field> := [];
    InterpretNone();
    assert extra[0..] == extra;
    while off + 4 <= |extra|
      invariant off <= |extra|
      invariant Fields(extra) == done + Fields(extra[off..])
      invariant Interpret(done) == Extra(zc, gc, ix)
      decreases |extra| - off
    {
      var tag := extra[off..off + 2];
      var slen: nat := ReadU16(extra[off + 2..]);
      if off + 4 + slen > |extra| {
        FieldsStop(extra, off);
        assert done + [] == done;
        return Ok(Extra(zc, gc, ix));
      }
      FieldsStep(extra, off, done);
      off := off + 4;
      var data := extra[off..off + slen];
      if tag == TAG_ZC && slen >= 4 {
        zc := ReadU32(data);
      } else if tag == TAG_GC && slen >= 8 {
        gc := Some(ReadU64(data));
      } else if tag == TAG_IX && slen >= 8 && slen % 8 == 0 {
        var entries := ParseEntries(data);
        ix := Some(entries);
      }
      InterpretSnoc(done, Field(tag, data));
      done := done + [Field(tag, data)];
      off := off + slen;
    }
    FieldsStop(extra, off);
    assert done + [] == done;
    r := Ok(Extra(zc, gc, ix));
  }

  // --- The second reader: the inline loop of read_one_raw_block ---

  predicate HasTag(fs: seq<Field>, tag: Bytes) {
    exists i :: 0 <= i < |fs| && fs[i].tag == tag
  }

  function RawType(fs: seq<Field>): BlockType {
    if HasTag(fs, TAG_IX) then Idx else if HasTag(fs, TAG_GC) then Beg else Dat
  }

  method ScanTags(extra: Bytes) returns (zc: u32, blockType: BlockType)
    ensures zc == Interpret(Fields(extra)).zc
    ensures blockType == RawType(Fields(extra))
  {
    hide Fields, Interpret, ReadU16;
    zc := 0;
    var hasGc, hasIx := false, false;
    var eoff := 0;
    ghost var done: seq<Field> := [];
    InterpretNone();
    assert extra[0..] == extra;
    while eoff + 4 <= |extra|
      invariant eoff <= |extra|
      invariant Fields(extra) == done + Fields(extra[eoff..])
      invariant Interpret(done).zc == zc
      invariant hasGc == HasTag(done, TAG_GC) && hasIx == HasTag(done, TAG_IX)
      decreases |extra| - eoff
    {
      var tag := extra[eoff..eoff + 2];
      var slen: nat := ReadU16(extra[eoff + 2..]);
      if eoff + 4 + slen > |extra| { break; }
      FieldsStep(extra, eoff, done);
      eoff := eoff + 4;
      ghost var f := Field(tag, extra[eoff..eoff + slen]);
      ScanStep(done, f);
      if tag == TAG_ZC && slen >= 4 {
        zc := ReadU32(extra[eoff..eoff + 4]);
        FrontRead(extra, eoff, slen);
      } else if tag == TAG_GC {
        hasGc := true;
      } else if tag == TAG_IX {
        hasIx := true;
      }
      done := done + [f];
      eoff := eoff + slen;
    }
    FieldsStop(extra, eoff);
    assert done + [] == done;
    blockType := if hasIx then Idx else if hasGc then Beg else Dat;
  }

  lemma FrontRead(extra: Bytes, off: nat, slen: nat)
    requires 4 <= slen && off + slen <= |extra|
    ensures ReadU32(extra[off..off + 4]) == ReadU32(extra[off..off + slen])
  {
    assert extra[off..off + 4][..4] == extra[off..off + slen][..4];
  }

  lemma ScanStep(fs: seq<Field>, f: Field)
    ensures Interpret(fs + [f]).zc == if GoodZc(f) then ReadU32(f.data) else Interpret(fs).zc
    ensures HasTag(fs + [f], TAG_GC) <==> HasTag(fs, TAG_GC) || f.tag == TAG_GC
    ensures HasTag(fs + [f], TAG_IX) <==> HasTag(fs, TAG_IX) || f.tag == TAG_IX
  {
    var all := fs + [f];
    assert all[..|fs|] == fs && all[|fs|] == f;
    assert forall i :: 0 <= i < |fs| ==> all[i] == fs[i];
  }

  // --- Agreement ---

  ghost predicate HasGoodGc(fs: seq<Field>) { exists i :: 0 <= i < |fs| && GoodGc(fs[i]) }
  ghost predicate HasGoodIx(fs: seq<Field>) { exists i :: 0 <= i < |fs| && GoodIx(fs[i]) }

  lemma {:induction false} InterpretKinds(fs: seq<Field>)
    ensures Interpret(fs).gc.Some? <==> HasGoodGc(fs)
    ensures Interpret(fs).ix.Some? <==> HasGoodIx(fs)
  {
    if fs != [] {
      var n := |fs| - 1;
      var init := fs[..n];
      InterpretKinds(init);
      assert forall i :: 0 <= i < n ==> init[i] == fs[i];
      assert HasGoodGc(fs) <==> HasGoodGc(init) || GoodGc(fs[n]);
      assert HasGoodIx(fs) <==> HasGoodIx(init) || GoodIx(fs[n]);
    }
  }

  /** The two loops always give the same ZC. They give the same block type exactly when a
      malformed IX never stands alone and, without any IX, a malformed GC never stands alone. */
  lemma ParsersAgree(extra: Bytes)
    ensures var fs := Fields(extra);
            var e := Interpret(fs);
            DetermineBlockType(e.gc, e.ix) == RawType(fs) <==>
              (HasTag(fs, TAG_IX) ==> HasGoodIx(fs)) &&
              (!HasTag(fs, TAG_IX) && HasTag(fs, TAG_GC) ==> HasGoodGc(fs))
  {
    var fs := Fields(extra);
    InterpretKinds(fs);
    assert HasGoodIx(fs) ==> HasTag(fs, TAG_IX);
    assert HasGoodGc(fs) ==> HasTag(fs, TAG_GC);
  }

  /** In particular on every extra field whose contained GC and IX subfields are all well sized. */
  lemma ParsersAgreeWhenWellSized(extra: Bytes)
    requires forall i :: 0 <= i < |Fields(extra)| ==>
               (Fields(extra)[i].tag == TAG_GC ==> GoodGc(Fields(extra)[i])) &&
               (Fields(extra)[i].tag == TAG_IX ==> GoodIx(Fields(extra)[i]))
    ensures var e := Interpret(Fields(extra)); DetermineBlockType(e.gc, e.ix) == RawType(Fields(extra))
  {
    ParsersAgree(extra);
  }

  // --- What the readers see in built headers ---

  lemma FieldsCons(tag: Bytes, data: Bytes, rest: Bytes)
    requires |tag| == 2 && |data| < U16
    ensures Fields(Subfield(tag, data) + rest) == [Field(tag, data)] + Fields(rest)
  {
    var s := Subfield(tag, data) + rest;
    ReadLeU16(|data|, data + rest);
    assert s[2..] == LeU16(|data|) + (data + rest);
    assert s[..2] == tag && s[4..4 + |data|] == data && s[4 + |data|..] == rest;
  }

  lemma FieldsOne(tag: Bytes, data: Bytes)
    requires |tag| == 2 && |data| < U16
    ensures Fields(Subfield(tag, data)) == [Field(tag, data)]
  {
    FieldsCons(tag, data, []);
    assert Subfield(tag, data) + [] == Subfield(tag, data);
  }

  lemma FieldsTwo(tag1: Bytes, data1: Bytes, tag2: Bytes, data2: Bytes)
    requires |tag1| == 2 && |data1| < U16 && |tag2| == 2 && |data2| < U16
    ensures Fields(Subfield(tag1, data1) + Subfield(tag2, data2)) == [Field(tag1, data1), Field(tag2, data2)]
  {
    FieldsCons(tag1, data1, Subfield(tag2, data2));
    FieldsOne(tag2, data2);
  }

  lemma InterpretTwo(f: Field, g: Field)
    ensures Interpret([f]) == Absorb(Extra(0, None, None), f)
    ensures Interpret([f, g]) == Absorb(Interpret([f]), g)
  {
    assert [f][..0] == [];
    assert [f, g][..1] == [f];
  }

  /** The extra field (with its XLEN) of a header, as `parse_extra_field` receives it. */
  function ExtraOf(header: Bytes): Bytes
    requires |header| >= GZIP_FIXED_HEADER_SIZE
  {
    header[GZIP_FIXED_HEADER_SIZE..]
  }

  lemma ZcField(zc: u32)
    ensures ReadU32(LeU32(zc)) == zc
  {
    ReadLeU32(zc, []);
    assert LeU32(zc) + [] == LeU32(zc);
  }

  lemma BegExtra(zc: u32, gc: u64)
    ensures ReadU16(ExtraOf(BegHeader(zc, gc))) == 20
    ensures Fields(BegHeader(zc, gc)[12..]) == [Field(TAG_ZC, LeU32(zc)), Field(TAG_GC, LeU64(gc))]
    ensures Interpret(Fields(BegHeader(zc, gc)[12..])) == Extra(zc, Some(gc), None)
  {
    var tail := Subfield(TAG_ZC, LeU32(zc)) + Subfield(TAG_GC, LeU64(gc));
    assert ExtraOf(BegHeader(zc, gc)) == LeU16(20) + tail;
    ReadLeU16(20, tail);
    assert BegHeader(zc, gc)[12..] == tail;
    FieldsTwo(TAG_ZC, LeU32(zc), TAG_GC, LeU64(gc));
    ZcField(zc);
    ReadLeU64(gc, []);
    assert LeU64(gc) + [] == LeU64(gc);
    InterpretTwo(Field(TAG_ZC, LeU32(zc)), Field(TAG_GC, LeU64(gc)));
  }

  lemma DatExtra(zc: u32)
    ensures ReadU16(ExtraOf(DatHeader(zc))) == 8
    ensures Fields(DatHeader(zc)[12..]) == [Field(TAG_ZC, LeU32(zc))]
    ensures Interpret(Fields(DatHeader(zc)[12..])) == Extra(zc, None, None)
  {
    var tail := Subfield(TAG_ZC, LeU32(zc));
    assert ExtraOf(DatHeader(zc)) == LeU16(8) + tail;
    ReadLeU16(8, tail);
    assert DatHeader(zc)[12..] == tail;
    FieldsOne(TAG_ZC, LeU32(zc));
    ZcField(zc);
    InterpretTwo(Field(TAG_ZC, LeU32(zc)), Field(TAG_ZC, LeU32(zc)));
  }

  /** What follows the fixed ten bytes of any header: XLEN, then the subfields. */
  lemma HeaderTail(base: Bytes, xlen: u16, a: Bytes, b: Bytes)
    requires |base| == GZIP_FIXED_HEADER_SIZE
    ensures (base + LeU16(xlen) + a + b)[10..] == LeU16(xlen) + (a + b)
    ensures (base + LeU16(xlen) + a + b)[12..] == a + b
    ensures ReadU16(LeU16(xlen) + (a + b)) == xlen
  {
    ReadLeU16(xlen, a + b);
  }

  lemma InterpretZcIx(zc: u32, data: Bytes)
    requires |data| >= 8 && |data| % 8 == 0
    ensures Interpret([Field(TAG_ZC, LeU32(zc)), Field(TAG_IX, data)]) == Extra(zc, None, Some(EntriesOf(data)))
  {
    InterpretTwo(Field(TAG_ZC, LeU32(zc)), Field(TAG_IX, data));
    ZcField(zc);
  }

  lemma IdxTail(zc: u32, entries: seq<IndexEntry>)
    ensures var tail := Subfield(TAG_ZC, LeU32(zc)) + Subfield(TAG_IX, IxData(entries));
            IdxHeader(zc, entries)[12..] == tail &&
            ExtraOf(IdxHeader(zc, entries)) == LeU16((12 + 8 * |entries|) % U16) + tail
    ensures ReadU16(ExtraOf(IdxHeader(zc, entries))) == (12 + 8 * |entries|) % U16
  {
    HeaderTail(GZIP_BASE, (12 + 8 * |entries|) % U16, Subfield(TAG_ZC, LeU32(zc)), Subfield(TAG_IX, IxData(entries)));
  }

  lemma ZcIxFields(zc: u32, data: Bytes)
    requires 8 <= |data| < U16 && |data| % 8 == 0
    ensures var tail := Subfield(TAG_ZC, LeU32(zc)) + Subfield(TAG_IX, data);
            Fields(tail) == [Field(TAG_ZC, LeU32(zc)), Field(TAG_IX, data)] &&
            Interpret(Fields(tail)) == Extra(zc, None, Some(EntriesOf(data)))
  {
    FieldsTwo(TAG_ZC, LeU32(zc), TAG_IX, data);
    InterpretZcIx(zc, data);
  }

  lemma IdxExtra(zc: u32, entries: seq<IndexEntry>)
    requires 1 <= |entries| <= MAX_GROUP
    ensures ReadU16(ExtraOf(IdxHeader(zc, entries))) == 12 + 8 * |entries|
    ensures Fields(IdxHeader(zc, entries)[12..]) == [Field(TAG_ZC, LeU32(zc)), Field(TAG_IX, IxData(entries))]
    ensures Interpret(Fields(IdxHeader(zc, entries)[12..])) == Extra(zc, None, Some(entries))
  {
    hide Fields, Interpret, IdxHeader, ReadU16, EntriesOf, Subfield, LeU32, LeU16, IxData, ExtraOf;
    IdxTail(zc, entries);
    ZcIxFields(zc, IxData(entries));
    EntriesRoundTrip(entries);
  }

  lemma BegRoundTrip(zc: u32, gc: u64)
    ensures ParseExtra(ExtraOf(BegHeader(zc, gc)), true) == Ok(Extra(zc, Some(gc), None))
  {
    BegExtra(zc, gc);
    assert ExtraOf(BegHeader(zc, gc))[2..22] == BegHeader(zc, gc)[12..];
  }

  lemma DatRoundTrip(zc: u32)
    ensures ParseExtra(ExtraOf(DatHeader(zc)), true) == Ok(Extra(zc, None, None))
  {
    DatExtra(zc);
    assert ExtraOf(DatHeader(zc))[2..10] == DatHeader(zc)[12..];
  }

  /** An IX subfield found in an extra field cannot be longer than that extra field. */
  lemma {:induction false} FieldsFit(extra: Bytes, i: nat)
    requires i < |Fields(extra)|
    ensures |Fields(extra)[i].data| + 4 <= |extra|
    decreases |extra|
  {
    if i > 0 { FieldsFit(extra[4 + ReadU16(extra[2..])..], i - 1); }
  }

  lemma {:induction false} IxFromField(fs: seq<Field>)
    requires Interpret(fs).ix.Some?
    ensures exists i :: 0 <= i < |fs| && 1 <= |Interpret(fs).ix.value| && |fs[i].data| == 8 * |Interpret(fs).ix.value|
  {
    var n := |fs| - 1;
    if GoodZc(fs[n]) || GoodGc(fs[n]) || !GoodIx(fs[n]) {
      IxFromField(fs[..n]);
      var i :| 0 <= i < n && 1 <= |Interpret(fs).ix.value| && |fs[..n][i].data| == 8 * |Interpret(fs).ix.value|;
      assert |fs[i].data| == 8 * |Interpret(fs).ix.value|;
    }
  }

  /** No extra field can yield more entries than its XLEN has room for. */
  lemma ParsedEntriesFit(buf: Bytes, es: seq<IndexEntry>)
    requires ParseExtra(buf, true).Ok? && ParseExtra(buf, true).value.ix == Some(es)
    ensures 1 <= |es| && 8 * |es| + 4 <= ReadU16(buf)
  {
    var fs := Fields(buf[2..2 + ReadU16(buf)]);
    IxFromField(fs);
    var i :| 0 <= i < |fs| && 1 <= |es| && |fs[i].data| == 8 * |es|;
    FieldsFit(buf[2..2 + ReadU16(buf)], i);
  }

  /** The IDX header round-trips exactly up to 8190 entries: beyond that 12 + 8N is narrowed to 16 bits. */
  lemma IdxRoundTrip(zc: u32, entries: seq<IndexEntry>)
    ensures ParseExtra(ExtraOf(IdxHeader(zc, entries)), true) == Ok(Extra(zc, None, Some(entries)))
            <==> 1 <= |entries| <= MAX_GROUP
  {
    hide Fields, Interpret, ReadU16, IxData, LeU32;
    var buf := ExtraOf(IdxHeader(zc, entries));
    var n := |entries|;
    if 1 <= n <= MAX_GROUP {
      IdxExtra(zc, entries);
      assert buf[2..2 + 12 + 8 * n] == IdxHeader(zc, entries)[12..];
    } else {
      hide ParseExtra;
      IdxTail(zc, entries);
      var r := ParseExtra(buf, true);
      if r.Ok? && r.value.ix == Some(entries) {
        ParsedEntriesFit(buf, entries);
        assert false;
      }
    }
  }
}
