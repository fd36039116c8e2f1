/** The block index as a value (src/index.rs): what scanning a byte string group by group yields,
    that any index so built is well formed, and that on encoder output it is the true one. */
module IndexSpec {
  import opened Prelude
  import opened LittleEndian
  import opened Format
  import opened ExtraField
  import opened Container
  import opened WriterSpec
  import opened RawMember

  datatype BlockMeta = BlockMeta(groupIndex: u32, blockInGroup: u32, compressedSize: u32, uncompressedSize: u32)

  datatype PgzfIndex = PgzfIndex(
    blocks: seq<BlockMeta>, compressedOffsets: seq<nat>, uncompressedOffsets: seq<nat>, groupCount: nat)

  /** The vectors under construction with the two running sums. */
  datatype Acc = Acc(blocks: seq<BlockMeta>, co: seq<nat>, uo: seq<nat>, groupCount: nat, cumC: nat, cumU: nat)

  const EMPTY: Acc := Acc([], [], [], 0, 0, 0)

  function AddEntry(a: Acc, e: IndexEntry, i: nat): Acc {
    Acc(a.blocks + [BlockMeta(a.groupCount % U32, i % U32, e.compressedSize, e.uncompressedSize)],
        a.co + [a.cumC], a.uo + [a.cumU], a.groupCount,
        a.cumC + e.compressedSize, a.cumU + e.uncompressedSize)
  }

  function AddEntries(a: Acc, es: seq<IndexEntry>): Acc {
    if es == [] then a
    else AddEntry(AddEntries(a, es[..|es| - 1]), es[|es| - 1], |es| - 1)
  }

  function AddIdx(a: Acc, idxZc: nat): Acc {
    a.(cumC := a.cumC + idxZc, groupCount := a.groupCount + 1)
  }

  function Seal(a: Acc): PgzfIndex {
    PgzfIndex(a.blocks, a.co + [a.cumC], a.uo + [a.cumU], a.groupCount)
  }

  /** One turn of the build loop at a file position. */
  datatype GroupRead = Finished | Bad(error: Error) | Group(gc: u64, idxZc: u32, entries: seq<IndexEntry>)

  function GroupAt(file: Bytes, pos: nat): (r: GroupRead)
    ensures r.Group? ==> r.gc >= 1 && pos + BEG_HEADER_SIZE <= |file| && |r.entries| <= MAX_GROUP
  {
    if |file| < pos + BEG_HEADER_SIZE then Finished
    else
      var v := ValidateGzipHeader(file[pos..pos + BEG_HEADER_SIZE]);
      if v.Err? then Bad(v.error)
      else if !IsPgzfMember(v.value.0, v.value.1) then Bad(InvalidFormat)
      else
        var gc := ReadU64(file[pos + GC_VALUE_OFFSET..]);
        if gc == 0 then Finished else IdxAt(file, pos, gc)
  }

  /** `group_start + gc` may reach 2^64, which panics where sums are checked. WrappedIndex.dfy says what
      happens where they are not. */
  function IdxAt(file: Bytes, pos: nat, gc: u64): (r: GroupRead)
    requires gc >= 1 && pos + BEG_HEADER_SIZE <= |file|
    ensures r.Group? ==> r.gc == gc && |r.entries| <= MAX_GROUP
  {
    if pos + gc >= U64 then Bad(Panic) else IdxFrom(file, pos + gc, gc)
  }

  /** The IDX member at p, for a group of size gc. */
  function IdxFrom(file: Bytes, p: nat, gc: u64): (r: GroupRead)
    ensures r.Group? ==> r.gc == gc && |r.entries| <= MAX_GROUP
  {
    if |file| < p + IDX_HEADER_BASE_SIZE then Bad(UnexpectedEof)
    else
      var idx := file[p..p + IDX_HEADER_BASE_SIZE];
      var v := ValidateGzipHeader(idx);
      if v.Err? then Bad(v.error)
      else if v.value.1 != PGZF_XFL_MARKER then Bad(InvalidFormat)
      else
        var xlen: nat := ReadU16(idx[10..]);
        if xlen < 12 then Bad(InvalidFormat)
        else if |file| < p + IDX_HEADER_BASE_SIZE + xlen - 12 then Bad(UnexpectedEof)
        else
          var n := (xlen - 12) / 8;
          Group(gc, ReadU32(idx[ZC_VALUE_OFFSET..]), EntriesOf(file[p + 24..p + 24 + 8 * n]))
  }

  /** The vectors after one group, unless a running sum or the next position reaches 2^64. */
  function Advance(pos: nat, a: Acc, gc: u64, idxZc: u32, entries: seq<IndexEntry>): Option<Acc> {
    var b := AddIdx(AddEntries(a, entries), idxZc);
    if pos + gc + idxZc < U64 && b.cumC < U64 && b.cumU < U64 then Some(b) else None
  }

  /** The whole loop of `build`, with checked sums. */
  function Scan(file: Bytes, pos: nat, a: Acc): Result<PgzfIndex>
    decreases Max(|file| + 1 - pos, 0)
  {
    match GroupAt(file, pos)
    case Finished => Ok(Seal(a))
    case Bad(error) => Err(error)
    case Group(gc, idxZc, entries) =>
      var b := Advance(pos, a, gc, idxZc, entries);
      if b.None? then Err(Panic) else Scan(file, pos + gc + idxZc, b.value)
  }

  // --- Any index that is built at all is well formed ---

  ghost predicate Steps(blocks: seq<BlockMeta>, co: seq<nat>, uo: seq<nat>) {
    && |co| == |uo| == |blocks| + 1
    && uo[0] == 0
    && (forall i :: 0 <= i < |blocks| ==>
          && uo[i + 1] == uo[i] + blocks[i].uncompressedSize
          && co[i + 1] >= co[i] + blocks[i].compressedSize
          && blocks[i].blockInGroup < MAX_GROUP)
  }

  ghost predicate WellFormed(idx: PgzfIndex) {
    Steps(idx.blocks, idx.compressedOffsets, idx.uncompressedOffsets)
  }

  ghost predicate AccWellFormed(a: Acc) {
    Steps(a.blocks, a.co + [a.cumC], a.uo + [a.cumU])
  }

  lemma AddEntryWellFormed(a: Acc, e: IndexEntry, i: nat)
    requires AccWellFormed(a) && i < MAX_GROUP
    ensures AccWellFormed(AddEntry(a, e, i))
  {
    var b := AddEntry(a, e, i);
    var n := |a.blocks|;
    forall j | 0 <= j < n + 1
      ensures (b.uo + [b.cumU])[j + 1] == (b.uo + [b.cumU])[j] + b.blocks[j].uncompressedSize
      ensures (b.co + [b.cumC])[j + 1] >= (b.co + [b.cumC])[j] + b.blocks[j].compressedSize
      ensures b.blocks[j].blockInGroup < MAX_GROUP
    {
      if j < n {
        assert (a.uo + [a.cumU])[j + 1] == (a.uo + [a.cumU])[j] + a.blocks[j].uncompressedSize;
      } else {
        SmallMod(i, U32);
      }
    }
  }

  lemma {:induction false} AddEntriesWellFormed(a: Acc, es: seq<IndexEntry>)
    requires AccWellFormed(a) && |es| <= MAX_GROUP
    ensures AccWellFormed(AddEntries(a, es))
  {
    if es != [] {
      hide AccWellFormed, AddEntry;
      AddEntriesWellFormed(a, es[..|es| - 1]);
      AddEntryWellFormed(AddEntries(a, es[..|es| - 1]), es[|es| - 1], |es| - 1);
    }
  }

  lemma AddIdxWellFormed(a: Acc, idxZc: nat)
    requires AccWellFormed(a)
    ensures AccWellFormed(AddIdx(a, idxZc))
  {
    var b := AddIdx(a, idxZc);
    var n := |a.blocks|;
    forall j | 0 <= j < n
      ensures (b.co + [b.cumC])[j + 1] >= (b.co + [b.cumC])[j] + b.blocks[j].compressedSize
    {
      assert (a.co + [a.cumC])[j + 1] >= (a.co + [a.cumC])[j] + a.blocks[j].compressedSize;
    }
  }

  /** The last offsets, which are the largest, fit 64 bits. */
  predicate Totals64(idx: PgzfIndex) {
    && idx.compressedOffsets != [] && idx.compressedOffsets[|idx.compressedOffsets| - 1] < U64
    && idx.uncompressedOffsets != [] && idx.uncompressedOffsets[|idx.uncompressedOffsets| - 1] < U64
  }

  /** On every byte string: the scan ends, and an index it returns has B + 1 offsets below 2^64, the
      uncompressed ones starting at 0 and stepping by exactly the listed block sizes. */
  lemma {:induction false} ScanWellFormed(file: Bytes, pos: nat, a: Acc)
    requires AccWellFormed(a) && a.cumC < U64 && a.cumU < U64
    ensures Scan(file, pos, a).Ok? ==> WellFormed(Scan(file, pos, a).value) && Totals64(Scan(file, pos, a).value)
    decreases Max(|file| + 1 - pos, 0)
  {
    hide AccWellFormed, AddIdx, AddEntries, GroupAt;
    match GroupAt(file, pos)
    case Finished => SealWellFormed(a);
    case Bad(_) =>
    case Group(gc, idxZc, entries) =>
      GroupAdvances(file, pos);
      AddEntriesWellFormed(a, entries);
      AddIdxWellFormed(AddEntries(a, entries), idxZc);
      var b := Advance(pos, a, gc, idxZc, entries);
      if b.Some? { ScanWellFormed(file, pos + gc + idxZc, b.value); }
  }

  lemma GroupAdvances(file: Bytes, pos: nat)
    ensures GroupAt(file, pos).Group? ==>
              GroupAt(file, pos).gc >= 1 && pos + BEG_HEADER_SIZE <= |file| && |GroupAt(file, pos).entries| <= MAX_GROUP
  {
  }

  lemma SealWellFormed(a: Acc)
    requires AccWellFormed(a)
    ensures WellFormed(Seal(a))
  {
  }

  lemma {:induction false} WellFormedMonotone(idx: PgzfIndex, i: nat, j: nat)
    requires WellFormed(idx) && i <= j <= |idx.blocks|
    ensures idx.uncompressedOffsets[i] <= idx.uncompressedOffsets[j]
    ensures idx.compressedOffsets[i] <= idx.compressedOffsets[j]
    decreases j
  {
    if i < j { WellFormedMonotone(idx, i, j - 1); }
  }

  // --- Agreement with the members of a file ---

  /** Where member k starts in the file. */
  function Start(c: Codec, level: nat, ms: seq<Member>, k: nat): nat
    requires k <= |ms|
  {
    |FileOf(c, level, ms[..k])|
  }

  lemma StartZero(c: Codec, level: nat, ms: seq<Member>)
    ensures Start(c, level, ms, 0) == 0
  {
    assert ms[..0] == [];
    FileOfOne(c, level, Index([]));
  }

  ghost predicate EntryAgrees(c: Codec, level: nat, ms: seq<Member>, k: nat, co: seq<nat>, blocks: seq<BlockMeta>)
    requires k < |ms| && ms[k].Data? && Count(ms, k) < |co| && |co| >= |blocks| > Count(ms, k)
  {
    && co[Count(ms, k)] == Start(c, level, ms, k)
    && blocks[Count(ms, k)].compressedSize == SizeOf(c, level, ms[k])
    && blocks[Count(ms, k)].uncompressedSize == |ms[k].payload|
  }

  /** The vectors so far are right about the members so far. */
  ghost predicate SoFar(c: Codec, level: nat, ms: seq<Member>, a: Acc) {
    && |a.co| == |a.uo| == |a.blocks| == |Blocks(ms)|
    && a.cumC == |FileOf(c, level, ms)|
    && a.cumU == |Flat(Blocks(ms))|
    && a.groupCount == |ms| - |Blocks(ms)|
    && (forall k :: 0 <= k < |ms| && ms[k].Data? ==> Count(ms, k) < |a.co| && EntryAgrees(c, level, ms, k, a.co, a.blocks))
    && (forall i :: 0 <= i < |a.uo| ==> a.uo[i] == Offset(Blocks(ms), i))
  }

  /** Blocks are numbered by group and by position in the group, g to a group. */
  ghost predicate Numbered(g: nat, blocks: seq<BlockMeta>)
    requires g >= 1
  {
    forall i :: 0 <= i < |blocks| ==> blocks[i].groupIndex == i / g % U32 && blocks[i].blockInGroup == i % g % U32
  }

  lemma PrefixFacts(c: Codec, level: nat, ms: seq<Member>, m: Member, k: nat)
    requires k <= |ms|
    ensures Count(ms + [m], k) == Count(ms, k) && Start(c, level, ms + [m], k) == Start(c, level, ms, k)
  {
    assert (ms + [m])[..k] == ms[..k];
  }

  lemma OldEntryAgrees(c: Codec, level: nat, ms: seq<Member>, m: Member, k: nat, a: Acc, b: Acc)
    requires SoFar(c, level, ms, a) && k < |ms| && ms[k].Data?
    requires |b.co| == |b.blocks| >= |a.blocks| && b.co[..|a.co|] == a.co && b.blocks[..|a.blocks|] == a.blocks
    ensures Count(ms + [m], k) < |b.co| && EntryAgrees(c, level, ms + [m], k, b.co, b.blocks)
  {
    hide Start, Count, SizeOf;
    PrefixFacts(c, level, ms, m, k);
    assert EntryAgrees(c, level, ms, k, a.co, a.blocks);
    assert (ms + [m])[k] == ms[k];
    var i := Count(ms, k);
    assert b.co[i] == b.co[..|a.co|][i] && b.blocks[i] == b.blocks[..|a.blocks|][i];
  }

  lemma UncompressedPrefix(ms: seq<Member>, m: Member, i: nat)
    requires i <= |Blocks(ms)|
    ensures |Blocks(ms + [m])| >= |Blocks(ms)| && Offset(Blocks(ms + [m]), i) == Offset(Blocks(ms), i)
  {
    hide Blocks, Flat;
    BlocksSnoc(ms, m);
    assert Blocks(ms + [m])[..i] == Blocks(ms)[..i];
  }

  lemma SoFarData(c: Codec, level: nat, ms: seq<Member>, m: Member, a: Acc, e: IndexEntry, i: nat)
    requires SoFar(c, level, ms, a) && m.Data?
    requires e.compressedSize == SizeOf(c, level, m) && e.uncompressedSize == |m.payload|
    ensures SoFar(c, level, ms + [m], AddEntry(a, e, i))
  {
    var b, all := AddEntry(a, e, i), ms + [m];
    hide FileOf, Flat, Blocks, SizeOf;
    BlocksSnoc(ms, m);
    FileOfSnoc(c, level, ms, m);
    FlatSnoc(Blocks(ms), m.payload);
    assert |Image(c, level, m)| == SizeOf(c, level, m);
    forall k | 0 <= k < |all| && all[k].Data?
      ensures Count(all, k) < |b.co| && EntryAgrees(c, level, all, k, b.co, b.blocks)
    {
      if k < |ms| {
        OldEntryAgrees(c, level, ms, m, k, a, b);
      } else {
        assert all[..k] == ms;
      }
    }
    forall j | 0 <= j < |b.uo|
      ensures b.uo[j] == Offset(Blocks(all), j)
    {
      if j < |a.uo| {
        UncompressedPrefix(ms, m, j);
      } else {
        assert Blocks(all)[..j] == Blocks(ms);
      }
    }
  }

  lemma SoFarIndex(c: Codec, level: nat, ms: seq<Member>, m: Member, a: Acc)
    requires SoFar(c, level, ms, a) && m.Index?
    ensures SoFar(c, level, ms + [m], AddIdx(a, SizeOf(c, level, m)))
  {
    var b, all := AddIdx(a, SizeOf(c, level, m)), ms + [m];
    hide FileOf, Flat, Blocks, SizeOf;
    BlocksSnoc(ms, m);
    assert Blocks(ms) + [] == Blocks(ms);
    FileOfSnoc(c, level, ms, m);
    assert |Image(c, level, m)| == SizeOf(c, level, m);
    forall k | 0 <= k < |all| && all[k].Data?
      ensures Count(all, k) < |b.co| && EntryAgrees(c, level, all, k, b.co, b.blocks)
    {
      OldEntryAgrees(c, level, ms, m, k, a, b);
    }
  }

  // --- One encoded group ---

  lemma EntryExact(c: Codec, level: nat, gc: u64, i: nat, block: Bytes)
    requires Readable(c, level, DataMember(gc, i, block))
    ensures EntryFor(c, level, i, block).compressedSize == SizeOf(c, level, DataMember(gc, i, block))
    ensures EntryFor(c, level, i, block).uncompressedSize == |block|
  {
  }

  ghost predicate BlocksReadable(c: Codec, level: nat, gc: u64, blocks: seq<Bytes>) {
    forall i :: 0 <= i < |blocks| ==> Readable(c, level, DataMember(gc, i, blocks[i]))
  }

  /** The sizes listed in the IDX add up to the bytes of the data members, whatever their GC. */
  lemma {:induction false} SumIsLength(c: Codec, level: nat, gc: u64, blocks: seq<Bytes>)
    requires BlocksReadable(c, level, gc, blocks)
    ensures SumSizes(EntriesFor(c, level, blocks)) == |FileOf(c, level, DataMembers(gc, blocks))|
    ensures SumSizes(EntriesFor(c, level, blocks)) <= |blocks| * MAX_MEMBER
    ensures |blocks| <= SumSizes(EntriesFor(c, level, blocks))
  {
    if blocks == [] {
      assert DataMembers(gc, blocks) == [];
    } else {
      hide FileOf, Image, SizeOf, Readable, EntryFor;
      var n := |blocks| - 1;
      var init := blocks[..n];
      SumIsLength(c, level, gc, init);
      assert blocks[..n + 1] == blocks;
      EntriesForSnoc(c, level, blocks, n);
      DataMembersSnoc(gc, blocks, n);
      FileOfSnoc(c, level, DataMembers(gc, init), DataMember(gc, n, blocks[n]));
      EntryExact(c, level, gc, n, blocks[n]);
      ReadableBounds(c, level, DataMember(gc, n, blocks[n]));
      assert EntriesFor(c, level, blocks)[..n] == EntriesFor(c, level, init);
    }
  }

  lemma ReadableBounds(c: Codec, level: nat, m: Member)
    requires Readable(c, level, m)
    ensures 20 <= SizeOf(c, level, m) <= MAX_MEMBER && |Image(c, level, m)| == SizeOf(c, level, m)
  {
  }

  lemma {:induction false} SoFarGroupData(c: Codec, level: nat, ms: seq<Member>, a: Acc, gc: u64, blocks: seq<Bytes>)
    requires SoFar(c, level, ms, a) && BlocksReadable(c, level, gc, blocks)
    ensures SoFar(c, level, ms + DataMembers(gc, blocks), AddEntries(a, EntriesFor(c, level, blocks)))
    ensures AddEntries(a, EntriesFor(c, level, blocks)).groupCount == a.groupCount
  {
    hide SoFar, Readable, SizeOf, EntryFor;
    if blocks == [] {
      assert ms + DataMembers(gc, blocks) == ms;
    } else {
      var n := |blocks| - 1;
      var init := blocks[..n];
      var m := DataMember(gc, n, blocks[n]);
      SoFarGroupData(c, level, ms, a, gc, init);
      assert blocks[..n + 1] == blocks;
      EntriesForSnoc(c, level, blocks, n);
      DataMembersSnoc(gc, blocks, n);
      EntryExact(c, level, gc, n, blocks[n]);
      var es := EntriesFor(c, level, blocks);
      assert es[..n] == EntriesFor(c, level, init);
      SoFarData(c, level, ms + DataMembers(gc, init), m, AddEntries(a, es[..n]), es[n], n);
      SeqAssoc(ms, DataMembers(gc, init), [m]);
    }
  }

  lemma GroupIsReadable(c: Codec, level: nat, blocks: seq<Bytes>)
    requires AllReadable(c, level, GroupMembers(c, level, blocks))
    ensures var es := EntriesFor(c, level, blocks); var gc := SumSizes(es) % U64;
            BlocksReadable(c, level, gc, blocks) && Readable(c, level, Index(es)) &&
            GroupMembers(c, level, blocks) == DataMembers(gc, blocks) + [Index(es)]
  {
    hide Readable, SumSizes;
    var ms := GroupMembers(c, level, blocks);
    assert ms[|blocks|] == Index(EntriesFor(c, level, blocks));
    forall i | 0 <= i < |blocks|
      ensures Readable(c, level, DataMember(SumSizes(EntriesFor(c, level, blocks)) % U64, i, blocks[i]))
    {
      assert ms[i] == DataMember(SumSizes(EntriesFor(c, level, blocks)) % U64, i, blocks[i]);
    }
  }

  /** Scanning one group advances the vectors by exactly that group. */
  lemma SoFarGroup(c: Codec, level: nat, ms: seq<Member>, a: Acc, blocks: seq<Bytes>)
    requires SoFar(c, level, ms, a) && AllReadable(c, level, GroupMembers(c, level, blocks))
    ensures var es := EntriesFor(c, level, blocks);
            SoFar(c, level, ms + GroupMembers(c, level, blocks), AddIdx(AddEntries(a, es), SizeOf(c, level, Index(es))))
  {
    hide SoFar, Readable, SizeOf, GroupMembers, SumSizes, BlocksReadable, AllReadable, AddIdx, AddEntries;
    var es := EntriesFor(c, level, blocks);
    var gc := SumSizes(es) % U64;
    GroupIsReadable(c, level, blocks);
    SoFarGroupData(c, level, ms, a, gc, blocks);
    SoFarIndex(c, level, ms + DataMembers(gc, blocks), Index(es), AddEntries(a, es));
    SeqAssoc(ms, DataMembers(gc, blocks), [Index(es)]);
  }

  // --- Reading an encoded group by fixed offsets ---

  lemma BegFixedOffsets(zc: u32, gc: u64)
    ensures ValidateGzipHeader(BegHeader(zc, gc)) == Ok((GZIP_FLG_FEXTRA, PGZF_XFL_MARKER))
    ensures ReadU32(BegHeader(zc, gc)[ZC_VALUE_OFFSET..]) == zc
    ensures ReadU64(BegHeader(zc, gc)[GC_VALUE_OFFSET..]) == gc
  {
    hide ReadU32, ReadU64, LeU32, LeU64, LeU16;
    var h := BegHeader(zc, gc);
    assert h[16..] == LeU32(zc) + Subfield(TAG_GC, LeU64(gc));
    ReadLeU32(zc, Subfield(TAG_GC, LeU64(gc)));
    assert h[24..] == LeU64(gc) + [];
    ReadLeU64(gc, []);
  }

  lemma FixedSlices(base: Bytes, a: Bytes, p: Bytes, q: Bytes, r: Bytes, d: Bytes)
    requires |base| == 10 && |a| == 2 && |p| == 4 && |q| == 4 && |r| == 4
    ensures var h := base + a + (p + q) + (r + d);
            && h[..24][..10] == base && h[..24][10..][..2] == a && h[..24][16..][..4] == q && h[24..] == d
  {
  }

  lemma MagicOf(h: Bytes)
    requires |h| >= 10 && h[..10] == GZIP_BASE
    ensures ValidateGzipHeader(h) == Ok((GZIP_FLG_FEXTRA, PGZF_XFL_MARKER))
  {
    assert forall i :: 0 <= i < 10 ==> h[i] == h[..10][i];
  }

  lemma PlainReads(x: u16, y: u32)
    ensures ReadU16(LeU16(x)) == x && ReadU32(LeU32(y)) == y
  {
    ReadLeU16(x, []);
    ReadLeU32(y, []);
    assert LeU16(x) + [] == LeU16(x) && LeU32(y) + [] == LeU32(y);
  }

  lemma IdxShape(zc: u32, es: seq<IndexEntry>) returns (p: Bytes, r: Bytes)
    ensures |p| == 4 && |r| == 4 && |GZIP_BASE| == 10
    ensures IdxHeader(zc, es) == GZIP_BASE + LeU16((12 + 8 * |es|) % U16) + (p + LeU32(zc)) + (r + IxData(es))
  {
    p, r := TAG_ZC + LeU16(4), TAG_IX + LeU16(|IxData(es)| % U16);
  }

  lemma IdxFixedOffsets(zc: u32, es: seq<IndexEntry>)
    ensures ValidateGzipHeader(IdxHeader(zc, es)[..24]) == Ok((GZIP_FLG_FEXTRA, PGZF_XFL_MARKER))
    ensures ReadU16(IdxHeader(zc, es)[..24][10..]) == (12 + 8 * |es|) % U16
    ensures ReadU32(IdxHeader(zc, es)[..24][ZC_VALUE_OFFSET..]) == zc
    ensures IdxHeader(zc, es)[24..] == IxData(es)
  {
    hide ReadU32, ReadU16, LeU32, LeU16, IxData, ValidateGzipHeader, IdxHeader, GZIP_BASE, TAG_ZC, TAG_IX;
    var h := IdxHeader(zc, es);
    var xlen := (12 + 8 * |es|) % U16;
    var p, r := IdxShape(zc, es);
    FixedSlices(GZIP_BASE, LeU16(xlen), p, LeU32(zc), r, IxData(es));
    MagicOf(h[..24]);
    PlainReads(xlen, zc);
    SameReads(h[..24][10..], LeU16(xlen));
    SameReads(h[..24][16..], LeU32(zc));
  }

  lemma SameReads(s: Bytes, t: Bytes)
    ensures |t| >= 2 && |s| >= 2 && s[..2] == t[..2] ==> ReadU16(s) == ReadU16(t)
    ensures |t| >= 4 && |s| >= 4 && s[..4] == t[..4] ==> ReadU32(s) == ReadU32(t)
    ensures |t| >= 8 && |s| >= 8 && s[..8] == t[..8] ==> ReadU64(s) == ReadU64(t)
  {
  }

  /** What an IDX of these entries is read as: XLEN is narrowed to 16 bits, so of 8191 or more entries
      some are lost, or the member is rejected. */
  function Narrowed(gc: u64, idxZc: u32, es: seq<IndexEntry>): GroupRead {
    var xlen := (12 + 8 * |es|) % U16;
    if xlen < 12 then Bad(InvalidFormat) else Group(gc, idxZc, es[..Min((xlen - 12) / 8, |es|)])
  }

  lemma NarrowedIs(gc: u64, idxZc: u32, es: seq<IndexEntry>)
    ensures var xlen := (12 + 8 * |es|) % U16; var k := (xlen - 12) / 8;
            && (xlen < 12 ==> Narrowed(gc, idxZc, es) == Bad(InvalidFormat))
            && (xlen >= 12 ==> k <= |es| && Narrowed(gc, idxZc, es) == Group(gc, idxZc, es[..k]))
  {
    NarrowedSize(|es|);
  }

  lemma NarrowedFits(gc: u64, idxZc: u32, es: seq<IndexEntry>)
    requires |es| <= MAX_GROUP
    ensures Narrowed(gc, idxZc, es) == Group(gc, idxZc, es)
  {
    assert es[..|es|] == es;
  }

  lemma NarrowedSize(n: nat)
    ensures (12 + 8 * n) % U16 < 12 <==> n % 0x2000 == 0x1fff
    ensures (12 + 8 * n) % U16 >= 12 ==> ((12 + 8 * n) % U16 - 12) / 8 == n % 0x2000 <= n
  {
    var q, k := n / 0x2000, n % 0x2000;
    NarrowedSplit(q, k);
  }

  lemma NarrowedSplit(q: nat, k: nat)
    requires k < 0x2000
    ensures var x := (12 + 8 * (q * 0x2000 + k)) % U16; if k == 0x1fff then x == 4 else x == 12 + 8 * k && (x - 12) / 8 == k
  {
    DivUnique(12 + 8 * (q * 0x2000 + k), U16, if k == 0x1fff then q + 1 else q);
  }

  /** The IX data of the first k entries is a prefix. */
  lemma {:induction false} IxDataPrefix(es: seq<IndexEntry>, k: nat)
    requires k <= |es|
    ensures IxData(es)[..8 * k] == IxData(es[..k])
    decreases |es|
  {
    if k < |es| {
      var n := |es| - 1;
      assert es[..n + 1] == es;
      IxDataSnoc(es, n);
      IxDataPrefix(es[..n], k);
      assert es[..n][..k] == es[..k];
      assert IxData(es)[..8 * k] == IxData(es[..n])[..8 * k];
    } else {
      assert es[..k] == es;
    }
  }

  /** The IDX part of a turn, at an encoded IDX member with any number of entries. */
  lemma IdxAtEncoded(c: Codec, level: nat, file: Bytes, pos: nat, gc: u64, es: seq<IndexEntry>, rest: Bytes)
    requires SizeOf(c, level, Index(es)) < U32 && gc >= 1 && pos + BEG_HEADER_SIZE <= |file| && pos + gc <= |file| < U64
    requires file[pos + gc..] == Image(c, level, Index(es)) + rest
    ensures IdxAt(file, pos, gc) == Narrowed(gc, SizeOf(c, level, Index(es)), es)
  {
    hide Image, IdxHeader, IxData, EntriesOf, ReadU16, ReadU32, SizeOf, ValidateGzipHeader, Trailer, Body, Narrowed;
    var m := Index(es);
    var zc := SizeOf(c, level, m);
    var tail := file[pos + gc..];
    AnyMemberParts(c, level, m, rest);
    IdxFixedOffsets(zc, es);
    IdxSlices(file, pos + gc, IdxHeader(zc, es));
    NarrowedSize(|es|);
    NarrowedIs(gc, zc, es);
    var xlen := (12 + 8 * |es|) % U16;
    if xlen >= 12 { IdxEntries(file, pos + gc, zc, es, (xlen - 12) / 8); }
  }

  /** The first k entries, read from the file behind the fixed part. */
  lemma IdxEntries(file: Bytes, p: nat, zc: u32, es: seq<IndexEntry>, k: nat)
    requires k <= |es| && p + 24 + 8 * |es| <= |file| && file[p..][..24 + 8 * |es|] == IdxHeader(zc, es)
    ensures 8 * k % 8 == 0 && |file[p + 24..p + 24 + 8 * k]| == 8 * k
    ensures EntriesOf(file[p + 24..p + 24 + 8 * k]) == es[..k]
  {
    hide IdxHeader, IxData, EntriesOf;
    IdxFixedOffsets(zc, es);
    IxDataPrefix(es, k);
    EntriesRoundTrip(es[..k]);
    DropSlice(file, p, 24, 24 + 8 * k);
    HeaderSlice(file[p..], IdxHeader(zc, es), 8 * k);
  }

  /** The fixed part of a header at p, read from the file. */
  lemma IdxSlices(file: Bytes, p: nat, h: Bytes)
    requires p <= |file| && 24 <= |h| <= |file| - p && file[p..][..|h|] == h
    ensures file[p..p + 24] == h[..24]
  {
    DropSlice(file, p, 0, 24);
    assert file[p..][0..24] == file[p..][..|h|][..24];
  }

  lemma HeaderSlice(tail: Bytes, h: Bytes, n: nat)
    requires 24 + n <= |h| <= |tail| && tail[..|h|] == h
    ensures tail[24..24 + n] == h[24..][..n]
  {
    PrefixWindow(tail, |h|, 24, n);
    assert tail[24..][..n] == tail[24..24 + n];
  }

  /** A whole turn at an encoded group: GC leads to the IDX, whose own size leads past the group. */
  lemma GroupAtEncoded(c: Codec, level: nat, file: Bytes, pos: nat, blocks: seq<Bytes>, rest: Bytes)
    requires blocks != [] && |blocks| <= MAX_GROUP && AllReadable(c, level, GroupMembers(c, level, blocks))
    requires pos <= |file| < U64 && file[pos..] == FileOf(c, level, GroupMembers(c, level, blocks)) + rest
    ensures var es := EntriesFor(c, level, blocks);
            var gc := |FileOf(c, level, DataMembers(SumSizes(es) % U64, blocks))|;
            && gc < U64 && SizeOf(c, level, Index(es)) < U32
            && GroupAt(file, pos) == Group(gc, SizeOf(c, level, Index(es)), es)
            && gc + SizeOf(c, level, Index(es)) == |FileOf(c, level, GroupMembers(c, level, blocks))|
  {
    hide FileOf, SizeOf, GroupAt, Readable, BlocksReadable, AllReadable, GroupMembers, SumSizes, EntriesFor, DataMembers, Narrowed;
    var es := EntriesFor(c, level, blocks);
    GroupIsReadable(c, level, blocks);
    ReadableBounds(c, level, Index(es));
    AnyGroupAt(c, level, file, pos, blocks, rest);
    NarrowedFits(|FileOf(c, level, DataMembers(SumSizes(es) % U64, blocks))|, SizeOf(c, level, Index(es)), es);
  }

  /** The same for a group of any size whose IDX fits its 32-bit size field. */
  lemma AnyGroupAt(c: Codec, level: nat, file: Bytes, pos: nat, blocks: seq<Bytes>, rest: Bytes)
    requires blocks != [] && BlocksReadable(c, level, SumSizes(EntriesFor(c, level, blocks)) % U64, blocks)
    requires SizeOf(c, level, Index(EntriesFor(c, level, blocks))) < U32
    requires pos <= |file| < U64 && file[pos..] == FileOf(c, level, GroupMembers(c, level, blocks)) + rest
    ensures var es := EntriesFor(c, level, blocks);
            var gc := |FileOf(c, level, DataMembers(SumSizes(es) % U64, blocks))|;
            && gc < U64
            && GroupAt(file, pos) == Narrowed(gc, SizeOf(c, level, Index(es)), es)
            && gc + SizeOf(c, level, Index(es)) == |FileOf(c, level, GroupMembers(c, level, blocks))|
  {
    hide Image, FileOf, BegHeader, ReadU32, ReadU64, SizeOf, Readable, IdxAt, BlocksReadable, SumSizes, EntriesFor, Narrowed;
    var es := EntriesFor(c, level, blocks);
    var gc := SumSizes(es) % U64;
    var idx := Index(es);
    var data := FileOf(c, level, DataMembers(gc, blocks));
    SumIsLength(c, level, gc, blocks);
    assert gc == |data| by { FewEntries(c, level, es); MulLess(|blocks|, 0x2000_0000, MAX_MEMBER); }
    FileOfSnoc(c, level, DataMembers(gc, blocks), idx);
    assert file[pos..] == data + (Image(c, level, idx) + rest);
    assert file[pos + gc..] == file[pos..][gc..] == Image(c, level, idx) + rest;
    FirstHeader(c, level, gc, blocks);
    assert |data| >= 32 && data[..32] == file[pos..pos + 32];
    var zc := SizeOf(c, level, Data(Some(gc), blocks[0]));
    BegFixedOffsets(zc, gc);
    assert file[pos + 24..][..8] == BegHeader(zc, gc)[24..][..8];
    SameReads(file[pos + 24..], BegHeader(zc, gc)[24..]);
    IdxAtEncoded(c, level, file, pos, gc, es, rest);
  }

  /** An IDX below 2^32 bytes lists fewer than 2^29 entries. */
  lemma FewEntries(c: Codec, level: nat, es: seq<IndexEntry>)
    requires SizeOf(c, level, Index(es)) < U32
    ensures |es| < 0x2000_0000
  {
  }

  /** A group starts with the header of its BEG member. */
  lemma FirstHeader(c: Codec, level: nat, gc: u64, blocks: seq<Bytes>)
    requires blocks != [] && BlocksReadable(c, level, gc, blocks)
    ensures var d := FileOf(c, level, DataMembers(gc, blocks)); var zc := SizeOf(c, level, Data(Some(gc), blocks[0]));
            zc < U32 && |d| >= 32 && d[..32] == BegHeader(zc, gc)
  {
    hide Image, FileOf, HeaderOf, BegHeader, SizeOf, Readable;
    var first := Data(Some(gc), blocks[0]);
    var ms := DataMembers(gc, blocks);
    assert DataMember(gc, 0, blocks[0]) == first;
    assert ms == [first] + ms[1..];
    FileOfConcat(c, level, [first], ms[1..]);
    FileOfOne(c, level, first);
    ReadableBounds(c, level, first);
    MemberParts(c, level, first, FileOf(c, level, ms[1..]));
    assert HeaderOf(first, SizeOf(c, level, first)) == BegHeader(SizeOf(c, level, first), gc) by { BegHeaderOf(first, SizeOf(c, level, first)); }
  }

  lemma BegHeaderOf(m: Member, zc: u32)
    requires m.Data? && m.gc.Some?
    ensures HeaderSize(m) == 32 && HeaderOf(m, zc) == BegHeader(zc, m.gc.value)
  {
  }

  /** On built headers the fixed offsets read what the loop over the subfields reads. */
  lemma FixedOffsetsAgree(zc: u32, gc: u64, es: seq<IndexEntry>)
    ensures var h := BegHeader(zc, gc); Interpret(Fields(h[12..])) == Extra(ReadU32(h[16..]), Some(ReadU64(h[24..])), None)
    ensures 1 <= |es| <= MAX_GROUP ==>
              var h := IdxHeader(zc, es);
              |h[24..]| % 8 == 0 && Interpret(Fields(h[12..])) == Extra(ReadU32(h[..24][16..]), None, Some(EntriesOf(h[24..])))
  {
    hide Interpret, Fields, ReadU32, ReadU64, EntriesOf, IxData, BegHeader, IdxHeader;
    BegFixedOffsets(zc, gc);
    BegExtra(zc, gc);
    if 1 <= |es| <= MAX_GROUP {
      IdxFixedOffsets(zc, es);
      IdxExtra(zc, es);
      EntriesRoundTrip(es);
    }
  }

  // --- Scanning encoder output ---

  ghost predicate Agrees(c: Codec, level: nat, ms: seq<Member>, idx: PgzfIndex) {
    exists a :: SoFar(c, level, ms, a) && idx == Seal(a)
  }

  ghost predicate Scannable(c: Codec, level: nat, group: seq<Bytes>) {
    1 <= |group| <= MAX_GROUP && AllReadable(c, level, GroupMembers(c, level, group))
  }

  lemma {:induction false} NumberEntries(g: nat, a: Acc, es: seq<IndexEntry>)
    requires g >= 1 && Numbered(g, a.blocks) && |a.blocks| == a.groupCount * g && |es| <= g
    ensures Numbered(g, AddEntries(a, es).blocks)
    ensures |AddEntries(a, es).blocks| == a.groupCount * g + |es| && AddEntries(a, es).groupCount == a.groupCount
  {
    if es != [] {
      var n := |es| - 1;
      NumberEntries(g, a, es[..n]);
      DivUnique(a.groupCount * g + n, g, a.groupCount);
    }
  }

  /** Scanning groups from group j on, with anything behind them: the loop gets through all of them with
      the vectors right about them, and goes on behind them. */
  lemma {:induction false} ScanThrough(c: Codec, level: nat, g: nat, groups: seq<seq<Bytes>>, j: nat, a: Acc, tail: Bytes)
    returns (b: Acc)
    requires j <= |groups| && SoFar(c, level, Members(c, level, groups[..j]), a)
    requires forall i :: 0 <= i < |groups| ==> Scannable(c, level, groups[i])
    requires g >= 1 && Numbered(g, a.blocks) && a.groupCount == j && (j < |groups| ==> |a.blocks| == j * g)
    requires forall i :: 0 <= i < |groups| ==> |groups[i]| <= g
    requires forall i :: 0 <= i < |groups| - 1 ==> |groups[i]| == g
    requires |FileOf(c, level, Members(c, level, groups)) + tail| < U64 && |Flat(Flat(groups))| < U64
    ensures SoFar(c, level, Members(c, level, groups), b) && Numbered(g, b.blocks) && b.groupCount == |groups|
    ensures var file := FileOf(c, level, Members(c, level, groups));
            Scan(file + tail, |FileOf(c, level, Members(c, level, groups[..j]))|, a) == Scan(file + tail, |file|, b)
    decreases |groups| - j
  {
    hide FileOf, Members, GroupMembers, SoFar, AllReadable, GroupAt, AddEntries, EntriesFor, SizeOf, SumSizes, Numbered, Flat;
    var file, pos := FileOf(c, level, Members(c, level, groups)), |FileOf(c, level, Members(c, level, groups[..j]))|;
    if j == |groups| {
      assert groups[..j] == groups;
      b := a;
    } else {
      var group := groups[j];
      assert Scannable(c, level, group);
      GroupInFile(c, level, groups, j);
      var rest := FileOf(c, level, Members(c, level, groups[j + 1..]));
      BehindGroup(file, pos, FileOf(c, level, GroupMembers(c, level, group)), rest, tail);
      GroupAtEncoded(c, level, file + tail, pos, group, rest + tail);
      SoFarGroup(c, level, Members(c, level, groups[..j]), a, group);
      var es := EntriesFor(c, level, group);
      NumberEntries(g, a, es);
      assert j + 1 < |groups| ==> j * g + g == (j + 1) * g;
      SumsBelow(c, level, groups, j + 1, AddIdx(AddEntries(a, es), SizeOf(c, level, Index(es))));
      b := ScanThrough(c, level, g, groups, j + 1, AddIdx(AddEntries(a, es), SizeOf(c, level, Index(es))), tail);
    }
  }

  lemma BehindGroup(file: Bytes, pos: nat, group: Bytes, rest: Bytes, tail: Bytes)
    requires pos <= |file| && file[pos..] == group + rest
    ensures (file + tail)[pos..] == group + (rest + tail)
  {
    assert (file + tail)[pos..] == file[pos..] + tail;
  }

  /** On a whole file of groups the loop ends with the index that agrees with its members. */
  lemma ScanGroups(c: Codec, level: nat, g: nat, groups: seq<seq<Bytes>>, j: nat, a: Acc)
    requires j <= |groups| && SoFar(c, level, Members(c, level, groups[..j]), a)
    requires forall i :: 0 <= i < |groups| ==> Scannable(c, level, groups[i])
    requires g >= 1 && Numbered(g, a.blocks) && a.groupCount == j && (j < |groups| ==> |a.blocks| == j * g)
    requires forall i :: 0 <= i < |groups| ==> |groups[i]| <= g
    requires forall i :: 0 <= i < |groups| - 1 ==> |groups[i]| == g
    requires |FileOf(c, level, Members(c, level, groups))| < U64 && |Flat(Flat(groups))| < U64
    ensures var r := Scan(FileOf(c, level, Members(c, level, groups)), |FileOf(c, level, Members(c, level, groups[..j]))|, a);
            r.Ok? && Agrees(c, level, Members(c, level, groups), r.value) && Numbered(g, r.value.blocks)
  {
    hide FileOf, Members, SoFar, GroupAt, Numbered, Flat, Scannable;
    var file := FileOf(c, level, Members(c, level, groups));
    assert file + [] == file;
    var b := ScanThrough(c, level, g, groups, j, a, []);
    EndOfFile(file, |file|);
  }

  /** The first groups are no longer than the file and hold no more than its data. */
  lemma SumsBelow(c: Codec, level: nat, groups: seq<seq<Bytes>>, j: nat, a: Acc)
    requires j <= |groups| && SoFar(c, level, Members(c, level, groups[..j]), a)
    ensures a.cumC == |FileOf(c, level, Members(c, level, groups[..j]))| <= |FileOf(c, level, Members(c, level, groups))|
    ensures a.cumU == |Flat(Flat(groups[..j]))| <= |Flat(Flat(groups))|
  {
    hide FileOf, Members, Flat, Blocks;
    assert groups == groups[..j] + groups[j..];
    MembersConcat(c, level, groups[..j], groups[j..]);
    FileOfConcat(c, level, Members(c, level, groups[..j]), Members(c, level, groups[j..]));
    MembersBlocks(c, level, groups[..j]);
    FlatConcat(groups[..j], groups[j..]);
    FlatConcat(Flat(groups[..j]), Flat(groups[j..]));
  }

  lemma EndOfFile(file: Bytes, pos: nat)
    requires pos == |file|
    ensures GroupAt(file, pos) == Finished
  {
  }

  lemma GroupInFile(c: Codec, level: nat, groups: seq<seq<Bytes>>, j: nat)
    requires j < |groups|
    ensures Members(c, level, groups[..j + 1]) == Members(c, level, groups[..j]) + GroupMembers(c, level, groups[j])
    ensures |FileOf(c, level, Members(c, level, groups[..j + 1]))| ==
            |FileOf(c, level, Members(c, level, groups[..j]))| + |FileOf(c, level, GroupMembers(c, level, groups[j]))|
    ensures var file := FileOf(c, level, Members(c, level, groups)); var pos := |FileOf(c, level, Members(c, level, groups[..j]))|;
            pos <= |file| &&
            file[pos..] == FileOf(c, level, GroupMembers(c, level, groups[j])) + FileOf(c, level, Members(c, level, groups[j + 1..]))
  {
    hide FileOf, Members, GroupMembers;
    assert groups[..j + 1] == groups[..j] + [groups[j]];
    MembersSnoc(c, level, groups[..j], groups[j]);
    FileOfConcat(c, level, Members(c, level, groups[..j]), GroupMembers(c, level, groups[j]));
    assert groups == groups[..j + 1] + groups[j + 1..];
    MembersConcat(c, level, groups[..j + 1], groups[j + 1..]);
    FileOfConcat(c, level, Members(c, level, groups[..j + 1]), Members(c, level, groups[j + 1..]));
  }

  lemma MembersConcat(c: Codec, level: nat, a: seq<seq<Bytes>>, b: seq<seq<Bytes>>)
    ensures Members(c, level, a + b) == Members(c, level, a) + Members(c, level, b)
  {
    hide GroupMembers;
    assert GroupsMembers(c, level, a + b) == GroupsMembers(c, level, a) + GroupsMembers(c, level, b);
    FlatConcat(GroupsMembers(c, level, a), GroupsMembers(c, level, b));
  }
}
