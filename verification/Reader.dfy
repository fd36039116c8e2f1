/** `PgzfReader` (src/reader.rs) over a file of readable members. Every method is shown to make the
    step that ReaderMachine.dfy gives for it, on the true blocks of the file. */
module Reader {
  import opened Prelude
  import opened LittleEndian
  import opened Format
  import opened ExtraField
  import opened Container
  import opened FileStream
  import opened RawMember
  import opened IndexSpec
  import opened Index
  import opened Lru
  import opened BlockCaches
  import opened Ranges
  import Machine = ReaderMachine
  import opened Cursor

  const DEFAULT_READAHEAD: nat := 8
  const DEFAULT_BLOCK_CACHE_CAPACITY: nat := 64

  datatype SeekFrom = FromStart(n: nat) | FromEnd(d: Machine.i64) | FromCurrent(d: Machine.i64)

  /** A raw block waiting for decompression, with its block number. */
  datatype RawEntry = RawEntry(index: nat, raw: Bytes, headerSize: nat)

  function Suffix(file: Bytes, pos: nat): Bytes {
    if pos <= |file| then file[pos..] else []
  }

  /** The index is well formed and right about the members. */
  ghost predicate IndexFor(c: Codec, level: nat, ms: seq<Member>, idx: PgzfIndex) {
    WellFormed(idx) && Agrees(c, level, ms, idx)
  }

  lemma IndexFacts(c: Codec, level: nat, ms: seq<Member>, idx: PgzfIndex)
    requires IndexFor(c, level, ms, idx)
    ensures var n := |Blocks(ms)|;
            && |idx.blocks| == n && |idx.compressedOffsets| == |idx.uncompressedOffsets| == n + 1
            && idx.compressedOffsets[n] == |FileOf(c, level, ms)|
            && TotalUncompressed(idx) == |Flat(Blocks(ms))|
    ensures forall i :: 0 <= i <= |Blocks(ms)| ==> idx.uncompressedOffsets[i] == Offset(Blocks(ms), i)
  {
    hide SoFar, FileOf, Flat, WellFormed;
    var a :| SoFar(c, level, ms, a) && idx == Seal(a);
    SealFacts(c, level, ms, a);
    FlatAll(Blocks(ms));
  }

  /** The compressed offset of a block is where its member starts. */
  lemma OffsetIsStart(c: Codec, level: nat, ms: seq<Member>, idx: PgzfIndex, i: nat) returns (k: nat)
    requires IndexFor(c, level, ms, idx) && i < |Blocks(ms)|
    ensures k < |ms| && ms[k].Data? && Count(ms, k) == i && i < |idx.compressedOffsets| && idx.compressedOffsets[i] == Start(c, level, ms, k)
  {
    hide SoFar, FileOf, Flat, WellFormed, Start, Count;
    k := MemberOfBlock(ms, i);
    var a :| SoFar(c, level, ms, a) && idx == Seal(a);
    SealFacts(c, level, ms, a);
  }

  /** At the start of a member the file continues with its image. */
  lemma MemberAhead(c: Codec, level: nat, ms: seq<Member>, k: nat) returns (rest: Bytes)
    requires k < |ms|
    ensures var file := FileOf(c, level, ms);
            && Start(c, level, ms, k) <= |file|
            && file[Start(c, level, ms, k)..] == Image(c, level, ms[k]) + rest
            && Start(c, level, ms, k + 1) == Start(c, level, ms, k) + |Image(c, level, ms[k])|
  {
    hide FileOf, Image;
    assert ms == ms[..k] + ([ms[k]] + ms[k + 1..]);
    FileOfConcat(c, level, ms[..k], [ms[k]] + ms[k + 1..]);
    FileOfConcat(c, level, [ms[k]], ms[k + 1..]);
    FileOfOne(c, level, ms[k]);
    assert ms[..k + 1] == ms[..k] + [ms[k]];
    FileOfSnoc(c, level, ms[..k], ms[k]);
    rest := FileOf(c, level, ms[k + 1..]);
  }

  /** Blocks of readable members are never empty. */
  lemma {:induction false} ReadableNonEmpty(c: Codec, level: nat, ms: seq<Member>)
    requires AllReadable(c, level, ms)
    ensures NonEmpty(Blocks(ms))
  {
    if ms != [] {
      hide Readable;
      var n := |ms| - 1;
      ReadableNonEmpty(c, level, ms[..n]);
      ReadableSizes(c, level, ms[n]);
    }
  }

  /** `seek_byte` finds the block the machine locates. */
  lemma LocateUnique(blocks: seq<Bytes>, b: nat, skip: nat, t: nat)
    requires NonEmpty(blocks) && b <= |blocks| && Offset(blocks, b) + skip == t
    requires skip > 0 ==> b < |blocks| && t < Offset(blocks, b + 1)
    ensures Machine.Locate(blocks, t) == b && t <= |Flat(blocks)|
  {
    hide Flat, Machine.Locate;
    if b < |blocks| {
      FlatSplit(blocks, b);
      FlatAt(blocks, b + 1);
      LocateIn(blocks, b, skip);
    } else {
      FlatAll(blocks);
      LocateEnd(blocks);
    }
  }

  class PgzfReader {
    const codec: Codec
    const inner: Stream
    /** The members the file consists of, and the level they were deflated at. */
    ghost const members: seq<Member>
    ghost const level: nat
    var index: PgzfIndex
    var currentBlock: Bytes
    var currentPos: nat
    var eof: bool
    var pendingSeek: Option<nat>
    var readahead: seq<Bytes>
    var readaheadSize: nat
    var readaheadMemoryLimit: Option<nat>
    var nextBlockIndex: nat
    var blockCache: BlockCache

    ghost predicate Valid()
      reads this, inner, blockCache
    {
      FileOk() && CacheOk() && readaheadSize >= 1
    }

    ghost predicate FileOk()
      reads this, inner
    {
      && inner.data == FileOf(codec, level, members) && AllReadable(codec, level, members)
      && IndexFor(codec, level, members, index)
    }

    /** The cache is right about the blocks. */
    ghost predicate CacheOk()
      reads this, blockCache
    {
      blockCache.Valid() && Sound(TrueBlocks(), blockCache.State())
    }

    ghost function TrueBlocks(): seq<Bytes>
      reads this
    {
      Blocks(members)
    }

    /** The control state, without the file position. */
    function State(): Machine.State
      reads this, blockCache
    {
      Machine.State(currentBlock, currentPos, eof, pendingSeek, readahead, readaheadSize, readaheadMemoryLimit,
                    nextBlockIndex, blockCache.State(), false)
    }

    constructor (c: Codec, stream: Stream, idx: PgzfIndex, ghost lv: nat, ghost ms: seq<Member>)
      requires stream.data == FileOf(c, lv, ms) && AllReadable(c, lv, ms) && IndexFor(c, lv, ms, idx)
      ensures Valid() && fresh(blockCache) && inner == stream && codec == c && level == lv && members == ms
      ensures State() == Machine.Fresh(DEFAULT_READAHEAD, None, Cache([], DEFAULT_BLOCK_CACHE_CAPACITY, None))
      ensures readaheadSize == 8 && blockCache.capacity == 64
    {
      codec, inner, index := c, stream, idx;
      members, level := ms, lv;
      currentBlock, currentPos, eof := [], 0, false;
      pendingSeek, readahead := None, [];
      readaheadSize, readaheadMemoryLimit, nextBlockIndex := DEFAULT_READAHEAD, None, 0;
      blockCache := new BlockCache(DEFAULT_BLOCK_CACHE_CAPACITY, None);
    }

    // --- Raw members ---

    /** `read_one_raw_block`, on any file: the member at the file position, taken apart by the inline
        loop over its subfields. */
    method ReadOneRawBlock() returns (r: Raw, blockIndex: nat)
      modifies this`nextBlockIndex, inner
      ensures inner.data == old(inner.data)
      ensures var o := ParseRaw(Suffix(inner.data, old(inner.pos)));
              && r == o.result && blockIndex == old(nextBlockIndex)
              && nextBlockIndex == old(nextBlockIndex) + (if o.counted then 1 else 0)
              && inner.pos == old(inner.pos) + o.consumed
    {
      hide ParseRaw;
      ghost var s := Suffix(inner.data, inner.pos);
      ghost var pos := inner.pos;
      blockIndex := nextBlockIndex;
      ParseShort(s);
      var headerBuf := inner.ReadExact(GZIP_FIXED_HEADER_SIZE);
      if headerBuf.None? { return End, blockIndex; }
      var xlenBuf := inner.ReadExact(2);
      if xlenBuf.None? { return Failed(UnexpectedEof), blockIndex; }
      DropSlice(inner.data, pos, 0, 10);
      DropSlice(inner.data, pos, 10, 12);
      Adjacent(s, 0, 10, 12);
      assert s[0..12] == s[..12];
      r := ReadTagged(headerBuf.value + xlenBuf.value, s, pos);
    }

    /** The extra field and what follows, once the first twelve bytes are read. */
    method ReadTagged(start: Bytes, ghost s: Bytes, ghost pos: nat) returns (r: Raw)
      requires pos + |s| == |inner.data| && s == inner.data[pos..] && |s| >= 12 && start == s[..12]
      requires inner.pos == pos + 12
      modifies this`nextBlockIndex, inner
      ensures inner.data == old(inner.data)
      ensures var o := ParseRaw(s);
              && r == o.result && inner.pos == pos + o.consumed
              && nextBlockIndex == old(nextBlockIndex) + if o.counted then 1 else 0
    {
      hide Interpret, Fields, RawType, ReadU16, ParseBody, ParseRaw;
      var xlen: nat := ReadU16(start[10..]);
      PrefixWindow(s, 12, 10, 2);
      SameReads(s[10..], start[10..]);
      ParseShort(s);
      var extra := inner.ReadExact(xlen);
      if extra.None? { return Failed(UnexpectedEof); }
      DropSlice(inner.data, pos, 12, 12 + xlen);
      var zc, blockType := ScanTags(extra.value);
      if blockType != Idx {
        nextBlockIndex := nextBlockIndex + 1;
      }
      var front := start + extra.value;
      assert s[0..12] == s[..12] && s[0..12 + xlen] == s[..12 + xlen];
      Adjacent(s, 0, 12, 12 + xlen);
      ParseHead(s, xlen, zc, blockType);
      r := ReadBody(front, zc, blockType, s, pos);
    }

    /** The checks on ZC and the bytes after the extra field. */
    method ReadBody(front: Bytes, zc: u32, blockType: BlockType, ghost s: Bytes, ghost start: nat) returns (r: Raw)
      requires start + |s| == |inner.data| && s == inner.data[start..] && |front| <= |s| && front == s[..|front|]
      requires inner.pos == start + |front|
      modifies inner
      ensures inner.data == old(inner.data)
      ensures var o := ParseBody(s, |front|, zc, blockType);
              r == o.result && inner.pos == start + o.consumed
    {
      if zc == 0 { return End; }
      if zc > MAX_MEMBER { return Failed(InvalidFormat); }
      if zc < |front| { return Panicked; }
      var rest := inner.ReadExact(zc - |front|);
      if rest.None? { return Failed(UnexpectedEof); }
      var raw := front + rest.value;
      DropSlice(inner.data, start, |front|, zc);
      assert front == s[0..|front|];
      Adjacent(s, 0, |front|, zc);
      assert raw == s[..zc];
      r := Block(raw, |front|, blockType);
    }

    /** At the start of member k the raw reader takes exactly that member. */
    method ReadMember(ghost k: nat) returns (r: Raw, blockIndex: nat)
      requires inner.data == FileOf(codec, level, members) && AllReadable(codec, level, members)
      requires k < |members| && inner.pos == Start(codec, level, members, k)
      modifies this`nextBlockIndex, inner
      ensures inner.data == old(inner.data)
      ensures r == Block(Image(codec, level, members[k]), HeaderSize(members[k]), TypeOf(members[k]))
      ensures blockIndex == old(nextBlockIndex)
      ensures nextBlockIndex == old(nextBlockIndex) + if members[k].Data? then 1 else 0
      ensures inner.pos == Start(codec, level, members, k + 1)
    {
      hide FileOf, Image, SizeOf, ParseRaw, Readable;
      ghost var rest := MemberAhead(codec, level, members, k);
      RawOfMember(codec, level, members[k], rest);
      ReadableBounds(codec, level, members[k]);
      r, blockIndex := ReadOneRawBlock();
    }

    /** The next block to come is not past the last member. */
    lemma MoreMembers(k: nat, hi: nat)
      requires k <= |members| && Count(members, k) < hi <= |Blocks(members)|
      ensures k < |members|
    {
      hide Count;
      CountAll(members);
    }

    /** One turn of the raw loop: IDX members are skipped without being counted. */
    method ReadNext(ghost k: nat, allRaw: seq<RawEntry>) returns (out: seq<RawEntry>, isData: bool)
      requires FileOk() && k < |members| && inner.pos == Start(codec, level, members, k)
      requires nextBlockIndex == Count(members, k) && RawsFor(codec, Blocks(members), allRaw)
      modifies this`nextBlockIndex, inner
      ensures FileOk() && inner.pos == Start(codec, level, members, k + 1) && nextBlockIndex == Count(members, k + 1)
      ensures isData == members[k].Data? && RawsFor(codec, Blocks(members), out)
      ensures Indices(out) == Indices(allRaw) + if isData then [old(nextBlockIndex)] else []
    {
      hide FileOf, Image, AllReadable, IndexFor, Blocks, DecompressRaw;
      var r, _ := ReadMember(k); // a Block, since the file consists of readable members
      BlockOfMember(members, k);
      isData := r.blockType != Idx;
      if isData {
        assert Readable(codec, level, members[k]) by { ReadableAt(codec, level, members, k); }
        DecompressOfMember(codec, level, members[k]);
        out := allRaw + [RawEntry(nextBlockIndex - 1, r.raw, r.headerSize)];
      } else {
        out := allRaw;
        assert Indices(out) == Indices(allRaw) + [];
      }
    }

    /** Reads the members of blocks lo..hi after seeking to the first. */
    method ReadRange(r: Range, allRaw: seq<RawEntry>) returns (out: seq<RawEntry>)
      requires FileOk() && r.lo < r.hi <= |Blocks(members)| && RawsFor(codec, Blocks(members), allRaw)
      modifies this`nextBlockIndex, inner
      ensures FileOk() && nextBlockIndex == r.hi
      ensures RawsFor(codec, Blocks(members), out) && Indices(out) == Indices(allRaw) + Span(r)
    {
      hide FileOf, AllReadable, IndexFor, Blocks, RawsFor, Count, Start, Indices, Span;
      ghost var k := OffsetIsStart(codec, level, members, index, r.lo);
      inner.SeekTo(index.compressedOffsets[r.lo]);
      nextBlockIndex := r.lo;
      out := allRaw;
      var rangeLen := r.hi - r.lo;
      var blocksRead := 0;
      SpanStart(Indices(allRaw), r.lo);
      while blocksRead < rangeLen
        invariant FileOk() && k <= |members| && inner.pos == Start(codec, level, members, k)
        invariant nextBlockIndex == Count(members, k) == r.lo + blocksRead && blocksRead <= rangeLen
        invariant RawsFor(codec, Blocks(members), out)
        invariant Indices(out) == Indices(allRaw) + Span(Range(r.lo, r.lo + blocksRead))
        decreases |members| - k
      {
        MoreMembers(k, r.hi);
        BlockOfMember(members, k);
        SpanNext(Indices(allRaw), r.lo, nextBlockIndex);
        var isData;
        out, isData := ReadNext(k, out);
        if isData {
          blocksRead := blocksRead + 1;
        }
        k := k + 1;
      }
    }

    /** All uncached runs of a window. */
    method ReadRanges(ranges: seq<Range>) returns (out: seq<RawEntry>)
      requires FileOk() && Maximal(ranges)
      requires forall i :: 0 <= i < |ranges| ==> ranges[i].hi <= |Blocks(members)|
      modifies this`nextBlockIndex, inner
      ensures FileOk() && RawsFor(codec, Blocks(members), out) && Indices(out) == Unroll(ranges)
      ensures ranges != [] ==> nextBlockIndex == ranges[|ranges| - 1].hi
    {
      hide FileOf, AllReadable, IndexFor, Blocks, RawsFor, Indices, Span;
      out := [];
      NoRaws(codec, Blocks(members));
      for i := 0 to |ranges|
        invariant FileOk() && RawsFor(codec, Blocks(members), out)
        invariant Indices(out) == Unroll(ranges[..i])
        invariant i > 0 ==> nextBlockIndex == ranges[i - 1].hi
      {
        assert ranges[..i + 1][..i] == ranges[..i];
        out := ReadRange(ranges[i], out);
      }
      assert ranges[..|ranges|] == ranges;
    }

    /** The ordered parallel map over the raw blocks. */
    method DecompressAll(raws: seq<RawEntry>) returns (out: seq<Bytes>)
      requires RawsFor(codec, Blocks(members), raws)
      ensures |out| == |raws|
      ensures forall i :: 0 <= i < |raws| ==> raws[i].index < |Blocks(members)| && out[i] == Blocks(members)[raws[i].index]
    {
      hide Blocks, DecompressRaw;
      out := [];
      for i := 0 to |raws|
        invariant |out| == i
        invariant forall j :: 0 <= j < i ==> raws[j].index < |Blocks(members)| && out[j] == Blocks(members)[raws[j].index]
      {
        var data := DecompressRaw(codec, raws[i].raw, raws[i].headerSize);
        assert RawFor(codec, Blocks(members), raws[i]);
        out := out + [data.value]; // never an error: the CRC of every member matches
      }
    }

    // --- The readahead window ---

    /** Phase 1: probes the cache for every block of the window and collects the misses. */
    method CollectMisses(lo: nat, hi: nat) returns (nonCached: seq<nat>)
      requires CacheOk() && lo <= hi
      modifies blockCache
      ensures CacheOk() && blockCache.State() == Machine.GetAll(old(blockCache.State()), lo, hi)
      ensures nonCached == Machine.Misses(old(blockCache.State()), lo, hi)
    {
      hide Lru.Get, Sound, Lookup;
      ghost var c := blockCache.State();
      nonCached := [];
      for blockIdx := lo to hi
        invariant CacheOk() && blockCache.State() == Machine.GetAll(c, lo, blockIdx)
        invariant nonCached == Machine.Misses(c, lo, blockIdx)
      {
        SoundGetAll(TrueBlocks(), c, lo, blockIdx);
        SoundGet(TrueBlocks(), blockCache.State(), blockIdx);
        DisabledIsEmpty(TrueBlocks(), blockCache.State(), blockIdx);
        var hit := blockCache.Get(blockIdx);
        assert hit.Some? <==> Machine.Cached(c, blockIdx);
        if hit.None? {
          nonCached := nonCached + [blockIdx];
        }
      }
    }

    /** The results vector: cached blocks filled in, the others left open. */
    method CollectHits(lo: nat, hi: nat) returns (results: seq<Option<Bytes>>)
      requires CacheOk() && lo <= hi
      modifies blockCache
      ensures CacheOk() && blockCache.State() == Machine.GetAll(old(blockCache.State()), lo, hi)
      ensures |results| == hi - lo
      ensures forall j :: 0 <= j < hi - lo ==>
                results[j] == if Machine.Cached(old(blockCache.State()), lo + j)
                              then Some(Lookup(old(blockCache.State()).entries, lo + j).value) else None
    {
      hide Lru.Get, Sound, Lookup;
      ghost var c := blockCache.State();
      results := [];
      for blockIdx := lo to hi
        invariant CacheOk() && blockCache.State() == Machine.GetAll(c, lo, blockIdx)
        invariant |results| == blockIdx - lo
        invariant forall j :: 0 <= j < blockIdx - lo ==>
                    results[j] == if Machine.Cached(c, lo + j) then Some(Lookup(c.entries, lo + j).value) else None
      {
        SoundGetAll(TrueBlocks(), c, lo, blockIdx);
        SoundGet(TrueBlocks(), blockCache.State(), blockIdx);
        SameHit(TrueBlocks(), c, blockCache.State(), blockIdx);
        var hit := blockCache.Get(blockIdx);
        results := results + [hit];
      }
    }

    /** Puts the decompressed blocks into the cache and into the results, in order. */
    method StoreAll(raws: seq<RawEntry>, blocks: seq<Bytes>, lo: nat, results: seq<Option<Bytes>>)
      returns (filled: seq<Option<Bytes>>)
      requires CacheOk() && |blocks| == |raws|
      requires forall i :: 0 <= i < |raws| ==> raws[i].index < |TrueBlocks()| && blocks[i] == TrueBlocks()[raws[i].index]
      requires forall i :: 0 <= i < |raws| ==> lo <= raws[i].index < lo + |results|
      modifies blockCache
      ensures CacheOk() && blockCache.State() == Machine.InsertAll(old(blockCache.State()), Indices(raws), TrueBlocks())
      ensures |filled| == |results|
      ensures forall j :: 0 <= j < |results| ==>
                filled[j] == if lo + j in Indices(raws) && lo + j < |TrueBlocks()| then Some(TrueBlocks()[lo + j]) else results[j]
    {
      hide Lru.Insert, Sound, Lookup, Blocks;
      ghost var c := blockCache.State();
      filled := results;
      for i := 0 to |raws|
        invariant CacheOk() && blockCache.State() == Machine.InsertAll(c, Indices(raws)[..i], TrueBlocks())
        invariant |filled| == |results|
        invariant forall j :: 0 <= j < |results| ==>
                    filled[j] == if lo + j in Indices(raws)[..i] && lo + j < |TrueBlocks()| then Some(TrueBlocks()[lo + j]) else results[j]
      {
        var k := raws[i].index;
        assert Indices(raws)[..i + 1] == Indices(raws)[..i] + [k];
        assert Indices(raws)[..i + 1][..i] == Indices(raws)[..i];
        SoundInsert(TrueBlocks(), blockCache.State(), k);
        blockCache.Insert(k, blocks[i]);
        filled := filled[k - lo := Some(blocks[i])];
      }
      assert Indices(raws)[..|raws|] == Indices(raws);
    }

    function MemoryUsage(): nat
      reads this, blockCache
    {
      blockCache.currentMemoryBytes + |Flat(readahead)| + |currentBlock|
    }

    /** Reads, decompresses and stores the uncached runs, then goes to the end of the last one. */
    method ReadMisses(ranges: seq<Range>, nonCached: seq<nat>, lo: nat, hi: nat, results: seq<Option<Bytes>>)
      returns (filled: seq<Option<Bytes>>)
      requires FileOk() && CacheOk() && ranges != [] && Maximal(ranges) && Unroll(ranges) == nonCached
      requires lo <= hi <= |TrueBlocks()| && |results| == hi - lo
      requires forall i :: 0 <= i < |nonCached| ==> lo <= nonCached[i] < hi
      modifies this`nextBlockIndex, inner, blockCache
      ensures FileOk() && CacheOk() && nextBlockIndex == ranges[|ranges| - 1].hi
      ensures blockCache.State() == Machine.InsertAll(old(blockCache.State()), nonCached, TrueBlocks())
      ensures |filled| == |results|
      ensures forall j :: 0 <= j < |results| ==>
                filled[j] == if lo + j in nonCached then Some(TrueBlocks()[lo + j]) else results[j]
    {
      hide Blocks, Sound, RawsFor, Indices, Unroll, Maximal, FileOf, AllReadable, IndexFor, Machine.InsertAll, Lookup;
      IndexFacts(codec, level, members, index);
      RangesInside(ranges, nonCached, hi);
      var lastEnd := ranges[|ranges| - 1].hi;
      var lastEndOffset := index.compressedOffsets[lastEnd];
      var allRaw := ReadRanges(ranges);
      var blocks := DecompressAll(allRaw);
      IndicesAt(allRaw);
      filled := StoreAll(allRaw, blocks, lo, results);
      inner.SeekTo(lastEndOffset);
      nextBlockIndex := lastEnd;
    }

    /** Fills the window lo..hi: probes, reads the uncached runs, decompresses, stores. */
    method FillWindow(lo: nat, hi: nat)
      requires Valid() && readahead == [] && lo == nextBlockIndex < hi <= |TrueBlocks()|
      modifies this`readahead, this`nextBlockIndex, inner, blockCache
      ensures Valid() && |readahead| == hi - lo
      ensures var c := old(blockCache.State()); var m := Machine.Misses(c, lo, hi);
              && blockCache.State() == Machine.InsertAll(Machine.GetAll(Machine.GetAll(c, lo, hi), lo, hi), m, TrueBlocks())
              && nextBlockIndex == Machine.EndOfMisses(m, hi)
              && readahead == Machine.Assemble(c, TrueBlocks(), lo, hi)
    {
      hide Blocks, Sound, Unroll, Maximal, FileOf, AllReadable, IndexFor, Machine.Misses, Machine.GetAll,
        Machine.InsertAll, Lookup;
      ghost var c := blockCache.State();
      MissesFacts(c, lo, hi);
      MissesIncreasing(c, lo, hi);
      var nonCached := CollectMisses(lo, hi);
      SoundGetAll(TrueBlocks(), c, lo, hi);
      var ranges := GroupContiguous(nonCached);
      ghost var c1 := blockCache.State();
      var results := CollectHits(lo, hi);
      SameResults(TrueBlocks(), c, c1, lo, hi, results);
      if ranges != [] {
        results := ReadMisses(ranges, nonCached, lo, hi, results);
      } else {
        nextBlockIndex := hi;
        NothingStored(blockCache.State(), TrueBlocks());
      }
      AssembleResults(TrueBlocks(), c, lo, hi, nonCached, results);
      readahead := Flatten(results);
    }

    /** `fill_readahead`; false when it panics. */
    method FillReadahead() returns (ok: bool)
      requires Valid()
      modifies this`readahead, this`nextBlockIndex, this`eof, inner, blockCache
      ensures Valid() && State() == Machine.Fill(TrueBlocks(), old(State()))
      ensures ok <==> !Machine.Overflows(TrueBlocks(), old(State()))
    {
      hide Blocks, Sound, FileOf, AllReadable, IndexFor, Machine.Misses, Machine.GetAll, Machine.InsertAll, Machine.Assemble, Memory;
      if readahead != [] { return true; }
      if readaheadMemoryLimit.Some? {
        if MemoryUsage() >= readaheadMemoryLimit.value { return true; }
      }
      IndexFacts(codec, level, members, index);
      var totalBlocks := |index.blocks|;
      var start := nextBlockIndex;
      if start >= totalBlocks {
        eof := true;
        return true;
      }
      if start + readaheadSize >= U64 { return false; }
      var end := Min(totalBlocks, start + readaheadSize);
      FillWindow(start, end);
      eof := eof || (readahead == [] && end >= totalBlocks); // not on a file of readable members
      ok := true;
    }

    // --- Seeking and reading ---

    /** `seek_to_byte`: only remembers the target. */
    method SeekToByte(offset: nat)
      requires Valid()
      modifies this`pendingSeek, this`nextBlockIndex, this`currentBlock, this`currentPos, this`readahead
      ensures Valid() && State() == Machine.SeekTo(old(State()), offset)
    {
      hide FileOf, AllReadable, IndexFor, Sound;
      pendingSeek := Some(offset);
      nextBlockIndex := 0;
      currentBlock := [];
      currentPos := 0;
      readahead := [];
    }

    /** `Seek::seek` for the three origins; the i64 sums wrap to u64. */
    method Seek(pos: SeekFrom) returns (target: nat)
      requires Valid()
      modifies this`pendingSeek, this`nextBlockIndex, this`currentBlock, this`currentPos, this`readahead
      ensures Valid()
      ensures target == match pos
                        case FromStart(n) => n
                        case FromEnd(n) => Machine.AsU64(|Flat(TrueBlocks())| + n)
                        case FromCurrent(n) => Machine.AsU64(old(currentPos) + n)
      ensures State() == Machine.SeekTo(old(State()), target)
    {
      hide FileOf, AllReadable, IndexFor, Sound, Flat, Blocks, TotalUncompressed;
      IndexFacts(codec, level, members, index);
      var total := TotalUncompressed(index);
      match pos {
        case FromStart(n) => target := n;
        case FromEnd(n) => target := Machine.AsU64(total + n);
        case FromCurrent(n) => target := Machine.AsU64(currentPos + n);
      }
      SeekToByte(target);
    }

    /** `seek_to_block`: positions the file, but restarts block counting at 0. */
    method SeekToBlock(blockIndex: int) returns (ok: bool)
      requires Valid()
      modifies this`pendingSeek, this`nextBlockIndex, this`currentBlock, this`currentPos, this`readahead, this`eof, inner
      ensures Valid()
      ensures ok == Machine.Resolve(TrueBlocks(), blockIndex).Some?
      ensures State() == if ok then Machine.SeekToBlock(old(State())) else old(State())
      ensures ok ==> inner.pos == index.compressedOffsets[Machine.Resolve(TrueBlocks(), blockIndex).value]
    {
      hide FileOf, AllReadable, Sound, Blocks, WellFormed, Agrees;
      IndexFacts(codec, level, members, index);
      var r := SeekBlock(index, blockIndex);
      if r.Err? { return false; }
      inner.SeekTo(r.value);
      nextBlockIndex := 0;
      currentBlock := [];
      currentPos := 0;
      eof := false;
      pendingSeek := None;
      readahead := [];
      ok := true;
    }

    /** Takes the front of the readahead queue, or notes the end of the file. */
    method PopFront(pos: nat)
      requires Valid()
      modifies this`readahead, this`currentBlock, this`currentPos, this`eof
      ensures Valid() && State() == Machine.Pop(old(State()), pos)
    {
      hide FileOf, AllReadable, IndexFor, Sound, Blocks;
      if readahead != [] {
        currentBlock := readahead[0];
        currentPos := pos;
        readahead := readahead[1..];
      } else {
        eof := true;
      }
    }

    /** Lands `skip` bytes into a block: from the cache, or through a refill that starts there; false
        when that panics. */
    method Land(blockIdx: nat, skip: nat) returns (ok: bool)
      requires Valid() && blockIdx <= |TrueBlocks()|
      modifies this, inner, blockCache
      ensures Valid() && blockCache == old(blockCache)
      ensures State() == if Machine.Cached(old(State()).cache, blockIdx)
                         then old(State()).(current := Lookup(old(State()).cache.entries, blockIdx).value, pos := skip,
                                            next := blockIdx + 1, cache := Lru.Get(old(State()).cache, blockIdx))
                         else if Machine.Overflows(TrueBlocks(), old(State()).(next := blockIdx))
                         then old(State()).(next := blockIdx)
                         else Machine.Pop(Machine.Fill(TrueBlocks(), old(State()).(next := blockIdx)), skip)
      ensures ok <==> Machine.Cached(old(State()).cache, blockIdx) ||
                      !Machine.Overflows(TrueBlocks(), old(State()).(next := blockIdx))
    {
      hide FileOf, Blocks, Machine.Fill, Machine.Starved, Machine.WindowFits, Lookup, AllReadable, IndexFor, Sound, Memory;
      IndexFacts(codec, level, members, index);
      HitIff(TrueBlocks(), blockCache.State(), blockIdx);
      assert Sound(TrueBlocks(), Lru.Get(blockCache.State(), blockIdx)) by { SoundGet(TrueBlocks(), blockCache.State(), blockIdx); }
      var cached := blockCache.Get(blockIdx);
      if cached.Some? {
        currentBlock := cached.value;
        currentPos := skip;
        inner.SeekTo(index.compressedOffsets[blockIdx + 1]);
        nextBlockIndex := blockIdx + 1;
        ok := true;
      } else {
        inner.SeekTo(index.compressedOffsets[blockIdx]);
        nextBlockIndex := blockIdx;
        NoFill(TrueBlocks(), State());
        ok := FillReadahead();
        if ok { PopFront(skip); }
      }
    }

    /** The lookup of a pending target: false beyond the end of the data. */
    method FindTarget(targetByte: nat) returns (r: Result<(nat, nat)>)
      requires Valid()
      ensures r.Ok? <==> targetByte <= |Flat(TrueBlocks())|
      ensures r.Ok? ==> r.value.0 == Machine.Locate(TrueBlocks(), targetByte) && r.value.0 <= |TrueBlocks()|
      ensures r.Ok? ==> r.value.1 == Max(targetByte - Offset(TrueBlocks(), r.value.0), 0)
    {
      hide FileOf, Blocks, Machine.Locate, Flat, TotalUncompressed, AllReadable, IndexFor, Sound;
      IndexFacts(codec, level, members, index);
      IndexIsWellFormed(codec, level, members, index);
      r := SeekByte(index, targetByte);
      if r.Ok? {
        ReadableNonEmpty(codec, level, members);
        LocateUnique(TrueBlocks(), r.value.0, r.value.1, targetByte);
      }
    }

    /** `execute_pending_seek`. */
    method ExecutePendingSeek() returns (error: Option<Error>)
      requires Valid()
      modifies this, inner, blockCache
      ensures Valid() && blockCache == old(blockCache)
      ensures (State(), error) == Machine.RunPending(TrueBlocks(), old(State()))
    {
      hide FileOf, Blocks, Machine.Fill, Machine.Locate, Machine.Pop, Flat, Lookup, AllReadable, IndexFor, Sound, Machine.Cached, Lru.Get;
      if pendingSeek.None? { return None; }
      var targetByte := pendingSeek.value;
      pendingSeek := None;
      var r := FindTarget(targetByte);
      if r.Err? { return Some(SeekBeyondEnd); }
      var (blockIdx, skip) := r.value;
      currentBlock := [];
      currentPos := 0;
      eof := false;
      readahead := [];
      var ok := Land(blockIdx, skip);
      error := if ok then None else Some(Panic);
    }

    /** `Read::read` into a caller's buffer: the bytes go to its front, the rest is untouched. */
    method Read(buf: array<byte>) returns (r: Result<nat>)
      requires Valid()
      modifies this, inner, blockCache, buf
      ensures Valid() && blockCache == old(blockCache)
      ensures var (s, want) := Machine.Read(TrueBlocks(), old(State()), buf.Length);
              && State() == s
              && (r.Ok? <==> want.Ok?) && (r.Err? ==> r.error == want.error)
              && (r.Ok? ==> r.value == |want.value| <= buf.Length && buf[..r.value] == want.value &&
                            buf[r.value..] == old(buf[..])[r.value..])
              && (r.Err? ==> buf[..] == old(buf[..]))
    {
      hide FileOf, Blocks, Machine.Fill, Machine.RunPending, AllReadable, IndexFor, Sound;
      if buf.Length == 0 { return Ok(0); }
      var error := ExecutePendingSeek();
      if error.Some? { return Err(error.value); }
      r := ServeInto(buf);
    }

    /** The rest of `read`, once no seek is pending. */
    method ServeInto(buf: array<byte>) returns (r: Result<nat>)
      requires Valid() && buf.Length > 0
      modifies this, inner, blockCache, buf
      ensures Valid() && blockCache == old(blockCache)
      ensures var (s, want) := Machine.Serve(TrueBlocks(), old(State()), buf.Length);
              && State() == s
              && (r.Ok? <==> want.Ok?) && (r.Err? ==> r.error == want.error)
              && (r.Ok? ==> r.value == |want.value| <= buf.Length && buf[..r.value] == want.value &&
                            buf[r.value..] == old(buf[..])[r.value..])
              && (r.Err? ==> buf[..] == old(buf[..]))
    {
      hide FileOf, Blocks, Machine.Fill, AllReadable, IndexFor, Sound, Machine.Starved, Machine.WindowFits;
      if currentPos < |currentBlock| {
        var take := Min(|currentBlock| - currentPos, buf.Length);
        CopyInto(buf, 0, currentBlock[currentPos..currentPos + take]);
        currentPos := currentPos + take;
        return Ok(take);
      }
      if eof { return Ok(0); }
      if readahead == [] {
        NoFill(TrueBlocks(), State());
        var ok := FillReadahead();
        if !ok { return Err(Panic); }
      }
      if readahead == [] {
        eof := true;
        return Ok(0);
      }
      var take := Min(|readahead[0]|, buf.Length);
      PopFront(take);
      CopyInto(buf, 0, currentBlock[..take]);
      r := Ok(take);
    }

    /** `read_blocks`: the data of blocks start..start + count, across any group boundaries. */
    method ReadBlocks(startBlock: nat, count: nat) returns (r: Result<Bytes>)
      requires Valid()
      modifies this, inner, blockCache
      ensures Valid() && blockCache == old(blockCache)
      ensures (State(), r) == Machine.ReadBlocks(TrueBlocks(), old(State()), startBlock, count)
    {
      hide FileOf, Blocks, AllReadable, IndexFor, Sound, RawsFor, Flat, Unroll, Indices, Span;
      IndexFacts(codec, level, members, index);
      var totalBlocks := |index.blocks|;
      if startBlock >= totalBlocks { return Err(SeekBeyondEnd); }
      if startBlock + count >= U64 { return Err(Panic); }
      var endBlock := Min(totalBlocks, startBlock + count);
      var actualCount := endBlock - startBlock;
      if actualCount == 0 { return Ok([]); }
      NoRaws(codec, TrueBlocks());
      var rawBatch := ReadRange(Range(startBlock, endBlock), []);
      var decompressed := DecompressAll(rawBatch);
      RangeIndices(rawBatch, Range(startBlock, endBlock));
      assert decompressed == TrueBlocks()[startBlock..endBlock];
      var result := Concatenate(decompressed);
      currentBlock := [];
      currentPos := 0;
      eof := false;
      pendingSeek := None;
      readahead := [];
      r := Ok(result);
    }

    method SetReadaheadSize(n: nat)
      requires Valid()
      modifies this`readaheadSize
      ensures Valid() && State() == old(State()).(ahead := Max(n, 1))
    {
      hide FileOf, Blocks, AllReadable, IndexFor, Sound;
      readaheadSize := Max(n, 1);
    }

    /** `set_block_cache_capacity` and the two cache builders: a new, empty cache. */
    method SetBlockCache(capacity: nat, maxMemoryBytes: Option<nat>)
      requires Valid()
      modifies this`blockCache
      ensures Valid() && fresh(blockCache)
      ensures State() == old(State()).(cache := Cache([], capacity, maxMemoryBytes))
    {
      hide FileOf, Blocks, AllReadable, IndexFor;
      blockCache := new BlockCache(capacity, maxMemoryBytes);
    }

    /** `with_readahead_memory_limit`. */
    method SetReadaheadMemoryLimit(maxBytes: nat)
      requires Valid()
      modifies this`readaheadMemoryLimit
      ensures Valid() && State() == old(State()).(limit := Some(maxBytes))
    {
      hide FileOf, Blocks, AllReadable, IndexFor, Sound;
      readaheadMemoryLimit := Some(maxBytes);
    }
  }

  lemma NoFill(blocks: seq<Bytes>, s: Machine.State)
    ensures Machine.Overflows(blocks, s) ==> Machine.Fill(blocks, s) == s
  {
  }

  method Concatenate(pieces: seq<Bytes>) returns (result: Bytes)
    ensures result == Flat(pieces)
  {
    hide Flat;
    result := [];
    FlatNone();
    for i := 0 to |pieces|
      invariant result == Flat(pieces[..i])
    {
      FlatSnoc(pieces[..i], pieces[i]);
      assert pieces[..i + 1] == pieces[..i] + [pieces[i]];
      result := result + pieces[i];
    }
    assert pieces[..|pieces|] == pieces;
  }

  lemma FlatNone()
    ensures Flat<byte>([]) == [] && forall s: seq<Bytes> :: s[..0] == []
  {
  }

  lemma RangeIndices(raws: seq<RawEntry>, r: Range)
    requires r.lo <= r.hi && Indices(raws) == [] + Span(r)
    ensures |raws| == r.hi - r.lo && forall i :: 0 <= i < |raws| ==> raws[i].index == r.lo + i
  {
    assert forall i :: 0 <= i < |raws| ==> Indices(raws)[i] == raws[i].index;
  }

  // --- Opening ---

  /** The header check of `PgzfReader::new`: whether the file is PGZF at all. */
  function HeaderCheck(file: Bytes): Result<bool> {
    if |file| < GZIP_FIXED_HEADER_SIZE then Err(UnexpectedEof)
    else
      var v := ValidateGzipHeader(file[..GZIP_FIXED_HEADER_SIZE]);
      if v.Err? then Err(v.error) else Ok(IsPgzfMember(v.value.0, v.value.1))
  }

  /** Encoder output opens as PGZF exactly when there is any data: no data leaves an empty file. */
  lemma OpensIff(c: Codec, cfg: Config, data: Bytes)
    requires Lawful(c, cfg) && GroupsFit(cfg, data)
    ensures HeaderCheck(Encode(c, cfg, data)) == Ok(true) <==> data != []
    ensures data == [] ==> HeaderCheck(Encode(c, cfg, data)) == Err(UnexpectedEof)
  {
    hide Lawful, GroupsFit, Members, FileOf, Chunks, AllReadable;
    LawfulSizes(c, cfg);
    var ms := Layout(c, cfg, data);
    if data == [] {
      EmptyLayout(c, cfg);
    } else {
      LayoutBlocks(c, cfg, data);
      LayoutReadable(c, cfg, data);
      NoMembersNoData(ms, data);
      FirstMagic(c, cfg.level, ms);
    }
  }

  lemma EmptyLayout(c: Codec, cfg: Config)
    requires cfg.blockSize >= 1
    ensures Encode(c, cfg, []) == []
  {
    MembersNone(c, cfg.level);
  }

  lemma NoMembersNoData(ms: seq<Member>, data: Bytes)
    requires Flat(Blocks(ms)) == data && data != []
    ensures ms != []
  {
  }

  lemma FirstMagic(c: Codec, level: nat, ms: seq<Member>)
    requires ms != [] && AllReadable(c, level, ms)
    ensures HeaderCheck(FileOf(c, level, ms)) == Ok(true)
  {
    hide FileOf, Image, HeaderOf, ValidateGzipHeader, IsPgzfMember, Readable;
    var rest := MemberAhead(c, level, ms, 0);
    assert ms[..0] == [];
    FileOfOne(c, level, ms[0]);
    assert FileOf(c, level, ms)[0..] == FileOf(c, level, ms);
    ReadableAt(c, level, ms, 0);
    MemberParts(c, level, ms[0], rest);
    var zc := SizeOf(c, level, ms[0]);
    HeaderMagic(ms[0], zc);
    SlicesOfPrefix(FileOf(c, level, ms), HeaderOf(ms[0], zc), HeaderSize(ms[0]));
  }

  /** `PgzfReader::new` on encoder output with any data in it. */
  method Open(c: Codec, stream: Stream, ghost cfg: Config, ghost data: Bytes) returns (reader: PgzfReader)
    requires Lawful(c, cfg) && Indexable(c, cfg, data) && data != [] && stream.data == Encode(c, cfg, data)
    modifies stream
    ensures stream.data == old(stream.data) && stream.pos == 0
    ensures fresh(reader) && fresh(reader.blockCache) && reader.Valid() && reader.inner == stream && reader.codec == c
    ensures reader.members == Layout(c, cfg, data) && reader.level == cfg.level
    ensures reader.TrueBlocks() == Chunks(cfg.blockSize, data)
    ensures reader.State() == Machine.Fresh(DEFAULT_READAHEAD, None, Cache([], DEFAULT_BLOCK_CACHE_CAPACITY, None))
  {
    hide Lawful, GroupsFit, Layout, FileOf, AllReadable, Agrees, Numbered, WellFormed, Scan, ValidateGzipHeader, Chunks, Blocks;
    LawfulSizes(c, cfg);
    OpensIff(c, cfg, data);
    ScanEncoded(c, cfg, data);
    LayoutReadable(c, cfg, data);
    LayoutBlocks(c, cfg, data);
    stream.SeekTo(0);
    var header := stream.ReadExact(GZIP_FIXED_HEADER_SIZE);
    var v := ValidateGzipHeader(header.value);
    var isPgzf := IsPgzfMember(v.value.0, v.value.1);
    assert isPgzf; // HeaderCheck says so
    stream.SeekTo(0);
    var index := Build(stream);
    stream.SeekTo(0);
    reader := new PgzfReader(c, stream, index.value, cfg.level, Layout(c, cfg, data));
  }

  /** `results.into_iter().flatten()`. */
  function Flatten(results: seq<Option<Bytes>>): seq<Bytes> {
    if results == [] then []
    else Flatten(results[..|results| - 1]) + if results[|results| - 1].Some? then [results[|results| - 1].value] else []
  }

  lemma {:induction false} FlattenAll(results: seq<Option<Bytes>>, want: seq<Bytes>)
    requires |results| == |want| && forall j :: 0 <= j < |want| ==> results[j] == Some(want[j])
    ensures Flatten(results) == want
  {
    if want != [] {
      var n := |want| - 1;
      FlattenAll(results[..n], want[..n]);
      assert want == want[..n] + [want[n]];
    }
  }

  /** Probing twice finds the same blocks. */
  lemma SameResults(blocks: seq<Bytes>, c: Cache, d: Cache, lo: nat, hi: nat, results: seq<Option<Bytes>>)
    requires Sound(blocks, c) && Sound(blocks, d) && lo <= hi <= |blocks| && |results| == hi - lo
    requires forall k: nat :: Machine.Cached(d, k) <==> Machine.Cached(c, k)
    requires forall j :: 0 <= j < hi - lo ==>
               results[j] == if Machine.Cached(d, lo + j) then Some(Lookup(d.entries, lo + j).value) else None
    ensures forall j :: 0 <= j < hi - lo ==> results[j] == if Machine.Cached(c, lo + j) then Some(blocks[lo + j]) else None
  {
    hide Sound, Lookup;
    forall j | 0 <= j < hi - lo
      ensures results[j] == if Machine.Cached(c, lo + j) then Some(blocks[lo + j]) else None
    {
      if Machine.Cached(d, lo + j) { SoundLookup(blocks, d, lo + j); }
    }
  }

  lemma RangesInside(ranges: seq<Range>, indices: seq<nat>, hi: nat)
    requires Maximal(ranges) && Unroll(ranges) == indices && forall i :: 0 <= i < |indices| ==> indices[i] < hi
    ensures forall i :: 0 <= i < |ranges| ==> ranges[i].hi <= hi
  {
    hide Unroll;
    forall i | 0 <= i < |ranges|
      ensures ranges[i].hi <= hi
    {
      UnrollInside(ranges, i, ranges[i].hi - 1);
    }
  }

  lemma IndicesAt(raws: seq<RawEntry>)
    ensures forall i :: 0 <= i < |raws| ==> Indices(raws)[i] == raws[i].index
  {
  }

  lemma NothingStored(c: Cache, blocks: seq<Bytes>)
    ensures Machine.InsertAll(c, [], blocks) == c
  {
  }

  /** Every slot of the window is filled: from the cache, or by a block just read. */
  lemma AssembleResults(blocks: seq<Bytes>, c: Cache, lo: nat, hi: nat, misses: seq<nat>, results: seq<Option<Bytes>>)
    requires Sound(blocks, c) && lo <= hi <= |blocks| && |results| == hi - lo && misses == Machine.Misses(c, lo, hi)
    requires forall j :: 0 <= j < hi - lo ==>
               results[j] == if lo + j in misses then Some(blocks[lo + j])
                             else if Machine.Cached(c, lo + j) then Some(blocks[lo + j]) else None
    ensures Flatten(results) == Machine.Assemble(c, blocks, lo, hi)
  {
    hide Machine.Assemble, Machine.Cached, Machine.Misses, Sound;
    forall k: nat
      ensures k in misses <==> lo <= k < hi && !Machine.Cached(c, k)
    {
      MissesExact(c, lo, hi, k);
    }
    AssembleIsSlice(blocks, c, lo, hi);
    FlattenAll(results, blocks[lo..hi]);
  }

  lemma IndexIsWellFormed(c: Codec, level: nat, ms: seq<Member>, idx: PgzfIndex)
    requires IndexFor(c, level, ms, idx)
    ensures WellFormed(idx)
  {
  }

  /** A probe hits exactly the cached blocks, and a miss leaves the cache as it was. */
  lemma HitIff(blocks: seq<Bytes>, c: Cache, k: nat)
    requires Sound(blocks, c)
    ensures Machine.Cached(c, k) ==> c.capacity > 0 && k < |blocks|
    ensures !Machine.Cached(c, k) ==> Lru.Get(c, k) == c
  {
    DisabledIsEmpty(blocks, c, k);
    hide Sound;
    if Machine.Cached(c, k) { SoundLookup(blocks, c, k); }
  }

  lemma DisabledIsEmpty(blocks: seq<Bytes>, c: Cache, k: nat)
    requires Sound(blocks, c)
    ensures c.capacity == 0 ==> !Machine.Cached(c, k)
  {
    if c.capacity == 0 { CursorNothing(c, k); }
  }

  lemma CursorNothing(c: Cache, k: nat)
    requires c.entries == []
    ensures !Machine.Cached(c, k)
  {
  }

  /** A later probe of the same window gives what the first would have given. */
  lemma SameHit(blocks: seq<Bytes>, c: Cache, d: Cache, k: nat)
    requires Sound(blocks, c) && Sound(blocks, d) && (Machine.Cached(d, k) <==> Machine.Cached(c, k))
    ensures (if d.capacity == 0 then None else Lookup(d.entries, k)) ==
            if Machine.Cached(c, k) then Some(Lookup(c.entries, k).value) else None
  {
    hide Sound, Lookup;
    DisabledIsEmpty(blocks, d, k);
    if Machine.Cached(c, k) {
      SoundLookup(blocks, c, k);
      SoundLookup(blocks, d, k);
    }
  }

  ghost predicate RawFor(c: Codec, blocks: seq<Bytes>, e: RawEntry) {
    e.index < |blocks| && DecompressRaw(c, e.raw, e.headerSize) == Ok(blocks[e.index])
  }

  ghost predicate RawsFor(c: Codec, blocks: seq<Bytes>, raws: seq<RawEntry>) {
    forall i :: 0 <= i < |raws| ==> RawFor(c, blocks, raws[i])
  }

  function Indices(raws: seq<RawEntry>): (s: seq<nat>)
    ensures |s| == |raws|
  {
    seq(|raws|, i requires 0 <= i < |raws| => raws[i].index)
  }

  lemma NoRaws(c: Codec, blocks: seq<Bytes>)
    ensures RawsFor(c, blocks, []) && Indices([]) == [] && Unroll([]) == []
  {
  }

  lemma SpanStart(s: seq<nat>, lo: nat)
    ensures s + Span(Range(lo, lo)) == s
  {
  }

  lemma SpanNext(s: seq<nat>, lo: nat, hi: nat)
    requires lo <= hi
    ensures s + Span(Range(lo, hi)) + [hi] == s + Span(Range(lo, hi + 1))
    ensures s + Span(Range(lo, hi)) + [] == s + Span(Range(lo, hi))
  {
  }

  lemma ReadableAt(c: Codec, level: nat, ms: seq<Member>, k: nat)
    requires AllReadable(c, level, ms) && k < |ms|
    ensures Readable(c, level, ms[k])
  {
  }

  /** Too little of a member: what the raw reader makes of it. */
  lemma ParseShort(s: Bytes)
    ensures |s| < 10 ==> ParseRaw(s) == RawOutcome(End, |s|, false)
    ensures 10 <= |s| < 12 ==> ParseRaw(s) == RawOutcome(Failed(UnexpectedEof), |s|, false)
    ensures 12 <= |s| < 12 + ReadU16(s[10..]) ==> ParseRaw(s) == RawOutcome(Failed(UnexpectedEof), |s|, false)
  {
    hide ReadU16, Interpret, Fields, ParseBody;
  }

  lemma ParseHead(s: Bytes, xlen: nat, zc: u32, blockType: BlockType)
    requires |s| >= 12 && xlen == ReadU16(s[10..]) && |s| >= 12 + xlen
    requires zc == Interpret(Fields(s[12..12 + xlen])).zc && blockType == RawType(Fields(s[12..12 + xlen]))
    ensures ParseRaw(s) == ParseBody(s, 12 + xlen, zc, blockType)
    ensures ParseRaw(s).counted == (blockType != Idx)
  {
    hide Interpret, Fields, RawType, ReadU16;
  }
}
