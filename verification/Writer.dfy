/** `PgzfWriter` (src/writer.rs): bytes come in through arbitrary `Write` calls, are cut into
    blocks, gathered into groups and flushed in batches. At every point the file is the pure
    encoding of the blocks flushed so far. */
module Writer {
  import opened Prelude
  import opened LittleEndian
  import opened Format
  import opened Container
  import opened FileStream
  import opened WriterSpec

  datatype PendingBlock = PendingBlock(data: Bytes, blockType: BlockType)
  datatype CompressedBlock =
    CompressedBlock(header: Bytes, compressed: Bytes, trailer: Bytes, zc: u32, uncompressedSize: u32)

  function Payloads(pending: seq<PendingBlock>): (s: seq<Bytes>)
    ensures |s| == |pending|
  {
    seq(|pending|, i requires 0 <= i < |pending| => pending[i].data)
  }

  /** The member a block becomes; the GC field of a BEG starts out as zero. */
  function MemberFor(blockType: BlockType, data: Bytes): Member {
    Data(if blockType == Beg then Some(0) else None, data)
  }

  /** `cb` holds the bytes and the sizes of member `m`. */
  ghost predicate Holds(c: Codec, level: nat, cb: CompressedBlock, m: Member) {
    && cb.header + cb.compressed + cb.trailer == Image(c, level, m)
    && cb.zc == SizeOf(c, level, m) % U32
    && m.Data? && cb.uncompressedSize == |m.payload| % U32
  }

  method CompressSingleBlock(c: Codec, level: nat, data: Bytes, blockType: BlockType) returns (cb: CompressedBlock)
    ensures Holds(c, level, cb, MemberFor(blockType, data))
  {
    hide BegHeader, DatHeader, LeU32;
    var compressed := c.deflate(level, data);
    var crc := c.crc(data);
    var headerSize := if blockType == Beg then BEG_HEADER_SIZE else DAT_HEADER_SIZE;
    var zc := (headerSize + |compressed| + PGZF_TAIL_SIZE) % U32;
    var header: array<byte>;
    if blockType == Beg {
      header := BuildBegHeader(zc);
    } else {
      header := BuildDatHeader(zc);
    }
    var trailer := BuildTrailer(crc, |data| % U32);
    cb := CompressedBlock(header[..], compressed, trailer[..], zc, |data| % U32);
  }

  method BuildTrailer(crc: u32, size: u32) returns (trailer: array<byte>)
    ensures fresh(trailer) && trailer[..] == LeU32(crc) + LeU32(size)
  {
    hide LeU32;
    trailer := new byte[PGZF_TAIL_SIZE](_ => 0);
    CopyInto(trailer, 0, LeU32(crc));
    CopyInto(trailer, 4, LeU32(size));
    assert trailer[..] == trailer[0..4] + trailer[4..8];
  }

  /** The IDX member of a group: the listed entries and an empty deflate stream. */
  method CompressIndex(c: Codec, level: nat, entries: seq<IndexEntry>) returns (cb: CompressedBlock)
    ensures cb.header + cb.compressed + cb.trailer == Image(c, level, Index(entries))
    ensures cb.zc == SizeOf(c, level, Index(entries)) % U32
  {
    hide IdxHeader;
    var emptyCompressed := c.deflate(level, []);
    var idxHeaderSize := IDX_HEADER_BASE_SIZE + |entries| * 8;
    var idxZc := (idxHeaderSize + |emptyCompressed| + PGZF_TAIL_SIZE) % U32;
    var idxHeader := BuildIdxHeader(idxZc, entries);
    cb := CompressedBlock(idxHeader[..], emptyCompressed, seq(PGZF_TAIL_SIZE, _ => 0), idxZc, 0);
  }

  /** The ordered parallel map over one batch. */
  method CompressBatch(c: Codec, level: nat, batch: seq<PendingBlock>) returns (out: seq<CompressedBlock>)
    ensures |out| == |batch|
    ensures forall i :: 0 <= i < |batch| ==> Holds(c, level, out[i], MemberFor(batch[i].blockType, batch[i].data))
  {
    hide Holds, MemberFor;
    out := [];
    for j := 0 to |batch|
      invariant |out| == j
      invariant forall i :: 0 <= i < j ==> Holds(c, level, out[i], MemberFor(batch[i].blockType, batch[i].data))
    {
      var cb := CompressSingleBlock(c, level, batch[j].data, batch[j].blockType);
      out := out + [cb];
    }
  }

  method SumCompressed(entries: seq<IndexEntry>) returns (sum: nat)
    ensures sum == SumSizes(entries)
  {
    sum := 0;
    for i := 0 to |entries|
      invariant sum == SumSizes(entries[..i])
    {
      assert entries[..i + 1][..i] == entries[..i];
      sum := sum + entries[i].compressedSize;
    }
    assert entries[..|entries|] == entries;
  }

  class PgzfWriter {
    const codec: Codec
    const config: Config
    const inner: Stream
    var buffer: array<byte>
    var bufferLen: nat
    var pendingBlocks: seq<PendingBlock>
    var blocksInGroup: nat
    var groupStartOffset: nat
    var totalUncompressed: nat
    var totalCompressed: nat
    var totalBlocks: nat
    var gcPending: bool
    /** Every byte accepted so far, and the blocks already in the file. */
    ghost var accepted: Bytes
    ghost var flushed: seq<Bytes>

    /** The accepted bytes that have left the buffer. */
    ghost function Blocked(): Bytes
      reads this
      requires bufferLen <= |accepted|
    {
      accepted[..|accepted| - bufferLen]
    }

    ghost function FileMembers(): seq<Member>
      reads this
    {
      Members(codec, config.level, Chunks(GroupLimit(config), flushed))
    }

    ghost predicate Flushed()
      reads this, inner
    {
      && inner.data == FileOf(codec, config.level, FileMembers())
      && inner.pos == groupStartOffset == |inner.data|
      && totalCompressed == ListedSize(codec, config.level, FileMembers())
      && totalUncompressed == ListedData(FileMembers())
      && totalBlocks == |flushed|
    }

    ghost predicate Buffered()
      reads this, buffer
    {
      && config.blockSize >= 1 && config.batchSize >= 1
      && buffer.Length == config.blockSize
      && bufferLen <= config.blockSize && bufferLen <= |accepted|
      && buffer[..bufferLen] == accepted[|accepted| - bufferLen..]
      && Chunks(config.blockSize, Blocked()) == flushed + Payloads(pendingBlocks)
    }

    ghost predicate Pending()
      reads this
    {
      && blocksInGroup == |pendingBlocks| <= GroupLimit(config)
      && (gcPending <==> pendingBlocks != [])
      && forall i :: 0 <= i < |pendingBlocks| ==> pendingBlocks[i].blockType == if i == 0 then Beg else Dat
    }

    /** Between calls of `Write`: file, pending blocks and buffer together are what was accepted,
        and every cut so far fell on a full block and a full group. */
    ghost predicate Valid()
      reads this, inner, buffer
    {
      && Flushed() && Buffered() && Pending()
      && bufferLen < config.blockSize && |pendingBlocks| < GroupLimit(config)
      && |Blocked()| % config.blockSize == 0 && |flushed| % GroupLimit(config) == 0
    }

    constructor (stream: Stream, c: Codec, cfg: Config)
      requires stream.data == [] && stream.pos == 0
      requires cfg.blockSize >= 1 && cfg.batchSize >= 1
      ensures Valid() && accepted == [] && flushed == [] && fresh(buffer)
      ensures inner == stream && codec == c && config == cfg
    {
      hide Flushed, Buffered, Pending;
      codec, config, inner := c, cfg, stream;
      buffer := new byte[cfg.blockSize](_ => 0); // as large as one block
      bufferLen := 0;
      pendingBlocks := [];
      blocksInGroup := 0;
      groupStartOffset := stream.pos;
      totalUncompressed, totalCompressed, totalBlocks := 0, 0, 0;
      gcPending := false;
      accepted, flushed := [], [];
      new;
      StartsValid();
    }

    lemma StartsValid()
      requires config.blockSize >= 1 && config.batchSize >= 1 && buffer.Length == config.blockSize
      requires inner.data == [] && inner.pos == groupStartOffset == 0
      requires bufferLen == blocksInGroup == totalUncompressed == totalCompressed == totalBlocks == 0 && !gcPending
      requires pendingBlocks == [] && accepted == [] && flushed == []
      ensures Valid()
    {
      hide FileOf, Members, Chunks, ListedSize, ListedData, Payloads;
      NothingYet(codec, config);
      assert Blocked() == [] && buffer[..bufferLen] == [];
    }

    /** Conservation: what the file decodes to, then the pending blocks, then the buffer. */
    lemma Conservation()
      requires Valid()
      ensures accepted == Flat(Blocks(FileMembers())) + Flat(Payloads(pendingBlocks)) + buffer[..bufferLen]
      ensures forall b :: b in flushed + Payloads(pendingBlocks) ==> |b| == config.blockSize
    {
      hide Members, Blocks, Flat, Chunks, ListedSize, ListedData, FileOf, Payloads, Flushed, Pending;
      var n, g := config.blockSize, GroupLimit(config);
      MembersBlocks(codec, config.level, Chunks(g, flushed));
      FlatConcat(flushed, Payloads(pendingBlocks));
      ChunksEven(n, Blocked());
      EvenMembers(n, flushed + Payloads(pendingBlocks));
      assert accepted == Blocked() + buffer[..bufferLen];
    }

    /** In every state, between calls and after every flush inside one, the file is the encoding of the
        blocks flushed so far: a finished file would be no different. */
    lemma FileIsEncoding()
      requires Flushed() && Buffered()
      ensures Chunks(config.blockSize, Flat(flushed)) == flushed
      ensures inner.data == Encode(codec, config, Flat(flushed))
      ensures totalCompressed == ListedSize(codec, config.level, Layout(codec, config, Flat(flushed)))
      ensures totalUncompressed == ListedData(Layout(codec, config, Flat(flushed)))
    {
      hide Members, Flat, ListedSize, ListedData, FileOf, Payloads;
      ChunksPrefix(config.blockSize, Blocked(), flushed, Payloads(pendingBlocks));
    }

    /** In every such state the three counters are the true sums over the file. */
    lemma CountersTrue()
      requires Flushed() && Buffered() && Lawful(codec, config) && GroupsFit(config, Flat(flushed))
      ensures totalCompressed == |inner.data| && totalUncompressed == |Flat(flushed)| && totalBlocks == |flushed|
    {
      hide Lawful, GroupsFit, Flat, Encode, ListedSize, ListedData, Layout, Chunks, Members, FileOf;
      FileIsEncoding();
      CountersExact(codec, config, Flat(flushed));
    }

    method WriteParts(header: Bytes, compressed: Bytes, trailer: Bytes)
      requires inner.pos == |inner.data|
      modifies inner
      ensures inner.data == old(inner.data) + (header + compressed + trailer) && inner.pos == |inner.data|
    {
      ghost var was := inner.data;
      inner.WriteAll(header);
      inner.WriteAll(compressed);
      inner.WriteAll(trailer);
      assert inner.data == was + (header + compressed + trailer);
    }

    method WriteBlock(cb: CompressedBlock, ghost m: Member)
      requires inner.pos == |inner.data|
      requires Holds(codec, config.level, cb, m)
      modifies this`totalCompressed, this`totalUncompressed, this`totalBlocks, inner
      ensures inner.data == old(inner.data) + Image(codec, config.level, m) && inner.pos == |inner.data|
      ensures totalCompressed == old(totalCompressed) + SizeOf(codec, config.level, m) % U32
      ensures totalUncompressed == old(totalUncompressed) + |m.payload| % U32
      ensures totalBlocks == old(totalBlocks) + 1
    {
      hide Image, SizeOf;
      WriteParts(cb.header, cb.compressed, cb.trailer);
      totalCompressed := totalCompressed + cb.zc;
      totalUncompressed := totalUncompressed + cb.uncompressedSize;
      totalBlocks := totalBlocks + 1;
    }

    /** k blocks of the open group are in the file, with GC still zero, after `base`. */
    ghost predicate Progress(base: Bytes, size: nat, data: nat, blocks: nat, k: nat, entries: seq<IndexEntry>)
      reads this, inner
    {
      var ms := DataMembers(0, Payloads(pendingBlocks)[..Min(k, |pendingBlocks|)]);
      && k <= |pendingBlocks|
      && inner.data == base + FileOf(codec, config.level, ms)
      && inner.pos == |inner.data|
      && entries == EntriesFor(codec, config.level, Payloads(pendingBlocks)[..k])
      && totalCompressed == size + ListedSize(codec, config.level, ms)
      && totalUncompressed == data + ListedData(ms)
      && totalBlocks == blocks + k
    }

    lemma NoProgress()
      requires inner.pos == |inner.data|
      ensures Progress(inner.data, totalCompressed, totalUncompressed, totalBlocks, 0, [])
    {
      assert FileOf(codec, config.level, []) == [];
      assert Payloads(pendingBlocks)[..0] == [];
      assert inner.data + [] == inner.data;
    }

    /** The loop body over one compressed block: three writes, an index entry, three counters. */
    method WriteNext(cb: CompressedBlock, entries: seq<IndexEntry>, ghost k: nat,
                     ghost base: Bytes, ghost size: nat, ghost data: nat, ghost blocks: nat)
      returns (extended: seq<IndexEntry>)
      requires Pending() && k < |pendingBlocks|
      requires Holds(codec, config.level, cb, MemberFor(pendingBlocks[k].blockType, pendingBlocks[k].data))
      requires Progress(base, size, data, blocks, k, entries)
      modifies this`totalCompressed, this`totalUncompressed, this`totalBlocks, inner
      ensures Progress(base, size, data, blocks, k + 1, extended)
    {
      hide FileOf, Image, SizeOf, ListedSize, ListedData, DataMembers, EntriesFor;
      ghost var ps := Payloads(pendingBlocks);
      ghost var m := DataMember(0, k, ps[k]);
      assert m == MemberFor(pendingBlocks[k].blockType, pendingBlocks[k].data);
      WriteBlock(cb, m);
      extended := entries + [IndexEntry(cb.zc, cb.uncompressedSize)];
      GrowGroup(codec, config.level, base, ps, k);
      DataMembersSnoc(0, ps, k);
      ListedSnoc(codec, config.level, DataMembers(0, ps[..k]), m);
      EntriesForSnoc(codec, config.level, ps, k);
    }

    /** One batch: compressed as a whole, then written in order. */
    method WriteBatch(batch: seq<PendingBlock>, entries: seq<IndexEntry>, ghost k: nat,
                      ghost base: Bytes, ghost size: nat, ghost data: nat, ghost blocks: nat)
      returns (extended: seq<IndexEntry>)
      requires Pending() && k + |batch| <= |pendingBlocks| && batch == pendingBlocks[k..k + |batch|]
      requires Progress(base, size, data, blocks, k, entries)
      modifies this`totalCompressed, this`totalUncompressed, this`totalBlocks, inner
      ensures Progress(base, size, data, blocks, k + |batch|, extended)
    {
      hide Holds, Progress, MemberFor;
      extended := entries;
      var compressed := CompressBatch(codec, config.level, batch);
      for j := 0 to |compressed|
        invariant Progress(base, size, data, blocks, k + j, extended)
      {
        assert batch[j] == pendingBlocks[k + j];
        extended := WriteNext(compressed[j], extended, k + j, base, size, data, blocks);
      }
    }

    /** Compresses the pending blocks batch by batch and writes them in order. */
    method WriteBatches() returns (entries: seq<IndexEntry>)
      requires Pending() && config.batchSize >= 1 && inner.pos == |inner.data|
      modifies this`totalCompressed, this`totalUncompressed, this`totalBlocks, inner
      ensures Progress(old(inner.data), old(totalCompressed), old(totalUncompressed), old(totalBlocks), |pendingBlocks|, entries)
    {
      hide Progress, Chunks, Flat;
      ghost var base, size, data, blocks := inner.data, totalCompressed, totalUncompressed, totalBlocks;
      entries := [];
      var batches := Chunks(config.batchSize, pendingBlocks);
      NoProgress();
      FlatAll(batches);
      for b := 0 to |batches|
        invariant Progress(base, size, data, blocks, Offset(batches, b), entries)
      {
        BatchAt(pendingBlocks, batches, b);
        entries := WriteBatch(batches[b], entries, Offset(batches, b), base, size, data, blocks);
      }
    }

    /** Writes the IDX member that closes the group. */
    method WriteIndex(entries: seq<IndexEntry>)
      requires inner.pos == |inner.data|
      modifies this`totalCompressed, inner
      ensures inner.data == old(inner.data) + Image(codec, config.level, Index(entries)) && inner.pos == |inner.data|
      ensures totalCompressed == old(totalCompressed) + SizeOf(codec, config.level, Index(entries)) % U32
    {
      hide Image, SizeOf;
      var cb := CompressIndex(codec, config.level, entries);
      WriteParts(cb.header, cb.compressed, cb.trailer);
      totalCompressed := totalCompressed + cb.zc;
    }

    /** Puts the group size into the BEG header and returns to the end of the file. */
    method Backpatch(entries: seq<IndexEntry>)
      requires groupStartOffset + GC_VALUE_OFFSET + 8 <= |inner.data| && inner.pos == |inner.data|
      modifies this`gcPending, inner
      ensures !gcPending && inner.pos == |inner.data|
      ensures inner.data == if old(gcPending)
                            then WriteAt(old(inner.data), groupStartOffset + GC_VALUE_OFFSET, LeU64(SumSizes(entries) % U64))
                            else old(inner.data)
    {
      hide WriteAt, LeU64, SumSizes;
      if gcPending {
        var gcValue := SumCompressed(entries);
        var gcFileOffset := groupStartOffset + GC_VALUE_OFFSET;
        var currentPos := inner.pos;
        inner.SeekTo(gcFileOffset);
        inner.WriteAll(LeU64(gcValue % U64));
        inner.SeekTo(currentPos);
        gcPending := false;
      }
    }

    /** The bytes and counters of the open group, once its IDX is written and its GC patched. */
    method WriteGroup()
      requires Pending() && pendingBlocks != [] && config.batchSize >= 1
      requires inner.pos == groupStartOffset == |inner.data|
      modifies this`totalCompressed, this`totalUncompressed, this`totalBlocks, this`gcPending, inner
      ensures !gcPending && inner.pos == |inner.data|
      ensures var ms := GroupMembers(codec, config.level, Payloads(pendingBlocks));
              inner.data == old(inner.data) + FileOf(codec, config.level, ms) &&
              totalCompressed == old(totalCompressed) + ListedSize(codec, config.level, ms) &&
              totalUncompressed == old(totalUncompressed) + ListedData(ms)
      ensures totalBlocks == old(totalBlocks) + |pendingBlocks|
    {
      hide FileOf, Image, SizeOf, ListedSize, ListedData, DataMembers, EntriesFor, WriteAt, LeU64;
      ghost var base, ps := inner.data, Payloads(pendingBlocks);
      var entries := WriteBatches();
      assert ps[..|ps|] == ps;
      WriteIndex(entries);
      FileOfSnoc(codec, config.level, DataMembers(0, ps), Index(entries));
      SeqAssoc(base, FileOf(codec, config.level, DataMembers(0, ps)), Image(codec, config.level, Index(entries)));
      PatchGroup(codec, config.level, base, SumSizes(entries) % U64, ps, [Index(entries)]);
      GcWithin(codec, config.level, ps, entries);
      Backpatch(entries);
      GroupListed(codec, config.level, ps);
    }

    method FlushGroup()
      requires Flushed() && Buffered() && Pending()
      requires |flushed| % GroupLimit(config) == 0
      modifies this, inner
      ensures Flushed() && Buffered() && Pending() && pendingBlocks == []
      ensures flushed == old(flushed) + Payloads(old(pendingBlocks))
      ensures accepted == old(accepted) && bufferLen == old(bufferLen) && buffer == old(buffer)
    {
      hide FileOf, ListedSize, ListedData, GroupMembers, Members, Chunks;
      assert flushed + Payloads([]) == flushed;
      if pendingBlocks == [] { return; }
      ghost var ps, before := Payloads(pendingBlocks), FileMembers();
      CloseGroup(codec, config.level, GroupLimit(config), flushed, ps);
      ListedConcat(codec, config.level, before, GroupMembers(codec, config.level, ps));
      hide Buffered;
      WriteGroup();
      FinishFlush(ps);
    }

    /** "Reset group state": the flushed blocks become part of the file. */
    method FinishFlush(ghost ps: seq<Bytes>)
      requires inner.data == FileOf(codec, config.level, Members(codec, config.level, Chunks(GroupLimit(config), flushed + ps)))
      requires inner.pos == |inner.data| && !gcPending
      requires totalCompressed == ListedSize(codec, config.level, Members(codec, config.level, Chunks(GroupLimit(config), flushed + ps)))
      requires totalUncompressed == ListedData(Members(codec, config.level, Chunks(GroupLimit(config), flushed + ps)))
      requires totalBlocks == |flushed| + |ps|
      modifies this`blocksInGroup, this`pendingBlocks, this`groupStartOffset, this`flushed
      ensures Flushed() && Pending() && pendingBlocks == [] && flushed == old(flushed) + ps
    {
      hide FileOf, ListedSize, ListedData, Members, Chunks;
      blocksInGroup := 0;
      pendingBlocks := [];
      groupStartOffset := inner.pos;
      flushed := flushed + ps;
    }

    /** Moves the buffer into the pending blocks and replaces it by an empty one. */
    method PushBlock()
      requires Flushed() && Buffered() && Pending() && |pendingBlocks| < GroupLimit(config)
      requires |Blocked()| % config.blockSize == 0 && bufferLen > 0
      modifies this`buffer, this`pendingBlocks, this`blocksInGroup, this`bufferLen, this`gcPending
      ensures Flushed() && Buffered() && Pending()
      ensures bufferLen == 0 && fresh(buffer) && |pendingBlocks| == old(|pendingBlocks|) + 1
    {
      hide FileOf, ListedSize, ListedData, Members, Chunks, Payloads;
      var blockType := if blocksInGroup == 0 then Beg else Dat;
      var data := buffer[..bufferLen];
      PushKeeps(config.blockSize, Blocked(), data, flushed, Payloads(pendingBlocks));
      assert accepted[..|accepted| - 0] == Blocked() + data;
      buffer := new byte[config.blockSize](_ => 0);
      pendingBlocks := pendingBlocks + [PendingBlock(data, blockType)];
      PayloadsSnoc(old(pendingBlocks), PendingBlock(data, blockType));
      blocksInGroup := blocksInGroup + 1;
      bufferLen := 0;
      if blockType == Beg {
        gcPending := true;
      }
    }

    method BufferBlock()
      requires Flushed() && Buffered() && Pending() && |pendingBlocks| < GroupLimit(config)
      requires |Blocked()| % config.blockSize == 0 && |flushed| % GroupLimit(config) == 0
      modifies this, inner
      ensures Flushed() && Buffered() && Pending() && |pendingBlocks| < GroupLimit(config)
      ensures |flushed| % GroupLimit(config) == 0
      ensures bufferLen == 0 && accepted == old(accepted)
      ensures buffer == old(buffer) || fresh(buffer)
    {
      hide Flushed, Chunks, Payloads;
      if bufferLen == 0 { return; }
      PushBlock();
      if blocksInGroup >= config.groupBlocks {
        FullGroup(GroupLimit(config), flushed, Payloads(pendingBlocks));
        FlushGroup();
      }
    }

    /** `Write::write`: takes everything, cutting a block whenever the buffer is full. */
    method Write(buf: Bytes) returns (consumed: nat)
      requires Valid()
      modifies this, inner, buffer
      ensures Valid() && consumed == |buf|
      ensures accepted == old(accepted) + buf
      ensures buffer == old(buffer) || fresh(buffer)
    {
      hide Flushed, Pending;
      consumed := 0;
      assert buf[..0] == [];
      while consumed < |buf|
        invariant consumed <= |buf| && Valid()
        invariant accepted == old(accepted) + buf[..consumed]
        invariant buffer == old(buffer) || fresh(buffer)
      {
        consumed := WriteSome(buf, consumed);
      }
      assert buf[..consumed] == buf;
    }

    /** Copies as much as the buffer has room for. */
    method Fill(buf: Bytes, consumed: nat) returns (next: nat)
      requires Valid() && consumed < |buf|
      modifies this`bufferLen, this`accepted, buffer
      ensures Flushed() && Buffered() && Pending() && consumed < next <= |buf|
      ensures accepted == old(accepted) + buf[consumed..next] && Blocked() == old(Blocked())
    {
      hide FileOf, Members, Chunks, ListedSize, ListedData, Payloads;
      var space := config.blockSize - bufferLen;
      var take := Min(space, |buf| - consumed);
      next := consumed + take;
      var piece := buf[consumed..next];
      ghost var held, was := buffer[..bufferLen], accepted;
      OverlayFront(buffer[..], bufferLen, piece);
      CopyInto(buffer, bufferLen, piece);
      assert buffer[..bufferLen + take] == held + piece;
      accepted := accepted + piece;
      bufferLen := bufferLen + take;
      TailGrows(was, |held|, piece);
    }

    /** One turn of the loop: fill the buffer, and cut a block when it is full. */
    method WriteSome(buf: Bytes, consumed: nat) returns (next: nat)
      requires Valid() && consumed < |buf|
      modifies this, inner, buffer
      ensures Valid() && consumed < next <= |buf|
      ensures accepted == old(accepted) + buf[consumed..next]
      ensures buffer == old(buffer) || fresh(buffer)
    {
      hide FileOf, Members, Chunks, ListedSize, ListedData, Flushed;
      ghost var blocked := |Blocked()|;
      next := Fill(buf, consumed);
      if bufferLen == config.blockSize {
        DivStep(blocked, config.blockSize);
        assert |accepted| == blocked + config.blockSize;
        BufferBlock();
        assert Blocked() == accepted;
      }
    }

    /** Flushes what is left and hands the file back: it is the encoding of the accepted bytes. */
    method Finish() returns (w: Stream)
      requires Valid()
      modifies this, inner, buffer
      ensures w == inner && w.data == Encode(codec, config, accepted) && accepted == old(accepted)
      ensures totalCompressed == ListedSize(codec, config.level, Layout(codec, config, accepted))
      ensures totalUncompressed == ListedData(Layout(codec, config, accepted))
      ensures totalBlocks == |Chunks(config.blockSize, accepted)|
    {
      hide FileOf, Members, Chunks, ListedSize, ListedData;
      BufferBlock();
      FlushGroup();
      assert accepted[..|accepted| - 0] == accepted;
      assert flushed + Payloads([]) == flushed;
      w := inner;
    }
  }

  lemma EvenMembers<T(!new)>(n: nat, pieces: seq<seq<T>>)
    requires Even(n, pieces)
    ensures forall b :: b in pieces ==> |b| == n
  {
  }

  /** A block leaving the buffer is one more chunk and one more pending block. */
  lemma PushKeeps(n: nat, blocked: Bytes, data: Bytes, flushed: seq<Bytes>, ps: seq<Bytes>)
    requires n >= 1 && |blocked| % n == 0 && 1 <= |data| <= n && Chunks(n, blocked) == flushed + ps
    ensures Chunks(n, blocked + data) == flushed + (ps + [data])
  {
    hide Chunks;
    ChunksSnoc(n, blocked, data);
    SeqAssoc(flushed, ps, [data]);
  }

  lemma PayloadsSnoc(pending: seq<PendingBlock>, b: PendingBlock)
    ensures Payloads(pending + [b]) == Payloads(pending) + [b.data]
  {
  }

  lemma OverlayFront(s: Bytes, off: nat, bytes: Bytes)
    requires off + |bytes| <= |s|
    ensures Overlay(s, off, bytes)[..off + |bytes|] == s[..off] + bytes
  {
  }

  /** What has left the buffer stays, and the buffered tail grows by the piece. */
  lemma TailGrows(accepted: Bytes, held: nat, piece: Bytes)
    requires held <= |accepted|
    ensures (accepted + piece)[..|accepted| - held] == accepted[..|accepted| - held]
    ensures (accepted + piece)[|accepted| - held..] == accepted[|accepted| - held..] + piece
  {
  }

  lemma NothingYet(c: Codec, cfg: Config)
    requires cfg.blockSize >= 1
    ensures var ms := Members(c, cfg.level, Chunks(GroupLimit(cfg), []));
            FileOf(c, cfg.level, ms) == [] && ListedSize(c, cfg.level, ms) == 0 && ListedData(ms) == 0
    ensures Chunks<byte>(cfg.blockSize, []) == [] + Payloads([])
    ensures 0 % cfg.blockSize == 0 && 0 % GroupLimit(cfg) == 0
  {
    MembersNone(c, cfg.level);
    SmallMod(0, cfg.blockSize);
    SmallMod(0, GroupLimit(cfg));
  }

  lemma BatchAt<T>(s: seq<T>, batches: seq<seq<T>>, b: nat)
    requires Flat(batches) == s && b < |batches|
    ensures var k := Offset(batches, b);
            k + |batches[b]| == Offset(batches, b + 1) <= |s| && s[k..k + |batches[b]|] == batches[b]
  {
    FlatSplit(batches, b);
    FlatAt(batches, b + 1);
  }

  lemma FullGroup<T>(g: nat, flushed: seq<T>, group: seq<T>)
    requires g >= 1 && |flushed| % g == 0
    ensures |group| == g ==> |flushed + group| % g == 0
  {
    DivStep(|flushed|, g);
  }

  /** The GC field of the first member lies inside the group. */
  lemma GcWithin(c: Codec, level: nat, blocks: seq<Bytes>, entries: seq<IndexEntry>)
    requires blocks != []
    ensures |FileOf(c, level, DataMembers(0, blocks) + [Index(entries)])| >= GC_VALUE_OFFSET + 8
  {
    hide Image;
    var ms := DataMembers(0, blocks) + [Index(entries)];
    assert ms == [Data(Some(0), blocks[0])] + ms[1..];
    FileOfConcat(c, level, [Data(Some(0), blocks[0])], ms[1..]);
    FileOfOne(c, level, Data(Some(0), blocks[0]));
  }
}
