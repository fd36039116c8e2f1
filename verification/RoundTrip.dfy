/** Writer, file and reader together: what the crate promises from end to end. */
module RoundTrip {
  import opened Prelude
  import opened Format
  import opened Container
  import opened FileStream
  import opened WriterSpec
  import opened Writer
  import opened IndexSpec
  import opened Transparency
  import opened Lru
  import opened Reader
  import Machine = ReaderMachine
  import opened Cursor
  import opened CursorRuns

  // --- Writing ---

  /** Writes the chunks one after the other and finishes the file. */
  method WriteAll(c: Codec, cfg: Config, chunks: seq<Bytes>) returns (stream: Stream)
    requires cfg.blockSize >= 1 && cfg.batchSize >= 1
    ensures fresh(stream) && stream.data == Encode(c, cfg, Flat(chunks))
  {
    hide Encode, Flat, ListedSize, ListedData, Chunks, Layout;
    stream := new Stream([]);
    var writer := new PgzfWriter(stream, c, cfg);
    FlatNone();
    for i := 0 to |chunks|
      invariant writer.Valid() && writer.accepted == Flat(chunks[..i]) && fresh(writer) && fresh(writer.buffer)
      invariant writer.inner == stream && writer.codec == c && writer.config == cfg
    {
      FlatSnoc(chunks[..i], chunks[i]);
      assert chunks[..i + 1] == chunks[..i] + [chunks[i]];
      var n := writer.Write(chunks[i]);
    }
    assert chunks[..|chunks|] == chunks;
    var w := writer.Finish();
  }

  /** The file depends on the bytes, the block size, the group size (at least 1) and the level
      alone: not on how the bytes were split into writes, and not on the batch size. */
  method SplitsDoNotMatter(c: Codec, cfg1: Config, cfg2: Config, chunks1: seq<Bytes>, chunks2: seq<Bytes>)
    returns (file1: Bytes, file2: Bytes)
    requires cfg1.blockSize >= 1 && cfg1.batchSize >= 1 && cfg2.batchSize >= 1
    requires cfg1.blockSize == cfg2.blockSize && cfg1.level == cfg2.level && GroupLimit(cfg1) == GroupLimit(cfg2)
    requires Flat(chunks1) == Flat(chunks2)
    ensures file1 == file2 == Encode(c, cfg1, Flat(chunks1))
  {
    hide Flat, Members, FileOf, Chunks;
    var s1 := WriteAll(c, cfg1, chunks1);
    var s2 := WriteAll(c, cfg2, chunks2);
    return s1.data, s2.data;
  }

  /** In `file`, the GC field of the BEG header of group j is the distance from there to the group's
      IDX member, which is there and lists the group. */
  ghost predicate GcTrue(c: Codec, level: nat, file: Bytes, groups: seq<seq<Bytes>>, j: nat)
    requires j < |groups|
  {
    var pos := |FileOf(c, level, Members(c, level, groups[..j]))|;
    var es := EntriesFor(c, level, groups[j]);
    var gc := |FileOf(c, level, DataMembers(SumSizes(es) % U64, groups[j]))|;
    && gc < U64 && SizeOf(c, level, Member.Index(es)) < U32
    && GroupAt(file, pos) == Group(gc, SizeOf(c, level, Member.Index(es)), es)
    && pos + gc <= |file| && Image(c, level, Member.Index(es)) <= file[pos + gc..]
  }

  /** After every flush, whatever was accepted, pending or buffered by then: the GC field of every group
      in the file points to the group's IDX member. */
  lemma GcAfterEveryFlush(w: PgzfWriter, groups: seq<seq<Bytes>>, j: nat)
    requires w.Flushed() && w.Buffered() && Lawful(w.codec, w.config) && GroupsFit(w.config, Flat(w.flushed))
    requires |w.inner.data| < U64
    requires groups == Grouped(w.config, w.flushed) && j < |groups|
    ensures GcTrue(w.codec, w.config.level, w.inner.data, groups, j)
  {
    hide *;
    w.FileIsEncoding();
    GcPointsToIndex(w.codec, w.config, Flat(w.flushed), groups, j);
  }

  /** In encoder output the GC field of every group points to its IDX member. */
  lemma GcPointsToIndex(c: Codec, cfg: Config, data: Bytes, groups: seq<seq<Bytes>>, j: nat)
    requires Lawful(c, cfg) && GroupsFit(cfg, data) && |Encode(c, cfg, data)| < U64
    requires groups == Grouped(cfg, Chunks(cfg.blockSize, data)) && j < |groups|
    ensures GcTrue(c, cfg.level, Encode(c, cfg, data), groups, j)
  {
    hide Lawful, GroupsFit, Members, FileOf, GroupMembers, AllReadable, Chunks, GoodGroup, EntriesFor, SumSizes, SizeOf, GroupAt, Image;
    LawfulSizes(c, cfg);
    GroupsGood(cfg, data, groups);
    var group := groups[j];
    GoodSize(cfg, group);
    GroupReadable(c, cfg, group);
    GroupInFile(c, cfg.level, groups, j);
    var rest := FileOf(c, cfg.level, Members(c, cfg.level, groups[j + 1..]));
    var file, pos := Encode(c, cfg, data), |FileOf(c, cfg.level, Members(c, cfg.level, groups[..j]))|;
    GroupAtEncoded(c, cfg.level, file, pos, group, rest);
    var es := EntriesFor(c, cfg.level, group);
    var gc := SumSizes(es) % U64;
    GroupIsReadable(c, cfg.level, group);
    FileOfSnoc(c, cfg.level, DataMembers(gc, group), Member.Index(es));
    PrefixAfter(file, pos, FileOf(c, cfg.level, DataMembers(gc, group)), Image(c, cfg.level, Member.Index(es)), rest);
  }

  lemma GoodSize(cfg: Config, group: seq<Bytes>)
    requires GoodGroup(cfg, group)
    ensures 1 <= |group| <= MAX_GROUP
  {
  }

  lemma PrefixAfter(file: Bytes, pos: nat, a: Bytes, b: Bytes, rest: Bytes)
    requires pos <= |file| && file[pos..] == a + b + rest
    ensures pos + |a| <= |file| && b <= file[pos + |a|..]
  {
    assert file[pos + |a|..] == file[pos..][|a|..];
    assert a + b + rest == a + (b + rest);
  }

  // --- Reading back ---

  /** One read of a reader that only goes forward: the next bytes of the cursor. */
  method ReadOn(reader: PgzfReader, size: nat, ghost blocks: seq<Bytes>, ghost p: nat) returns (bytes: Bytes)
    requires reader.Valid() && blocks == reader.TrueBlocks() && NonEmpty(blocks) && size >= 1
    requires Refines(blocks, reader.State(), p) && Ahead(blocks, reader.State())
    modifies reader, reader.inner, reader.blockCache
    ensures reader.Valid() && reader.blockCache == old(reader.blockCache)
    ensures bytes == CursorRead(blocks, p, size)
    ensures Refines(blocks, reader.State(), p + |bytes|) && Ahead(blocks, reader.State())
  {
    hide Refines, Ahead, Machine.Read, CursorRead, ReadOk, ReadStarved, Blocks, FileOf, AllReadable, IndexFor, Sound, NonEmpty;
    var buf := new byte[size](_ => 0);
    ReadAhead(blocks, reader.State(), p, size);
    ReadExact(blocks, reader.State(), p, size);
    NotStarved(blocks, reader.State());
    var n := reader.Read(buf);
    bytes := buf[..n.value];
  }

  /** Reads until a read comes back empty, with a buffer size chosen for every call. */
  method ReadToEnd(reader: PgzfReader, sizeAt: nat -> nat, ghost blocks: seq<Bytes>) returns (out: Bytes)
    requires reader.Valid() && blocks == reader.TrueBlocks() && NonEmpty(blocks)
    requires Refines(blocks, reader.State(), 0) && Ahead(blocks, reader.State())
    requires forall i: nat :: sizeAt(i) >= 1
    modifies reader, reader.inner, reader.blockCache
    ensures reader.Valid() && out == Flat(blocks)
  {
    hide Refines, Ahead, CursorRead, Blocks, FileOf, AllReadable, IndexFor, Sound, NonEmpty, Flat;
    ghost var data, cache := Flat(blocks), reader.blockCache;
    out := [];
    var more, turn := true, 0;
    while more
      invariant reader.Valid() && reader.blockCache == cache
      invariant Refines(blocks, reader.State(), |out|) && Ahead(blocks, reader.State())
      invariant |out| <= |data| && out == data[..|out|]
      invariant !more ==> |out| == |data|
      decreases |data| - |out|, if more then 1 else 0
    {
      CursorReadBounds(blocks, |out|, sizeAt(turn));
      var bytes := ReadOn(reader, sizeAt(turn), blocks, |out|);
      more := bytes != [];
      out := out + bytes;
      turn := turn + 1;
    }
  }

  /** Write in any pieces, read back with buffers of any sizes, any 64-bit readahead, any cache: the
      bytes come out exactly, and then the end of the file. */
  method WriteThenRead(c: Codec, cfg: Config, chunks: seq<Bytes>, ahead: nat, capacity: nat, maxMemory: Option<nat>,
                       sizeAt: nat -> nat)
    returns (out: Bytes)
    requires Lawful(c, cfg) && Indexable(c, cfg, Flat(chunks)) && Flat(chunks) != [] && ahead < U64
    requires forall i: nat :: sizeAt(i) >= 1
    ensures out == Flat(chunks)
  {
    hide Lawful, Indexable, Encode, Flat, Layout, Chunks, Refines, Ahead, NonEmpty, Blocks, FileOf, AllReadable, IndexFor, Sound;
    LawfulSizes(c, cfg);
    ghost var data := Flat(chunks);
    FewBlocks(c, cfg, data);
    var stream := WriteAll(c, cfg, chunks);
    var reader := Open(c, stream, cfg, data);
    reader.SetReadaheadSize(ahead);
    reader.SetBlockCache(capacity, maxMemory);
    ghost var blocks := reader.TrueBlocks();
    ChunksFacts(cfg.blockSize, data);
    FreshRefines(blocks, Max(ahead, 1), capacity, maxMemory);
    out := ReadToEnd(reader, sizeAt, blocks);
  }

  lemma ChunksFacts(n: nat, data: Bytes)
    requires n >= 1
    ensures Flat(Chunks(n, data)) == data && NonEmpty(Chunks(n, data))
  {
  }

  /** A file below 2^64 bytes has far fewer blocks. */
  lemma FewBlocks(c: Codec, cfg: Config, data: Bytes)
    requires cfg.blockSize >= 1 && Indexable(c, cfg, data)
    ensures 2 * |Chunks(cfg.blockSize, data)| <= U64 && |data| < U64
  {
    hide Layout, FileOf, GroupsFit, Chunks, Blocks;
    LayoutBlocks(c, cfg, data);
    BlocksBelow(c, cfg.level, Layout(c, cfg, data));
  }

  lemma NotStarved(blocks: seq<Bytes>, s: Machine.State)
    requires ReadOk(blocks, s)
    ensures !ReadStarved(blocks, s)
  {
  }

  // --- Any calls on encoder output ---

  /** A seek to byte t of encoder output lands in block t / block_size; at the end, past the last. */
  lemma SeekLands(n: nat, data: Bytes, t: nat)
    requires n >= 1 && t <= |data|
    ensures Machine.Locate(Chunks(n, data), t) == if t < |data| then t / n else |Chunks(n, data)|
    ensures t < |data| ==> t - Offset(Chunks(n, data), t / n) == t % n
  {
    hide Machine.Locate, Flat, Chunks;
    var blocks := Chunks(n, data);
    if t == |data| {
      LocateEnd(blocks);
    } else {
      LocateBounds(blocks, t);
      var b := Machine.Locate(blocks, t);
      ChunksOffset(n, data, b);
      ChunksOffset(n, data, b + 1);
      assert (b + 1) * n == b * n + n;
      DivUnique(t, n, b);
    }
  }

  /** A range read of encoder output is the slice between the block boundaries, unless its end reaches
      2^64. */
  lemma RangeIsSlice(n: nat, data: Bytes, s: Machine.State, start: nat, count: nat)
    requires n >= 1 && start < |Chunks(n, data)|
    ensures start * n <= Min((start + count) * n, |data|)
    ensures Machine.ReadBlocks(Chunks(n, data), s, start, count).1 ==
            if start + count < U64 then Ok(data[start * n..Min((start + count) * n, |data|)]) else Err(Panic)
  {
    hide Flat, Chunks;
    var blocks := Chunks(n, data);
    var end := Min(|blocks|, start + count);
    ChunksOffset(n, data, start);
    ChunksOffset(n, data, end);
    ChunksOffset(n, data, |blocks|);
    MulAtMost(end, start + count, n);
    MulAtMost(start, end, n);
    FlatAll(blocks);
    FlatSlice(blocks, start, end);
  }

  lemma MulAtMost(a: nat, b: nat, n: nat)
    ensures a <= b ==> a * n <= b * n
  {
    MulLess(a, b, n);
  }

  /** One call on the reader. */
  method Perform(reader: PgzfReader, op: Machine.Op) returns (reply: Machine.Reply)
    requires reader.Valid()
    modifies reader, reader.inner, reader.blockCache
    ensures reader.Valid() && (reader.blockCache == old(reader.blockCache) || fresh(reader.blockCache))
    ensures (reader.State(), reply) == Machine.Step(reader.TrueBlocks(), old(reader.State()), op)
  {
    hide FileOf, AllReadable, IndexFor, Sound, Blocks, Machine.Read, Machine.ReadBlocks, Flat, Lookup;
    match op {
      case OpRead(n) =>
        var buf := new byte[n](_ => 0);
        var r := reader.Read(buf);
        reply := Machine.Data(if r.Ok? then Ok(buf[..r.value]) else Err(r.error));
      case OpSeekToByte(t) =>
        reader.SeekToByte(t);
        reply := Machine.Done(true);
      case OpSeekStart(t) =>
        var target := reader.Seek(FromStart(t));
        reply := Machine.At(target);
      case OpSeekEnd(d) =>
        var target := reader.Seek(FromEnd(d));
        reply := Machine.At(target);
      case OpSeekCurrent(d) =>
        var target := reader.Seek(FromCurrent(d));
        reply := Machine.At(target);
      case OpSeekToBlock(i) =>
        var ok := reader.SeekToBlock(i);
        reply := Machine.Done(ok);
      case OpReadBlocks(start, count) =>
        var r := reader.ReadBlocks(start, count);
        reply := Machine.Data(r);
      case OpSetReadahead(n) =>
        reader.SetReadaheadSize(n);
        reply := Machine.Done(true);
      case OpSetCache(n) =>
        reader.SetBlockCache(n, None);
        reply := Machine.Done(true);
    }
  }

  /** A whole session of calls. */
  method PerformAll(reader: PgzfReader, ops: seq<Machine.Op>) returns (replies: seq<Machine.Reply>)
    requires reader.Valid()
    modifies reader, reader.inner, reader.blockCache
    ensures reader.Valid() && (reader.State(), replies) == Machine.Run(reader.TrueBlocks(), old(reader.State()), ops)
    decreases |ops|
  {
    hide FileOf, AllReadable, IndexFor, Sound, Blocks, Machine.Step;
    if ops == [] { return []; }
    var reply := Perform(reader, ops[0]);
    var rest := PerformAll(reader, ops[1..]);
    replies := [reply] + rest;
  }

  /** The main result about the reader: on a file the writer made, any session of admissible calls,
      in any order, replies call for call as a cursor over the original bytes. */
  method Session(c: Codec, cfg: Config, chunks: seq<Bytes>, capacity: nat, maxMemory: Option<nat>, ops: seq<Machine.Op>)
    returns (replies: seq<Machine.Reply>)
    requires Lawful(c, cfg) && Indexable(c, cfg, Flat(chunks)) && 0 < |Flat(chunks)| < 0x8000_0000_0000_0000
    requires AllAdmissible(Chunks(cfg.blockSize, Flat(chunks)),
                           Machine.Fresh(DEFAULT_READAHEAD, None, Cache([], capacity, maxMemory)), 0, ops)
    ensures replies == CursorRun(Chunks(cfg.blockSize, Flat(chunks)), 0, ops).1
  {
    hide Lawful, Indexable, Encode, Flat, Layout, Chunks, Refines, NonEmpty, Blocks, FileOf, AllReadable, IndexFor, Sound,
      AllAdmissible, CursorRun, Machine.Run;
    LawfulSizes(c, cfg);
    ghost var data := Flat(chunks);
    var stream := WriteAll(c, cfg, chunks);
    var reader := Open(c, stream, cfg, data);
    reader.SetBlockCache(capacity, maxMemory);
    ghost var blocks := reader.TrueBlocks();
    ChunksFacts(cfg.blockSize, data);
    FreshRefines(blocks, DEFAULT_READAHEAD, capacity, maxMemory);
    RunRefines(blocks, reader.State(), 0, ops);
    replies := PerformAll(reader, ops);
  }

  /** With the cache off, every interleaving of reads, seeks within the data, range reads and
      readahead changes is such a session. */
  method UncachedSession(c: Codec, cfg: Config, chunks: seq<Bytes>, ops: seq<Machine.Op>)
    returns (replies: seq<Machine.Reply>)
    requires Lawful(c, cfg) && Indexable(c, cfg, Flat(chunks)) && 0 < |Flat(chunks)| < 0x8000_0000_0000_0000
    requires forall i :: 0 <= i < |ops| ==> InRange(Chunks(cfg.blockSize, Flat(chunks)), false, true, ops[i])
    ensures replies == CursorRun(Chunks(cfg.blockSize, Flat(chunks)), 0, ops).1
  {
    hide Lawful, Indexable, Flat, Chunks, Refines, NonEmpty, AllAdmissible, CursorRun, Machine.Run, InRange;
    LawfulSizes(c, cfg);
    FewBlocks(c, cfg, Flat(chunks));
    ghost var blocks := Chunks(cfg.blockSize, Flat(chunks));
    ChunksFacts(cfg.blockSize, Flat(chunks));
    FreshRefines(blocks, DEFAULT_READAHEAD, 0, None);
    CarefreeRun(blocks, Machine.Fresh(DEFAULT_READAHEAD, None, Cache([], 0, None)), 0, false, true, ops);
    replies := Session(c, cfg, chunks, 0, None, ops);
  }

  /** With a readahead of one block, set first and kept, so is every interleaving of them for any
      cache, changed on the way or not. */
  method OneBlockSession(c: Codec, cfg: Config, chunks: seq<Bytes>, capacity: nat, maxMemory: Option<nat>, ops: seq<Machine.Op>)
    returns (replies: seq<Machine.Reply>)
    requires Lawful(c, cfg) && Indexable(c, cfg, Flat(chunks)) && 0 < |Flat(chunks)| < 0x8000_0000_0000_0000
    requires forall i :: 0 <= i < |ops| ==> InRange(Chunks(cfg.blockSize, Flat(chunks)), true, false, ops[i])
    ensures replies == CursorRun(Chunks(cfg.blockSize, Flat(chunks)), 0, [Machine.OpSetReadahead(1)] + ops).1
  {
    hide Lawful, Indexable, Flat, Chunks, Refines, NonEmpty, CursorRun, Machine.Run, InRange;
    LawfulSizes(c, cfg);
    FewBlocks(c, cfg, Flat(chunks));
    ghost var blocks := Chunks(cfg.blockSize, Flat(chunks));
    ghost var start := Machine.Fresh(DEFAULT_READAHEAD, None, Cache([], capacity, maxMemory));
    ChunksFacts(cfg.blockSize, Flat(chunks));
    FreshRefines(blocks, DEFAULT_READAHEAD, capacity, maxMemory);
    SettersRefine(blocks, start, 0, 1);
    CarefreeRun(blocks, start.(ahead := 1), 0, true, false, ops);
    assert ([Machine.OpSetReadahead(1)] + ops)[1..] == ops;
    replies := Session(c, cfg, chunks, capacity, maxMemory, [Machine.OpSetReadahead(1)] + ops);
  }

  /** On a file the writer made, any session at all whose refills are in order, with any cache, replies
      call for call as a reader without cache and readahead. */
  method OrderlySession(c: Codec, cfg: Config, chunks: seq<Bytes>, capacity: nat, maxMemory: Option<nat>, ops: seq<Machine.Op>)
    returns (replies: seq<Machine.Reply>)
    requires Lawful(c, cfg) && Indexable(c, cfg, Flat(chunks)) && Flat(chunks) != []
    requires Orderly(Chunks(cfg.blockSize, Flat(chunks)),
                     Machine.Fresh(DEFAULT_READAHEAD, None, Cache([], capacity, maxMemory)), ops)
    ensures replies == Machine.Run(Chunks(cfg.blockSize, Flat(chunks)), Machine.Fresh(1, None, NewCache(0)), PlainOps(ops)).1
  {
    hide Lawful, Indexable, Encode, Flat, Layout, Chunks, NonEmpty, Blocks, FileOf, AllReadable, IndexFor, Sound, Orderly,
      Machine.Run, PlainOps;
    LawfulSizes(c, cfg);
    ghost var data := Flat(chunks);
    FewBlocks(c, cfg, data);
    var stream := WriteAll(c, cfg, chunks);
    var reader := Open(c, stream, cfg, data);
    reader.SetBlockCache(capacity, maxMemory);
    ghost var blocks := reader.TrueBlocks();
    ChunksFacts(cfg.blockSize, data);
    FreshAlike(blocks, capacity, maxMemory);
    PlainReference(blocks, reader.State(), Machine.Fresh(1, None, NewCache(0)), ops);
    replies := PerformAll(reader, ops);
  }

  lemma FreshAlike(blocks: seq<Bytes>, capacity: nat, maxMemory: Option<nat>)
    ensures Alike(blocks, Machine.Fresh(DEFAULT_READAHEAD, None, Cache([], capacity, maxMemory)),
                  Machine.Fresh(1, None, NewCache(0)))
    ensures IsPlain(Machine.Fresh(1, None, NewCache(0)))
  {
    hide Sound;
    NothingIsSound(blocks, capacity, maxMemory);
    EmptySound(blocks, 0);
    assert blocks[0..0] == [];
  }

  lemma NothingIsSound(blocks: seq<Bytes>, capacity: nat, maxMemory: Option<nat>)
    ensures Sound(blocks, Cache([], capacity, maxMemory))
  {
  }
}
