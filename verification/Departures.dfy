/** Concrete runs in which the reader departs from the cursor it is documented to be. */
module Departures {
  import opened Prelude
  import opened Lru
  import opened ReaderMachine
  import opened Cursor
  import opened CursorRuns

  const BLOCKS: seq<Bytes> := [[7], [8]]

  function After(current: Bytes, pos: nat, queue: seq<Bytes>, ahead: nat, next: nat, entries: seq<Entry>): State {
    State(current, pos, false, None, queue, ahead, None, next, Cache(entries, 64, None), false)
  }

  lemma Places()
    ensures |Flat(BLOCKS)| == 2 && Locate(BLOCKS, 0) == 0 && Locate(BLOCKS, 1) == 1
    ensures Offset(BLOCKS, 0) == 0 && Offset(BLOCKS, 1) == 1
  {
    assert BLOCKS[1..] == [[8]] && [[8]][1..] == [];
    assert BLOCKS[..0] == [] && BLOCKS[..1] == [[7]] && [[7]][1..] == [];
    assert Flat([[8]]) == [8];
    assert Flat([[7]]) == [7];
  }

  lemma FillUncached(s: State)
    requires s == After([], 0, [], 1, 1, [])
    ensures Fill(BLOCKS, s) == After([], 0, [[8]], 1, 2, [Entry(1, [8])])
  {
    assert Misses(s.cache, 1, 2) == [1];
    assert Assemble(s.cache, BLOCKS, 1, 2) == [[8]];
    assert [1][..0] == [];
  }

  lemma FillMixed(s: State)
    requires s == After([], 0, [], 2, 0, [Entry(1, [8])])
    ensures Fill(BLOCKS, s) == After([], 0, [[7], [8]], 2, 1, [Entry(0, [7]), Entry(1, [8])])
  {
    var c := s.cache;
    assert Misses(c, 0, 1) == [0] && Misses(c, 0, 2) == [0] + [];
    assert Assemble(c, BLOCKS, 0, 2) == [[7], [8]];
    assert c.entries[1..] == [];
    assert Without(c.entries, 1) == [] && Without(c.entries, 0) == c.entries;
    assert GetAll(c, 0, 1) == c;
    assert Lru.Get(c, 1).entries == c.entries;
    assert GetAll(c, 0, 2) == c;
    assert Lru.Insert(c, 0, [7]).entries == [Entry(0, [7]), Entry(1, [8])];
    assert [0][..0] == [];
    assert InsertAll(c, [0], BLOCKS) == Lru.Insert(c, 0, [7]);
  }

  lemma FillCached(s: State)
    requires s == After([8], 1, [], 2, 1, [Entry(0, [7]), Entry(1, [8])])
    ensures Fill(BLOCKS, s).queue == [[8]] && Fill(BLOCKS, s).next == 2
  {
    var c := s.cache;
    assert c.entries[1..] == [Entry(1, [8])];
    assert Misses(c, 1, 2) == [];
    assert Assemble(c, BLOCKS, 1, 2) == [[8]];
  }

  /** The first read: a seek into the uncached block 1. */
  lemma FirstRead()
    ensures Read(BLOCKS, SeekTo(Fresh(1, None, NewCache(64)), 1), 1) == (After([8], 1, [], 1, 2, [Entry(1, [8])]), Ok([8]))
  {
    hide Fill, Locate, Flat, Offset;
    Places();
    var s := SeekTo(Fresh(1, None, NewCache(64)), 1);
    FillUncached(After([], 0, [], 1, 1, []));
    assert Landing(BLOCKS, s, 1) == After([], 0, [], 1, 1, []);
    assert [[8]][1..] == [];
    var b: Bytes := [8];
    assert b[0..1] == b;
    assert RunPending(BLOCKS, s) == (After([8], 0, [], 1, 2, [Entry(1, [8])]), None);
  }

  /** The second: a window whose first block is uncached and whose second is cached. */
  lemma SecondRead(s: State)
    requires s == SeekTo(After([8], 1, [], 2, 2, [Entry(1, [8])]), 0)
    ensures Read(BLOCKS, s, 1) == (After([7], 1, [[8]], 2, 1, [Entry(0, [7]), Entry(1, [8])]), Ok([7]))
  {
    hide Fill, Locate, Flat, Offset;
    Places();
    FillMixed(After([], 0, [], 2, 0, [Entry(1, [8])]));
    assert Landing(BLOCKS, s, 0) == After([], 0, [], 2, 0, [Entry(1, [8])]);
    assert s.cache.entries[1..] == [];
    assert !Cached(s.cache, 0);
    assert [[7], [8]][1..] == [[8]];
    var b: Bytes := [7];
    assert b[0..1] == b;
    assert RunPending(BLOCKS, s) == (After([7], 0, [[8]], 2, 1, [Entry(0, [7]), Entry(1, [8])]), None);
  }

  /** The third drains the queue; the fourth refills from block 1 and delivers it again. */
  lemma LastReads(s: State, t: State)
    requires s == After([7], 1, [[8]], 2, 1, [Entry(0, [7]), Entry(1, [8])])
    requires t == After([8], 1, [], 2, 1, [Entry(0, [7]), Entry(1, [8])])
    ensures Read(BLOCKS, s, 1) == (t, Ok([8])) && Read(BLOCKS, t, 1).1 == Ok([8])
  {
    hide Fill, Locate, Flat, Offset;
    var b: Bytes := [8];
    assert b[..1] == b && [[8]][1..] == [];
    FillCached(t);
  }

  lemma ThreeReads(s: State)
    requires s == SeekTo(After([8], 1, [], 2, 2, [Entry(1, [8])]), 0)
    ensures Run(BLOCKS, s, [OpRead(1), OpRead(1), OpRead(1)]).1 == [Data(Ok([7])), Data(Ok([8])), Data(Ok([8]))]
  {
    hide Read, SeekTo;
    SecondRead(s);
    var s4 := After([7], 1, [[8]], 2, 1, [Entry(0, [7]), Entry(1, [8])]);
    var s5 := After([8], 1, [], 2, 1, [Entry(0, [7]), Entry(1, [8])]);
    LastReads(s4, s5);
    RunOne(BLOCKS, s5, OpRead(1), []);
    RunOne(BLOCKS, s4, OpRead(1), [OpRead(1)]);
    RunOne(BLOCKS, s, OpRead(1), [OpRead(1), OpRead(1)]);
  }

  /** A cached block behind an uncached one is delivered twice: on the data 7 8, after block 1 was
      read and cached, a read from the start with a window of two blocks gives 7, then 8, then 8. */
  lemma CachedTailTwice()
    ensures var s0 := Fresh(1, None, NewCache(64));
            var ops := [OpSeekToByte(1), OpRead(1), OpSetReadahead(2), OpSeekToByte(0), OpRead(1), OpRead(1), OpRead(1)];
            Run(BLOCKS, s0, ops).1 ==
            [Done(true), Data(Ok([8])), Done(true), Done(true), Data(Ok([7])), Data(Ok([8])), Data(Ok([8]))]
  {
    hide Read, SeekTo;
    var s0 := Fresh(1, None, NewCache(64));
    var s1 := SeekTo(s0, 1);
    var s2 := After([8], 1, [], 1, 2, [Entry(1, [8])]);
    FirstRead();
    ThreeReads(SeekTo(s2.(ahead := 2), 0));
    RunOne(BLOCKS, s2.(ahead := 2), OpSeekToByte(0), [OpRead(1), OpRead(1), OpRead(1)]);
    RunOne(BLOCKS, s2, OpSetReadahead(2), [OpSeekToByte(0), OpRead(1), OpRead(1), OpRead(1)]);
    RunOne(BLOCKS, s1, OpRead(1), [OpSetReadahead(2), OpSeekToByte(0), OpRead(1), OpRead(1), OpRead(1)]);
    RunOne(BLOCKS, s0, OpSeekToByte(1), [OpRead(1), OpSetReadahead(2), OpSeekToByte(0), OpRead(1), OpRead(1), OpRead(1)]);
  }

  lemma RunOne(blocks: seq<Bytes>, s: State, op: Op, ops: seq<Op>)
    ensures Run(blocks, s, [op] + ops).1 == [Step(blocks, s, op).1] + Run(blocks, Step(blocks, s, op).0, ops).1
    ensures Run(blocks, s, []).1 == []
  {
    assert ([op] + ops)[1..] == ops;
  }

  // --- Smaller departures on the same data ---

  lemma FillFirst(s: State)
    requires s.queue == [] && s.next == 0 && s.ahead == 1 && !Starved(s) && s.cache == NewCache(64)
    ensures Fill(BLOCKS, s).queue == [[7]] && Fill(BLOCKS, s).next == 1 && Fill(BLOCKS, s).cache.entries == [Entry(0, [7])]
    ensures Fill(BLOCKS, s) == s.(queue := [[7]], next := 1, cache := Cache([Entry(0, [7])], 64, None))
  {
    assert Misses(s.cache, 0, 1) == [0];
    assert Assemble(s.cache, BLOCKS, 0, 1) == [[7]];
    assert [0][..0] == [];
  }

  lemma FirstBlock(s: State)
    requires s.queue == [] && s.next == 0 && s.ahead == 1 && !Starved(s) && s.cache == NewCache(64)
    requires s.pending.None? && !s.eof && s.current == [] && s.pos == 0
    ensures Read(BLOCKS, s, 1) ==
            (s.(current := [7], pos := 1, next := 1, cache := Cache([Entry(0, [7])], 64, None)), Ok([7]))
  {
    hide Fill;
    FillFirst(s);
    var b: Bytes := [7];
    assert b[..1] == b && [[7]][1..] == [];
  }

  /** After `seek_to_block(1)` a read delivers block 0. */
  lemma SeekToBlockReadsBlockZero()
    ensures Run(BLOCKS, Fresh(1, None, NewCache(64)), [OpSeekToBlock(1), OpRead(1)]).1 == [Done(true), Data(Ok([7]))]
  {
    hide Read;
    var s := Fresh(1, None, NewCache(64));
    FirstBlock(SeekToBlock(s));
    RunOne(BLOCKS, s, OpSeekToBlock(1), [OpRead(1)]);
    RunOne(BLOCKS, SeekToBlock(s), OpRead(1), []);
  }

  /** After byte 1 was read, the only byte of block 1, the reader stands at byte 2, but `Current(0)`
      counts from inside the block and goes to byte 1. */
  lemma CurrentIsRelativeToBlock()
    ensures var ops := [OpSeekToByte(1), OpRead(1), OpSeekCurrent(0)];
            && Run(BLOCKS, Fresh(1, None, NewCache(64)), ops).1 == [Done(true), Data(Ok([8])), At(1)]
            && CursorRun(BLOCKS, 0, ops).1 == [Done(true), Data(Ok([8])), At(2)]
  {
    hide Read, SeekTo, CursorRead;
    var s0 := Fresh(1, None, NewCache(64));
    var s2 := After([8], 1, [], 1, 2, [Entry(1, [8])]);
    FirstRead();
    SecondByte();
    RunOne(BLOCKS, s2, OpSeekCurrent(0), []);
    RunOne(BLOCKS, SeekTo(s0, 1), OpRead(1), [OpSeekCurrent(0)]);
    RunOne(BLOCKS, s0, OpSeekToByte(1), [OpRead(1), OpSeekCurrent(0)]);
    CursorRunOne(BLOCKS, 2, OpSeekCurrent(0), []);
    CursorRunOne(BLOCKS, 1, OpRead(1), [OpSeekCurrent(0)]);
    CursorRunOne(BLOCKS, 0, OpSeekToByte(1), [OpRead(1), OpSeekCurrent(0)]);
  }

  lemma SecondByte()
    ensures CursorRead(BLOCKS, 1, 1) == [8]
  {
    Places();
    CursorReadIn(BLOCKS, 1, 0, 1);
    var b: Bytes := [8];
    assert b[0..1] == b;
  }

  lemma CursorRunOne(blocks: seq<Bytes>, p: nat, op: Op, ops: seq<Op>)
    ensures CursorRun(blocks, p, [op] + ops).1 ==
            [CursorStep(blocks, p, op).1] + CursorRun(blocks, Max(CursorStep(blocks, p, op).0, 0), ops).1
    ensures CursorRun(blocks, p, []).1 == []
  {
    assert ([op] + ops)[1..] == ops;
  }

  /** Right after a seek to any byte of any data `Current(0)` goes back to byte 0. */
  lemma CurrentForgetsTheSeek(blocks: seq<Bytes>, s: State, t: nat)
    ensures Run(blocks, s, [OpSeekToByte(t), OpSeekCurrent(0)]).1 == [Done(true), At(0)]
  {
    RunOne(blocks, SeekTo(s, t), OpSeekCurrent(0), []);
    RunOne(blocks, s, OpSeekToByte(t), [OpSeekCurrent(0)]);
  }

  /** A seek beyond the end is accepted, the read fails, and the next read begins at byte 0. */
  lemma FailedSeekRestarts()
    ensures Run(BLOCKS, Fresh(1, None, NewCache(64)), [OpSeekToByte(3), OpRead(1), OpRead(1)]).1 ==
            [Done(true), Data(Err(SeekBeyondEnd)), Data(Ok([7]))]
  {
    hide Read;
    var s := Fresh(1, None, NewCache(64));
    Places();
    FailedSeekStep(BLOCKS, s, 3, 1);
    FirstBlock(s);
    RunOne(BLOCKS, s, OpRead(1), []);
    RunOne(BLOCKS, SeekTo(s, 3), OpRead(1), [OpRead(1)]);
    RunOne(BLOCKS, s, OpSeekToByte(3), [OpRead(1), OpRead(1)]);
  }

  // --- Panics ---

  /** "All the rest from block 1 on" panics when it is asked for with the largest count there is. */
  lemma RangeReadPanics()
    ensures Run(BLOCKS, Fresh(1, None, NewCache(64)), [OpReadBlocks(1, U64 - 1)]).1 == [Data(Err(Panic))]
    ensures CursorRun(BLOCKS, 0, [OpReadBlocks(1, U64 - 1)]).1 == [Data(Ok([8]))]
  {
    hide Flat, Offset;
    TheRest();
    RunOne(BLOCKS, Fresh(1, None, NewCache(64)), OpReadBlocks(1, U64 - 1), []);
    CursorRunOne(BLOCKS, 0, OpReadBlocks(1, U64 - 1), []);
  }

  lemma TheRest()
    ensures Offset(BLOCKS, 1) == 1 && Offset(BLOCKS, 2) == 2 == |Flat(BLOCKS)|
    ensures Flat(BLOCKS)[Offset(BLOCKS, 1)..Offset(BLOCKS, 2)] == [8]
  {
    Places();
    FlatAll(BLOCKS);
    FlatSlice(BLOCKS, 1, 2);
    assert BLOCKS[1..2] == [[8]] && [[8]][1..] == [];
  }

  /** The largest readahead there is panics at the first refill that does not start at block 0. */
  lemma ReadaheadPanics()
    ensures Run(BLOCKS, Fresh(1, None, NewCache(64)), [OpSetReadahead(U64 - 1), OpSeekToByte(1), OpRead(1)]).1 ==
            [Done(true), Done(true), Data(Err(Panic))]
  {
    hide Read, Flat, Locate, Offset;
    var s0 := Fresh(1, None, NewCache(64));
    var s1 := s0.(ahead := U64 - 1);
    Places();
    WidePanics(SeekTo(s1, 1));
    RunOne(BLOCKS, SeekTo(s1, 1), OpRead(1), []);
    RunOne(BLOCKS, s1, OpSeekToByte(1), [OpRead(1)]);
    RunOne(BLOCKS, s0, OpSetReadahead(U64 - 1), [OpSeekToByte(1), OpRead(1)]);
  }

  lemma WidePanics(s: State)
    requires s == SeekTo(Fresh(1, None, NewCache(64)).(ahead := U64 - 1), 1)
    ensures Read(BLOCKS, s, 1).1 == Err(Panic)
  {
    hide Flat, Locate, Offset, Fill;
    Places();
  }

  /** With a readahead memory limit of 0 the first read already reports the end of the file. */
  lemma LimitEndsTheFile()
    ensures Run(BLOCKS, Fresh(1, Some(0), NewCache(64)), [OpRead(1)]).1 == [Data(Ok([]))]
  {
    hide Fill;
    var s := Fresh(1, Some(0), NewCache(64));
    StarvedFill(BLOCKS, s);
    RunOne(BLOCKS, s, OpRead(1), []);
  }

  /** With a limit of 2 and one-byte blocks the second read delivers nothing: one byte is the current
      block, and the other is the same block in the cache. Without the cache it would go on. */
  lemma CacheCountsTowardsLimit()
    ensures Run(BLOCKS, Fresh(1, Some(2), NewCache(64)), [OpRead(1), OpRead(1)]).1 == [Data(Ok([7])), Data(Ok([]))]
    ensures Run(BLOCKS, Fresh(1, Some(2), NewCache(0)), [OpRead(1), OpRead(1)]).1 == [Data(Ok([7])), Data(Ok([8]))]
  {
    WithCache();
    WithoutCache();
  }

  lemma WithCache()
    ensures Run(BLOCKS, Fresh(1, Some(2), NewCache(64)), [OpRead(1), OpRead(1)]).1 == [Data(Ok([7])), Data(Ok([]))]
  {
    hide Read, Fill;
    var s := Fresh(1, Some(2), NewCache(64));
    assert !Starved(s);
    FirstBlock(s);
    var t := Read(BLOCKS, s, 1).0;
    SecondStarves(t);
    RunOne(BLOCKS, t, OpRead(1), []);
    RunOne(BLOCKS, s, OpRead(1), [OpRead(1)]);
  }

  lemma SecondStarves(t: State)
    requires t == State([7], 1, false, None, [], 1, Some(2), 1, Cache([Entry(0, [7])], 64, None), false)
    ensures Read(BLOCKS, t, 1).1 == Ok([])
  {
    hide Fill;
    assert t.cache.entries[..0] == [];
    assert Starved(t);
    StarvedFill(BLOCKS, t);
  }

  lemma WithoutCache()
    ensures Run(BLOCKS, Fresh(1, Some(2), NewCache(0)), [OpRead(1), OpRead(1)]).1 == [Data(Ok([7])), Data(Ok([8]))]
  {
    hide Read, Fill;
    var s := Fresh(1, Some(2), NewCache(0));
    var t := State([7], 1, false, None, [], 1, Some(2), 1, NewCache(0), false);
    UncachedBlock(s, 0, [7]);
    UncachedBlock(t, 1, [8]);
    RunOne(BLOCKS, t, OpRead(1), []);
    RunOne(BLOCKS, s, OpRead(1), [OpRead(1)]);
  }

  /** Without cache the next block is just taken. */
  lemma UncachedBlock(s: State, k: nat, block: Bytes)
    requires k < 2 && block == BLOCKS[k] && s.queue == [] && s.next == k && s.ahead == 1 && s.limit == Some(2)
    requires s.cache == NewCache(0) && s.pending.None? && !s.eof && |s.current| < 2 && s.pos == |s.current|
    ensures Read(BLOCKS, s, 1) == (s.(current := block, pos := 1, next := k + 1), Ok(block))
  {
    hide Flat, Fill, Usage;
    UncachedFill(s, k, block);
    assert |block| == 1 && block[..1] == block && [block][1..] == [];
  }

  lemma UncachedFill(s: State, k: nat, block: Bytes)
    requires k < 2 && block == BLOCKS[k] && s.queue == [] && s.next == k && s.ahead == 1 && s.limit == Some(2)
    requires s.cache == NewCache(0) && |s.current| < 2
    ensures Usage(s) < 2 && Fill(BLOCKS, s) == s.(queue := [block], next := k + 1)
  {
    hide Flat, GetAll, InsertAll;
    NothingQueued();
    assert Misses(s.cache, k, k + 1) == [k];
    assert Assemble(s.cache, BLOCKS, k, k + 1) == [block];
    DisabledCache(s.cache, k);
  }

  lemma DisabledCache(c: Cache, k: nat)
    requires c == NewCache(0) && k < 2
    ensures GetAll(c, k, k + 1) == c && InsertAll(c, [k], BLOCKS) == c
  {
    assert GetAll(c, k, k) == c && [k][..0] == [];
    assert InsertAll(c, [], BLOCKS) == c;
    assert Lru.Insert(c, k, BLOCKS[k]) == c;
  }

  lemma NothingQueued()
    ensures |Flat<byte>([])| == 0
  {
  }
}
