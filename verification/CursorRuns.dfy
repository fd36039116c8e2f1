/** Whole runs of the reader against the plain cursor. */
module CursorRuns {
  import opened Prelude
  import opened Lru
  import opened ReaderMachine
  import opened Cursor

  /** At byte 0, or reading block 0 with no seek pending: the last block a read delivered bytes from,
      since the last seek or range read, is block 0. CallHistory.dfy says this over the calls made. */
  predicate InFirstBlock(s: State, p: nat) {
    p == 0 || (s.pending.None? && s.current != [] && s.next - |s.queue| == 1)
  }

  /** Exactly when a call does what the cursor would. Everything here is known before the call. */
  ghost predicate Admissible(blocks: seq<Bytes>, s: State, p: nat, op: Op) {
    var total := |Flat(blocks)|;
    match op
    case OpRead(n) => n == 0 || ReadOk(blocks, s)
    case OpSeekToByte(t) => t <= total
    case OpSeekStart(t) => t <= total
    case OpSeekEnd(d) => -total <= d <= 0
    case OpSeekCurrent(d) => InFirstBlock(s, p) && 0 <= p + d <= total
    case OpSeekToBlock(i) => Resolve(blocks, i).None? || Resolve(blocks, i) == Some(0)
    case OpReadBlocks(start, count) => start >= |blocks| || start + count < U64
    case OpSetReadahead(_) => true
    case OpSetCache(_) => true
  }

  /** The call replies as the cursor does and leaves the reader where the cursor goes. */
  ghost predicate Follows(blocks: seq<Bytes>, s: State, p: nat, op: Op) {
    var (s', r) := Step(blocks, s, op);
    var (p', want) := CursorStep(blocks, p, op);
    r == want && Refines(blocks, s', p')
  }

  lemma SeekFollows(blocks: seq<Bytes>, s: State, p: nat, t: nat)
    requires Refines(blocks, s, p)
    ensures Refines(blocks, SeekTo(s, t), t) <==> t <= |Flat(blocks)|
    ensures forall q: int :: Refines(blocks, SeekTo(s, t), q) ==> q == t
  {
    hide Sound, Flat;
  }

  lemma ResetFollows(blocks: seq<Bytes>, s: State, p: nat, next: nat)
    requires NonEmpty(blocks) && Refines(blocks, s, p) && next <= |blocks|
    ensures Refines(blocks, Cleared(s).(pending := None, eof := false, next := next), Offset(blocks, next))
    ensures forall q: int :: Refines(blocks, Cleared(s).(pending := None, eof := false, next := next), q) ==> q == Offset(blocks, next)
  {
    hide Flat, Sound, Offset;
    FlatAt(blocks, next);
    assert blocks[next - 0..next] == [];
  }

  /** The position inside the current block never exceeds the absolute position. */
  lemma PosBelow(blocks: seq<Bytes>, s: State, p: nat)
    requires Refines(blocks, s, p)
    ensures s.pos <= p
  {
    hide Sound, Flat;
    if s.pending.None? && s.current != [] {
      FlatSplit(blocks, s.next - |s.queue| - 1);
    }
  }

  /** The position inside the block is the absolute one exactly at byte 0 and inside block 0. */
  lemma PosIsAbsolute(blocks: seq<Bytes>, s: State, p: nat)
    requires NonEmpty(blocks) && Refines(blocks, s, p)
    ensures s.pos == p <==> InFirstBlock(s, p)
  {
    hide Sound, Flat;
    PosBelow(blocks, s, p);
    if s.pending.None? && s.current != [] {
      var k := s.next - |s.queue| - 1;
      FlatSplit(blocks, k);
      FlatAll(blocks);
      if k > 0 { OffsetMonotone(blocks, 0, k); }
    }
  }

  lemma WithinData(blocks: seq<Bytes>, s: State, p: nat)
    requires Refines(blocks, s, p)
    ensures p <= |Flat(blocks)|
  {
    hide Flat, Sound, Placed, Offset;
  }

  lemma WrapAround(x: int)
    requires -0x8000_0000_0000_0000 <= x < U64
    ensures AsU64(x) == if x >= 0 then x else x + U64
  {
  }

  lemma ReadFollows(blocks: seq<Bytes>, s: State, p: nat, n: nat)
    requires NonEmpty(blocks) && Refines(blocks, s, p)
    ensures Follows(blocks, s, p, OpRead(n)) <==> n == 0 || ReadOk(blocks, s)
  {
    hide Read, Refines, ReadOk, ReadStarved, ReadPanics, CursorRead;
    if n == 0 {
      PosBelow(blocks, s, p);
      ReadNothing(blocks, s, p);
    } else {
      ReadExact(blocks, s, p, n);
    }
  }

  lemma ReadNothing(blocks: seq<Bytes>, s: State, p: nat)
    ensures Read(blocks, s, 0) == (s, Ok([])) && CursorRead(blocks, p, 0) == []
  {
    hide Flat, Locate;
  }

  /** `Current` counts from the position inside the block, so it follows the cursor only at byte 0
      and while reading block 0; after a seek or a range read it counts from 0. */
  lemma SeekCurrentFollows(blocks: seq<Bytes>, s: State, p: nat, d: i64)
    requires NonEmpty(blocks) && Refines(blocks, s, p) && |Flat(blocks)| < 0x8000_0000_0000_0000
    ensures Follows(blocks, s, p, OpSeekCurrent(d)) <==> InFirstBlock(s, p) && 0 <= p + d <= |Flat(blocks)|
  {
    hide Refines, Flat, Step, CursorStep, AsU64, SeekTo, InFirstBlock;
    PosBelow(blocks, s, p);
    PosIsAbsolute(blocks, s, p);
    WithinData(blocks, s, p);
    SeekSteps(blocks, s, p, d);
    WrapAround(s.pos + d);
    SeekFollows(blocks, s, p, AsU64(s.pos + d));
  }

  lemma SeekSteps(blocks: seq<Bytes>, s: State, p: nat, d: i64)
    ensures Step(blocks, s, OpSeekCurrent(d)) == (SeekTo(s, AsU64(s.pos + d)), At(AsU64(s.pos + d)))
    ensures CursorStep(blocks, p, OpSeekCurrent(d)) == (p + d, At(Max(p + d, 0)))
    ensures Step(blocks, s, OpSeekEnd(d)) == (SeekTo(s, AsU64(|Flat(blocks)| + d)), At(AsU64(|Flat(blocks)| + d)))
    ensures CursorStep(blocks, p, OpSeekEnd(d)) == (|Flat(blocks)| + d, At(Max(|Flat(blocks)| + d, 0)))
  {
  }

  lemma SeekEndFollows(blocks: seq<Bytes>, s: State, p: nat, d: i64)
    requires Refines(blocks, s, p) && |Flat(blocks)| < 0x8000_0000_0000_0000
    ensures Follows(blocks, s, p, OpSeekEnd(d)) <==> -|Flat(blocks)| <= d <= 0
  {
    hide Refines, Flat, Step, CursorStep, AsU64, SeekTo;
    SeekSteps(blocks, s, p, d);
    WrapAround(|Flat(blocks)| + d);
    SeekFollows(blocks, s, p, AsU64(|Flat(blocks)| + d));
  }

  lemma SeekToBlockFollows(blocks: seq<Bytes>, s: State, p: nat, i: i64)
    requires NonEmpty(blocks) && Refines(blocks, s, p)
    ensures Follows(blocks, s, p, OpSeekToBlock(i)) <==> Resolve(blocks, i).None? || Resolve(blocks, i) == Some(0)
  {
    var b := Resolve(blocks, i);
    FlatAll(blocks);
    hide Refines, Flat;
    ResetFollows(blocks, s, p, 0);
    if b.Some? {
      OffsetMonotone(blocks, 0, b.value);
    }
  }

  /** A range read is the slice of the data between the two block offsets, and the reader goes on
      from its end; unless the end of the range reaches 2^64, which panics. */
  lemma ReadBlocksFollows(blocks: seq<Bytes>, s: State, p: nat, start: nat, count: nat)
    requires NonEmpty(blocks) && Refines(blocks, s, p)
    ensures Follows(blocks, s, p, OpReadBlocks(start, count)) <==> start >= |blocks| || start + count < U64
  {
    hide Refines, Flat;
    if start < |blocks| && count > 0 {
      var end := Min(|blocks|, start + count);
      ResetFollows(blocks, s, p, end);
      FlatSlice(blocks, start, end);
    }
  }

  lemma AbsoluteFollows(blocks: seq<Bytes>, s: State, p: nat, t: nat)
    requires Refines(blocks, s, p)
    ensures Follows(blocks, s, p, OpSeekToByte(t)) <==> t <= |Flat(blocks)|
    ensures Follows(blocks, s, p, OpSeekStart(t)) <==> t <= |Flat(blocks)|
  {
    hide Refines, Flat, SeekTo;
    SeekFollows(blocks, s, p, t);
  }

  lemma SettersFollow(blocks: seq<Bytes>, s: State, p: nat, n: nat)
    requires Refines(blocks, s, p)
    ensures Follows(blocks, s, p, OpSetReadahead(n)) && Follows(blocks, s, p, OpSetCache(n))
  {
    hide Flat, Refines, Read, ReadBlocks, SeekTo, AsU64, Resolve, CursorRead;
    SettersRefine(blocks, s, p, n);
  }

  lemma SettersRefine(blocks: seq<Bytes>, s: State, p: nat, n: nat)
    requires Refines(blocks, s, p)
    ensures Refines(blocks, s.(ahead := Max(n, 1)), p) && Refines(blocks, s.(cache := NewCache(n)), p)
  {
    hide Flat, Refines, Sound, Placed;
    assert s.ahead >= 1 && Sound(blocks, s.cache) by { hide *; RefinesParts(blocks, s, p); }
    EmptySound(blocks, n);
    RefinesElsewhere(blocks, s, s.(ahead := Max(n, 1)), p);
    RefinesElsewhere(blocks, s, s.(cache := NewCache(n)), p);
  }

  lemma EmptySound(blocks: seq<Bytes>, n: nat)
    ensures Sound(blocks, NewCache(n))
  {
    hide Flat;
  }

  lemma RefinesParts(blocks: seq<Bytes>, s: State, p: int)
    requires Refines(blocks, s, p)
    ensures s.ahead >= 1 && Sound(blocks, s.cache) && p >= 0
  {
    hide Flat, Sound, Placed, Offset;
  }

  /** Where the reader stands does not depend on its window size or on what is cached. */
  lemma RefinesElsewhere(blocks: seq<Bytes>, s: State, s': State, p: nat)
    requires Refines(blocks, s, p)
    requires s' == s.(ahead := s'.ahead, cache := s'.cache) && s'.ahead >= 1 && Sound(blocks, s'.cache)
    ensures Refines(blocks, s', p)
  {
    hide Flat, Sound, Offset;
  }

  /** Each call follows the cursor exactly when it is admissible: reads unless the refill meets the
      memory limit, an end of 2^64 or a cached tail after an uncached block, range reads unless their
      end reaches 2^64, seeks within the data, `Current` only at
      byte 0 and while reading block 0, `seek_to_block` only to block 0. */
  lemma StepExact(blocks: seq<Bytes>, s: State, p: nat, op: Op)
    requires NonEmpty(blocks) && Refines(blocks, s, p) && |Flat(blocks)| < 0x8000_0000_0000_0000
    ensures Follows(blocks, s, p, op) <==> Admissible(blocks, s, p, op)
  {
    hide Follows, Refines, Flat, ReadOk, Resolve, InFirstBlock;
    match op
    case OpRead(n) => ReadFollows(blocks, s, p, n);
    case OpSeekToByte(t) => AbsoluteFollows(blocks, s, p, t);
    case OpSeekStart(t) => AbsoluteFollows(blocks, s, p, t);
    case OpSeekEnd(d) => SeekEndFollows(blocks, s, p, d);
    case OpSeekCurrent(d) => SeekCurrentFollows(blocks, s, p, d);
    case OpSeekToBlock(i) => SeekToBlockFollows(blocks, s, p, i);
    case OpReadBlocks(start, count) => ReadBlocksFollows(blocks, s, p, start, count);
    case OpSetReadahead(n) => SettersFollow(blocks, s, p, n);
    case OpSetCache(n) => SettersFollow(blocks, s, p, n);
  }

  // --- Runs ---

  ghost predicate AllAdmissible(blocks: seq<Bytes>, s: State, p: nat, ops: seq<Op>)
    decreases |ops|
  {
    ops == [] || (
      Admissible(blocks, s, p, ops[0]) &&
      CursorStep(blocks, p, ops[0]).0 >= 0 &&
      AllAdmissible(blocks, Step(blocks, s, ops[0]).0, CursorStep(blocks, p, ops[0]).0, ops[1..]))
  }

  /** Every call of the run replies as the cursor and leaves the reader where the cursor goes. */
  ghost predicate AllFollow(blocks: seq<Bytes>, s: State, p: nat, ops: seq<Op>)
    decreases |ops|
  {
    ops == [] || (
      Follows(blocks, s, p, ops[0]) &&
      CursorStep(blocks, p, ops[0]).0 >= 0 &&
      AllFollow(blocks, Step(blocks, s, ops[0]).0, CursorStep(blocks, p, ops[0]).0, ops[1..]))
  }

  /** A run follows the cursor at every call exactly when all its calls are admissible. */
  lemma {:induction false} RunExact(blocks: seq<Bytes>, s: State, p: nat, ops: seq<Op>)
    requires NonEmpty(blocks) && Refines(blocks, s, p) && |Flat(blocks)| < 0x8000_0000_0000_0000
    ensures AllFollow(blocks, s, p, ops) <==> AllAdmissible(blocks, s, p, ops)
    decreases |ops|
  {
    if ops != [] {
      hide Refines, Admissible, Step, CursorStep, Flat;
      StepExact(blocks, s, p, ops[0]);
      if Follows(blocks, s, p, ops[0]) && CursorStep(blocks, p, ops[0]).0 >= 0 {
        RunExact(blocks, Step(blocks, s, ops[0]).0, CursorStep(blocks, p, ops[0]).0, ops[1..]);
      }
    }
  }

  function CursorRun(blocks: seq<Bytes>, p: nat, ops: seq<Op>): (int, seq<Reply>)
    decreases |ops|
  {
    if ops == [] then (p, [])
    else
      var (p1, r) := CursorStep(blocks, p, ops[0]);
      var (p2, rs) := CursorRun(blocks, Max(p1, 0), ops[1..]);
      (p2, [r] + rs)
  }

  /** Every run of admissible calls, in any order, is call for call a run of the cursor. */
  lemma {:induction false} RunRefines(blocks: seq<Bytes>, s: State, p: nat, ops: seq<Op>)
    requires NonEmpty(blocks) && Refines(blocks, s, p) && |Flat(blocks)| < 0x8000_0000_0000_0000
    requires AllAdmissible(blocks, s, p, ops)
    ensures Run(blocks, s, ops).1 == CursorRun(blocks, p, ops).1
    ensures Refines(blocks, Run(blocks, s, ops).0, CursorRun(blocks, p, ops).0)
    decreases |ops|
  {
    if ops != [] {
      hide Refines, Admissible, Step, CursorStep, Flat;
      StepExact(blocks, s, p, ops[0]);
      RunRefines(blocks, Step(blocks, s, ops[0]).0, CursorStep(blocks, p, ops[0]).0, ops[1..]);
    }
  }

  /** Two readers at the same byte, however they got there, reply alike to every run admissible for
      both. Transparency.dfy has the same without admissibility for readers in the same block. */
  lemma SameReplies(blocks: seq<Bytes>, s: State, t: State, p: nat, ops: seq<Op>)
    requires NonEmpty(blocks) && |Flat(blocks)| < 0x8000_0000_0000_0000
    requires Refines(blocks, s, p) && Refines(blocks, t, p)
    requires AllAdmissible(blocks, s, p, ops) && AllAdmissible(blocks, t, p, ops)
    ensures Run(blocks, s, ops).1 == Run(blocks, t, ops).1
  {
    RunRefines(blocks, s, p, ops);
    RunRefines(blocks, t, p, ops);
  }

  /** Reads, absolute seeks inside the data and range reads; changes of the cache and of the readahead
      where they are allowed. Ranges end below 2^64, and so does every window. */
  ghost predicate InRange(blocks: seq<Bytes>, anyCache: bool, anyAhead: bool, op: Op) {
    var total := |Flat(blocks)|;
    match op
    case OpRead(_) => true
    case OpSeekToByte(t) => t <= total
    case OpSeekStart(t) => t <= total
    case OpSeekEnd(d) => -total <= d <= 0
    case OpSeekCurrent(_) => false
    case OpSeekToBlock(_) => false
    case OpReadBlocks(start, count) => start >= |blocks| || start + count < U64
    case OpSetReadahead(n) => n <= 1 || (anyAhead && n + |blocks| <= U64)
    case OpSetCache(n) => n == 0 || anyCache
  }

  /** No refill can go wrong: caching is off and stays off, or windows hold one block and will not
      grow, or a cached tail is counted. */
  predicate Carefree(blocks: seq<Bytes>, s: State, anyCache: bool, anyAhead: bool) {
    && s.limit.None? && s.ahead + |blocks| <= U64
    && (s.tailCounted || (s.cache.capacity == 0 && !anyCache) || (s.ahead == 1 && !anyAhead))
  }

  lemma NothingCached(blocks: seq<Bytes>, c: Cache, k: nat)
    requires Sound(blocks, c) && c.capacity == 0
    ensures !Cached(c, k)
  {
  }

  lemma CarefreeReads(blocks: seq<Bytes>, s: State)
    requires s.limit.None? && s.ahead + |blocks| <= U64 && (s.tailCounted || s.cache.capacity == 0 || s.ahead == 1)
    requires Sound(blocks, s.cache) && s.ahead >= 1
    ensures ReadOk(blocks, s)
  {
    hide Sound, Cached, Flat;
    var r := RefillState(blocks, s);
    if r.Some? && s.cache.capacity == 0 {
      NothingCached(blocks, s.cache, WindowEnd(blocks, r.value) - 1);
    }
  }

  lemma GetAllCapacity(c: Cache, lo: nat, hi: nat)
    ensures GetAll(c, lo, hi).capacity == c.capacity
  {
  }

  lemma InsertAllCapacity(c: Cache, keys: seq<nat>, blocks: seq<Bytes>)
    ensures InsertAll(c, keys, blocks).capacity == c.capacity
  {
  }

  lemma FillLimits(blocks: seq<Bytes>, s: State)
    ensures Fill(blocks, s).limit == s.limit && Fill(blocks, s).tailCounted == s.tailCounted
    ensures Fill(blocks, s).cache.capacity == s.cache.capacity && Fill(blocks, s).ahead == s.ahead
  {
    hide GetAll, InsertAll, Misses, Assemble;
    var lo, hi := s.next, WindowEnd(blocks, s);
    GetAllCapacity(s.cache, lo, hi);
    GetAllCapacity(GetAll(s.cache, lo, hi), lo, hi);
    InsertAllCapacity(GetAll(GetAll(s.cache, lo, hi), lo, hi), Misses(s.cache, lo, hi), blocks);
  }

  lemma ServeLimits(blocks: seq<Bytes>, s: State, n: nat)
    ensures var t := Serve(blocks, s, n).0;
            && t.limit == s.limit && t.tailCounted == s.tailCounted && t.cache.capacity == s.cache.capacity
            && t.ahead == s.ahead
  {
    hide Fill;
    FillLimits(blocks, s);
  }

  lemma PendingLimits(blocks: seq<Bytes>, s: State)
    ensures var t := RunPending(blocks, s).0;
            && t.limit == s.limit && t.tailCounted == s.tailCounted && t.cache.capacity == s.cache.capacity
            && t.ahead == s.ahead
  {
    hide Fill, Locate, Flat, Lookup;
    if s.pending.Some? { FillLimits(blocks, Landing(blocks, s, s.pending.value)); }
  }

  /** No call in range changes the memory limit or the variant, enables a disabled cache or widens a
      window of one block. */
  lemma StaysCarefree(blocks: seq<Bytes>, s: State, anyCache: bool, anyAhead: bool, op: Op)
    requires Carefree(blocks, s, anyCache, anyAhead) && InRange(blocks, anyCache, anyAhead, op) && |blocks| < U64
    ensures Carefree(blocks, Step(blocks, s, op).0, anyCache, anyAhead)
  {
    hide Serve, RunPending, Flat;
    PendingLimits(blocks, s);
    if op.OpRead? { ServeLimits(blocks, RunPending(blocks, s).0, op.n); }
  }

  /** Every interleaving of reads, seeks in range and range reads behaves as the cursor: with the
      cache off and any readahead, with a readahead of one block and any cache, and, with the
      corrected `next_block_index`, with any of both. */
  lemma {:induction false} CarefreeRun(blocks: seq<Bytes>, s: State, p: nat, anyCache: bool, anyAhead: bool, ops: seq<Op>)
    requires NonEmpty(blocks) && Refines(blocks, s, p) && |Flat(blocks)| < 0x8000_0000_0000_0000
    requires Carefree(blocks, s, anyCache, anyAhead)
    requires forall i :: 0 <= i < |ops| ==> InRange(blocks, anyCache, anyAhead, ops[i])
    ensures AllAdmissible(blocks, s, p, ops)
    ensures Run(blocks, s, ops).1 == CursorRun(blocks, p, ops).1
    decreases |ops|
  {
    if ops != [] {
      var op := ops[0];
      assert Admissible(blocks, s, p, op) by { CarefreeReads(blocks, s); }
      hide Admissible, Step, CursorStep, InRange, Flat, Carefree;
      StepExact(blocks, s, p, op);
      StaysCarefree(blocks, s, anyCache, anyAhead, op);
      var s1, p1 := Step(blocks, s, op).0, CursorStep(blocks, p, op).0;
      CarefreeRun(blocks, s1, p1, anyCache, anyAhead, ops[1..]);
    }
    RunRefines(blocks, s, p, ops);
  }

  // --- Reading forward: the round trip ---

  /** Reads, cache changes, and readahead changes to anything but sizes near 2^64. */
  predicate Forward(blocks: seq<Bytes>, op: Op) {
    op.OpRead? || (op.OpSetReadahead? && op.n + |blocks| <= U64) || op.OpSetCache?
  }

  ghost predicate KeysBelow(c: Cache, n: nat) {
    forall i :: 0 <= i < |c.entries| ==> c.entries[i].key < n
  }

  lemma {:induction false} KeysBelowGetAll(c: Cache, lo: nat, hi: nat, n: nat)
    requires Consistent(c) && KeysBelow(c, n)
    ensures Consistent(GetAll(c, lo, hi)) && KeysBelow(GetAll(c, lo, hi), n)
  {
    hide Consistent, Lru.Get;
    if lo < hi {
      var c' := GetAll(c, lo, hi - 1);
      KeysBelowGetAll(c, lo, hi - 1, n);
      GetConsistent(c', hi - 1);
      var d := Lru.Get(c', hi - 1);
      forall i | 0 <= i < |d.entries|
        ensures d.entries[i].key < n
      {
        GetKeepsEntries(c', hi - 1, d.entries[i]);
      }
    }
  }

  lemma {:induction false} KeysBelowInsertAll(c: Cache, keys: seq<nat>, blocks: seq<Bytes>, n: nat)
    requires KeysBelow(c, n) && forall i :: 0 <= i < |keys| ==> keys[i] < n
    ensures KeysBelow(InsertAll(c, keys, blocks), n)
  {
    hide Lru.Insert;
    if keys != [] {
      var m := |keys| - 1;
      KeysBelowInsertAll(c, keys[..m], blocks, n);
      var c' := InsertAll(c, keys[..m], blocks);
      if keys[m] < |blocks| {
        var d := Lru.Insert(c', keys[m], blocks[keys[m]]);
        forall i | 0 <= i < |d.entries|
          ensures d.entries[i].key < n
        {
          InsertedFrom(c', keys[m], blocks[keys[m]], i);
        }
      }
    }
  }

  lemma AboveNotCached(c: Cache, n: nat, k: nat)
    requires KeysBelow(c, n) && n <= k
    ensures !Cached(c, k)
  {
    LookupFinds(c.entries, k);
  }

  /** Going forward, no refill ever meets a cached block, and everything cached stays behind `next`. */
  lemma FillForward(blocks: seq<Bytes>, s: State)
    requires Sound(blocks, s.cache) && s.queue == [] && s.limit.None? && s.next < |blocks| && s.ahead >= 1
    requires KeysBelow(s.cache, s.next) && WindowFits(s)
    ensures WindowOk(blocks, s) && Fill(blocks, s).next == WindowEnd(blocks, s)
    ensures KeysBelow(Fill(blocks, s).cache, Fill(blocks, s).next)
  {
    hide Cached, InsertAll, GetAll, Misses, Assemble, KeysBelow;
    var lo, hi := s.next, WindowEnd(blocks, s);
    AboveNotCached(s.cache, lo, hi - 1);
    FillTransparent(blocks, s);
    MissesFacts(s.cache, lo, hi);
    MissesIncreasing(s.cache, lo, hi);
    KeysBelowMore(s.cache, lo, hi);
    KeysBelowGetAll(s.cache, lo, hi, hi);
    KeysBelowGetAll(GetAll(s.cache, lo, hi), lo, hi, hi);
    KeysBelowInsertAll(GetAll(GetAll(s.cache, lo, hi), lo, hi), Misses(s.cache, lo, hi), blocks, hi);
  }

  lemma KeysBelowMore(c: Cache, m: nat, n: nat)
    requires KeysBelow(c, m) && m <= n
    ensures KeysBelow(c, n)
  {
  }

  /** Everything cached lies behind, and the next window ends below 2^64. */
  ghost predicate Ahead(blocks: seq<Bytes>, s: State) {
    && s.pending.None? && s.limit.None? && KeysBelow(s.cache, s.next)
    && 2 * |blocks| <= U64 && (s.next < |blocks| ==> WindowFits(s))
  }

  lemma ReadAhead(blocks: seq<Bytes>, s: State, p: nat, n: nat)
    requires NonEmpty(blocks) && Refines(blocks, s, p) && Ahead(blocks, s)
    ensures (n == 0 || ReadOk(blocks, s)) && Ahead(blocks, Read(blocks, s, n).0)
  {
    hide Refines, Serve, Ahead;
    if n > 0 {
      assert s.pending.None? by { hide *; AheadParts(blocks, s); }
      NextWithin(blocks, s, p);
      ServeAhead(blocks, s, n);
    }
  }

  lemma AheadParts(blocks: seq<Bytes>, s: State)
    requires Ahead(blocks, s)
    ensures s.pending.None?
  {
    hide KeysBelow;
  }

  lemma NextWithin(blocks: seq<Bytes>, s: State, p: nat)
    requires Refines(blocks, s, p)
    ensures Sound(blocks, s.cache) && s.ahead >= 1 && s.next <= |blocks|
  {
    hide Sound, Flat, Offset;
  }

  lemma ServeAhead(blocks: seq<Bytes>, s: State, n: nat)
    requires Sound(blocks, s.cache) && s.ahead >= 1 && s.next <= |blocks| && Ahead(blocks, s)
    ensures ReadOk(blocks, s) && Ahead(blocks, Serve(blocks, s, n).0)
  {
    hide Sound, Flat, KeysBelow, Fill, WindowOk;
    if s.pos >= |s.current| && s.queue == [] {
      if s.next < |blocks| {
        FillForward(blocks, s);
        FillTransparent(blocks, s);
      } else {
        FillAtEnd(blocks, s);
      }
    }
  }

  lemma SetCacheAhead(blocks: seq<Bytes>, s: State, n: nat)
    requires Ahead(blocks, s)
    ensures Ahead(blocks, s.(cache := NewCache(n)))
  {
  }

  /** A reader that has only gone forward keeps following the cursor, whatever its readahead size,
      cache capacity and cache memory limit, however these change on the way. */
  lemma {:induction false} ForwardRun(blocks: seq<Bytes>, s: State, p: nat, ops: seq<Op>)
    requires NonEmpty(blocks) && Refines(blocks, s, p) && |Flat(blocks)| < 0x8000_0000_0000_0000
    requires Ahead(blocks, s) && forall i :: 0 <= i < |ops| ==> Forward(blocks, ops[i])
    ensures Run(blocks, s, ops).1 == CursorRun(blocks, p, ops).1
    ensures Refines(blocks, Run(blocks, s, ops).0, CursorRun(blocks, p, ops).0)
    decreases |ops|
  {
    if ops != [] {
      hide Refines, CursorRead, Flat, Read, Ahead, ReadOk;
      var op := ops[0];
      assert Forward(blocks, op);
      if op.OpRead? { ReadAhead(blocks, s, p, op.n); }
      if op.OpSetCache? { SetCacheAhead(blocks, s, op.n); }
      if op.OpSetReadahead? { AheadResized(blocks, s, Max(op.n, 1)); }
      StepExact(blocks, s, p, op);
      ForwardRun(blocks, Step(blocks, s, op).0, CursorStep(blocks, p, op).0, ops[1..]);
    }
  }

  lemma AheadResized(blocks: seq<Bytes>, s: State, n: nat)
    requires Ahead(blocks, s) && n + |blocks| <= U64
    ensures Ahead(blocks, s.(ahead := n))
  {
  }

  /** A fresh reader stands at byte 0 with nothing cached, whatever readahead it was given. */
  lemma FreshRefines(blocks: seq<Bytes>, ahead: nat, capacity: nat, maxMemory: Option<nat>)
    requires ahead >= 1
    ensures Refines(blocks, Fresh(ahead, None, Cache([], capacity, maxMemory)), 0)
    ensures ahead < U64 && 2 * |blocks| <= U64 ==> Ahead(blocks, Fresh(ahead, None, Cache([], capacity, maxMemory)))
  {
  }

  /** The bytes of all read replies, in order. */
  function Gathered(replies: seq<Reply>): Bytes {
    if replies == [] then []
    else Gathering(replies[0]) + Gathered(replies[1..])
  }

  lemma CursorReadBounds(blocks: seq<Bytes>, p: nat, n: nat)
    requires p <= |Flat(blocks)|
    ensures var r := CursorRead(blocks, p, n); |r| <= n && p + |r| <= |Flat(blocks)| && r == Flat(blocks)[p..p + |r|]
    ensures n > 0 && p < |Flat(blocks)| ==> CursorRead(blocks, p, n) != []
  {
    hide Flat, Locate, Offset;
    LocateBounds(blocks, p);
    if Locate(blocks, p) < |blocks| { FlatAt(blocks, Locate(blocks, p) + 1); }
  }

  /** The bytes of one reply. */
  function Gathering(r: Reply): Bytes {
    if r.Data? && r.result.Ok? then r.result.value else []
  }

  lemma GatherOne(r: Reply, rs: seq<Reply>)
    ensures Gathered([r] + rs) == Gathering(r) + Gathered(rs)
  {
    assert ([r] + rs)[1..] == rs;
  }

  lemma ForwardStep(blocks: seq<Bytes>, p: nat, op: Op)
    requires p <= |Flat(blocks)| && Forward(blocks, op)
    ensures var (q, r) := CursorStep(blocks, p, op); p <= q <= |Flat(blocks)| && Gathering(r) == Flat(blocks)[p..q]
  {
    hide Flat, CursorRead;
    if op.OpRead? { CursorReadBounds(blocks, p, op.n); }
  }

  /** Reads gather consecutive bytes: nothing is lost, repeated or reordered. */
  lemma {:induction false} CursorGathers(blocks: seq<Bytes>, p: nat, ops: seq<Op>)
    requires p <= |Flat(blocks)| && forall i :: 0 <= i < |ops| ==> Forward(blocks, ops[i])
    ensures var (q, rs) := CursorRun(blocks, p, ops); p <= q <= |Flat(blocks)| && Gathered(rs) == Flat(blocks)[p..q]
    decreases |ops|
  {
    if ops != [] {
      hide Flat, CursorStep, Gathered, Gathering, Forward;
      ForwardStep(blocks, p, ops[0]);
      var (p1, r) := CursorStep(blocks, p, ops[0]);
      CursorGathers(blocks, p1, ops[1..]);
      var (q, rs) := CursorRun(blocks, p1, ops[1..]);
      GatherOne(r, rs);
      Adjacent(Flat(blocks), p, p1, q);
    } else {
      assert Gathered([]) == [];
    }
  }

  /** Round trip at the level of calls: a fresh reader's replies gather to a prefix of the data, and
      once a read of at least one byte comes back empty they have gathered all of it. */
  lemma ForwardRoundTrip(blocks: seq<Bytes>, s: State, ops: seq<Op>, n: nat)
    requires NonEmpty(blocks) && Refines(blocks, s, 0) && Ahead(blocks, s) && |Flat(blocks)| < 0x8000_0000_0000_0000
    requires n > 0 && forall i :: 0 <= i < |ops| ==> Forward(blocks, ops[i])
    ensures Gathered(Run(blocks, s, ops).1) <= Flat(blocks)
    ensures Read(blocks, Run(blocks, s, ops).0, n).1 == Ok([]) <==> Gathered(Run(blocks, s, ops).1) == Flat(blocks)
  {
    hide Flat, CursorRead, Read, Refines, ReadOk, ReadStarved, Gathered, Run;
    ForwardRun(blocks, s, 0, ops);
    CursorGathers(blocks, 0, ops);
    var q := CursorRun(blocks, 0, ops).0;
    CursorReadBounds(blocks, q, n);
    CursorReadEnd(blocks, n);
    var last := Run(blocks, s, ops).0;
    ForwardAhead(blocks, s, 0, ops);
    ReadAhead(blocks, last, q, n);
    ReadExact(blocks, last, q, n);
  }

  lemma {:induction false} ForwardAhead(blocks: seq<Bytes>, s: State, p: nat, ops: seq<Op>)
    requires NonEmpty(blocks) && Refines(blocks, s, p) && |Flat(blocks)| < 0x8000_0000_0000_0000
    requires Ahead(blocks, s) && forall i :: 0 <= i < |ops| ==> Forward(blocks, ops[i])
    ensures Ahead(blocks, Run(blocks, s, ops).0)
    decreases |ops|
  {
    if ops != [] {
      hide Refines, CursorRead, Flat, Read, Ahead, ReadOk;
      var op := ops[0];
      assert Forward(blocks, op);
      if op.OpRead? { ReadAhead(blocks, s, p, op.n); }
      if op.OpSetCache? { SetCacheAhead(blocks, s, op.n); }
      if op.OpSetReadahead? { AheadResized(blocks, s, Max(op.n, 1)); }
      StepExact(blocks, s, p, op);
      ForwardAhead(blocks, Step(blocks, s, op).0, CursorStep(blocks, p, op).0, ops[1..]);
    }
  }

  // --- Where the code departs from the cursor ---

  lemma FailedSeekStep(blocks: seq<Bytes>, s: State, t: nat, n: nat)
    requires t > |Flat(blocks)| && n > 0
    ensures Read(blocks, SeekTo(s, t), n) == (Cleared(s).(pending := None, next := 0), Err(SeekBeyondEnd))
  {
    hide Flat, Locate, Fill;
  }

  lemma StuckAtEof(blocks: seq<Bytes>, s: State, n: nat)
    requires s.eof && s.pending.None? && s.pos >= |s.current| && n > 0
    ensures Read(blocks, s, n) == (s, Ok([]))
  {
    hide Flat, Fill;
  }

  /** A seek beyond the end is accepted; the next read fails and consumes the target. The reader then
      stands at byte 0, unless it had seen the end of file before, in which case it stays there. */
  lemma FailedSeek(blocks: seq<Bytes>, s: State, p: nat, t: nat, n: nat)
    requires blocks != [] && Refines(blocks, s, p) && t > |Flat(blocks)| && n > 0
    ensures var (s', r) := Read(blocks, SeekTo(s, t), n);
            && r == Err(SeekBeyondEnd)
            && (Refines(blocks, s', 0) <==> !s.eof)
            && (s.eof ==> Read(blocks, s', n) == (s', Ok([])))
  {
    hide Flat, Read, Refines;
    FailedSeekStep(blocks, s, t, n);
    FailedSeekPlace(blocks, s, p);
    if s.eof { StuckAtEof(blocks, Cleared(s).(pending := None, next := 0), n); }
  }

  lemma FailedSeekPlace(blocks: seq<Bytes>, s: State, p: nat)
    requires blocks != [] && Refines(blocks, s, p)
    ensures Refines(blocks, Cleared(s).(pending := None, next := 0), 0) <==> !s.eof
  {
    FlatAll(blocks);
    hide Sound, Flat, Offset;
    assert blocks[0 - 0..0] == [];
  }
}
