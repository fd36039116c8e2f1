/** The cache is transparent (src/reader.rs:505-650, src/block_cache.rs:42-79): as long as every refill
    is in order, no reply to any call depends on what is cached, on how far the reader reads ahead or
    on its memory limit, whether or not the calls do what the cursor would. */
module Transparency {
  import opened Prelude
  import opened Lru
  import opened ReaderMachine
  import opened Cursor
  import opened CursorRuns

  /** The queue holds the blocks just before `next`, and the cache is true. */
  ghost predicate InOrder(blocks: seq<Bytes>, s: State) {
    && Sound(blocks, s.cache) && s.ahead >= 1
    && |s.queue| <= s.next <= |blocks| && s.queue == blocks[s.next - |s.queue|..s.next]
  }

  /** Two readers that differ at most in what they have cached, queued ahead and are limited to. */
  ghost predicate Alike(blocks: seq<Bytes>, s: State, t: State) {
    && InOrder(blocks, s) && InOrder(blocks, t)
    && s.current == t.current && s.pos == t.pos && s.eof == t.eof && s.pending == t.pending
    && s.next - |s.queue| == t.next - |t.queue|
  }

  /** The same call, but for the sizes of readahead and cache. */
  predicate Matches(a: Op, b: Op) {
    a == b || (a.OpSetReadahead? && b.OpSetReadahead?) || (a.OpSetCache? && b.OpSetCache?)
  }

  /** Every refill that a read of the run makes is in order. */
  ghost predicate Orderly(blocks: seq<Bytes>, s: State, ops: seq<Op>)
    decreases |ops|
  {
    ops == [] || (
      (ops[0].OpRead? && ops[0].n > 0 ==> ReadOk(blocks, s)) &&
      Orderly(blocks, Step(blocks, s, ops[0]).0, ops[1..]))
  }

  // --- One read, told without the cache ---

  /** A read past the current block takes the next block, wherever that comes from. */
  lemma ServeNext(blocks: seq<Bytes>, s: State, n: nat)
    requires NonEmpty(blocks) && InOrder(blocks, s) && ReadOk(blocks, s) && s.pending.None? && n >= 1
    requires !s.eof && s.pos >= |s.current|
    ensures var (s', r) := Serve(blocks, s, n); var k := s.next - |s.queue|;
            && InOrder(blocks, s') && s'.pending.None?
            && (k < |blocks| ==>
                  && r == Ok(blocks[k][..Min(|blocks[k]|, n)]) && s'.current == blocks[k]
                  && s'.pos == Min(|blocks[k]|, n) && !s'.eof && s'.next - |s'.queue| == k + 1)
            && (k == |blocks| ==>
                  && r == Ok([]) && s'.current == s.current && s'.pos == s.pos
                  && s'.eof && s'.next - |s'.queue| == k)
  {
    hide Sound, Fill, Starved, WindowFits, Flat, Cached;
    var k := s.next - |s.queue|;
    if s.queue != [] {
      assert s.queue[0] == blocks[k] && s.queue[1..] == blocks[k + 1..s.next];
    } else if k < |blocks| {
      FillTransparent(blocks, s);
      var hi := WindowEnd(blocks, s);
      assert blocks[k..hi][0] == blocks[k] && blocks[k..hi][1..] == blocks[k + 1..hi];
    } else {
      FillAtEnd(blocks, s);
    }
  }

  lemma ServeAlike(blocks: seq<Bytes>, s: State, t: State, n: nat)
    requires NonEmpty(blocks) && Alike(blocks, s, t) && s.pending.None? && n >= 1
    requires ReadOk(blocks, s) && ReadOk(blocks, t)
    ensures Serve(blocks, s, n).1 == Serve(blocks, t, n).1
    ensures Alike(blocks, Serve(blocks, s, n).0, Serve(blocks, t, n).0)
  {
    hide Sound, Fill, Starved, ReadOk, Overflows;
    if s.pos >= |s.current| && !s.eof {
      hide Serve;
      ServeNext(blocks, s, n);
      ServeNext(blocks, t, n);
    }
  }

  /** A pending seek lands in its block, wherever that comes from. */
  lemma PendingLands(blocks: seq<Bytes>, s: State, t: nat)
    requires InOrder(blocks, s) && ReadOk(blocks, s) && s.pending == Some(t)
    ensures var (s', error) := RunPending(blocks, s); var b := Locate(blocks, t);
            && InOrder(blocks, s') && s'.pending.None? && (error.None? ==> ReadOk(blocks, s'))
            && (error == if t > |Flat(blocks)| then Some(SeekBeyondEnd) else None)
            && (t > |Flat(blocks)| ==> s' == s.(pending := None))
            && (t <= |Flat(blocks)| && b < |blocks| ==>
                  && s'.current == blocks[b] && s'.pos == t - Offset(blocks, b) < |blocks[b]|
                  && !s'.eof && s'.next - |s'.queue| == b + 1)
            && (t <= |Flat(blocks)| && b == |blocks| ==>
                  s'.current == [] && s'.pos == 0 && s'.eof && s'.next - |s'.queue| == b)
  {
    hide Sound, Flat, Locate, Offset, Fill, Cached, Starved, WindowFits, Lookup, Lru.Get;
    if t <= |Flat(blocks)| {
      var b := Locate(blocks, t);
      var landing := Landing(blocks, s, t);
      LocateInside(blocks, t);
      if Cached(s.cache, b) {
        SoundLookup(blocks, s.cache, b);
        SoundGet(blocks, s.cache, b);
      } else if b < |blocks| {
        FillTransparent(blocks, landing);
        var hi := WindowEnd(blocks, landing);
        assert blocks[b..hi][0] == blocks[b] && blocks[b..hi][1..] == blocks[b + 1..hi];
      } else {
        FillAtEnd(blocks, landing);
      }
    }
  }

  lemma PendingAlike(blocks: seq<Bytes>, s: State, t: State)
    requires Alike(blocks, s, t) && s.pending.Some? && ReadOk(blocks, s) && ReadOk(blocks, t)
    ensures var (s', e) := RunPending(blocks, s); var (t', f) := RunPending(blocks, t);
            && e == f && Alike(blocks, s', t') && s'.pending.None?
            && (e.None? ==> ReadOk(blocks, s') && ReadOk(blocks, t'))
  {
    hide Sound, Flat, Locate, Offset, Fill, ReadOk, RunPending;
    PendingLands(blocks, s, s.pending.value);
    PendingLands(blocks, t, s.pending.value);
    LocateTotal(blocks, s.pending.value);
  }

  lemma LocateTotal(blocks: seq<Bytes>, t: nat)
    ensures Locate(blocks, t) <= |blocks|
  {
  }

  lemma ReadAlike(blocks: seq<Bytes>, s: State, t: State, n: nat)
    requires NonEmpty(blocks) && Alike(blocks, s, t) && (n > 0 ==> ReadOk(blocks, s) && ReadOk(blocks, t))
    ensures Read(blocks, s, n).1 == Read(blocks, t, n).1
    ensures Alike(blocks, Read(blocks, s, n).0, Read(blocks, t, n).0)
  {
    hide InOrder, ReadOk, Serve, RunPending, NonEmpty;
    if n > 0 {
      if s.pending.None? {
        NoneWaiting(blocks, s);
        NoneWaiting(blocks, t);
        ServeAlike(blocks, s, t, n);
      } else {
        PendingAlike(blocks, s, t);
        var (s', e) := RunPending(blocks, s);
        if e.None? { ServeAlike(blocks, s', RunPending(blocks, t).0, n); }
      }
    }
  }

  lemma NoneWaiting(blocks: seq<Bytes>, s: State)
    requires s.pending.None?
    ensures RunPending(blocks, s) == (s, None)
  {
    hide Flat, Fill, Locate;
  }

  // --- All calls ---

  lemma ClearedAlike(blocks: seq<Bytes>, s: State, t: State, pending: Option<nat>, next: nat)
    requires Alike(blocks, s, t) && next <= |blocks|
    ensures Alike(blocks, Cleared(s).(pending := pending, next := next), Cleared(t).(pending := pending, next := next))
    ensures Alike(blocks, Cleared(s).(pending := pending, eof := false, next := next),
                  Cleared(t).(pending := pending, eof := false, next := next))
  {
    hide Sound;
    assert blocks[next..next] == [];
  }

  /** Sizes of readahead and cache change nothing that shows. */
  lemma ResizedAlike(blocks: seq<Bytes>, s: State, t: State, m: nat, n: nat)
    requires Alike(blocks, s, t)
    ensures Alike(blocks, s.(ahead := Max(m, 1)), t.(ahead := Max(n, 1)))
    ensures Alike(blocks, s.(cache := NewCache(m)), t.(cache := NewCache(n)))
  {
    hide Sound;
    EmptySound(blocks, m);
    EmptySound(blocks, n);
  }

  lemma StepAlike(blocks: seq<Bytes>, s: State, t: State, a: Op, b: Op)
    requires NonEmpty(blocks) && Alike(blocks, s, t) && Matches(a, b)
    requires a.OpRead? && a.n > 0 ==> ReadOk(blocks, s) && ReadOk(blocks, t)
    ensures Step(blocks, s, a).1 == Step(blocks, t, b).1
    ensures Alike(blocks, Step(blocks, s, a).0, Step(blocks, t, b).0)
  {
    hide InOrder, ReadOk, Read, NonEmpty, Flat, AsU64, Resolve;
    match a
    case OpRead(n) => ReadAlike(blocks, s, t, n);
    case OpReadBlocks(start, count) => ClearedAlike(blocks, s, t, None, Min(|blocks|, start + count));
    case OpSetReadahead(m) => ResizedAlike(blocks, s, t, m, b.n);
    case OpSetCache(m) => ResizedAlike(blocks, s, t, m, b.n);
    case _ => SeekAlike(blocks, s, t, a);
  }

  lemma SeekAlike(blocks: seq<Bytes>, s: State, t: State, a: Op)
    requires Alike(blocks, s, t)
    requires a.OpSeekToByte? || a.OpSeekStart? || a.OpSeekEnd? || a.OpSeekCurrent? || a.OpSeekToBlock?
    ensures Step(blocks, s, a).1 == Step(blocks, t, a).1
    ensures Alike(blocks, Step(blocks, s, a).0, Step(blocks, t, a).0)
  {
    hide InOrder, Read, ReadBlocks, Flat, AsU64, Resolve;
    match a
    case OpSeekToByte(x) => ClearedAlike(blocks, s, t, Some(x), 0);
    case OpSeekStart(x) => ClearedAlike(blocks, s, t, Some(x), 0);
    case OpSeekEnd(d) => ClearedAlike(blocks, s, t, Some(AsU64(|Flat(blocks)| + d)), 0);
    case OpSeekCurrent(d) => ClearedAlike(blocks, s, t, Some(AsU64(s.pos + d)), 0);
    case OpSeekToBlock(_) => ClearedAlike(blocks, s, t, None, 0);
  }

  /** Two readers at the same point, with any caches, readahead sizes and memory limits, and the same
      calls but for those sizes: if every refill of both is in order, all replies are equal. */
  lemma {:induction false} CacheTransparent(blocks: seq<Bytes>, s: State, t: State, ops: seq<Op>, calls: seq<Op>)
    requires NonEmpty(blocks) && Alike(blocks, s, t)
    requires |ops| == |calls| && forall i :: 0 <= i < |ops| ==> Matches(ops[i], calls[i])
    requires Orderly(blocks, s, ops) && Orderly(blocks, t, calls)
    ensures Run(blocks, s, ops).1 == Run(blocks, t, calls).1
    decreases |ops|
  {
    if ops != [] {
      hide Alike, ReadOk, Step, NonEmpty;
      assert Matches(ops[0], calls[0]);
      StepAlike(blocks, s, t, ops[0], calls[0]);
      CacheTransparent(blocks, Step(blocks, s, ops[0]).0, Step(blocks, t, calls[0]).0, ops[1..], calls[1..]);
    }
  }

  // --- The plain reader: no cache, one block at a time, no limit ---

  function PlainOp(op: Op): Op {
    match op
    case OpSetReadahead(_) => OpSetReadahead(1)
    case OpSetCache(_) => OpSetCache(0)
    case _ => op
  }

  function PlainOps(ops: seq<Op>): (calls: seq<Op>)
    ensures |calls| == |ops|
  {
    seq(|ops|, i requires 0 <= i < |ops| => PlainOp(ops[i]))
  }

  ghost predicate IsPlain(s: State) {
    s.cache.capacity == 0 && s.ahead == 1 && s.limit.None?
  }

  lemma StaysPlain(blocks: seq<Bytes>, t: State, op: Op)
    requires IsPlain(t)
    ensures IsPlain(Step(blocks, t, PlainOp(op)).0)
  {
    hide Serve, RunPending, Flat, Resolve, AsU64;
    PendingLimits(blocks, t);
    if op.OpRead? { ServeLimits(blocks, RunPending(blocks, t).0, op.n); }
  }

  /** The plain reader keeps its cache true, whatever is asked of it. */
  lemma PlainReads(blocks: seq<Bytes>, t: State)
    requires IsPlain(t) && InOrder(blocks, t) && |blocks| < U64
    ensures ReadOk(blocks, t)
  {
    hide Sound, ReadOk;
    CarefreeReads(blocks, t);
  }

  /** Every run whose own refills are in order replies call for call as the plain reader does to the
      same calls, which caches nothing and reads ahead nothing. */
  lemma {:induction false} PlainReference(blocks: seq<Bytes>, s: State, t: State, ops: seq<Op>)
    requires NonEmpty(blocks) && |blocks| < U64 && Alike(blocks, s, t) && IsPlain(t) && Orderly(blocks, s, ops)
    ensures Orderly(blocks, t, PlainOps(ops))
    ensures Run(blocks, s, ops).1 == Run(blocks, t, PlainOps(ops)).1
    decreases |ops|
  {
    if ops != [] {
      hide InOrder, ReadOk, Step, NonEmpty, IsPlain;
      var op, call := ops[0], PlainOp(ops[0]);
      PlainReads(blocks, t);
      StepAlike(blocks, s, t, op, call);
      StaysPlain(blocks, t, op);
      assert PlainOps(ops)[1..] == PlainOps(ops[1..]) && PlainOps(ops)[0] == call;
      PlainReference(blocks, Step(blocks, s, op).0, Step(blocks, t, call).0, ops[1..]);
    }
  }
}
