/** The reader refines a plain cursor over the uncompressed bytes. Each call is shown to do what
    the cursor does exactly when a condition on the call holds, and so does every run. */
module Cursor {
  import opened Prelude
  import opened Lru
  import opened ReaderMachine

  ghost predicate NonEmpty(blocks: seq<Bytes>) {
    forall i :: 0 <= i < |blocks| ==> |blocks[i]| >= 1
  }

  /** Every cached entry is the true block. */
  ghost predicate True(blocks: seq<Bytes>, c: Cache) {
    forall i :: 0 <= i < |c.entries| ==> c.entries[i].key < |blocks| && c.entries[i].data == blocks[c.entries[i].key]
  }

  ghost predicate Sound(blocks: seq<Bytes>, c: Cache) {
    Consistent(c) && True(blocks, c)
  }

  // --- The cache across one refill ---

  lemma SoundLookup(blocks: seq<Bytes>, c: Cache, k: nat)
    requires Sound(blocks, c) && Cached(c, k)
    ensures k < |blocks| && Lookup(c.entries, k).value == blocks[k]
  {
    LookupFinds(c.entries, k);
  }

  lemma SoundGet(blocks: seq<Bytes>, c: Cache, k: nat)
    requires Sound(blocks, c)
    ensures Sound(blocks, Lru.Get(c, k))
    ensures forall j: nat :: Cached(Lru.Get(c, k), j) <==> Cached(c, j)
  {
    hide Lru.Get, Lookup;
    var c' := Lru.Get(c, k);
    GetConsistent(c, k);
    forall i | 0 <= i < |c'.entries|
      ensures c'.entries[i].key < |blocks| && c'.entries[i].data == blocks[c'.entries[i].key]
    {
      GetKeepsEntries(c, k, c'.entries[i]);
    }
    forall j: nat
      ensures Cached(c', j) <==> Cached(c, j)
    {
      SameCached(c, k, j);
    }
  }

  lemma SameCached(c: Cache, k: nat, j: nat)
    requires Consistent(c)
    ensures Cached(Lru.Get(c, k), j) <==> Cached(c, j)
  {
    hide Lru.Get, Lookup;
    var c' := Lru.Get(c, k);
    LookupFinds(c.entries, j);
    LookupFinds(c'.entries, j);
    if Cached(c, j) { GetKeepsEntries(c, k, Entry(j, Lookup(c.entries, j).value)); }
    if Cached(c', j) { GetKeepsEntries(c, k, Entry(j, Lookup(c'.entries, j).value)); }
  }

  lemma SoundInsert(blocks: seq<Bytes>, c: Cache, k: nat)
    requires Sound(blocks, c) && k < |blocks|
    ensures Sound(blocks, Lru.Insert(c, k, blocks[k]))
  {
    hide Lru.Insert, Without;
    var c' := Lru.Insert(c, k, blocks[k]);
    InsertConsistent(c, k, blocks[k]);
    forall i | 0 <= i < |c'.entries|
      ensures c'.entries[i].key < |blocks| && c'.entries[i].data == blocks[c'.entries[i].key]
    {
      InsertedFrom(c, k, blocks[k], i);
    }
  }

  /** After an insertion every entry is the new one or an old one. */
  lemma InsertedFrom(c: Cache, k: nat, data: Bytes, i: nat)
    requires i < |Lru.Insert(c, k, data).entries|
    ensures Lru.Insert(c, k, data).entries[i] == Entry(k, data) || Lru.Insert(c, k, data).entries[i] in c.entries
  {
    hide Lru.Insert, Without;
    var c' := Lru.Insert(c, k, data);
    if c.capacity == 0 {
      InsertDisabled(c, k, data);
    } else {
      InsertKeepsLongestPrefix(c, k, data);
      var rest := Without(c.entries, k);
      if i > 0 {
        assert c'.entries[i] == rest[i - 1];
        WithoutMembers(c.entries, k, rest[i - 1]);
      }
    }
  }

  lemma InsertDisabled(c: Cache, k: nat, data: Bytes)
    requires c.capacity == 0
    ensures Lru.Insert(c, k, data) == c
  {
  }

  lemma {:induction false} SoundGetAll(blocks: seq<Bytes>, c: Cache, lo: nat, hi: nat)
    requires Sound(blocks, c)
    ensures Sound(blocks, GetAll(c, lo, hi))
    ensures forall j: nat :: Cached(GetAll(c, lo, hi), j) <==> Cached(c, j)
  {
    hide Sound, Lru.Get, Cached;
    if lo < hi {
      SoundGetAll(blocks, c, lo, hi - 1);
      SoundGet(blocks, GetAll(c, lo, hi - 1), hi - 1);
    }
  }

  lemma {:induction false} SoundInsertAll(blocks: seq<Bytes>, c: Cache, keys: seq<nat>)
    requires Sound(blocks, c)
    ensures Sound(blocks, InsertAll(c, keys, blocks))
  {
    hide Sound, Lru.Insert;
    if keys != [] {
      var n := |keys| - 1;
      SoundInsertAll(blocks, c, keys[..n]);
      if keys[n] < |blocks| { SoundInsert(blocks, InsertAll(c, keys[..n], blocks), keys[n]); }
    }
  }

  // --- Windows ---

  ghost predicate WhollyCached(c: Cache, lo: nat, hi: nat) {
    forall i :: lo <= i < hi ==> Cached(c, i)
  }

  /** The misses are exactly the uncached blocks of the window. */
  lemma {:induction false} MissesExact(c: Cache, lo: nat, hi: nat, k: nat)
    ensures k in Misses(c, lo, hi) <==> lo <= k < hi && !Cached(c, k)
  {
    hide Cached;
    if lo < hi { MissesExact(c, lo, hi - 1, k); }
  }

  lemma {:induction false} MissesIncreasing(c: Cache, lo: nat, hi: nat)
    ensures forall i :: 0 <= i < |Misses(c, lo, hi)| ==> lo <= Misses(c, lo, hi)[i] < hi
    ensures forall i, j :: 0 <= i < j < |Misses(c, lo, hi)| ==> Misses(c, lo, hi)[i] < Misses(c, lo, hi)[j]
  {
    hide Cached;
    if lo < hi { MissesIncreasing(c, lo, hi - 1); }
  }

  lemma MissesFacts(c: Cache, lo: nat, hi: nat)
    ensures var m := Misses(c, lo, hi);
            (m == [] <==> WhollyCached(c, lo, hi)) &&
            (m != [] ==> lo <= m[|m| - 1] < hi && (m[|m| - 1] == hi - 1 <==> !Cached(c, hi - 1)))
  {
    hide Cached, Misses;
    MissesIncreasing(c, lo, hi);
    var m := Misses(c, lo, hi);
    forall k: nat
      ensures k in m <==> lo <= k < hi && !Cached(c, k)
    {
      MissesExact(c, lo, hi, k);
    }
    if m != [] {
      assert m[|m| - 1] in m && m[0] in m;
      if !Cached(c, hi - 1) {
        assert hi - 1 in m;
        var i :| 0 <= i < |m| && m[i] == hi - 1;
      }
    }
  }

  /** A window delivers its blocks whatever subset of it was cached. */
  lemma AssembleIsSlice(blocks: seq<Bytes>, c: Cache, lo: nat, hi: nat)
    requires Sound(blocks, c) && lo <= hi <= |blocks|
    ensures Assemble(c, blocks, lo, hi) == blocks[lo..hi]
  {
    hide Sound, Lookup;
    forall j | 0 <= j < hi - lo
      ensures Assemble(c, blocks, lo, hi)[j] == blocks[lo..hi][j]
    {
      if Cached(c, lo + j) { SoundLookup(blocks, c, lo + j); }
    }
  }

  /** One refill: the queue gets exactly the window in order, the cache stays true despite
      evictions, and `next` ends at the window's end exactly when the window was wholly cached or
      its last block was not cached; otherwise the cached tail will be delivered again. */
  lemma FillTransparent(blocks: seq<Bytes>, s: State)
    requires Sound(blocks, s.cache) && s.queue == [] && !Starved(s) && s.next < |blocks| && s.ahead >= 1 && WindowFits(s)
    ensures var f := Fill(blocks, s); var hi := WindowEnd(blocks, s);
            && s.next < hi <= |blocks|
            && f.queue == blocks[s.next..hi] && |f.queue| == Min(s.ahead, |blocks| - s.next)
            && Sound(blocks, f.cache)
            && s.next < f.next <= hi
            && (f.next == hi <==> s.tailCounted || WhollyCached(s.cache, s.next, hi) || !Cached(s.cache, hi - 1))
            && f == s.(queue := f.queue, cache := f.cache, next := f.next)
  {
    var lo, hi := s.next, WindowEnd(blocks, s);
    hide Sound, Misses, Assemble, GetAll, InsertAll, Cached, Starved;
    var c1 := GetAll(s.cache, lo, hi);
    AssembleIsSlice(blocks, s.cache, lo, hi);
    SoundGetAll(blocks, s.cache, lo, hi);
    SoundGetAll(blocks, c1, lo, hi);
    SoundInsertAll(blocks, GetAll(c1, lo, hi), Misses(s.cache, lo, hi));
    MissesFacts(s.cache, lo, hi);
  }

  // --- The cursor ---

  /** End of the block holding byte p. */
  function BlockEnd(blocks: seq<Bytes>, p: nat): nat {
    if Locate(blocks, p) < |blocks| then Offset(blocks, Locate(blocks, p) + 1) else |Flat(blocks)|
  }

  /** What a read of n bytes at p gives: the bytes from p to the end of the block, at most n. */
  function Taken(blocks: seq<Bytes>, p: nat, n: nat): nat {
    Max(Min(n, BlockEnd(blocks, p) - p), 0)
  }

  function CursorRead(blocks: seq<Bytes>, p: nat, n: nat): Bytes {
    if p + Taken(blocks, p, n) <= |Flat(blocks)| then Flat(blocks)[p..p + Taken(blocks, p, n)] else []
  }

  /** The plain cursor: the new position and the reply. */
  function CursorStep(blocks: seq<Bytes>, p: nat, op: Op): (int, Reply) {
    var total := |Flat(blocks)|;
    match op
    case OpRead(n) => (p + |CursorRead(blocks, p, n)|, Data(Ok(CursorRead(blocks, p, n))))
    case OpSeekToByte(t) => (t, Done(true))
    case OpSeekStart(t) => (t, At(t))
    case OpSeekEnd(d) => (total + d, At(Max(total + d, 0)))
    case OpSeekCurrent(d) => (p + d, At(Max(p + d, 0)))
    case OpSeekToBlock(i) =>
      var b := Resolve(blocks, i);
      if b.Some? then (Offset(blocks, b.value), Done(true)) else (p, Done(false))
    case OpReadBlocks(start, count) =>
      if start >= |blocks| then (p, Data(Err(SeekBeyondEnd)))
      else if count == 0 then (p, Data(Ok([])))
      else
        var end := Min(|blocks|, start + count);
        FlatSlice(blocks, start, end);
        (Offset(blocks, end), Data(Ok(Flat(blocks)[Offset(blocks, start)..Offset(blocks, end)])))
    case OpSetReadahead(_) => (p, Done(true))
    case OpSetCache(_) => (p, Done(true))
  }

  // --- Where a byte is ---

  lemma {:induction false} LocateIn(blocks: seq<Bytes>, k: nat, off: nat)
    requires k < |blocks| && off < |blocks[k]|
    ensures Locate(blocks, Offset(blocks, k) + off) == k
    decreases k
  {
    FlatAll(blocks);
    if k > 0 {
      var tail := blocks[1..];
      assert blocks[..k] == [blocks[0]] + tail[..k - 1];
      FlatCons(blocks[0], tail[..k - 1]);
      LocateIn(tail, k - 1, off);
    }
  }

  lemma {:induction false} LocateEnd(blocks: seq<Bytes>)
    ensures Locate(blocks, |Flat(blocks)|) == |blocks|
    decreases |blocks|
  {
    if blocks != [] { LocateEnd(blocks[1..]); }
  }

  lemma {:induction false} LocateBounds(blocks: seq<Bytes>, t: nat)
    requires t <= |Flat(blocks)|
    ensures Offset(blocks, Locate(blocks, t)) <= t
    ensures Locate(blocks, t) < |blocks| ==> t < Offset(blocks, Locate(blocks, t) + 1)
    ensures Locate(blocks, t) == |blocks| <==> t == |Flat(blocks)|
    decreases |blocks|
  {
    FlatAll(blocks);
    if blocks != [] && t >= |blocks[0]| {
      var tail := blocks[1..];
      LocateBounds(tail, t - |blocks[0]|);
      var b := Locate(tail, t - |blocks[0]|);
      assert blocks[..b + 1] == [blocks[0]] + tail[..b];
      FlatCons(blocks[0], tail[..b]);
      if b < |tail| {
        assert blocks[..b + 2] == [blocks[0]] + tail[..b + 1];
        FlatCons(blocks[0], tail[..b + 1]);
      }
    } else if blocks != [] {
      assert blocks[..1] == [blocks[0]] + [];
      FlatCons(blocks[0], []);
    }
  }

  lemma LocateInside(blocks: seq<Bytes>, t: nat)
    requires t <= |Flat(blocks)|
    ensures var b := Locate(blocks, t); b < |blocks| ==> 0 <= t - Offset(blocks, b) < |blocks[b]|
  {
    hide Flat, Locate;
    LocateBounds(blocks, t);
    if Locate(blocks, t) < |blocks| { FlatSplit(blocks, Locate(blocks, t)); }
  }

  lemma PieceSlice(blocks: seq<Bytes>, k: nat, off: nat, m: nat)
    requires k < |blocks| && off + m <= |blocks[k]|
    ensures Offset(blocks, k) + off + m <= |Flat(blocks)|
    ensures Flat(blocks)[Offset(blocks, k) + off..Offset(blocks, k) + off + m] == blocks[k][off..off + m]
  {
    FlatSplit(blocks, k);
    hide Flat;
    ThreeParts(Flat(blocks[..k]), blocks[k], Flat(blocks[k + 1..]), off, m);
  }

  lemma ThreeParts<T>(a: seq<T>, b: seq<T>, c: seq<T>, off: nat, m: nat)
    requires off + m <= |b|
    ensures (a + b + c)[|a| + off..|a| + off + m] == b[off..off + m]
  {
  }

  lemma BlockEndIn(blocks: seq<Bytes>, k: nat, off: nat)
    requires k < |blocks| && off < |blocks[k]|
    ensures BlockEnd(blocks, Offset(blocks, k) + off) == Offset(blocks, k) + |blocks[k]|
  {
    hide Flat, Locate;
    LocateIn(blocks, k, off);
    FlatSplit(blocks, k);
  }

  /** A cursor read inside block k comes from that block. */
  lemma CursorReadIn(blocks: seq<Bytes>, k: nat, off: nat, n: nat)
    requires k < |blocks| && off < |blocks[k]|
    ensures var p := Offset(blocks, k) + off; var take := Min(|blocks[k]| - off, n);
            p < |Flat(blocks)| && CursorRead(blocks, p, n) == blocks[k][off..off + take]
  {
    hide Flat, Locate, BlockEnd, Offset;
    BlockEndIn(blocks, k, off);
    var take := Min(|blocks[k]| - off, n);
    assert Taken(blocks, Offset(blocks, k) + off, n) == take;
    PieceSlice(blocks, k, off, take);
    PieceSlice(blocks, k, 0, |blocks[k]|);
  }

  lemma CursorReadEnd(blocks: seq<Bytes>, n: nat)
    ensures CursorRead(blocks, |Flat(blocks)|, n) == []
  {
    LocateEnd(blocks);
  }

  // --- The refinement relation ---

  /** Queue and current block are the blocks just before `next`. */
  ghost predicate Placed(blocks: seq<Bytes>, s: State) {
    && |s.queue| <= s.next <= |blocks| && s.queue == blocks[s.next - |s.queue|..s.next]
    && s.pos <= |s.current|
    && (s.current != [] ==> s.next - |s.queue| >= 1 && s.current == blocks[s.next - |s.queue| - 1])
    && (s.pending.Some? ==> s.current == [] && s.queue == [] && s.pos == 0 && s.next == 0)
    && (s.pending.None? && s.eof ==> s.queue == [] && s.pos == |s.current| && s.next == |blocks|)
  }

  /** The reader in state s stands at byte p of the data. */
  ghost predicate Refines(blocks: seq<Bytes>, s: State, p: int) {
    && Sound(blocks, s.cache) && s.ahead >= 1
    && Placed(blocks, s)
    && 0 <= p <= |Flat(blocks)|
    && (s.pending.Some? ==> s.pending.value == p)
    && (s.pending.None? ==> p == Offset(blocks, s.next - |s.queue|) - (|s.current| - s.pos))
  }

  /** A refill in this state delivers every block of its window once and only once. */
  ghost predicate WindowOk(blocks: seq<Bytes>, s: State) {
    var hi := WindowEnd(blocks, s);
    s.tailCounted || WhollyCached(s.cache, s.next, hi) || (hi >= 1 && !Cached(s.cache, hi - 1))
  }

  /** The state on which the next non-empty read would refill the queue, if it would. */
  ghost function RefillState(blocks: seq<Bytes>, s: State): Option<State> {
    if s.pending.Some? then
      var b := Locate(blocks, s.pending.value);
      if s.pending.value <= |Flat(blocks)| && b < |blocks| && !Cached(s.cache, b) then Some(Landing(blocks, s, s.pending.value)) else None
    else if s.pos >= |s.current| && !s.eof && s.queue == [] && s.next < |blocks| then Some(s) else None
  }

  ghost predicate ReadOk(blocks: seq<Bytes>, s: State) {
    var r := RefillState(blocks, s);
    r.Some? ==> !Starved(r.value) && WindowFits(r.value) && WindowOk(blocks, r.value)
  }

  ghost predicate ReadPanics(blocks: seq<Bytes>, s: State) {
    var r := RefillState(blocks, s);
    r.Some? && !Starved(r.value) && !WindowFits(r.value)
  }

  ghost predicate ReadStarved(blocks: seq<Bytes>, s: State) {
    var r := RefillState(blocks, s);
    r.Some? && Starved(r.value)
  }

  /** Standing in block k with the queue holding k+1..hi, `next` must be hi: any smaller value
      would make the blocks from it on come again. */
  lemma InStepIff(blocks: seq<Bytes>, s: State, k: nat, hi: nat)
    requires NonEmpty(blocks) && Sound(blocks, s.cache) && s.ahead >= 1
    requires k < hi <= |blocks| && s.current == blocks[k] && s.queue == blocks[k + 1..hi]
    requires s.pos <= |s.current| && s.pending.None? && !s.eof && s.next <= hi
    ensures Refines(blocks, s, Offset(blocks, k) + s.pos) <==> s.next == hi
  {
    hide Sound, Flat;
    FlatSplit(blocks, k);
    FlatSlice(blocks, k, k + 1);
    OffsetMonotone(blocks, k, k + 1);
    if s.next < hi && |s.queue| <= s.next {
      OffsetMonotone(blocks, s.next - |s.queue|, k);
    }
  }

  /** Reading on inside the current block. */
  lemma ServeInBlock(blocks: seq<Bytes>, s: State, k: nat, n: nat)
    requires k < |blocks| && s.current == blocks[k] && s.pos < |s.current| && n >= 1
    ensures var take := Min(|s.current| - s.pos, n);
            Serve(blocks, s, n) == (s.(pos := s.pos + take), Ok(CursorRead(blocks, Offset(blocks, k) + s.pos, n))) &&
            |CursorRead(blocks, Offset(blocks, k) + s.pos, n)| == take
  {
    CursorReadIn(blocks, k, s.pos, n);
  }

  /** A refill followed by taking its first block, `skip` bytes in. */
  lemma FillAndPop(blocks: seq<Bytes>, s: State, pos: nat)
    requires NonEmpty(blocks) && Sound(blocks, s.cache) && s.ahead >= 1
    requires s.queue == [] && !Starved(s) && s.next < |blocks| && s.pending.None? && !s.eof && WindowFits(s)
    requires pos <= |blocks[s.next]|
    ensures var f := Fill(blocks, s); var q := Pop(f, pos);
            && f.queue != [] && f.queue[0] == blocks[s.next] && q.current == blocks[s.next] && q.pos == pos
            && (Refines(blocks, q, Offset(blocks, s.next) + pos) <==> WindowOk(blocks, s))
            && (forall x: nat :: pos <= x <= |q.current| ==>
                  (Refines(blocks, q.(pos := x), Offset(blocks, s.next) + x) <==> WindowOk(blocks, s)))
  {
    hide Fill, Sound, Refines, Flat, Starved, Cached;
    var f, hi := Fill(blocks, s), WindowEnd(blocks, s);
    FillTransparent(blocks, s);
    var q := Pop(f, pos);
    assert q.queue == blocks[s.next + 1..hi];
    InStepIff(blocks, q, s.next, hi);
    forall x: nat | pos <= x <= |q.current|
      ensures Refines(blocks, q.(pos := x), Offset(blocks, s.next) + x) <==> WindowOk(blocks, s)
    {
      InStepIff(blocks, q.(pos := x), s.next, hi);
    }
  }

  // --- One read ---

  /** A read with no seek pending, from any state that stands at p. */
  lemma ServeExact(blocks: seq<Bytes>, s: State, p: nat, n: nat)
    requires NonEmpty(blocks) && Refines(blocks, s, p) && s.pending.None? && n >= 1
    ensures var (s', out) := Serve(blocks, s, n); var want := CursorRead(blocks, p, n);
            && (ReadStarved(blocks, s) ==> out == Ok([]) && want != [])
            && (ReadPanics(blocks, s) ==> out == Err(Panic))
            && (!ReadStarved(blocks, s) && !ReadPanics(blocks, s) ==> out == Ok(want))
            && (out == Ok(want) && Refines(blocks, s', p + |want|) <==> ReadOk(blocks, s))
  {
    hide Serve, CursorRead, RefillState, Starved, WindowFits, WindowOk, Sound, Flat, Offset;
    if s.pos < |s.current| {
      ServeExactInBlock(blocks, s, p, n);
    } else if s.queue != [] {
      ServeExactQueue(blocks, s, p, n);
    } else if s.next == |blocks| {
      ServeExactEnd(blocks, s, p, n);
    } else {
      ServeExactRefill(blocks, s, p, n);
    }
  }

  lemma ServeExactEnd(blocks: seq<Bytes>, s: State, p: nat, n: nat)
    requires Refines(blocks, s, p) && s.pending.None? && n >= 1
    requires s.pos == |s.current| && s.queue == [] && s.next == |blocks|
    ensures var (s', out) := Serve(blocks, s, n); var want := CursorRead(blocks, p, n);
            out == Ok(want) && Refines(blocks, s', p + |want|) && ReadOk(blocks, s)
  {
    hide Sound, Flat, CursorRead;
    FlatAll(blocks);
    CursorReadEnd(blocks, n);
  }

  lemma ServeExactInBlock(blocks: seq<Bytes>, s: State, p: nat, n: nat)
    requires NonEmpty(blocks) && Refines(blocks, s, p) && s.pending.None? && n >= 1 && s.pos < |s.current|
    ensures var (s', out) := Serve(blocks, s, n); var want := CursorRead(blocks, p, n);
            out == Ok(want) && Refines(blocks, s', p + |want|) && ReadOk(blocks, s)
  {
    hide Sound, Serve, CursorRead, Flat;
    var k := s.next - |s.queue| - 1;
    FlatSplit(blocks, k);
    FlatAt(blocks, k + 1);
    ServeInBlock(blocks, s, k, n);
  }

  lemma ServeExactQueue(blocks: seq<Bytes>, s: State, p: nat, n: nat)
    requires NonEmpty(blocks) && Refines(blocks, s, p) && s.pending.None? && n >= 1
    requires s.pos == |s.current| && s.queue != []
    ensures var (s', out) := Serve(blocks, s, n); var want := CursorRead(blocks, p, n);
            out == Ok(want) && Refines(blocks, s', p + |want|) && ReadOk(blocks, s)
  {
    hide Sound, CursorRead, Flat;
    var k := s.next - |s.queue|;
    assert s.queue[0] == blocks[k];
    CursorReadIn(blocks, k, 0, n);
    var take := Min(|s.queue[0]|, n);
    var s' := Pop(s, take);
    assert s'.queue == blocks[k + 1..s.next];
    InStepIff(blocks, s', k, s.next);
  }

  lemma ServeExactRefill(blocks: seq<Bytes>, s: State, p: nat, n: nat)
    requires NonEmpty(blocks) && Refines(blocks, s, p) && s.pending.None? && n >= 1
    requires s.pos == |s.current| && s.queue == [] && s.next < |blocks|
    ensures var (s', out) := Serve(blocks, s, n); var want := CursorRead(blocks, p, n);
            && (ReadStarved(blocks, s) ==> out == Ok([]) && want != [])
            && (ReadPanics(blocks, s) ==> out == Err(Panic))
            && (!ReadStarved(blocks, s) && !ReadPanics(blocks, s) ==> out == Ok(want))
            && (out == Ok(want) && Refines(blocks, s', p + |want|) <==> ReadOk(blocks, s))
  {
    hide Sound, CursorRead, Flat, WindowOk, Fill;
    var k := s.next;
    CursorReadIn(blocks, k, 0, n);
    assert p == Offset(blocks, k);
    if Starved(s) {
      StarvedFill(blocks, s);
    } else if WindowFits(s) {
      FillAndPop(blocks, s, Min(|blocks[k]|, n));
    }
  }

  lemma StarvedFill(blocks: seq<Bytes>, s: State)
    requires Starved(s)
    ensures Fill(blocks, s) == s
  {
  }

  /** A pending seek into a block that is cached, or to the very end, leaves the reader at its target. */
  lemma PendingSettles(blocks: seq<Bytes>, s: State, t: nat)
    requires Refines(blocks, s, t) && s.pending == Some(t)
    requires RefillState(blocks, s).None?
    ensures var (s', error) := RunPending(blocks, s);
            error.None? && Refines(blocks, s', t) && s'.pending.None? && RefillState(blocks, s').None?
  {
    if Cached(s.cache, Locate(blocks, t)) {
      SettlesCached(blocks, s, t);
    } else {
      SettlesAtEnd(blocks, s, t);
    }
  }

  lemma SettlesCached(blocks: seq<Bytes>, s: State, t: nat)
    requires Refines(blocks, s, t) && s.pending == Some(t) && Cached(s.cache, Locate(blocks, t))
    ensures var (s', error) := RunPending(blocks, s);
            error.None? && Refines(blocks, s', t) && s'.pending.None? && RefillState(blocks, s').None?
  {
    hide Flat, Fill, Lru.Get, Lookup, Sound, Locate;
    LocateBounds(blocks, t);
    var b := Locate(blocks, t);
    SoundLookup(blocks, s.cache, b);
    SoundGet(blocks, s.cache, b);
    FlatSplit(blocks, b);
  }

  lemma SettlesAtEnd(blocks: seq<Bytes>, s: State, t: nat)
    requires Refines(blocks, s, t) && s.pending == Some(t) && !Cached(s.cache, Locate(blocks, t)) && RefillState(blocks, s).None?
    ensures var (s', error) := RunPending(blocks, s);
            error.None? && Refines(blocks, s', t) && s'.pending.None? && RefillState(blocks, s').None?
  {
    hide Flat, Fill, Cached, Sound, Locate;
    LocateBounds(blocks, t);
    FillAtEnd(blocks, Landing(blocks, s, t));
    FlatAll(blocks);
  }

  lemma FillAtEnd(blocks: seq<Bytes>, s: State)
    requires s.queue == [] && s.next >= |blocks|
    ensures Fill(blocks, s) == s || Fill(blocks, s) == s.(eof := true)
  {
  }

  /** `read` from any state standing at p. Unless the memory limit starves the refill or its window
      reaches 2^64, the bytes are the cursor's. The reader then stands at the advanced position exactly when the refill it made,
      if any, was of a window wholly cached or with an uncached last block. */
  lemma ReadExact(blocks: seq<Bytes>, s: State, p: nat, n: nat)
    requires NonEmpty(blocks) && Refines(blocks, s, p) && n >= 1
    ensures var (s', r) := Read(blocks, s, n); var want := CursorRead(blocks, p, n);
            && (ReadStarved(blocks, s) ==> r == Ok([]) && want != [])
            && (ReadPanics(blocks, s) ==> r == Err(Panic))
            && (!ReadStarved(blocks, s) && !ReadPanics(blocks, s) ==> r == Ok(want))
            && (r == Ok(want) && Refines(blocks, s', p + |want|) <==> ReadOk(blocks, s))
  {
    if s.pending.None? {
      hide Serve, Refines, ReadOk, ReadStarved, CursorRead;
      ServeExact(blocks, s, p, n);
    } else if RefillState(blocks, s).None? {
      ReadSettled(blocks, s, p, n);
    } else {
      ReadSeekMiss(blocks, s, p, n);
    }
  }

  lemma ReadSettled(blocks: seq<Bytes>, s: State, p: nat, n: nat)
    requires NonEmpty(blocks) && Refines(blocks, s, p) && n >= 1 && s.pending == Some(p) && RefillState(blocks, s).None?
    ensures var (s', r) := Read(blocks, s, n); var want := CursorRead(blocks, p, n);
            r == Ok(want) && Refines(blocks, s', p + |want|) && ReadOk(blocks, s)
  {
    hide Serve, Refines, CursorRead, RunPending, RefillState;
    PendingSettles(blocks, s, p);
    var (s1, error) := RunPending(blocks, s);
    ServeExact(blocks, s1, p, n);
  }

  /** The first half of such a read: the seek itself. */
  lemma SeekMiss(blocks: seq<Bytes>, s: State, p: nat)
    requires Refines(blocks, s, p) && s.pending == Some(p) && RefillState(blocks, s).Some?
    ensures var b := Locate(blocks, p); var landing := Landing(blocks, s, p);
            && b < |blocks| && Offset(blocks, b) <= p < Offset(blocks, b) + |blocks[b]|
            && RefillState(blocks, s) == Some(landing)
            && Sound(blocks, landing.cache) && landing.ahead >= 1 && landing.queue == [] && landing.next == b
            && landing.pending.None? && !landing.eof && landing.current == []
            && RunPending(blocks, s) == if Overflows(blocks, landing) then (landing, Some(Panic))
                                        else (Pop(Fill(blocks, landing), p - Offset(blocks, b)), None)
  {
    hide Sound, Flat, Fill, Locate;
    LocateBounds(blocks, p);
    FlatSplit(blocks, Locate(blocks, p));
  }

  lemma ReadPanicked(blocks: seq<Bytes>, s: State, s1: State, n: nat)
    requires n >= 1 && RunPending(blocks, s) == (s1, Some(Panic))
    ensures Read(blocks, s, n) == (s1, Err(Panic))
  {
    hide RunPending, Serve;
  }

  lemma ReadAfter(blocks: seq<Bytes>, s: State, s1: State, n: nat)
    requires n >= 1 && RunPending(blocks, s) == (s1, None)
    ensures Read(blocks, s, n) == Serve(blocks, s1, n)
  {
    hide RunPending, Serve;
  }

  /** A read after a seek into an uncached block: refill, take the block, read from inside it. */
  lemma ReadSeekMiss(blocks: seq<Bytes>, s: State, p: nat, n: nat)
    requires NonEmpty(blocks) && Refines(blocks, s, p) && n >= 1 && s.pending == Some(p) && RefillState(blocks, s).Some?
    ensures var (s', r) := Read(blocks, s, n); var want := CursorRead(blocks, p, n);
            && (ReadStarved(blocks, s) ==> r == Ok([]) && want != [])
            && (ReadPanics(blocks, s) ==> r == Err(Panic))
            && (!ReadStarved(blocks, s) && !ReadPanics(blocks, s) ==> r == Ok(want))
            && (r == Ok(want) && Refines(blocks, s', p + |want|) <==> ReadOk(blocks, s))
  {
    hide Sound, CursorRead, Flat, WindowOk, Fill, Offset, Refines, RefillState, Landing, RunPending, Read, Starved;
    SeekMiss(blocks, s, p);
    var b := Locate(blocks, p);
    var landing := Landing(blocks, s, p);
    var skip := p - Offset(blocks, b);
    var s1 := Pop(Fill(blocks, landing), skip);
    CursorReadIn(blocks, b, skip, n);
    if Starved(landing) {
      ReadAfter(blocks, s, s1, n);
      StarvedFill(blocks, landing);
    } else if !WindowFits(landing) {
      ReadPanicked(blocks, s, landing, n);
    } else {
      ReadAfter(blocks, s, s1, n);
      FillAndPop(blocks, landing, skip);
      hide Pop;
      ServeInBlock(blocks, s1, b, n);
    }
  }
}
