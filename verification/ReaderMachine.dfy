/** The reader's control state over the true blocks of a file (src/reader.rs): what each call does
    to the current block, the readahead queue, the cache and `next_block_index`, with file access
    and decompression already accounted for. The class in Reader.dfy implements these steps. */
module ReaderMachine {
  import opened Prelude
  import opened Lru

  type i64 = x: int | -0x8000_0000_0000_0000 <= x < 0x8000_0000_0000_0000

  datatype State = State(
    current: Bytes, pos: nat, eof: bool, pending: Option<nat>,
    queue: seq<Bytes>, ahead: nat, limit: Option<nat>, next: nat, cache: Cache,
    /** False in the code. True is the correction that counts a cached tail: next := end. */
    tailCounted: bool)

  function Fresh(ahead: nat, limit: Option<nat>, cache: Cache): State {
    State([], 0, false, None, [], ahead, limit, 0, cache, false)
  }

  /** `total_memory_usage`. */
  function Usage(s: State): nat {
    Memory(s.cache.entries) + |Flat(s.queue)| + |s.current|
  }

  predicate Starved(s: State) {
    s.limit.Some? && Usage(s) >= s.limit.value
  }

  predicate Cached(c: Cache, k: nat) {
    Lookup(c.entries, k).Some?
  }

  /** `get` on every block of a window, in order. */
  function GetAll(c: Cache, lo: nat, hi: nat): Cache {
    if lo >= hi then c else Lru.Get(GetAll(c, lo, hi - 1), hi - 1)
  }

  /** The uncached blocks of a window, in order. */
  function Misses(c: Cache, lo: nat, hi: nat): seq<nat> {
    if lo >= hi then []
    else Misses(c, lo, hi - 1) + if Cached(c, hi - 1) then [] else [hi - 1]
  }

  function InsertAll(c: Cache, keys: seq<nat>, blocks: seq<Bytes>): Cache {
    if keys == [] then c
    else
      var n := |keys| - 1;
      var c' := InsertAll(c, keys[..n], blocks);
      if keys[n] < |blocks| then Lru.Insert(c', keys[n], blocks[keys[n]]) else c'
  }

  /** A window assembled from cache hits and freshly read blocks. */
  function Assemble(c: Cache, blocks: seq<Bytes>, lo: nat, hi: nat): seq<Bytes>
    requires lo <= hi <= |blocks|
  {
    seq(hi - lo, j requires 0 <= j < hi - lo =>
      if Cached(c, lo + j) then Lookup(c.entries, lo + j).value else blocks[lo + j])
  }

  /** End of the last uncached run, which becomes `next_block_index` (src/reader.rs:629). */
  function EndOfMisses(misses: seq<nat>, hi: nat): nat {
    if misses == [] then hi else misses[|misses| - 1] + 1
  }

  function WindowEnd(blocks: seq<Bytes>, s: State): nat {
    Min(|blocks|, s.next + s.ahead)
  }

  predicate WindowFits(s: State) {
    s.next + s.ahead < U64
  }

  /** `start + batch_limit` reaches 2^64 (src/reader.rs:519). With overflow checks the sum panics;
      without, the window has wrapped to an end before its start, and reserving room for it panics. */
  predicate Overflows(blocks: seq<Bytes>, s: State) {
    s.queue == [] && !Starved(s) && s.next < |blocks| && !WindowFits(s)
  }

  /** `fill_readahead`; a panic leaves the state as it was. */
  function Fill(blocks: seq<Bytes>, s: State): State {
    if s.queue != [] || Starved(s) || Overflows(blocks, s) then s
    else if s.next >= |blocks| then s.(eof := true)
    else
      var lo, hi := s.next, WindowEnd(blocks, s);
      var misses := Misses(s.cache, lo, hi);
      s.(queue := Assemble(s.cache, blocks, lo, hi),
         cache := InsertAll(GetAll(GetAll(s.cache, lo, hi), lo, hi), misses, blocks),
         next := if s.tailCounted then hi else EndOfMisses(misses, hi))
  }

  /** The block holding byte t; `|blocks|` at the very end. */
  function Locate(blocks: seq<Bytes>, t: nat): (b: nat)
    ensures b <= |blocks|
  {
    if blocks == [] || t < |blocks[0]| then 0 else 1 + Locate(blocks[1..], t - |blocks[0]|)
  }

  function Cleared(s: State): State {
    s.(current := [], pos := 0, queue := [])
  }

  /** The state in which a pending seek to byte t calls `fill_readahead`. */
  function Landing(blocks: seq<Bytes>, s: State, t: nat): State {
    Cleared(s).(pending := None, eof := false, next := Locate(blocks, t))
  }

  /** Takes the front of the queue as the current block, at `pos`. */
  function Pop(s: State, pos: nat): State {
    if s.queue == [] then s.(eof := true) else s.(current := s.queue[0], pos := pos, queue := s.queue[1..])
  }

  /** `execute_pending_seek`: the new state, and the error or panic if there is one. */
  function RunPending(blocks: seq<Bytes>, s: State): (State, Option<Error>) {
    if s.pending.None? then (s, None)
    else
      var t := s.pending.value;
      if t > |Flat(blocks)| then (s.(pending := None), Some(SeekBeyondEnd))
      else
        var b := Locate(blocks, t);
        var skip := Max(t - Offset(blocks, b), 0);
        var landing := Landing(blocks, s, t);
        if Cached(s.cache, b)
        then (landing.(current := Lookup(s.cache.entries, b).value, pos := skip, next := b + 1,
                       cache := Lru.Get(s.cache, b)), None)
        else if Overflows(blocks, landing) then (landing, Some(Panic))
        else (Pop(Fill(blocks, landing), skip), None)
  }

  /** The rest of `read`, once no seek is pending. */
  function Serve(blocks: seq<Bytes>, s: State, n: nat): (State, Result<Bytes>) {
    if s.pos < |s.current| then
      var take := Min(|s.current| - s.pos, n);
      (s.(pos := s.pos + take), Ok(s.current[s.pos..s.pos + take]))
    else if s.eof then (s, Ok([]))
    else if Overflows(blocks, s) then (s, Err(Panic))
    else
      var s1 := if s.queue == [] then Fill(blocks, s) else s;
      if s1.queue == [] then (s1.(eof := true), Ok([]))
      else
        var take := Min(|s1.queue[0]|, n);
        (Pop(s1, take), Ok(s1.queue[0][..take]))
  }

  /** `Read::read` into a buffer of n bytes. */
  function Read(blocks: seq<Bytes>, s: State, n: nat): (State, Result<Bytes>) {
    if n == 0 then (s, Ok([]))
    else
      var (s1, error) := RunPending(blocks, s);
      if error.Some? then (s1, Err(error.value)) else Serve(blocks, s1, n)
  }

  /** `seek_to_byte`, and `Seek::seek` once its target is computed. */
  function SeekTo(s: State, t: nat): State {
    Cleared(s).(pending := Some(t), next := 0)
  }

  /** `(x as i64) as u64`. */
  function AsU64(x: int): nat {
    x % U64
  }

  function Resolve(blocks: seq<Bytes>, i: int): Option<nat> {
    if 0 <= i < |blocks| then Some(i) else if -|blocks| <= i < 0 then Some(|blocks| + i) else None
  }

  function SeekToBlock(s: State): State {
    Cleared(s).(pending := None, eof := false, next := 0)
  }

  /** `read_blocks`. When `start_block + count` reaches 2^64 (src/reader.rs:234) the sum panics, or
      wraps to an end before the start, and reserving room for the range panics. */
  function ReadBlocks(blocks: seq<Bytes>, s: State, start: nat, count: nat): (State, Result<Bytes>) {
    if start >= |blocks| then (s, Err(SeekBeyondEnd))
    else if start + count >= U64 then (s, Err(Panic))
    else
      var end := Min(|blocks|, start + count);
      if end == start then (s, Ok([]))
      else (Cleared(s).(pending := None, eof := false, next := end), Ok(Flat(blocks[start..end])))
  }

  // --- All calls together ---

  datatype Op =
    | OpRead(n: nat)
    | OpSeekToByte(t: nat)
    | OpSeekStart(t: nat)
    | OpSeekEnd(d: i64)
    | OpSeekCurrent(d: i64)
    | OpSeekToBlock(i: i64)
    | OpReadBlocks(start: nat, count: nat)
    | OpSetReadahead(n: nat)
    | OpSetCache(n: nat)

  datatype Reply = Data(result: Result<Bytes>) | At(offset: nat) | Done(ok: bool)

  function Step(blocks: seq<Bytes>, s: State, op: Op): (State, Reply) {
    match op
    case OpRead(n) => var (s', r) := Read(blocks, s, n); (s', Data(r))
    case OpSeekToByte(t) => (SeekTo(s, t), Done(true))
    case OpSeekStart(t) => (SeekTo(s, t), At(t))
    case OpSeekEnd(d) => var t := AsU64(|Flat(blocks)| + d); (SeekTo(s, t), At(t))
    case OpSeekCurrent(d) => var t := AsU64(s.pos + d); (SeekTo(s, t), At(t))
    case OpSeekToBlock(i) => if Resolve(blocks, i).Some? then (SeekToBlock(s), Done(true)) else (s, Done(false))
    case OpReadBlocks(start, count) => var (s', r) := ReadBlocks(blocks, s, start, count); (s', Data(r))
    case OpSetReadahead(n) => (s.(ahead := Max(n, 1)), Done(true))
    case OpSetCache(n) => (s.(cache := NewCache(n)), Done(true))
  }

  /** A whole run: the final state and the reply to every call. */
  function Run(blocks: seq<Bytes>, s: State, ops: seq<Op>): (State, seq<Reply>)
    decreases |ops|
  {
    if ops == [] then (s, [])
    else
      var (s1, r) := Step(blocks, s, ops[0]);
      var (s2, rs) := Run(blocks, s1, ops[1..]);
      (s2, [r] + rs)
  }
}
