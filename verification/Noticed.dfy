/** A call that is not admissible is always noticed: some further reads reply differently from the
    cursor. The reader is followed with its true place and the end of what it has queued, which it
    keeps through reads even when `next_block_index` has fallen behind. */
module Noticed {
  import opened Prelude
  import opened ReaderMachine
  import opened Cursor
  import opened CursorRuns

  /** The reader will next deliver byte q, and has queued the blocks up to h; `next` may be behind h. */
  ghost predicate Stands(blocks: seq<Bytes>, s: State, q: int, h: nat) {
    && Sound(blocks, s.cache) && s.ahead >= 1 && s.pending.None?
    && |s.queue| <= h <= |blocks| && s.queue == blocks[h - |s.queue|..h] && s.next <= h
    && s.pos <= |s.current|
    && (s.current != [] ==> |s.queue| < h && s.current == blocks[h - |s.queue| - 1])
    && (s.eof ==> s.queue == [] && s.pos == |s.current| && s.next == |blocks|)
    && q == Offset(blocks, h - |s.queue|) - (|s.current| - s.pos)
  }

  /** Behind the cursor at p, or bound to fall behind at the next refill. */
  ghost predicate Lags(blocks: seq<Bytes>, s: State, q: int, h: nat, p: nat) {
    Stands(blocks, s, q, h) && 0 <= q <= p && (q < p || s.next < h)
  }

  lemma RefinesStands(blocks: seq<Bytes>, s: State, p: nat)
    requires Refines(blocks, s, p) && s.pending.None?
    ensures Stands(blocks, s, p, s.next)
  {
    hide Flat, Sound, Offset;
  }

  /** The place in the data of a reader that still has bytes queued or in its block. */
  lemma StandsInside(blocks: seq<Bytes>, s: State, q: int, h: nat)
    requires NonEmpty(blocks) && Stands(blocks, s, q, h)
    ensures h <= |blocks| && 0 <= q <= Offset(blocks, h) <= |Flat(blocks)|
    ensures q == Offset(blocks, h) <==> s.queue == [] && s.pos == |s.current|
  {
    hide Flat, Sound;
    var k := h - |s.queue|;
    FlatAt(blocks, h);
    OffsetMonotone(blocks, k, h);
    if s.current != [] { FlatSplit(blocks, k - 1); }
  }

  lemma NoPendingRead(blocks: seq<Bytes>, s: State, n: nat)
    requires s.pending.None? && n > 0
    ensures Read(blocks, s, n) == Serve(blocks, s, n)
  {
    hide Serve;
  }

  /** A read while something is left in the block or the queue: the true bytes, and `next` stays. */
  lemma ReadQueued(blocks: seq<Bytes>, s: State, q: int, h: nat, n: nat)
    requires NonEmpty(blocks) && Stands(blocks, s, q, h) && n >= 1 && q < Offset(blocks, h)
    ensures var (s', r) := Read(blocks, s, n); var want := CursorRead(blocks, Max(q, 0), n);
            && 0 <= q && r == Ok(want) && want != [] && q + |want| <= Offset(blocks, h)
            && Stands(blocks, s', q + |want|, h) && s'.next == s.next
  {
    hide Flat, Sound, CursorRead, Offset, Serve;
    StandsInside(blocks, s, q, h);
    NoPendingRead(blocks, s, n);
    if s.pos < |s.current| {
      ReadInside(blocks, s, q, h, n);
    } else {
      ReadPopped(blocks, s, q, h, n);
    }
    var (s', out) := Serve(blocks, s, n);
    StandsInside(blocks, s', q + |out.value|, h);
  }

  lemma ReadInside(blocks: seq<Bytes>, s: State, q: int, h: nat, n: nat)
    requires NonEmpty(blocks) && Stands(blocks, s, q, h) && n >= 1 && s.pos < |s.current|
    ensures var (s', out) := Serve(blocks, s, n);
            out == Ok(CursorRead(blocks, Max(q, 0), n)) && out.value != [] &&
            Stands(blocks, s', q + |out.value|, h) && s'.next == s.next
  {
    hide Flat, Sound, CursorRead, Offset, Serve;
    var k := h - |s.queue| - 1;
    BlockEnds(blocks, k);
    ServeInBlock(blocks, s, k, n);
  }

  lemma ReadPopped(blocks: seq<Bytes>, s: State, q: int, h: nat, n: nat)
    requires NonEmpty(blocks) && Stands(blocks, s, q, h) && n >= 1 && s.pos == |s.current| && s.queue != []
    ensures var (s', out) := Serve(blocks, s, n);
            out == Ok(CursorRead(blocks, Max(q, 0), n)) && out.value != [] &&
            Stands(blocks, s', q + |out.value|, h) && s'.next == s.next
  {
    hide Flat, Sound, CursorRead, Offset, Fill;
    var k := h - |s.queue|;
    assert s.queue[0] == blocks[k];
    BlockEnds(blocks, k);
    CursorReadIn(blocks, k, 0, n);
    assert s.queue[1..] == blocks[k + 1..h];
  }

  lemma BlockEnds(blocks: seq<Bytes>, k: nat)
    requires k < |blocks|
    ensures Offset(blocks, k + 1) == Offset(blocks, k) + |blocks[k]|
  {
    hide Flat;
    FlatSplit(blocks, k);
  }

  /** A read with nothing left: a refill from `next`. */
  lemma ReadRefill(blocks: seq<Bytes>, s: State, h: nat, n: nat) returns (h': nat)
    requires NonEmpty(blocks) && h <= |blocks| && Stands(blocks, s, Offset(blocks, h), h) && n >= 1 && s.next < |blocks|
    requires !Starved(s) && WindowFits(s)
    ensures var (s', r) := Read(blocks, s, n); var want := CursorRead(blocks, Offset(blocks, s.next), n);
            && r == Ok(want) && want != [] && Stands(blocks, s', Offset(blocks, s.next) + |want|, h')
            && (s'.next < h' <==> !WindowOk(blocks, s))
  {
    hide Flat, Sound, CursorRead, Offset, Fill, Cached, Starved, WindowFits;
    StandsInside(blocks, s, Offset(blocks, h), h);
    NoPendingRead(blocks, s, n);
    var k := s.next;
    h' := WindowEnd(blocks, s);
    FillTransparent(blocks, s);
    assert Fill(blocks, s).queue[0] == blocks[k];
    assert blocks[k..h'][1..] == blocks[k + 1..h'];
    BlockEnds(blocks, k);
    CursorReadIn(blocks, k, 0, n);
  }

  /** The refill that does not take place: starved, it ends the file; too wide, it panics. */
  lemma ReadNoRefill(blocks: seq<Bytes>, s: State, h: nat, n: nat)
    requires NonEmpty(blocks) && h <= |blocks| && Stands(blocks, s, Offset(blocks, h), h) && n >= 1 && s.next < |blocks|
    ensures Starved(s) ==> Read(blocks, s, n).1 == Ok([]) && Starved(Read(blocks, s, n).0)
    ensures !Starved(s) && !WindowFits(s) ==> Read(blocks, s, n).1 == Err(Panic)
  {
    hide Flat, Sound, Offset, Fill, WindowFits;
    StandsInside(blocks, s, Offset(blocks, h), h);
    NoPendingRead(blocks, s, n);
    if Starved(s) { StarvedFill(blocks, s); }
  }

  function Ones(m: nat): (ops: seq<Op>)
    ensures |ops| == m
  {
    seq(m, _ => OpRead(1))
  }

  lemma RunReads(blocks: seq<Bytes>, s: State, p: nat, n: nat, ops: seq<Op>)
    ensures Run(blocks, s, [OpRead(n)] + ops).1 == [Data(Read(blocks, s, n).1)] + Run(blocks, Read(blocks, s, n).0, ops).1
    ensures Run(blocks, s, [OpRead(n)] + ops).0 == Run(blocks, Read(blocks, s, n).0, ops).0
    ensures var want := CursorRead(blocks, p, n);
            CursorRun(blocks, p, [OpRead(n)] + ops).1 == [Data(Ok(want))] + CursorRun(blocks, p + |want|, ops).1
  {
    hide Read, CursorRead;
    assert ([OpRead(n)] + ops)[1..] == ops;
  }

  lemma ConsDiffer(a: Reply, x: seq<Reply>, b: Reply, y: seq<Reply>)
    ensures a != b || x != y ==> [a] + x != [b] + y
  {
    if [a] + x == [b] + y {
      assert ([a] + x)[0] == a && ([b] + y)[0] == b;
      assert ([a] + x)[1..] == x && ([b] + y)[1..] == y;
    }
  }

  /** A reader that lags replies differently within the reads, one byte each, that take the cursor to
      the end of the data and one further; unless by then its memory limit starves it. */
  lemma {:induction false} LagIsNoticed(blocks: seq<Bytes>, s: State, q: int, h: nat, p: nat)
    requires NonEmpty(blocks) && Lags(blocks, s, q, h, p) && p <= |Flat(blocks)|
    ensures var more := Ones(|Flat(blocks)| - p + 1);
            Run(blocks, s, more).1 != CursorRun(blocks, p, more).1 || Starved(Run(blocks, s, more).0)
    decreases |Flat(blocks)| - p
  {
    hide Stands, Read, CursorRead, Run, CursorRun, Flat, Offset, Starved;
    var m := |Flat(blocks)| - p;
    assert Ones(m + 1) == [OpRead(1)] + Ones(m);
    RunReads(blocks, s, p, 1, Ones(m));
    var q', h' := LagStep(blocks, s, q, h, p);
    CursorReadBounds(blocks, p, 1);
    var (s', r) := Read(blocks, s, 1);
    var want := CursorRead(blocks, p, 1);
    ConsDiffer(Data(r), Run(blocks, s', Ones(m)).1, Data(Ok(want)), CursorRun(blocks, p + |want|, Ones(m)).1);
    if m == 0 {
      CursorReadEnd(blocks, 1);
      assert Ones(0) == [];
      RunNone(blocks, s');
    } else if r == Ok(want) {
      LagIsNoticed(blocks, s', q', h', p + 1);
    }
  }

  lemma RunNone(blocks: seq<Bytes>, s: State)
    ensures Run(blocks, s, []) == (s, [])
  {
  }

  /** Such a reader delivers a byte and lags on, or panics, or is starved. */
  lemma LagStep(blocks: seq<Bytes>, s: State, q: int, h: nat, p: nat) returns (q': int, h': nat)
    requires NonEmpty(blocks) && Lags(blocks, s, q, h, p) && p <= |Flat(blocks)|
    ensures var (s', r) := Read(blocks, s, 1);
            || r == Err(Panic)
            || (r == Ok([]) && Starved(s'))
            || (r.Ok? && r.value != [] && Lags(blocks, s', q', h', p + 1))
  {
    hide Read, CursorRead, Flat, Offset, Starved, WindowFits;
    StandsInside(blocks, s, q, h);
    q', h' := q + 1, h;
    if q < Offset(blocks, h) {
      ReadQueued(blocks, s, q, h, 1);
      CursorReadBounds(blocks, q, 1);
    } else {
      NextBelow(blocks, s.next, h);
      FlatAll(blocks);
      ReadNoRefill(blocks, s, h, 1);
      if !Starved(s) && WindowFits(s) {
        h' := ReadRefill(blocks, s, h, 1);
        CursorReadBounds(blocks, Offset(blocks, s.next), 1);
        q' := Offset(blocks, s.next) + 1;
      }
    }
  }

  lemma NextBelow(blocks: seq<Bytes>, next: nat, h: nat)
    requires NonEmpty(blocks) && next <= h <= |blocks|
    ensures Offset(blocks, next) <= Offset(blocks, h) <= |Flat(blocks)|
    ensures next < h ==> Offset(blocks, next) < Offset(blocks, h)
    ensures Offset(blocks, h) < |Flat(blocks)| ==> next < |blocks|
  {
    hide Flat;
    OffsetMonotone(blocks, next, h);
    FlatAt(blocks, h);
    FlatAll(blocks);
  }

  // --- Each way of not being admissible ---

  /** The refill was out of order: the bytes of this read are right, and the reader will fall behind. */
  lemma BadReadLags(blocks: seq<Bytes>, s: State, p: nat, n: nat) returns (h: nat)
    requires NonEmpty(blocks) && Refines(blocks, s, p) && n >= 1
    requires !ReadOk(blocks, s) && !ReadStarved(blocks, s) && !ReadPanics(blocks, s)
    ensures var (s', r) := Read(blocks, s, n); var want := CursorRead(blocks, p, n);
            h <= |blocks| && r == Ok(want) && Stands(blocks, s', p + |want|, h) && s'.next < h
  {
    hide Flat, Sound, CursorRead, Offset, Fill, Cached, Locate, WindowOk, Read, Serve, Starved, WindowFits;
    if s.pending.None? {
      assert RefillState(blocks, s) == Some(s);
      RefinesStands(blocks, s, p);
      h := ReadRefill(blocks, s, s.next, n);
    } else {
      SeekMiss(blocks, s, p);
      h := SeekMissStands(blocks, s, p, n);
    }
  }

  lemma SeekMissStands(blocks: seq<Bytes>, s: State, p: nat, n: nat) returns (h: nat)
    requires NonEmpty(blocks) && Refines(blocks, s, p) && n >= 1 && s.pending == Some(p)
    requires RefillState(blocks, s).Some? && !WindowOk(blocks, Landing(blocks, s, p))
    requires !Starved(Landing(blocks, s, p)) && WindowFits(Landing(blocks, s, p))
    ensures var (s', r) := Read(blocks, s, n); var want := CursorRead(blocks, p, n);
            r == Ok(want) && Stands(blocks, s', p + |want|, h) && s'.next < h
  {
    hide Flat, Sound, CursorRead, Offset, Fill, Cached, Locate, Refines, RefillState, Landing, RunPending, Read, Starved, WindowFits;
    SeekMiss(blocks, s, p);
    var b, landing := Locate(blocks, p), Landing(blocks, s, p);
    h := WindowEnd(blocks, landing);
    FillTransparent(blocks, landing);
    var s1 := Pop(Fill(blocks, landing), p - Offset(blocks, b));
    ReadAfter(blocks, s, s1, n);
    assert blocks[b..h][1..] == blocks[b + 1..h];
    BlockEnds(blocks, b);
    CursorReadIn(blocks, b, p - Offset(blocks, b), n);
    ServeInBlock(blocks, s1, b, n);
  }

  /** A target beyond the end: the cursor reads nothing there, the reader fails. */
  lemma BeyondIsNoticed(blocks: seq<Bytes>, s: State, t: nat)
    requires t > |Flat(blocks)|
    ensures Run(blocks, SeekTo(s, t), [OpRead(1)]).1 != CursorRun(blocks, t, [OpRead(1)]).1
  {
    hide Flat, Read, CursorRead, Run, CursorRun;
    FailedSeekStep(blocks, s, t, 1);
    assert [OpRead(1)] == [OpRead(1)] + [];
    RunReads(blocks, SeekTo(s, t), t, 1, []);
    var (s', r) := Read(blocks, SeekTo(s, t), 1);
    var want := CursorRead(blocks, t, 1);
    ConsDiffer(Data(r), Run(blocks, s', []).1, Data(Ok(want)), CursorRun(blocks, t + |want|, []).1);
  }

  lemma RunCons(blocks: seq<Bytes>, s: State, p: nat, op: Op, ops: seq<Op>)
    ensures Run(blocks, s, [op] + ops).1 == [Step(blocks, s, op).1] + Run(blocks, Step(blocks, s, op).0, ops).1
    ensures Run(blocks, s, [op] + ops).0 == Run(blocks, Step(blocks, s, op).0, ops).0
    ensures CursorRun(blocks, p, [op] + ops).1 ==
            [CursorStep(blocks, p, op).1] + CursorRun(blocks, Max(CursorStep(blocks, p, op).0, 0), ops).1
  {
    hide Step, CursorStep;
    assert ([op] + ops)[1..] == ops;
  }

  /** A difference in the first reply or later is a difference. */
  lemma RunDiffer(blocks: seq<Bytes>, s: State, p: nat, op: Op, ops: seq<Op>)
    ensures var (s', r) := Step(blocks, s, op); var (p', want) := CursorStep(blocks, p, op);
            r != want || Run(blocks, s', ops).1 != CursorRun(blocks, Max(p', 0), ops).1 ==>
              Run(blocks, s, [op] + ops).1 != CursorRun(blocks, p, [op] + ops).1
    ensures Run(blocks, s, [op] + ops).0 == Run(blocks, Step(blocks, s, op).0, ops).0
  {
    hide Step, CursorStep, Run, CursorRun;
    RunCons(blocks, s, p, op, ops);
    var (s', r) := Step(blocks, s, op);
    var (p', want) := CursorStep(blocks, p, op);
    ConsDiffer(r, Run(blocks, s', ops).1, want, CursorRun(blocks, Max(p', 0), ops).1);
  }

  /** After a call that is not admissible, there are reads of one byte each after which the replies are
      not those of the cursor, or the reader has run into its memory limit. So, without a limit,
      `Admissible` shuts out nothing harmless. */
  lemma InadmissibleIsNoticed(blocks: seq<Bytes>, s: State, p: nat, op: Op) returns (more: seq<Op>)
    requires NonEmpty(blocks) && Refines(blocks, s, p) && |Flat(blocks)| < 0x8000_0000_0000_0000
    requires !Admissible(blocks, s, p, op)
    ensures forall i :: 0 <= i < |more| ==> more[i] == OpRead(1)
    ensures Run(blocks, s, [op] + more).1 != CursorRun(blocks, p, [op] + more).1 || Starved(Run(blocks, s, [op] + more).0)
  {
    hide *;
    more := StepIsNoticed(blocks, s, p, op);
    RunDiffer(blocks, s, p, op, more);
  }

  lemma StepIsNoticed(blocks: seq<Bytes>, s: State, p: nat, op: Op) returns (more: seq<Op>)
    requires NonEmpty(blocks) && Refines(blocks, s, p) && |Flat(blocks)| < 0x8000_0000_0000_0000
    requires !Admissible(blocks, s, p, op)
    ensures forall i :: 0 <= i < |more| ==> more[i] == OpRead(1)
    ensures var (s', r) := Step(blocks, s, op); var (p', want) := CursorStep(blocks, p, op);
            r != want || Run(blocks, s', more).1 != CursorRun(blocks, Max(p', 0), more).1 || Starved(Run(blocks, s', more).0)
  {
    hide Refines, Flat, Read, CursorRead, Run, CursorRun, ReadOk, InFirstBlock, Resolve;
    match op
    case OpRead(n) =>
      more := BadReadIsNoticed(blocks, s, p, n);
    case OpSeekToByte(t) =>
      more := [OpRead(1)];
      BeyondIsNoticed(blocks, s, t);
    case OpSeekStart(t) =>
      more := [OpRead(1)];
      BeyondIsNoticed(blocks, s, t);
    case OpSeekEnd(d) =>
      more := [OpRead(1)];
      SeekEndIsNoticed(blocks, s, p, d);
    case OpSeekCurrent(d) =>
      more := [OpRead(1)];
      SeekCurrentIsNoticed(blocks, s, p, d);
    case OpSeekToBlock(i) =>
      more := SeekToBlockIsNoticed(blocks, s, p, i);
    case OpReadBlocks(_, _) =>
      more := []; // the panic itself
  }

  lemma BadReadIsNoticed(blocks: seq<Bytes>, s: State, p: nat, n: nat) returns (more: seq<Op>)
    requires NonEmpty(blocks) && Refines(blocks, s, p) && n >= 1 && !ReadOk(blocks, s)
    ensures forall i :: 0 <= i < |more| ==> more[i] == OpRead(1)
    ensures var (s', r) := Read(blocks, s, n); var want := CursorRead(blocks, p, n);
            r != Ok(want) || Run(blocks, s', more).1 != CursorRun(blocks, p + |want|, more).1 || Starved(Run(blocks, s', more).0)
  {
    hide Refines, Flat, Read, CursorRead, Run, CursorRun, ReadOk, ReadStarved, ReadPanics, Stands, Starved;
    more := [];
    ReadExact(blocks, s, p, n);
    if !ReadStarved(blocks, s) && !ReadPanics(blocks, s) {
      var h := BadReadLags(blocks, s, p, n);
      WithinData(blocks, s, p);
      CursorReadBounds(blocks, p, n);
      var p' := p + |CursorRead(blocks, p, n)|;
      more := Ones(|Flat(blocks)| - p' + 1);
      LagIsNoticed(blocks, Read(blocks, s, n).0, p', h, p');
    }
  }

  lemma SeekEndIsNoticed(blocks: seq<Bytes>, s: State, p: nat, d: i64)
    requires |Flat(blocks)| < 0x8000_0000_0000_0000 && !(-|Flat(blocks)| <= d <= 0)
    ensures var (s', r) := Step(blocks, s, OpSeekEnd(d)); var (p', want) := CursorStep(blocks, p, OpSeekEnd(d));
            r != want || Run(blocks, s', [OpRead(1)]).1 != CursorRun(blocks, Max(p', 0), [OpRead(1)]).1
  {
    hide Flat, Step, CursorStep, AsU64, SeekTo, Run, CursorRun;
    SeekSteps(blocks, s, p, d);
    WrapAround(|Flat(blocks)| + d);
    if d > 0 { BeyondIsNoticed(blocks, s, |Flat(blocks)| + d); }
  }

  lemma SeekCurrentIsNoticed(blocks: seq<Bytes>, s: State, p: nat, d: i64)
    requires NonEmpty(blocks) && Refines(blocks, s, p) && |Flat(blocks)| < 0x8000_0000_0000_0000
    requires !(InFirstBlock(s, p) && 0 <= p + d <= |Flat(blocks)|)
    ensures var (s', r) := Step(blocks, s, OpSeekCurrent(d)); var (p', want) := CursorStep(blocks, p, OpSeekCurrent(d));
            r != want || Run(blocks, s', [OpRead(1)]).1 != CursorRun(blocks, Max(p', 0), [OpRead(1)]).1
  {
    hide Flat, Step, CursorStep, AsU64, SeekTo, Run, CursorRun, Refines, InFirstBlock;
    PosBelow(blocks, s, p);
    PosIsAbsolute(blocks, s, p);
    WithinData(blocks, s, p);
    SeekSteps(blocks, s, p, d);
    WrapAround(s.pos + d);
    if s.pos == p && p + d >= 0 { BeyondIsNoticed(blocks, s, p + d); }
  }

  lemma SeekToBlockIsNoticed(blocks: seq<Bytes>, s: State, p: nat, i: i64) returns (more: seq<Op>)
    requires NonEmpty(blocks) && Refines(blocks, s, p)
    requires Resolve(blocks, i).Some? && Resolve(blocks, i) != Some(0)
    ensures forall i :: 0 <= i < |more| ==> more[i] == OpRead(1)
    ensures Run(blocks, SeekToBlock(s), more).1 != CursorRun(blocks, Offset(blocks, Resolve(blocks, i).value), more).1
            || Starved(Run(blocks, SeekToBlock(s), more).0)
  {
    hide Refines, Flat, Run, CursorRun, Offset;
    var b := Resolve(blocks, i).value;
    var p' := Offset(blocks, b);
    RefinesParts(blocks, s, p);
    NextBelow(blocks, 0, b);
    FlatAll(blocks);
    assert blocks[0..0] == [];
    assert Stands(blocks, SeekToBlock(s), 0, 0);
    more := Ones(|Flat(blocks)| - p' + 1);
    LagIsNoticed(blocks, SeekToBlock(s), 0, 0, p');
  }

  // --- Whole runs ---

  lemma AdmissibleStays(blocks: seq<Bytes>, s: State, p: nat, op: Op)
    requires Refines(blocks, s, p) && Admissible(blocks, s, p, op)
    ensures CursorStep(blocks, p, op).0 >= 0
  {
    hide Flat, CursorRead, ReadOk, Refines;
  }

  /** A run that is not admissible throughout has a call after which some reads reply differently from
      the cursor, or run into the memory limit: without a limit, a run can be told from the cursor
      unless every call in it was admissible. */
  lemma {:induction false} RunIsNoticed(blocks: seq<Bytes>, s: State, p: nat, ops: seq<Op>) returns (k: nat, more: seq<Op>)
    requires NonEmpty(blocks) && Refines(blocks, s, p) && |Flat(blocks)| < 0x8000_0000_0000_0000
    requires !AllAdmissible(blocks, s, p, ops)
    ensures k < |ops| && forall i :: 0 <= i < |more| ==> more[i] == OpRead(1)
    ensures Run(blocks, s, ops[..k + 1] + more).1 != CursorRun(blocks, p, ops[..k + 1] + more).1
            || Starved(Run(blocks, s, ops[..k + 1] + more).0)
    decreases |ops|
  {
    hide Refines, Flat, Admissible, Step, CursorStep, Run, CursorRun;
    var op := ops[0];
    if Admissible(blocks, s, p, op) {
      AdmissibleStays(blocks, s, p, op);
      StepExact(blocks, s, p, op);
      k, more := RunIsNoticed(blocks, Step(blocks, s, op).0, CursorStep(blocks, p, op).0, ops[1..]);
      assert ops[..k + 2] + more == [op] + (ops[1..][..k + 1] + more);
      RunDiffer(blocks, s, p, op, ops[1..][..k + 1] + more);
      k := k + 1;
    } else {
      k := 0;
      more := InadmissibleIsNoticed(blocks, s, p, op);
      assert ops[..1] + more == [op] + more;
    }
  }

  // --- The cached tail ---

  /** Reads of one byte each empty the queue and deliver just what was queued; `next` stays. */
  lemma {:induction false} Drains(blocks: seq<Bytes>, s: State, q: nat, h: nat)
    requires NonEmpty(blocks) && h <= |blocks| && Stands(blocks, s, q, h)
    ensures q <= Offset(blocks, h) <= |Flat(blocks)|
    ensures var (t, replies) := Run(blocks, s, Ones(Offset(blocks, h) - q));
            && Gathered(replies) == Flat(blocks)[q..Offset(blocks, h)]
            && Stands(blocks, t, Offset(blocks, h), h) && t.next == s.next
    decreases Offset(blocks, h) - q
  {
    hide Stands, Read, CursorRead, Flat, Offset, Gathered, Gathering;
    StandsInside(blocks, s, q, h);
    var m := Offset(blocks, h) - q;
    if m == 0 {
      assert Flat(blocks)[q..q] == [];
      GatherNone();
    } else {
      ReadQueued(blocks, s, q, h, 1);
      CursorReadBounds(blocks, q, 1);
      var (s1, r) := Read(blocks, s, 1);
      assert Ones(m)[1..] == Ones(m - 1);
      Drains(blocks, s1, q + 1, h);
      GatherOne(Data(r), Run(blocks, s1, Ones(m - 1)).1);
      GatherData(r.value);
      Adjacent(Flat(blocks), q, q + 1, Offset(blocks, h));
    }
  }

  lemma GatherNone()
    ensures Gathered([]) == []
  {
  }

  lemma GatherData(d: Bytes)
    ensures Gathering(Data(Ok(d))) == d
  {
  }

  /** After a read whose refill was out of order, further reads deliver the rest of the window, up to
      byte e, correctly; the read after them does not go on from e but from an earlier byte q, the
      start of a block delivered already: the cached tail of the window comes a second time, if the
      memory limit and the width of the window let it come at all. */
  lemma TailComesAgain(blocks: seq<Bytes>, s: State, p: nat, n: nat) returns (m: nat, e: nat, q: nat)
    requires NonEmpty(blocks) && Refines(blocks, s, p) && n >= 1
    requires !ReadOk(blocks, s) && !ReadStarved(blocks, s) && !ReadPanics(blocks, s)
    ensures p < e <= |Flat(blocks)| && q < e
    ensures var (t, replies) := Run(blocks, s, [OpRead(n)] + Ones(m));
            && Gathered(replies) == Flat(blocks)[p..e]
            && (!Starved(t) && WindowFits(t) ==>
                  forall x :: x >= 1 ==> Read(blocks, t, x).1 == Ok(CursorRead(blocks, q, x)) && CursorRead(blocks, q, x) != [])
  {
    hide Refines, Flat, Read, CursorRead, ReadOk, Stands, Gathered, Gathering, Offset;
    var h := BadReadLags(blocks, s, p, n);
    WithinData(blocks, s, p);
    CursorReadBounds(blocks, p, n);
    var (s1, r) := Read(blocks, s, n);
    var p1 := p + |r.value|;
    Drains(blocks, s1, p1, h);
    m, e := Offset(blocks, h) - p1, Offset(blocks, h);
    BadReadMoves(blocks, s, p, n);
    assert ([OpRead(n)] + Ones(m))[1..] == Ones(m);
    GatherOne(Data(r), Run(blocks, s1, Ones(m)).1);
    GatherData(r.value);
    Adjacent(Flat(blocks), p, p1, e);
    var t := Run(blocks, s1, Ones(m)).0;
    StandsNext(blocks, t, h);
    NextBelow(blocks, t.next, h);
    q := Offset(blocks, t.next);
    forall x: nat | x >= 1 && !Starved(t) && WindowFits(t)
      ensures Read(blocks, t, x).1 == Ok(CursorRead(blocks, q, x)) && CursorRead(blocks, q, x) != []
    {
      var h' := ReadRefill(blocks, t, h, x);
    }
  }

  lemma StandsNext(blocks: seq<Bytes>, s: State, h: nat)
    requires h <= |blocks| && Stands(blocks, s, Offset(blocks, h), h)
    ensures s.next <= h <= |blocks|
  {
    hide Flat, Sound, Offset;
  }

  lemma BadReadMoves(blocks: seq<Bytes>, s: State, p: nat, n: nat)
    requires NonEmpty(blocks) && Refines(blocks, s, p) && n >= 1 && !ReadOk(blocks, s)
    ensures CursorRead(blocks, p, n) != []
  {
    hide Flat, Sound, CursorRead, Offset, Cached, Locate, WindowOk;
    WithinData(blocks, s, p);
    CursorReadBounds(blocks, p, n);
    if s.pending.None? {
      FlatAll(blocks);
      OffsetMonotone(blocks, s.next, |blocks|);
    } else {
      LocateBounds(blocks, p);
    }
  }
}
