/** What a caller can tell from the calls made and the replies received: whether `SeekFrom::Current`
    (src/reader.rs:775-778) will go where the cursor goes. */
module CallHistory {
  import opened Prelude
  import opened Lru
  import opened ReaderMachine
  import opened Cursor
  import opened CursorRuns

  /** Whether bytes have come from a read since the last seek or range read, after one more call. */
  predicate Reading(before: bool, op: Op, reply: Reply) {
    match op
    case OpRead(_) => before || Gathering(reply) != []
    case OpReadBlocks(_, _) => before && Gathering(reply) == []
    case OpSeekToBlock(_) => before && reply != Done(true)
    case OpSetReadahead(_) => before
    case OpSetCache(_) => before
    case _ => false
  }

  predicate ReadingAfter(before: bool, ops: seq<Op>, replies: seq<Reply>)
    requires |ops| == |replies|
    decreases |ops|
  {
    if ops == [] then before else ReadingAfter(Reading(before, ops[0], replies[0]), ops[1..], replies[1..])
  }

  /** The reader has a current block, and is past its first byte, exactly while reading. */
  ghost predicate Tracks(s: State, reading: bool) {
    (s.current != [] <==> reading) && (reading ==> s.pos >= 1)
  }

  /** One read with no seek pending: bytes come from inside a block, an empty reply changes no place. */
  lemma ServeTracks(blocks: seq<Bytes>, s: State, n: nat)
    requires NonEmpty(blocks) && Sound(blocks, s.cache) && s.ahead >= 1 && n >= 1 && s.pos <= |s.current|
    requires forall i :: 0 <= i < |s.queue| ==> s.queue[i] != []
    ensures var (t, out) := Serve(blocks, s, n);
            && (Gathering(Data(out)) != [] ==> t.current != [] && t.pos >= 1)
            && (Gathering(Data(out)) == [] ==> t.current == s.current && t.pos == s.pos == |s.current|)
  {
    hide Sound, Fill, Starved, WindowFits;
    if s.pos >= |s.current| && !s.eof && s.queue == [] && !Overflows(blocks, s) {
      if Starved(s) {
        StarvedFill(blocks, s);
      } else if s.next >= |blocks| {
        FillAtEnd(blocks, s);
      } else {
        FillTransparent(blocks, s);
        assert Fill(blocks, s).queue[0] == blocks[s.next];
      }
    }
  }

  /** Carrying out a pending seek delivers nothing and leaves room to read on in the block found. */
  lemma PendingTracks(blocks: seq<Bytes>, s: State)
    requires NonEmpty(blocks) && Sound(blocks, s.cache) && s.ahead >= 1
    requires s.pending.Some? && s.pending.value <= |Flat(blocks)|
    ensures var t := RunPending(blocks, s).0;
            && Sound(blocks, t.cache) && t.ahead >= 1 && (t.current == [] ==> t.pos == 0)
            && (t.current != [] ==> t.pos < |t.current|)
            && (RunPending(blocks, s).1.Some? ==> t.current == [])
            && (forall i :: 0 <= i < |t.queue| ==> t.queue[i] != [])
  {
    hide Sound, Fill, Flat, Locate, Starved, Cached, Lookup, Lru.Get, Offset, WindowFits;
    var t := s.pending.value;
    var b := Locate(blocks, t);
    var landing := Landing(blocks, s, t);
    LocateInside(blocks, t);
    if Cached(s.cache, b) {
      SoundLookup(blocks, s.cache, b);
      SoundGet(blocks, s.cache, b);
    } else if Starved(landing) {
      StarvedFill(blocks, landing);
    } else if b >= |blocks| {
      FillAtEnd(blocks, landing);
    } else if WindowFits(landing) {
      FillTransparent(blocks, landing);
      assert Fill(blocks, landing).queue[0] == blocks[b];
    }
  }

  lemma Standing(blocks: seq<Bytes>, s: State, p: nat)
    requires NonEmpty(blocks) && Refines(blocks, s, p)
    ensures Sound(blocks, s.cache) && s.ahead >= 1 && s.pos <= |s.current|
    ensures forall i :: 0 <= i < |s.queue| ==> s.queue[i] != []
    ensures s.pending.Some? ==> s.current == [] && s.pending.value <= |Flat(blocks)|
  {
    hide Sound, Flat, Offset, NonEmpty;
    SliceNonEmpty(blocks, s.next - |s.queue|, s.next);
  }

  lemma SliceNonEmpty(blocks: seq<Bytes>, lo: nat, hi: nat)
    requires NonEmpty(blocks) && lo <= hi <= |blocks|
    ensures forall i :: 0 <= i < hi - lo ==> blocks[lo..hi][i] != []
  {
    forall i | 0 <= i < hi - lo
      ensures blocks[lo..hi][i] != []
    {
      assert |blocks[lo + i]| >= 1;
    }
  }

  lemma ReadTracks(blocks: seq<Bytes>, s: State, p: nat, n: nat, reading: bool)
    requires NonEmpty(blocks) && Refines(blocks, s, p) && Tracks(s, reading)
    ensures var (t, r) := Read(blocks, s, n); Tracks(t, Reading(reading, OpRead(n), Data(r)))
  {
    hide Sound, Serve, RunPending, Flat, Offset, Refines, NonEmpty;
    if n > 0 {
      Standing(blocks, s, p);
      if s.pending.None? {
        NoPending(blocks, s);
        ServeTracks(blocks, s, n);
      } else {
        PendingTracks(blocks, s);
        ServeTracks(blocks, RunPending(blocks, s).0, n);
      }
    }
  }

  lemma NoPending(blocks: seq<Bytes>, s: State)
    requires s.pending.None?
    ensures RunPending(blocks, s) == (s, None)
  {
  }

  lemma StepTracks(blocks: seq<Bytes>, s: State, p: nat, op: Op, reading: bool)
    requires NonEmpty(blocks) && Refines(blocks, s, p) && Tracks(s, reading)
    ensures var (t, r) := Step(blocks, s, op); Tracks(t, Reading(reading, op, r))
  {
    hide Refines, Read, Flat, Resolve;
    match op
    case OpRead(n) => ReadTracks(blocks, s, p, n, reading);
    case OpReadBlocks(start, count) =>
      if start < |blocks| && count > 0 { RangeNonEmpty(blocks, start, Min(|blocks|, start + count)); }
    case _ =>
  }

  lemma RangeNonEmpty(blocks: seq<Bytes>, start: nat, end: nat)
    requires NonEmpty(blocks) && start < end <= |blocks|
    ensures Flat(blocks[start..end]) != []
  {
    assert blocks[start..end][0] == blocks[start];
  }

  /** While bytes have been read since the last seek, the reader is in block 0 as long as the position
      has not passed the end of that block. */
  lemma InFirstBlockIff(blocks: seq<Bytes>, s: State, p: nat, reading: bool)
    requires NonEmpty(blocks) && Refines(blocks, s, p) && Tracks(s, reading)
    ensures InFirstBlock(s, p) <==> p == 0 || (reading && blocks != [] && p <= |blocks[0]|)
  {
    hide Sound, Flat;
    if reading {
      var k := s.next - |s.queue| - 1;
      FlatSplit(blocks, k);
      FlatAll(blocks);
      FlatSplit(blocks, 0);
      if k > 0 { OffsetMonotone(blocks, 1, k); }
    }
  }

  lemma {:induction false} RunTracks(blocks: seq<Bytes>, s: State, p: nat, ops: seq<Op>, reading: bool)
    requires NonEmpty(blocks) && Refines(blocks, s, p) && Tracks(s, reading) && |Flat(blocks)| < 0x8000_0000_0000_0000
    requires AllAdmissible(blocks, s, p, ops)
    ensures var (t, replies) := Run(blocks, s, ops); |replies| == |ops| && Tracks(t, ReadingAfter(reading, ops, replies))
    decreases |ops|
  {
    hide Refines, Admissible, Step, CursorStep, Flat, Tracks, Reading, Follows, AllAdmissible, ReadingAfter, Run;
    if ops == [] {
      RunNothing(blocks, s, reading);
    } else {
      AdmissibleHead(blocks, s, p, ops);
      StepExact(blocks, s, p, ops[0]);
      FollowsRefines(blocks, s, p, ops[0]);
      StepTracks(blocks, s, p, ops[0], reading);
      var (s1, r) := Step(blocks, s, ops[0]);
      var now := Reading(reading, ops[0], r);
      RunTracks(blocks, s1, CursorStep(blocks, p, ops[0]).0, ops[1..], now);
      RunHead(blocks, s, ops, reading);
    }
  }

  lemma RunNothing(blocks: seq<Bytes>, s: State, reading: bool)
    ensures Run(blocks, s, []) == (s, []) && ReadingAfter(reading, [], []) == reading
  {
  }

  lemma RunHead(blocks: seq<Bytes>, s: State, ops: seq<Op>, reading: bool)
    requires ops != []
    ensures var (s1, r) := Step(blocks, s, ops[0]); var (t, rs) := Run(blocks, s1, ops[1..]);
            && Run(blocks, s, ops) == (t, [r] + rs)
            && (|rs| == |ops| - 1 ==> ReadingAfter(reading, ops, [r] + rs) == ReadingAfter(Reading(reading, ops[0], r), ops[1..], rs))
  {
    hide Step, Reading;
    var (s1, r) := Step(blocks, s, ops[0]);
    assert ([r] + Run(blocks, s1, ops[1..]).1)[1..] == Run(blocks, s1, ops[1..]).1;
  }

  lemma AdmissibleHead(blocks: seq<Bytes>, s: State, p: nat, ops: seq<Op>)
    requires ops != [] && AllAdmissible(blocks, s, p, ops)
    ensures Admissible(blocks, s, p, ops[0]) && CursorStep(blocks, p, ops[0]).0 >= 0
    ensures AllAdmissible(blocks, Step(blocks, s, ops[0]).0, CursorStep(blocks, p, ops[0]).0, ops[1..])
  {
    hide Admissible, CursorStep, Step;
  }

  lemma FollowsRefines(blocks: seq<Bytes>, s: State, p: nat, op: Op)
    requires Follows(blocks, s, p, op)
    ensures Refines(blocks, Step(blocks, s, op).0, CursorStep(blocks, p, op).0)
  {
    hide Refines, Step, CursorStep;
  }

  /** After any admissible calls from a fresh start, `Current` goes where the cursor goes if and only
      if the target is in range and the position is 0, or is within the first block with bytes read
      since the last seek or range read: the caller's own calls and replies decide. */
  lemma CurrentFromCalls(blocks: seq<Bytes>, s: State, ops: seq<Op>, d: i64)
    requires NonEmpty(blocks) && Refines(blocks, s, 0) && s.current == [] && |Flat(blocks)| < 0x8000_0000_0000_0000
    requires AllAdmissible(blocks, s, 0, ops)
    ensures var (t, replies) := Run(blocks, s, ops); var p := CursorRun(blocks, 0, ops).0;
            && p >= 0 && |replies| == |ops|
            && (Follows(blocks, t, p, OpSeekCurrent(d)) <==>
                0 <= p + d <= |Flat(blocks)| &&
                (p == 0 || (ReadingAfter(false, ops, replies) && blocks != [] && p <= |blocks[0]|)))
  {
    hide Refines, AllAdmissible, Run, CursorRun, Flat, Follows, ReadingAfter, InFirstBlock;
    RunTracks(blocks, s, 0, ops, false);
    RunRefines(blocks, s, 0, ops);
    var (t, replies) := Run(blocks, s, ops);
    var p := CursorRun(blocks, 0, ops).0;
    RefinesParts(blocks, t, p);
    SeekCurrentFollows(blocks, t, p, d);
    InFirstBlockIff(blocks, t, p, ReadingAfter(false, ops, replies));
  }
}
