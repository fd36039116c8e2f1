/** `PgzfIndex::build` (src/index.rs:26-121) where sums are not checked and wrap at 2^64: it agrees with
    the checked loop wherever that does not panic, and elsewhere it may never end. */
module WrappedIndex {
  import opened Prelude
  import opened LittleEndian
  import opened Format
  import opened ExtraField
  import opened IndexSpec

  function Wrap(x: nat): nat {
    x % U64
  }

  lemma Unwrapped(x: nat)
    ensures x < U64 ==> Wrap(x) == x
    ensures U64 <= x < 2 * U64 ==> Wrap(x) == x - U64
  {
  }

  /** One turn, with the position of the IDX wrapped. */
  function WrappedGroupAt(file: Bytes, pos: nat): GroupRead {
    if |file| < pos + BEG_HEADER_SIZE then Finished
    else
      var v := ValidateGzipHeader(file[pos..pos + BEG_HEADER_SIZE]);
      if v.Err? then Bad(v.error)
      else if !IsPgzfMember(v.value.0, v.value.1) then Bad(InvalidFormat)
      else
        var gc := ReadU64(file[pos + GC_VALUE_OFFSET..]);
        if gc == 0 then Finished else IdxFrom(file, Wrap(pos + gc), gc)
  }

  function WrappedAddEntry(a: Acc, e: IndexEntry, i: nat): Acc {
    var b := AddEntry(a, e, i);
    b.(cumC := Wrap(b.cumC), cumU := Wrap(b.cumU))
  }

  function WrappedAddEntries(a: Acc, es: seq<IndexEntry>): Acc {
    if es == [] then a
    else WrappedAddEntry(WrappedAddEntries(a, es[..|es| - 1]), es[|es| - 1], |es| - 1)
  }

  /** At most `turns` turns of the loop with wrapping sums; `None` when they do not end it. */
  function WrappedScan(file: Bytes, pos: nat, a: Acc, turns: nat): Option<Result<PgzfIndex>>
    decreases turns
  {
    if turns == 0 then None
    else
      match WrappedGroupAt(file, pos)
      case Finished => Some(Ok(Seal(a)))
      case Bad(error) => Some(Err(error))
      case Group(gc, idxZc, entries) =>
        var b := WrappedAddEntries(a, entries);
        WrappedScan(file, Wrap(pos + gc + idxZc),
                    b.(cumC := Wrap(b.cumC + idxZc), groupCount := b.groupCount + 1), turns - 1)
  }

  lemma {:induction false} SumsGrow(a: Acc, es: seq<IndexEntry>)
    ensures AddEntries(a, es).cumC >= a.cumC && AddEntries(a, es).cumU >= a.cumU
  {
    if es != [] { SumsGrow(a, es[..|es| - 1]); }
  }

  /** Sums that end below 2^64 never wrapped on the way. */
  lemma {:induction false} NothingWrapped(a: Acc, es: seq<IndexEntry>)
    requires AddEntries(a, es).cumC < U64 && AddEntries(a, es).cumU < U64
    ensures WrappedAddEntries(a, es) == AddEntries(a, es)
  {
    hide Wrap;
    if es != [] {
      Unwrapped(AddEntries(a, es).cumC);
      Unwrapped(AddEntries(a, es).cumU);
      NothingWrapped(a, es[..|es| - 1]);
    }
  }

  lemma SameTurn(file: Bytes, pos: nat)
    requires GroupAt(file, pos) != Bad(Panic)
    ensures WrappedGroupAt(file, pos) == GroupAt(file, pos)
  {
    hide ValidateGzipHeader, IsPgzfMember, ReadU64, IdxFrom, Wrap;
    if pos + BEG_HEADER_SIZE <= |file| { Unwrapped(pos + ReadU64(file[pos + GC_VALUE_OFFSET..])); }
  }

  /** Where the checked loop does not panic the unchecked one ends too, within as many turns as the file
      has bytes, with the same index or error. */
  lemma {:induction false} UncheckedAgrees(file: Bytes, pos: nat, a: Acc, turns: nat)
    requires Scan(file, pos, a) != Err(Panic) && turns >= Max(|file| + 2 - pos, 1)
    ensures WrappedScan(file, pos, a, turns) == Some(Scan(file, pos, a))
    decreases Max(|file| + 1 - pos, 0)
  {
    hide GroupAt, WrappedGroupAt, AddEntries, WrappedAddEntries, Wrap;
    SameTurn(file, pos);
    GroupAdvances(file, pos);
    match GroupAt(file, pos)
    case Finished =>
    case Bad(_) =>
    case Group(gc, idxZc, entries) =>
      NothingWrapped(a, entries);
      Unwrapped(pos + gc + idxZc);
      Unwrapped(AddEntries(a, entries).cumC + idxZc);
      UncheckedAgrees(file, pos + gc + idxZc, Advance(pos, a, gc, idxZc, entries).value, turns - 1);
  }

  // --- A file on which it never ends ---

  /** A group of one entry, and behind it a BEG whose GC leads back, around 2^64, to the IDX before it. */
  function Loop(e: IndexEntry): Bytes {
    BegHeader(0, 32) + IdxHeader(32, [e]) + BegHeader(0, U64 - 32)
  }

  lemma LoopParts(e: IndexEntry)
    ensures |Loop(e)| == 96
    ensures Loop(e)[0..32] == BegHeader(0, 32) && Loop(e)[64..96] == BegHeader(0, U64 - 32)
    ensures Loop(e)[32..64] == IdxHeader(32, [e])
  {
    hide BegHeader, IdxHeader;
  }

  /** What a BEG header at `pos` says. */
  lemma BegAt(file: Bytes, pos: nat, gc: u64)
    requires pos + 32 <= |file| && file[pos..pos + 32] == BegHeader(0, gc) && gc >= 1
    ensures WrappedGroupAt(file, pos) == IdxFrom(file, Wrap(pos + gc), gc)
    ensures GroupAt(file, pos) == IdxAt(file, pos, gc)
  {
    hide BegHeader, ValidateGzipHeader, ReadU64, IdxFrom, IdxAt;
    BegFixedOffsets(0, gc);
    Window(file, pos, 32, 24, 8);
    assert BegHeader(0, gc)[24..][..8] == BegHeader(0, gc)[24..32];
    SameReads(file[pos + 24..], BegHeader(0, gc)[24..]);
  }

  /** The IDX in the middle, however it was reached. */
  lemma IdxInLoop(e: IndexEntry, gc: u64)
    ensures IdxFrom(Loop(e), 32, gc) == Group(gc, 32, [e])
  {
    hide Loop, IdxHeader, ReadU16, ReadU32, ValidateGzipHeader, EntriesOf;
    LoopParts(e);
    var file := Loop(e);
    IdxFixedOffsets(32, [e]);
    assert file[32..56] == IdxHeader(32, [e])[..24] by { DropSlice(file, 32, 0, 24); PrefixOf(file, 32, IdxHeader(32, [e])); }
    assert file[32..][..32] == IdxHeader(32, [e]) by { PrefixOf(file, 32, IdxHeader(32, [e])); }
    IdxEntries(file, 32, 32, [e], 1);
    assert [e][..1] == [e];
  }

  lemma PrefixOf(file: Bytes, p: nat, h: Bytes)
    requires |h| == 32 && p + 32 <= |file| && file[p..p + 32] == h
    ensures file[p..][..32] == h && file[p..][0..24] == h[..24]
  {
    DropSlice(file, p, 0, 32);
    assert file[p..][0..32] == file[p..][..32];
  }

  lemma TurnBack(e: IndexEntry)
    ensures WrappedGroupAt(Loop(e), 64) == Group(U64 - 32, 32, [e])
    ensures Wrap(64 + (U64 - 32) + 32) == 64
  {
    hide Loop, WrappedGroupAt, IdxFrom, Wrap;
    LoopParts(e);
    BegAt(Loop(e), 64, U64 - 32);
    IdxInLoop(e, U64 - 32);
    Unwrapped(64 + (U64 - 32));
    Unwrapped(64 + (U64 - 32) + 32);
  }

  /** From the second BEG the unchecked loop comes back to it for ever, one entry longer each time. */
  lemma {:induction false} LoopNeverEnds(e: IndexEntry, a: Acc, turns: nat)
    ensures WrappedScan(Loop(e), 64, a, turns) == None
    decreases turns
  {
    hide Loop, WrappedGroupAt, WrappedAddEntries, IdxFrom, Wrap, WrappedScan;
    if turns == 0 {
      NoTurns(Loop(e), 64, a);
    } else {
      TurnBack(e);
      TurnTaken(Loop(e), 64, a, turns - 1, U64 - 32, 32, [e]);
      var b := WrappedAddEntries(a, [e]);
      LoopNeverEnds(e, b.(cumC := Wrap(b.cumC + 32), groupCount := b.groupCount + 1), turns - 1);
    }
  }

  lemma NoTurns(file: Bytes, pos: nat, a: Acc)
    ensures WrappedScan(file, pos, a, 0) == None
  {
  }

  lemma TurnTaken(file: Bytes, pos: nat, a: Acc, turns: nat, gc: u64, idxZc: u32, es: seq<IndexEntry>)
    requires WrappedGroupAt(file, pos) == Group(gc, idxZc, es)
    ensures var b := WrappedAddEntries(a, es);
            WrappedScan(file, pos, a, turns + 1) ==
            WrappedScan(file, Wrap(pos + gc + idxZc), b.(cumC := Wrap(b.cumC + idxZc), groupCount := b.groupCount + 1), turns)
  {
    hide WrappedGroupAt, WrappedAddEntries, Wrap;
  }

  lemma FirstTurn(e: IndexEntry)
    ensures WrappedGroupAt(Loop(e), 0) == Group(32, 32, [e]) == GroupAt(Loop(e), 0) && Wrap(0 + 32 + 32) == 64
  {
    hide Loop, WrappedGroupAt, IdxFrom, Wrap, GroupAt;
    LoopParts(e);
    BegAt(Loop(e), 0, 32);
    IdxInLoop(e, 32);
    Unwrapped(0 + 32);
    Unwrapped(0 + 32 + 32);
  }

  lemma LoopPanics(e: IndexEntry)
    ensures Scan(Loop(e), 0, EMPTY) == Err(Panic)
  {
    hide Loop, IdxFrom, GroupAt, AddEntries;
    FirstTurn(e);
    LoopParts(e);
    BegAt(Loop(e), 64, U64 - 32);
  }

  /** Opening this file of 96 bytes panics with checked sums, and without them it never ends. */
  lemma BuildNeverEnds(e: IndexEntry, turns: nat)
    ensures |Loop(e)| == 96
    ensures WrappedScan(Loop(e), 0, EMPTY, turns) == None
    ensures Scan(Loop(e), 0, EMPTY) == Err(Panic)
  {
    hide *;
    LoopParts(e);
    LoopPanics(e);
    NeverFromStart(e, turns);
  }

  lemma NeverFromStart(e: IndexEntry, turns: nat)
    ensures WrappedScan(Loop(e), 0, EMPTY, turns) == None
  {
    hide Loop, WrappedGroupAt, WrappedAddEntries, Wrap, IdxFrom, EMPTY, WrappedScan;
    if turns == 0 {
      NoTurns(Loop(e), 0, EMPTY);
    } else {
      FirstTurn(e);
      TurnTaken(Loop(e), 0, EMPTY, turns - 1, 32, 32, [e]);
      var b := WrappedAddEntries(EMPTY, [e]);
      LoopNeverEnds(e, b.(cumC := Wrap(b.cumC + 32), groupCount := b.groupCount + 1), turns - 1);
    }
  }
}
