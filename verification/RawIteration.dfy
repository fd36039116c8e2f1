/** Repeated raw reads over a whole file: they partition encoder output into its members. */
module RawIteration {
  import opened Prelude
  import opened Format
  import opened Container
  import opened RawMember
  import opened IndexSpec
  import opened Reader
  import Machine = ReaderMachine

  datatype Item = Item(raw: Bytes, headerSize: nat, blockType: BlockType, blockIndex: nat)

  lemma RawAdvances(file: Bytes, pos: nat)
    ensures ParseRaw(Suffix(file, pos)).result.Block? ==>
              pos + 12 <= pos + ParseRaw(Suffix(file, pos)).consumed <= |file|
  {
  }

  /** What `while let Some(block) = reader.read_one_raw_block()?` yields from a file position. */
  function Iterate(file: Bytes, pos: nat, next: nat): seq<Item>
    decreases Max(|file| + 1 - pos, 0)
  {
    RawAdvances(file, pos);
    var o := ParseRaw(Suffix(file, pos));
    if !o.result.Block? then []
    else [Item(o.result.raw, o.result.headerSize, o.result.blockType, next)] +
         Iterate(file, pos + o.consumed, next + if o.counted then 1 else 0)
  }

  /** How that iteration ends: `None` from the call, an error, or a panic. */
  function Ending(file: Bytes, pos: nat): Raw
    decreases Max(|file| + 1 - pos, 0)
  {
    RawAdvances(file, pos);
    var o := ParseRaw(Suffix(file, pos));
    if !o.result.Block? then o.result else Ending(file, pos + o.consumed)
  }

  lemma IterateStep(file: Bytes, pos: nat, next: nat)
    ensures var o := ParseRaw(Suffix(file, pos));
            && (!o.result.Block? ==> Iterate(file, pos, next) == [] && Ending(file, pos) == o.result)
            && (o.result.Block? ==>
                  && Iterate(file, pos, next) ==
                     [Item(o.result.raw, o.result.headerSize, o.result.blockType, next)] +
                     Iterate(file, pos + o.consumed, next + if o.counted then 1 else 0)
                  && Ending(file, pos) == Ending(file, pos + o.consumed))
  {
    hide ParseRaw, Suffix;
  }

  function ItemOf(c: Codec, level: nat, ms: seq<Member>, k: nat, next: nat): Item
    requires k < |ms|
  {
    Item(Image(c, level, ms[k]), HeaderSize(ms[k]), TypeOf(ms[k]), next)
  }

  /** From the start of member k the iteration yields exactly the members from k on, whole, in
      order, numbered by the data members passed. */
  lemma {:induction false} IterateMembers(c: Codec, level: nat, ms: seq<Member>, k: nat, next: nat)
    requires AllReadable(c, level, ms) && k <= |ms|
    ensures var items := Iterate(FileOf(c, level, ms), Start(c, level, ms, k), next);
            |items| == |ms| - k
    ensures Ending(FileOf(c, level, ms), Start(c, level, ms, k)) == End
    ensures forall j :: k <= j < |ms| ==>
              (Count(ms, j) >= Count(ms, k) &&
               Iterate(FileOf(c, level, ms), Start(c, level, ms, k), next)[j - k] ==
               ItemOf(c, level, ms, j, next + Count(ms, j) - Count(ms, k)))
    decreases |ms| - k
  {
    hide FileOf, Image, ParseRaw, Readable, SizeOf, Count, Start, HeaderSize, TypeOf, Suffix;
    var file := FileOf(c, level, ms);
    if k == |ms| {
      NothingAfter(c, level, ms);
    } else {
      IterateOne(c, level, ms, k, next);
      BlockOfMember(ms, k);
      IterateMembers(c, level, ms, k + 1, next + if ms[k].Data? then 1 else 0);
    }
  }

  lemma IterateOne(c: Codec, level: nat, ms: seq<Member>, k: nat, next: nat)
    requires AllReadable(c, level, ms) && k < |ms|
    ensures Iterate(FileOf(c, level, ms), Start(c, level, ms, k), next) ==
            [ItemOf(c, level, ms, k, next)] +
            Iterate(FileOf(c, level, ms), Start(c, level, ms, k + 1), next + if ms[k].Data? then 1 else 0)
    ensures Ending(FileOf(c, level, ms), Start(c, level, ms, k)) == Ending(FileOf(c, level, ms), Start(c, level, ms, k + 1))
  {
    hide FileOf, Image, ParseRaw, Readable, SizeOf, Start;
    var rest := MemberAhead(c, level, ms, k);
    ReadableAt(c, level, ms, k);
    RawOfMember(c, level, ms[k], rest);
    ReadableBounds(c, level, ms[k]);
  }

  lemma NothingAfter(c: Codec, level: nat, ms: seq<Member>)
    ensures ParseRaw(Suffix(FileOf(c, level, ms), Start(c, level, ms, |ms|))).result == End
  {
    hide FileOf;
    assert ms[..|ms|] == ms;
  }

  function Raws(items: seq<Item>): seq<Bytes> {
    seq(|items|, i requires 0 <= i < |items| => items[i].raw)
  }

  /** A fresh reader's raw members, concatenated, are the whole file. */
  lemma RawsPartition(c: Codec, level: nat, ms: seq<Member>)
    requires AllReadable(c, level, ms)
    ensures Flat(Raws(Iterate(FileOf(c, level, ms), 0, 0))) == FileOf(c, level, ms)
  {
    hide Image, Iterate, AllReadable, HeaderSize, TypeOf;
    var items := Iterate(FileOf(c, level, ms), 0, 0);
    StartZero(c, level, ms);
    IterateMembers(c, level, ms, 0, 0);
    forall j | 0 <= j < |ms|
      ensures Raws(items)[j] == Images(c, level, ms)[j]
    {
      assert items[j - 0] == ItemOf(c, level, ms, j, 0 + Count(ms, j) - Count(ms, 0));
    }
    assert Raws(items) == Images(c, level, ms);
  }

  // --- The grammar of member types ---

  function Types(ms: seq<Member>): seq<BlockType> {
    seq(|ms|, i requires 0 <= i < |ms| => TypeOf(ms[i]))
  }

  /** (Beg Dat* Idx)*, as a run over the types; `open` is whether a group is open. */
  predicate Grammar(ts: seq<BlockType>, open: bool) {
    if ts == [] then !open
    else match ts[0]
      case Beg => !open && Grammar(ts[1..], true)
      case Dat => open && Grammar(ts[1..], true)
      case Idx => open && Grammar(ts[1..], false)
  }

  lemma {:induction false} GrammarConcat(a: seq<BlockType>, b: seq<BlockType>, open: bool)
    requires Grammar(a, open) && Grammar(b, false)
    ensures Grammar(a + b, open)
  {
    if a == [] {
      assert a + b == b;
    } else {
      assert (a + b)[1..] == a[1..] + b;
      GrammarConcat(a[1..], b, a[0] != Idx);
    }
  }

  lemma {:induction false} TailGrammar(ts: seq<BlockType>)
    requires ts != [] && ts[|ts| - 1] == Idx && forall i :: 0 <= i < |ts| - 1 ==> ts[i] == Dat
    ensures Grammar(ts, true)
  {
    if |ts| > 1 { TailGrammar(ts[1..]); } else { assert ts[1..] == []; }
  }

  lemma GroupGrammar(c: Codec, level: nat, blocks: seq<Bytes>)
    requires blocks != []
    ensures Grammar(Types(GroupMembers(c, level, blocks)), false)
  {
    hide SumSizes, EntriesFor;
    var ms := GroupMembers(c, level, blocks);
    var ts := Types(ms);
    assert ts[0] == Beg && ts[|blocks|] == Idx;
    assert forall i :: 0 < i < |blocks| ==> ts[i] == Dat;
    TailGrammar(ts[1..]);
  }

  lemma {:induction false} MembersGrammar(c: Codec, level: nat, groups: seq<seq<Bytes>>)
    requires forall j :: 0 <= j < |groups| ==> groups[j] != []
    ensures Grammar(Types(Members(c, level, groups)), false)
  {
    hide Members, GroupMembers;
    if groups == [] {
      MembersNone(c, level);
      assert Types([]) == [];
    } else {
      var n := |groups| - 1;
      assert groups == groups[..n] + [groups[n]];
      MembersGrammar(c, level, groups[..n]);
      MembersSnoc(c, level, groups[..n], groups[n]);
      GroupGrammar(c, level, groups[n]);
      GrammarConcat(Types(Members(c, level, groups[..n])), Types(GroupMembers(c, level, groups[n])), false);
      assert Types(Members(c, level, groups)) == Types(Members(c, level, groups[..n])) + Types(GroupMembers(c, level, groups[n]));
    }
  }

  /** The members of encoder output form whole groups: one BEG, any DATs, one IDX each. */
  lemma LayoutGrammar(c: Codec, cfg: Config, data: Bytes)
    requires cfg.blockSize >= 1
    ensures Grammar(Types(Layout(c, cfg, data)), false)
  {
    hide Members, Chunks, Grammar, Types;
    GroupSizes(cfg, data);
    MembersGrammar(c, cfg.level, Grouped(cfg, Chunks(cfg.blockSize, data)));
  }

  /** Raw iteration over encoder output yields its members one by one, numbered by the data members
      before them, and their bytes put together are the whole file. */
  lemma EncodedIteration(c: Codec, cfg: Config, data: Bytes, ms: seq<Member>, items: seq<Item>)
    requires Lawful(c, cfg) && GroupsFit(cfg, data)
    requires ms == Layout(c, cfg, data) && items == Iterate(Encode(c, cfg, data), 0, 0)
    ensures |items| == |ms| && Flat(Raws(items)) == Encode(c, cfg, data)
    ensures Ending(Encode(c, cfg, data), 0) == End
    ensures forall j :: 0 <= j < |ms| ==> items[j] == ItemOf(c, cfg.level, ms, j, Count(ms, j))
  {
    hide Lawful, GroupsFit, Layout, FileOf, AllReadable, Iterate, Raws, Count, ItemOf, Flat, Ending;
    LayoutReadable(c, cfg, data);
    StartZero(c, cfg.level, ms);
    IterateMembers(c, cfg.level, ms, 0, 0);
    CountAll(ms);
    forall j | 0 <= j < |ms|
      ensures items[j] == ItemOf(c, cfg.level, ms, j, Count(ms, j))
    {
      assert items[j - 0] == ItemOf(c, cfg.level, ms, j, 0 + Count(ms, j) - Count(ms, 0));
    }
    RawsPartition(c, cfg.level, ms);
  }

  /** From the compressed offset of block i the raw members are those from that block's member on,
      numbered from 0, and then the end of the file. */
  lemma IterateFromBlock(c: Codec, level: nat, ms: seq<Member>, idx: PgzfIndex, i: nat) returns (k: nat)
    requires AllReadable(c, level, ms) && IndexFor(c, level, ms, idx) && i < |Blocks(ms)|
    ensures k < |ms| && Count(ms, k) == i && ms[k].Data? && ms[k].payload == Blocks(ms)[i] && i < |idx.compressedOffsets|
    ensures IteratedFrom(c, level, ms, k, Iterate(FileOf(c, level, ms), idx.compressedOffsets[i], 0))
    ensures Ending(FileOf(c, level, ms), idx.compressedOffsets[i]) == End
  {
    hide FileOf, Iterate, AllReadable, IndexFor, Blocks, Start, Count, ItemOf, Ending;
    k := OffsetIsStart(c, level, ms, idx, i);
    BlockOfMember(ms, k);
    IterateMembers(c, level, ms, k, 0);
    var items := Iterate(FileOf(c, level, ms), Start(c, level, ms, k), 0);
    forall j | k <= j < |ms|
      ensures Count(ms, j) >= Count(ms, k) && items[j - k] == ItemOf(c, level, ms, j, Count(ms, j) - Count(ms, k))
    {
      assert 0 + Count(ms, j) - Count(ms, k) == Count(ms, j) - Count(ms, k);
    }
  }

  /** The items are the members from k on, each whole, numbered by the data members since k. */
  ghost predicate IteratedFrom(c: Codec, level: nat, ms: seq<Member>, k: nat, items: seq<Item>)
    requires k <= |ms|
  {
    && |items| == |ms| - k
    && forall j :: k <= j < |ms| ==>
         Count(ms, j) >= Count(ms, k) && items[j - k] == ItemOf(c, level, ms, j, Count(ms, j) - Count(ms, k))
  }

  /** Runs the raw reader from wherever it stands until it yields no block, and says why it stopped. */
  method CollectRaw(reader: PgzfReader) returns (items: seq<Item>, ending: Raw)
    modifies reader`nextBlockIndex, reader.inner
    ensures reader.inner.data == old(reader.inner.data)
    ensures items == Iterate(reader.inner.data, old(reader.inner.pos), old(reader.nextBlockIndex))
    ensures ending == Ending(reader.inner.data, old(reader.inner.pos))
  {
    hide ParseRaw, Suffix, Iterate, Ending;
    ghost var file, pos, next := reader.inner.data, reader.inner.pos, reader.nextBlockIndex;
    items := [];
    while true
      invariant reader.inner.data == file
      invariant Iterate(file, pos, next) == items + Iterate(file, reader.inner.pos, reader.nextBlockIndex)
      invariant Ending(file, pos) == Ending(file, reader.inner.pos)
      decreases Max(|file| + 1 - reader.inner.pos, 0)
    {
      RawAdvances(file, reader.inner.pos);
      IterateStep(file, reader.inner.pos, reader.nextBlockIndex);
      var r, blockIndex := reader.ReadOneRawBlock();
      if !r.Block? {
        return items, r;
      }
      var item := Item(r.raw, r.headerSize, r.blockType, blockIndex);
      SeqAssoc(items, [item], Iterate(file, reader.inner.pos, reader.nextBlockIndex));
      items := items + [item];
    }
  }

  /** `seek_to_block(i)` and then the raw loop, from any state of the reader: the members from that of
      block i to the end of the file, numbered from 0. */
  method CollectFromBlock(reader: PgzfReader, i: int) returns (ok: bool, items: seq<Item>, ending: Raw, ghost k: nat)
    requires reader.Valid()
    modifies reader, reader.inner
    ensures ok <==> Machine.Resolve(reader.TrueBlocks(), i).Some?
    ensures !ok ==> items == []
    ensures ok ==> ending == End && k < |reader.members| && reader.members[k].Data?
                   && Count(reader.members, k) == Machine.Resolve(reader.TrueBlocks(), i).value
                   && IteratedFrom(reader.codec, reader.level, reader.members, k, items)
  {
    hide FileOf, Iterate, AllReadable, IndexFor, Blocks, Count, Ending, IteratedFrom;
    ok := reader.SeekToBlock(i);
    if !ok { return false, [], End, 0; }
    k := IterateFromBlock(reader.codec, reader.level, reader.members, reader.index,
                          Machine.Resolve(reader.TrueBlocks(), i).value);
    items, ending := CollectRaw(reader);
  }
}
