/** What `PgzfIndex::build` (src/index.rs:26-121) makes of groups of more than 8190 blocks, whose IDX
    members have lost part of their length field. */
module OversizedGroups {
  import opened Prelude
  import opened Format
  import opened Container
  import opened WriterSpec
  import opened IndexSpec
  import opened Index

  /** The size of the IDX member of an n-block group. */
  function IdxSize(c: Codec, level: nat, n: nat): nat {
    IDX_HEADER_BASE_SIZE + 8 * n + |c.deflate(level, [])| + PGZF_TAIL_SIZE
  }

  /** The IDX members stay below 2^32 bytes. This holds below about 536 million blocks to a group. */
  predicate IdxFits(c: Codec, cfg: Config, data: Bytes)
    requires cfg.blockSize >= 1
  {
    IdxSize(c, cfg.level, Min(GroupLimit(cfg), (|data| + cfg.blockSize - 1) / cfg.blockSize)) < U32
  }

  ghost predicate Countable(c: Codec, level: nat, group: seq<Bytes>) {
    && group != []
    && BlocksReadable(c, level, SumSizes(EntriesFor(c, level, group)) % U64, group)
    && IdxSize(c, level, |group|) < U32
  }

  /** The IDX of a group of n blocks is rejected exactly when n is one less than a multiple of 8192. */
  predicate Rejected(n: nat) {
    n % 0x2000 == 0x1fff
  }

  /** The entries an index built from these groups has: of each group, its size modulo 8192. */
  function ListedEntries(groups: seq<seq<Bytes>>): nat {
    if groups == [] then 0 else |groups[0]| % 0x2000 + ListedEntries(groups[1..])
  }

  function SumData(es: seq<IndexEntry>): nat {
    if es == [] then 0 else SumData(es[..|es| - 1]) + es[|es| - 1].uncompressedSize
  }

  lemma {:induction false} AddedEntries(a: Acc, es: seq<IndexEntry>)
    ensures var b := AddEntries(a, es);
            |b.blocks| == |a.blocks| + |es| && b.cumC == a.cumC + SumSizes(es) && b.cumU == a.cumU + SumData(es)
  {
    if es != [] { AddedEntries(a, es[..|es| - 1]); }
  }

  lemma {:induction false} PrefixSums(es: seq<IndexEntry>, k: nat)
    requires k <= |es|
    ensures SumSizes(es[..k]) <= SumSizes(es) && SumData(es[..k]) <= SumData(es)
    decreases |es|
  {
    if k == |es| {
      assert es[..k] == es;
    } else {
      PrefixSums(es[..|es| - 1], k);
      assert es[..|es| - 1][..k] == es[..k];
    }
  }

  /** The data sizes listed for blocks add up to their data, if none of them was narrowed. */
  lemma {:induction false} ListedData(c: Codec, level: nat, gc: u64, blocks: seq<Bytes>)
    requires BlocksReadable(c, level, gc, blocks)
    ensures SumData(EntriesFor(c, level, blocks)) == |Flat(blocks)|
  {
    hide Readable, EntryFor, Flat;
    if blocks == [] {
      assert Flat(blocks) == [] by { FlatNone(); }
    } else {
      var n := |blocks| - 1;
      var init := blocks[..n];
      assert blocks == init + [blocks[n]] && blocks[..n + 1] == blocks;
      ListedData(c, level, gc, init);
      EntriesForSnoc(c, level, blocks, n);
      assert EntriesFor(c, level, blocks)[..n] == EntriesFor(c, level, init);
      EntryExact(c, level, gc, n, blocks[n]);
      FlatSnoc(init, blocks[n]);
    }
  }

  lemma FlatNone()
    ensures Flat<byte>([]) == []
  {
  }

  /** One turn at group j: an error, or the group's size modulo 8192 in entries and on to group j + 1. */
  lemma TurnAt(c: Codec, level: nat, groups: seq<seq<Bytes>>, j: nat) returns (gc: u64, idxZc: u32, es: seq<IndexEntry>)
    requires j < |groups| && Countable(c, level, groups[j]) && |FileOf(c, level, Members(c, level, groups))| < U64
    ensures var file := FileOf(c, level, Members(c, level, groups)); var pos := |FileOf(c, level, Members(c, level, groups[..j]))|;
            && (Rejected(|groups[j]|) ==> GroupAt(file, pos) == Bad(InvalidFormat))
            && (!Rejected(|groups[j]|) ==> GroupAt(file, pos) == Group(gc, idxZc, es) && |es| == |groups[j]| % 0x2000)
            && pos + gc + idxZc == |FileOf(c, level, Members(c, level, groups[..j + 1]))|
            && SumSizes(es) <= gc && SumData(es) <= |Flat(groups[j])|
  {
    hide FileOf, Members, GroupMembers, GroupAt, Narrowed, EntriesFor, SumSizes, BlocksReadable, DataMembers, SumData, Flat;
    var group := groups[j];
    var all := EntriesFor(c, level, group);
    GroupInFile(c, level, groups, j);
    var file, pos := FileOf(c, level, Members(c, level, groups)), |FileOf(c, level, Members(c, level, groups[..j]))|;
    AnyGroupAt(c, level, file, pos, group, FileOf(c, level, Members(c, level, groups[j + 1..])));
    gc := |FileOf(c, level, DataMembers(SumSizes(all) % U64, group))|;
    idxZc := SizeOf(c, level, Member.Index(all));
    NarrowedIs(gc, idxZc, all);
    NarrowedSize(|all|);
    es := all[..|all| % 0x2000];
    PrefixSums(all, |all| % 0x2000);
    SumIsLength(c, level, SumSizes(all) % U64, group);
    ListedData(c, level, SumSizes(all) % U64, group);
  }

  /** Scanning from group j on: the first rejected group ends it with an error; otherwise every group
      has added its size modulo 8192. */
  lemma {:induction false} ScanCounts(c: Codec, level: nat, groups: seq<seq<Bytes>>, j: nat, a: Acc)
    requires j <= |groups| && forall i :: 0 <= i < |groups| ==> Countable(c, level, groups[i])
    requires |FileOf(c, level, Members(c, level, groups))| < U64 && |Flat(Flat(groups))| < U64
    requires a.cumC <= |FileOf(c, level, Members(c, level, groups[..j]))| && a.cumU <= |Flat(Flat(groups[..j]))|
    ensures var r := Scan(FileOf(c, level, Members(c, level, groups)), |FileOf(c, level, Members(c, level, groups[..j]))|, a);
            && (r.Ok? <==> forall i :: j <= i < |groups| ==> !Rejected(|groups[i]|))
            && (r.Ok? ==> |r.value.blocks| == |a.blocks| + ListedEntries(groups[j..]))
            && (r.Err? ==> r.error == InvalidFormat)
    decreases |groups| - j
  {
    hide FileOf, Members, GroupAt, AddEntries, Countable, Rejected, Flat, SumSizes, SumData;
    var file, pos := FileOf(c, level, Members(c, level, groups)), |FileOf(c, level, Members(c, level, groups[..j]))|;
    if j == |groups| {
      assert groups[..j] == groups;
      EndOfFile(file, pos);
    } else {
      var gc, idxZc, es := TurnAt(c, level, groups, j);
      if !Rejected(|groups[j]|) {
        AddedEntries(a, es);
        GrowsTo(c, level, groups, j);
        assert groups[j..][1..] == groups[j + 1..];
        ScanCounts(c, level, groups, j + 1, AddIdx(AddEntries(a, es), idxZc));
      }
    }
  }

  /** One more group is no more than the whole. */
  lemma GrowsTo(c: Codec, level: nat, groups: seq<seq<Bytes>>, j: nat)
    requires j < |groups|
    ensures |Flat(Flat(groups[..j + 1]))| == |Flat(Flat(groups[..j]))| + |Flat(groups[j])|
    ensures |Flat(Flat(groups[..j + 1]))| <= |Flat(Flat(groups))|
    ensures |FileOf(c, level, Members(c, level, groups[..j + 1]))| <= |FileOf(c, level, Members(c, level, groups))|
  {
    hide FileOf, Members, Flat;
    assert groups[..j + 1] == groups[..j] + [groups[j]];
    FlatSnoc(groups[..j], groups[j]);
    FlatConcat(Flat(groups[..j]), groups[j]);
    assert groups == groups[..j + 1] + groups[j + 1..];
    FlatConcat(groups[..j + 1], groups[j + 1..]);
    FlatConcat(Flat(groups[..j + 1]), Flat(groups[j + 1..]));
    MembersConcat(c, level, groups[..j + 1], groups[j + 1..]);
    FileOfConcat(c, level, Members(c, level, groups[..j + 1]), Members(c, level, groups[j + 1..]));
  }

  lemma {:induction false} ListedAtMost(groups: seq<seq<Bytes>>)
    ensures ListedEntries(groups) <= |Flat(groups)|
    ensures ListedEntries(groups) == |Flat(groups)| <==> forall i :: 0 <= i < |groups| ==> |groups[i]| < 0x2000
  {
    if groups != [] {
      ListedAtMost(groups[1..]);
      assert forall i :: 0 < i < |groups| ==> groups[i] == groups[1..][i - 1];
    }
  }

  lemma LawfulReadable(c: Codec, cfg: Config, gc: u64, blocks: seq<Bytes>)
    requires Lawful(c, cfg) && AllFit(cfg, blocks)
    ensures BlocksReadable(c, cfg.level, gc, blocks)
  {
    forall i | 0 <= i < |blocks|
      ensures Readable(c, cfg.level, DataMember(gc, i, blocks[i]))
    {
      assert FitsConfig(cfg, blocks[i]);
    }
  }

  lemma GroupsCountable(c: Codec, cfg: Config, data: Bytes, groups: seq<seq<Bytes>>)
    requires Lawful(c, cfg) && IdxFits(c, cfg, data) && groups == Grouped(cfg, Chunks(cfg.blockSize, data))
    ensures forall j :: 0 <= j < |groups| ==> Countable(c, cfg.level, groups[j])
  {
    hide Lawful, Flat, Chunks, BlocksReadable, SumSizes, EntriesFor, FitsConfig, AllFit;
    LawfulSizes(c, cfg);
    var blocks := Chunks(cfg.blockSize, data);
    ChunksCount(cfg.blockSize, data);
    assert AllFit(cfg, Flat(groups)) by { AllChunksFit(cfg, data); }
    forall j | 0 <= j < |groups|
      ensures Countable(c, cfg.level, groups[j])
    {
      GroupedBlocksFit(cfg, groups, j);
      LawfulReadable(c, cfg, SumSizes(EntriesFor(c, cfg.level, groups[j])) % U64, groups[j]);
      FlatSplit(groups, j);
    }
  }

  lemma AllChunksFit(cfg: Config, data: Bytes)
    requires cfg.blockSize >= 1
    ensures AllFit(cfg, Chunks(cfg.blockSize, data))
  {
  }

  /** What `build` returns for encoder output with groups of any size. It fails exactly when a group's
      size is one less than a multiple of 8192; otherwise each group has contributed its size modulo
      8192. So no block is missing if and only if no group exceeds 8190 blocks. */
  lemma EntriesLost(c: Codec, cfg: Config, data: Bytes, groups: seq<seq<Bytes>>)
    requires Lawful(c, cfg) && IdxFits(c, cfg, data) && Below64(c, cfg, data)
    requires groups == Grouped(cfg, Chunks(cfg.blockSize, data))
    ensures var r := Scan(Encode(c, cfg, data), 0, EMPTY); var b := |Chunks(cfg.blockSize, data)|;
            && (r.Ok? <==> forall j :: 0 <= j < |groups| ==> !Rejected(|groups[j]|))
            && (r.Err? ==> r.error == InvalidFormat)
            && (r.Ok? ==> BlockCount(r.value) == ListedEntries(groups) <= b)
            && (GroupsFit(cfg, data) <==> r.Ok? && BlockCount(r.value) == b)
  {
    hide Lawful, IdxFits, Countable, GroupsFit, Members, FileOf, Chunks, Flat, ListedEntries, Scan, Below64;
    LawfulSizes(c, cfg);
    GroupsCountable(c, cfg, data, groups);
    GroupSizes(cfg, data);
    assert groups[..0] == [] && groups[0..] == groups;
    MembersNone(c, cfg.level);
    Below(c, cfg, data, groups);
    ScanCounts(c, cfg.level, groups, 0, EMPTY);
    ListedAtMost(groups);
  }

  lemma Below(c: Codec, cfg: Config, data: Bytes, groups: seq<seq<Bytes>>)
    requires cfg.blockSize >= 1 && Below64(c, cfg, data) && groups == Grouped(cfg, Chunks(cfg.blockSize, data))
    ensures Flat(Flat(groups)) == data && |data| < U64 && |FileOf(c, cfg.level, Members(c, cfg.level, groups))| < U64
  {
    hide FileOf, Members;
  }
}
