/** How many blocks make a group (src/writer.rs:94-98, 133-205): the places of BEG and IDX members in the
    finished file, with the number written out from the configuration. */
module GroupShape {
  import opened Prelude
  import opened Format
  import opened Container

  /** In groups of n blocks, the last of which may be shorter, member k is a BEG exactly at multiples of
      n + 1, and an IDX exactly n members later or at the end. */
  lemma {:induction false} Places(c: Codec, level: nat, groups: seq<seq<Bytes>>, n: nat)
    requires n >= 1 && forall j :: 0 <= j < |groups| ==> 1 <= |groups[j]| <= n
    requires forall j :: 0 <= j < |groups| - 1 ==> |groups[j]| == n
    ensures var ms := Members(c, level, groups);
            && |ms| == |Flat(groups)| + |groups|
            && (groups != [] ==> |ms| == (|groups| - 1) * (n + 1) + |groups[|groups| - 1]| + 1)
            && forall k :: 0 <= k < |ms| ==>
                 && (ms[k].Index? <==> k % (n + 1) == n || k == |ms| - 1)
                 && (TypeOf(ms[k]) == Beg <==> k % (n + 1) == 0)
  {
    hide Members, GroupMembers, Flat;
    if groups == [] {
      MembersNone(c, level);
      assert Flat(groups) == [] by { NoBlocks(); }
    } else {
      var m := |groups| - 1;
      var init, last := groups[..m], groups[m];
      assert groups == init + [last];
      Places(c, level, init, n);
      MembersSnoc(c, level, init, last);
      FlatSnoc(init, last);
      FullLength(c, level, init, n);
      var ms, before := Members(c, level, groups), Members(c, level, init);
      assert |ms| == m * (n + 1) + |last| + 1;
      forall k | 0 <= k < |ms|
        ensures ms[k].Index? <==> k % (n + 1) == n || k == |ms| - 1
        ensures TypeOf(ms[k]) == Beg <==> k % (n + 1) == 0
      {
        if k < |before| {
          assert ms[k] == before[k];
          if k == |before| - 1 { LastOfFull(m, n, k); }
        } else {
          InLast(c, level, last, k - |before|);
          DivUnique(k, n + 1, m);
        }
      }
    }
  }

  lemma NoBlocks()
    ensures Flat<Bytes>([]) == []
  {
  }

  /** The last member of m full groups is n members after a multiple of n + 1. */
  lemma LastOfFull(m: nat, n: nat, k: nat)
    requires m >= 1 && n >= 1 && k == m * (n + 1) - 1
    ensures k % (n + 1) == n
  {
    assert m * (n + 1) == (m - 1) * (n + 1) + (n + 1);
    DivUnique(k, n + 1, m - 1);
  }

  lemma FullLength(c: Codec, level: nat, groups: seq<seq<Bytes>>, n: nat)
    requires forall j :: 0 <= j < |groups| ==> |groups[j]| == n
    requires |Members(c, level, groups)| == |Flat(groups)| + |groups|
    ensures |Members(c, level, groups)| == |groups| * (n + 1)
  {
    hide Members;
    EvenLength(n, groups);
  }

  lemma InLast(c: Codec, level: nat, group: seq<Bytes>, i: nat)
    requires i <= |group|
    ensures var m := GroupMembers(c, level, group)[i];
            (m.Index? <==> i == |group|) && (TypeOf(m) == Beg <==> i == 0 && group != [])
  {
    hide SumSizes, EntriesFor;
  }

  /** In encoder output, with n the configured `group_blocks` but at least 1 and B the number of blocks:
      every n blocks are followed by an IDX, and so are the last ones, be they fewer; nothing else is an
      IDX. A BEG comes first and behind every IDX. There are ceil(B / n) groups. */
  lemma LayoutShape(c: Codec, cfg: Config, data: Bytes, n: nat, b: nat)
    requires cfg.blockSize >= 1
    requires n == if cfg.groupBlocks >= 1 then cfg.groupBlocks else 1
    requires b == (|data| + cfg.blockSize - 1) / cfg.blockSize
    ensures var ms := Layout(c, cfg, data);
            && |Blocks(ms)| == b && |ms| == b + (b + n - 1) / n
            && (forall k :: 0 <= k < |ms| ==> (ms[k].Index? <==> k % (n + 1) == n || k == |ms| - 1))
            && (forall k :: 0 <= k < |ms| ==> (TypeOf(ms[k]) == Beg <==> k % (n + 1) == 0))
  {
    hide Members, Chunks, Flat, Blocks;
    var blocks := Chunks(cfg.blockSize, data);
    ChunksCount(cfg.blockSize, data);
    ChunksCount(n, blocks);
    Places(c, cfg.level, Chunks(n, blocks), n);
    LayoutBlocks(c, cfg, data);
  }
}
