/** Facts about the encoder that the writer's steps add up to: growing a group member by member,
    the GC backpatch, and closing a group. */
module WriterSpec {
  import opened Prelude
  import opened LittleEndian
  import opened Format
  import opened Container
  import opened FileStream

  /** Sum of the ZC fields, and of the listed uncompressed sizes, as the writer's counters add them. */
  function ListedSize(c: Codec, level: nat, ms: seq<Member>): nat {
    if ms == [] then 0
    else ListedSize(c, level, ms[..|ms| - 1]) + SizeOf(c, level, ms[|ms| - 1]) % U32
  }

  function ListedData(ms: seq<Member>): nat {
    if ms == [] then 0
    else ListedData(ms[..|ms| - 1]) + if ms[|ms| - 1].Data? then |ms[|ms| - 1].payload| % U32 else 0
  }

  lemma ListedSnoc(c: Codec, level: nat, ms: seq<Member>, m: Member)
    ensures ListedSize(c, level, ms + [m]) == ListedSize(c, level, ms) + SizeOf(c, level, m) % U32
    ensures ListedData(ms + [m]) == ListedData(ms) + if m.Data? then |m.payload| % U32 else 0
  {
    assert (ms + [m])[..|ms|] == ms;
  }

  lemma {:induction false} ListedConcat(c: Codec, level: nat, a: seq<Member>, b: seq<Member>)
    ensures ListedSize(c, level, a + b) == ListedSize(c, level, a) + ListedSize(c, level, b)
    ensures ListedData(a + b) == ListedData(a) + ListedData(b)
  {
    if b == [] {
      assert a + b == a;
    } else {
      hide ListedSize, ListedData, SizeOf;
      var n := |b| - 1;
      assert a + b == a + b[..n] + [b[n]] && b == b[..n] + [b[n]];
      ListedConcat(c, level, a, b[..n]);
      ListedSnoc(c, level, a + b[..n], b[n]);
      ListedSnoc(c, level, b[..n], b[n]);
    }
  }

  /** When nothing was narrowed, the counters are the true totals. */
  lemma {:induction false} ListedExact(c: Codec, level: nat, ms: seq<Member>)
    requires AllReadable(c, level, ms)
    ensures ListedSize(c, level, ms) == |FileOf(c, level, ms)|
    ensures ListedData(ms) == |Flat(Blocks(ms))|
  {
    if ms == [] {
      FileOfOne(c, level, Index([]));
    } else {
      hide FileOf, Image, ListedSize, ListedData, Flat, Blocks, SizeOf, Readable;
      var n := |ms| - 1;
      var init, m := ms[..n], ms[n];
      assert ms == init + [m];
      ListedExact(c, level, init);
      ListedSnoc(c, level, init, m);
      FileOfSnoc(c, level, init, m);
      ReadableSizes(c, level, m);
      BlocksSnoc(init, m);
      if m.Data? {
        FlatSnoc(Blocks(init), m.payload);
      } else {
        assert Blocks(init) + [] == Blocks(init);
      }
    }
  }

  /** On encoder output no size had to be narrowed, so the counters are the true totals. */
  lemma CountersExact(c: Codec, cfg: Config, data: Bytes)
    requires Lawful(c, cfg) && GroupsFit(cfg, data)
    ensures ListedSize(c, cfg.level, Layout(c, cfg, data)) == |Encode(c, cfg, data)|
    ensures ListedData(Layout(c, cfg, data)) == |data|
  {
    hide Lawful, GroupsFit, Layout, FileOf, AllReadable, Flat, Blocks, Chunks, ListedSize, ListedData;
    LawfulSizes(c, cfg);
    LayoutReadable(c, cfg, data);
    LayoutBlocks(c, cfg, data);
    ListedExact(c, cfg.level, Layout(c, cfg, data));
  }

  /** The GC value changes no member size, hence neither counters nor offsets. */
  lemma {:induction false} ListedIgnoresGc(c: Codec, level: nat, gc: u64, blocks: seq<Bytes>)
    ensures ListedSize(c, level, DataMembers(gc, blocks)) == ListedSize(c, level, DataMembers(0, blocks))
    ensures ListedData(DataMembers(gc, blocks)) == ListedData(DataMembers(0, blocks))
  {
    if blocks != [] {
      var n := |blocks| - 1;
      ListedIgnoresGc(c, level, gc, blocks[..n]);
      assert DataMembers(gc, blocks)[..n] == DataMembers(gc, blocks[..n]);
      assert DataMembers(0, blocks)[..n] == DataMembers(0, blocks[..n]);
    }
  }

  // --- Growing a group ---

  lemma DataMembersSnoc(gc: u64, blocks: seq<Bytes>, k: nat)
    requires k < |blocks|
    ensures DataMembers(gc, blocks[..k + 1]) == DataMembers(gc, blocks[..k]) + [DataMember(gc, k, blocks[k])]
  {
  }

  lemma EntriesForSnoc(c: Codec, level: nat, blocks: seq<Bytes>, k: nat)
    requires k < |blocks|
    ensures EntriesFor(c, level, blocks[..k + 1]) == EntriesFor(c, level, blocks[..k]) + [EntryFor(c, level, k, blocks[k])]
  {
    hide EntryFor;
  }

  /** Writing member k at the end of the file extends the group by exactly that member. */
  lemma GrowGroup(c: Codec, level: nat, base: Bytes, blocks: seq<Bytes>, k: nat)
    requires k < |blocks|
    ensures base + FileOf(c, level, DataMembers(0, blocks[..k])) + Image(c, level, DataMember(0, k, blocks[k]))
            == base + FileOf(c, level, DataMembers(0, blocks[..k + 1]))
  {
    hide FileOf, Image, DataMembers;
    DataMembersSnoc(0, blocks, k);
    FileOfSnoc(c, level, DataMembers(0, blocks[..k]), DataMember(0, k, blocks[k]));
  }

  // --- The GC backpatch ---

  lemma BegHeaderPatch(zc: u32, gc: u64)
    ensures BegHeader(zc, gc) == BegHeader(zc, 0)[..GC_VALUE_OFFSET] + LeU64(gc)
  {
    hide LeU16, LeU32, LeU64;
    var front := GZIP_BASE + LeU16(20) + Subfield(TAG_ZC, LeU32(zc)) + (TAG_GC + LeU16(8));
    assert BegHeader(zc, 0) == front + LeU64(0);
    assert BegHeader(zc, gc) == front + LeU64(gc);
  }

  /** Only bytes 24..32 of the BEG member depend on the GC value. */
  lemma ImagePatch(c: Codec, level: nat, gc: u64, block: Bytes)
    ensures var i0 := Image(c, level, Data(Some(0), block));
            |i0| >= 32 && Image(c, level, Data(Some(gc), block)) == i0[..24] + LeU64(gc) + i0[32..]
  {
    hide BegHeader, LeU64, Trailer, Body;
    var zc := SizeOf(c, level, Data(Some(gc), block)) % U32;
    BegHeaderPatch(zc, gc);
    var b, t := Body(c, level, Data(Some(gc), block)), Trailer(c, Data(Some(gc), block));
    assert b == Body(c, level, Data(Some(0), block)) && t == Trailer(c, Data(Some(0), block)) by { SameParts(c, level, gc, block); }
    var i0 := Image(c, level, Data(Some(0), block));
    assert i0 == BegHeader(zc, 0) + b + t;
    assert i0[..24] == BegHeader(zc, 0)[..24];
    assert i0[32..] == b + t;
    assert BegHeader(zc, gc) + b + t == BegHeader(zc, gc) + (b + t);
  }

  lemma SameParts(c: Codec, level: nat, gc: u64, block: Bytes)
    ensures Body(c, level, Data(Some(gc), block)) == Body(c, level, Data(Some(0), block))
    ensures Trailer(c, Data(Some(gc), block)) == Trailer(c, Data(Some(0), block))
  {
  }

  lemma PatchBytes(base: Bytes, image: Bytes, rest: Bytes, v: Bytes)
    requires |v| == 8 && |image| >= 32
    ensures WriteAt(base + image + rest, |base| + 24, v) == base + (image[..24] + v + image[32..]) + rest
  {
  }

  /** The group written with GC 0 and then patched is the group with its real size: the eight GC
      bytes change and nothing else does, before the group, in it or after the BEG header. */
  lemma PatchGroup(c: Codec, level: nat, base: Bytes, gc: u64, blocks: seq<Bytes>, tail: seq<Member>)
    requires blocks != []
    ensures |base| + 24 <= |base + FileOf(c, level, DataMembers(0, blocks) + tail)|
    ensures WriteAt(base + FileOf(c, level, DataMembers(0, blocks) + tail), |base| + 24, LeU64(gc))
            == base + FileOf(c, level, DataMembers(gc, blocks) + tail)
  {
    hide FileOf, Image, LeU64, WriteAt;
    var rest := (DataMembers(0, blocks) + tail)[1..];
    var first0, first := Data(Some(0), blocks[0]), Data(Some(gc), blocks[0]);
    assert DataMembers(0, blocks) + tail == [first0] + rest;
    assert DataMembers(gc, blocks) + tail == [first] + rest;
    FileOfConcat(c, level, [first0], rest);
    FileOfConcat(c, level, [first], rest);
    FileOfOne(c, level, first0);
    FileOfOne(c, level, first);
    ImagePatch(c, level, gc, blocks[0]);
    PatchBytes(base, Image(c, level, first0), FileOf(c, level, rest), LeU64(gc));
    SeqAssoc(base, Image(c, level, first0), FileOf(c, level, rest));
    SeqAssoc(base, Image(c, level, first), FileOf(c, level, rest));
  }

  // --- Closing a group ---

  /** A closed group is one more element of the layout. */
  lemma CloseGroup(c: Codec, level: nat, g: nat, flushed: seq<Bytes>, group: seq<Bytes>)
    requires g >= 1 && |flushed| % g == 0 && 1 <= |group| <= g
    ensures var before := Members(c, level, Chunks(g, flushed));
            var after := Members(c, level, Chunks(g, flushed + group));
            after == before + GroupMembers(c, level, group) &&
            FileOf(c, level, after) == FileOf(c, level, before) + FileOf(c, level, GroupMembers(c, level, group))
  {
    hide FileOf, Members, GroupMembers;
    ChunksSnoc(g, flushed, group);
    MembersSnoc(c, level, Chunks(g, flushed), group);
    FileOfConcat(c, level, Members(c, level, Chunks(g, flushed)), GroupMembers(c, level, group));
  }

  /** What the counters gain when a group is closed. */
  lemma GroupListed(c: Codec, level: nat, blocks: seq<Bytes>)
    ensures ListedSize(c, level, GroupMembers(c, level, blocks)) ==
            ListedSize(c, level, DataMembers(0, blocks)) + SizeOf(c, level, Index(EntriesFor(c, level, blocks))) % U32
    ensures ListedData(GroupMembers(c, level, blocks)) == ListedData(DataMembers(0, blocks))
  {
    hide ListedSize, ListedData, SumSizes, SizeOf;
    var es := EntriesFor(c, level, blocks);
    ListedSnoc(c, level, DataMembers(SumSizes(es) % U64, blocks), Index(es));
    ListedIgnoresGc(c, level, SumSizes(es) % U64, blocks);
  }
}
