/** The container as a value: members, groups, and the pure encoder that the writer refines.
    Deflate, inflate and CRC-32 (src/compress.rs) are an uninterpreted codec with a law. */
module Container {
  import opened Prelude
  import opened LittleEndian
  import opened Format

  datatype Codec = Codec(
    deflate: (nat, Bytes) -> Bytes, // compression level, data
    inflate: (Bytes, nat) -> Result<Bytes>, // stream, size of the output buffer
    crc: Bytes -> u32)

  datatype Config = Config(blockSize: nat, groupBlocks: nat, level: nat, batchSize: nat)

  /** Members above 2^30 bytes are rejected by the reader (src/reader.rs:407). */
  const MAX_MEMBER: nat := 0x4000_0000

  /** Inflate undoes deflate on every block the writer may cut, and no member exceeds 2^30 bytes. */
  ghost predicate Lawful(c: Codec, cfg: Config) {
    && 1 <= cfg.blockSize < U32
    && cfg.batchSize >= 1
    && (forall d: Bytes :: |d| <= cfg.blockSize ==>
          c.inflate(c.deflate(cfg.level, d), |d|) == Ok(d) &&
          BEG_HEADER_SIZE + |c.deflate(cfg.level, d)| + PGZF_TAIL_SIZE <= MAX_MEMBER)
    && IDX_HEADER_BASE_SIZE + 8 * MAX_GROUP + |c.deflate(cfg.level, [])| + PGZF_TAIL_SIZE <= MAX_MEMBER
  }

  lemma LawfulSizes(c: Codec, cfg: Config)
    requires Lawful(c, cfg)
    ensures 1 <= cfg.blockSize < U32 && cfg.batchSize >= 1
  {
  }

  /** The law is satisfiable: storing blocks verbatim obeys it. */
  lemma StoringIsLawful(blockSize: nat, groupBlocks: nat, level: nat, batchSize: nat)
    requires 1 <= blockSize <= MAX_MEMBER - 40 && batchSize >= 1
    ensures Lawful(Codec((l, d) => d, (s, n) => Ok(s), d => 0), Config(blockSize, groupBlocks, level, batchSize))
  {
  }

  // --- Members ---

  /** A data member (BEG when it carries the group size, else DAT) or an IDX member. */
  datatype Member = Data(gc: Option<u64>, payload: Bytes) | Index(entries: seq<IndexEntry>)

  function TypeOf(m: Member): BlockType {
    if m.Index? then Idx else if m.gc.Some? then Beg else Dat
  }

  function HeaderSize(m: Member): nat {
    match m
    case Index(entries) => IDX_HEADER_BASE_SIZE + 8 * |entries|
    case Data(gc, _) => if gc.Some? then BEG_HEADER_SIZE else DAT_HEADER_SIZE
  }

  function Body(c: Codec, level: nat, m: Member): Bytes {
    c.deflate(level, if m.Data? then m.payload else [])
  }

  /** Size of the whole member; the ZC field holds it narrowed to 32 bits. */
  function SizeOf(c: Codec, level: nat, m: Member): nat {
    HeaderSize(m) + |Body(c, level, m)| + PGZF_TAIL_SIZE
  }

  function HeaderOf(m: Member, zc: u32): (h: Bytes)
    ensures |h| == HeaderSize(m)
  {
    match m
    case Index(entries) => IdxHeader(zc, entries)
    case Data(gc, _) => if gc.Some? then BegHeader(zc, gc.value) else DatHeader(zc)
  }

  function Trailer(c: Codec, m: Member): (t: Bytes)
    ensures |t| == PGZF_TAIL_SIZE
  {
    if m.Data? then LeU32(c.crc(m.payload)) + LeU32(|m.payload| % U32) else seq(PGZF_TAIL_SIZE, _ => 0)
  }

  function Image(c: Codec, level: nat, m: Member): (s: Bytes)
    ensures |s| == SizeOf(c, level, m)
  {
    HeaderOf(m, SizeOf(c, level, m) % U32) + Body(c, level, m) + Trailer(c, m)
  }

  /** What reading a member back needs: sizes that were not narrowed, and a stream that inflates. */
  predicate Readable(c: Codec, level: nat, m: Member) {
    && SizeOf(c, level, m) <= MAX_MEMBER
    && (m.Index? ==> 1 <= |m.entries| <= MAX_GROUP)
    && (m.Data? ==> 1 <= |m.payload| < U32 && c.inflate(Body(c, level, m), |m.payload|) == Ok(m.payload))
  }

  lemma ReadableSizes(c: Codec, level: nat, m: Member)
    requires Readable(c, level, m)
    ensures SizeOf(c, level, m) % U32 == SizeOf(c, level, m)
    ensures m.Data? ==> 1 <= |m.payload| && |m.payload| % U32 == |m.payload|
  {
  }

  // --- Sequences of members ---

  function Images(c: Codec, level: nat, ms: seq<Member>): (s: seq<Bytes>)
    ensures |s| == |ms|
    ensures forall k :: 0 <= k < |ms| ==> s[k] == Image(c, level, ms[k])
  {
    seq(|ms|, k requires 0 <= k < |ms| => Image(c, level, ms[k]))
  }

  function FileOf(c: Codec, level: nat, ms: seq<Member>): Bytes {
    Flat(Images(c, level, ms))
  }

  /** The uncompressed blocks, in file order. */
  function Blocks(ms: seq<Member>): (bs: seq<Bytes>)
    ensures |bs| <= |ms|
  {
    if ms == [] then []
    else
      var n := |ms| - 1;
      Blocks(ms[..n]) + if ms[n].Data? then [ms[n].payload] else []
  }

  /** Number of data members before member k. */
  function Count(ms: seq<Member>, k: nat): nat
    requires k <= |ms|
  {
    |Blocks(ms[..k])|
  }

  lemma FileOfConcat(c: Codec, level: nat, a: seq<Member>, b: seq<Member>)
    ensures FileOf(c, level, a + b) == FileOf(c, level, a) + FileOf(c, level, b)
  {
    hide Image;
    assert Images(c, level, a + b) == Images(c, level, a) + Images(c, level, b);
    FlatConcat(Images(c, level, a), Images(c, level, b));
  }

  lemma FileOfOne(c: Codec, level: nat, m: Member)
    ensures FileOf(c, level, [m]) == Image(c, level, m)
    ensures FileOf(c, level, []) == []
  {
    hide Image;
    assert Images(c, level, [m]) == [Image(c, level, m)];
    FlatCons(Image(c, level, m), []);
    assert [Image(c, level, m)] + [] == [Image(c, level, m)];
  }

  lemma FileOfSnoc(c: Codec, level: nat, a: seq<Member>, m: Member)
    ensures FileOf(c, level, a + [m]) == FileOf(c, level, a) + Image(c, level, m)
  {
    hide FileOf;
    FileOfConcat(c, level, a, [m]);
    FileOfOne(c, level, m);
  }

  lemma BlocksSnoc(ms: seq<Member>, m: Member)
    ensures Blocks(ms + [m]) == Blocks(ms) + if m.Data? then [m.payload] else []
  {
    assert (ms + [m])[..|ms|] == ms;
  }

  lemma {:induction false} BlocksConcat(a: seq<Member>, b: seq<Member>)
    ensures Blocks(a + b) == Blocks(a) + Blocks(b)
  {
    if b == [] {
      assert a + b == a;
    } else {
      var n := |b| - 1;
      assert (a + b)[..|a| + n] == a + b[..n];
      BlocksConcat(a, b[..n]);
    }
  }

  /** Data member k holds block number `Count(ms, k)`. */
  lemma BlockOfMember(ms: seq<Member>, k: nat)
    requires k < |ms|
    ensures Count(ms, k + 1) == Count(ms, k) + if ms[k].Data? then 1 else 0
    ensures Count(ms, k + 1) <= |Blocks(ms)|
    ensures ms[k].Data? ==> Blocks(ms)[Count(ms, k)] == ms[k].payload
  {
    assert ms[..k + 1][..k] == ms[..k];
    assert ms == ms[..k + 1] + ms[k + 1..];
    BlocksConcat(ms[..k + 1], ms[k + 1..]);
  }

  /** Every block is held by some member. */
  lemma {:induction false} MemberOfBlock(ms: seq<Member>, i: nat) returns (k: nat)
    requires i < |Blocks(ms)|
    ensures k < |ms| && ms[k].Data? && Count(ms, k) == i
  {
    var n := |ms| - 1;
    var init := ms[..n];
    if i < |Blocks(init)| {
      k := MemberOfBlock(init, i);
      assert init[..k] == ms[..k];
    } else {
      k := n;
    }
  }

  lemma {:induction false} CountMonotone(ms: seq<Member>, j: nat, k: nat)
    requires j <= k <= |ms|
    ensures Count(ms, j) <= Count(ms, k)
    ensures j < k && ms[j].Data? ==> Count(ms, j) < Count(ms, k)
    decreases k
  {
    hide Count;
    if j < k {
      BlockOfMember(ms, k - 1);
      CountMonotone(ms, j, k - 1);
    }
  }

  /** Members have at least twenty bytes each. */
  lemma {:induction false} BlocksBelow(c: Codec, level: nat, ms: seq<Member>)
    ensures 20 * |Blocks(ms)| <= |FileOf(c, level, ms)|
  {
    if ms != [] {
      hide FileOf, Image, Blocks;
      var n := |ms| - 1;
      assert ms == ms[..n] + [ms[n]];
      BlocksBelow(c, level, ms[..n]);
      BlocksSnoc(ms[..n], ms[n]);
      FileOfSnoc(c, level, ms[..n], ms[n]);
    }
  }

  lemma CountAll(ms: seq<Member>)
    ensures Count(ms, |ms|) == |Blocks(ms)| && Count(ms, 0) == 0
  {
    assert ms[..|ms|] == ms;
  }

  // --- Groups ---

  /** Member i of a group, for the given group size. */
  function DataMember(gc: u64, i: nat, block: Bytes): Member {
    Data(if i == 0 then Some(gc) else None, block)
  }

  function DataMembers(gc: u64, blocks: seq<Bytes>): (ms: seq<Member>)
    ensures |ms| == |blocks|
  {
    seq(|blocks|, i requires 0 <= i < |blocks| => DataMember(gc, i, blocks[i]))
  }

  function EntryFor(c: Codec, level: nat, i: nat, block: Bytes): IndexEntry {
    IndexEntry(SizeOf(c, level, DataMember(0, i, block)) % U32, |block| % U32)
  }

  function EntriesFor(c: Codec, level: nat, blocks: seq<Bytes>): (es: seq<IndexEntry>)
    ensures |es| == |blocks|
  {
    seq(|blocks|, i requires 0 <= i < |blocks| => EntryFor(c, level, i, blocks[i]))
  }

  /** Sum of the (32-bit) member sizes listed in an IDX, as the backpatch computes it. */
  function SumSizes(es: seq<IndexEntry>): nat {
    if es == [] then 0 else SumSizes(es[..|es| - 1]) + es[|es| - 1].compressedSize
  }

  function GroupMembers(c: Codec, level: nat, blocks: seq<Bytes>): (ms: seq<Member>)
    ensures |ms| == |blocks| + 1
  {
    var es := EntriesFor(c, level, blocks);
    DataMembers(SumSizes(es) % U64, blocks) + [Index(es)]
  }

  function GroupsMembers(c: Codec, level: nat, groups: seq<seq<Bytes>>): (gs: seq<seq<Member>>)
    ensures |gs| == |groups|
    ensures forall j :: 0 <= j < |groups| ==> gs[j] == GroupMembers(c, level, groups[j])
  {
    seq(|groups|, j requires 0 <= j < |groups| => GroupMembers(c, level, groups[j]))
  }

  function Members(c: Codec, level: nat, groups: seq<seq<Bytes>>): seq<Member> {
    Flat(GroupsMembers(c, level, groups))
  }

  function GroupLimit(cfg: Config): (g: nat)
    ensures g >= 1
  {
    Max(cfg.groupBlocks, 1)
  }

  /** Blocks gathered into groups: `group_blocks` each, but at least one (src/writer.rs:96). */
  function Grouped(cfg: Config, blocks: seq<Bytes>): seq<seq<Bytes>> {
    Chunks(GroupLimit(cfg), blocks)
  }

  function Layout(c: Codec, cfg: Config, data: Bytes): seq<Member>
    requires cfg.blockSize >= 1
  {
    Members(c, cfg.level, Grouped(cfg, Chunks(cfg.blockSize, data)))
  }

  /** The whole file for `data`: it mentions neither the write calls nor the batch size. */
  function Encode(c: Codec, cfg: Config, data: Bytes): Bytes
    requires cfg.blockSize >= 1
  {
    FileOf(c, cfg.level, Layout(c, cfg, data))
  }

  lemma MembersSnoc(c: Codec, level: nat, groups: seq<seq<Bytes>>, group: seq<Bytes>)
    ensures Members(c, level, groups + [group]) == Members(c, level, groups) + GroupMembers(c, level, group)
  {
    hide GroupMembers;
    assert GroupsMembers(c, level, groups + [group]) == GroupsMembers(c, level, groups) + [GroupMembers(c, level, group)];
    FlatSnoc(GroupsMembers(c, level, groups), GroupMembers(c, level, group));
  }

  lemma MembersNone(c: Codec, level: nat)
    ensures Members(c, level, []) == [] && FileOf(c, level, []) == []
  {
  }

  lemma {:induction false} DataMembersBlocks(gc: u64, blocks: seq<Bytes>)
    ensures Blocks(DataMembers(gc, blocks)) == blocks
  {
    if blocks != [] {
      var n := |blocks| - 1;
      DataMembersBlocks(gc, blocks[..n]);
      assert DataMembers(gc, blocks)[..n] == DataMembers(gc, blocks[..n]);
      assert blocks == blocks[..n] + [blocks[n]];
    }
  }

  lemma GroupBlocks(c: Codec, level: nat, blocks: seq<Bytes>)
    ensures Blocks(GroupMembers(c, level, blocks)) == blocks
  {
    var ms := GroupMembers(c, level, blocks);
    var n := |blocks|;
    assert ms[..n] == DataMembers(SumSizes(EntriesFor(c, level, blocks)) % U64, blocks);
    DataMembersBlocks(SumSizes(EntriesFor(c, level, blocks)) % U64, blocks);
    assert ms[n].Index?;
  }

  lemma {:induction false} MembersBlocks(c: Codec, level: nat, groups: seq<seq<Bytes>>)
    ensures Blocks(Members(c, level, groups)) == Flat(groups)
  {
    if groups != [] {
      hide Members, GroupMembers, Blocks, Flat;
      var n := |groups| - 1;
      var init, last := groups[..n], groups[n];
      assert groups == init + [last];
      MembersBlocks(c, level, init);
      MembersSnoc(c, level, init, last);
      BlocksConcat(Members(c, level, init), GroupMembers(c, level, last));
      GroupBlocks(c, level, last);
      FlatSnoc(init, last);
    }
  }

  /** Decoding the layout gives back exactly the chunks of the data, hence the data. */
  lemma LayoutBlocks(c: Codec, cfg: Config, data: Bytes)
    requires cfg.blockSize >= 1
    ensures Blocks(Layout(c, cfg, data)) == Chunks(cfg.blockSize, data)
    ensures Flat(Blocks(Layout(c, cfg, data))) == data
  {
    hide Members, Blocks, Chunks;
    MembersBlocks(c, cfg.level, Grouped(cfg, Chunks(cfg.blockSize, data)));
  }

  // --- Readability of encoder output ---

  ghost predicate AllReadable(c: Codec, level: nat, ms: seq<Member>) {
    forall k :: 0 <= k < |ms| ==> Readable(c, level, ms[k])
  }

  predicate FitsConfig(cfg: Config, block: Bytes) {
    1 <= |block| <= cfg.blockSize
  }

  ghost predicate AllFit(cfg: Config, blocks: seq<Bytes>) {
    forall i :: 0 <= i < |blocks| ==> FitsConfig(cfg, blocks[i])
  }

  ghost predicate GoodGroup(cfg: Config, group: seq<Bytes>) {
    1 <= |group| <= MAX_GROUP && AllFit(cfg, group)
  }

  lemma GroupReadable(c: Codec, cfg: Config, blocks: seq<Bytes>)
    requires Lawful(c, cfg) && GoodGroup(cfg, blocks)
    ensures AllReadable(c, cfg.level, GroupMembers(c, cfg.level, blocks))
  {
    hide SumSizes;
    var ms := GroupMembers(c, cfg.level, blocks);
    forall k | 0 <= k < |ms|
      ensures Readable(c, cfg.level, ms[k])
    {
      if k < |blocks| {
        assert FitsConfig(cfg, blocks[k]) && ms[k].payload == blocks[k];
      }
    }
  }

  lemma {:induction false} MembersReadable(c: Codec, cfg: Config, groups: seq<seq<Bytes>>)
    requires Lawful(c, cfg)
    requires forall j :: 0 <= j < |groups| ==> GoodGroup(cfg, groups[j])
    ensures AllReadable(c, cfg.level, Members(c, cfg.level, groups))
  {
    hide Members, GroupMembers, Readable, Lawful, GoodGroup;
    if groups == [] {
      MembersNone(c, cfg.level);
    } else {
      var n := |groups| - 1;
      assert groups == groups[..n] + [groups[n]];
      MembersReadable(c, cfg, groups[..n]);
      MembersSnoc(c, cfg.level, groups[..n], groups[n]);
      GroupReadable(c, cfg, groups[n]);
    }
  }

  /** No group of the output exceeds what an IDX can list. A caller can compute this beforehand. */
  predicate GroupsFit(cfg: Config, data: Bytes)
    requires cfg.blockSize >= 1
  {
    Min(GroupLimit(cfg), (|data| + cfg.blockSize - 1) / cfg.blockSize) <= MAX_GROUP
  }

  /** What a file with an index can be: groups that an IDX can list, and data and file below 2^64 bytes,
      where positions and totals still fit their 64 bits. */
  predicate Indexable(c: Codec, cfg: Config, data: Bytes)
    requires cfg.blockSize >= 1
  {
    GroupsFit(cfg, data) && Below64(c, cfg, data)
  }

  predicate Below64(c: Codec, cfg: Config, data: Bytes)
    requires cfg.blockSize >= 1
  {
    |data| < U64 && |Encode(c, cfg, data)| < U64
  }

  lemma PieceOfFlat<T>(pieces: seq<seq<T>>, j: nat, i: nat) returns (k: nat)
    requires j < |pieces| && i < |pieces[j]|
    ensures k < |Flat(pieces)| && Flat(pieces)[k] == pieces[j][i]
  {
    FlatSplit(pieces, j);
    k := |Flat(pieces[..j])| + i;
  }

  lemma GroupSizes(cfg: Config, data: Bytes)
    requires cfg.blockSize >= 1
    ensures var groups := Grouped(cfg, Chunks(cfg.blockSize, data));
            (forall j :: 0 <= j < |groups| ==> 1 <= |groups[j]|) &&
            (GroupsFit(cfg, data) <==> forall j :: 0 <= j < |groups| ==> |groups[j]| <= MAX_GROUP)
  {
    var blocks := Chunks(cfg.blockSize, data);
    var groups := Grouped(cfg, blocks);
    ChunksCount(cfg.blockSize, data);
    hide Chunks;
    if blocks != [] {
      FirstChunk(GroupLimit(cfg), blocks);
      assert |groups[0]| == Min(GroupLimit(cfg), |blocks|);
    }
    if Min(GroupLimit(cfg), |blocks|) <= MAX_GROUP {
      forall j | 0 <= j < |groups|
        ensures |groups[j]| <= Min(GroupLimit(cfg), |blocks|)
      {
        FlatSplit(groups, j);
      }
    }
  }

  lemma FirstChunk<T>(n: nat, s: seq<T>)
    requires n >= 1 && s != []
    ensures Chunks(n, s) != [] && |Chunks(n, s)[0]| == Min(n, |s|)
  {
  }

  lemma GroupedBlocksFit(cfg: Config, groups: seq<seq<Bytes>>, j: nat)
    requires AllFit(cfg, Flat(groups)) && j < |groups|
    ensures AllFit(cfg, groups[j])
  {
    hide FitsConfig, Flat;
    forall i | 0 <= i < |groups[j]|
      ensures FitsConfig(cfg, groups[j][i])
    {
      var k := PieceOfFlat(groups, j, i);
    }
  }

  lemma GroupsGood(cfg: Config, data: Bytes, groups: seq<seq<Bytes>>)
    requires cfg.blockSize >= 1 && GroupsFit(cfg, data)
    requires groups == Grouped(cfg, Chunks(cfg.blockSize, data))
    ensures forall j :: 0 <= j < |groups| ==> GoodGroup(cfg, groups[j])
  {
    GroupSizes(cfg, data);
    assert AllFit(cfg, Flat(groups));
    assert forall j :: 0 <= j < |groups| ==> 1 <= |groups[j]| <= MAX_GROUP;
    hide Flat, Chunks, AllFit, GroupsFit, Grouped;
    forall j | 0 <= j < |groups|
      ensures GoodGroup(cfg, groups[j])
    {
      GroupedBlocksFit(cfg, groups, j);
      assert 1 <= |groups[j]| <= MAX_GROUP;
      assert AllFit(cfg, groups[j]);
    }
  }

  lemma LayoutReadable(c: Codec, cfg: Config, data: Bytes)
    requires Lawful(c, cfg) && GroupsFit(cfg, data)
    ensures AllReadable(c, cfg.level, Layout(c, cfg, data))
  {
    hide Members, Lawful, GroupsFit, GoodGroup, AllReadable;
    LawfulSizes(c, cfg);
    var groups := Grouped(cfg, Chunks(cfg.blockSize, data));
    GroupsGood(cfg, data, groups);
    MembersReadable(c, cfg, groups);
  }
}
