/** `PgzfIndex` (src/index.rs): the build loop over a file, the two seek queries, and the theorem
    that the index built from encoder output is the true one exactly when every group fits. */
module Index {
  import opened Prelude
  import opened LittleEndian
  import opened Format
  import opened ExtraField
  import opened Container
  import opened FileStream
  import opened IndexSpec

  /** One turn of the build loop, moving the file position as the code does. */
  method ReadGroup(reader: Stream) returns (r: GroupRead)
    modifies reader
    ensures reader.data == old(reader.data) && r == GroupAt(old(reader.data), old(reader.pos))
  {
    hide ValidateGzipHeader, ReadU16, ReadU32, ReadU64, EntriesOf, IdxFrom;
    ghost var file, pos := reader.data, reader.pos;
    var groupStart := reader.pos;
    var begBuf := reader.ReadExact(BEG_HEADER_SIZE);
    if begBuf.None? { return Finished; }
    var v := ValidateGzipHeader(begBuf.value);
    if v.Err? { return Bad(v.error); }
    if !IsPgzfMember(v.value.0, v.value.1) { return Bad(InvalidFormat); }
    var gc := ReadU64(begBuf.value[GC_VALUE_OFFSET..GC_VALUE_OFFSET + 8]);
    Window(file, pos, BEG_HEADER_SIZE, 24, 8);
    SameReads(file[pos + 24..], begBuf.value[24..32]);
    if gc == 0 { return Finished; }
    if groupStart + gc >= U64 { return Bad(Panic); }
    reader.SeekTo(groupStart + gc);
    r := ReadIdx(reader, pos, gc);
  }

  /** The IDX member of the group at `pos`, `gc` bytes on. */
  method ReadIdx(reader: Stream, ghost pos: nat, gc: u64) returns (r: GroupRead)
    requires reader.pos == pos + gc
    modifies reader
    ensures reader.data == old(reader.data) && r == IdxFrom(old(reader.data), pos + gc, gc)
  {
    hide ValidateGzipHeader, ReadU16, ReadU32, EntriesOf;
    ghost var file := reader.data;
    var idxFixed := reader.ReadExact(IDX_HEADER_BASE_SIZE);
    if idxFixed.None? { return Bad(UnexpectedEof); }
    var w := ValidateGzipHeader(idxFixed.value);
    if w.Err? { return Bad(w.error); }
    if w.value.1 != PGZF_XFL_MARKER { return Bad(InvalidFormat); }
    var idxXlen: nat := ReadU16(idxFixed.value[10..12]);
    PrefixWindow(idxFixed.value, 12, 10, 2);
    SameReads(idxFixed.value[10..], idxFixed.value[10..12]);
    if idxXlen < 8 + 4 { return Bad(InvalidFormat); }
    var ixDataSize := idxXlen - (8 + 4);
    var numEntries := ixDataSize / 8;
    var ixData := reader.ReadExact(ixDataSize);
    if ixData.None? { return Bad(UnexpectedEof); }
    var idxZc := ReadU32(idxFixed.value[ZC_VALUE_OFFSET..ZC_VALUE_OFFSET + 4]);
    PrefixWindow(idxFixed.value, 20, 16, 4);
    SameReads(idxFixed.value[16..], idxFixed.value[16..20]);
    assert ixData.value[..8 * numEntries] == file[pos + gc + 24..pos + gc + 24 + 8 * numEntries];
    r := Group(gc, idxZc, EntriesOf(ixData.value[..8 * numEntries]));
  }

  /** Appends the entries of one group to the vectors. */
  method PushEntries(a: Acc, entries: seq<IndexEntry>) returns (b: Acc)
    ensures b == AddEntries(a, entries)
  {
    var blocks := a.blocks;
    var co: seq<nat>, uo: seq<nat> := a.co, a.uo;
    var cumC: nat, cumU: nat := a.cumC, a.cumU;
    for i := 0 to |entries|
      invariant Acc(blocks, co, uo, a.groupCount, cumC, cumU) == AddEntries(a, entries[..i])
    {
      assert entries[..i + 1][..i] == entries[..i];
      var e := entries[i];
      co := co + [cumC];
      uo := uo + [cumU];
      blocks := blocks + [BlockMeta(a.groupCount % U32, i % U32, e.compressedSize, e.uncompressedSize)];
      cumC := cumC + e.compressedSize;
      cumU := cumU + e.uncompressedSize;
    }
    assert entries[..|entries|] == entries;
    b := Acc(blocks, co, uo, a.groupCount, cumC, cumU);
  }

  /** `PgzfIndex::build` with checked sums. It ends on every byte string: each group starts strictly
      after the last, or a sum panics. */
  method Build(reader: Stream) returns (r: Result<PgzfIndex>)
    modifies reader
    ensures reader.data == old(reader.data)
    ensures r == Scan(reader.data, 0, EMPTY)
    ensures r.Ok? ==> WellFormed(r.value) && Totals64(r.value)
  {
    hide GroupAt, AddEntries, AddIdx, WellFormed, AccWellFormed, Totals64;
    ghost var file := reader.data;
    EmptyWellFormed();
    ScanWellFormed(file, 0, EMPTY);
    var a := EMPTY;
    reader.SeekTo(0);
    while true
      invariant reader.data == file
      invariant Scan(file, 0, EMPTY) == Scan(file, reader.pos, a)
      decreases Max(|file| + 1 - reader.pos, 0)
    {
      var groupStart := reader.pos;
      GroupAdvances(file, groupStart);
      var g := ReadGroup(reader);
      match g
      case Finished => return Ok(Seal(a));
      case Bad(error) => return Err(error);
      case Group(gc, idxZc, entries) =>
        var b := PushEntries(a, entries);
        a := AddIdx(b, idxZc);
        if groupStart + gc + idxZc >= U64 || a.cumC >= U64 || a.cumU >= U64 { return Err(Panic); }
        reader.SeekTo(groupStart + gc + idxZc);
    }
  }

  lemma EmptyWellFormed()
    ensures AccWellFormed(EMPTY)
  {
  }

  // --- Queries ---

  function BlockCount(idx: PgzfIndex): nat { |idx.blocks| }

  function TotalUncompressed(idx: PgzfIndex): nat {
    if idx.uncompressedOffsets == [] then 0 else idx.uncompressedOffsets[|idx.uncompressedOffsets| - 1]
  }

  function TotalCompressed(idx: PgzfIndex): nat {
    if idx.compressedOffsets == [] then 0 else idx.compressedOffsets[|idx.compressedOffsets| - 1]
  }

  /** The standard library's binary search on a non-decreasing slice: a hit, or the insertion point. */
  method BinarySearch(v: seq<nat>, x: nat) returns (found: bool, at: nat)
    requires forall i, j :: 0 <= i <= j < |v| ==> v[i] <= v[j]
    ensures found ==> at < |v| && v[at] == x
    ensures !found ==> at <= |v| && (forall i :: 0 <= i < at ==> v[i] < x) && (forall i :: at <= i < |v| ==> v[i] > x)
  {
    var lo, hi := 0, |v|;
    while lo < hi
      invariant lo <= hi <= |v|
      invariant forall i :: 0 <= i < lo ==> v[i] < x
      invariant forall i :: hi <= i < |v| ==> v[i] > x
    {
      var mid := (lo + hi) / 2;
      if v[mid] == x {
        return true, mid;
      } else if v[mid] < x {
        lo := mid + 1;
      } else {
        hi := mid;
      }
    }
    return false, lo;
  }

  /** `seek_byte` inverts the offset array: the returned block and skip add up to the target. */
  method SeekByte(idx: PgzfIndex, offset: nat) returns (r: Result<(nat, nat)>)
    requires WellFormed(idx)
    ensures r.Ok? <==> offset <= TotalUncompressed(idx)
    ensures r.Err? ==> r.error == SeekBeyondEnd
    ensures r.Ok? ==> r.value.0 <= |idx.blocks| && idx.uncompressedOffsets[r.value.0] + r.value.1 == offset
    ensures r.Ok? && r.value.1 > 0 ==> r.value.0 < |idx.blocks| && offset < idx.uncompressedOffsets[r.value.0 + 1]
  {
    if offset > TotalUncompressed(idx) { return Err(SeekBeyondEnd); }
    forall i, j | 0 <= i <= j < |idx.uncompressedOffsets|
      ensures idx.uncompressedOffsets[i] <= idx.uncompressedOffsets[j]
    {
      WellFormedMonotone(idx, i, j);
    }
    var found, at := BinarySearch(idx.uncompressedOffsets, offset);
    var blockIdx := if found then at else if at > 0 then at - 1 else 0;
    var skip := Max(offset - idx.uncompressedOffsets[blockIdx], 0);
    r := Ok((blockIdx, skip));
  }

  /** `seek_block`: negative indices count from the end. */
  function SeekBlock(idx: PgzfIndex, index: int): (r: Result<nat>)
    requires WellFormed(idx)
    ensures r.Ok? <==> -|idx.blocks| <= index < |idx.blocks|
    ensures r.Ok? ==> r.value == idx.compressedOffsets[if index < 0 then |idx.blocks| + index else index]
    ensures r.Err? ==> r.error == SeekBeyondEnd
  {
    if index < 0 && -index > |idx.blocks| then Err(SeekBeyondEnd)
    else
      var actual := if index < 0 then |idx.blocks| - -index else index;
      if actual >= |idx.blocks| then Err(SeekBeyondEnd) else Ok(idx.compressedOffsets[actual])
  }

  // --- The index of encoder output ---

  /** The true index of `data`: every offset, size and numbering as the layout has it. */
  ghost predicate TrueIndex(c: Codec, cfg: Config, data: Bytes, idx: PgzfIndex)
    requires cfg.blockSize >= 1
  {
    var ms := Layout(c, cfg, data);
    && Agrees(c, cfg.level, ms, idx)
    && Numbered(GroupLimit(cfg), idx.blocks)
  }

  /** The index agrees with encoder output exactly when no group holds more than 8190 blocks and data
      and file stay below 2^64 bytes: beyond 8190 the 16-bit XLEN of the IDX wraps. OversizedGroups.dfy
      says which entries are then lost. */
  lemma BuildAgreesIff(c: Codec, cfg: Config, data: Bytes)
    requires Lawful(c, cfg)
    ensures Indexable(c, cfg, data) <==>
              Scan(Encode(c, cfg, data), 0, EMPTY).Ok? && TrueIndex(c, cfg, data, Scan(Encode(c, cfg, data), 0, EMPTY).value)
  {
    hide Lawful, GroupsFit, Layout, TrueIndex, Encode, Totals64, Scan;
    LawfulSizes(c, cfg);
    var r := Scan(Encode(c, cfg, data), 0, EMPTY);
    if Indexable(c, cfg, data) {
      ScanEncoded(c, cfg, data);
    } else if r.Ok? && TrueIndex(c, cfg, data, r.value) {
      EmptyWellFormed();
      ScanWellFormed(Encode(c, cfg, data), 0, EMPTY);
      TrueIndexFits(c, cfg, data, r.value);
      OversizeNeverTrue(c, cfg, data, r.value);
      WellFormedBound(r.value, MAX_GROUP);
      assert false;
    }
  }

  /** A true index whose totals fit 64 bits belongs to data and a file that do. */
  lemma TrueIndexFits(c: Codec, cfg: Config, data: Bytes, idx: PgzfIndex)
    requires cfg.blockSize >= 1 && TrueIndex(c, cfg, data, idx) && Totals64(idx)
    ensures Below64(c, cfg, data)
  {
    hide TrueIndex, Encode;
    TrueIndexNumbers(c, cfg, data, idx);
  }

  lemma WellFormedBound(idx: PgzfIndex, i: nat)
    requires WellFormed(idx)
    ensures i < |idx.blocks| ==> idx.blocks[i].blockInGroup < MAX_GROUP
  {
  }

  /** A group of more than 8190 blocks has a block numbered 8190, which no IDX can list. */
  lemma OversizeNeverTrue(c: Codec, cfg: Config, data: Bytes, idx: PgzfIndex)
    requires cfg.blockSize >= 1 && !GroupsFit(cfg, data) && TrueIndex(c, cfg, data, idx)
    ensures MAX_GROUP < |idx.blocks| && idx.blocks[MAX_GROUP].blockInGroup == MAX_GROUP
  {
    hide SoFar, Layout;
    var ms := Layout(c, cfg, data);
    LayoutBlocks(c, cfg, data);
    ChunksCount(cfg.blockSize, data);
    var a :| SoFar(c, cfg.level, ms, a) && idx == Seal(a);
    SoFarSizes(c, cfg.level, ms, a);
    SmallMod(MAX_GROUP, GroupLimit(cfg));
    assert idx.blocks[MAX_GROUP].blockInGroup == MAX_GROUP % GroupLimit(cfg) % U32;
  }

  lemma SoFarSizes(c: Codec, level: nat, ms: seq<Member>, a: Acc)
    requires SoFar(c, level, ms, a)
    ensures |a.blocks| == |Blocks(ms)|
  {
  }

  lemma ScanEncoded(c: Codec, cfg: Config, data: Bytes)
    requires Lawful(c, cfg) && Indexable(c, cfg, data)
    ensures Scan(Encode(c, cfg, data), 0, EMPTY).Ok?
    ensures TrueIndex(c, cfg, data, Scan(Encode(c, cfg, data), 0, EMPTY).value)
  {
    hide Lawful, GroupsFit, Members, FileOf, SoFar, Scan, Chunks, Agrees, Numbered;
    LawfulSizes(c, cfg);
    var groups := Grouped(cfg, Chunks(cfg.blockSize, data));
    GroupsGood(cfg, data, groups);
    GroupsScannable(c, cfg, groups);
    assert groups[..0] == [];
    MembersNone(c, cfg.level);
    NothingScanned(c, cfg.level, GroupLimit(cfg));
    assert Flat(Flat(groups)) == data && |FileOf(c, cfg.level, Members(c, cfg.level, groups))| < U64;
    ScanGroups(c, cfg.level, GroupLimit(cfg), groups, 0, EMPTY);
  }

  lemma NothingScanned(c: Codec, level: nat, g: nat)
    requires g >= 1
    ensures SoFar(c, level, [], EMPTY) && Numbered(g, EMPTY.blocks)
  {
  }

  lemma GroupsScannable(c: Codec, cfg: Config, groups: seq<seq<Bytes>>)
    requires Lawful(c, cfg)
    requires forall j :: 0 <= j < |groups| ==> GoodGroup(cfg, groups[j])
    ensures forall i :: 0 <= i < |groups| ==> Scannable(c, cfg.level, groups[i])
  {
    hide Lawful, AllReadable, AllFit;
    forall i | 0 <= i < |groups|
      ensures Scannable(c, cfg.level, groups[i])
    {
      GroupReadable(c, cfg, groups[i]);
    }
  }

  lemma {:induction false} MembersLength(c: Codec, level: nat, groups: seq<seq<Bytes>>)
    ensures |Members(c, level, groups)| == |Flat(groups)| + |groups|
  {
    if groups != [] {
      hide Members, Flat, GroupMembers;
      var n := |groups| - 1;
      assert groups == groups[..n] + [groups[n]];
      MembersLength(c, level, groups[..n]);
      MembersSnoc(c, level, groups[..n], groups[n]);
      FlatSnoc(groups[..n], groups[n]);
    }
  }

  /** What a true index says in plain numbers: one entry per block, exact file offsets, block i at
      byte i * block_size of the data, the two totals, and the number of groups. */
  lemma TrueIndexNumbers(c: Codec, cfg: Config, data: Bytes, idx: PgzfIndex)
    requires cfg.blockSize >= 1 && TrueIndex(c, cfg, data, idx)
    ensures BlockCount(idx) == (|data| + cfg.blockSize - 1) / cfg.blockSize
    ensures |idx.compressedOffsets| == |idx.uncompressedOffsets| == BlockCount(idx) + 1
    ensures forall i :: 0 <= i <= BlockCount(idx) ==> idx.uncompressedOffsets[i] == Min(i * cfg.blockSize, |data|)
    ensures TotalUncompressed(idx) == |data| && TotalCompressed(idx) == |Encode(c, cfg, data)|
    ensures idx.groupCount == (BlockCount(idx) + GroupLimit(cfg) - 1) / GroupLimit(cfg)
    ensures var ms := Layout(c, cfg, data);
            forall k :: 0 <= k < |ms| && ms[k].Data? ==>
              Count(ms, k) < BlockCount(idx) && idx.compressedOffsets[Count(ms, k)] == Start(c, cfg.level, ms, k)
  {
    hide SoFar, Layout, Chunks, Flat, Blocks, Start, Count, Numbered, FileOf;
    var ms := Layout(c, cfg, data);
    var blocks := Chunks(cfg.blockSize, data);
    LayoutBlocks(c, cfg, data);
    ChunksCount(cfg.blockSize, data);
    var a :| SoFar(c, cfg.level, ms, a) && idx == Seal(a);
    SealFacts(c, cfg.level, ms, a);
    forall i | 0 <= i <= |blocks|
      ensures idx.uncompressedOffsets[i] == Min(i * cfg.blockSize, |data|)
    {
      ChunksOffset(cfg.blockSize, data, i);
    }
    LayoutLength(c, cfg, data);
  }

  lemma LayoutLength(c: Codec, cfg: Config, data: Bytes)
    requires cfg.blockSize >= 1
    ensures var b := |Chunks(cfg.blockSize, data)|;
            |Layout(c, cfg, data)| == b + (b + GroupLimit(cfg) - 1) / GroupLimit(cfg)
  {
    hide Members;
    var blocks := Chunks(cfg.blockSize, data);
    MembersLength(c, cfg.level, Grouped(cfg, blocks));
    ChunksCount(GroupLimit(cfg), blocks);
  }

  lemma SealFacts(c: Codec, level: nat, ms: seq<Member>, a: Acc)
    requires SoFar(c, level, ms, a)
    ensures var idx := Seal(a); var n := |Blocks(ms)|;
            && |idx.blocks| == n && |idx.compressedOffsets| == |idx.uncompressedOffsets| == n + 1
            && idx.groupCount == |ms| - n
            && idx.compressedOffsets[n] == |FileOf(c, level, ms)|
            && (forall i :: 0 <= i <= n ==> idx.uncompressedOffsets[i] == Offset(Blocks(ms), i))
            && (forall k :: 0 <= k < |ms| && ms[k].Data? ==>
                  Count(ms, k) < n && idx.compressedOffsets[Count(ms, k)] == Start(c, level, ms, k))
  {
    hide FileOf, Flat;
    FlatAll(Blocks(ms));
    forall k | 0 <= k < |ms| && ms[k].Data?
      ensures Count(ms, k) < |Blocks(ms)| && Seal(a).compressedOffsets[Count(ms, k)] == Start(c, level, ms, k)
    {
      assert EntryAgrees(c, level, ms, k, a.co, a.blocks);
    }
  }
}
