/** Files that were cut off: what `PgzfIndex::build` (src/index.rs:26-121), the raw reader and the simple
    decoder make of every proper prefix of encoder output. */
module Truncation {
  import opened Prelude
  import opened LittleEndian
  import opened Format
  import opened ExtraField
  import opened Container
  import opened RawMember
  import opened IndexSpec
  import opened Index
  import opened OversizedGroups

  // --- One group, cut anywhere, in any file ---

  /** What a turn of the loop reads of a prefix that still has the fixed part of the BEG header. */
  lemma SameHeader(full: Bytes, n: nat, pos: nat)
    requires pos + 32 <= n <= |full|
    ensures full[..n][pos..pos + 32] == full[pos..pos + 32]
    ensures ReadU64(full[..n][pos + 24..]) == ReadU64(full[pos + 24..])
  {
    PrefixWindow(full, n, pos + 24, 8);
    SameReads(full[..n][pos + 24..], full[pos + 24..]);
    assert full[..n][pos..pos + 32] == full[pos..pos + 32];
  }

  /** A group that can be read can no longer be read when its IDX is cut off: less than 32 bytes of it
      end the file quietly, anything from there up to the end of the IDX data is an error. */
  lemma CutGroup(full: Bytes, n: nat, pos: nat)
    requires GroupAt(full, pos).Group? && pos <= n <= |full|
    ensures var g := GroupAt(full, pos); var p := pos + g.gc;
            && p + 24 <= |full|
            && (n < pos + 32 ==> GroupAt(full[..n], pos) == Finished)
            && (pos + 32 <= n < p + 12 + ReadU16(full[p + 10..]) ==> GroupAt(full[..n], pos) == Bad(UnexpectedEof))
            && (pos + 32 <= n && p + 12 + ReadU16(full[p + 10..]) <= n ==> GroupAt(full[..n], pos) == g)
  {
    hide ValidateGzipHeader, ReadU16, ReadU32, ReadU64, EntriesOf, IdxFrom;
    var gc := GroupAt(full, pos).gc;
    CutIdx(full, n, pos + gc, gc);
    if pos + 32 <= n { SameHeader(full, n, pos); }
  }

  lemma CutIdx(full: Bytes, n: nat, p: nat, gc: u64)
    requires IdxFrom(full, p, gc).Group? && n <= |full|
    ensures var end := p + 12 + ReadU16(full[p + 10..]);
            && p + 24 <= end <= |full|
            && (n < end ==> IdxFrom(full[..n], p, gc) == Bad(UnexpectedEof))
            && (n >= end ==> IdxFrom(full[..n], p, gc) == IdxFrom(full, p, gc))
  {
    hide ValidateGzipHeader, ReadU16, ReadU32, EntriesOf;
    IdxReads(full, p);
    if n >= p + 24 {
      assert full[..n][p..p + 24] == full[p..p + 24];
      var xlen: nat := ReadU16(full[p..p + 24][10..]);
      var k := (xlen - 12) / 8;
      if n >= p + 12 + xlen { assert full[..n][p + 24..p + 24 + 8 * k] == full[p + 24..p + 24 + 8 * k]; }
    }
  }

  lemma IdxReads(full: Bytes, p: nat)
    requires p + 24 <= |full|
    ensures ReadU16(full[p..p + 24][10..]) == ReadU16(full[p + 10..])
  {
    hide ReadU16;
    Window(full, p, 24, 10, 2);
    assert full[p..p + 24][10..12] == full[p..p + 24][10..][..2];
    SameReads(full[p..p + 24][10..], full[p + 10..]);
  }

  // --- The index of cut encoder output ---

  /** The XLEN of an encoded IDX of n entries is 12 + 8n. */
  lemma XlenOf(c: Codec, level: nat, file: Bytes, p: nat, es: seq<IndexEntry>, rest: Bytes)
    requires SizeOf(c, level, Member.Index(es)) < U32 && |es| <= MAX_GROUP && p <= |file|
    requires file[p..] == Image(c, level, Member.Index(es)) + rest
    ensures p + 24 <= |file| && ReadU16(file[p + 10..]) == 12 + 8 * |es|
  {
    hide Image, IdxHeader, ReadU16, SizeOf, Trailer, Body;
    var zc := SizeOf(c, level, Member.Index(es));
    AnyMemberParts(c, level, Member.Index(es), rest);
    IdxFixedOffsets(zc, es);
    IdxSlices(file, p, IdxHeader(zc, es));
    IdxReads(file, p);
  }

  /** Where a cut falls: in group j, `cut` bytes into it. */
  lemma {:induction false} CutFalls(c: Codec, level: nat, groups: seq<seq<Bytes>>, n: nat) returns (j: nat, cut: nat)
    requires n < |FileOf(c, level, Members(c, level, groups))|
    ensures j < |groups| && n == |FileOf(c, level, Members(c, level, groups[..j]))| + cut
    ensures cut < |FileOf(c, level, GroupMembers(c, level, groups[j]))|
    decreases |groups|
  {
    hide FileOf, Members, GroupMembers;
    if groups == [] {
      MembersNone(c, level);
      assert false;
    } else {
      var k := |groups| - 1;
      assert groups[..k + 1] == groups;
      GroupInFile(c, level, groups, k);
      if n < |FileOf(c, level, Members(c, level, groups[..k]))| {
        j, cut := CutFalls(c, level, groups[..k], n);
        assert groups[..k][..j] == groups[..j];
      } else {
        j, cut := k, n - |FileOf(c, level, Members(c, level, groups[..k]))|;
      }
    }
  }

  /** The first groups of encoder output are themselves encoder output, of the data they hold. */
  lemma FirstGroups(c: Codec, cfg: Config, data: Bytes, groups: seq<seq<Bytes>>, j: nat)
    requires cfg.blockSize >= 1 && groups == Grouped(cfg, Chunks(cfg.blockSize, data)) && j <= |groups|
    ensures Grouped(cfg, Chunks(cfg.blockSize, Flat(Flat(groups[..j])))) == groups[..j]
    ensures Layout(c, cfg, Flat(Flat(groups[..j]))) == Members(c, cfg.level, groups[..j])
    ensures Flat(Flat(groups[..j])) <= data
  {
    hide Chunks, Flat, Members;
    assert groups == groups[..j] + groups[j..];
    FlatConcat(groups[..j], groups[j..]);
    FlatConcat(Flat(groups[..j]), Flat(groups[j..]));
    ChunksPrefix(GroupLimit(cfg), Chunks(cfg.blockSize, data), groups[..j], groups[j..]);
    ChunksPrefix(cfg.blockSize, data, Flat(groups[..j]), Flat(groups[j..]));
  }

  /** The scan gets through the first j groups, whatever is behind them. */
  lemma ScanTo(c: Codec, cfg: Config, data: Bytes, groups: seq<seq<Bytes>>, j: nat, tail: Bytes) returns (b: Acc)
    requires Lawful(c, cfg) && Indexable(c, cfg, data) && groups == Grouped(cfg, Chunks(cfg.blockSize, data)) && j <= |groups|
    requires |FileOf(c, cfg.level, Members(c, cfg.level, groups[..j])) + tail| < U64
    ensures SoFar(c, cfg.level, Members(c, cfg.level, groups[..j]), b) && Numbered(GroupLimit(cfg), b.blocks)
    ensures b.groupCount == j
    ensures var whole := FileOf(c, cfg.level, Members(c, cfg.level, groups[..j]));
            Scan(whole + tail, 0, EMPTY) == Scan(whole + tail, |whole|, b)
  {
    hide Lawful, Indexable, Members, FileOf, SoFar, Chunks, Numbered, Scannable, GroupAt, Flat, GoodGroup, Scan;
    LawfulSizes(c, cfg);
    var level, g := cfg.level, GroupLimit(cfg);
    Bounds(c, cfg, data, groups, j);
    GroupsGood(cfg, data, groups);
    GroupsScannable(c, cfg, groups);
    assert groups[..j][..0] == [];
    MembersNone(c, level);
    NothingScanned(c, level, g);
    b := ScanThrough(c, level, g, groups[..j], 0, EMPTY, tail);
  }

  lemma SealsTrue(c: Codec, cfg: Config, data: Bytes, groups: seq<seq<Bytes>>, j: nat, b: Acc)
    requires cfg.blockSize >= 1 && groups == Grouped(cfg, Chunks(cfg.blockSize, data)) && j <= |groups|
    requires SoFar(c, cfg.level, Members(c, cfg.level, groups[..j]), b) && Numbered(GroupLimit(cfg), b.blocks)
    ensures TrueIndex(c, cfg, Flat(Flat(groups[..j])), Seal(b))
  {
    hide Members, SoFar, Chunks, Numbered, Flat;
    FirstGroups(c, cfg, data, groups, j);
  }

  lemma Bounds(c: Codec, cfg: Config, data: Bytes, groups: seq<seq<Bytes>>, j: nat)
    requires cfg.blockSize >= 1 && Indexable(c, cfg, data) && groups == Grouped(cfg, Chunks(cfg.blockSize, data)) && j <= |groups|
    ensures GroupsFit(cfg, data) && |Flat(Flat(groups[..j]))| <= |data| < U64
    ensures |FileOf(c, cfg.level, Members(c, cfg.level, groups))| == |Encode(c, cfg, data)| < U64
  {
    hide FileOf, Members, Flat, Chunks, GroupsFit;
    FirstGroups(c, cfg, data, groups, j);
  }

  /** The index of every proper prefix of encoder output, by where the cut falls: `cut` bytes into group
      j, whose data members take gc bytes. Within the first 32 bytes: the true index of the groups
      before. From there to the end of the IDX data: an error, nothing is silently lost. Behind that:
      the true index of the groups up to this one, though its last bytes are missing. */
  lemma CutIndex(c: Codec, cfg: Config, data: Bytes, n: nat) returns (groups: seq<seq<Bytes>>, j: nat, cut: nat, gc: nat)
    requires Lawful(c, cfg) && Indexable(c, cfg, data) && n < |Encode(c, cfg, data)|
    ensures groups == Grouped(cfg, Chunks(cfg.blockSize, data)) && j < |groups|
    ensures n == |FileOf(c, cfg.level, Members(c, cfg.level, groups[..j]))| + cut
    ensures gc == |FileOf(c, cfg.level, DataMembers(0, groups[j]))| && 32 <= gc
    ensures cut < gc + SizeOf(c, cfg.level, Member.Index(EntriesFor(c, cfg.level, groups[j])))
    ensures var r := Scan(Encode(c, cfg, data)[..n], 0, EMPTY);
            && (cut < 32 ==> r.Ok? && TrueIndex(c, cfg, Flat(Flat(groups[..j])), r.value))
            && (32 <= cut < gc + 24 + 8 * |groups[j]| ==> r == Err(UnexpectedEof))
            && (gc + 24 + 8 * |groups[j]| <= cut ==> r.Ok? && TrueIndex(c, cfg, Flat(Flat(groups[..j + 1])), r.value))
  {
    hide Lawful, Indexable, Members, FileOf, Chunks, GroupMembers, GroupAt, Scan, TrueIndex, EntriesFor, SizeOf, Flat, SoFar, Numbered, DataMembers;
    LawfulSizes(c, cfg);
    var level := cfg.level;
    groups := Grouped(cfg, Chunks(cfg.blockSize, data));
    var full := Encode(c, cfg, data);
    j, cut := CutFalls(c, level, groups, n);
    gc := GroupEnds(c, cfg, data, groups, j);
    var pos := |FileOf(c, level, Members(c, level, groups[..j]))|;
    var tail := full[..n][pos..];
    Bounds(c, cfg, data, groups, j);
    CutGroup(full, n, pos);
    CutSplit(c, level, groups, j, n);
    var b := ScanTo(c, cfg, data, groups, j, tail);
    if cut < gc + 24 + 8 * |groups[j]| {
      ScanStops(full[..n], pos, b);
      SealsTrue(c, cfg, data, groups, j, b);
    } else {
      var b' := ScanPastCut(c, cfg, data, groups, j, n, gc, b);
      SealsTrue(c, cfg, data, groups, j + 1, b');
    }
  }

  lemma ScanStops(file: Bytes, pos: nat, b: Acc)
    ensures GroupAt(file, pos) == Finished ==> Scan(file, pos, b) == Ok(Seal(b))
    ensures GroupAt(file, pos).Bad? ==> Scan(file, pos, b) == Err(GroupAt(file, pos).error)
  {
    hide GroupAt;
  }

  /** The cut file begins with the groups before the cut. */
  lemma CutSplit(c: Codec, level: nat, groups: seq<seq<Bytes>>, j: nat, n: nat)
    requires j <= |groups| && |FileOf(c, level, Members(c, level, groups[..j]))| <= n <= |FileOf(c, level, Members(c, level, groups))|
    ensures var whole := FileOf(c, level, Members(c, level, groups[..j])); var full := FileOf(c, level, Members(c, level, groups));
            full[..n] == whole + full[..n][|whole|..]
  {
    hide FileOf, Members;
    assert groups == groups[..j] + groups[j..];
    MembersConcat(c, level, groups[..j], groups[j..]);
    FileOfConcat(c, level, Members(c, level, groups[..j]), Members(c, level, groups[j..]));
  }

  /** Where the parts of group j end in the whole file. */
  lemma GroupEnds(c: Codec, cfg: Config, data: Bytes, groups: seq<seq<Bytes>>, j: nat) returns (gc: nat)
    requires Lawful(c, cfg) && Indexable(c, cfg, data) && groups == Grouped(cfg, Chunks(cfg.blockSize, data)) && j < |groups|
    ensures gc == |FileOf(c, cfg.level, DataMembers(0, groups[j]))| && 32 <= gc < U64
    ensures var pos := |FileOf(c, cfg.level, Members(c, cfg.level, groups[..j]))|; var es := EntriesFor(c, cfg.level, groups[j]);
            var idxZc := SizeOf(c, cfg.level, Member.Index(es)); var full := Encode(c, cfg, data);
            && idxZc < U32 && 1 <= |groups[j]| <= MAX_GROUP && pos + gc + 24 <= |full|
            && GroupAt(full, pos) == Group(gc, idxZc, es) && ReadU16(full[pos + gc + 10..]) == 12 + 8 * |groups[j]|
            && |FileOf(c, cfg.level, GroupMembers(c, cfg.level, groups[j]))| == gc + idxZc
            && pos + gc + idxZc <= |full|
  {
    hide Lawful, Indexable, Members, FileOf, Chunks, GroupMembers, GroupAt, EntriesFor, SizeOf, SumSizes, AllReadable, GoodGroup,
      BlocksReadable, Readable, DataMembers, Image, ReadU16;
    LawfulSizes(c, cfg);
    var level, group := cfg.level, groups[j];
    var full, pos := Encode(c, cfg, data), |FileOf(c, level, Members(c, level, groups[..j]))|;
    Bounds(c, cfg, data, groups, j);
    GroupsGood(cfg, data, groups);
    GoodSize(cfg, group);
    GroupReadable(c, cfg, group);
    GroupInFile(c, level, groups, j);
    var rest := FileOf(c, level, Members(c, level, groups[j + 1..]));
    GroupAtEncoded(c, level, full, pos, group, rest);
    var es := EntriesFor(c, level, group);
    var sum := SumSizes(es) % U64;
    gc := |FileOf(c, level, DataMembers(sum, group))|;
    GroupIsReadable(c, level, group);
    FileOfSnoc(c, level, DataMembers(sum, group), Member.Index(es));
    IdxFollows(full, pos, FileOf(c, level, DataMembers(sum, group)), Image(c, level, Member.Index(es)), rest);
    XlenOf(c, level, full, pos + gc, es, rest);
    FirstHeader(c, level, sum, group);
    LawfulSums(c, cfg, group, sum);
  }

  lemma GoodSize(cfg: Config, group: seq<Bytes>)
    requires GoodGroup(cfg, group)
    ensures 1 <= |group| <= MAX_GROUP && AllFit(cfg, group)
  {
  }

  lemma IdxFollows(full: Bytes, pos: nat, data: Bytes, idx: Bytes, rest: Bytes)
    requires pos <= |full| && full[pos..] == data + idx + rest
    ensures full[pos + |data|..] == idx + rest
  {
    assert full[pos + |data|..] == full[pos..][|data|..];
  }

  /** The GC value does not change the length of the data members. */
  lemma LawfulSums(c: Codec, cfg: Config, group: seq<Bytes>, gc: u64)
    requires Lawful(c, cfg) && GoodGroup(cfg, group)
    ensures |FileOf(c, cfg.level, DataMembers(gc, group))| == |FileOf(c, cfg.level, DataMembers(0, group))|
  {
    hide Lawful, FileOf, BlocksReadable, AllFit;
    LawfulReadable(c, cfg, gc, group);
    LawfulReadable(c, cfg, 0, group);
    SumIsLength(c, cfg.level, gc, group);
    SumIsLength(c, cfg.level, 0, group);
  }

  /** A cut behind the IDX data of group j: the loop takes the group, and its next position lies behind
      the end of the file. */
  lemma ScanPastCut(c: Codec, cfg: Config, data: Bytes, groups: seq<seq<Bytes>>, j: nat, n: nat, gc: u64, b: Acc) returns (b': Acc)
    requires Lawful(c, cfg) && Indexable(c, cfg, data) && groups == Grouped(cfg, Chunks(cfg.blockSize, data)) && j < |groups|
    requires SoFar(c, cfg.level, Members(c, cfg.level, groups[..j]), b) && Numbered(GroupLimit(cfg), b.blocks) && b.groupCount == j
    requires var pos := |FileOf(c, cfg.level, Members(c, cfg.level, groups[..j]))|; var es := EntriesFor(c, cfg.level, groups[j]);
             var idxZc := SizeOf(c, cfg.level, Member.Index(es));
             && n <= |Encode(c, cfg, data)| && n < pos + gc + idxZc && idxZc < U32
             && |FileOf(c, cfg.level, GroupMembers(c, cfg.level, groups[j]))| == gc + idxZc
             && GroupAt(Encode(c, cfg, data)[..n], pos) == Group(gc, idxZc, es)
    ensures SoFar(c, cfg.level, Members(c, cfg.level, groups[..j + 1]), b') && Numbered(GroupLimit(cfg), b'.blocks)
    ensures Scan(Encode(c, cfg, data)[..n], |FileOf(c, cfg.level, Members(c, cfg.level, groups[..j]))|, b) == Ok(Seal(b'))
  {
    hide Lawful, Indexable, Members, FileOf, Chunks, GroupMembers, GroupAt, EntriesFor, SizeOf, SoFar, Numbered, AllReadable, GoodGroup,
      AddEntries, Flat;
    LawfulSizes(c, cfg);
    var level, group := cfg.level, groups[j];
    var file, pos := Encode(c, cfg, data)[..n], |FileOf(c, level, Members(c, level, groups[..j]))|;
    var es := EntriesFor(c, level, group);
    var idxZc := SizeOf(c, level, Member.Index(es));
    Bounds(c, cfg, data, groups, j);
    GroupsGood(cfg, data, groups);
    GroupReadable(c, cfg, group);
    GroupInFile(c, level, groups, j);
    SoFarGroup(c, level, Members(c, level, groups[..j]), b, group);
    b' := AddIdx(AddEntries(b, es), idxZc);
    SumsBelow(c, level, groups, j + 1, b');
    FullBefore(c, cfg, data, groups, j, b);
    NumberEntries(GroupLimit(cfg), b, es);
    EndOfCut(file, pos + gc + idxZc);
    ScanStops(file, pos + gc + idxZc, b');
  }

  lemma EndOfCut(file: Bytes, pos: nat)
    requires pos > |file|
    ensures GroupAt(file, pos) == Finished
  {
  }

  /** All groups before another are full. */
  lemma FullBefore(c: Codec, cfg: Config, data: Bytes, groups: seq<seq<Bytes>>, j: nat, b: Acc)
    requires cfg.blockSize >= 1 && groups == Grouped(cfg, Chunks(cfg.blockSize, data)) && j < |groups|
    requires SoFar(c, cfg.level, Members(c, cfg.level, groups[..j]), b)
    ensures |b.blocks| == j * GroupLimit(cfg) && |groups[j]| <= GroupLimit(cfg)
  {
    hide Members, Chunks, SoFar, Flat;
    SoFarSizes(c, cfg.level, Members(c, cfg.level, groups[..j]), b);
    MembersBlocks(c, cfg.level, groups[..j]);
    FullPieces(GroupLimit(cfg), groups, j);
  }
}
