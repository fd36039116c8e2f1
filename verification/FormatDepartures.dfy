/** Concrete inputs that the format promises to handle and the code does not. */
module FormatDepartures {
  import opened Prelude
  import opened LittleEndian
  import opened Format
  import opened Container
  import opened RawMember
  import opened IndexSpec
  import opened Index
  import opened OversizedGroups

  // --- Groups that are too large ---

  const STORING: Codec := Codec((l, d) => d, (s, n) => Ok(s), d => 0)

  function OneByteBlocks(groupBlocks: nat): Config {
    Config(1, groupBlocks, 0, 1)
  }

  lemma OneGroup(data: Bytes)
    requires 1 <= |data| <= 10000
    ensures var cfg := OneByteBlocks(|data|); var blocks := Chunks(1, data);
            && |blocks| == |data| && Grouped(cfg, blocks) == [blocks]
            && Lawful(STORING, cfg) && IdxFits(STORING, cfg, data) && Below64(STORING, cfg, data)
  {
    var cfg := OneByteBlocks(|data|);
    var blocks := Chunks(1, data);
    StoringIsLawful(1, |data|, 0, 1);
    ChunksCount(1, data);
    hide Chunks, Lawful, Encode;
    ChunksShort(|data|, blocks);
    AllChunksFit(cfg, data);
    OneGroupBelow(STORING, cfg, blocks);
  }

  /** A file of one group is shorter than its block count allows. */
  lemma OneGroupBelow(c: Codec, cfg: Config, blocks: seq<Bytes>)
    requires Lawful(c, cfg) && AllFit(cfg, blocks) && |blocks| <= 10000
    ensures |FileOf(c, cfg.level, Members(c, cfg.level, [blocks]))| < U64
  {
    hide FileOf, Members, SumSizes, EntriesFor, AllFit;
    var level := cfg.level;
    var es := EntriesFor(c, level, blocks);
    var gc := SumSizes(es) % U64;
    MembersSnoc(c, level, [], blocks);
    assert [] + [blocks] == [blocks];
    MembersNone(c, level);
    LawfulReadable(c, cfg, gc, blocks);
    SumIsLength(c, level, gc, blocks);
    FileOfSnoc(c, level, DataMembers(gc, blocks), Member.Index(es));
    MulLess(|blocks|, 10000, MAX_MEMBER);
    assert Members(c, level, [blocks]) == DataMembers(gc, blocks) + [Member.Index(es)];
  }

  /** A file whose one group holds 8191 blocks is written and cannot be opened. */
  lemma GroupOf8191Rejected(data: Bytes)
    requires |data| == 8191
    ensures Scan(Encode(STORING, OneByteBlocks(8191), data), 0, EMPTY) == Err(InvalidFormat)
  {
    hide Encode, Chunks, Scan, GroupsFit, Lawful, IdxFits, ListedEntries, Grouped;
    OneGroup(data);
    EntriesLost(STORING, OneByteBlocks(8191), data, [Chunks(1, data)]);
    assert Rejected(|[Chunks(1, data)][0]|);
  }

  /** With 8192 blocks in one group the file opens and looks empty. */
  lemma GroupOf8192Lost(data: Bytes)
    requires |data| == 8192
    ensures var r := Scan(Encode(STORING, OneByteBlocks(8192), data), 0, EMPTY); r.Ok? && BlockCount(r.value) == 0
  {
    hide Encode, Chunks, Scan, GroupsFit, Lawful, IdxFits, Grouped;
    OneGroup(data);
    EntriesLost(STORING, OneByteBlocks(8192), data, [Chunks(1, data)]);
  }

  // --- Plain gzip ---

  /** An empty gzip file as common tools write it. */
  const PLAIN: Bytes := [0x1f, 0x8b, 8, 0, 0, 0, 0, 0, 0, 3, 3, 0, 0, 0, 0, 0, 0, 0, 0, 0]

  /** It passes the header check, and its first member then fails to decode, whatever the codec. */
  lemma PlainGzipFails(c: Codec)
    ensures ValidateGzipHeader(PLAIN[..10]) == Ok((0, 0))
    ensures DecodeMember(c, PLAIN).result == Err(InvalidFormat)
  {
    assert PLAIN[10..][..2] == [3, 0];
    assert FromLe([3, 0]) == 3 by { assert [3, 0][1..] == [0] && [0][1..] == []; }
  }
}
