/** What raw iteration and the simple decoder make of a file that ends inside a member. */
module CutMembers {
  import opened Prelude
  import opened LittleEndian
  import opened Format
  import opened ExtraField
  import opened Container
  import opened RawMember
  import opened IndexSpec
  import opened Reader
  import opened RawIteration
  import opened Decompress

  /** A member that can be read raw is reported as the end of the file when less than its ten fixed
      bytes are there, and as an unexpected end otherwise. This holds in any file. */
  lemma CutRaw(s: Bytes, n: nat)
    requires ParseRaw(s).result.Block? && n < ParseRaw(s).consumed
    ensures n <= |s|
    ensures n < 10 ==> ParseRaw(s[..n]).result == End
    ensures n >= 10 ==> ParseRaw(s[..n]).result == Failed(UnexpectedEof)
  {
    hide ReadU16, Interpret, Fields, RawType;
    if n >= 12 {
      PrefixWindow(s, n, 10, 2);
      SameReads(s[..n][10..], s[10..]);
      var h: nat := 12 + ReadU16(s[10..]);
      if n >= h { assert s[..n][12..h] == s[12..h]; }
    }
  }

  /** The same for the simple decoder, whatever the codec. */
  lemma CutDecode(c: Codec, s: Bytes, n: nat)
    requires DecodeMember(c, s).result.Ok? && DecodeMember(c, s).result.value.Some? && n < DecodeMember(c, s).consumed
    ensures n <= |s|
    ensures n < 10 ==> DecodeMember(c, s[..n]).result == Ok(None)
    ensures n >= 10 ==> DecodeMember(c, s[..n]).result == Err(UnexpectedEof)
  {
    hide ReadU16, ReadU32, ParseExtra, ValidateGzipHeader, DetermineBlockType, DecodedHeaderSize, IsPgzfMember;
    if n >= 10 {
      assert s[..n][..10] == s[..10];
      if n >= 12 {
        PrefixWindow(s, n, 10, 2);
        SameReads(s[..n][10..], s[10..]);
        var h: nat := 12 + ReadU16(s[10..]);
        if n >= h { assert s[..n][10..h] == s[10..h]; }
      }
    }
  }

  /** In a cut file the members before the cut are still there whole. */
  lemma CutAhead(c: Codec, level: nat, ms: seq<Member>, k: nat, n: nat) returns (rest: Bytes)
    requires k < |ms| && Start(c, level, ms, k + 1) <= n <= |FileOf(c, level, ms)|
    ensures Start(c, level, ms, k + 1) == Start(c, level, ms, k) + |Image(c, level, ms[k])|
    ensures FileOf(c, level, ms)[..n][Start(c, level, ms, k)..] == Image(c, level, ms[k]) + rest
  {
    hide FileOf, Image, Start;
    var all := MemberAhead(c, level, ms, k);
    var p := Start(c, level, ms, k);
    rest := all[..n - p - |Image(c, level, ms[k])|];
    assert FileOf(c, level, ms)[..n][p..] == FileOf(c, level, ms)[p..][..n - p];
  }

  /** The last, cut member. */
  lemma CutLast(c: Codec, level: nat, ms: seq<Member>, k: nat, n: nat) returns (rest: Bytes)
    requires k < |ms| && Start(c, level, ms, k) <= n < Start(c, level, ms, k + 1)
    ensures n <= |FileOf(c, level, ms)|
    ensures var p := Start(c, level, ms, k); var s := Image(c, level, ms[k]) + rest;
            && n - p < |Image(c, level, ms[k])| && FileOf(c, level, ms)[..n][p..] == s[..n - p]
  {
    hide FileOf, Image, Start;
    rest := MemberAhead(c, level, ms, k);
    var p := Start(c, level, ms, k);
    assert FileOf(c, level, ms)[..n][p..] == FileOf(c, level, ms)[p..][..n - p];
  }

  lemma StartsBelow(c: Codec, level: nat, ms: seq<Member>, j: nat, k: nat)
    requires j <= k <= |ms|
    ensures Start(c, level, ms, j) <= Start(c, level, ms, k) <= |FileOf(c, level, ms)|
  {
    hide FileOf;
    assert ms[..k] == ms[..j] + ms[j..k] && ms == ms[..k] + ms[k..];
    FileOfConcat(c, level, ms[..j], ms[j..k]);
    FileOfConcat(c, level, ms[..k], ms[k..]);
  }

  /** Raw iteration over a file cut inside member k: exactly the members before it, whole and numbered,
      and then the end of the file if less than ten bytes of it are left, else an error. */
  lemma {:induction false} CutIteration(c: Codec, level: nat, ms: seq<Member>, k: nat, n: nat, j: nat, next: nat)
    requires AllReadable(c, level, ms) && j <= k < |ms| && Start(c, level, ms, k) <= n < Start(c, level, ms, k + 1)
    ensures n <= |FileOf(c, level, ms)|
    ensures |Iterate(FileOf(c, level, ms)[..n], Start(c, level, ms, j), next)| == k - j
    ensures Ending(FileOf(c, level, ms)[..n], Start(c, level, ms, j)) ==
            if n - Start(c, level, ms, k) < 10 then End else Failed(UnexpectedEof)
    ensures forall i :: j <= i < k ==>
              Count(ms, i) >= Count(ms, j) &&
              Iterate(FileOf(c, level, ms)[..n], Start(c, level, ms, j), next)[i - j] ==
              ItemOf(c, level, ms, i, next + Count(ms, i) - Count(ms, j))
    decreases k - j
  {
    hide FileOf, Image, ParseRaw, Readable, SizeOf, Count, Start, HeaderSize, TypeOf, Iterate, Ending;
    StartsBelow(c, level, ms, j, k);
    StartsBelow(c, level, ms, k, k + 1);
    var file, p := FileOf(c, level, ms)[..n], Start(c, level, ms, j);
    IterateStep(file, p, next);
    ReadableAt(c, level, ms, j);
    ReadableBounds(c, level, ms[j]);
    if j == k {
      var rest := CutLast(c, level, ms, k, n);
      RawOfMember(c, level, ms[k], rest);
      CutRaw(Image(c, level, ms[k]) + rest, n - p);
    } else {
      StartsBelow(c, level, ms, j + 1, k);
      var rest := CutAhead(c, level, ms, j, n);
      RawOfMember(c, level, ms[j], rest);
      BlockOfMember(ms, j);
      CutIteration(c, level, ms, k, n, j + 1, next + if ms[j].Data? then 1 else 0);
    }
  }

  /** One decoded member, and the decoding of what follows. */
  lemma DecodeStep(c: Codec, file: Bytes, pos: nat)
    ensures var o := DecodeMember(c, Suffix(file, pos)).result;
            && (o.Err? || o.value.None? ==> DecodeAll(c, file, pos) == [])
            && (o.Ok? && o.value.Some? ==>
                  DecodeAll(c, file, pos) ==
                  (if o.value.value.blockType == Idx then [] else [o.value.value.data]) +
                  DecodeAll(c, file, pos + DecodeMember(c, Suffix(file, pos)).consumed))
  {
    hide DecodeMember, Suffix;
  }

  /** Sequential decoding of such a file delivers exactly the blocks of the members before the cut. */
  lemma {:induction false} CutDecoding(c: Codec, level: nat, ms: seq<Member>, k: nat, n: nat, j: nat)
    requires AllReadable(c, level, ms) && j <= k < |ms| && Start(c, level, ms, k) <= n < Start(c, level, ms, k + 1)
    ensures n <= |FileOf(c, level, ms)| && Count(ms, j) <= Count(ms, k) <= |Blocks(ms)|
    ensures DecodeAll(c, FileOf(c, level, ms)[..n], Start(c, level, ms, j)) == Blocks(ms)[Count(ms, j)..Count(ms, k)]
    decreases k - j
  {
    hide FileOf, Image, DecodeMember, DecodeAll, Readable, SizeOf, Count, Start, Blocks;
    StartsBelow(c, level, ms, j, k);
    StartsBelow(c, level, ms, k, k + 1);
    CountMonotone(ms, j, k);
    BlockOfMember(ms, k);
    DecodeStep(c, FileOf(c, level, ms)[..n], Start(c, level, ms, j));
    ReadableAt(c, level, ms, j);
    ReadableBounds(c, level, ms[j]);
    if j == k {
      var rest := CutLast(c, level, ms, k, n);
      DecodeOfMember(c, level, ms[k], rest);
      CutDecode(c, Image(c, level, ms[k]) + rest, n - Start(c, level, ms, k));
    } else {
      StartsBelow(c, level, ms, j + 1, k);
      var rest := CutAhead(c, level, ms, j, n);
      DecodeOfMember(c, level, ms[j], rest);
      CutDecoding(c, level, ms, k, n, j + 1);
      NextBlock(ms, j, k);
    }
  }

  lemma NextBlock(ms: seq<Member>, j: nat, k: nat)
    requires j < k <= |ms|
    ensures Count(ms, j) <= Count(ms, j + 1) <= Count(ms, k) <= |Blocks(ms)|
    ensures Blocks(ms)[Count(ms, j)..Count(ms, k)] ==
            (if ms[j].Data? then [ms[j].payload] else []) + Blocks(ms)[Count(ms, j + 1)..Count(ms, k)]
  {
    hide Count, Blocks;
    BlockOfMember(ms, j);
    BlockOfMember(ms, k - 1);
    CountMonotone(ms, j + 1, k);
    Adjacent(Blocks(ms), Count(ms, j), Count(ms, j + 1), Count(ms, k));
  }
}
