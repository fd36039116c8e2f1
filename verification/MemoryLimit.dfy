/** What the readahead memory limit counts (src/reader.rs:180-182, 495-501): the bytes of the cached blocks
    and of the current one. */
module MemoryLimit {
  import opened Prelude
  import opened Lru
  import opened ReaderMachine
  import opened Cursor

  /** The cached block numbers. */
  function CachedKeys(c: Cache): set<nat> {
    set i | 0 <= i < |c.entries| :: c.entries[i].key
  }

  /** The bytes of those of the first n blocks whose numbers are in `keys`. */
  function BytesOf(blocks: seq<Bytes>, keys: set<nat>, n: nat): nat
    requires n <= |blocks|
  {
    if n == 0 then 0 else BytesOf(blocks, keys, n - 1) + if n - 1 in keys then |blocks[n - 1]| else 0
  }

  lemma {:induction false} OneMore(blocks: seq<Bytes>, keys: set<nat>, k: nat, n: nat)
    requires n <= |blocks| && k !in keys && k < |blocks|
    ensures BytesOf(blocks, keys + {k}, n) == BytesOf(blocks, keys, n) + if k < n then |blocks[k]| else 0
  {
    if n > 0 { OneMore(blocks, keys, k, n - 1); }
  }

  lemma {:induction false} NoKeys(blocks: seq<Bytes>, n: nat)
    requires n <= |blocks|
    ensures BytesOf(blocks, {}, n) == 0
  {
    if n > 0 { NoKeys(blocks, n - 1); }
  }

  /** The memory a true cache accounts for is that of the blocks it holds. */
  lemma {:induction false} CachedBytes(blocks: seq<Bytes>, c: Cache)
    requires Sound(blocks, c)
    ensures Memory(c.entries) == BytesOf(blocks, CachedKeys(c), |blocks|)
    decreases |c.entries|
  {
    if c.entries == [] {
      assert CachedKeys(c) == {};
      NoKeys(blocks, |blocks|);
    } else {
      var n := |c.entries| - 1;
      var init := c.(entries := c.entries[..n]);
      FirstOnes(blocks, c, n);
      CachedBytes(blocks, init);
      OneMore(blocks, CachedKeys(init), c.entries[n].key, |blocks|);
    }
  }

  lemma FirstOnes(blocks: seq<Bytes>, c: Cache, n: nat)
    requires Sound(blocks, c) && |c.entries| == n + 1
    ensures var init := c.(entries := c.entries[..n]); var k := c.entries[n].key;
            && Sound(blocks, init) && k !in CachedKeys(init) && k < |blocks|
            && CachedKeys(c) == CachedKeys(init) + {k} && c.entries[n].data == blocks[k]
  {
    var init := c.(entries := c.entries[..n]);
    assert forall i :: 0 <= i < n ==> init.entries[i] == c.entries[i];
    forall x
      ensures x in CachedKeys(c) <==> x in CachedKeys(init) + {c.entries[n].key}
    {
      if x in CachedKeys(c) {
        var i :| 0 <= i < |c.entries| && c.entries[i].key == x;
        if i < n { assert init.entries[i].key == x; }
      }
    }
  }

  /** A reader about to refill: a read of any size delivers nothing exactly when the memory limit is at
      most the bytes of the cached blocks plus those of the current block. */
  lemma StarvedIff(blocks: seq<Bytes>, s: State, n: nat)
    requires NonEmpty(blocks) && Sound(blocks, s.cache) && s.ahead >= 1 && n >= 1
    requires s.pending.None? && !s.eof && s.queue == [] && s.pos >= |s.current| && s.next < |blocks|
    ensures Read(blocks, s, n).1 == Ok([]) <==>
              s.limit.Some? && s.limit.value <= BytesOf(blocks, CachedKeys(s.cache), |blocks|) + |s.current|
  {
    hide Sound, CachedKeys, BytesOf, Memory, Fill;
    CachedBytes(blocks, s.cache);
    NothingQueued();
    if Starved(s) {
      StarvedFill(blocks, s);
    } else if WindowFits(s) {
      FillTransparent(blocks, s);
      assert Fill(blocks, s).queue[0] == blocks[s.next];
    }
  }

  lemma NothingQueued()
    ensures |Flat<byte>([])| == 0
  {
  }

  /** The same for the read that carries out a seek into an uncached block: only the cache counts. */
  lemma StarvedSeekIff(blocks: seq<Bytes>, s: State, t: nat, n: nat)
    requires NonEmpty(blocks) && Sound(blocks, s.cache) && s.ahead >= 1 && n >= 1
    requires s.pending == Some(t) && t < |Flat(blocks)| && !Cached(s.cache, Locate(blocks, t))
    ensures Read(blocks, s, n).1 == Ok([]) <==>
              s.limit.Some? && s.limit.value <= BytesOf(blocks, CachedKeys(s.cache), |blocks|)
  {
    hide Sound, CachedKeys, BytesOf, Memory, Fill, Flat, Locate, Offset, Cached;
    CachedBytes(blocks, s.cache);
    NothingQueued();
    LocateBounds(blocks, t);
    LocateInside(blocks, t);
    var landing := Landing(blocks, s, t);
    if Starved(landing) {
      StarvedFill(blocks, landing);
    } else if WindowFits(landing) {
      FillTransparent(blocks, landing);
      assert Fill(blocks, landing).queue[0] == blocks[landing.next];
    }
  }
}
