/** In which order a refill and a seek leave the cache (src/reader.rs:310-335, 521-527, 556-564, 620-624):
    what was delivered last is evicted last. */
module RefillRecency {
  import opened Prelude
  import opened Lru
  import opened Recency
  import opened ReaderMachine
  import opened Cursor

  /** The cached blocks of a window, in order. */
  function Hits(c: Cache, lo: nat, hi: nat): seq<nat> {
    if lo >= hi then [] else Hits(c, lo, hi - 1) + if Cached(c, hi - 1) then [hi - 1] else []
  }

  /** The list starts with these keys, the last of them first. */
  ghost predicate Leads(es: seq<Entry>, keys: seq<nat>) {
    |keys| <= |es| && forall i :: 0 <= i < |keys| ==> es[i].key == keys[|keys| - 1 - i]
  }

  lemma {:induction false} HitsBelow(c: Cache, lo: nat, hi: nat)
    ensures forall i :: 0 <= i < |Hits(c, lo, hi)| ==> lo <= Hits(c, lo, hi)[i] < hi && Cached(c, Hits(c, lo, hi)[i])
    ensures |Hits(c, lo, hi)| + |Misses(c, lo, hi)| == Max(hi - lo, 0)
  {
    hide Cached;
    if lo < hi { HitsBelow(c, lo, hi - 1); }
  }

  lemma {:induction false} SameHits(c: Cache, d: Cache, lo: nat, hi: nat)
    requires forall k: nat :: Cached(c, k) <==> Cached(d, k)
    ensures Hits(c, lo, hi) == Hits(d, lo, hi)
  {
    hide Cached;
    if lo < hi { SameHits(c, d, lo, hi - 1); }
  }

  lemma CachedAt(c: Cache, k: nat) returns (i: nat)
    requires Cached(c, k)
    ensures i < |c.entries| && c.entries[i].key == k
  {
    LookupFinds(c.entries, k);
    i :| 0 <= i < |c.entries| && c.entries[i] == Entry(k, Lookup(c.entries, k).value);
  }

  /** One probe that hits goes in front of the earlier ones. */
  lemma ProbeLeads(c: Cache, keys: seq<nat>, k: nat)
    requires Consistent(c) && Leads(c.entries, keys) && Cached(c, k) && k !in keys
    ensures Leads(Lru.Get(c, k).entries, keys + [k])
  {
    var i := CachedAt(c, k);
    hide Consistent, Cached, Lru.Get;
    HitMovesToFront(c, i);
    var es := c.entries;
    var es' := [es[i]] + es[..i] + es[i + 1..];
    assert forall j :: 0 <= j < |keys| ==> es[j].key in keys;
    assert forall j :: 0 <= j < i ==> es'[j + 1] == es[j];
  }

  /** Probing a window puts its hits in front, the last one first. */
  lemma {:induction false} ProbesLead(c: Cache, lo: nat, hi: nat)
    requires Consistent(c)
    ensures var d := GetAll(c, lo, hi);
            && Consistent(d) && Leads(d.entries, Hits(c, lo, hi))
            && d.capacity == c.capacity && d.maxMemory == c.maxMemory && |d.entries| == |c.entries|
            && forall k: nat :: Cached(d, k) <==> Cached(c, k)
  {
    hide Consistent, Cached, Lru.Get, Leads;
    if lo >= hi {
      NothingLeads(c.entries);
    } else {
      var k := hi - 1;
      ProbesLead(c, lo, k);
      var d := GetAll(c, lo, k);
      GetConsistent(d, k);
      HitsBelow(c, lo, k);
      forall j: nat
        ensures Cached(Lru.Get(d, k), j) <==> Cached(d, j)
      {
        SameCached(d, k, j);
      }
      GetLimits(d, k);
      if Cached(c, k) {
        ProbeLeads(d, Hits(c, lo, k), k);
      } else {
        MissKeeps(d, k);
        assert Hits(c, lo, k) + [] == Hits(c, lo, k);
      }
    }
  }

  lemma NothingLeads(es: seq<Entry>)
    ensures Leads(es, [])
  {
  }

  lemma MissKeeps(c: Cache, k: nat)
    requires !Cached(c, k)
    ensures Lru.Get(c, k) == c
  {
  }

  lemma GetLimits(c: Cache, k: nat)
    requires Consistent(c)
    ensures var d := Lru.Get(c, k); d.capacity == c.capacity && d.maxMemory == c.maxMemory && |d.entries| == |c.entries|
  {
    if Cached(c, k) {
      var i := CachedAt(c, k);
      hide Lru.Get;
      HitMovesToFront(c, i);
    } else {
      MissKeeps(c, k);
    }
  }

  /** Storing uncached blocks where there is room for them and for those in front: they come before. */
  lemma {:induction false} StoresLead(c: Cache, front: seq<nat>, keys: seq<nat>, blocks: seq<Bytes>)
    requires Consistent(c) && c.maxMemory.None? && Leads(c.entries, front) && |front| + |keys| <= c.capacity
    requires forall i :: 0 <= i < |keys| ==> keys[i] < |blocks| && !Cached(c, keys[i])
    requires forall i, j :: 0 <= i < j < |keys| ==> keys[i] < keys[j]
    ensures var d := InsertAll(c, keys, blocks);
            && Consistent(d) && d.capacity == c.capacity && d.maxMemory.None? && Leads(d.entries, front + keys)
            && (forall e :: e in d.entries ==> e in c.entries || e.key in keys)
  {
    hide Cached, Lru.Insert, Consistent, Leads;
    if keys == [] {
      assert front + [] == front;
    } else {
      var n := |keys| - 1;
      StoresLead(c, front, keys[..n], blocks);
      var d := InsertAll(c, keys[..n], blocks);
      NotStored(c, d, keys[..n], keys[n]);
      StoreFront(d, front + keys[..n], keys[n], blocks[keys[n]]);
      InsertConsistent(d, keys[n], blocks[keys[n]]);
      InsertLimits(d, keys[n], blocks[keys[n]]);
      assert keys == keys[..n] + [keys[n]];
      SeqAssoc(front, keys[..n], [keys[n]]);
    }
  }

  lemma InsertLimits(c: Cache, key: nat, data: Bytes)
    ensures Lru.Insert(c, key, data).capacity == c.capacity && Lru.Insert(c, key, data).maxMemory == c.maxMemory
  {
  }

  lemma NotStored(c: Cache, d: Cache, keys: seq<nat>, k: nat)
    requires !Cached(c, k) && k !in keys
    requires forall e :: e in d.entries ==> e in c.entries || e.key in keys
    ensures forall i :: 0 <= i < |d.entries| ==> d.entries[i].key != k
  {
    LookupFinds(c.entries, k);
    forall i | 0 <= i < |d.entries|
      ensures d.entries[i].key != k
    {
      assert d.entries[i] in d.entries;
    }
  }

  lemma StoreFront(c: Cache, front: seq<nat>, k: nat, data: Bytes)
    requires c.maxMemory.None? && Leads(c.entries, front) && |front| + 1 <= c.capacity
    requires forall i :: 0 <= i < |c.entries| ==> c.entries[i].key != k
    ensures Leads(Lru.Insert(c, k, data).entries, front + [k])
    ensures forall e :: e in Lru.Insert(c, k, data).entries ==> e in c.entries || e.key == k
  {
    hide Lru.Insert;
    InsertByCount(c, k, data);
    WithoutAbsent(c.entries, k);
  }

  /** After a refill whose window fits the cache, without a memory limit: the list starts with the blocks
      just read and then the window's blocks that were cached, the last of each kind first. Everything
      else has become older than the window. */
  lemma RefillOrder(blocks: seq<Bytes>, s: State)
    requires Sound(blocks, s.cache) && s.queue == [] && !Starved(s) && s.next < |blocks| && s.ahead >= 1 && WindowFits(s)
    requires s.cache.maxMemory.None? && WindowEnd(blocks, s) - s.next <= s.cache.capacity
    ensures var lo, hi := s.next, WindowEnd(blocks, s); var es := Fill(blocks, s).cache.entries;
            var misses, hits := Misses(s.cache, lo, hi), Hits(s.cache, lo, hi);
            |hits| + |misses| == hi - lo && Leads(es, hits + misses)
  {
    hide Cached, Misses, Hits, GetAll, InsertAll, Assemble, Starved, Consistent, Leads;
    var lo, hi := s.next, WindowEnd(blocks, s);
    var c1 := GetAll(s.cache, lo, hi);
    var c2 := GetAll(c1, lo, hi);
    var misses, hits := Misses(s.cache, lo, hi), Hits(s.cache, lo, hi);
    HitsBelow(s.cache, lo, hi);
    ProbesLead(s.cache, lo, hi);
    ProbesLead(c1, lo, hi);
    SameHits(s.cache, c1, lo, hi);
    MissesIncreasing(s.cache, lo, hi);
    forall i | 0 <= i < |misses|
      ensures misses[i] < |blocks| && !Cached(c2, misses[i])
    {
      MissesExact(s.cache, lo, hi, misses[i]);
    }
    StoresLead(c2, hits, misses, blocks);
  }

  /** The lookups of a window, in order. */
  function Probes(lo: nat, hi: nat): seq<CacheOp>
    requires lo <= hi
  {
    seq(hi - lo, i requires 0 <= i => GetOp(lo + i))
  }

  /** The insertions of the blocks read, in order. */
  function Stores(keys: seq<nat>, blocks: seq<Bytes>): seq<CacheOp>
    requires forall i :: 0 <= i < |keys| ==> keys[i] < |blocks|
  {
    seq(|keys|, i requires 0 <= i < |keys| => InsertOp(keys[i], blocks[keys[i]]))
  }

  lemma {:induction false} ProbesTrace(c: Cache, lo: nat, hi: nat)
    requires lo <= hi
    ensures GetAll(c, lo, hi) == RunCache(c, Probes(lo, hi))
  {
    if lo < hi {
      ProbesTrace(c, lo, hi - 1);
      assert Probes(lo, hi)[..hi - 1 - lo] == Probes(lo, hi - 1);
    }
  }

  lemma {:induction false} StoresTrace(c: Cache, keys: seq<nat>, blocks: seq<Bytes>)
    requires forall i :: 0 <= i < |keys| ==> keys[i] < |blocks|
    ensures InsertAll(c, keys, blocks) == RunCache(c, Stores(keys, blocks))
  {
    if keys != [] {
      var n := |keys| - 1;
      StoresTrace(c, keys[..n], blocks);
      assert Stores(keys, blocks)[..n] == Stores(keys[..n], blocks);
    }
  }

  lemma {:induction false} RunOn(c: Cache, a: seq<CacheOp>, b: seq<CacheOp>)
    ensures RunCache(c, a + b) == RunCache(RunCache(c, a), b)
  {
    if b == [] {
      assert a + b == a;
    } else {
      var n := |b| - 1;
      RunOn(c, a, b[..n]);
      assert (a + b)[..|a| + n] == a + b[..n];
    }
  }

  /** Under any limits, what a refill does to the cache: two lookups of every block of its window, in
      order, and then an insertion of every block that was not cached, in order. */
  lemma RefillTrace(blocks: seq<Bytes>, s: State, misses: seq<nat>)
    requires Sound(blocks, s.cache) && s.queue == [] && !Starved(s) && s.next < |blocks| && s.ahead >= 1 && WindowFits(s)
    requires forall k: nat :: k in misses <==> s.next <= k < Min(|blocks|, s.next + s.ahead) && !Cached(s.cache, k)
    requires forall i, j :: 0 <= i < j < |misses| ==> misses[i] < misses[j]
    ensures forall i :: 0 <= i < |misses| ==> misses[i] < |blocks|
    ensures var probes := Probes(s.next, Min(|blocks|, s.next + s.ahead));
            Fill(blocks, s).cache == RunCache(s.cache, probes + probes + Stores(misses, blocks))
  {
    hide Cached, Misses, GetAll, InsertAll, RunCache, Probes, Stores, Assemble, Starved;
    var lo, hi := s.next, WindowEnd(blocks, s);
    var m := Misses(s.cache, lo, hi);
    MissesIncreasing(s.cache, lo, hi);
    forall k: nat
      ensures k in m <==> k in misses
    {
      MissesExact(s.cache, lo, hi, k);
    }
    assert forall i :: 0 <= i < |misses| ==> misses[i] in misses;
    SameIncreasing(m, misses);
    var probes := Probes(lo, hi);
    ProbesTrace(s.cache, lo, hi);
    ProbesTrace(GetAll(s.cache, lo, hi), lo, hi);
    StoresTrace(GetAll(GetAll(s.cache, lo, hi), lo, hi), m, blocks);
    RunOn(s.cache, probes, probes);
    RunOn(s.cache, probes + probes, Stores(m, blocks));
  }

  /** Two increasing lists of the same numbers are the same. */
  lemma {:induction false} SameIncreasing(a: seq<nat>, b: seq<nat>)
    requires forall i, j :: 0 <= i < j < |a| ==> a[i] < a[j]
    requires forall i, j :: 0 <= i < j < |b| ==> b[i] < b[j]
    requires forall k: nat :: k in a <==> k in b
    ensures a == b
  {
    if a == [] || b == [] {
      BothEmpty(a, b);
      BothEmpty(b, a);
    } else {
      var m, n := |a| - 1, |b| - 1;
      LastSame(a, b);
      forall k: nat
        ensures k in a[..m] <==> k in b[..n]
      {
        WithoutLast(a, k);
        WithoutLast(b, k);
      }
      SameIncreasing(a[..m], b[..n]);
      assert a == a[..m] + [a[m]] && b == b[..n] + [b[n]];
    }
  }

  lemma LastSame(a: seq<nat>, b: seq<nat>)
    requires a != [] && b != []
    requires forall i, j :: 0 <= i < j < |a| ==> a[i] < a[j]
    requires forall i, j :: 0 <= i < j < |b| ==> b[i] < b[j]
    requires forall k: nat :: k in a <==> k in b
    ensures a[|a| - 1] == b[|b| - 1]
  {
    assert a[|a| - 1] in b && b[|b| - 1] in a;
  }

  lemma BothEmpty(a: seq<nat>, b: seq<nat>)
    requires forall k: nat :: k in a ==> k in b
    ensures b == [] ==> a == []
  {
    if a != [] { assert a[0] in a; }
  }

  lemma WithoutLast(a: seq<nat>, k: nat)
    requires a != [] && forall i, j :: 0 <= i < j < |a| ==> a[i] < a[j]
    ensures k in a[..|a| - 1] <==> k in a && k != a[|a| - 1]
  {
  }

  /** A seek into a cached block makes it the most recently used, and leaves the others in their order. */
  lemma SeekPromotes(blocks: seq<Bytes>, s: State, t: nat) returns (i: nat)
    requires Consistent(s.cache) && s.pending == Some(t) && t <= |Flat(blocks)| && Cached(s.cache, Locate(blocks, t))
    ensures i < |s.cache.entries| && s.cache.entries[i].key == Locate(blocks, t)
    ensures var es := s.cache.entries;
            RunPending(blocks, s).0.cache == s.cache.(entries := [es[i]] + es[..i] + es[i + 1..])
  {
    hide Flat, Locate, Fill, Consistent, Lru.Get, Lookup;
    i := CachedAt(s.cache, Locate(blocks, t));
    HitMovesToFront(s.cache, i);
  }

  /** No other call than a read or a new cache touches the cache. */
  lemma OnlyReadsCache(blocks: seq<Bytes>, s: State, op: Op)
    ensures !op.OpRead? && !op.OpSetCache? ==> Step(blocks, s, op).0.cache == s.cache
    ensures op.OpRead? && s.pending.None? && (s.pos < |s.current| || s.queue != []) ==> Step(blocks, s, op).0.cache == s.cache
  {
    hide Flat, Fill, Resolve;
  }
}
