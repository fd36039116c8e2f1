/** The recency law of the block cache (src/block_cache.rs:42-86) over whole traces, stated on the trace
    alone: which blocks are held, and in which order. */
module Recency {
  import opened Prelude
  import opened Lru

  /** The keys inserted by a trace. */
  function Inserted(ops: seq<CacheOp>): set<nat> {
    if ops == [] then {}
    else Inserted(ops[..|ops| - 1]) + match ops[|ops| - 1] case InsertOp(key, _) => {key} case GetOp(_) => {}
  }

  /** The time of the last use of a key: of its last insertion, or of the last lookup that found it;
      -1 before any. */
  ghost function LastUse(c: nat, ops: seq<CacheOp>, key: nat): int
    decreases |ops|, 0
  {
    if ops == [] then -1
    else
      var n := |ops| - 1;
      match ops[n]
      case InsertOp(k, _) => if k == key then n else LastUse(c, ops[..n], key)
      case GetOp(k) => if k == key && Held(c, ops[..n], key) then n else LastUse(c, ops[..n], key)
  }

  /** A key is held at capacity c when fewer than c keys were used after it. */
  ghost predicate Held(c: nat, ops: seq<CacheOp>, key: nat)
    decreases |ops|, 2
  {
    key in Inserted(ops) && |Later(c, ops, key)| < c
  }

  /** The keys used after the last use of this one. */
  ghost function Later(c: nat, ops: seq<CacheOp>, key: nat): set<nat>
    decreases |ops|, 1
  {
    set k | k in Inserted(ops) && LastUse(c, ops, k) > LastUse(c, ops, key)
  }

  /** The data of the last insertion of a key. */
  function Latest(ops: seq<CacheOp>, key: nat): Bytes {
    if ops == [] then []
    else
      var n := |ops| - 1;
      match ops[n]
      case InsertOp(k, data) => if k == key then data else Latest(ops[..n], key)
      case GetOp(_) => Latest(ops[..n], key)
  }

  function Keys(es: seq<Entry>): set<nat> {
    set i | 0 <= i < |es| :: es[i].key
  }

  /** Last used first. */
  ghost predicate Sorted(c: nat, ops: seq<CacheOp>, es: seq<Entry>) {
    forall i, j :: 0 <= i < j < |es| ==> LastUse(c, ops, es[i].key) > LastUse(c, ops, es[j].key)
  }

  /** No key that is missing was used after one that is there. */
  ghost predicate LastOnes(c: nat, ops: seq<CacheOp>, es: seq<Entry>) {
    forall k, i :: k in Inserted(ops) && k !in Keys(es) && 0 <= i < |es| ==> LastUse(c, ops, k) < LastUse(c, ops, es[i].key)
  }

  /** The list holds the last used keys, last used first, with their latest data. */
  ghost predicate ByRecency(c: nat, ops: seq<CacheOp>, es: seq<Entry>) {
    && Sorted(c, ops, es) && LastOnes(c, ops, es)
    && (forall i :: 0 <= i < |es| ==> es[i].key in Inserted(ops) && es[i].data == Latest(ops, es[i].key))
    && |es| == Min(c, |Inserted(ops)|)
  }

  // --- Held is in the list ---

  lemma {:induction false} FirstKeys(es: seq<Entry>, i: nat)
    requires i <= |es| && Distinct(es)
    ensures |Keys(es[..i])| == i
  {
    if i > 0 {
      FirstKeys(es, i - 1);
      KeysSnoc(es, i - 1);
      assert es[i - 1].key !in Keys(es[..i - 1]);
    }
  }

  lemma KeysSnoc(es: seq<Entry>, i: nat)
    requires i < |es|
    ensures Keys(es[..i + 1]) == Keys(es[..i]) + {es[i].key}
  {
    forall x
      ensures x in Keys(es[..i + 1]) <==> x in Keys(es[..i]) + {es[i].key}
    {
      if x in Keys(es[..i + 1]) {
        var j :| 0 <= j < i + 1 && es[..i + 1][j].key == x;
        if j < i { assert es[..i][j].key == x; }
      } else {
        assert es[..i + 1][i].key == es[i].key;
      }
    }
  }

  lemma SortedDistinct(c: nat, ops: seq<CacheOp>, es: seq<Entry>)
    requires ByRecency(c, ops, es)
    ensures Distinct(es) && Keys(es) <= Inserted(ops)
  {
    hide LastUse, Latest, Inserted;
  }

  /** Just the entries in front of entry i were used after it. */
  lemma LaterIsFront(c: nat, ops: seq<CacheOp>, es: seq<Entry>, i: nat)
    requires ByRecency(c, ops, es) && i < |es|
    ensures Later(c, ops, es[i].key) == Keys(es[..i])
  {
    hide LastUse, Latest, Inserted;
    var key := es[i].key;
    forall x
      ensures x in Later(c, ops, key) <==> x in Keys(es[..i])
    {
      if x in Later(c, ops, key) {
        if x in Keys(es) {
          var j :| 0 <= j < |es| && es[j].key == x;
          assert j < i;
          assert es[..i][j].key == x;
        }
      }
    }
  }

  lemma AllKeys(es: seq<Entry>)
    requires Distinct(es)
    ensures |Keys(es)| == |es|
  {
    FirstKeys(es, |es|);
    assert es[..|es|] == es;
  }

  lemma Larger(a: set<nat>, b: set<nat>)
    requires a <= b
    ensures |a| <= |b| && (a != b ==> |a| < |b|)
  {
    assert b == a + (b - a);
    if a != b { assert b - a != {}; }
  }

  /** The keys in the list are the held ones. */
  lemma HeldIff(c: nat, ops: seq<CacheOp>, es: seq<Entry>, key: nat)
    requires ByRecency(c, ops, es)
    ensures Held(c, ops, key) <==> key in Keys(es)
  {
    hide LastUse, Latest, Inserted;
    SortedDistinct(c, ops, es);
    if key in Keys(es) {
      var i :| 0 <= i < |es| && es[i].key == key;
      LaterIsFront(c, ops, es, i);
      FirstKeys(es, i);
    } else if key in Inserted(ops) {
      AllKeys(es);
      Larger(Keys(es), Inserted(ops));
      assert Keys(es) <= Later(c, ops, key);
      Larger(Keys(es), Later(c, ops, key));
    }
  }

  // --- One step ---

  lemma {:induction false} UsedBefore(c: nat, ops: seq<CacheOp>, key: nat)
    ensures -1 <= LastUse(c, ops, key) < |ops|
    decreases |ops|
  {
    if ops != [] { UsedBefore(c, ops[..|ops| - 1], key); }
  }

  /** The list without one key, in the same order. */
  lemma RestAt(c: nat, ops: seq<CacheOp>, es: seq<Entry>, i: nat)
    requires Sorted(c, ops, es) && Distinct(es) && i < |es|
    ensures var rest := Without(es, es[i].key);
            && Sorted(c, ops, rest) && |rest| == |es| - 1
            && (forall j :: 0 <= j < |rest| ==> rest[j] == es[if j < i then j else j + 1] && rest[j].key != es[i].key)
  {
    hide LastUse, Without;
    WithoutAt(es, i);
    var rest := es[..i] + es[i + 1..];
    forall j, k | 0 <= j < k < |rest|
      ensures LastUse(c, ops, rest[j].key) > LastUse(c, ops, rest[k].key)
    {
      assert rest[j] == es[if j < i then j else j + 1] && rest[k] == es[if k < i then k else k + 1];
    }
  }

  lemma RestFacts(c: nat, ops: seq<CacheOp>, es: seq<Entry>, key: nat)
    requires ByRecency(c, ops, es)
    ensures var rest := Without(es, key);
            && Sorted(c, ops, rest) && Keys(rest) == Keys(es) - {key}
            && (forall i :: 0 <= i < |rest| ==> rest[i] in es && rest[i].key != key)
            && |rest| == |es| - if key in Keys(es) then 1 else 0
  {
    hide LastUse, Latest, Inserted, Without, Sorted;
    SortedDistinct(c, ops, es);
    WithoutKeys(es, key);
    if key in Keys(es) {
      var i :| 0 <= i < |es| && es[i].key == key;
      RestAt(c, ops, es, i);
    } else {
      WithoutAbsent(es, key);
    }
  }

  lemma WithoutKeys(es: seq<Entry>, key: nat)
    ensures Keys(Without(es, key)) == Keys(es) - {key}
    ensures forall i :: 0 <= i < |Without(es, key)| ==> Without(es, key)[i] in es && Without(es, key)[i].key != key
  {
    hide Without;
    var rest := Without(es, key);
    forall i | 0 <= i < |rest|
      ensures rest[i] in es && rest[i].key != key
    {
      WithoutMembers(es, key, rest[i]);
    }
    forall k
      ensures k in Keys(rest) <==> k in Keys(es) - {key}
    {
      if k in Keys(es) && k != key {
        var i :| 0 <= i < |es| && es[i].key == k;
        WithoutMembers(es, key, es[i]);
        var j :| 0 <= j < |rest| && rest[j] == es[i];
        assert rest[j].key == k;
      }
    }
  }

  /** Using a key last moves it to the front; `kept` of the others stay behind it. */
  lemma Promoted(c: nat, ops: seq<CacheOp>, es: seq<Entry>, key: nat, data: Bytes, kept: nat)
    requires c >= 1 && ops != [] && ByRecency(c, ops[..|ops| - 1], es)
    requires LastUse(c, ops, key) == |ops| - 1 && Latest(ops, key) == data
    requires forall k :: k != key ==> LastUse(c, ops, k) == LastUse(c, ops[..|ops| - 1], k) && Latest(ops, k) == Latest(ops[..|ops| - 1], k)
    requires Inserted(ops) == Inserted(ops[..|ops| - 1]) + {key}
    requires kept == Min(|Without(es, key)|, c - 1)
    ensures ByRecency(c, ops, [Entry(key, data)] + Without(es, key)[..kept])
  {
    hide LastUse, Latest, Inserted, Without, Sorted, LastOnes;
    RestFacts(c, ops[..|ops| - 1], es, key);
    PromotedSize(c, ops, es, key);
    PromotedSorted(c, ops, Without(es, key), key, data, kept);
    PromotedLast(c, ops, es, Without(es, key), key, data, kept);
  }

  lemma PromotedSorted(c: nat, ops: seq<CacheOp>, rest: seq<Entry>, key: nat, data: Bytes, kept: nat)
    requires ops != [] && Sorted(c, ops[..|ops| - 1], rest) && kept <= |rest|
    requires LastUse(c, ops, key) == |ops| - 1
    requires forall k :: k != key ==> LastUse(c, ops, k) == LastUse(c, ops[..|ops| - 1], k)
    requires forall i :: 0 <= i < |rest| ==> rest[i].key != key
    ensures Sorted(c, ops, [Entry(key, data)] + rest[..kept])
  {
    hide LastUse;
    var es' := [Entry(key, data)] + rest[..kept];
    forall i, j | 0 <= i < j < |es'|
      ensures LastUse(c, ops, es'[i].key) > LastUse(c, ops, es'[j].key)
    {
      assert es'[j] == rest[j - 1];
      UsedBefore(c, ops[..|ops| - 1], es'[j].key);
      if i > 0 { assert es'[i] == rest[i - 1]; }
    }
  }

  lemma PromotedLast(c: nat, ops: seq<CacheOp>, es: seq<Entry>, rest: seq<Entry>, key: nat, data: Bytes, kept: nat)
    requires ops != [] && Sorted(c, ops[..|ops| - 1], rest) && LastOnes(c, ops[..|ops| - 1], es) && kept <= |rest|
    requires LastUse(c, ops, key) == |ops| - 1 && Inserted(ops) == Inserted(ops[..|ops| - 1]) + {key}
    requires forall k :: k != key ==> LastUse(c, ops, k) == LastUse(c, ops[..|ops| - 1], k)
    requires forall i :: 0 <= i < |rest| ==> rest[i] in es && rest[i].key != key
    requires Keys(rest) == Keys(es) - {key}
    ensures LastOnes(c, ops, [Entry(key, data)] + rest[..kept])
  {
    hide LastUse, Inserted;
    var init, es' := ops[..|ops| - 1], [Entry(key, data)] + rest[..kept];
    FrontKeys(rest, kept, Entry(key, data));
    forall k, i | k in Inserted(ops) && k !in Keys(es') && 0 <= i < |es'|
      ensures LastUse(c, ops, k) < LastUse(c, ops, es'[i].key)
    {
      UsedBefore(c, init, k);
      if i > 0 {
        assert es'[i] == rest[i - 1];
        if k in Keys(rest) {
          var j :| 0 <= j < |rest| && rest[j].key == k;
          assert j >= kept;
        } else {
          var m :| 0 <= m < |es| && es[m] == rest[i - 1];
        }
      }
    }
  }

  lemma FrontKeys(rest: seq<Entry>, kept: nat, e: Entry)
    requires kept <= |rest|
    ensures e.key in Keys([e] + rest[..kept])
    ensures forall j :: 0 <= j < kept ==> rest[j].key in Keys([e] + rest[..kept])
  {
    var es' := [e] + rest[..kept];
    assert es'[0] == e;
    assert forall j :: 0 <= j < kept ==> rest[j] == es'[j + 1];
  }

  lemma PromotedSize(c: nat, ops: seq<CacheOp>, es: seq<Entry>, key: nat)
    requires c >= 1 && ops != [] && ByRecency(c, ops[..|ops| - 1], es)
    requires Inserted(ops) == Inserted(ops[..|ops| - 1]) + {key}
    ensures Min(|es| - if key in Keys(es) then 1 else 0, c - 1) + 1 == Min(c, |Inserted(ops)|)
  {
    hide LastUse, Latest, Inserted;
    var init := ops[..|ops| - 1];
    SortedDistinct(c, init, es);
    AllKeys(es);
    Larger(Keys(es), Inserted(init));
    if key in Inserted(init) {
      assert Inserted(ops) == Inserted(init);
    }
  }

  lemma Unchanged(c: nat, ops: seq<CacheOp>, es: seq<Entry>)
    requires ops != [] && ByRecency(c, ops[..|ops| - 1], es)
    requires Inserted(ops) == Inserted(ops[..|ops| - 1])
    requires forall k :: LastUse(c, ops, k) == LastUse(c, ops[..|ops| - 1], k) && Latest(ops, k) == Latest(ops[..|ops| - 1], k)
    ensures ByRecency(c, ops, es)
  {
    hide LastUse, Latest, Inserted;
  }

  lemma GetStep(c: nat, ops: seq<CacheOp>, cache: Cache, key: nat)
    requires ops != [] && ops[|ops| - 1] == GetOp(key) && cache.capacity == c && Consistent(cache)
    requires ByRecency(c, ops[..|ops| - 1], cache.entries)
    ensures ByRecency(c, ops, Lru.Get(cache, key).entries)
  {
    hide Held, ByRecency, Lookup, Without;
    var init, es := ops[..|ops| - 1], cache.entries;
    HeldIff(c, init, es, key);
    LookupFinds(es, key);
    if key in Keys(es) {
      var i :| 0 <= i < |es| && es[i].key == key;
      LookupUnique(es, i);
      LatestOf(c, init, es, i);
      RestSize(c, init, es, key);
      assert Inserted(ops) == Inserted(init) + {key};
      Promoted(c, ops, es, key, es[i].data, |Without(es, key)|);
      assert Without(es, key)[..|Without(es, key)|] == Without(es, key);
    } else {
      assert Lookup(es, key).None?;
      Unchanged(c, ops, es);
    }
  }

  lemma LatestOf(c: nat, ops: seq<CacheOp>, es: seq<Entry>, i: nat)
    requires ByRecency(c, ops, es) && i < |es|
    ensures es[i].data == Latest(ops, es[i].key) && es[i].key in Inserted(ops)
  {
    hide LastUse, Latest, Inserted;
  }

  lemma RestSize(c: nat, ops: seq<CacheOp>, es: seq<Entry>, key: nat)
    requires ByRecency(c, ops, es) && key in Keys(es)
    ensures c >= 1 && |Without(es, key)| <= c - 1
  {
    hide LastUse, Latest, Inserted;
    RestFacts(c, ops, es, key);
  }

  lemma InsertStep(c: nat, ops: seq<CacheOp>, cache: Cache, key: nat, data: Bytes)
    requires ops != [] && ops[|ops| - 1] == InsertOp(key, data)
    requires cache.capacity == c && c >= 1 && cache.maxMemory.None? && Consistent(cache)
    requires ByRecency(c, ops[..|ops| - 1], cache.entries)
    ensures ByRecency(c, ops, Lru.Insert(cache, key, data).entries)
  {
    hide Held, ByRecency, Without, Lru.Insert;
    InsertByCount(cache, key, data);
    Promoted(c, ops, cache.entries, key, data, Min(|Without(cache.entries, key)|, c - 1));
  }

  lemma NothingHeld(ops: seq<CacheOp>)
    ensures ByRecency(0, ops, [])
  {
    hide LastUse, Latest, Inserted;
  }

  /** After any trace of lookups and insertions without a memory limit: the list holds, last used first,
      the last used of the inserted keys, as many as the capacity allows, each with the data last
      inserted for it. */
  lemma {:induction false} RecencyLaw(c: nat, ops: seq<CacheOp>)
    ensures ByRecency(c, ops, RunCache(NewCache(c), ops).entries)
    decreases |ops|
  {
    hide ByRecency, Lru.Get, Lru.Insert, Consistent;
    if c == 0 {
      DisabledRun(ops);
      NothingHeld(ops);
    } else if ops == [] {
      NothingUsed(c);
    } else {
      var n := |ops| - 1;
      RecencyLaw(c, ops[..n]);
      var cache := RunCache(NewCache(c), ops[..n]);
      StartsConsistent(c);
      RunConsistent(NewCache(c), ops[..n]);
      match ops[n]
      case GetOp(key) => GetStep(c, ops, cache, key);
      case InsertOp(key, data) => InsertStep(c, ops, cache, key, data);
    }
  }

  lemma NothingUsed(c: nat)
    ensures ByRecency(c, [], [])
  {
  }

  lemma StartsConsistent(c: nat)
    ensures Consistent(NewCache(c))
  {
  }

  /** So after any trace a lookup hits exactly the held keys, and finds what was last inserted. */
  lemma HitsExactly(c: nat, ops: seq<CacheOp>, key: nat)
    ensures Lookup(RunCache(NewCache(c), ops).entries, key) == if Held(c, ops, key) then Some(Latest(ops, key)) else None
  {
    hide Held, ByRecency, Lookup, RunCache;
    var es := RunCache(NewCache(c), ops).entries;
    RecencyLaw(c, ops);
    HeldIff(c, ops, es, key);
    FoundIsThere(es, key);
    SortedDistinct(c, ops, es);
    if key in Keys(es) {
      var i :| 0 <= i < |es| && es[i].key == key;
      LookupUnique(es, i);
      LatestOf(c, ops, es, i);
    }
  }

  lemma FoundIsThere(es: seq<Entry>, key: nat)
    ensures Lookup(es, key).Some? ==> key in Keys(es)
  {
    hide Lookup;
    LookupFinds(es, key);
    if Lookup(es, key).Some? {
      var i :| 0 <= i < |es| && es[i] == Entry(key, Lookup(es, key).value);
      assert es[i].key == key;
    }
  }

  /** Under any limits: a hit moves its entry to the front and leaves the order of the others; a miss
      changes nothing. */
  lemma HitMovesToFront(cache: Cache, i: nat)
    requires Consistent(cache) && i < |cache.entries|
    ensures var es := cache.entries;
            Lru.Get(cache, es[i].key) == cache.(entries := [es[i]] + es[..i] + es[i + 1..])
  {
    hide Lookup, Without;
    var es := cache.entries;
    LookupUnique(es, i);
    WithoutAt(es, i);
    SeqAssoc([es[i]], es[..i], es[i + 1..]);
  }

  lemma MissChangesNothing(cache: Cache, key: nat)
    requires key !in Keys(cache.entries)
    ensures Lru.Get(cache, key) == cache
  {
    FoundIsThere(cache.entries, key);
  }
}
