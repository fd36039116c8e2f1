/** The block cache as a value (src/block_cache.rs): a recency list, most recently used first,
    with a count limit and an optional memory limit. */
module Lru {
  import opened Prelude

  datatype Entry = Entry(key: nat, data: Bytes)
  datatype Cache = Cache(entries: seq<Entry>, capacity: nat, maxMemory: Option<nat>)

  function Without(es: seq<Entry>, key: nat): (r: seq<Entry>)
    ensures |r| <= |es|
  {
    if es == [] then []
    else (if es[0].key == key then [] else [es[0]]) + Without(es[1..], key)
  }

  function Lookup(es: seq<Entry>, key: nat): Option<Bytes> {
    if es == [] then None else if es[0].key == key then Some(es[0].data) else Lookup(es[1..], key)
  }

  function Memory(es: seq<Entry>): nat {
    if es == [] then 0 else Memory(es[..|es| - 1]) + |es[|es| - 1].data|
  }

  ghost predicate Distinct(es: seq<Entry>) {
    forall i, j :: 0 <= i < j < |es| ==> es[i].key != es[j].key
  }

  ghost predicate Consistent(c: Cache) {
    Distinct(c.entries) && |c.entries| <= c.capacity
  }

  function Get(c: Cache, key: nat): Cache {
    if c.capacity == 0 || Lookup(c.entries, key).None? then c
    else c.(entries := [Entry(key, Lookup(c.entries, key).value)] + Without(c.entries, key))
  }

  /** Least recently used entries go until `size` more bytes fit, or nothing is left. */
  function EvictMemory(es: seq<Entry>, size: nat, maxMemory: Option<nat>): (r: seq<Entry>)
    ensures |r| <= |es| && r == es[..|r|]
  {
    if maxMemory.Some? && Memory(es) + size > maxMemory.value && es != []
    then EvictMemory(es[..|es| - 1], size, maxMemory) else es
  }

  /** Least recently used entries go until there is room for one more. */
  function EvictCount(es: seq<Entry>, capacity: nat): (r: seq<Entry>)
    requires capacity >= 1
    ensures r == es[..Min(|es|, capacity - 1)]
  {
    if |es| >= capacity then EvictCount(es[..|es| - 1], capacity) else es
  }

  function Insert(c: Cache, key: nat, data: Bytes): Cache {
    if c.capacity == 0 then c
    else c.(entries := [Entry(key, data)] +
                       EvictCount(EvictMemory(Without(c.entries, key), |data|, c.maxMemory), c.capacity))
  }

  // --- The recency list ---

  lemma {:induction false} LookupFinds(es: seq<Entry>, key: nat)
    ensures Lookup(es, key).Some? ==> Entry(key, Lookup(es, key).value) in es
    ensures Lookup(es, key).None? ==> forall i :: 0 <= i < |es| ==> es[i].key != key
  {
    if es != [] {
      LookupFinds(es[1..], key);
      assert es == [es[0]] + es[1..];
    }
  }

  lemma {:induction false} LookupUnique(es: seq<Entry>, i: nat)
    requires Distinct(es) && i < |es|
    ensures Lookup(es, es[i].key) == Some(es[i].data)
  {
    if i > 0 { LookupUnique(es[1..], i - 1); }
  }

  lemma {:induction false} WithoutAbsent(es: seq<Entry>, key: nat)
    requires forall i :: 0 <= i < |es| ==> es[i].key != key
    ensures Without(es, key) == es
  {
    if es != [] {
      WithoutAbsent(es[1..], key);
      assert es == [es[0]] + es[1..];
    }
  }

  lemma {:induction false} WithoutAt(es: seq<Entry>, i: nat)
    requires Distinct(es) && i < |es|
    ensures Without(es, es[i].key) == es[..i] + es[i + 1..]
  {
    var tail := es[1..];
    if i == 0 {
      WithoutAbsent(tail, es[0].key);
      assert es[..0] + es[1..] == tail;
    } else {
      WithoutAt(tail, i - 1);
      assert es[..i] + es[i + 1..] == [es[0]] + (tail[..i - 1] + tail[i..]);
    }
  }

  lemma {:induction false} WithoutMembers(es: seq<Entry>, key: nat, e: Entry)
    ensures e in Without(es, key) <==> e in es && e.key != key
  {
    if es != [] {
      WithoutMembers(es[1..], key, e);
      assert es == [es[0]] + es[1..];
    }
  }

  lemma WithoutDistinct(es: seq<Entry>, key: nat)
    requires Distinct(es)
    ensures Distinct(Without(es, key))
    ensures forall i :: 0 <= i < |Without(es, key)| ==> Without(es, key)[i].key != key
  {
    hide Without;
    if k :| 0 <= k < |es| && es[k].key == key {
      WithoutAt(es, k);
    } else {
      WithoutAbsent(es, key);
    }
  }

  lemma {:induction false} WithoutCommutes(es: seq<Entry>, j: nat, k: nat)
    ensures Without(Without(es, j), k) == Without(Without(es, k), j)
  {
    if es != [] {
      WithoutCommutes(es[1..], j, k);
      WithoutCons(es[0], es[1..], j);
      WithoutCons(es[0], es[1..], k);
      WithoutCons(es[0], Without(es[1..], j), k);
      WithoutCons(es[0], Without(es[1..], k), j);
      assert es == [es[0]] + es[1..];
    }
  }

  lemma WithoutCons(e: Entry, es: seq<Entry>, key: nat)
    ensures Without([e] + es, key) == if e.key == key then Without(es, key) else [e] + Without(es, key)
  {
    assert ([e] + es)[1..] == es;
  }

  lemma FrontDistinct(e: Entry, es: seq<Entry>, n: nat)
    requires Distinct(es) && n <= |es| && forall i :: 0 <= i < |es| ==> es[i].key != e.key
    ensures Distinct([e] + es[..n])
  {
  }

  lemma InsertConsistent(c: Cache, key: nat, data: Bytes)
    requires Consistent(c)
    ensures Consistent(Insert(c, key, data))
  {
    if c.capacity > 0 {
      hide EvictMemory, EvictCount;
      var rest := Without(c.entries, key);
      WithoutDistinct(c.entries, key);
      var kept := EvictMemory(rest, |data|, c.maxMemory);
      FrontDistinct(Entry(key, data), rest, Min(|kept|, c.capacity - 1));
      assert kept[..Min(|kept|, c.capacity - 1)] == rest[..Min(|kept|, c.capacity - 1)];
    }
  }

  lemma GetConsistent(c: Cache, key: nat)
    requires Consistent(c)
    ensures Consistent(Get(c, key))
  {
    LookupFinds(c.entries, key);
    if c.capacity > 0 && Lookup(c.entries, key).Some? {
      hide Lookup, Without;
      var e := Entry(key, Lookup(c.entries, key).value);
      var k :| 0 <= k < |c.entries| && c.entries[k] == e;
      WithoutDistinct(c.entries, key);
      WithoutAt(c.entries, k);
      var rest := Without(c.entries, key);
      FrontDistinct(e, rest, |rest|);
      assert rest[..|rest|] == rest;
    }
  }

  /** A hit changes the order only. */
  lemma GetKeepsEntries(c: Cache, key: nat, e: Entry)
    requires Consistent(c)
    ensures e in Get(c, key).entries <==> e in c.entries
  {
    LookupFinds(c.entries, key);
    if c.capacity > 0 && Lookup(c.entries, key).Some? {
      WithoutMembers(c.entries, key, e);
      if e in c.entries && e.key == key {
        var i :| 0 <= i < |c.entries| && c.entries[i] == e;
        LookupUnique(c.entries, i);
      }
    }
  }

  // --- What an insertion keeps ---

  /** `n` old entries fit beside a new one of `size` bytes. */
  ghost predicate Fits(es: seq<Entry>, n: nat, size: nat, c: Cache) {
    n <= |es| && n + 1 <= c.capacity && (c.maxMemory.Some? ==> Memory(es[..n]) + size <= c.maxMemory.value)
  }

  lemma {:induction false} MemoryMonotone(es: seq<Entry>, i: nat, j: nat)
    requires i <= j <= |es|
    ensures Memory(es[..i]) <= Memory(es[..j])
    decreases j
  {
    if i < j {
      MemoryMonotone(es, i, j - 1);
      assert es[..j][..j - 1] == es[..j - 1];
    }
  }

  lemma {:induction false} EvictMemoryLongest(es: seq<Entry>, size: nat, maxMemory: Option<nat>, q: nat)
    requires q <= |es| && (maxMemory.Some? ==> Memory(es[..q]) + size <= maxMemory.value)
    ensures q <= |EvictMemory(es, size, maxMemory)|
    decreases |es|
  {
    if maxMemory.Some? && Memory(es) + size > maxMemory.value && es != [] {
      assert es[..|es|] == es;
      assert es[..|es| - 1][..q] == es[..q];
      EvictMemoryLongest(es[..|es| - 1], size, maxMemory, q);
    }
  }

  lemma {:induction false} EvictMemoryFits(es: seq<Entry>, size: nat, maxMemory: Option<nat>)
    ensures var r := EvictMemory(es, size, maxMemory); r == [] || maxMemory.None? || Memory(r) + size <= maxMemory.value
    decreases |es|
  {
    if maxMemory.Some? && Memory(es) + size > maxMemory.value && es != [] {
      EvictMemoryFits(es[..|es| - 1], size, maxMemory);
    }
  }

  /** An insertion keeps the new entry and then the longest prefix of the old recency list (minus
      the key) that fits both limits; when even none fits the new entry stays alone. */
  lemma InsertKeepsLongestPrefix(c: Cache, key: nat, data: Bytes)
    requires c.capacity >= 1
    ensures var rest := Without(c.entries, key); var es := Insert(c, key, data).entries; var n := |es| - 1;
            && n >= 0 && n <= |rest| && es == [Entry(key, data)] + rest[..n]
            && (n == 0 || Fits(rest, n, |data|, c))
            && forall q: nat :: Fits(rest, q, |data|, c) ==> q <= n
  {
    hide EvictMemory, EvictCount, Without, Memory;
    var rest := Without(c.entries, key);
    var kept := EvictMemory(rest, |data|, c.maxMemory);
    EvictMemoryFits(rest, |data|, c.maxMemory);
    var n := Min(|kept|, c.capacity - 1);
    assert kept[..n] == rest[..n];
    MemoryMonotone(rest, n, |kept|);
    forall q: nat | Fits(rest, q, |data|, c)
      ensures q <= n
    {
      EvictMemoryLongest(rest, |data|, c.maxMemory, q);
    }
  }

  lemma {:induction false} MemoryCons(e: Entry, es: seq<Entry>)
    ensures Memory([e] + es) == |e.data| + Memory(es)
  {
    if es == [] {
      assert [e] + es == [e] && [e][..0] == [];
    } else {
      MemoryCons(e, es[..|es| - 1]);
      assert ([e] + es)[..|es|] == [e] + es[..|es| - 1];
    }
  }

  /** Memory exceeds the limit only when the newest entry does so on its own. */
  lemma InsertMemory(c: Cache, key: nat, data: Bytes)
    requires c.capacity >= 1 && c.maxMemory.Some?
    ensures var es := Insert(c, key, data).entries;
            Memory(es) > c.maxMemory.value ==> es == [Entry(key, data)] && |data| > c.maxMemory.value
  {
    hide Insert, Without;
    InsertKeepsLongestPrefix(c, key, data);
    var es := Insert(c, key, data).entries;
    var rest := Without(c.entries, key)[..|es| - 1];
    MemoryCons(Entry(key, data), rest);
    if |es| == 1 { assert rest == [] && es == [Entry(key, data)]; }
  }

  // --- A larger cache never loses a hit ---

  datatype CacheOp = GetOp(key: nat) | InsertOp(key: nat, data: Bytes)

  function ApplyCache(c: Cache, op: CacheOp): Cache {
    match op
    case GetOp(key) => Get(c, key)
    case InsertOp(key, data) => Insert(c, key, data)
  }

  function RunCache(c: Cache, ops: seq<CacheOp>): Cache {
    if ops == [] then c else ApplyCache(RunCache(c, ops[..|ops| - 1]), ops[|ops| - 1])
  }

  /** The smaller recency list is the larger one, or the larger one minus a single entry. */
  ghost predicate OneLess(large: seq<Entry>, small: seq<Entry>) {
    small == large || exists i :: 0 <= i < |large| && small == Without(large, large[i].key)
  }

  lemma OneLessBy(large: seq<Entry>, small: seq<Entry>, key: nat)
    requires Distinct(large) && small == Without(large, key)
    ensures OneLess(large, small)
  {
    hide Without;
    if i :| 0 <= i < |large| && large[i].key == key {
    } else {
      WithoutAbsent(large, key);
    }
  }

  lemma OneLessKey(large: seq<Entry>, small: seq<Entry>) returns (key: nat)
    requires OneLess(large, small)
    ensures small == Without(large, key) || small == large
    ensures small != large ==> exists i :: 0 <= i < |large| && large[i].key == key
  {
    if small == large {
      key := 0;
    } else {
      var i :| 0 <= i < |large| && small == Without(large, large[i].key);
      key := large[i].key;
    }
  }

  lemma LookupWithout(es: seq<Entry>, drop: nat, key: nat)
    requires Distinct(es)
    ensures Lookup(Without(es, drop), key) == if key == drop then None else Lookup(es, key)
  {
    hide Lookup, Without;
    var rest := Without(es, drop);
    WithoutDistinct(es, drop);
    LookupFinds(rest, key);
    LookupFinds(es, key);
    if Lookup(rest, key).Some? {
      var e := Entry(key, Lookup(rest, key).value);
      WithoutMembers(es, drop, e);
      var i :| 0 <= i < |es| && es[i] == e;
      LookupUnique(es, i);
    } else if Lookup(es, key).Some? {
      WithoutMembers(es, drop, Entry(key, Lookup(es, key).value));
    }
  }

  lemma GetOneLess(large: Cache, small: Cache, key: nat)
    requires Consistent(large) && Consistent(small) && small.capacity >= 1 && large.capacity >= 1
    requires OneLess(large.entries, small.entries)
    ensures OneLess(Get(large, key).entries, Get(small, key).entries)
  {
    hide Lookup, Without;
    var a, b := large.entries, small.entries;
    if a != b {
      var drop := OneLessKey(a, b);
      LookupWithout(a, drop, key);
      GetConsistent(large, key);
      if Lookup(a, key).Some? {
        var e := Entry(key, Lookup(a, key).value);
        WithoutCons(e, Without(a, key), drop);
        if key == drop {
          WithoutDistinct(a, key);
          WithoutAbsent(Without(a, key), key);
        } else {
          WithoutCommutes(a, drop, key);
        }
        OneLessBy(Get(large, key).entries, Get(small, key).entries, drop);
      }
    }
  }

  /** What insertion does without a memory limit. */
  lemma InsertByCount(c: Cache, key: nat, data: Bytes)
    requires c.capacity >= 1 && c.maxMemory.None?
    ensures var rest := Without(c.entries, key);
            Insert(c, key, data).entries == [Entry(key, data)] + rest[..Min(|rest|, c.capacity - 1)]
  {
  }

  lemma DropLast(es: seq<Entry>, n: nat)
    requires Distinct(es) && n < |es|
    ensures Without(es[..n + 1], es[n].key) == es[..n]
  {
    hide Without;
    WithoutAt(es[..n + 1], n);
    assert es[..n + 1][..n] + es[..n + 1][n + 1..] == es[..n];
  }

  /** Cutting commutes with removing one entry, when that entry is inside the cut. */
  lemma CutWithout(es: seq<Entry>, i: nat, n: nat)
    requires Distinct(es) && i < n <= |es|
    ensures |Without(es, es[i].key)| == |es| - 1
    ensures Without(es[..n], es[i].key) == Without(es, es[i].key)[..n - 1]
  {
    hide Without;
    WithoutAt(es, i);
    WithoutAt(es[..n], i);
    assert es[..n][..i] + es[..n][i + 1..] == (es[..i] + es[i + 1..])[..n - 1];
  }

  /** The heart of the inclusion: keeping c of the larger list and c - 1 of the smaller. */
  lemma CutOneLess(a: seq<Entry>, b: seq<Entry>, c: nat) returns (drop: nat)
    requires Distinct(a) && c >= 1 && OneLess(a, b) && |a| <= c + 1 && |b| <= c
    ensures var cutA := a[..Min(|a|, c)]; var cutB := b[..Min(|b|, c - 1)];
            cutB == cutA || (cutB == Without(cutA, drop) && exists i :: 0 <= i < |cutA| && cutA[i].key == drop)
  {
    hide Without;
    drop := 0;
    if a == b {
      if |a| == c {
        drop := a[c - 1].key;
        DropLast(a, c - 1);
        assert a[..c][c - 1].key == drop;
      } else {
        assert a[..|a|] == a;
      }
    } else {
      var i :| 0 <= i < |a| && b == Without(a, a[i].key);
      WithoutAt(a, i);
      assert |b| == |a| - 1;
      if i < Min(|a|, c) {
        drop := a[i].key;
        CutWithout(a, i, Min(|a|, c));
        assert a[..Min(|a|, c)][i].key == drop;
      } else {
        assert i == c && |a| == c + 1 && b == a[..c];
        drop := a[c - 1].key;
        DropLast(a, c - 1);
        assert a[..c][c - 1].key == drop;
        assert a[..c][..c - 1] == a[..c - 1];
      }
    }
  }

  lemma WithoutKeepsOneLess(a: seq<Entry>, b: seq<Entry>, key: nat)
    requires Distinct(a) && OneLess(a, b)
    ensures OneLess(Without(a, key), Without(b, key))
  {
    hide Without;
    if a != b {
      var drop := OneLessKey(a, b);
      WithoutCommutes(a, drop, key);
      WithoutDistinct(a, key);
      OneLessBy(Without(a, key), Without(b, key), drop);
    }
  }

  lemma InsertOneLess(large: Cache, small: Cache, key: nat, data: Bytes)
    requires Consistent(large) && Consistent(small) && large.maxMemory.None? && small.maxMemory.None?
    requires small.capacity >= 1 && large.capacity == small.capacity + 1
    requires OneLess(large.entries, small.entries)
    ensures OneLess(Insert(large, key, data).entries, Insert(small, key, data).entries)
  {
    var a, b := Without(large.entries, key), Without(small.entries, key);
    hide Without, OneLess, Insert;
    WithoutKeepsOneLess(large.entries, small.entries, key);
    WithoutDistinct(large.entries, key);
    InsertByCount(large, key, data);
    InsertByCount(small, key, data);
    InsertConsistent(large, key, data);
    var c := small.capacity;
    var cutA, cutB := a[..Min(|a|, c)], b[..Min(|b|, c - 1)];
    var drop := CutOneLess(a, b, c);
    var e := Entry(key, data);
    if cutA == cutB {
      OneLessSame([e] + cutA);
    } else {
      WithoutCons(e, cutA, drop);
      OneLessBy([e] + cutA, [e] + cutB, drop);
    }
  }

  lemma OneLessSame(es: seq<Entry>)
    ensures OneLess(es, es)
  {
  }

  lemma {:induction false} RunConsistent(c: Cache, ops: seq<CacheOp>)
    requires Consistent(c)
    ensures Consistent(RunCache(c, ops)) && RunCache(c, ops).capacity == c.capacity && RunCache(c, ops).maxMemory == c.maxMemory
  {
    if ops != [] {
      hide Consistent, Insert, Get;
      var n := |ops| - 1;
      RunConsistent(c, ops[..n]);
      StepKeepsLimits(RunCache(c, ops[..n]), ops[n]);
      match ops[n]
      case GetOp(key) => GetConsistent(RunCache(c, ops[..n]), key);
      case InsertOp(key, data) => InsertConsistent(RunCache(c, ops[..n]), key, data);
    }
  }

  lemma StepKeepsLimits(c: Cache, op: CacheOp)
    ensures ApplyCache(c, op).capacity == c.capacity && ApplyCache(c, op).maxMemory == c.maxMemory
  {
  }

  function NewCache(capacity: nat): Cache { Cache([], capacity, None) }

  lemma {:induction false} NextCapacity(c: nat, ops: seq<CacheOp>)
    requires c >= 1
    ensures OneLess(RunCache(NewCache(c + 1), ops).entries, RunCache(NewCache(c), ops).entries)
  {
    RunConsistent(NewCache(c), ops);
    RunConsistent(NewCache(c + 1), ops);
    if ops != [] {
      hide Consistent, Insert, Get, OneLess;
      var n := |ops| - 1;
      NextCapacity(c, ops[..n]);
      RunConsistent(NewCache(c), ops[..n]);
      RunConsistent(NewCache(c + 1), ops[..n]);
      match ops[n]
      case GetOp(key) => GetOneLess(RunCache(NewCache(c + 1), ops[..n]), RunCache(NewCache(c), ops[..n]), key);
      case InsertOp(key, data) => InsertOneLess(RunCache(NewCache(c + 1), ops[..n]), RunCache(NewCache(c), ops[..n]), key, data);
    } else {
      assert RunCache(NewCache(c), ops).entries == [];
    }
  }

  lemma {:induction false} DisabledRun(ops: seq<CacheOp>)
    ensures RunCache(NewCache(0), ops) == NewCache(0)
  {
    if ops != [] { DisabledRun(ops[..|ops| - 1]); }
  }

  /** On any trace, whatever a cache holds a larger cache holds too, with the same data. */
  lemma {:induction false} LargerCacheIncludes(c: nat, d: nat, ops: seq<CacheOp>, e: Entry)
    requires c <= d && e in RunCache(NewCache(c), ops).entries
    ensures e in RunCache(NewCache(d), ops).entries
    decreases d
  {
    hide OneLess, Without;
    DisabledRun(ops);
    if c < d {
      LargerCacheIncludes(c, d - 1, ops, e);
      NextCapacity(d - 1, ops);
      var key := OneLessKey(RunCache(NewCache(d), ops).entries, RunCache(NewCache(d - 1), ops).entries);
      WithoutMembers(RunCache(NewCache(d), ops).entries, key, e);
    }
  }

  /** So a hit stays a hit, with the same data, at any larger capacity. */
  lemma LargerCacheHits(c: nat, d: nat, ops: seq<CacheOp>, key: nat)
    requires c <= d && Lookup(RunCache(NewCache(c), ops).entries, key).Some?
    ensures Lookup(RunCache(NewCache(d), ops).entries, key) == Lookup(RunCache(NewCache(c), ops).entries, key)
  {
    hide RunCache, Lookup;
    var small, large := RunCache(NewCache(c), ops).entries, RunCache(NewCache(d), ops).entries;
    LookupFinds(small, key);
    var e := Entry(key, Lookup(small, key).value);
    LargerCacheIncludes(c, d, ops, e);
    RunConsistent(NewCache(d), ops);
    var i :| 0 <= i < |large| && large[i] == e;
    LookupUnique(large, i);
  }

  // --- With a memory limit ---

  lemma RunSnoc(c: Cache, ops: seq<CacheOp>, op: CacheOp)
    ensures RunCache(c, ops + [op]) == ApplyCache(RunCache(c, ops), op)
    ensures RunCache(c, []) == c
  {
    assert (ops + [op])[..|ops|] == ops;
  }

  lemma SmallMemory(x: Entry, y: Entry, z: Entry)
    ensures Memory([]) == 0 && Memory([x]) == |x.data| && Memory([x, y]) == |x.data| + |y.data|
    ensures Memory([x, y, z]) == |x.data| + |y.data| + |z.data|
  {
    assert [x][..0] == [] && [x, y][..1] == [x] && [x, y, z][..2] == [x, y];
  }

  /** The five calls on which a larger cache loses a block that a smaller one keeps. */
  function Trace(x: Bytes, a: Bytes, b: Bytes, d: Bytes): seq<CacheOp> {
    [InsertOp(0, x)] + [InsertOp(1, a)] + [InsertOp(2, b)] + [GetOp(0)] + [InsertOp(3, d)]
  }

  lemma InsertNew(c: Cache, key: nat, data: Bytes, kept: nat)
    requires c.capacity >= 1 && Lookup(c.entries, key).None? && kept <= |c.entries|
    requires EvictMemory(c.entries, |data|, c.maxMemory) == c.entries[..kept]
    ensures Insert(c, key, data).entries == [Entry(key, data)] + c.entries[..Min(kept, c.capacity - 1)]
  {
    hide EvictMemory;
    LookupFinds(c.entries, key);
    WithoutAbsent(c.entries, key);
    assert c.entries[..kept][..Min(kept, c.capacity - 1)] == c.entries[..Min(kept, c.capacity - 1)];
  }

  /** With a memory limit of 10, and blocks of 8, 1, 1 and 2 bytes: capacity 2 ends up holding block 2,
      capacity 3 does not. Inclusion is a property of caches without a memory limit. */
  lemma LimitBreaksInclusion(x: Bytes, a: Bytes, b: Bytes, d: Bytes)
    requires |x| == 8 && |a| == 1 && |b| == 1 && |d| == 2
    ensures RunCache(Cache([], 2, Some(10)), Trace(x, a, b, d)).entries == [Entry(3, d), Entry(2, b)]
    ensures RunCache(Cache([], 3, Some(10)), Trace(x, a, b, d)).entries == [Entry(3, d), Entry(0, x)]
  {
    SmallerKeeps(x, a, b, d);
    LargerLoses(x, a, b, d);
  }

  lemma SmallerKeeps(x: Bytes, a: Bytes, b: Bytes, d: Bytes)
    requires |x| == 8 && |a| == 1 && |b| == 1 && |d| == 2
    ensures RunCache(Cache([], 2, Some(10)), Trace(x, a, b, d)).entries == [Entry(3, d), Entry(2, b)]
  {
    hide RunCache, Insert, Memory;
    var c0 := Cache([], 2, Some(10));
    var c2 := Cache([Entry(1, a), Entry(0, x)], 2, Some(10));
    var c3 := Cache([Entry(2, b), Entry(1, a)], 2, Some(10));
    FirstTwo(2, x, a);
    SmallMemory(Entry(1, a), Entry(0, x), Entry(0, x));
    SmallMemory(Entry(2, b), Entry(1, a), Entry(0, x));
    Misses2(Entry(1, a), Entry(0, x), 2);
    InsertNew(c2, 2, b, 2);
    RunSnoc(c0, [InsertOp(0, x)] + [InsertOp(1, a)], InsertOp(2, b));
    KeepsLimits(c2, 2, b);
    assert Insert(c2, 2, b) == c3;
    Misses2(Entry(2, b), Entry(1, a), 0);
    RunSnoc(c0, [InsertOp(0, x)] + [InsertOp(1, a)] + [InsertOp(2, b)], GetOp(0));
    Misses2(Entry(2, b), Entry(1, a), 3);
    InsertNew(c3, 3, d, 2);
    RunSnoc(c0, [InsertOp(0, x)] + [InsertOp(1, a)] + [InsertOp(2, b)] + [GetOp(0)], InsertOp(3, d));
  }

  /** Up to the second insertion both caches are alike. */
  lemma FirstTwo(capacity: nat, x: Bytes, a: Bytes)
    requires capacity >= 2 && |x| == 8 && |a| == 1
    ensures RunCache(Cache([], capacity, Some(10)), [InsertOp(0, x)] + [InsertOp(1, a)]) ==
            Cache([Entry(1, a), Entry(0, x)], capacity, Some(10))
  {
    hide RunCache, Insert, Memory;
    var c0 := Cache([], capacity, Some(10));
    var c1 := Cache([Entry(0, x)], capacity, Some(10));
    SmallMemory(Entry(0, x), Entry(0, x), Entry(0, x));
    InsertNew(c0, 0, x, 0);
    KeepsLimits(c0, 0, x);
    assert c0.entries[..0] == [];
    assert Insert(c0, 0, x) == c1;
    assert [] + [InsertOp(0, x)] == [InsertOp(0, x)];
    RunSnoc(c0, [], InsertOp(0, x));
    assert c1.entries[1..] == [] && c1.entries[..1] == c1.entries;
    assert Lookup(c1.entries, 1).None?;
    InsertNew(c1, 1, a, 1);
    KeepsLimits(c1, 1, a);
    assert Insert(c1, 1, a).entries == [Entry(1, a), Entry(0, x)];
    RunSnoc(c0, [InsertOp(0, x)], InsertOp(1, a));
  }

  lemma KeepsLimits(c: Cache, key: nat, data: Bytes)
    ensures Insert(c, key, data).capacity == c.capacity && Insert(c, key, data).maxMemory == c.maxMemory
  {
  }

  lemma Misses2(x: Entry, y: Entry, key: nat)
    requires x.key != key && y.key != key
    ensures Lookup([x, y], key).None?
  {
    assert [x, y][1..] == [y] && [y][1..] == [];
    assert Lookup([y], key).None?;
  }

  lemma LargerLoses(x: Bytes, a: Bytes, b: Bytes, d: Bytes)
    requires |x| == 8 && |a| == 1 && |b| == 1 && |d| == 2
    ensures RunCache(Cache([], 3, Some(10)), Trace(x, a, b, d)).entries == [Entry(3, d), Entry(0, x)]
  {
    hide RunCache, Insert, Memory;
    var c0 := Cache([], 3, Some(10));
    var c2 := Cache([Entry(1, a), Entry(0, x)], 3, Some(10));
    var c3 := Cache([Entry(2, b), Entry(1, a), Entry(0, x)], 3, Some(10));
    var c4 := Cache([Entry(0, x), Entry(2, b), Entry(1, a)], 3, Some(10));
    FirstTwo(3, x, a);
    SmallMemory(Entry(1, a), Entry(0, x), Entry(0, x));
    Misses2(Entry(1, a), Entry(0, x), 2);
    assert c2.entries[..2] == c2.entries;
    InsertNew(c2, 2, b, 2);
    KeepsLimits(c2, 2, b);
    assert Insert(c2, 2, b) == c3;
    RunSnoc(c0, [InsertOp(0, x)] + [InsertOp(1, a)], InsertOp(2, b));
    MovesLast(Entry(2, b), Entry(1, a), Entry(0, x));
    RunSnoc(c0, [InsertOp(0, x)] + [InsertOp(1, a)] + [InsertOp(2, b)], GetOp(0));
    assert RunCache(c0, [InsertOp(0, x)] + [InsertOp(1, a)] + [InsertOp(2, b)]) == c3;
    assert Get(c3, 0).entries == [Entry(0, x)] + [Entry(2, b), Entry(1, a)];
    assert Get(c3, 0) == c4;
    assert RunCache(c0, [InsertOp(0, x)] + [InsertOp(1, a)] + [InsertOp(2, b)] + [GetOp(0)]) == c4;
    EvictsTwo(Entry(0, x), Entry(2, b), Entry(1, a));
    assert c4.entries[..1] == [Entry(0, x)];
    InsertNew(c4, 3, d, 1);
    assert Insert(c4, 3, d).entries == [Entry(3, d), Entry(0, x)];
    RunSnoc(c0, [InsertOp(0, x)] + [InsertOp(1, a)] + [InsertOp(2, b)] + [GetOp(0)], InsertOp(3, d));
  }

  lemma MovesLast(x: Entry, y: Entry, z: Entry)
    requires x.key != z.key && y.key != z.key
    ensures Lookup([x, y, z], z.key) == Some(z.data) && Without([x, y, z], z.key) == [x, y]
  {
    assert [x, y, z][1..] == [y, z] && [y, z][1..] == [z] && [z][1..] == [];
    assert Lookup([z], z.key) == Some(z.data) && Without([z], z.key) == [];
    assert Lookup([y, z], z.key) == Some(z.data) && Without([y, z], z.key) == [y];
  }

  lemma EvictsTwo(x: Entry, y: Entry, z: Entry)
    requires |x.data| == 8 && |y.data| == 1 && |z.data| == 1 && x.key != 3 && y.key != 3 && z.key != 3
    ensures EvictMemory([x, y, z], 2, Some(10)) == [x] && Lookup([x, y, z], 3).None?
  {
    SmallMemory(x, y, z);
    SmallMemory(x, y, y);
    assert [x, y, z][..2] == [x, y] && [x, y][..1] == [x];
    assert EvictMemory([x], 2, Some(10)) == [x];
    assert EvictMemory([x, y], 2, Some(10)) == [x];
    assert [x, y, z][1..] == [y, z];
    Misses2(y, z, 3);
  }
}
