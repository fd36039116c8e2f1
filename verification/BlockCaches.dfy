/** `BlockCache` (src/block_cache.rs), with the operations of the `LruCache` it wraps. */
module BlockCaches {
  import opened Prelude
  import opened Lru

  /** `LruCache::put`: an insertion into a full list silently drops its last entry. */
  function Put(entries: seq<Entry>, lruCapacity: nat, e: Entry): seq<Entry>
    requires lruCapacity >= 1
  {
    var rest := Without(entries, e.key);
    if |rest| == |entries| >= lruCapacity then [e] + entries[..lruCapacity - 1] else [e] + rest
  }

  class BlockCache {
    var entries: seq<Entry>
    const lruCapacity: nat
    const capacity: nat
    const maxMemoryBytes: Option<nat>
    var currentMemoryBytes: nat

    ghost predicate Valid()
      reads this
    {
      && lruCapacity == Max(capacity, 1)
      && Consistent(State())
      && currentMemoryBytes == Memory(entries)
    }

    function State(): Cache
      reads this
    {
      Cache(entries, capacity, maxMemoryBytes)
    }

    constructor (capacity: nat, maxMemoryBytes: Option<nat>)
      ensures Valid() && State() == Cache([], capacity, maxMemoryBytes)
    {
      entries := [];
      lruCapacity := Max(capacity, 1);
      this.capacity := capacity;
      this.maxMemoryBytes := maxMemoryBytes;
      currentMemoryBytes := 0;
    }

    method Get(blockIndex: nat) returns (r: Option<Bytes>)
      requires Valid()
      modifies this
      ensures Valid() && State() == Lru.Get(old(State()), blockIndex)
      ensures r == if capacity == 0 then None else Lookup(old(entries), blockIndex)
    {
      if capacity == 0 { return None; }
      r := Lookup(entries, blockIndex);
      if r.Some? {
        GetConsistent(State(), blockIndex);
        MoveMemory(entries, blockIndex);
        entries := [Entry(blockIndex, r.value)] + Without(entries, blockIndex);
      }
    }

    method EvictOne()
      requires currentMemoryBytes == Memory(entries)
      modifies this
      ensures entries == if old(entries) == [] then [] else old(entries[..|entries| - 1])
      ensures currentMemoryBytes == Memory(entries)
    {
      if entries != [] {
        var entry := entries[|entries| - 1];
        entries := entries[..|entries| - 1];
        currentMemoryBytes := currentMemoryBytes - |entry.data|;
      }
    }

    /** The two eviction loops of an insertion. */
    method MakeRoom(size: nat)
      requires capacity >= 1 && currentMemoryBytes == Memory(entries)
      modifies this
      ensures entries == EvictCount(EvictMemory(old(entries), size, maxMemoryBytes), capacity)
      ensures currentMemoryBytes == Memory(entries)
    {
      hide Memory;
      if maxMemoryBytes.Some? {
        while currentMemoryBytes + size > maxMemoryBytes.value && entries != []
          invariant currentMemoryBytes == Memory(entries)
          invariant EvictMemory(old(entries), size, maxMemoryBytes) == EvictMemory(entries, size, maxMemoryBytes)
          decreases |entries|
        {
          EvictOne();
        }
      }
      ghost var kept := entries;
      while |entries| >= capacity
        invariant currentMemoryBytes == Memory(entries)
        invariant EvictCount(kept, capacity) == EvictCount(entries, capacity)
        decreases |entries|
      {
        EvictOne();
      }
    }

    method Insert(blockIndex: nat, data: Bytes)
      requires Valid()
      modifies this
      ensures Valid() && State() == Lru.Insert(old(State()), blockIndex, data)
    {
      hide Without, Lookup, Memory, EvictMemory, EvictCount;
      if capacity == 0 { return; }
      InsertConsistent(State(), blockIndex, data);
      var size := |data|;
      var oldEntry := Lookup(entries, blockIndex);
      RemoveMemory(entries, blockIndex);
      WithoutDistinct(entries, blockIndex);
      entries := Without(entries, blockIndex);
      if oldEntry.Some? {
        currentMemoryBytes := currentMemoryBytes - |oldEntry.value|;
      }
      ghost var rest := entries;
      MakeRoom(size);
      EvictedPrefix(rest, size, maxMemoryBytes, capacity);
      PutWithRoom(rest, entries, blockIndex, data);
      MemoryCons(Entry(blockIndex, data), entries);
      currentMemoryBytes := currentMemoryBytes + size;
      entries := Put(entries, lruCapacity, Entry(blockIndex, data));
    }

    /** The evictions above leave room, so the inner `put` never evicts behind the accounting. */
    lemma PutWithRoom(rest: seq<Entry>, es: seq<Entry>, blockIndex: nat, data: Bytes)
      requires lruCapacity == Max(capacity, 1) && |es| < capacity && |es| <= |rest| && es == rest[..|es|]
      requires forall i :: 0 <= i < |rest| ==> rest[i].key != blockIndex
      ensures Put(es, lruCapacity, Entry(blockIndex, data)) == [Entry(blockIndex, data)] + es
    {
      WithoutAbsent(es, blockIndex);
    }
  }

  lemma EvictedPrefix(es: seq<Entry>, size: nat, maxMemory: Option<nat>, capacity: nat)
    requires capacity >= 1
    ensures var r := EvictCount(EvictMemory(es, size, maxMemory), capacity);
            |r| < capacity && |r| <= |es| && r == es[..|r|]
  {
  }

  lemma {:induction false} MemoryConcat(a: seq<Entry>, b: seq<Entry>)
    ensures Memory(a + b) == Memory(a) + Memory(b)
  {
    if b == [] {
      assert a + b == a;
    } else {
      MemoryConcat(a, b[..|b| - 1]);
      assert (a + b)[..|a| + |b| - 1] == a + b[..|b| - 1];
    }
  }

  lemma RemoveMemory(es: seq<Entry>, key: nat)
    requires Distinct(es)
    ensures Memory(es) == Memory(Without(es, key)) + if Lookup(es, key).Some? then |Lookup(es, key).value| else 0
  {
    hide Lookup, Without, Memory;
    LookupFinds(es, key);
    if Lookup(es, key).Some? {
      var i :| 0 <= i < |es| && es[i] == Entry(key, Lookup(es, key).value);
      WithoutAt(es, i);
      assert es == es[..i] + ([es[i]] + es[i + 1..]);
      MemoryConcat(es[..i], [es[i]] + es[i + 1..]);
      MemoryCons(es[i], es[i + 1..]);
      MemoryConcat(es[..i], es[i + 1..]);
    } else {
      WithoutAbsent(es, key);
    }
  }

  lemma MoveMemory(es: seq<Entry>, key: nat)
    requires Distinct(es) && Lookup(es, key).Some?
    ensures Memory([Entry(key, Lookup(es, key).value)] + Without(es, key)) == Memory(es)
  {
    hide Lookup, Without, Memory;
    RemoveMemory(es, key);
    MemoryCons(Entry(key, Lookup(es, key).value), Without(es, key));
  }
}
