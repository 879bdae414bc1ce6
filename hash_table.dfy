/**
 * The chained hash table of src/hash.c over the record list of
 * src/linked-list.c.
 *
 * The C table is an array of `tableSize` bucket heads, each a singly linked
 * chain of entries; an entry points at a record node of the list.  Here a
 * bucket is the sequence of its entries from head to tail, and an entry is
 * the position of its record in `FlowList.nodes`.  Records are never copied:
 * a rehash rebuilds the chains only.
 */
module Hash {
  import opened Wrappers
  import opened LinkedList
  import opened HashFunction
  import opened Primes

  /** TABLE_SIZE: the size main.c rounds up to a prime for the first table. */
  const TableSize: nat := 2

  /** NEXT_MULTIPLIER: a rehash grows the table to the next prime after this multiple. */
  const NextMultiplier: nat := 2

  /** MAX_LOAD_FACTOR. */
  const MaxLoadFactor: real := 0.75

  /** The load check `num_elements >= MAX_LOAD_FACTOR * table_size` in integers. */
  predicate OverLoaded(numElements: nat, tableSize: nat)
  {
    4 * numElements >= 3 * tableSize
  }

  /** The integer test agrees with the floating-point comparison of the source. */
  lemma OverLoadedIsLoadFactor(numElements: nat, tableSize: nat)
    ensures OverLoaded(numElements, tableSize) <==> numElements as real >= MaxLoadFactor * tableSize as real
  {
  }

  /** The entries of all buckets, bucket 0 first, each chain from head to tail. */
  function Flatten(chains: seq<seq<nat>>): seq<nat>
  {
    if chains == [] then []
    else Flatten(chains[..|chains| - 1]) + chains[|chains| - 1]
  }

  /** A table of `n` empty buckets, as calloc returns it. */
  function EmptyChains(n: nat): (r: seq<seq<nat>>)
    ensures |r| == n
  {
    seq(n, _ => [])
  }

  /** Every entry refers to a record, and sits in the bucket its record's key hashes to. */
  ghost predicate Placed(chains: seq<seq<nat>>, records: seq<FlowRecord>)
  {
    |chains| > 0 &&
    forall b, k :: 0 <= b < |chains| && 0 <= k < |chains[b]| ==>
      chains[b][k] < |records| && IpPairHash(records[chains[b][k]].ipPair, |chains|) == b
  }

  /**
   * The chains index the records: entries are placed, and every record is
   * referred to by exactly one entry of the whole table.
   */
  ghost predicate Indexes(chains: seq<seq<nat>>, records: seq<FlowRecord>)
  {
    Placed(chains, records) &&
    forall x :: 0 <= x < |records| ==> multiset(Flatten(chains))[x] == 1
  }

  /** Every entry of a sequence refers to a record. */
  ghost predicate Refers(entries: seq<nat>, records: seq<FlowRecord>)
  {
    forall k :: 0 <= k < |entries| ==> entries[k] < |records|
  }

  /** The chains after an entry for record `e` is linked at the head of its bucket. */
  function Push(chains: seq<seq<nat>>, records: seq<FlowRecord>, e: nat): (r: seq<seq<nat>>)
    requires |chains| > 0 && e < |records|
    ensures |r| == |chains|
  {
    var h := IpPairHash(records[e].ipPair, |chains|);
    chains[h := [e] + chains[h]]
  }

  /** The chains after entries for `entries` have been linked at bucket heads, in order. */
  function PushAll(entries: seq<nat>, records: seq<FlowRecord>, chains: seq<seq<nat>>): (r: seq<seq<nat>>)
    requires |chains| > 0 && Refers(entries, records)
    ensures |r| == |chains|
    decreases entries
  {
    if entries == [] then chains
    else PushAll(entries[1..], records, Push(chains, records, entries[0]))
  }

  /**
   * The chains rehash builds in a table of `newSize` buckets: the old entries
   * are visited bucket by bucket, each chain from head to tail, and each is
   * linked at the head of the bucket its key hashes to under the new size.
   */
  ghost function Rehashed(chains: seq<seq<nat>>, records: seq<FlowRecord>, newSize: nat): (r: seq<seq<nat>>)
    requires Placed(chains, records) && newSize > 0
    ensures |r| == newSize
  {
    FlattenRefers(chains, records, |chains|);
    assert chains[..|chains|] == chains;
    PushAll(Flatten(chains), records, EmptyChains(newSize))
  }

  /**
   * The chains after the lookup of `key` in insert_into_hash_table: unchanged
   * when a record already holds the key, otherwise with the entry of the new
   * tail record linked at the head of the key's bucket.
   */
  ghost function AfterLookup(chains: seq<seq<nat>>, records: seq<FlowRecord>, key: IpPair): seq<seq<nat>>
    requires |chains| > 0
  {
    if Find(records, key) < |records| then chains
    else Push(chains, records + [FlowRecord(key, InitialValue)], |records|)
  }

  lemma {:induction false} FlattenEmpty(n: nat)
    ensures Flatten(EmptyChains(n)) == []
  {
    if n > 0 {
      assert EmptyChains(n)[..n - 1] == EmptyChains(n - 1);
      FlattenEmpty(n - 1);
    }
  }

  /** Entries of placed chains, up to bucket i, refer to records. */
  lemma {:induction false} FlattenRefers(chains: seq<seq<nat>>, records: seq<FlowRecord>, i: nat)
    requires Placed(chains, records) && i <= |chains|
    ensures Refers(Flatten(chains[..i]), records)
  {
    if i > 0 {
      assert chains[..i][..i - 1] == chains[..i - 1];
      FlattenRefers(chains, records, i - 1);
    }
  }

  /** Each entry of the flattened table is found in some bucket. */
  lemma {:induction false} InFlatten(chains: seq<seq<nat>>, y: nat) returns (b: nat, k: nat)
    requires y in multiset(Flatten(chains))
    ensures b < |chains| && k < |chains[b]| && chains[b][k] == y
  {
    var n := |chains|;
    if y in multiset(chains[n - 1]) {
      b := n - 1;
      k :| 0 <= k < |chains[b]| && chains[b][k] == y;
    } else {
      b, k := InFlatten(chains[..n - 1], y);
    }
  }

  /** A bucket's multiplicity of an entry is at most the table's. */
  lemma {:induction false} FlattenCountAtLeast(chains: seq<seq<nat>>, b: nat, y: nat)
    requires b < |chains|
    ensures multiset(chains[b])[y] <= multiset(Flatten(chains))[y]
  {
    var n := |chains|;
    if b < n - 1 {
      FlattenCountAtLeast(chains[..n - 1], b, y);
    }
  }

  /** Linking `e` at the head of one bucket adds exactly `e` to the table's entries. */
  lemma {:induction false} FlattenPushHead(chains: seq<seq<nat>>, b: nat, e: nat)
    requires b < |chains|
    ensures multiset(Flatten(chains[b := [e] + chains[b]])) == multiset(Flatten(chains)) + multiset{e}
  {
    var n := |chains|;
    var updated := chains[b := [e] + chains[b]];
    if b == n - 1 {
      assert updated[..n - 1] == chains[..n - 1];
    } else {
      assert updated[..n - 1] == chains[..n - 1][b := [e] + chains[b]];
      FlattenPushHead(chains[..n - 1], b, e);
    }
  }

  /** Placed chains hold no entry beyond the records. */
  lemma PlacedCountZero(chains: seq<seq<nat>>, records: seq<FlowRecord>, y: nat)
    requires Placed(chains, records) && y >= |records|
    ensures multiset(Flatten(chains))[y] == 0
  {
    if y in multiset(Flatten(chains)) {
      var b, k := InFlatten(chains, y);
    }
  }

  /** Placement only looks at keys: records that keep their keys keep the chains placed. */
  lemma PlacedSameKeys(chains: seq<seq<nat>>, records: seq<FlowRecord>, records': seq<FlowRecord>)
    requires Placed(chains, records)
    requires |records| <= |records'|
    requires forall i :: 0 <= i < |records| ==> records'[i].ipPair == records[i].ipPair
    ensures Placed(chains, records')
  {
  }

  /** One push keeps the chains placed and adds its entry once. */
  lemma PushPlaced(chains: seq<seq<nat>>, records: seq<FlowRecord>, e: nat)
    requires Placed(chains, records) && e < |records|
    ensures Placed(Push(chains, records, e), records)
    ensures multiset(Flatten(Push(chains, records, e))) == multiset(Flatten(chains)) + multiset{e}
  {
    var h := IpPairHash(records[e].ipPair, |chains|);
    var r := Push(chains, records, e);
    forall b, k | 0 <= b < |r| && 0 <= k < |r[b]|
      ensures r[b][k] < |records| && IpPairHash(records[r[b][k]].ipPair, |r|) == b
    {
      if b != h {
        assert r[b][k] == chains[b][k];
      } else if k > 0 {
        assert r[b][k] == chains[b][k - 1];
      }
    }
    FlattenPushHead(chains, h, e);
  }

  /** Pushing a run of entries keeps the chains placed and adds exactly those entries. */
  lemma {:induction false} PushAllPlaced(entries: seq<nat>, records: seq<FlowRecord>, chains: seq<seq<nat>>)
    requires Placed(chains, records) && Refers(entries, records)
    ensures Placed(PushAll(entries, records, chains), records)
    ensures multiset(Flatten(PushAll(entries, records, chains))) == multiset(Flatten(chains)) + multiset(entries)
    decreases entries
  {
    if entries != [] {
      PushPlaced(chains, records, entries[0]);
      PushAllPlaced(entries[1..], records, Push(chains, records, entries[0]));
      assert entries == [entries[0]] + entries[1..];
    }
  }

  /** Pushing one more entry after a run is one more push. */
  lemma {:induction false} PushAllAppend(entries: seq<nat>, records: seq<FlowRecord>, chains: seq<seq<nat>>, e: nat)
    requires |chains| > 0 && Refers(entries, records) && e < |records|
    ensures Refers(entries + [e], records)
    ensures PushAll(entries + [e], records, chains) == Push(PushAll(entries, records, chains), records, e)
    decreases entries
  {
    if entries == [] {
      assert ([] + [e])[1..] == [];
    } else {
      assert (entries + [e])[1..] == entries[1..] + [e];
      PushAllAppend(entries[1..], records, Push(chains, records, entries[0]), e);
    }
  }

  /** The entries of a placed bucket refer to records. */
  lemma ChainRefers(chains: seq<seq<nat>>, records: seq<FlowRecord>, b: nat)
    requires Placed(chains, records) && b < |chains|
    ensures Refers(chains[b], records)
  {
  }

  /** Pushing two runs one after the other is pushing their concatenation. */
  lemma {:induction false} PushAllConcat(first: seq<nat>, second: seq<nat>, records: seq<FlowRecord>, chains: seq<seq<nat>>)
    requires |chains| > 0 && Refers(first, records) && Refers(second, records)
    ensures Refers(first + second, records)
    ensures PushAll(first + second, records, chains) == PushAll(second, records, PushAll(first, records, chains))
    decreases first
  {
    if first != [] {
      assert (first + second)[1..] == first[1..] + second;
      PushAllConcat(first[1..], second, records, Push(chains, records, first[0]));
    } else {
      assert first + second == second;
    }
  }

  /** Rehashing an index yields an index of the same records under the new size. */
  lemma RehashedIndexes(chains: seq<seq<nat>>, records: seq<FlowRecord>, newSize: nat)
    requires Indexes(chains, records) && newSize > 0
    ensures Indexes(Rehashed(chains, records, newSize), records)
    ensures multiset(Flatten(Rehashed(chains, records, newSize))) == multiset(Flatten(chains))
  {
    FlattenRefers(chains, records, |chains|);
    assert chains[..|chains|] == chains;
    FlattenEmpty(newSize);
    PushAllPlaced(Flatten(chains), records, EmptyChains(newSize));
  }

  /**
   * Every record is referred to by exactly one entry, in the bucket its key
   * hashes to, and by none in any other bucket.
   */
  lemma EntryUnique(chains: seq<seq<nat>>, records: seq<FlowRecord>, x: nat, b: nat)
    requires Indexes(chains, records) && x < |records| && b < |chains|
    ensures multiset(chains[b])[x] == (if b == IpPairHash(records[x].ipPair, |chains|) then 1 else 0)
  {
    FlattenCountAtLeast(chains, b, x);
    if x in multiset(chains[b]) {
      var k :| 0 <= k < |chains[b]| && chains[b][k] == x;
    }
    if b == IpPairHash(records[x].ipPair, |chains|) {
      var b', k := InFlatten(chains, x);
    }
  }

  /** A key whose bucket holds no entry with that key is held by no record. */
  lemma AbsentFromChain(chains: seq<seq<nat>>, records: seq<FlowRecord>, key: IpPair)
    requires Indexes(chains, records)
    requires forall j :: 0 <= j < |chains[IpPairHash(key, |chains|)]| ==>
      records[chains[IpPairHash(key, |chains|)][j]].ipPair != key
    ensures Find(records, key) == |records|
  {
    var i := Find(records, key);
    if i < |records| {
      var b, k := InFlatten(chains, i);
    }
  }

  /** Counting one more packet for a present record keeps the index. */
  lemma IncrementIndexes(chains: seq<seq<nat>>, records: seq<FlowRecord>, x: nat)
    requires Indexes(chains, records) && x < |records|
    ensures Indexes(chains, records[x := records[x].(refCount := records[x].refCount + 1)])
  {
    PlacedSameKeys(chains, records, records[x := records[x].(refCount := records[x].refCount + 1)]);
  }

  /**
   * A lookup that finds `key` in the record at `x`: the records become those
   * of one more observation of `key`, the chains stay as they are and still
   * index them.
   */
  lemma LookupFound(chains: seq<seq<nat>>, records: seq<FlowRecord>, key: IpPair, x: nat)
    requires Indexes(chains, records) && WellFormed(records)
    requires x < |records| && records[x].ipPair == key
    ensures Observe(records, key) == records[x := records[x].(refCount := records[x].refCount + 1)]
    ensures AfterLookup(chains, records, key) == chains
    ensures Indexes(chains, Observe(records, key)) && WellFormed(Observe(records, key))
  {
    FindUnique(records, key, x);
    IncrementIndexes(chains, records, x);
    ObserveProperties(records, key);
  }

  /**
   * A lookup that does not find `key`: the records gain a tail record for it,
   * whose entry goes at the head of the key's bucket, and the chains still
   * index the records.
   */
  lemma LookupAbsent(chains: seq<seq<nat>>, records: seq<FlowRecord>, key: IpPair)
    requires Indexes(chains, records) && WellFormed(records)
    requires Find(records, key) == |records|
    ensures Observe(records, key) == records + [FlowRecord(key, InitialValue)]
    ensures AfterLookup(chains, records, key) ==
      chains[IpPairHash(key, |chains|) := [|records|] + chains[IpPairHash(key, |chains|)]]
    ensures Indexes(AfterLookup(chains, records, key), Observe(records, key)) && WellFormed(Observe(records, key))
  {
    AppendNewIndexes(chains, records, key);
    ObserveProperties(records, key);
  }

  lemma AppendNewIndexes(chains: seq<seq<nat>>, records: seq<FlowRecord>, key: IpPair)
    requires Indexes(chains, records) && Find(records, key) == |records|
    ensures Indexes(Push(chains, records + [FlowRecord(key, InitialValue)], |records|), records + [FlowRecord(key, InitialValue)])
  {
    var records' := records + [FlowRecord(key, InitialValue)];
    var chains' := Push(chains, records', |records|);
    PlacedSameKeys(chains, records, records');
    PushPlaced(chains, records', |records|);
    PlacedCountZero(chains, records, |records|);
    forall x | 0 <= x < |records'|
      ensures multiset(Flatten(chains'))[x] == 1
    {
      if x < |records| {
        assert multiset(Flatten(chains))[x] == 1;
        assert multiset{|records|}[x] == 0;
      } else {
        assert x == |records|;
      }
    }
  }

  /**
   * The walk along one old chain in rehash: each entry, head to tail, is
   * linked at the head of the bucket of `newTable` its key hashes to.
   */
  method RelinkChain(newTable: array<seq<nat>>, chain: seq<nat>, records: seq<FlowRecord>)
    requires newTable.Length > 0 && Refers(chain, records)
    modifies newTable
    ensures newTable[..] == PushAll(chain, records, old(newTable[..]))
  {
    ghost var start := newTable[..];
    var k := 0;
    while k < |chain|
      invariant 0 <= k <= |chain|
      invariant Refers(chain[..k], records)
      invariant newTable[..] == PushAll(chain[..k], records, start)
    {
      var node := chain[k];
      var hash := IpPairHash(records[node].ipPair, newTable.Length);
      ghost var before := newTable[..];
      PushAllAppend(chain[..k], records, start, node);
      assert chain[..k + 1] == chain[..k] + [node];
      newTable[hash] := [node] + newTable[hash];
      assert newTable[..] == Push(before, records, node);
      k := k + 1;
    }
    assert chain[..k] == chain;
  }

  /**
   * The loop of rehash over the old buckets: a fresh array of `newSize`
   * empty buckets into which every old chain, bucket 0 first, is relinked.
   * The old array is only read.
   */
  method Relink(oldTable: array<seq<nat>>, records: seq<FlowRecord>, newSize: nat) returns (newTable: array<seq<nat>>)
    requires Placed(oldTable[..], records) && newSize > 0
    ensures fresh(newTable)
    ensures newTable[..] == Rehashed(oldTable[..], records, newSize)
  {
    newTable := new seq<nat>[newSize](_ => []);
    ghost var chains := oldTable[..];
    assert newTable[..] == EmptyChains(newSize);
    assert chains[..0] == [];
    var i := 0;
    while i < oldTable.Length
      invariant 0 <= i <= oldTable.Length
      invariant Refers(Flatten(chains[..i]), records)
      invariant newTable[..] == PushAll(Flatten(chains[..i]), records, EmptyChains(newSize))
    {
      assert chains[..i + 1][..i] == chains[..i];
      FlattenRefers(chains, records, i + 1);
      ChainRefers(chains, records, i);
      PushAllConcat(Flatten(chains[..i]), chains[i], records, EmptyChains(newSize));
      RelinkChain(newTable, oldTable[i], records);
      i := i + 1;
    }
    assert chains[..i] == chains;
  }

  /**
   * The walk along the key's chain in insert_into_hash_table: the position of
   * the first entry whose record holds `key` (memcmp-equal on both
   * addresses), or the chain's length when there is none.
   */
  method SearchChain(chain: seq<nat>, records: seq<FlowRecord>, key: IpPair) returns (k: nat)
    requires Refers(chain, records)
    ensures k <= |chain|
    ensures k < |chain| ==> records[chain[k]].ipPair == key
    ensures forall j :: 0 <= j < k ==> records[chain[j]].ipPair != key
  {
    k := 0;
    while k < |chain|
      invariant 0 <= k <= |chain|
      invariant forall j :: 0 <= j < k ==> records[chain[j]].ipPair != key
    {
      if records[chain[k]].ipPair == key {
        return;
      }
      k := k + 1;
    }
  }

  /**
   * The hash table together with the process-wide state it updates: the
   * bucket array and its size (passed by pointer in the C code), the static
   * `num_elements` counter of insert_into_hash_table, and the record list.
   */
  class HashTable {
    var buckets: array<seq<nat>>
    var tableSize: nat
    var numElements: nat
    const list: FlowList

    /**
     * The table is `tableSize` buckets, a prime number of them; the counter
     * equals the number of records; keys are distinct and counts positive;
     * and the chains index the records.
     */
    ghost predicate Valid()
      reads this, buckets, list
    {
      buckets.Length == tableSize && tableSize > 0 && Prime(tableSize) &&
      numElements == |list.nodes| &&
      WellFormed(list.nodes) &&
      Indexes(buckets[..], list.nodes)
    }

    /** main: a table of next_prime(TABLE_SIZE) empty buckets over an empty list. */
    constructor ()
      ensures Valid()
      ensures IsNextPrime(tableSize, TableSize)
      ensures numElements == 0 && list.nodes == []
      ensures fresh(buckets) && fresh(list)
    {
      var size := NextPrime(TableSize);
      buckets := new seq<nat>[size](_ => []);
      tableSize := size;
      numElements := 0;
      list := new FlowList();
      new;
      assert buckets[..] == EmptyChains(size);
      FlattenEmpty(size);
    }

    /**
     * rehash: a fresh array of next_prime(NEXT_MULTIPLIER * tableSize)
     * buckets, into which every entry of the old chains is relinked, bucket by
     * bucket and head to tail, at the head of its new bucket.  The records,
     * their order and counts, and the counter are untouched; the old array is
     * left as it was.
     */
    method Rehash()
      requires Valid()
      modifies this
      ensures Valid()
      ensures IsNextPrime(tableSize, NextMultiplier * old(tableSize)) && tableSize > old(tableSize)
      ensures fresh(buckets)
      ensures buckets[..] == Rehashed(old(buckets[..]), list.nodes, tableSize)
      ensures numElements == old(numElements)
    {
      var newSize := NextPrime(NextMultiplier * tableSize);
      ghost var chains := buckets[..];
      var newTable := Relink(buckets, list.nodes, newSize);
      RehashedIndexes(chains, list.nodes, newSize);
      buckets := newTable;
      tableSize := newSize;
    }

    /**
     * insert_into_hash_table.  No key (a NULL pointer) changes nothing.
     * Otherwise the load check comes first and rehashes when
     * 4 * numElements >= 3 * tableSize, whether or not the key is present;
     * then the key's bucket is searched: a record holding the key has its
     * count raised by one, and an absent key gets a new tail record with count
     * INITIAL_VALUE whose entry is linked at the head of the bucket, and the
     * counter goes up by one.
     */
    method Insert(ipPair: Option<IpPair>)
      requires Valid()
      modifies this, buckets, list
      ensures Valid()
      ensures ipPair.None? ==>
        buckets == old(buckets) && buckets[..] == old(buckets[..]) && tableSize == old(tableSize) &&
        numElements == old(numElements) && list.nodes == old(list.nodes)
      ensures ipPair.Some? ==> list.nodes == Observe(old(list.nodes), ipPair.value)
      ensures ipPair.Some? && OverLoaded(old(numElements), old(tableSize)) ==>
        IsNextPrime(tableSize, NextMultiplier * old(tableSize)) && fresh(buckets)
      ensures ipPair.Some? && !OverLoaded(old(numElements), old(tableSize)) ==>
        tableSize == old(tableSize) && buckets == old(buckets)
      ensures ipPair.Some? ==>
        buckets[..] == AfterLookup(
          if OverLoaded(old(numElements), old(tableSize))
          then Rehashed(old(buckets[..]), old(list.nodes), tableSize)
          else old(buckets[..]),
          old(list.nodes), ipPair.value)
    {
      if ipPair.None? {
        return;
      }
      var key := ipPair.value;
      OverLoadedIsLoadFactor(numElements, tableSize);
      if numElements as real >= MaxLoadFactor * tableSize as real {
        Rehash();
      }
      LookupOrAppend(key);
    }

    /**
     * The part of insert_into_hash_table after the load check: the search of
     * the key's bucket, and either the count increment of the record found or
     * the new tail record with its entry at the head of the bucket.
     */
    method LookupOrAppend(key: IpPair)
      requires Valid()
      modifies this, buckets, list
      ensures Valid()
      ensures list.nodes == Observe(old(list.nodes), key)
      ensures buckets == old(buckets) && tableSize == old(tableSize)
      ensures buckets[..] == AfterLookup(old(buckets[..]), old(list.nodes), key)
    {
      ghost var chains := buckets[..];
      ghost var records := list.nodes;
      var hash := IpPairHash(key, tableSize);
      ChainRefers(chains, records, hash);
      var k := SearchChain(buckets[hash], list.nodes, key);
      if k < |buckets[hash]| {
        var current := buckets[hash][k];
        LookupFound(chains, records, key, current);
        list.nodes := list.nodes[current := list.nodes[current].(refCount := list.nodes[current].refCount + 1)];
      } else {
        AbsentFromChain(chains, records, key);
        LookupAbsent(chains, records, key);
        var newNode := list.Append(key);
        buckets[hash] := [newNode] + buckets[hash];
        numElements := numElements + 1;
      }
    }
  }
}
