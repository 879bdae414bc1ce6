/**
 * The record list of src/linked-list.c: one record per distinct
 * (source IP, destination IP) pair, kept in order of first observation, each
 * with the number of packets seen for it.
 *
 * The C list is a chain of heap nodes reached from the globals
 * `data_list_node_root` and `data_list_node_tail`; here it is the sequence
 * `FlowList.nodes`, whose root is `nodes[0]` and whose tail is the last
 * element.  A bucket entry of the hash table refers to a node by its
 * position in this sequence.
 */
module LinkedList {

  /** An IPv4 address: IP_SECTION_SIZE (4) bytes. */
  type Ip = s: seq<bv8> | |s| == 4 witness [0, 0, 0, 0]

  /** key_ip_pair_t.  Equality is byte-wise on both addresses, as memcmp is. */
  datatype IpPair = IpPair(sourceIp: Ip, destinationIp: Ip)

  /** data_list_node_t without its `next` link: the key and its packet count. */
  datatype FlowRecord = FlowRecord(ipPair: IpPair, refCount: nat)

  /** INITIAL_VALUE: the count of a freshly created record. */
  const InitialValue: nat := 1

  /** No two records share a key. */
  ghost predicate DistinctKeys(records: seq<FlowRecord>)
  {
    forall i, j :: 0 <= i < j < |records| ==> records[i].ipPair != records[j].ipPair
  }

  /** Every record has been observed at least once. */
  ghost predicate PositiveCounts(records: seq<FlowRecord>)
  {
    forall i :: 0 <= i < |records| ==> records[i].refCount >= 1
  }

  ghost predicate WellFormed(records: seq<FlowRecord>)
  {
    DistinctKeys(records) && PositiveCounts(records)
  }

  /** The sum of the packet counts, accumulated from the root towards the tail. */
  function SumCounts(records: seq<FlowRecord>): nat
  {
    if records == [] then 0
    else SumCounts(records[..|records| - 1]) + records[|records| - 1].refCount
  }

  /** The position of the record holding `key`, or |records| when there is none. */
  function Find(records: seq<FlowRecord>, key: IpPair): (i: nat)
    ensures i <= |records|
    ensures i < |records| ==> records[i].ipPair == key
    ensures forall j :: 0 <= j < i ==> records[j].ipPair != key
  {
    if records == [] then 0
    else if records[0].ipPair == key then 0
    else 1 + Find(records[1..], key)
  }

  /**
   * The record list after one packet with key `key` has been counted: the
   * matching record's count goes up by one, or, when no record matches, a
   * record with count INITIAL_VALUE is appended at the tail.
   */
  function Observe(records: seq<FlowRecord>, key: IpPair): seq<FlowRecord>
  {
    var i := Find(records, key);
    if i < |records| then records[i := records[i].(refCount := records[i].refCount + 1)]
    else records + [FlowRecord(key, InitialValue)]
  }

  /** The record list after the packets with keys `keys` have been counted, in order. */
  function ObserveAll(records: seq<FlowRecord>, keys: seq<IpPair>): seq<FlowRecord>
    decreases keys
  {
    if keys == [] then records
    else ObserveAll(Observe(records, keys[0]), keys[1..])
  }

  /** The count recorded for `key`, 0 when the key has never been observed. */
  function CountOf(records: seq<FlowRecord>, key: IpPair): nat
  {
    var i := Find(records, key);
    if i < |records| then records[i].refCount else 0
  }

  /** The number of times `key` occurs in `keys`. */
  function Occurrences(keys: seq<IpPair>, key: IpPair): nat
  {
    if keys == [] then 0
    else (if keys[0] == key then 1 else 0) + Occurrences(keys[1..], key)
  }

  /** Raising one record's count by one raises the sum by one. */
  lemma {:induction false} SumCountsIncrement(records: seq<FlowRecord>, i: nat)
    requires i < |records|
    ensures SumCounts(records[i := records[i].(refCount := records[i].refCount + 1)]) == SumCounts(records) + 1
  {
    var updated := records[i := records[i].(refCount := records[i].refCount + 1)];
    var n := |records|;
    if i < n - 1 {
      assert updated[..n - 1] == records[..n - 1][i := records[i].(refCount := records[i].refCount + 1)];
      SumCountsIncrement(records[..n - 1], i);
    } else {
      assert updated[..n - 1] == records[..n - 1];
    }
  }

  /**
   * One observation keeps keys distinct and counts positive, never moves or
   * re-keys an existing record, and adds exactly one to the total count.
   */
  lemma ObserveProperties(records: seq<FlowRecord>, key: IpPair)
    requires WellFormed(records)
    ensures WellFormed(Observe(records, key))
    ensures SumCounts(Observe(records, key)) == SumCounts(records) + 1
    ensures |Observe(records, key)| == |records| + (if Find(records, key) < |records| then 0 else 1)
    ensures forall j :: 0 <= j < |records| ==> Observe(records, key)[j].ipPair == records[j].ipPair
    ensures Find(Observe(records, key), key) == Find(records, key)
  {
    if Find(records, key) < |records| {
      ObserveHit(records, key);
    } else {
      ObserveMiss(records, key);
    }
  }

  /** ObserveProperties when the key is present: its record's count goes up in place. */
  lemma ObserveHit(records: seq<FlowRecord>, key: IpPair)
    requires WellFormed(records) && Find(records, key) < |records|
    ensures WellFormed(Observe(records, key))
    ensures SumCounts(Observe(records, key)) == SumCounts(records) + 1
    ensures |Observe(records, key)| == |records|
    ensures forall j :: 0 <= j < |records| ==> Observe(records, key)[j].ipPair == records[j].ipPair
    ensures Find(Observe(records, key), key) == Find(records, key)
  {
    var i := Find(records, key);
    var r := records[i := records[i].(refCount := records[i].refCount + 1)];
    assert Observe(records, key) == r;
    SumCountsIncrement(records, i);
    assert forall j :: 0 <= j < |r| ==> r[j].ipPair == records[j].ipPair;
    assert DistinctKeys(r);
    assert PositiveCounts(r);
    FindUnique(r, key, i);
  }

  /** ObserveProperties when the key is absent: a record with count 1 is appended. */
  lemma ObserveMiss(records: seq<FlowRecord>, key: IpPair)
    requires WellFormed(records) && Find(records, key) == |records|
    ensures WellFormed(Observe(records, key))
    ensures SumCounts(Observe(records, key)) == SumCounts(records) + 1
    ensures |Observe(records, key)| == |records| + 1
    ensures forall j :: 0 <= j < |records| ==> Observe(records, key)[j].ipPair == records[j].ipPair
    ensures Find(Observe(records, key), key) == Find(records, key)
  {
    var r := records + [FlowRecord(key, InitialValue)];
    assert Observe(records, key) == r;
    assert r[..|r| - 1] == records;
    assert DistinctKeys(r);
    assert PositiveCounts(r);
    FindUnique(r, key, |records|);
  }

  /** Conservation: the counts of the list add up to the number of packets counted into it. */
  lemma {:induction false} ObserveAllConserves(records: seq<FlowRecord>, keys: seq<IpPair>)
    requires WellFormed(records)
    ensures WellFormed(ObserveAll(records, keys))
    ensures SumCounts(ObserveAll(records, keys)) == SumCounts(records) + |keys|
    decreases keys
  {
    if keys != [] {
      ObserveProperties(records, keys[0]);
      ObserveAllConserves(Observe(records, keys[0]), keys[1..]);
    }
  }

  /** In a list with distinct keys, the record of `key` is the only one holding it. */
  lemma FindUnique(records: seq<FlowRecord>, key: IpPair, i: nat)
    requires DistinctKeys(records)
    requires i < |records| && records[i].ipPair == key
    ensures Find(records, key) == i
  {
  }

  /** Observing `key` adds one to its count and leaves every other key's count alone. */
  lemma ObserveCount(records: seq<FlowRecord>, key: IpPair, other: IpPair)
    requires WellFormed(records)
    ensures CountOf(Observe(records, key), other) == CountOf(records, other) + (if other == key then 1 else 0)
  {
    var j := Find(records, key);
    if j < |records| {
      ObserveHitUpdates(records, key);
      CountAfterIncrement(records, j, other);
    } else {
      CountAfterAppend(records, key, other);
    }
  }

  /** When the key is present, observing it updates its record in place. */
  lemma ObserveHitUpdates(records: seq<FlowRecord>, key: IpPair)
    requires Find(records, key) < |records|
    ensures var i := Find(records, key);
      Observe(records, key) == records[i := records[i].(refCount := records[i].refCount + 1)]
  {
  }

  /** Raising record `j`'s count raises the count of its key and of no other. */
  lemma CountAfterIncrement(records: seq<FlowRecord>, j: nat, other: IpPair)
    requires WellFormed(records) && j < |records|
    ensures CountOf(records[j := records[j].(refCount := records[j].refCount + 1)], other) ==
      CountOf(records, other) + (if other == records[j].ipPair then 1 else 0)
  {
    var r := records[j := records[j].(refCount := records[j].refCount + 1)];
    assert forall k :: 0 <= k < |r| ==> r[k].ipPair == records[k].ipPair;
    SameKeysDistinct(records, r);
    var i := Find(records, other);
    if other == records[j].ipPair {
      FindUnique(records, other, j);
      FindUnique(r, other, j);
    } else if i < |records| {
      assert r[i] == records[i];
      FindUnique(r, other, i);
    } else {
      OtherStillAbsent(records, r, other);
    }
  }

  /** Appending a fresh record with count 1 for an absent key counts that key once and no other. */
  lemma CountAfterAppend(records: seq<FlowRecord>, key: IpPair, other: IpPair)
    requires WellFormed(records) && Find(records, key) == |records|
    ensures CountOf(records + [FlowRecord(key, InitialValue)], other) ==
      CountOf(records, other) + (if other == key then 1 else 0)
  {
    var r := records + [FlowRecord(key, InitialValue)];
    assert DistinctKeys(r);
    var i := Find(records, other);
    if i < |records| {
      FindUnique(r, other, i);
    } else if other == key {
      FindUnique(r, other, |records|);
    } else {
      var k := Find(r, other);
      if k < |records| {
        assert false;
      }
    }
  }

  /** Changing counts only keeps keys distinct. */
  lemma SameKeysDistinct(records: seq<FlowRecord>, r: seq<FlowRecord>)
    requires DistinctKeys(records) && |r| == |records|
    requires forall k :: 0 <= k < |r| ==> r[k].ipPair == records[k].ipPair
    ensures DistinctKeys(r)
  {
  }

  /** A key absent from a list is absent from any list of the same length and keys. */
  lemma OtherStillAbsent(records: seq<FlowRecord>, r: seq<FlowRecord>, other: IpPair)
    requires Find(records, other) == |records| && |r| == |records|
    requires forall k :: 0 <= k < |r| ==> r[k].ipPair == records[k].ipPair
    ensures Find(r, other) == |r|
  {
    var k := Find(r, other);
    if k < |r| {
      assert false;
    }
  }

  /**
   * The count a list ends with for `key` is the count it started with plus
   * the number of times `key` was observed.
   */
  lemma {:induction false} ObserveAllCount(records: seq<FlowRecord>, keys: seq<IpPair>, key: IpPair)
    requires WellFormed(records)
    ensures CountOf(ObserveAll(records, keys), key) == CountOf(records, key) + Occurrences(keys, key)
    decreases keys
  {
    if keys != [] {
      ObserveCount(records, keys[0], key);
      ObserveProperties(records, keys[0]);
      ObserveAllCount(Observe(records, keys[0]), keys[1..], key);
    }
  }

  /** Occurrences agrees with the multiplicity in the multiset of keys. */
  lemma {:induction false} OccurrencesMultiset(keys: seq<IpPair>, key: IpPair)
    ensures Occurrences(keys, key) == multiset(keys)[key]
  {
    if keys != [] {
      OccurrencesMultiset(keys[1..], key);
      assert keys == [keys[0]] + keys[1..];
    }
  }

  /**
   * Order independence: two runs over the same packets in any order end with
   * the same count for every key.
   */
  lemma ObserveAllOrderIndependent(keys1: seq<IpPair>, keys2: seq<IpPair>, key: IpPair)
    requires multiset(keys1) == multiset(keys2)
    ensures CountOf(ObserveAll([], keys1), key) == CountOf(ObserveAll([], keys2), key)
  {
    ObserveAllCount([], keys1, key);
    ObserveAllCount([], keys2, key);
    OccurrencesMultiset(keys1, key);
    OccurrencesMultiset(keys2, key);
  }

  /** Idempotent detection: observing one key n times yields one record with count n. */
  lemma {:induction false} ObserveRepeated(key: IpPair, n: nat)
    requires n >= 1
    ensures ObserveAll([], seq(n, _ => key)) == [FlowRecord(key, n)]
  {
    if n == 1 {
      assert seq(1, _ => key)[1..] == [];
    } else {
      ObserveRepeated(key, n - 1);
      ObserveRepeatedFrom(key, n - 1);
    }
  }

  lemma {:induction false} ObserveRepeatedFrom(key: IpPair, n: nat)
    requires n >= 1
    ensures ObserveAll([], seq(n + 1, _ => key)) == Observe(ObserveAll([], seq(n, _ => key)), key)
  {
    assert seq(n + 1, _ => key) == seq(n, _ => key) + [key];
    ObserveAllAppend([], seq(n, _ => key), key);
  }

  /** Observing one more key at the end is one more Observe step. */
  lemma {:induction false} ObserveAllAppend(records: seq<FlowRecord>, keys: seq<IpPair>, key: IpPair)
    ensures ObserveAll(records, keys + [key]) == Observe(ObserveAll(records, keys), key)
    decreases keys
  {
    if keys == [] {
      assert ([] + [key])[1..] == [];
    } else {
      assert (keys + [key])[1..] == keys[1..] + [key];
      ObserveAllAppend(Observe(records, keys[0]), keys[1..], key);
    }
  }

  /** Observing two runs of keys one after the other is observing their concatenation. */
  lemma {:induction false} ObserveAllConcat(records: seq<FlowRecord>, first: seq<IpPair>, second: seq<IpPair>)
    ensures ObserveAll(records, first + second) == ObserveAll(ObserveAll(records, first), second)
    decreases first
  {
    if first == [] {
      assert first + second == second;
    } else {
      assert (first + second)[0] == first[0];
      assert (first + second)[1..] == first[1..] + second;
      ObserveAllConcat(Observe(records, first[0]), first[1..], second);
    }
  }

  /** The process-wide record list: `data_list_node_root` .. `data_list_node_tail`. */
  class FlowList {
    var nodes: seq<FlowRecord>

    /** Both globals start out NULL: the list is empty. */
    constructor ()
      ensures nodes == []
    {
      nodes := [];
    }

    /**
     * insert_into_linked_list: appends a node holding its own copy of `ipPair`
     * with count INITIAL_VALUE after the tail; `node` (the out-parameter
     * `*list`) is the new node, which becomes the tail, and the root too when
     * the list was empty.  Earlier nodes keep their keys, counts and order.
     */
    method Append(ipPair: IpPair) returns (node: nat)
      modifies this
      ensures nodes == old(nodes) + [FlowRecord(ipPair, InitialValue)]
      ensures node == |old(nodes)| && node == |nodes| - 1
    {
      node := |nodes|;
      nodes := nodes + [FlowRecord(ipPair, InitialValue)];
    }

    /** The running total of print_linked_list: the counts summed from root to tail. */
    method TotalCount() returns (total: nat)
      ensures total == SumCounts(nodes)
    {
      total := 0;
      var current := 0;
      while current < |nodes|
        invariant current <= |nodes|
        invariant total == SumCounts(nodes[..current])
      {
        assert nodes[..current + 1][..current] == nodes[..current];
        total := total + nodes[current].refCount;
        current := current + 1;
      }
      assert nodes[..current] == nodes;
    }
  }
}
