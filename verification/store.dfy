/** The in-memory key-value store with modulo placement and replication
    (src/CoordinatorNode.cpp): `InMemoryNode`, an append-only list of
    records, and `DistributedDB`, which writes every key to a primary node
    chosen by hashing and to the nodes after it. `std::hash` is a function
    the database is given. */
module Store {

  /** `KeyValue`: a record with its version and (never set) timestamp. */
  datatype KeyValue = KeyValue(key: string, value: string, version: int, timestamp: string)

  /** The value-initialised `KeyValue()` that `read` returns for an
      absent key. */
  function Absent(): (r: KeyValue)
    ensures r.key == [] && r.value == [] && r.timestamp == [] && r.version == 0
  {
    KeyValue("", "", 0, "")
  }

  /** The storage after `write(key, value)`: one more record, whose
      version is the new number of records. */
  function Written(s: seq<KeyValue>, key: string, value: string): (r: seq<KeyValue>)
    ensures |r| == |s| + 1
  {
    s + [KeyValue(key, value, |s| + 1, "")]
  }

  /** The storage after `count` writes of the same key and value. */
  function WrittenTimes(s: seq<KeyValue>, key: string, value: string, count: nat): (r: seq<KeyValue>)
    ensures |r| == |s| + count
  {
    if count == 0 then s else Written(WrittenTimes(s, key, value, count - 1), key, value)
  }

  lemma WrittenTimesStep(s: seq<KeyValue>, key: string, value: string, count: nat)
    ensures WrittenTimes(s, key, value, count + 1) == Written(WrittenTimes(s, key, value, count), key, value)
  {
  }

  lemma {:induction false} WrittenTimesAdd(s: seq<KeyValue>, key: string, value: string, a: nat, b: nat)
    ensures WrittenTimes(WrittenTimes(s, key, value, a), key, value, b) == WrittenTimes(s, key, value, a + b)
    decreases b
  {
    if b > 0 {
      WrittenTimesAdd(s, key, value, a, b - 1);
    }
  }

  /** Whether some record of `s` has the key. */
  predicate HasKey(s: seq<KeyValue>, key: string) {
    exists i :: 0 <= i < |s| && s[i].key == key
  }

  /** The index of the first record with the key, or `|s|` when there is
      none. */
  function FirstIndex(s: seq<KeyValue>, key: string): (i: nat)
    ensures i <= |s|
    ensures i < |s| ==> s[i].key == key
    ensures forall j :: 0 <= j < i ==> s[j].key != key
  {
    if s == [] then 0
    else if s[0].key == key then 0
    else 1 + FirstIndex(s[1..], key)
  }

  /** What `read(key)` returns: the oldest record with the key, or the
      empty record. */
  function Lookup(s: seq<KeyValue>, key: string): (r: KeyValue)
    ensures !HasKey(s, key) ==> r == Absent()
    ensures HasKey(s, key) ==>
              r.key == key && exists i :: 0 <= i < |s| && s[i] == r && !HasKey(s[..i], key)
  {
    var i := FirstIndex(s, key);
    if i < |s| then s[i] else Absent()
  }

  /** The records of `s` whose key is not `key`, in their order. */
  function WithoutKey(s: seq<KeyValue>, key: string): (r: seq<KeyValue>)
    ensures |r| <= |s|
    ensures forall x :: x in r <==> x in s && x.key != key
  {
    if s == [] then []
    else if s[0].key == key then WithoutKey(s[1..], key)
    else [s[0]] + WithoutKey(s[1..], key)
  }

  /** `InMemoryNode`: the records of one node, oldest first. */
  class InMemoryNode {
    var storage: seq<KeyValue>

    constructor()
      ensures storage == []
    {
      storage := [];
    }

    /** `write`: appends one record; earlier records are untouched. */
    method Write(key: string, value: string)
      modifies this
      ensures storage == Written(old(storage), key, value)
    {
      storage := storage + [KeyValue(key, value, |storage| + 1, "")];
    }

    /** `read`: scans from the oldest record and returns the first one
        with the key, or the empty record. */
    method Read(key: string) returns (kv: KeyValue)
      ensures kv == Lookup(storage, key)
    {
      for i := 0 to |storage|
        invariant forall j :: 0 <= j < i ==> storage[j].key != key
      {
        if storage[i].key == key {
          return storage[i];
        }
      }
      return Absent();
    }

    /** `remove`: `erase(remove_if(...))` drops every record with the key
        and keeps the others in order. */
    method Remove(key: string)
      modifies this
      ensures storage == WithoutKey(old(storage), key)
    {
      storage := WithoutKey(storage, key);
    }
  }

  /** Reading after a write: an older record with the key still wins;
      otherwise the new record is found. */
  lemma {:induction false} LookupAfterWrite(s: seq<KeyValue>, k: string, v: string, key: string)
    ensures Lookup(Written(s, k, v), key)
            == if HasKey(s, key) then Lookup(s, key)
               else if key == k then KeyValue(k, v, |s| + 1, "")
               else Absent()
  {
    var w := Written(s, k, v);
    assert w[..|s|] == s && w[|s|] == KeyValue(k, v, |s| + 1, "");
    FirstIndexPrefix(w, s, key);
  }

  /** On a prefix `s` of `w`, the first match in `s` is the first match in
      `w`; when `s` has none, `w` has none before `|s|`. */
  lemma FirstIndexPrefix(w: seq<KeyValue>, s: seq<KeyValue>, key: string)
    requires |s| <= |w| && s == w[..|s|]
    ensures FirstIndex(s, key) < |s| ==> FirstIndex(w, key) == FirstIndex(s, key)
    ensures FirstIndex(s, key) == |s| ==> FirstIndex(w, key) >= |s|
  {
    assert forall t :: 0 <= t < |s| ==> s[t] == w[t];
  }

  /** After a write, the node holds a key when it held it before or when
      it is the key written. */
  lemma HasKeyAfterWrite(s: seq<KeyValue>, k: string, v: string, key: string)
    ensures HasKey(Written(s, k, v), key) <==> HasKey(s, key) || key == k
  {
    var w := Written(s, k, v);
    assert w[|s|].key == k;
    assert forall i :: 0 <= i < |s| ==> w[i] == s[i];
  }

  lemma {:induction false} HasKeyAfterWrites(s: seq<KeyValue>, k: string, v: string, count: nat, key: string)
    ensures HasKey(WrittenTimes(s, k, v, count), key) <==> HasKey(s, key) || (key == k && count >= 1)
    decreases count
  {
    if count > 0 {
      HasKeyAfterWrites(s, k, v, count - 1, key);
      HasKeyAfterWrite(WrittenTimes(s, k, v, count - 1), k, v, key);
    }
  }

  /** Reading after `count` writes of `(k, v)`: a key the node already held
      reads as before, so a second `write` of a key is never seen by
      `read`; a new key `k` reads as its first write, whose version is one
      more than the old size; any other key stays absent. */
  lemma {:induction false} LookupAfterWrites(s: seq<KeyValue>, k: string, v: string, count: nat, key: string)
    ensures Lookup(WrittenTimes(s, k, v, count), key)
            == if HasKey(s, key) then Lookup(s, key)
               else if key == k && count >= 1 then KeyValue(k, v, |s| + 1, "")
               else Absent()
    decreases count
  {
    if count > 0 {
      var before := WrittenTimes(s, k, v, count - 1);
      assert Lookup(WrittenTimes(s, k, v, count), key)
          == if HasKey(before, key) then Lookup(before, key)
             else if key == k then KeyValue(k, v, |before| + 1, "")
             else Absent() by {
        assert WrittenTimes(s, k, v, count) == Written(before, k, v);
        LookupAfterWrite(before, k, v, key);
      }
      if count == 1 {
        assert before == s;
      } else {
        assert HasKey(before, key) <==> HasKey(s, key) || key == k by {
          HasKeyAfterWrites(s, k, v, count - 1, key);
        }
        assert Lookup(before, key)
            == if HasKey(s, key) then Lookup(s, key)
               else if key == k then KeyValue(k, v, |s| + 1, "")
               else Absent() by {
          LookupAfterWrites(s, k, v, count - 1, key);
        }
      }
    }
  }

  /** `remove` distributes over the parts of the storage: it keeps the
      order of the records it keeps. */
  lemma {:induction false} WithoutKeyAppend(a: seq<KeyValue>, b: seq<KeyValue>, key: string)
    ensures WithoutKey(a + b, key) == WithoutKey(a, key) + WithoutKey(b, key)
    decreases |a|
  {
    if a == [] {
      assert a + b == b;
    } else {
      assert (a + b)[0] == a[0] && (a + b)[1..] == a[1..] + b;
      WithoutKeyAppend(a[1..], b, key);
      if a[0].key != key {
        assert [a[0]] + (WithoutKey(a[1..], key) + WithoutKey(b, key))
            == ([a[0]] + WithoutKey(a[1..], key)) + WithoutKey(b, key);
      }
    }
  }

  /** `remove` of a key the node does not hold changes nothing. */
  lemma {:induction false} WithoutAbsentKey(s: seq<KeyValue>, key: string)
    requires !HasKey(s, key)
    ensures WithoutKey(s, key) == s
    decreases |s|
  {
    if s != [] {
      assert s[0].key != key;
      forall i | 0 <= i < |s[1..]|
        ensures s[1..][i].key != key
      {
        assert s[1..][i] == s[i + 1];
      }
      WithoutAbsentKey(s[1..], key);
    }
  }

  /** After `remove(k)`, `read(k)` finds nothing and every other key reads
      as before. */
  lemma {:induction false} LookupAfterRemove(s: seq<KeyValue>, k: string, key: string)
    ensures Lookup(WithoutKey(s, k), key) == if key == k then Absent() else Lookup(s, key)
    decreases |s|
  {
    var r := WithoutKey(s, k);
    if key == k {
      forall i | 0 <= i < |r|
        ensures r[i].key != key
      {
        assert r[i] in r;
      }
    } else if s != [] {
      LookupAfterRemove(s[1..], k, key);
      LookupCons(s, key);
      if s[0].key != k {
        assert r == [s[0]] + WithoutKey(s[1..], k);
        LookupCons(r, key);
        assert r[1..] == WithoutKey(s[1..], k);
      }
    }
  }

  /** `read` looks at the first record, and otherwise at the others. */
  lemma LookupCons(s: seq<KeyValue>, key: string)
    requires s != []
    ensures Lookup(s, key) == if s[0].key == key then s[0] else Lookup(s[1..], key)
  {
    if s[0].key != key {
      assert FirstIndex(s, key) == 1 + FirstIndex(s[1..], key);
    }
  }

  /** Versions count every record on the node, so after a `remove` two
      live records can carry the same version: write a, write b, remove a,
      write c leaves b and c both at version 2. */
  lemma VersionsRepeatAfterRemove()
    ensures var s := Written(WithoutKey(Written(Written([], "a", "1"), "b", "2"), "a"), "c", "3");
            |s| == 2 && s[0].key == "b" && s[1].key == "c" && s[0].version == s[1].version == 2
  {
    var s2 := Written(Written([], "a", "1"), "b", "2");
    assert s2 == [KeyValue("a", "1", 1, ""), KeyValue("b", "2", 2, "")];
    assert s2[1..][1..] == [];
    assert WithoutKey(s2, "a") == [KeyValue("b", "2", 2, "")];
  }

  type uint64 = x: int | 0 <= x < 0x1_0000_0000_0000_0000

  /** `hash % n`: the slot of a hash among `n` places. */
  function Slot(h: uint64, n: int): (r: int)
    requires n > 0
    ensures 0 <= r < n
  {
    h % n
  }

  /** How many offsets `i` in `[lo, hi)` send `p + i` to node `j` modulo
      `n`. */
  function Hits(p: int, lo: int, hi: int, n: int, j: int): (c: nat)
    requires n > 0
    ensures c <= if hi > lo then hi - lo else 0
    decreases hi - lo
  {
    if hi <= lo then 0 else Hits(p, lo, hi - 1, n, j) + (if (p + hi - 1) % n == j then 1 else 0)
  }

  /** How many records `put` writes to node `j` when the primary is `p`:
      one on the primary, one for each replica offset `1 .. rf-1`. */
  function Copies(p: int, rf: int, n: int, j: int): (c: nat)
    requires n > 0
    ensures (if j == p then 1 else 0) <= c <= (if rf > 1 then rf else 1)
  {
    (if j == p then 1 else 0) + Hits(p, 1, rf, n, j)
  }

  /** How far node `j` lies after node `p` on the ring of `n` nodes. */
  function Offset(p: int, j: int, n: int): (d: int)
    requires n > 0
    ensures 0 <= d < n
  {
    (j - p) % n
  }

  lemma ModSmall(x: int, n: int)
    requires 0 <= x < n
    ensures x % n == x
  {
  }

  lemma ModNegative(x: int, n: int)
    requires -n <= x < 0
    ensures x % n == x + n
  {
  }

  lemma ModLarge(x: int, n: int)
    requires n <= x < 2 * n
    ensures x % n == x - n
  {
  }

  /** `%` on a value at most one period away from `[0, n)`. */
  lemma ModOnce(x: int, n: int)
    requires 0 < n && -n <= x < 2 * n
    ensures x % n == if x < 0 then x + n else if x < n then x else x - n
  {
    if x < 0 {
      ModNegative(x, n);
    } else if x >= n {
      ModLarge(x, n);
    } else {
      ModSmall(x, n);
    }
  }

  /** One more replica offset. */
  lemma HitsStep(p: int, hi: int, n: int, j: int)
    requires n > 0 && hi >= 1
    ensures Hits(p, 1, hi + 1, n, j) == Hits(p, 1, hi, n, j) + if (p + hi) % n == j then 1 else 0
  {
  }

  /** One turn of the replication loop, seen from node `j`: it gains a
      record exactly when it is the target `(p + i) % n`. */
  lemma ReplicaStep(o: seq<KeyValue>, cur: seq<KeyValue>, key: string, value: string, p: int, i: int, n: int, j: int)
    requires n > 0 && i >= 1
    requires cur == WrittenTimes(o, key, value, Hits(p, 1, i, n, j))
    ensures (if (p + i) % n == j then Written(cur, key, value) else cur)
            == WrittenTimes(o, key, value, Hits(p, 1, i + 1, n, j))
  {
    HitsStep(p, i, n, j);
    WrittenTimesStep(o, key, value, Hits(p, 1, i, n, j));
  }

  /** Replica `k` lands on `j` exactly when `j` lies `k` nodes after `p`. */
  lemma OffsetMatch(p: int, k: int, n: int, j: int)
    requires 0 <= p < n && 0 <= j < n && 0 <= k < n
    ensures (p + k) % n == j <==> Offset(p, j, n) == k
  {
    ModOnce(p + k, n);
    ModOnce(j - p, n);
  }

  /** With `k <= n`, the replica offsets `1 .. k-1` hit node `j` once if it
      lies that far after `p`, and never otherwise. */
  lemma {:induction false} HitsOnRing(p: int, k: int, n: int, j: int)
    requires 0 <= p < n && 0 <= j < n && 1 <= k <= n
    ensures Hits(p, 1, k, n, j) == if 1 <= Offset(p, j, n) < k then 1 else 0
    decreases k
  {
    if k > 1 {
      HitsOnRing(p, k - 1, n, j);
      OffsetMatch(p, k - 1, n, j);
    }
  }

  /** With `1 <= rf <= n`, `put` writes exactly one record to each of the
      `rf` nodes starting at the primary and none to the others: the
      copies are on distinct nodes. */
  lemma CopiesWhenReplicasFit(p: int, rf: int, n: int, j: int)
    requires 0 <= p < n && 0 <= j < n && 1 <= rf <= n
    ensures Copies(p, rf, n, j) == if Offset(p, j, n) < rf then 1 else 0
  {
    HitsOnRing(p, rf, n, j);
    ModOnce(j - p, n);
  }

  lemma {:induction false} HitsGrow(p: int, lo: int, hi: int, hi': int, n: int, j: int)
    requires n > 0 && hi <= hi'
    ensures Hits(p, lo, hi, n, j) <= Hits(p, lo, hi', n, j)
    decreases hi' - hi
  {
    if hi < hi' {
      HitsGrow(p, lo, hi, hi' - 1, n, j);
    }
  }

  /** With `rf > n`, the ring wraps: the primary receives a second record
      of the same put. */
  lemma PrimaryDuplicatedWhenReplicasWrap(p: int, rf: int, n: int)
    requires 0 <= p < n && rf > n
    ensures Copies(p, rf, n, p) >= 2
  {
    HitsGrow(p, 1, n + 1, rf, n, p);
    assert (p + n) % n == p by { ModOnce(p + n, n); }
  }

  /** `DistributedDB`: `totalNodes` in-memory nodes, a replication factor
      and the key hash (`std::hash<std::string>`). */
  class DistributedDB {
    const nodes: seq<InMemoryNode>
    const totalNodes: int
    const replicationFactor: int
    const hash: string -> uint64

    /** One node per count, each a distinct object. */
    predicate Valid() {
      && |nodes| == (if totalNodes < 0 then 0 else totalNodes)
      && forall i, j :: 0 <= i < j < |nodes| ==> nodes[i] != nodes[j]
    }

    function NodeSet(): set<InMemoryNode> {
      set i | 0 <= i < |nodes| :: nodes[i]
    }

    /** The constructor: `nodesCount` fresh, empty nodes (none when the
        count is not positive). The source's default `rf` is 3. */
    constructor(nodesCount: int, rf: int, hash: string -> uint64)
      ensures Valid()
      ensures totalNodes == nodesCount && replicationFactor == rf && this.hash == hash
      ensures forall i :: 0 <= i < |nodes| ==> fresh(nodes[i]) && nodes[i].storage == []
    {
      var created: seq<InMemoryNode> := [];
      var i := 0;
      while i < nodesCount
        invariant i == |created| && (nodesCount < 0 ==> i == 0) && (nodesCount >= 0 ==> i <= nodesCount)
        invariant forall a, b :: 0 <= a < b < |created| ==> created[a] != created[b]
        invariant forall a :: 0 <= a < |created| ==> fresh(created[a]) && created[a].storage == []
      {
        var node := new InMemoryNode();
        created := created + [node];
        i := i + 1;
      }
      nodes := created;
      totalNodes := nodesCount;
      replicationFactor := rf;
      this.hash := hash;
    }

    /** `getNode`: the primary node of a key. */
    function GetNode(key: string): (r: int)
      requires totalNodes > 0
      ensures 0 <= r < totalNodes
    {
      Slot(hash(key), totalNodes)
    }

    /** `replicate`: one more write of the record to each of the nodes
        `primary + i` modulo `totalNodes`, for `i` from 1 to `rf - 1`. */
    method Replicate(key: string, value: string, primary: int)
      requires Valid() && totalNodes > 0 && 0 <= primary < totalNodes
      modifies NodeSet()
      ensures forall j :: 0 <= j < |nodes| ==>
                nodes[j].storage == WrittenTimes(old(nodes[j].storage), key, value,
                                                 Hits(primary, 1, replicationFactor, totalNodes, j))
    {
      var i := 1;
      while i < replicationFactor
        invariant 1 <= i <= if replicationFactor < 1 then 1 else replicationFactor
        invariant forall j :: 0 <= j < |nodes| ==>
                    nodes[j].storage == WrittenTimes(old(nodes[j].storage), key, value,
                                                     Hits(primary, 1, i, totalNodes, j))
      {
        var node := (primary + i) % totalNodes;
        label Before:
        nodes[node].Write(key, value);
        forall j | 0 <= j < |nodes|
          ensures nodes[j].storage == WrittenTimes(old(nodes[j].storage), key, value,
                                                   Hits(primary, 1, i + 1, totalNodes, j))
        {
          ReplicaStep(old(nodes[j].storage), old@Before(nodes[j].storage), key, value, primary, i, totalNodes, j);
          if j != node {
            assert nodes[j] != nodes[node];
            assert nodes[j].storage == old@Before(nodes[j].storage);
          }
        }
        i := i + 1;
      }
    }

    /** `put`: a write on the primary, then the replicas. Node `j` gains
        `Copies` records of the pair and no node outside the ring
        changes. */
    method Put(key: string, value: string)
      requires Valid() && totalNodes > 0
      modifies NodeSet()
      ensures forall j :: 0 <= j < |nodes| ==>
                nodes[j].storage == WrittenTimes(old(nodes[j].storage), key, value,
                                                 Copies(GetNode(key), replicationFactor, totalNodes, j))
    {
      var primary := GetNode(key);
      nodes[primary].Write(key, value);
      Replicate(key, value, primary);
      forall j | 0 <= j < |nodes|
        ensures nodes[j].storage == WrittenTimes(old(nodes[j].storage), key, value,
                                                 Copies(primary, replicationFactor, totalNodes, j))
      {
        WrittenTimesAdd(old(nodes[j].storage), key, value, if j == primary then 1 else 0,
                        Hits(primary, 1, replicationFactor, totalNodes, j));
      }
    }

    /** `get` after `put`: the primary reads the record it held before if
        it already had the key (the new value is not seen), and otherwise
        the record just put. */
    lemma ReadAfterPut(s: seq<KeyValue>, key: string, value: string)
      requires Valid() && totalNodes > 0
      ensures Lookup(WrittenTimes(s, key, value, Copies(GetNode(key), replicationFactor, totalNodes, GetNode(key))), key)
              == if HasKey(s, key) then Lookup(s, key) else KeyValue(key, value, |s| + 1, "")
    {
      var p := GetNode(key);
      LookupAfterWrites(s, key, value, Copies(p, replicationFactor, totalNodes, p), key);
    }

    /** `get`: reads the primary node only. */
    method Get(key: string) returns (kv: KeyValue)
      requires Valid() && totalNodes > 0
      ensures kv == Lookup(nodes[GetNode(key)].storage, key)
    {
      var primary := GetNode(key);
      kv := nodes[primary].Read(key);
    }
  }

  /** `ShardNode`: a shard's id and its data. */
  datatype ShardNode = ShardNode(id: string, data: seq<string>)

  /** `shardData`: the id of the shard at `hash(key) % |nodes|`. */
  function ShardData(hash: string -> uint64, key: string, nodes: seq<ShardNode>): (id: string)
    requires |nodes| > 0
    ensures exists i :: 0 <= i < |nodes| && nodes[i].id == id
  {
    nodes[Slot(hash(key), |nodes|)].id
  }
}
