/** The `Node` of the failure-recovery test (src/FailureRecoveryTest.cpp):
    a key-value map that stops taking writes once the node has crashed,
    and a set of peers it refuses to talk to. The mutex only serialises
    calls; the model is the node seen one call at a time. */
module FailureRecovery {

  /** What `get` answers for `key`: the stored value, or "" when the key is
      absent. */
  function Stored(data: map<string, string>, key: string): (value: string)
    ensures key in data ==> value == data[key]
    ensures key !in data ==> value == ""
  {
    if key in data then data[key] else ""
  }

  /** The state a `Node`'s methods change. */
  datatype NodeState = NodeState(active: bool, data: map<string, string>, blocked: set<string>)

  /** The calls that change a node's state. */
  datatype Op = Crash | Put(key: string, value: string) | Block(peer: string) | Unblock(peer: string)

  /** The state after one call. */
  function Apply(s: NodeState, op: Op): (r: NodeState)
    ensures !s.active ==> !r.active && r.data == s.data
    ensures op.Put? && s.active ==> Stored(r.data, op.key) == op.value
    ensures forall k :: (!op.Put? || k != op.key) ==> Stored(r.data, k) == Stored(s.data, k)
  {
    match op
    case Crash => s.(active := false)
    case Put(key, value) => if s.active then s.(data := s.data[key := value]) else s
    case Block(peer) => s.(blocked := s.blocked + {peer})
    case Unblock(peer) => s.(blocked := s.blocked - {peer})
  }

  /** The state after a sequence of calls, first call first. */
  function Run(s: NodeState, ops: seq<Op>): NodeState
    decreases |ops|
  {
    if ops == [] then s else Run(Apply(s, ops[0]), ops[1..])
  }

  /** A crashed node stays crashed and keeps its data, whatever is called
      on it afterwards. */
  lemma {:induction false} CrashIsFinal(s: NodeState, ops: seq<Op>)
    requires !s.active
    ensures !Run(s, ops).active && Run(s, ops).data == s.data
    decreases |ops|
  {
    if ops != [] {
      CrashIsFinal(Apply(s, ops[0]), ops[1..]);
    }
  }

  /** Only `put` on an active node changes the data, so a run without
      `put`s of `key` reads `key` as before. */
  lemma {:induction false} UntouchedKey(s: NodeState, ops: seq<Op>, key: string)
    requires forall i :: 0 <= i < |ops| ==> !(ops[i].Put? && ops[i].key == key)
    ensures Stored(Run(s, ops).data, key) == Stored(s.data, key)
    decreases |ops|
  {
    if ops != [] {
      assert !(ops[0].Put? && ops[0].key == key);
      forall i | 0 <= i < |ops[1..]|
        ensures !(ops[1..][i].Put? && ops[1..][i].key == key)
      {
        assert ops[1..][i] == ops[i + 1];
      }
      UntouchedKey(Apply(s, ops[0]), ops[1..], key);
    }
  }

  /** `Node`: its id and port, whether it is up, its data and the peers
      it blocks. */
  class Node {
    const id: string
    const port: int
    var active: bool
    var data: map<string, string>
    var blocked: set<string>

    function State(): NodeState
      reads this
    {
      NodeState(active, data, blocked)
    }

    /** A new node is up, with no data and no blocked peers. */
    constructor(id: string, port: int)
      ensures this.id == id && this.port == port
      ensures State() == NodeState(true, map[], {})
    {
      this.id := id;
      this.port := port;
      active := true;
      data := map[];
      blocked := {};
    }

    /** `crash`: the node is down from now on. */
    method Crash()
      modifies this
      ensures State() == Apply(old(State()), Op.Crash)
      ensures !active && data == old(data) && blocked == old(blocked)
    {
      active := false;
    }

    /** `put`: stores the pair, overwriting an earlier value, only while
        the node is up. */
    method Put(key: string, value: string)
      modifies this
      ensures State() == Apply(old(State()), Op.Put(key, value))
      ensures data == if old(active) then old(data)[key := value] else old(data)
      ensures active == old(active) && blocked == old(blocked)
    {
      if active {
        data := data[key := value];
      }
    }

    /** `get`: the stored value or "", up or down, without inserting the
        key. */
    method Get(key: string) returns (value: string)
      ensures value == Stored(data, key)
      ensures value != "" ==> key in data && data[key] == value
    {
      if key in data {
        value := data[key];
      } else {
        value := "";
      }
    }

    /** `getId`: the id the node was built with. */
    method GetId() returns (r: string)
      ensures r == id
    {
      r := id;
    }

    /** `blockCommunication`: adds the peer to the blocked set. */
    method BlockCommunication(otherId: string)
      modifies this
      ensures State() == Apply(old(State()), Op.Block(otherId))
      ensures blocked == old(blocked) + {otherId}
      ensures active == old(active) && data == old(data)
    {
      blocked := blocked + {otherId};
    }

    /** `unblockCommunication`: removes the peer from the blocked set, if
        it was there. */
    method UnblockCommunication(otherId: string)
      modifies this
      ensures State() == Apply(old(State()), Op.Unblock(otherId))
      ensures blocked == old(blocked) - {otherId}
      ensures active == old(active) && data == old(data)
    {
      blocked := blocked - {otherId};
    }

    /** `isActive`: whether the node has not crashed. */
    method IsActive() returns (r: bool)
      ensures r == active
    {
      r := active;
    }
  }
}
