/** The frame reader (src/message_deserializer.cpp). The source threads a
    `size_t& pos` cursor through its readers and throws on underflow. The
    specification reads from the unread part of the buffer: each parser
    returns the value read and the input left after it, or the error. The
    reader methods keep the source's cursor and are proved to track the
    parsers on `buffer[pos..]`. */
module Deserializer {
  import opened Wrappers
  import opened Message
  import opened Serializer

  /** The two `std::runtime_error`s the reader throws. */
  datatype Error = EmptyBuffer | BufferUnderflow

  /** A value parsed and the input left after it. */
  datatype Parsed<+T> = Parsed(item: T, rest: Bytes)

  /** A value read by a reader method and the cursor just after it. */
  datatype Read<+T> = Read(item: T, pos: nat)

  /** A reader's outcome at a cursor agrees with a parser's outcome on the
      bytes from that cursor on: the same error, or the same value with the
      cursor left exactly where the unread input begins. */
  ghost predicate Tracks<T>(buffer: Bytes, r: Result<Read<T>, Error>, s: Result<Parsed<T>, Error>)
  {
    match r
    case Err(e) => s == Err(e)
    case Ok(v) => v.pos <= |buffer| && s == Ok(Parsed(v.item, buffer[v.pos..]))
  }

  /** The value `(value << 8) | byte` accumulates over a run of bytes. No
      bit is ever set twice, so `|` adds. */
  function Accumulated(b: Bytes): (v: nat)
    ensures v < Power256(|b|)
  {
    if b == [] then 0 else Accumulated(b[..|b| - 1]) * 0x100 + b[|b| - 1] as int
  }

  /** The first four bytes, accumulated, are the big-endian word they
      spell. */
  lemma AccumulatedIsWord(b: Bytes)
    requires |b| >= 4
    ensures Accumulated(b[..4]) == WordAt(b, 0)
  {
    var b0, b1, b2 := b[0] as int, b[1] as int, b[2] as int;
    assert b[..4][..3] == b[..3];
    assert b[..3][..2] == b[..2];
    assert b[..2][..1] == b[..1];
    assert b[..1][..0] == [];
    assert Accumulated(b[..1]) == b0;
    assert Accumulated(b[..2]) == b0 * 0x100 + b1;
    assert Accumulated(b[..3]) == (b0 * 0x100 + b1) * 0x100 + b2;
  }

  /** Two values with the same low 32 bits read as the same `int`. */
  lemma ToInt32Congruent(u: int, w: int)
    requires u % 0x1_0000_0000 == w % 0x1_0000_0000
    ensures ToInt32(u) == ToInt32(w)
  {
  }

  /** Shifting a byte into a wrapped `int` wraps the same way as shifting
      it into the exact value. */
  lemma ShiftInWrapped(a: int, x: byte)
    ensures ToInt32(ToInt32(a) * 0x100 + x as int) == ToInt32(a * 0x100 + x as int)
  {
    var q := a / 0x1_0000_0000;
    var k := if a % 0x1_0000_0000 < 0x8000_0000 then -0x100 * q else -0x100 * (q + 1);
    assert ToInt32(a) * 0x100 + x as int == a * 0x100 + x as int + 0x1_0000_0000 * k;
    ModShift(a * 0x100 + x as int, k);
    ToInt32Congruent(ToInt32(a) * 0x100 + x as int, a * 0x100 + x as int);
  }

  lemma ModShift(u: int, k: int)
    ensures (u + 0x1_0000_0000 * k) % 0x1_0000_0000 == u % 0x1_0000_0000
  {
  }

  /** `readUint32`: four bytes big-endian, or an underflow. */
  function ParseUint32(b: Bytes): (r: Result<Parsed<uint32>, Error>)
    ensures r.Ok? <==> |b| >= 4
    ensures r.Err? ==> r.error == BufferUnderflow
    ensures r.Ok? ==> |r.value.rest| == |b| - 4
  {
    if |b| < 4 then Err(BufferUnderflow)
    else Ok(Parsed(WordAt(b, 0), b[4..]))
  }

  /** What was read is the encoding of the word read, followed by the
      input left. */
  lemma ParseUint32Sound(b: Bytes)
    ensures var r := ParseUint32(b);
            r.Ok? ==> b == EncodeUint32(r.value.item) + r.value.rest
  {
    if |b| >= 4 {
      EncodeOfWord(b, 0);
      assert b == b[0..4] + b[4..];
    }
  }

  /** `readInt`: four bytes big-endian read as a two's-complement `int`. */
  function ParseInt32(b: Bytes): (r: Result<Parsed<int32>, Error>)
    ensures r.Ok? <==> |b| >= 4
    ensures r.Err? ==> r.error == BufferUnderflow
    ensures r.Ok? ==> |r.value.rest| == |b| - 4
  {
    if |b| < 4 then Err(BufferUnderflow)
    else Ok(Parsed(ToInt32(WordAt(b, 0)), b[4..]))
  }

  /** What was read is what `writeInt` writes for the `int` read. */
  lemma ParseInt32Sound(b: Bytes)
    ensures var r := ParseInt32(b);
            r.Ok? ==> b == EncodeUint32(ToUint32(r.value.item)) + r.value.rest
  {
    if |b| >= 4 {
      Uint32RoundTrip(WordAt(b, 0));
      ParseUint32Sound(b);
    }
  }

  /** `readString`: a length, then exactly that many bytes. */
  function ParseString(b: Bytes): (r: Result<Parsed<Bytes>, Error>)
    ensures r.Err? ==> r.error == BufferUnderflow
    ensures r.Ok? ==> 4 + |r.value.item| + |r.value.rest| == |b|
  {
    var len :- ParseUint32(b);
    if len.item > |len.rest| then Err(BufferUnderflow)
    else Ok(Parsed(len.rest[..len.item], len.rest[len.item..]))
  }

  /** `readString` fails exactly when the length, or the bytes it
      announces, run past the end of the buffer. */
  lemma ParseStringOk(b: Bytes)
    ensures ParseString(b).Ok? <==> |b| >= 4 && 4 + WordAt(b, 0) <= |b|
  {
  }

  /** What was read is the encoding of the string read, followed by the
      input left; the string fits its length prefix. */
  lemma ParseStringSound(b: Bytes)
    ensures var r := ParseString(b);
            r.Ok? ==>
              && |r.value.item| < 0x1_0000_0000
              && b == EncodeString(r.value.item) + r.value.rest
  {
    var r := ParseString(b);
    if r.Ok? {
      var len := ParseUint32(b).value;
      var s, rest := len.rest[..len.item], len.rest[len.item..];
      assert r.value == Parsed(s, rest);
      ParseUint32Sound(b);
      SplitAt(len.rest, len.item);
      assert |s| % 0x1_0000_0000 == len.item;
      EncodeStringThen(s, rest);
    }
  }

  /** `readNodeInfo`: uuid, ip, port. */
  function ParseNodeInfo(b: Bytes): (r: Result<Parsed<NodeInfo>, Error>)
    ensures r.Err? ==> r.error == BufferUnderflow
    ensures r.Ok? ==> 12 + |r.value.item.uuid| + |r.value.item.ip| + |r.value.rest| == |b|
  {
    var uuid :- ParseString(b);
    var ip :- ParseString(uuid.rest);
    var port :- ParseInt32(ip.rest);
    Ok(Parsed(NodeInfo(uuid.item, ip.item, port.item), port.rest))
  }

  /** What was read is the encoding of the node read, followed by the
      input left; the node fits its length prefixes. */
  lemma ParseNodeInfoSound(b: Bytes)
    ensures var r := ParseNodeInfo(b);
            r.Ok? ==>
              && NodeWellSized(r.value.item)
              && b == EncodeNodeInfo(r.value.item) + r.value.rest
  {
    var r := ParseNodeInfo(b);
    if r.Ok? {
      var uuid := ParseString(b).value;
      var ip := ParseString(uuid.rest).value;
      var port := ParseInt32(ip.rest).value;
      var n := NodeInfo(uuid.item, ip.item, port.item);
      assert r.value == Parsed(n, port.rest);
      ParseStringSound(b);
      ParseStringSound(uuid.rest);
      ParseInt32Sound(ip.rest);
      EncodeNodeInfoThen(n, port.rest);
    }
  }

  /** `count` nodes read one after the other, as the counted loop of
      `deserialize` does; the first underflow ends the whole read. */
  function ParseNodes(b: Bytes, count: nat): (r: Result<Parsed<seq<NodeInfo>>, Error>)
    decreases count
    ensures r.Err? ==> r.error == BufferUnderflow
    ensures r.Ok? ==> |r.value.item| == count && |r.value.rest| <= |b|
  {
    if count == 0 then Ok(Parsed([], b))
    else
      match ParseNodeInfo(b)
      case Err(e) => Err(e)
      case Ok(first) =>
        match ParseNodes(first.rest, count - 1)
        case Err(e) => Err(e)
        case Ok(others) => Ok(Parsed([first.item] + others.item, others.rest))
  }

  /** The nodes read are well sized, and what was read is their encoding
      followed by the input left. */
  lemma {:induction false} ParseNodesSound(b: Bytes, count: nat)
    ensures var r := ParseNodes(b, count);
            r.Ok? ==>
              && (forall n :: n in r.value.item ==> NodeWellSized(n))
              && b == EncodeNodes(r.value.item) + r.value.rest
    decreases count
  {
    if count > 0 {
      var first := ParseNodeInfo(b);
      if first.Ok? {
        var f := first.value;
        var others := ParseNodes(f.rest, count - 1);
        ParseNodeInfoSound(b);
        ParseNodesSound(f.rest, count - 1);
        if others.Ok? {
          assert ParseNodes(b, count) == Ok(Parsed([f.item] + others.value.item, others.value.rest));
          ParseNodesStep(b, f, others.value);
        }
      }
    }
  }

  lemma ParseNodesStep(b: Bytes, first: Parsed<NodeInfo>, others: Parsed<seq<NodeInfo>>)
    requires NodeWellSized(first.item) && b == EncodeNodeInfo(first.item) + first.rest
    requires forall n :: n in others.item ==> NodeWellSized(n)
    requires first.rest == EncodeNodes(others.item) + others.rest
    ensures var ns := [first.item] + others.item;
            && (forall n :: n in ns ==> NodeWellSized(n))
            && b == EncodeNodes(ns) + others.rest
  {
    var ns := [first.item] + others.item;
    assert ns[0] == first.item && ns[1..] == others.item;
    EncodeNodesThen(ns, others.rest);
  }

  /** `MessageDeserializer::deserialize`: "Empty buffer" exactly on an
      empty buffer, otherwise the tag is the first byte and the payload is
      parsed from the bytes after it. */
  function Decode(buffer: Bytes): (r: Result<Message, Error>)
    ensures r.Err? ==> (r.error == EmptyBuffer <==> buffer == [])
    ensures r.Ok? ==> |buffer| > 0 && r.value.msgType == buffer[0]
  {
    if |buffer| == 0 then Err(EmptyBuffer)
    else
      var t: MessageType := buffer[0];
      var m := DefaultMessage(t);
      if t == NodeRegistration then
        var node :- ParseNodeInfo(buffer[1..]);
        Ok(m.(nodeInfo := node.item))
      else if t == NodeListResponse then
        var count :- ParseUint32(buffer[1..]);
        var nodes :- ParseNodes(count.rest, count.item);
        Ok(m.(nodeList := NodeListData(nodes.item)))
      else if t == DataRequest || t == DataResponse then
        var key :- ParseString(buffer[1..]);
        var value :- ParseString(key.rest);
        Ok(m.(keyValue := KeyValueData(key.item, value.item)))
      else
        Ok(m)
  }

  lemma SplitAt(b: Bytes, k: nat)
    requires k <= |b|
    ensures b == b[..k] + b[k..]
  {
  }

  lemma PrefixOfAppend(a: Bytes, b: Bytes)
    ensures a <= a + b
  {
  }

  lemma SmallMod(x: nat)
    requires x < 0x1_0000_0000
    ensures x % 0x1_0000_0000 == x
  {
  }

  /** A decoded message carries only the payload of its type, fits the
      length prefixes, and re-encodes to a prefix of the buffer: whatever
      follows the frame is never looked at. */
  lemma {:induction false} DecodeSound(buffer: Bytes)
    ensures var r := Decode(buffer);
            r.Ok? ==>
              && Relevant(r.value) == r.value
              && WellSized(r.value)
              && Frame(r.value) <= buffer
  {
    var r := Decode(buffer);
    if r.Ok? {
      var t := buffer[0];
      assert buffer == [t] + buffer[1..];
      if t == NodeRegistration {
        DecodeSoundRegistration(buffer);
      } else if t == NodeListResponse {
        DecodeSoundNodeList(buffer);
      } else if t == DataRequest || t == DataResponse {
        DecodeSoundKeyValue(buffer);
      }
    }
  }

  lemma DecodeSoundRegistration(buffer: Bytes)
    requires |buffer| > 0 && buffer[0] == NodeRegistration
    requires buffer == [buffer[0]] + buffer[1..]
    ensures var r := Decode(buffer);
            r.Ok? ==> Relevant(r.value) == r.value && WellSized(r.value) && Frame(r.value) <= buffer
  {
    var node := ParseNodeInfo(buffer[1..]);
    if node.Ok? {
      ParseNodeInfoSound(buffer[1..]);
      var m := DefaultMessage(NodeRegistration).(nodeInfo := node.value.item);
      assert Decode(buffer) == Ok(m);
      FrameThen(m, node.value.rest);
      PrefixOfAppend(Frame(m), node.value.rest);
    }
  }

  lemma DecodeSoundNodeList(buffer: Bytes)
    requires |buffer| > 0 && buffer[0] == NodeListResponse
    requires buffer == [buffer[0]] + buffer[1..]
    ensures var r := Decode(buffer);
            r.Ok? ==> Relevant(r.value) == r.value && WellSized(r.value) && Frame(r.value) <= buffer
  {
    var count := ParseUint32(buffer[1..]);
    if count.Ok? {
      var nodes := ParseNodes(count.value.rest, count.value.item);
      if nodes.Ok? {
        var m := DefaultMessage(NodeListResponse).(nodeList := NodeListData(nodes.value.item));
        assert Decode(buffer) == Ok(m);
        NodeListFrame(buffer, count.value, nodes.value);
      }
    }
  }

  lemma NodeListFrame(buffer: Bytes, c: Parsed<uint32>, ns: Parsed<seq<NodeInfo>>)
    requires |buffer| > 0 && buffer[0] == NodeListResponse
    requires buffer == [buffer[0]] + buffer[1..]
    requires ParseUint32(buffer[1..]) == Ok(c)
    requires ParseNodes(c.rest, c.item) == Ok(ns)
    ensures var m := DefaultMessage(NodeListResponse).(nodeList := NodeListData(ns.item));
            WellSized(m) && Frame(m) <= buffer
  {
    var m := DefaultMessage(NodeListResponse).(nodeList := NodeListData(ns.item));
    ParseUint32Sound(buffer[1..]);
    ParseNodesSound(c.rest, c.item);
    SmallMod(|ns.item|);
    assert |m.nodeList.nodes| % 0x1_0000_0000 == c.item;
    FrameThen(m, ns.rest);
    PrefixOfAppend(Frame(m), ns.rest);
  }

  lemma DecodeSoundKeyValue(buffer: Bytes)
    requires |buffer| > 0 && (buffer[0] == DataRequest || buffer[0] == DataResponse)
    requires buffer == [buffer[0]] + buffer[1..]
    ensures var r := Decode(buffer);
            r.Ok? ==> Relevant(r.value) == r.value && WellSized(r.value) && Frame(r.value) <= buffer
  {
    var key := ParseString(buffer[1..]);
    if key.Ok? {
      var value := ParseString(key.value.rest);
      if value.Ok? {
        var k, v := key.value, value.value;
        ParseStringSound(buffer[1..]);
        ParseStringSound(k.rest);
        var m := DefaultMessage(buffer[0]).(keyValue := KeyValueData(k.item, v.item));
        assert Decode(buffer) == Ok(m);
        FrameThen(m, v.rest);
        PrefixOfAppend(Frame(m), v.rest);
      }
    }
  }

  /** What the node loop of `deserialize` still has to add to the nodes
      read so far. */
  function Prepend(done: seq<NodeInfo>, r: Result<Parsed<seq<NodeInfo>>, Error>): Result<Parsed<seq<NodeInfo>>, Error>
  {
    match r
    case Ok(p) => Ok(Parsed(done + p.item, p.rest))
    case Err(e) => Err(e)
  }

  lemma PrependNothing(r: Result<Parsed<seq<NodeInfo>>, Error>)
    ensures Prepend([], r) == r
  {
    if r.Ok? {
      assert [] + r.value.item == r.value.item;
    }
  }

  lemma PrependPrepend(a: seq<NodeInfo>, b: seq<NodeInfo>, r: Result<Parsed<seq<NodeInfo>>, Error>)
    ensures Prepend(a, Prepend(b, r)) == Prepend(a + b, r)
  {
    if r.Ok? {
      assert a + (b + r.value.item) == (a + b) + r.value.item;
    }
  }

  method ReadUint32(buffer: Bytes, pos: nat) returns (r: Result<Read<uint32>, Error>)
    requires pos <= |buffer|
    ensures Tracks(buffer, r, ParseUint32(buffer[pos..]))
  {
    if pos + 4 > |buffer| {
      return Err(BufferUnderflow);
    }
    var value: nat := 0;
    var p := pos;
    for i := 0 to 4
      invariant p == pos + i
      invariant value == Accumulated(buffer[pos..p])
      invariant value < Power256(i)  // `value << 8` never shifts a set bit out
    {
      assert buffer[pos..p + 1][..i] == buffer[pos..p];
      value := value * 0x100 + buffer[p] as int;
      p := p + 1;
    }
    AccumulatedIsWord(buffer[pos..]);
    assert buffer[pos..][..4] == buffer[pos..p];
    assert buffer[pos..][4..] == buffer[p..];
    r := Ok(Read(value, p));
  }

  method ReadInt(buffer: Bytes, pos: nat) returns (r: Result<Read<int32>, Error>)
    requires pos <= |buffer|
    ensures Tracks(buffer, r, ParseInt32(buffer[pos..]))
  {
    if pos + 4 > |buffer| {
      return Err(BufferUnderflow);
    }
    var value: int32 := 0;
    var p := pos;
    for i := 0 to 4
      invariant p == pos + i
      invariant value == ToInt32(Accumulated(buffer[pos..p]))
    {
      assert buffer[pos..p + 1][..i] == buffer[pos..p];
      ShiftInWrapped(Accumulated(buffer[pos..p]), buffer[p]);
      // `value << 8` on a signed `int` wraps into the sign bit
      value := ToInt32(value * 0x100 + buffer[p] as int);
      p := p + 1;
    }
    AccumulatedIsWord(buffer[pos..]);
    assert buffer[pos..][..4] == buffer[pos..p];
    assert buffer[pos..][4..] == buffer[p..];
    r := Ok(Read(value, p));
  }

  method ReadString(buffer: Bytes, pos: nat) returns (r: Result<Read<Bytes>, Error>)
    requires pos <= |buffer|
    ensures Tracks(buffer, r, ParseString(buffer[pos..]))
  {
    var len :- ReadUint32(buffer, pos);
    if len.pos + len.item > |buffer| {
      return Err(BufferUnderflow);
    }
    var end := len.pos + len.item;
    assert buffer[len.pos..][..len.item] == buffer[len.pos..end];
    assert buffer[len.pos..][len.item..] == buffer[end..];
    r := Ok(Read(buffer[len.pos..end], end));
  }

  method ReadNodeInfo(buffer: Bytes, pos: nat) returns (r: Result<Read<NodeInfo>, Error>)
    requires pos <= |buffer|
    ensures Tracks(buffer, r, ParseNodeInfo(buffer[pos..]))
  {
    var uuid :- ReadString(buffer, pos);
    var ip :- ReadString(buffer, uuid.pos);
    var port :- ReadInt(buffer, ip.pos);
    r := Ok(Read(NodeInfo(uuid.item, ip.item, port.item), port.pos));
  }

  /** The counted loop of `deserialize` that pushes back each node. */
  method ReadNodes(buffer: Bytes, pos: nat, count: uint32) returns (r: Result<Read<seq<NodeInfo>>, Error>)
    requires pos <= |buffer|
    ensures Tracks(buffer, r, ParseNodes(buffer[pos..], count))
  {
    var nodes: seq<NodeInfo> := [];
    var p := pos;
    PrependNothing(ParseNodes(buffer[pos..], count));
    for i := 0 to count
      invariant |nodes| == i
      invariant pos <= p <= |buffer|
      invariant ParseNodes(buffer[pos..], count) == Prepend(nodes, ParseNodes(buffer[p..], count - i))
    {
      var node := ReadNodeInfo(buffer, p);
      if node.Err? {
        assert ParseNodes(buffer[p..], count - i).Err?;
        return Err(node.error);
      }
      ghost var whole := ParseNodes(buffer[pos..], count);
      ghost var tail := ParseNodes(buffer[node.value.pos..], count - (i + 1));
      assert ParseNodes(buffer[p..], count - i) == Prepend([node.value.item], tail);
      PrependPrepend(nodes, [node.value.item], tail);
      nodes := nodes + [node.value.item];
      p := node.value.pos;
      assert whole == Prepend(nodes, tail);
    }
    assert nodes + [] == nodes;
    r := Ok(Read(nodes, p));
  }

  /** `MessageDeserializer::deserialize`. */
  method Deserialize(buffer: Bytes) returns (r: Result<Message, Error>)
    ensures r == Decode(buffer)
  {
    if |buffer| == 0 {
      return Err(EmptyBuffer);
    }
    var message := DefaultMessage(buffer[0]);
    // the tag byte has been consumed
    var pos := 1;
    var t := message.msgType;
    if t == NodeRegistration {
      var node :- ReadNodeInfo(buffer, pos);
      message := message.(nodeInfo := node.item);
    } else if t == NodeListRequest {
      // no payload
    } else if t == NodeListResponse {
      var count :- ReadUint32(buffer, pos);
      var nodes :- ReadNodes(buffer, count.pos, count.item);
      message := message.(nodeList := NodeListData(nodes.item));
    } else if t == DataRequest || t == DataResponse {
      var key :- ReadString(buffer, pos);
      var value :- ReadString(buffer, key.pos);
      message := message.(keyValue := KeyValueData(key.item, value.item));
    } else {
      // unknown type: nothing more is read
    }
    r := Ok(message);
  }
}
