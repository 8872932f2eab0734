/** Properties relating the frame writer and the frame reader. */
module CodecProperties {
  import opened Wrappers
  import opened Message
  import opened Serializer
  import opened Deserializer

  /** `readUint32` reads back what `writeUint32` wrote, and nothing more. */
  lemma ReadsUint32(v: uint32, rest: Bytes)
    ensures ParseUint32(EncodeUint32(v) + rest) == Ok(Parsed(v, rest))
  {
    var b := EncodeUint32(v) + rest;
    EncodeUint32Denotes(v);
    assert b[..4] == EncodeUint32(v);
    assert WordAt(b, 0) == WordAt(EncodeUint32(v), 0);
    assert b[4..] == rest;
  }

  /** `readInt` reads back what `writeInt` wrote, negative values
      included. */
  lemma ReadsInt32(v: int32, rest: Bytes)
    ensures ParseInt32(EncodeUint32(ToUint32(v)) + rest) == Ok(Parsed(v, rest))
  {
    ReadsUint32(ToUint32(v), rest);
    Int32RoundTrip(v);
  }

  /** `readString` reads back what `writeString` wrote, whenever the
      length fits the 32-bit prefix. */
  lemma ReadsString(s: Bytes, rest: Bytes)
    requires |s| < 0x1_0000_0000
    ensures ParseString(EncodeString(s) + rest) == Ok(Parsed(s, rest))
  {
    EncodeStringThen(s, rest);
    SmallMod(|s|);
    ReadsUint32(|s|, s + rest);
    assert (s + rest)[..|s|] == s;
    assert (s + rest)[|s|..] == rest;
  }

  /** `readNodeInfo` reads back what `writeNodeInfo` wrote. */
  lemma ReadsNodeInfo(n: NodeInfo, rest: Bytes)
    requires NodeWellSized(n)
    ensures ParseNodeInfo(EncodeNodeInfo(n) + rest) == Ok(Parsed(n, rest))
  {
    var port := EncodeUint32(ToUint32(n.port)) + rest;
    var ip := EncodeString(n.ip) + port;
    EncodeNodeInfoThen(n, rest);
    ReadsString(n.uuid, ip);
    ReadsString(n.ip, port);
    ReadsInt32(n.port, rest);
  }

  /** One more turn of the node loop: a node, then the others. */
  lemma ParseNodesCons(b: Bytes, ns: seq<NodeInfo>, mid: Bytes, rest: Bytes)
    requires ns != []
    requires ParseNodeInfo(b) == Ok(Parsed(ns[0], mid))
    requires ParseNodes(mid, |ns[1..]|) == Ok(Parsed(ns[1..], rest))
    ensures ParseNodes(b, |ns|) == Ok(Parsed(ns, rest))
  {
    assert |ns[1..]| == |ns| - 1;
    assert [ns[0]] + ns[1..] == ns;
  }

  /** The node loop reads back every node that was written, in order. */
  lemma {:induction false} ReadsNodes(ns: seq<NodeInfo>, rest: Bytes)
    requires forall n :: n in ns ==> NodeWellSized(n)
    ensures ParseNodes(EncodeNodes(ns) + rest, |ns|) == Ok(Parsed(ns, rest))
    decreases |ns|
  {
    if ns == [] {
      assert EncodeNodes(ns) + rest == rest;
    } else {
      var others := EncodeNodes(ns[1..]) + rest;
      EncodeNodesThen(ns, rest);
      assert ns[0] in ns;
      ReadsNodeInfo(ns[0], others);
      assert forall n :: n in ns[1..] ==> n in ns;
      ReadsNodes(ns[1..], rest);
      ParseNodesCons(EncodeNodes(ns) + rest, ns, others, rest);
    }
  }

  /** The bytes after the tag of `[t] + x` are `x`. */
  lemma AfterTag(t: byte, x: Bytes)
    ensures ([t] + x)[1..] == x
  {
  }

  /** Round trip: whatever follows a frame, reading it back yields the
      tag and the payload of the tag's type; the other fields come back as
      defaults, which `serialize` never wrote. */
  lemma RoundTrip(m: Message, rest: Bytes)
    requires WellSized(m)
    ensures Decode(Frame(m) + rest) == Ok(Relevant(m))
  {
    var t := m.msgType;
    FrameThen(m, rest);
    if t == NodeRegistration {
      RoundTripRegistration(m, rest);
    } else if t == NodeListResponse {
      RoundTripNodeList(m, rest);
    } else if t == DataRequest || t == DataResponse {
      RoundTripKeyValue(m, rest);
    } else {
      AfterTag(t, rest);
    }
  }

  lemma RoundTripRegistration(m: Message, rest: Bytes)
    requires m.msgType == NodeRegistration && WellSized(m)
    ensures Decode(Frame(m) + rest) == Ok(Relevant(m))
  {
    var payload := EncodeNodeInfo(m.nodeInfo) + rest;
    FrameThen(m, rest);
    AfterTag(m.msgType, payload);
    ReadsNodeInfo(m.nodeInfo, rest);
  }

  lemma RoundTripNodeList(m: Message, rest: Bytes)
    requires m.msgType == NodeListResponse && WellSized(m)
    ensures Decode(Frame(m) + rest) == Ok(Relevant(m))
  {
    var ns := m.nodeList.nodes;
    var nodes := EncodeNodes(ns) + rest;
    var payload := EncodeUint32(|ns| % 0x1_0000_0000) + nodes;
    FrameThen(m, rest);
    AfterTag(m.msgType, payload);
    SmallMod(|ns|);
    ReadsUint32(|ns|, nodes);
    ReadsNodes(ns, rest);
  }

  lemma RoundTripKeyValue(m: Message, rest: Bytes)
    requires m.msgType == DataRequest || m.msgType == DataResponse
    requires WellSized(m)
    ensures Decode(Frame(m) + rest) == Ok(Relevant(m))
  {
    var value := EncodeString(m.keyValue.value) + rest;
    var payload := EncodeString(m.keyValue.key) + value;
    FrameThen(m, rest);
    AfterTag(m.msgType, payload);
    ReadsString(m.keyValue.key, value);
    ReadsString(m.keyValue.value, rest);
  }

  /** Types without a payload (NODE_LIST_REQUEST, UNKNOWN and every
      unnamed byte) consume the tag alone and succeed. */
  lemma TagOnlyFrames(t: MessageType, rest: Bytes)
    requires !HasPayload(t)
    ensures Decode([t] + rest) == Ok(DefaultMessage(t))
  {
    AfterTag(t, rest);
  }

  /** A buffer that decodes and is a prefix of a frame is the whole
      frame. */
  lemma {:induction false} DecodedPrefixIsWholeFrame(m: Message, b: Bytes)
    requires WellSized(m) && b <= Frame(m)
    ensures Decode(b).Ok? ==> |b| == |Frame(m)|
  {
    if Decode(b).Ok? {
      var m' := Decode(b).value;
      DecodeSound(b);
      FrameIsDecoded(m, m', b);
    }
  }

  /** If a prefix `b` of `m`'s frame decodes to `m'`, then `m'`'s frame,
      which starts `b`, is `m`'s whole frame. */
  lemma FrameIsDecoded(m: Message, m': Message, b: Bytes)
    requires WellSized(m) && b <= Frame(m)
    requires WellSized(m') && Relevant(m') == m' && Frame(m') <= b
    ensures Frame(m') == Frame(m)
  {
    var f, g := Frame(m), Frame(m');
    var rest := f[|g|..];
    assert f == g + rest;
    RoundTrip(m', rest);
    RoundTrip(m, []);
    assert f + [] == f;
    FrameOfRelevant(m);
  }

  /** Every non-empty proper prefix of a frame fails with "Buffer
      underflow". */
  lemma {:induction false} TruncatedFrameFails(m: Message, k: nat)
    requires WellSized(m) && 0 < k < |Frame(m)|
    ensures Decode(Frame(m)[..k]) == Err(BufferUnderflow)
  {
    DecodedPrefixIsWholeFrame(m, Frame(m)[..k]);
  }

  /** Reading is the left inverse of writing on well-sized messages: two
      messages with the same frame agree on their type and payload. */
  lemma {:induction false} FrameInjective(m1: Message, m2: Message)
    requires WellSized(m1) && WellSized(m2) && Frame(m1) == Frame(m2)
    ensures Relevant(m1) == Relevant(m2)
  {
    RoundTrip(m1, []);
    RoundTrip(m2, []);
  }
}
