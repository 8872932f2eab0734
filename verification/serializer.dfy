/** The frame writer (src/message_serializer.cpp). Each `write*` helper of
    the source appends to a buffer passed by reference; here it is a method
    from the buffer before to the buffer after, proved against a pure
    encoding function. */
module Serializer {
  import opened Message

  /** `value >> (8 * k)`. A right shift of a signed value is a floor
      division, which is what Dafny's `/` computes for a positive divisor;
      shifting byte by byte divides by 256 each time. */
  function Shifted(value: int, k: nat): int
  {
    if k == 0 then value else Shifted(value, k - 1) / 0x100
  }

  /** `(value >> (24 - i * 8)) & 0xFF`, byte `i` of the word counting from
      the most significant one; `& 0xFF` is the non-negative remainder
      modulo 256. */
  function ShiftedByte(value: int, i: nat): byte
    requires i < 4
  {
    (Shifted(value, 3 - i) % 0x100) as byte
  }

  /** 256 to the power `n`. */
  function Power256(n: nat): (p: nat)
    ensures p >= 1
  {
    if n == 0 then 1 else 0x100 * Power256(n - 1)
  }

  /** The number the four bytes at `pos` denote, most significant first. */
  function WordAt(b: Bytes, pos: nat): (n: nat)
    requires pos + 4 <= |b|
    ensures n < 0x1_0000_0000
  {
    (b[pos] as int) * 0x100_0000 + (b[pos + 1] as int) * 0x1_0000 + (b[pos + 2] as int) * 0x100
    + b[pos + 3] as int
  }

  /** The two's-complement bit pattern of a 32-bit signed value. */
  function ToUint32(v: int32): (u: uint32)
    ensures u % 0x1_0000_0000 == v % 0x1_0000_0000
  {
    if v < 0 then v + 0x1_0000_0000 else v
  }

  /** The signed value of the low 32 bits of `u` (two's complement). */
  function ToInt32(u: int): (v: int32)
    ensures v % 0x1_0000_0000 == u % 0x1_0000_0000
  {
    var w := u % 0x1_0000_0000;
    if w < 0x8000_0000 then w else w - 0x1_0000_0000
  }

  lemma {:induction false} Uint32RoundTrip(u: uint32)
    ensures ToUint32(ToInt32(u)) == u
  {
    assert u % 0x1_0000_0000 == u;
  }

  lemma {:induction false} Int32RoundTrip(v: int32)
    ensures ToInt32(ToUint32(v)) == v
  {
    if v < 0 {
      assert (v + 0x1_0000_0000) % 0x1_0000_0000 == v + 0x1_0000_0000;
    } else {
      assert v % 0x1_0000_0000 == v;
    }
  }

  /** The four bytes `writeUint32` appends. */
  function EncodeUint32(v: uint32): (r: Bytes)
    ensures |r| == 4
  {
    [ShiftedByte(v, 0), ShiftedByte(v, 1), ShiftedByte(v, 2), ShiftedByte(v, 3)]
  }

  /** The bytes `writeUint32` appends denote `v`, big-endian. */
  lemma {:induction false} EncodeUint32Denotes(v: uint32)
    ensures WordAt(EncodeUint32(v), 0) == v
  {
    var a := v / 0x100;
    var b := a / 0x100;
    var c := b / 0x100;
    assert Shifted(v, 1) == a;
    assert Shifted(v, 2) == b;
    assert Shifted(v, 3) == c;
    assert c < 0x100;
  }

  /** Any four bytes are the encoding of the number they denote. */
  lemma {:induction false} EncodeOfWord(b: Bytes, pos: nat)
    requires pos + 4 <= |b|
    ensures EncodeUint32(WordAt(b, pos)) == b[pos..pos + 4]
  {
    var b0, b1, b2, b3 := b[pos] as int, b[pos + 1] as int, b[pos + 2] as int, b[pos + 3] as int;
    var v := WordAt(b, pos);
    assert Shifted(v, 1) == b0 * 0x1_0000 + b1 * 0x100 + b2;
    assert Shifted(v, 2) == b0 * 0x100 + b1;
    assert Shifted(v, 3) == b0;
  }

  /** Shifting right by `k` bytes after adding 2^32 adds 2^(32 - 8k). */
  lemma {:induction false} ShiftedWrap(v: int, k: nat)
    requires k < 4
    ensures Shifted(v + 0x1_0000_0000, k) == Shifted(v, k) + Power256(4 - k)
  {
    if k == 0 {
      assert Power256(4) == 0x1_0000_0000;
    } else {
      ShiftedWrap(v, k - 1);
      var x, y := Shifted(v, k - 1), Power256(4 - k);
      assert Power256(5 - k) == 0x100 * y;
      assert (x + 0x100 * y) / 0x100 == x / 0x100 + y;
    }
  }

  /** Shifting a signed value gives the same bytes as shifting its bit
      pattern: `writeInt` writes the two's-complement bytes. */
  lemma {:induction false} ShiftedByteOfNegative(v: int32, i: nat)
    requires i < 4
    ensures ShiftedByte(v, i) == ShiftedByte(ToUint32(v), i)
  {
    if v < 0 {
      ShiftedWrap(v, 3 - i);
      assert Power256(1 + i) == 0x100 * Power256(i);
    }
  }

  /** `writeString`: the length, cast to `uint32_t`, then the raw bytes. */
  function EncodeString(s: Bytes): (r: Bytes)
    ensures |r| == 4 + |s|
  {
    EncodeUint32(|s| % 0x1_0000_0000) + s
  }

  /** `writeNodeInfo`: uuid, ip, then the port's two's-complement bytes. */
  function EncodeNodeInfo(n: NodeInfo): (r: Bytes)
    ensures |r| == 12 + |n.uuid| + |n.ip|
  {
    EncodeString(n.uuid) + EncodeString(n.ip) + EncodeUint32(ToUint32(n.port))
  }

  /** The nodes of a node list, one after the other, in list order. */
  function EncodeNodes(ns: seq<NodeInfo>): (r: Bytes)
    ensures r == [] <==> ns == []
  {
    if ns == [] then [] else EncodeNodeInfo(ns[0]) + EncodeNodes(ns[1..])
  }

  lemma {:induction false} EncodeNodesAppend(ns: seq<NodeInfo>, n: NodeInfo)
    ensures EncodeNodes(ns + [n]) == EncodeNodes(ns) + EncodeNodeInfo(n)
  {
    if ns == [] {
      assert ns + [n] == [n];
    } else {
      assert (ns + [n])[1..] == ns[1..] + [n];
      EncodeNodesAppend(ns[1..], n);
    }
  }

  lemma EncodeNodesPrefix(ns: seq<NodeInfo>, i: nat)
    requires i < |ns|
    ensures EncodeNodes(ns[..i + 1]) == EncodeNodes(ns[..i]) + EncodeNodeInfo(ns[i])
  {
    assert ns[..i + 1] == ns[..i] + [ns[i]];
    EncodeNodesAppend(ns[..i], ns[i]);
  }

  lemma AppendAssoc(a: Bytes, b: Bytes, c: Bytes)
    ensures (a + b) + c == a + (b + c)
  {
  }

  /** An encoded string followed by more bytes: the length, then the
      string's bytes and what follows them. */
  lemma EncodeStringThen(s: Bytes, rest: Bytes)
    ensures EncodeString(s) + rest == EncodeUint32(|s| % 0x1_0000_0000) + (s + rest)
  {
    AppendAssoc(EncodeUint32(|s| % 0x1_0000_0000), s, rest);
  }

  /** An encoded node followed by more bytes, field by field. */
  lemma EncodeNodeInfoThen(n: NodeInfo, rest: Bytes)
    ensures EncodeNodeInfo(n) + rest
            == EncodeString(n.uuid) + (EncodeString(n.ip) + (EncodeUint32(ToUint32(n.port)) + rest))
  {
    var u, i, p := EncodeString(n.uuid), EncodeString(n.ip), EncodeUint32(ToUint32(n.port));
    AppendAssoc(u + i, p, rest);
    AppendAssoc(u, i, p + rest);
  }

  /** Encoded nodes followed by more bytes: the first node, then the
      others and what follows them. */
  lemma EncodeNodesThen(ns: seq<NodeInfo>, rest: Bytes)
    requires ns != []
    ensures EncodeNodes(ns) + rest == EncodeNodeInfo(ns[0]) + (EncodeNodes(ns[1..]) + rest)
  {
    AppendAssoc(EncodeNodeInfo(ns[0]), EncodeNodes(ns[1..]), rest);
  }

  /** Whether `serialize` writes a payload after the tag. */
  predicate HasPayload(t: MessageType) {
    t == NodeRegistration || t == NodeListResponse || t == DataRequest || t == DataResponse
  }

  /** The whole frame `serialize` produces for `m`. */
  function Frame(m: Message): (r: Bytes)
    ensures |r| >= 1 && r[0] == m.msgType
  {
    var t := m.msgType;
    [t] +
    if t == NodeRegistration then
      EncodeNodeInfo(m.nodeInfo)
    else if t == NodeListResponse then
      EncodeUint32(|m.nodeList.nodes| % 0x1_0000_0000) + EncodeNodes(m.nodeList.nodes)
    else if t == DataRequest || t == DataResponse then
      EncodeString(m.keyValue.key) + EncodeString(m.keyValue.value)
    else
      []
  }

  /** A frame followed by more bytes: the tag, then the payload's fields
      and what follows them. */
  lemma FrameThen(m: Message, rest: Bytes)
    ensures var t := m.msgType;
      && (!HasPayload(t) ==> Frame(m) + rest == [t] + rest)
      && (t == NodeRegistration ==>
            Frame(m) + rest == [t] + (EncodeNodeInfo(m.nodeInfo) + rest))
      && (t == NodeListResponse ==>
            Frame(m) + rest == [t] + (EncodeUint32(|m.nodeList.nodes| % 0x1_0000_0000)
                                      + (EncodeNodes(m.nodeList.nodes) + rest)))
      && (t == DataRequest || t == DataResponse ==>
            Frame(m) + rest == [t] + (EncodeString(m.keyValue.key)
                                      + (EncodeString(m.keyValue.value) + rest)))
  {
    var t := m.msgType;
    if t == NodeRegistration {
      AppendAssoc([t], EncodeNodeInfo(m.nodeInfo), rest);
    } else if t == NodeListResponse {
      var c, ns := EncodeUint32(|m.nodeList.nodes| % 0x1_0000_0000), EncodeNodes(m.nodeList.nodes);
      AppendAssoc([t], c + ns, rest);
      AppendAssoc(c, ns, rest);
    } else if t == DataRequest || t == DataResponse {
      var k, v := EncodeString(m.keyValue.key), EncodeString(m.keyValue.value);
      AppendAssoc([t], k + v, rest);
      AppendAssoc(k, v, rest);
    } else {
      assert Frame(m) == [t];
    }
  }

  /** The size and layout of each kind of frame. */
  lemma {:induction false} FrameLayout(m: Message)
    ensures var r := Frame(m);
      && (!HasPayload(m.msgType) ==> r == [m.msgType])
      && (m.msgType == NodeRegistration ==>
            |r| == 13 + |m.nodeInfo.uuid| + |m.nodeInfo.ip|)
      && (m.msgType == DataRequest || m.msgType == DataResponse ==>
            |r| == 9 + |m.keyValue.key| + |m.keyValue.value|)
      && (m.msgType == NodeListResponse ==>
            |r| >= 5 && WordAt(r, 1) == |m.nodeList.nodes| % 0x1_0000_0000)
  {
    var r := Frame(m);
    if m.msgType == NodeListResponse {
      var count := EncodeUint32(|m.nodeList.nodes| % 0x1_0000_0000);
      EncodeUint32Denotes(|m.nodeList.nodes| % 0x1_0000_0000);
      assert r[1..5] == count;
      assert WordAt(r, 1) == WordAt(count, 0);
    }
  }

  /** `serialize` reads only the fields that belong to the type. */
  lemma {:induction false} FrameOfRelevant(m: Message)
    ensures Frame(Relevant(m)) == Frame(m)
  {
  }

  method WriteUint32(buffer: Bytes, value: uint32) returns (out: Bytes)
    ensures out == buffer + EncodeUint32(value)
  {
    out := buffer;
    for i := 0 to 4
      invariant out == buffer + EncodeUint32(value)[..i]
    {
      out := out + [ShiftedByte(value, i)];
    }
  }

  method WriteInt(buffer: Bytes, value: int32) returns (out: Bytes)
    ensures out == buffer + EncodeUint32(ToUint32(value))
  {
    out := buffer;
    for i := 0 to 4
      invariant out == buffer + EncodeUint32(ToUint32(value))[..i]
    {
      ShiftedByteOfNegative(value, i);
      out := out + [ShiftedByte(value, i)];
    }
  }

  method WriteString(buffer: Bytes, s: Bytes) returns (out: Bytes)
    ensures out == buffer + EncodeString(s)
  {
    out := WriteUint32(buffer, |s| % 0x1_0000_0000);
    out := out + s;
  }

  method WriteNodeInfo(buffer: Bytes, n: NodeInfo) returns (out: Bytes)
    ensures out == buffer + EncodeNodeInfo(n)
  {
    out := WriteString(buffer, n.uuid);
    out := WriteString(out, n.ip);
    out := WriteInt(out, n.port);
  }

  /** The `for (const auto& node : message.node_list.nodes)` loop of
      `serialize`. */
  method WriteNodes(buffer: Bytes, nodes: seq<NodeInfo>) returns (out: Bytes)
    ensures out == buffer + EncodeNodes(nodes)
  {
    out := buffer;
    for i := 0 to |nodes|
      invariant out == buffer + EncodeNodes(nodes[..i])
    {
      out := WriteNodeInfo(out, nodes[i]);
      EncodeNodesPrefix(nodes, i);
      AppendAssoc(buffer, EncodeNodes(nodes[..i]), EncodeNodeInfo(nodes[i]));
    }
    assert nodes[..|nodes|] == nodes;
  }

  /** `MessageSerializer::serialize`. */
  method Serialize(m: Message) returns (buffer: Bytes)
    ensures buffer == Frame(m)
  {
    buffer := [m.msgType];
    var t := m.msgType;
    if t == NodeRegistration {
      buffer := WriteNodeInfo(buffer, m.nodeInfo);
    } else if t == NodeListRequest {
      // no payload
    } else if t == NodeListResponse {
      buffer := WriteUint32(buffer, |m.nodeList.nodes| % 0x1_0000_0000);
      buffer := WriteNodes(buffer, m.nodeList.nodes);
    } else if t == DataRequest || t == DataResponse {
      buffer := WriteString(buffer, m.keyValue.key);
      buffer := WriteString(buffer, m.keyValue.value);
    } else {
      // unknown type: the tag alone
    }
  }
}
