/** The records exchanged by nodes (src/message.h). */
module Message {

  newtype byte = x: int | 0 <= x < 0x100
  type uint32 = x: int | 0 <= x < 0x1_0000_0000
  type int32 = x: int | -0x8000_0000 <= x < 0x8000_0000

  /** A `std::string` or `std::vector<uint8_t>` inside a frame: raw bytes. */
  type Bytes = seq<byte>

  /** `enum class MessageType : uint8_t`. The enum is a byte, so every byte
      value is a message type, named or not. */
  type MessageType = byte

  const Unknown: MessageType := 0
  const NodeRegistration: MessageType := 1
  const DataRequest: MessageType := 2
  const DataResponse: MessageType := 3
  const NodeListRequest: MessageType := 4
  const NodeListResponse: MessageType := 5

  /** Declared, but never written or read by the codec. */
  datatype RegistrationData = RegistrationData(nodeId: uint32, nodeAddress: Bytes)

  datatype KeyValueData = KeyValueData(key: Bytes, value: Bytes)

  datatype NodeInfo = NodeInfo(uuid: Bytes, ip: Bytes, port: int32)

  datatype NodeListData = NodeListData(nodes: seq<NodeInfo>)

  /** A record, not a union: every payload exists whatever the type. */
  datatype Message = Message(
    msgType: MessageType,
    registration: RegistrationData,
    keyValue: KeyValueData,
    nodeInfo: NodeInfo,
    nodeList: NodeListData)

  /** The message `deserialize` starts from: empty strings and lists. The
      scalar fields are left uninitialised in C++; here they are 0. */
  function DefaultMessage(t: MessageType): (m: Message)
    ensures m.msgType == t
    ensures m.keyValue.key == [] && m.keyValue.value == []
    ensures m.nodeInfo.uuid == [] && m.nodeInfo.ip == [] && m.nodeList.nodes == []
  {
    Message(t, RegistrationData(0, []), KeyValueData([], []),
            NodeInfo([], [], 0), NodeListData([]))
  }

  /** The part of `m` the codec reads for its type; every other field is
      the default. */
  function Relevant(m: Message): (r: Message)
    ensures r.msgType == m.msgType
  {
    var d := DefaultMessage(m.msgType);
    if m.msgType == NodeRegistration then d.(nodeInfo := m.nodeInfo)
    else if m.msgType == NodeListResponse then d.(nodeList := m.nodeList)
    else if m.msgType == DataRequest || m.msgType == DataResponse then d.(keyValue := m.keyValue)
    else d
  }

  /** Every string and list the codec writes for `m`'s type has a length
      that fits the 32-bit length prefix. */
  predicate WellSized(m: Message) {
    if m.msgType == NodeRegistration then NodeWellSized(m.nodeInfo)
    else if m.msgType == NodeListResponse then
      |m.nodeList.nodes| < 0x1_0000_0000 &&
      forall n :: n in m.nodeList.nodes ==> NodeWellSized(n)
    else if m.msgType == DataRequest || m.msgType == DataResponse then
      |m.keyValue.key| < 0x1_0000_0000 && |m.keyValue.value| < 0x1_0000_0000
    else true
  }

  predicate NodeWellSized(n: NodeInfo) {
    |n.uuid| < 0x1_0000_0000 && |n.ip| < 0x1_0000_0000
  }
}
