/**
 * The values the HCI event layer works on: octets and 16-bit fields of the
 * wire format, the decoded event records handed to each handler, the
 * commands a handler sends, the connections it tracks and the lines it logs.
 */
module Types {

  /** One octet of an HCI packet. */
  type byte = x: int | 0 <= x < 0x100

  /** An unsigned 16-bit field (handles, opcodes, packet counts). */
  type uint16 = x: int | 0 <= x < 0x1_0000

  /** A signed 8-bit field (the received signal strength of an advertising report). */
  type int8 = x: int | -0x80 <= x < 0x80

  /** A controller-assigned connection handle. */
  type Handle = uint16

  /** A 6-byte device address, least significant byte first as on the wire. */
  type Address = a: seq<byte> | |a| == 6 witness [0, 0, 0, 0, 0, 0]

  /** The identity of a handler bound in a dispatch table. */
  type HandlerId = nat

  /** Command Complete event, as decoded. */
  datatype CommandComplete = CommandComplete(
    numHCICommandPackets: byte,
    commandOpcode: uint16,
    returnParameters: seq<byte>)

  /** Command Status event, as decoded. */
  datatype CommandStatus = CommandStatus(
    status: byte,
    numHCICommandPackets: byte,
    commandOpcode: uint16)

  /** LE Connection Complete sub-event, as decoded (only the fields the host uses). */
  datatype LEConnectionComplete = LEConnectionComplete(
    status: byte,
    connectionHandle: Handle,
    role: byte,
    peerAddressType: byte,
    peerAddress: Address)

  /** LE Connection Update Complete sub-event, as decoded. */
  datatype LEConnectionUpdateComplete = LEConnectionUpdateComplete(
    status: byte,
    connectionHandle: Handle)

  /** Disconnection Complete event, as decoded. */
  datatype DisconnectionComplete = DisconnectionComplete(
    status: byte,
    connectionHandle: Handle,
    reason: byte)

  /** Number Of Completed Packets event: parallel lists of handles and counts. */
  datatype NumberOfCompletedPackets = NumberOfCompletedPackets(
    numberOfHandles: byte,
    connectionHandle: seq<Handle>,
    hcNumOfCompletedPackets: seq<uint16>)
  {
    /** The decoder fills both lists for every announced pair. */
    predicate Covers() {
      |connectionHandle| >= numberOfHandles && |hcNumOfCompletedPackets| >= numberOfHandles
    }
  }

  /** LE Long Term Key Request sub-event, as decoded. */
  datatype LELongTermKeyRequest = LELongTermKeyRequest(
    connectionHandle: Handle,
    randomNumber: seq<byte>,
    encryptedDiversifier: uint16)

  /** LE Advertising Report sub-event: NumReports reports stored field by field. */
  datatype LEAdvertisingReport = LEAdvertisingReport(
    numReports: byte,
    eventType: seq<byte>,
    addressType: seq<byte>,
    address: seq<Address>,
    rssi: seq<int8>,
    data: seq<seq<byte>>)
  {
    /** The decoder fills every field list for every announced report. */
    predicate Covers() {
      && |eventType| >= numReports
      && |addressType| >= numReports
      && |address| >= numReports
      && |rssi| >= numReports
      && |data| >= numReports
    }
  }

  /** Commands the event layer itself originates. */
  datatype Command = LELongTermKeyRequestNegativeReply(connectionHandle: Handle)

  /**
   * The one-shot completion signal of a pending command: still open, given
   * the return parameters of a Command Complete, or closed without a value by
   * a Command Status.
   */
  datatype PendingState = Waiting | Fulfilled(params: seq<byte>) | Closed

  /**
   * A connection object: `id` is its identity (distinct for every
   * connection ever created) and `event` the connection-complete event it
   * was built from.
   */
  datatype Conn = Conn(id: nat, event: LEConnectionComplete)

  /** A packet handed to a connection's packet entry point. */
  datatype Delivery = Delivery(conn: Conn, packet: seq<byte>)

  /** The lines the event layer logs, by kind, with the values they show. */
  datatype LogEntry =
    | CorruptEventPacket(packet: seq<byte>)
    | UnsupportedEventPacket(packet: seq<byte>)
    | UnsupportedLEEvent(packet: seq<byte>)
    | UnmatchedCommandComplete(complete: CommandComplete)
    | UnmatchedCommandStatus(cmdStatus: CommandStatus)
    | InvalidDisconnectHandle(handle: Handle)
    | AdvertisingReportLine(eventType: byte, addressType: byte, address: string, rssi: int8, data: seq<byte>)
}
