/** DHCP messages (RFC 2131, section 2). */
module DhcpMessages {
  type Address = a: nat | a < 0x1_0000_0000

  // The unspecified IPv4 address, 0.0.0.0.
  const UNSPECIFIED: Address := 0

  type Mac = nat

  datatype Opcode = BootRequest | BootReply

  datatype MessageType = Discover | Offer | Request | Decline | Ack | Nak | Release | Inform

  // Lengths of time an acknowledgement grants: until renewing (T1), until rebinding (T2), and in all.
  datatype Times = Times(renewal: real, rebinding: real, lease: real)

  datatype Message = Message(
    op: Opcode,
    messageType: MessageType,
    xid: int,
    chaddr: Mac,
    ciaddr: Address,
    yiaddr: Address,
    serverIdentifier: Address,
    requestedIp: Address,
    times: Times
  )

  const NO_TIMES := Times(0.0, 0.0, 0.0)
}
