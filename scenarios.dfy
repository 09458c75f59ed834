/**
 * Clients of the event layer: short event sequences whose outcome follows
 * from the handlers' contracts alone.
 */
module Scenarios {
  import opened Wrappers
  import opened Types
  import opened Dispatch
  import opened Host

  /** After rebinding code `c`, a packet with that code starts the new handler on its payload. */
  method RebindThenDispatch(d: Dispatcher, c: byte, f: HandlerId, payload: seq<byte>)
    returns (spawned: Option<Invocation>, logs: seq<LogEntry>)
    modifies d
    ensures spawned == Some(Invocation(f, payload))
    ensures |payload| < 0x100 ==> logs == []
  {
    var _ := d.SetHandler(c, f);
    var len: byte := if |payload| < 0x100 then |payload| else 0xFF;
    var b := [c, len] + payload;
    assert b[2..] == payload;
    spawned, logs := d.Dispatch(b);
  }

  /**
   * A command registered under 0x0C03 and completed with one credit and
   * return parameters [0xAA]: one credit more, and the signal holds [0xAA].
   */
  method CommandRoundTrip(h: Hci)
    requires h.Valid()
    modifies h
    ensures h.cmdCredits == old(h.cmdCredits) + 1
    ensures h.sentCmds == old(h.sentCmds)[0x0C03 := Fulfilled([0xAA])]
  {
    h.RegisterCommand(0x0C03);
    var logs := h.HandleCommandComplete(Some(CommandComplete(1, 0x0C03, [0xAA])));
  }

  /** A no-operation Command Complete returns its credits and leaves the pending commands alone. */
  method NopReturnsCredits(h: Hci, n: byte)
    requires h.Valid()
    modifies h
    ensures h.cmdCredits == old(h.cmdCredits) + n
    ensures h.sentCmds == old(h.sentCmds)
  {
    var logs := h.HandleCommandComplete(Some(CommandComplete(n, NopOpcode, [])));
    assert logs == [];
  }

  /** Once a handle is disconnected, data for it is dropped. */
  method DisconnectThenData(h: Hci, handle: Handle, b: seq<byte>)
    requires h.Valid()
    modifies h
    ensures h.Valid()
    ensures handle !in h.conns
    ensures h.delivered == old(h.delivered)
  {
    var logs := h.HandleDisconnectionComplete(Some(DisconnectionComplete(0, handle, 0x13)));
    h.HandleACLData(b, handle);
  }

  /** Disconnecting 0x0040 when it is not live logs one invalid-handle error and changes nothing. */
  method DisconnectUnknown(h: Hci) returns (logs: seq<LogEntry>)
    requires h.Valid() && 0x0040 !in h.conns
    modifies h
    ensures logs == [InvalidDisconnectHandle(0x0040)]
    ensures h.conns == old(h.conns) && h.disconnected == old(h.disconnected)
  {
    logs := h.HandleDisconnectionComplete(Some(DisconnectionComplete(0, 0x0040, 0x13)));
  }

  /** A key request for 0x0020 sends exactly one negative reply for 0x0020. */
  method DeclineKeyRequest(h: Hci)
    requires h.Valid()
    modifies h
    ensures h.sent == old(h.sent) + [LELongTermKeyRequestNegativeReply(0x0020)]
  {
    h.HandleLELongTermKeyRequest(Some(LELongTermKeyRequest(0x0020, [0, 0, 0, 0, 0, 0, 0, 0], 0)));
  }

  /** A connection established and then torn down is disconnected once and leaves the table as it was, minus its handle. */
  method ConnectThenDisconnect(h: Hci, e: LEConnectionComplete)
    requires h.Valid()
    modifies h
    ensures h.Valid()
    ensures |h.published| == |old(h.published)| + 1
    ensures h.disconnected == old(h.disconnected) + [h.published[|h.published| - 1]]
    ensures h.conns == old(h.conns) - {e.connectionHandle}
  {
    h.HandleLEConnectionComplete(Some(e));
    var logs := h.HandleDisconnectionComplete(Some(DisconnectionComplete(0, e.connectionHandle, 0x13)));
  }

  /** The Command Complete event code. */
  const CommandCompleteCode: byte := 0x0E

  /**
   * A Command Complete packet goes through the host's own top-level table:
   * with `f` bound to the Command Complete code, the packet starts `f` on its
   * payload, and the handler then returns the event's command credits.
   */
  method RouteCommandComplete(h: Hci, f: HandlerId, payload: seq<byte>, e: CommandComplete)
    returns (spawned: Option<Invocation>)
    requires h.Valid() && |payload| < 0x100
    modifies h, h.evtHandlers
    ensures spawned == Some(Invocation(f, payload))
    ensures h.cmdCredits == old(h.cmdCredits) + e.numHCICommandPackets
  {
    var _ := h.evtHandlers.SetHandler(CommandCompleteCode, f);
    var b := [CommandCompleteCode, |payload|] + payload;
    assert b[2..] == payload;
    var logs;
    spawned, logs := h.evtHandlers.Dispatch(b);
    logs := h.HandleCommandComplete(Some(e));
  }
}
