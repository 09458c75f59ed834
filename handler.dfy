/**
 * The HCI host's event handlers: command/response correlation with
 * command-buffer credits, the connection table, per-connection transmit
 * credits, the LE meta sub-dispatch and the handlers that only log or reply.
 * Each handler runs as one atomic step on the decoded event, given as an
 * Option (None: the decoder rejected the payload).
 */
module Host {
  import opened Wrappers
  import opened Types
  import opened Addr
  import opened Dispatch
  import opened Credits

  /** The opcode of the no-operation command, used only to return command credits. */
  const NopOpcode: uint16 := 0x0000

  /** The log line of report `i` of an advertising report event. */
  function ReportLine(e: LEAdvertisingReport, i: nat): (l: LogEntry)
    requires e.Covers() && i < e.numReports
    ensures l.AdvertisingReportLine? && ParseAddress(l.address) == Some(e.address[i])
  {
    ParseFormatAddress(e.address[i]);
    AdvertisingReportLine(e.eventType[i], e.addressType[i], FormatAddress(e.address[i]), e.rssi[i], e.data[i])
  }

  class Hci {
    /** Top-level event code to handler. */
    const evtHandlers: Dispatcher
    /** LE meta sub-event code to handler. */
    const subevtHandlers: Dispatcher

    /** Command buffers returned by the controller and not yet taken by a sender. */
    var cmdCredits: nat
    /** The pending command of each opcode and the state of its completion signal. */
    var sentCmds: map<int, PendingState>
    /** Live connections by handle. */
    var conns: map<Handle, Conn>
    /** Every connection handed to the acceptor, in creation order. */
    var published: seq<Conn>
    /** Transmit buffers freed per connection id. */
    var txFreed: map<nat, nat>
    /** Connections whose Disconnect was called, in order. */
    var disconnected: seq<Conn>
    /** ACL data packets forwarded to their connection, in order. */
    var delivered: seq<Delivery>
    /** Commands the handlers sent, in order. */
    var sent: seq<Command>

    /**
     * Connection `i` of the acceptor feed has id `i`, and every live
     * connection is one of them, filed under the handle it was created for.
     */
    ghost predicate Valid()
      reads this
    {
      && (forall i :: 0 <= i < |published| ==> published[i].id == i)
      && (forall h :: h in conns ==>
            && conns[h].id < |published|
            && published[conns[h].id] == conns[h]
            && conns[h].event.connectionHandle == h)
    }

    constructor (evt: Dispatcher, subevt: Dispatcher, credits: nat)
      ensures Valid()
      ensures evtHandlers == evt && subevtHandlers == subevt
      ensures cmdCredits == credits && sentCmds == map[] && conns == map[] && txFreed == map[]
      ensures published == [] && disconnected == [] && delivered == [] && sent == []
    {
      evtHandlers, subevtHandlers := evt, subevt;
      cmdCredits, sentCmds, conns, txFreed := credits, map[], map[], map[];
      published, disconnected, delivered, sent := [], [], [], [];
    }

    /** Two live handles never share a connection. */
    lemma ConnsInjective()
      requires Valid()
      ensures forall h1, h2 :: h1 in conns && h2 in conns && h1 != h2 ==> conns[h1].id != conns[h2].id
    {
    }

    /**
     * The registration the command sender makes before writing a command
     * (the sender itself is not part of this model).
     */
    method RegisterCommand(op: uint16)
      requires Valid()
      modifies this`sentCmds
      ensures Valid()
      ensures sentCmds == old(sentCmds)[op := Waiting]
    {
      sentCmds := sentCmds[op := Waiting];
    }

    /** Forwards an ACL data packet to the connection bound to its handle, if any. */
    method HandleACLData(b: seq<byte>, aclHandle: Handle)
      requires Valid()
      modifies this`delivered
      ensures Valid()
      ensures aclHandle in conns ==> delivered == old(delivered) + [Delivery(conns[aclHandle], b)]
      ensures aclHandle !in conns ==> delivered == old(delivered)
    {
      if aclHandle !in conns {
        return;
      }
      var c := conns[aclHandle];
      delivered := delivered + [Delivery(c, b)];
    }

    /** Returns `n` command buffers to the pool, one at a time. */
    method ReturnCommandBuffers(n: nat)
      modifies this`cmdCredits
      ensures cmdCredits == old(cmdCredits) + n
    {
      for i := 0 to n
        invariant cmdCredits == old(cmdCredits) + i
      {
        cmdCredits := cmdCredits + 1;
      }
    }

    /**
     * Command Complete: returns the event's command credits, then, unless
     * the opcode is the no-operation, fulfils the pending entry of the
     * opcode with the return parameters, or logs that there is none.
     */
    method HandleCommandComplete(e: Option<CommandComplete>) returns (logs: seq<LogEntry>)
      requires Valid()
      modifies this`cmdCredits, this`sentCmds
      ensures Valid()
      ensures e.None? ==> cmdCredits == old(cmdCredits) && sentCmds == old(sentCmds) && logs == []
      ensures e.Some? ==> cmdCredits == old(cmdCredits) + e.value.numHCICommandPackets
      ensures e.Some? && e.value.commandOpcode == NopOpcode ==> sentCmds == old(sentCmds) && logs == []
      ensures e.Some? && e.value.commandOpcode != NopOpcode && e.value.commandOpcode in old(sentCmds) ==>
        sentCmds == old(sentCmds)[e.value.commandOpcode := Fulfilled(e.value.returnParameters)] && logs == []
      ensures e.Some? && e.value.commandOpcode != NopOpcode && e.value.commandOpcode !in old(sentCmds) ==>
        sentCmds == old(sentCmds) && logs == [UnmatchedCommandComplete(e.value)]
    {
      logs := [];
      if e.None? {
        return;
      }
      var ev := e.value;
      ReturnCommandBuffers(ev.numHCICommandPackets);
      if ev.commandOpcode == NopOpcode {
        return;
      }
      if ev.commandOpcode !in sentCmds {
        logs := [UnmatchedCommandComplete(ev)];
        return;
      }
      sentCmds := sentCmds[ev.commandOpcode := Fulfilled(ev.returnParameters)];
    }

    /**
     * Command Status: returns the event's command credits, then closes the
     * pending entry of the opcode without a value, or logs that there is
     * none. The no-operation opcode gets no special treatment here.
     */
    method HandleCommandStatus(e: Option<CommandStatus>) returns (logs: seq<LogEntry>)
      requires Valid()
      modifies this`cmdCredits, this`sentCmds
      ensures Valid()
      ensures e.None? ==> cmdCredits == old(cmdCredits) && sentCmds == old(sentCmds) && logs == []
      ensures e.Some? ==> cmdCredits == old(cmdCredits) + e.value.numHCICommandPackets
      ensures e.Some? && e.value.commandOpcode in old(sentCmds) ==>
        sentCmds == old(sentCmds)[e.value.commandOpcode := Closed] && logs == []
      ensures e.Some? && e.value.commandOpcode !in old(sentCmds) ==>
        sentCmds == old(sentCmds) && logs == [UnmatchedCommandStatus(e.value)]
    {
      logs := [];
      if e.None? {
        return;
      }
      var ev := e.value;
      ReturnCommandBuffers(ev.numHCICommandPackets);
      if ev.commandOpcode !in sentCmds {
        logs := [UnmatchedCommandStatus(ev)];
        return;
      }
      sentCmds := sentCmds[ev.commandOpcode := Closed];
    }

    /**
     * LE Meta: the first payload byte selects the sub-event handler, which
     * is called on the whole payload; an unbound sub-event code is logged.
     */
    method HandleLEMeta(b: seq<byte>) returns (called: Option<Invocation>, logs: seq<LogEntry>)
      requires |b| >= 1
      ensures called.Some? <==> subevtHandlers.Handler(b[0]).Some?
      ensures called.Some? ==> called.value == Invocation(subevtHandlers.handlers[b[0]], b)
      ensures logs == if called.Some? then [] else [UnsupportedLEEvent(b)]
    {
      var code := b[0];
      var f := subevtHandlers.Handler(code);
      if f.Some? {
        called, logs := Some(Invocation(f.value, b)), [];
        return;
      }
      called, logs := None, [UnsupportedLEEvent(b)];
    }

    /**
     * LE Connection Complete: files a new connection under the event's
     * handle, replacing whatever was there, and hands it to the acceptor.
     */
    method HandleLEConnectionComplete(e: Option<LEConnectionComplete>)
      requires Valid()
      modifies this`conns, this`published
      ensures Valid()
      ensures e.None? ==> conns == old(conns) && published == old(published)
      ensures e.Some? ==>
        var c := Conn(|old(published)|, e.value);
        && conns == old(conns)[e.value.connectionHandle := c]
        && published == old(published) + [c]
      ensures e.Some? ==> forall h :: h in old(conns) ==> old(conns)[h].id != conns[e.value.connectionHandle].id
    {
      if e.None? {
        return;
      }
      var ev := e.value;
      var c := Conn(|published|, ev);
      conns := conns[ev.connectionHandle := c];
      published := published + [c];
    }

    /** LE Connection Update Complete: only the decode is required; nothing changes. */
    method HandleLEConnectionUpdateComplete(e: Option<LEConnectionUpdateComplete>)
    {
    }

    /**
     * Disconnection Complete: removes the handle from the table; the
     * connection that was there is disconnected, and a handle that was not
     * there is logged as invalid.
     */
    method HandleDisconnectionComplete(e: Option<DisconnectionComplete>) returns (logs: seq<LogEntry>)
      requires Valid()
      modifies this`conns, this`disconnected
      ensures Valid()
      ensures e.None? ==> conns == old(conns) && disconnected == old(disconnected) && logs == []
      ensures e.Some? ==> conns == old(conns) - {e.value.connectionHandle}
      ensures e.Some? && e.value.connectionHandle in old(conns) ==>
        disconnected == old(disconnected) + [old(conns)[e.value.connectionHandle]] && logs == []
      ensures e.Some? && e.value.connectionHandle !in old(conns) ==>
        disconnected == old(disconnected) && logs == [InvalidDisconnectHandle(e.value.connectionHandle)]
    {
      logs := [];
      if e.None? {
        return;
      }
      var ev := e.value;
      var found := ev.connectionHandle in conns;
      var c := if found then Some(conns[ev.connectionHandle]) else None;
      conns := conns - {ev.connectionHandle};
      if !found {
        logs := [InvalidDisconnectHandle(ev.connectionHandle)];
        return;
      }
      disconnected := disconnected + [c.value];
    }

    /**
     * Number Of Completed Packets: frees, pair by pair, the counted transmit
     * buffers of each handle's connection, and stops at the first handle
     * with no connection. The connection table is only read.
     */
    method HandleNumberOfCompletedPackets(e: Option<NumberOfCompletedPackets>)
      requires Valid()
      requires e.Some? ==> e.value.Covers()
      modifies this`txFreed
      ensures Valid()
      ensures e.None? ==> txFreed == old(txFreed)
      ensures e.Some? ==>
        var n := e.value.numberOfHandles;
        txFreed == FreeCompleted(conns, old(txFreed), e.value.connectionHandle[..n], e.value.hcNumOfCompletedPackets[..n])
    {
      if e.None? {
        return;
      }
      var ev := e.value;
      ghost var hs, ns := ev.connectionHandle[..ev.numberOfHandles], ev.hcNumOfCompletedPackets[..ev.numberOfHandles];
      for i := 0 to ev.numberOfHandles
        invariant FreeCompleted(conns, txFreed, hs[i..], ns[i..]) == FreeCompleted(conns, old(txFreed), hs, ns)
      {
        if ev.connectionHandle[i] !in conns {
          assert hs[i..][0] == ev.connectionHandle[i];
          return;
        }
        var c := conns[ev.connectionHandle[i]];
        ghost var before := txFreed;
        for j := 0 to ev.hcNumOfCompletedPackets[i]
          invariant txFreed == Credit(before, c.id, j)
        {
          txFreed := Credit(txFreed, c.id, 1);
        }
        assert hs[i..][1..] == hs[i + 1..];
        assert ns[i..][1..] == ns[i + 1..];
      }
    }

    /** LE Long Term Key Request: declines it with a negative reply for the same handle. */
    method HandleLELongTermKeyRequest(e: Option<LELongTermKeyRequest>)
      requires Valid()
      modifies this`sent
      ensures Valid()
      ensures e.None? ==> sent == old(sent)
      ensures e.Some? ==> sent == old(sent) + [LELongTermKeyRequestNegativeReply(e.value.connectionHandle)]
    {
      if e.None? {
        return;
      }
      sent := sent + [LELongTermKeyRequestNegativeReply(e.value.connectionHandle)];
    }

    /** LE Advertising Report: one log line per report, in report order. */
    method HandleLEAdvertisingReport(e: Option<LEAdvertisingReport>) returns (logs: seq<LogEntry>)
      requires e.Some? ==> e.value.Covers()
      ensures e.None? ==> logs == []
      ensures e.Some? ==> |logs| == e.value.numReports
      ensures e.Some? ==> forall i :: 0 <= i < |logs| ==> logs[i] == ReportLine(e.value, i)
    {
      logs := [];
      if e.None? {
        return;
      }
      var ev := e.value;
      for i := 0 to ev.numReports
        invariant |logs| == i
        invariant forall k :: 0 <= k < i ==> logs[k] == ReportLine(ev, k)
      {
        logs := logs + [AdvertisingReportLine(ev.eventType[i], ev.addressType[i], FormatAddress(ev.address[i]), ev.rssi[i], ev.data[i])];
      }
    }
  }
}
