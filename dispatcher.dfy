/**
 * The event dispatch table: a map from event code to handler, with lookup,
 * rebinding and routing of raw event packets.
 */
module Dispatch {
  import opened Wrappers
  import opened Types

  /** A handler started on a payload. */
  datatype Invocation = Invocation(handler: HandlerId, payload: seq<byte>)

  class Dispatcher {
    var handlers: map<int, HandlerId>

    constructor ()
      ensures handlers == map[]
    {
      handlers := map[];
    }

    /** The handler bound to code `c`, or None (Go's nil) when there is none. */
    function Handler(c: int): (r: Option<HandlerId>)
      reads this
      ensures r.Some? <==> c in handlers
      ensures r.Some? ==> r.value == handlers[c]
    {
      if c in handlers then Some(handlers[c]) else None
    }

    /** Binds `f` to `c` and returns what `c` was bound to before. */
    method SetHandler(c: int, f: HandlerId) returns (prev: Option<HandlerId>)
      modifies this
      ensures prev == old(Handler(c))
      ensures Handler(c) == Some(f)
      ensures forall d :: d != c ==> Handler(d) == old(Handler(d))
    {
      prev := if c in handlers then Some(handlers[c]) else None;
      handlers := handlers[c := f];
    }

    /**
     * Routes the packet `b` = code, declared length, payload. A declared
     * length that differs from the payload's is reported and tolerated; the
     * handler bound to the code is started on the payload; a code without a
     * handler is reported as unsupported. Returns the invocation started and
     * the lines logged; the table itself is left as it is.
     */
    method Dispatch(b: seq<byte>) returns (spawned: Option<Invocation>, logs: seq<LogEntry>)
      requires |b| >= 2
      ensures spawned.Some? <==> b[0] in handlers
      ensures spawned.Some? ==> spawned.value == Invocation(handlers[b[0]], b[2..])
      ensures logs ==
        (if b[1] != |b| - 2 then [CorruptEventPacket(b)] else []) +
        (if spawned.None? then [UnsupportedEventPacket(b)] else [])
    {
      var code, plen := b[0], b[1];
      logs := [];
      if plen != |b[2..]| {
        logs := logs + [CorruptEventPacket(b)];
      }
      if code in handlers {
        spawned := Some(Invocation(handlers[code], b[2..]));
        return;
      }
      spawned := None;
      logs := logs + [UnsupportedEventPacket(b)];
    }
  }
}
