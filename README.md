# HCI event handling, modelled in Dafny

This project models the event-handling layer of a Bluetooth Low Energy HCI
host (`hci/handler.go`). The host receives event packets from the
controller and does four things with them:

- routes each packet by event code through a dispatch table, and LE meta
  sub-events through a second table;
- matches Command Complete and Command Status events to the pending command
  of their opcode, and returns the command-buffer credits the controller
  reports;
- keeps the table of live connections: LE Connection Complete adds one,
  Disconnection Complete removes one, and ACL data is routed by handle;
- frees per-connection transmit buffers when a Number Of Completed Packets
  event arrives (section 4.1.1 of Vol 2, Part E of the Bluetooth Core
  Specification).

It also answers LE Long Term Key Requests with a negative reply, and logs
advertising reports with their addresses rendered as `XX:XX:XX:XX:XX:XX`.

Every handler is one atomic step. It receives the already-decoded event as
an `Option`, where `None` means the decoder rejected the payload; every
handler then does nothing.

Files:

- `wrappers.dfy`: `Option`.
- `types.dfy`: octets, 16-bit fields, handles, addresses, the decoded event
  records, the states of a command's completion signal, connections and log
  lines.
- `address.dfy`: the address formatter, and the parser that reads its output
  back.
- `dispatcher.dfy`: the `Dispatcher` class, which maps a code to a handler.
- `credits.dfy`: `FreeCompleted`, the specification of the completed-packets
  loop, with its lemmas.
- `handler.dfy`: the `Hci` class. Its fields hold the command credits, the
  pending commands, the connection table, the transmit buffers freed per
  connection, and the records of what the handlers hand on: published
  connections, disconnected connections, delivered packets and sent
  commands.
- `scenarios.dfy`: short event sequences. Each one's outcome follows from
  the handlers' contracts.

The model follows the code in these places:

- Channel operations become state changes. Pushing a buffer into the
  command-buffer channel adds one to `cmdCredits`. Sending on a pending
  command's channel sets its state to `Fulfilled(params)`. Closing the
  channel sets it to `Closed`. Publishing a connection appends it to
  `published`.
- Nothing in `hci/handler.go` removes an entry from the pending-command
  table, so a second Command Complete for the same opcode finds the entry
  again. `Host.Hci.RegisterCommand` stands in for the registration a command
  sender makes, so that scenarios can create entries; the sender's code is
  not part of this model.
- Only Command Complete treats opcode `0x0000` (the no-operation command of
  section 4.4 of Vol 2, Part E) specially. Command Status looks it up like
  any other opcode.
- The LE meta handler does not check a declared length, unlike the top-level
  dispatch. It passes the WHOLE payload, including the sub-event code, to
  the sub-event handler and calls that handler directly. The top-level
  dispatch starts its handler on the payload after the two header bytes.
- LE Connection Complete does not look at the event's status. It files a
  connection for every event that decodes.
- Some handlers index their input without a check; the inputs on which Go
  would panic are excluded by a `requires` and listed under "Left out".
- A new connection's identity is its position in `published`. `Hci.Valid()`
  ties each live connection to that feed and to the handle it was created
  for, so two live handles never share a connection.
- `Dispatch`, `HandleLEMeta` and `HandleLEAdvertisingReport` change no
  state. They return the handler invocation they start and the lines they
  log. The other handlers return their log lines and record their other
  effects in `Hci` fields.

## Model

| member | source | states |
|---|---|---|
| `Dispatch.Dispatcher.Handler` | hci/handler.go:20-24 | gives the handler bound to the code, and None exactly when the code is unbound |
| `Dispatch.Dispatcher.SetHandler` | hci/handler.go:26-32 | returns the previous binding of `c`; afterwards `c` is bound to `f` and every other code keeps its binding |
| `Dispatch.Dispatcher.Dispatch` | hci/handler.go:34-46 | a handler starts exactly when `b[0]` is bound, and it is that code's handler on exactly `b[2..]`; a declared length other than `|b| - 2` adds one corrupt-packet warning without stopping the dispatch; an unbound code adds exactly one unsupported-packet error; the table is not changed |
| `Host.Hci.HandleACLData` | hci/handler.go:48-57 | a packet whose handle is live goes to that handle's connection; otherwise nothing happens |
| `Host.Hci.ReturnCommandBuffers` | hci/handler.go:64-66 | the command-credit pool grows by exactly `n`, one buffer per loop step |
| `Host.Hci.HandleCommandComplete` | hci/handler.go:59-77 | a decode failure changes nothing; otherwise the credits grow by `NumHCICommandPackets` before the opcode is examined; opcode 0x0000 stops there, without consulting the pending commands; a pending opcode gets `Fulfilled(ReturnParameters)`; an unknown opcode logs one error and changes nothing else |
| `Host.Hci.HandleCommandStatus` | hci/handler.go:79-93 | the same credits as Command Complete; no no-operation special case; a pending opcode is `Closed` with no value; an unknown opcode logs one error |
| `Host.Hci.HandleLEMeta` | hci/handler.go:95-102 | the sub-event handler bound to `b[0]` is called on the whole payload exactly when there is one; otherwise one unsupported-LE-event line is logged |
| `Host.Hci.HandleLEConnectionComplete` | hci/handler.go:104-115 | the event's handle maps to a new connection that is distinct from every earlier one, replacing any earlier entry; exactly that connection is appended to the published feed; the table invariant is kept |
| `Host.Hci.HandleDisconnectionComplete` | hci/handler.go:123-137 | afterwards the handle is absent and every other handle is untouched; Disconnect is called on the connection exactly when the handle was live; otherwise one invalid-handle error is logged; the table invariant is kept |
| `Host.Hci.HandleNumberOfCompletedPackets` | hci/handler.go:139-162 | the freed-buffer counts become `FreeCompleted` of the first `NumberOfHandles` pairs; the connection table is not modified |
| `Host.Hci.HandleLELongTermKeyRequest` | hci/handler.go:164-173 | a decoded request sends exactly one negative reply for the same handle; a decode failure sends nothing |
| `Host.Hci.HandleLEAdvertisingReport` | hci/handler.go:175-187 | one log line per report `0..NumReports-1`, in order; line `i` shows report `i`'s fields, with its address formatted |
| `Host.Hci.ConnsInjective` | hci/handler.go:110-112 | two distinct live handles never share a connection object |
| `Host.ReportLine` | hci/handler.go:184-185 | the address in line `i` reads back as report `i`'s address |
| `Credits.Credit` | hci/handler.go:158-160 | freeing `n` buffers of one connection adds exactly `n` to its count and leaves every other connection's count as it was |
| `Credits.FirstUnknown` | hci/handler.go:144-151 | the index of the first pair whose handle is not live: every earlier handle is live |
| `Credits.FreeCompletedCounts` | hci/handler.go:144-161 | each connection gains exactly the sum of the counts of the pairs naming it, up to the first unknown handle |
| `Credits.FreeCompletedStops` | hci/handler.go:147-151 | pairs after the first unknown handle have no effect |
| `Credits.UntouchedConnection` | hci/handler.go:144-161 | a connection that no pair names keeps its count |
| `Addr.HexByte` | hci/handler.go:181 | `%02X`: two upper-case hex digits that read back as the byte |
| `Addr.FormatAddress` | hci/handler.go:180-182 | 17 characters: a colon at each position `i` with `i % 3 == 2`, and an upper-case hex digit everywhere else |
| `Addr.FormatAddressOctets` | hci/handler.go:181 | group `k` of the rendering is byte `5 - k`, so `a[5]` comes first and `a[0]` last |
| `Addr.ParseFormatAddress` | hci/handler.go:180-182 | parsing the rendering gives back the address, so the formatter loses nothing |
| `Addr.FormatAddressInjective` | hci/handler.go:180-182 | distinct addresses render differently |
| `Scenarios.RebindThenDispatch` | hci/handler.go:26-46 | after rebinding a code, a packet with that code starts the new handler on its payload, with no warning when the length is declared correctly |
| `Scenarios.CommandRoundTrip` | hci/handler.go:59-77 | a command registered under 0x0C03, then completed with one credit and `[0xAA]`: one more credit, and the signal holds `[0xAA]` |
| `Scenarios.NopReturnsCredits` | hci/handler.go:64-70 | a no-operation Command Complete returns its credits and leaves the pending commands alone |
| `Scenarios.DisconnectThenData` | hci/handler.go:48-57 | once a handle is disconnected, ACL data for it is dropped |
| `Scenarios.DisconnectUnknown` | hci/handler.go:128-135 | disconnecting 0x0040 when it is not live logs exactly one invalid-handle error and leaves the table unchanged |
| `Scenarios.DeclineKeyRequest` | hci/handler.go:164-173 | a key request for 0x0020 sends exactly one negative reply for 0x0020 |
| `Scenarios.RouteCommandComplete` | hci/handler.go:34-46 | with a handler bound to the Command Complete code in the host's top-level table, a Command Complete packet starts that handler on its payload, and the handler returns the event's command credits |
| `Scenarios.ConnectThenDisconnect` | hci/handler.go:104-137 | a connection established and then torn down is disconnected once, and the table ends as it was minus that handle |

`Host.Hci.HandleLEConnectionUpdateComplete` (hci/handler.go:117-122) only
decodes its event. It is a method that changes nothing, so it has no
contract to list.

## Left out

- Concurrency: `dispatch` starts its handler in a goroutine. The model
  returns the invocation instead of running it. The mutexes are left out,
  and so is the race between disconnection and a trailing
  completed-packets event. Each handler is one atomic step.
- Blocking: pushing into the command-buffer channel, the acceptor channel
  and a pending command's channel can block or apply back-pressure. The model
  uses a counter, an append-only sequence and a state change instead.
- Host.Hci.HandleCommandComplete: nothing in `hci/handler.go` removes a
  pending entry. A second Command Complete for the same opcode sends on
  `p.done` again (hci/handler.go:76), and a send on a channel that a Command
  Status already closed panics in Go. The model overwrites the entry's state
  with `Fulfilled` instead. How `p.done` is created and whether a repeated
  completion is ever reported as a miss depend on code that is not part of
  this model.
- Host.Hci.HandleCommandStatus: a second Command Status for the same opcode
  closes `p.done` again (hci/handler.go:92), which panics in Go. The model
  overwrites the entry's state with `Closed` instead.
- Decoders: `Unmarshal` for each event type is not part of this model.
  Handlers receive the decoded record, or `None` if decoding failed. The
  handle of an ACL packet, which `l2cap.Packet.Handle` reads, is passed in
  as `aclHandle`.
- Collaborators: the code of `l2cap.NewConn`, `buffer.NewClient`,
  `c.Disconnect`, `c.HandlePacket`, `c.TxBuffers().Free` and `h.Send` is not
  part of this model. Their calls are recorded in `published`,
  `disconnected`, `delivered`, `txFreed` and `sent`. The force-release of
  transmit buffers on disconnect happens inside `Disconnect`, so it is not
  modelled.
- Logging: logrus output becomes abstract `LogEntry` values. `fmt` output is
  modelled only for the address (`HexByte`, `FormatAddress`). Other log lines
  carry their values unformatted.
- Dispatch.Dispatcher.Dispatch: requires `|b| >= 2`. On a shorter packet Go
  panics with an index out of range (hci/handler.go:37), and the model does
  not describe that panic.
- Host.Hci.HandleLEMeta: requires `|b| >= 1`. On an empty payload Go panics
  with an index out of range (hci/handler.go:96), and the model does not
  describe that panic.
- Host.Hci.HandleNumberOfCompletedPackets: requires `Covers()`, meaning that
  both decoded lists have an entry for every announced pair. Otherwise Go
  panics with an index out of range (hci/handler.go:147, 158), and the model
  does not describe that panic.
- Host.Hci.HandleLEAdvertisingReport: requires `Covers()`, meaning that every
  decoded field list has an entry for every announced report. Otherwise Go
  panics with an index out of range (hci/handler.go:184-185), and the model
  does not describe that panic.
- Dispatch.Dispatcher.SetHandler: does not model binding a nil handler.
  Dispatch would find such an entry and fail when it starts it.
- The per-pair-independent credit policy is not modelled. The code returns
  at the first unknown handle, and so does the model.
- Integer widths: the fields of the decoded records are limited to their
  wire ranges (`byte`, `uint16`, `int8`). The credit counters are unbounded
  naturals; the channels they stand for have no modelled capacity.
