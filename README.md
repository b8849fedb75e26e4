# RFC 864 character generator server: slot table and line generator

This project models the core of an ESP32 character generator server (RFC 864,
"Character Generator Protocol", TCP variant). A connected peer receives an
endless stream of 72-character lines with CR LF terminators. Line n generated
for a connection starts at offset n mod 95 of the 95 printable ASCII
characters. The peer receives exactly these lines only while every write goes
through (see below).

The model covers two pieces of `src/main.cpp`:

- **The connection-slot table.** A fixed array of `MAX_CLIENTS` (4) client
  states. Each holds a connection handle, where null marks a free slot, and a
  rotation cursor `startIndex`. Lookup, first-fit admission and release work
  on this array in place.
- **The flow-controlled line generator.** `makeAndSendLine` builds the line
  at the slot's cursor and advances the cursor. It then writes the 74 bytes
  only if the transport can send and has room. The acknowledgement and poll
  handlers share one gate before they call it.

Files and modules:

- `pattern.dfy` (`Pattern`): the alphabet and line-length constants, the line
  at a cursor (`LineAt`, `Line`), and the first k lines of a connection
  (`Stream`), with lemmas about their contents.
- `transport.dfy` (`Transport`): class `Connection` gives the asynchronous TCP
  client's state as seen by the core: `disconnected()`, `canSend()`,
  `space()`, a `closed` flag, and the bytes written so far. The null
  reference plays the part of the library's NULL client pointer. Handles are
  compared by reference, as in the source.
- `slot_table.dfy` (`SlotTable`): the table as a sequence value. It has
  first-fit search (`FindSlot`), admission (`Admit`), release (`Release`),
  the occupied count, and the table invariant. The invariant says no
  connection sits in two slots and each cursor equals the slot's generated
  line count mod 95. Free slots have count and cursor 0.
- `chargen.dfy` (`Chargen`): class `Server` keeps the table in an
  `array<ClientState>`. Each handler of the source is a method proved against
  the `SlotTable` functions and the generator functions (`GeneratorSlot`,
  `Rotate`, `Written`, `TriggerGate`). A ghost field `runs` counts the lines
  generated for each slot's occupant since admission. With it, the k-th line
  generated for a connection is the one at offset k mod 95.
- `scenario.dfy` (`Scenario`): call sequences on the server, checked
  against the contracts alone. They cover the first lines of a connection, a
  second connection with its own cursor, a full table rejecting a connection, double release
  and slot reuse, and the two gating effects described below.

The method `FillLineBuffer` fills `lineBuffer`: the 72 pattern characters
(`src/main.cpp:51-56`) and the CR LF terminator (`src/main.cpp:63-64`). The
source does this inline in `makeAndSendLine`, and writes the terminator after
the cursor update at line 60. The model writes it before that update. Nothing
reads the buffer or the cursor in between, so the order makes no difference.
The 75-byte buffer, the two terminator bytes and the 74-byte write are
modelled as in the source.

Three behaviours of the code are easy to miss, and the model follows the
code in each:

- The acknowledgement and poll handlers call the generator only when
  `space() > 74`, which is strictly greater. The generator's own check is
  `space() >= 74`. So with exactly 74 bytes free, those events send nothing.
  Only the first line after admission, sent by the one direct generator call
  at line 138, can go out with exactly 74 bytes free (`Scenario.StrictGate`).
- The cursor advances before the write check. A line that is built but not
  written, because `canSend()` is false or space is short, is lost from the
  rotation. The next line goes out one offset further on. For example, a
  connection admitted while it cannot send receives, as its first line, the
  line at offset 1 (`Scenario.SkippedFirstLine`). So "line n starts at n mod
  95" holds for generated lines. It holds for received lines only while every
  generator call wrote (`Chargen.WrittenIsNextLine`). The comment at line 73
  says the next ack or poll will try again; what that call sends is the next
  line, not the skipped one.
- The only path that frees a slot is the disconnect handler
  (`src/main.cpp:92-98`). Admission registers ack, disconnect and poll
  callbacks and no error callback (`src/main.cpp:127-135`).

`HandleNewClient` returns the slot number the source computes in its local
`freeIndex` and logs at `src/main.cpp:121`, with -1 for a rejection. The
source function itself returns nothing.

A `Connection`'s `write` uses up send space: `space()` drops by the number of
bytes written. The environment frees space again when the peer acknowledges
data. A scenario does this by assigning `space`.

## Model

| member | source | states |
|---|---|---|
| Pattern.LineAt | src/main.cpp:54-56 | Defined by its body, as the source's loop fills `lineBuffer`; its contract gives the length. Characterised by LineContents, LineRotation and LinePeriodic |
| Pattern.Line | src/main.cpp:54-67 | The 72 pattern characters and CR LF: always 74 bytes, which is `bytes_to_send`. Characterised by LineContents |
| Pattern.Stream | src/main.cpp:48-71 | The first k lines of a connection whose every generator call wrote: 74 k bytes. Characterised by StreamAt and StreamPrefix |
| Pattern.LineContents | src/main.cpp:54-67 | Of the 74 bytes of a line, character i < 72 is alphabet entry (cursor + i) mod 95, and bytes 72 and 73 are CR and LF |
| Pattern.LineRotation | src/main.cpp:55-60 | The line at the next cursor, (cursor + 1) mod 95, is the current line shifted left by one position |
| Pattern.LinePeriodic | src/main.cpp:55 | The line depends only on the cursor mod 95 |
| Pattern.StreamAt | src/main.cpp:54-71 | In the first k lines of a connection, byte 74j + i is alphabet entry (j + i) mod 95 for i < 72, and bytes 72 and 73 of each line are CR and LF |
| Pattern.StreamPrefix | src/main.cpp:60-71 | Sending further lines never changes bytes already sent: the first j lines are a prefix of the first k |
| SlotTable.FindSlot | src/main.cpp:31-37 | The result is the lowest slot whose client equals the handle; it is None exactly when no slot holds the handle |
| SlotTable.FindFrom | src/main.cpp:32-36 | The scan from slot k returns the lowest matching slot at or after k, or None when none matches |
| SlotTable.Admit | src/main.cpp:105-125 | Storing a new client never changes the table's length or any occupied slot. Characterised by AdmitFirstFit, AdmitCount and SlotReuse |
| SlotTable.Release | src/main.cpp:92-98 | Release changes no slot except one that held the handle, and that slot becomes NULL with cursor 0. Characterised by ReleaseFirstMatch, ReleaseAbsent, ReleaseRemoves, ReleaseIdempotent and ReleaseCount |
| SlotTable.FindSlotIsFirst | src/main.cpp:31-37 | The lookup is determined: any lowest matching slot is what it returns |
| SlotTable.Occupied | src/main.cpp:180-186 | The occupied count never exceeds the number of slots |
| SlotTable.OccupiedSnoc | src/main.cpp:183-186 | Counting slot by slot adds one exactly for an occupied slot |
| SlotTable.FullIffAllOccupied | src/main.cpp:105-113 | No free slot exists exactly when every slot is occupied |
| SlotTable.OccupiedUpdate | src/main.cpp:94-95 | Replacing a slot changes the occupied count by what left and what arrived |
| SlotTable.AdmitFirstFit | src/main.cpp:105-125 | Admission stores the client in the lowest free slot with cursor 0. Every earlier slot is occupied, all other slots are unchanged, and a full table is returned unchanged |
| SlotTable.AdmitCount | src/main.cpp:105-125 | Admission is rejected exactly when all slots are occupied. Otherwise it adds one occupant, and the count never exceeds the capacity |
| SlotTable.ReleaseFirstMatch | src/main.cpp:92-98 | Release frees the first slot holding the handle, client NULL and cursor 0, and leaves every other slot unchanged |
| SlotTable.ReleaseAbsent | src/main.cpp:92-98 | Releasing a handle held by no slot is a no-op |
| SlotTable.ReleaseRemoves | src/main.cpp:92-98 | On a table without duplicates, the released handle is in no slot afterwards |
| SlotTable.ReleaseIdempotent | src/main.cpp:88-98 | A second release of the same handle leaves the table as one release left it |
| SlotTable.ReleaseCount | src/main.cpp:92-98 | Releasing an occupant lowers the occupied count by one; releasing an absent handle changes nothing |
| SlotTable.SlotReuse | src/main.cpp:92-125 | On a full table, after a release the next admission gets the released slot with cursor 0, whatever the old cursor was |
| SlotTable.AdmitPreserves | src/main.cpp:123-125 | Admitting a connection not yet in the table keeps the table invariant: no duplicates, and each cursor equals its line count mod 95 |
| SlotTable.ReleasePreserves | src/main.cpp:92-98 | Release keeps the table invariant, with the freed slot's line count back at 0 |
| Chargen.GeneratorSlot | src/main.cpp:43-46 | The generator works on a slot only for a non-NULL, connected handle, and that slot holds the handle. Characterised by GeneratorSkips |
| Chargen.Rotate | src/main.cpp:60 | The cursor step moves no client and touches no other slot, and the new cursor is a valid alphabet index. Characterised by RotatePreserves |
| Chargen.Written | src/main.cpp:66-71 | A generator call writes no bytes or exactly 74, and writes only when it found a slot, canSend() holds and space() >= 74. Characterised by WrittenLine and WrittenIsNextLine |
| Chargen.TriggerGate | src/main.cpp:82 | The gate the ack handler tests at line 82 and the poll callback repeats at line 132: when it is open, the generator's own room check at line 70 also passes |
| Chargen.GeneratorSkips | src/main.cpp:43-46 | The generator does nothing exactly when the handle is NULL, the client is disconnected, or no slot holds it |
| Chargen.WrittenLine | src/main.cpp:63-74 | A generator call writes nothing or exactly one 74-byte line at the slot's cursor. It writes exactly when the slot was found, canSend() holds and space() >= 74 |
| Chargen.RotatePreserves | src/main.cpp:60 | Advancing the cursor by one mod 95 keeps it equal to the slot's new line count mod 95 |
| Chargen.WrittenIsNextLine | src/main.cpp:48-71 | The k-th generated line of a connection is the line at offset k mod 95. If every earlier call wrote, the output grows from the first k lines to the first k + 1 |
| Chargen.AdmittedClientFound | src/main.cpp:124-138 | Right after admission, the generator finds the new client in the slot it was given, unless the client is already disconnected |
| Chargen.FirstLineAfterAdmission | src/main.cpp:124-138 | Admission followed by the first generator call leaves the new slot at cursor 1 and sends line 0 when there is room. A connection already disconnected keeps cursor 0 and gets nothing |
| Chargen.FillLineBuffer | src/main.cpp:51-64 | The filling loop yields a 75-byte buffer whose first 74 bytes are the line at the cursor followed by CR LF |
| Chargen.Server.constructor | src/main.cpp:24-28 | At start-up all slots are free with cursor 0 |
| Chargen.Server.FindClientState | src/main.cpp:31-37 | The linear scan returns the lowest slot holding the handle, or None exactly when no slot holds it |
| Chargen.Server.MakeAndSendLine | src/main.cpp:41-75 | On a found slot, the cursor becomes (old + 1) mod 95 whether or not a write happens. The output grows by the line at the old cursor only when canSend() holds and space() >= 74. A NULL handle, a disconnected client or a lookup miss leaves table and output unchanged |
| Chargen.Server.HandleClientAck | src/main.cpp:80-85 | Runs the generator only when the client is not disconnected and space() > 74; otherwise nothing changes |
| Chargen.Server.OnPoll | src/main.cpp:131-135 | The same gate and the same generator effect as the acknowledgement handler |
| Chargen.Server.HandleClientDisconnect | src/main.cpp:88-100 | The new table is the release of the handle from the old one, and the table invariant is kept |
| Chargen.Server.HandleNewClient | src/main.cpp:103-139 | Returns the first free slot number, the value logged at line 121, or -1. With no free slot, the client is closed, nothing is written and the table is unchanged. Otherwise the client is stored with cursor 0. Unless it is already disconnected, the generator runs at once: the cursor ends at 1, and line 0 is sent when canSend() holds and space() >= 74. An already-disconnected client keeps cursor 0 and gets nothing |
| Transport.Connection.Write | src/main.cpp:70-71 | Writing appends the bytes to the output and uses up that much send space. The caller must have room, as the guard at line 70 ensures |
| Transport.Connection.Close | src/main.cpp:116 | Closing marks the connection closed and writes nothing |
| Chargen.Server.ActiveClients | src/main.cpp:180-199 | The status loop's count equals the number of occupied slots and is at most MAX_CLIENTS |

## Left out

- WiFi bring-up, hostname registration and the wait-for-link loop in `setup`: network hardware and I/O.
- The asynchronous TCP server and client objects, and the registration of the ack, disconnect and poll callbacks: this foreign library is not part of this model. Only its effect is modelled, as the `Connection` fields. The handler methods stand for the callbacks it would invoke.
- Transport.Connection.Write: does not model `write`'s return value, which the source ignores, or the library's splitting of data into segments. Space coming back after a peer's acknowledgement is left to the environment.
- `delete c` and `delete client`: memory is owned by the transport, and the model only drops the handle.
- `Serial` logging, the `remoteIP()` formatting and the 5-second timing of the status report in `loop`: console I/O, timing and a library call. Only the count of active clients is modelled (`ActiveClients`).
- The unused `arg`, `len` and `time` parameters of the callbacks.
- Concurrency: callbacks are assumed to run one at a time on one event loop, so each handler is one atomic method.
- A null handle given to the accept, ack or poll handler: the source dereferences it without a check, and the transport never passes one. Those methods take a non-null `Connection`.
- Chargen.Server.HandleNewClient: requires that the accepted connection is not already in the table. The transport hands over a newly accepted connection object, and the source does not check for this.
- No lemma states that the alphabet literal lists code points 32 to 126 in order. Its length, 95, is used throughout.
- The table lemmas hold for a table of any length. The server fixes it at 4 slots, as `MAX_CLIENTS` does.
- The source's C `int` cursor and `size_t` arithmetic: the cursor stays in [0, 95), so no overflow or sign conversion arises. Dafny's unbounded integers model it exactly.
