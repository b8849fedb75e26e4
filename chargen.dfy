/**
  The flow-controlled line generator and the connection lifecycle of the
  character generator server: a fixed array of client slots, updated in place
  by the accept, ack, poll and disconnect handlers.
 */
module Chargen {
  import opened Pattern
  import opened Transport
  import opened SlotTable

  /**
    The slot a generator call works on, or None when it returns early: the
    handle is null, the connection reports itself disconnected, or no slot
    holds it.
   */
  function GeneratorSlot(s: seq<ClientState>, c: Connection?, disconnected: bool): (r: Option<nat>)
    ensures r.Some? ==> c != null && !disconnected && r.value < |s| && s[r.value].client == c
  {
    if c == null || disconnected then None else FindSlot(s, c)
  }

  /** The cursor step of a generator call: one position, modulo the alphabet length. */
  function Rotate(s: seq<ClientState>, slot: Option<nat>): (r: seq<ClientState>)
    requires slot.Some? ==> slot.value < |s|
    ensures |r| == |s|
    ensures forall j :: 0 <= j < |s| ==> r[j].client == s[j].client
    ensures forall j :: 0 <= j < |s| && slot != Some(j) ==> r[j] == s[j]
    ensures slot.Some? ==> IsCursor(r[slot.value].startIndex)
  {
    match slot
    case None => s
    case Some(i) => s[i := s[i].(startIndex := (s[i].startIndex + 1) % PATTERN_LENGTH_FULL)]
  }

  /** A generator call counts one more line for the slot it works on. */
  ghost function BumpRuns(runs: seq<nat>, slot: Option<nat>): (r: seq<nat>)
    ensures |r| == |runs|
  {
    match slot
    case Some(i) => if i < |runs| then runs[i := runs[i] + 1] else runs
    case None => runs
  }

  /** The bytes a generator call writes: its line, if the transport has room for all of it. */
  function Written(s: seq<ClientState>, slot: Option<nat>, canSend: bool, space: nat): (r: string)
    requires slot.Some? ==> slot.value < |s| && s[slot.value].startIndex >= 0
    ensures |r| == 0 || |r| == BYTES_PER_LINE
    ensures r != [] ==> slot.Some? && canSend && space >= BYTES_PER_LINE
  {
    match slot
    case None => []
    case Some(i) => if canSend && space >= BYTES_PER_LINE then Line(s[i].startIndex) else []
  }

  /** The rule the ack and poll handlers share before they call the generator. */
  predicate TriggerGate(disconnected: bool, space: nat): (open: bool)
    ensures open ==> space >= BYTES_PER_LINE
  {
    !disconnected && space > BYTES_PER_LINE
  }

  /** The generator does nothing exactly for a null handle, a disconnected connection or a lookup miss. */
  lemma GeneratorSkips(s: seq<ClientState>, c: Connection?, disconnected: bool)
    ensures GeneratorSlot(s, c, disconnected).None? <==>
      (c == null || disconnected || forall j :: 0 <= j < |s| ==> s[j].client != c)
    ensures GeneratorSlot(s, c, disconnected).Some? ==>
      GeneratorSlot(s, c, disconnected) == FindSlot(s, c) && s[FindSlot(s, c).value].client == c
  {
  }

  /**
    What a generator call writes is either nothing or exactly one 74-byte line
    starting at the slot's cursor; it writes exactly when it found the slot,
    the transport can send and at least 74 bytes are free.
   */
  lemma WrittenLine(s: seq<ClientState>, slot: Option<nat>, canSend: bool, space: nat)
    requires slot.Some? ==> slot.value < |s| && s[slot.value].startIndex >= 0
    ensures Written(s, slot, canSend, space) != [] <==> slot.Some? && canSend && space >= BYTES_PER_LINE
    ensures Written(s, slot, canSend, space) != [] ==>
      var start := s[slot.value].startIndex;
      && |Written(s, slot, canSend, space)| == BYTES_PER_LINE
      && (forall i :: 0 <= i < LINE_LENGTH ==>
            Written(s, slot, canSend, space)[i] == CHARGEN_PATTERN_FULL[(start + i) % PATTERN_LENGTH_FULL])
      && Written(s, slot, canSend, space)[LINE_LENGTH] == '\r'
      && Written(s, slot, canSend, space)[LINE_LENGTH + 1] == '\n'
  {
    if slot.Some? {
      LineContents(s[slot.value].startIndex);
    }
  }

  /** The cursor step keeps the table invariant: the new cursor is the new run count modulo 95. */
  lemma RotatePreserves(s: seq<ClientState>, runs: seq<nat>, slot: Option<nat>)
    requires TableInvariant(s, runs)
    requires slot.Some? ==> slot.value < |s| && s[slot.value].client != null
    ensures TableInvariant(Rotate(s, slot), BumpRuns(runs, slot))
  {
    if slot.Some? {
      ModAdd(runs[slot.value], 1);
    }
  }

  /**
    The k-th line generated for a connection starts at offset k mod 95: under
    the table invariant, the line a call writes is the one for the slot's run
    count, and when every earlier call wrote, the output grows from the first
    k lines to the first k + 1.
   */
  lemma WrittenIsNextLine(s: seq<ClientState>, runs: seq<nat>, slot: Option<nat>, canSend: bool, space: nat, output: string)
    requires TableInvariant(s, runs)
    requires slot.Some? && slot.value < |s|
    requires canSend && space >= BYTES_PER_LINE
    requires output == Stream(runs[slot.value])
    ensures Written(s, slot, canSend, space) == Line(runs[slot.value] % PATTERN_LENGTH_FULL)
    ensures output + Written(s, slot, canSend, space) == Stream(runs[slot.value] + 1)
  {
  }

  /** A freshly admitted connection is found in the slot it was given, unless it is already disconnected. */
  lemma AdmittedClientFound(s: seq<ClientState>, c: Connection, disconnected: bool)
    requires forall j :: 0 <= j < |s| ==> s[j].client != c
    requires FindSlot(s, null).Some?
    ensures GeneratorSlot(Admit(s, c), c, disconnected) ==
      if disconnected then None else FindSlot(s, null)
  {
    var i := FindSlot(s, null).value;
    if !disconnected {
      FindSlotIsFirst(Admit(s, c), c, i);
    }
  }

  /**
    Admission followed by the unconditional first generator call: the new
    connection's slot ends with cursor 1 (0 if it was already disconnected)
    and the only bytes sent are line 0, when the transport has room for them.
   */
  lemma FirstLineAfterAdmission(s: seq<ClientState>, runs: seq<nat>, c: Connection,
                                disconnected: bool, canSend: bool, space: nat)
    requires forall j :: 0 <= j < |s| ==> s[j].client != c
    requires FindSlot(s, null).Some?
    requires |runs| == |s| && runs[FindSlot(s, null).value] == 0
    ensures var i := FindSlot(s, null).value;
      var g := GeneratorSlot(Admit(s, c), c, disconnected);
      && Rotate(Admit(s, c), g) == s[i := ClientState(c, if disconnected then 0 else 1)]
      && BumpRuns(runs, g) == runs[i := if disconnected then 0 else 1]
      && Written(Admit(s, c), g, canSend, space) ==
           if !disconnected && canSend && space >= BYTES_PER_LINE then Line(0) else []
  {
    var i := FindSlot(s, null).value;
    AdmittedClientFound(s, c, disconnected);
    if disconnected {
      assert runs[i := 0] == runs;
    }
  }

  /**
    The line buffer of one generator call: 72 pattern characters from the
    cursor on, filled one by one, then CR and LF (one spare byte at the end is
    left over for a terminator that is never sent).
   */
  method FillLineBuffer(currentStartIndex: int) returns (lineBuffer: array<char>)
    requires IsCursor(currentStartIndex)
    ensures fresh(lineBuffer) && lineBuffer.Length == LINE_LENGTH + 3
    ensures lineBuffer[..BYTES_PER_LINE] == Line(currentStartIndex)
  {
    lineBuffer := new char[LINE_LENGTH + 3];
    for i := 0 to LINE_LENGTH
      invariant forall j :: 0 <= j < i ==>
        lineBuffer[j] == CHARGEN_PATTERN_FULL[(currentStartIndex + j) % PATTERN_LENGTH_FULL]
    {
      lineBuffer[i] := CHARGEN_PATTERN_FULL[(currentStartIndex + i) % PATTERN_LENGTH_FULL];
    }
    lineBuffer[LINE_LENGTH] := '\r';
    lineBuffer[LINE_LENGTH + 1] := '\n';
    forall k | 0 <= k < BYTES_PER_LINE
      ensures lineBuffer[k] == Line(currentStartIndex)[k]
    {
    }
  }

  class Server {
    /** The slot table: `clients[i].client == null` marks slot i free. */
    const clients: array<ClientState>
    /** For each slot, the lines generated for its occupant since admission. */
    ghost var runs: seq<nat>

    ghost predicate Valid()
      reads this, clients
    {
      clients.Length == MAX_CLIENTS && TableInvariant(clients[..], runs)
    }

    /** At start-up every slot is free with cursor 0. */
    constructor ()
      ensures Valid() && fresh(clients)
      ensures clients[..] == seq(MAX_CLIENTS, _ => FREE_SLOT)
    {
      clients := new ClientState[MAX_CLIENTS](_ => FREE_SLOT);
      runs := seq(MAX_CLIENTS, _ => 0);
    }

    /** Linear lookup: the lowest slot whose client is `client`, or None. */
    method FindClientState(client: Connection?) returns (state: Option<nat>)
      requires Valid()
      ensures state.Some? ==> state.value < clients.Length && clients[state.value].client == client
      ensures state.Some? ==> forall j :: 0 <= j < state.value ==> clients[j].client != client
      ensures state.None? <==> forall j :: 0 <= j < clients.Length ==> clients[j].client != client
    {
      for i := 0 to MAX_CLIENTS
        invariant forall j :: 0 <= j < i ==> clients[j].client != client
      {
        if clients[i].client == client {
          return Some(i);
        }
      }
      return None;
    }

    /**
      Builds the line at the slot's cursor, advances the cursor whether or not
      the line goes out, and writes the 74 bytes only when the transport can
      send and has room for all of them.
     */
    method MakeAndSendLine(client: Connection?)
      requires Valid()
      modifies this, clients, client
      ensures Valid()
      ensures var g := GeneratorSlot(old(clients[..]), client, client != null && old(client.disconnected));
        && clients[..] == Rotate(old(clients[..]), g)
        && runs == BumpRuns(old(runs), g)
        && (client != null ==>
              client.output == old(client.output) + Written(old(clients[..]), g, old(client.sendReady), old(client.space)))
      ensures client != null ==>
        && client.disconnected == old(client.disconnected) && client.sendReady == old(client.sendReady)
        && client.space + |client.output| == old(client.space) + |old(client.output)|
        && client.closed == old(client.closed)
    {
      if client == null || client.Disconnected() {
        return;
      }
      var state := FindClientState(client);
      if state.None? {
        return;
      }
      var slot := state.value;
      ghost var table, counts := clients[..], runs;
      FindSlotIsFirst(table, client, slot);
      assert GeneratorSlot(table, client, false) == state;
      var currentStartIndex := clients[slot].startIndex;
      var lineBuffer := FillLineBuffer(currentStartIndex);

      RotatePreserves(table, counts, state);
      clients[slot] := clients[slot].(startIndex := (currentStartIndex + 1) % PATTERN_LENGTH_FULL);
      runs := runs[slot := runs[slot] + 1];
      assert clients[..] == Rotate(table, state) && runs == BumpRuns(counts, state);

      var bytesToSend := LINE_LENGTH + 2;
      if client.CanSend() && client.Space() >= bytesToSend {
        client.Write(lineBuffer[..bytesToSend]);
      }
    }

    /** Acknowledgement event: generate the next line when the shared gate is open. */
    method HandleClientAck(client: Connection)
      requires Valid()
      modifies this, clients, client
      ensures Valid()
      ensures var g := if TriggerGate(old(client.disconnected), old(client.space))
                       then GeneratorSlot(old(clients[..]), client, old(client.disconnected)) else None;
        && clients[..] == Rotate(old(clients[..]), g)
        && runs == BumpRuns(old(runs), g)
        && client.output == old(client.output) + Written(old(clients[..]), g, old(client.sendReady), old(client.space))
      ensures client.disconnected == old(client.disconnected) && client.sendReady == old(client.sendReady)
      ensures client.space + |client.output| == old(client.space) + |old(client.output)|
      ensures client.closed == old(client.closed)
    {
      if !client.Disconnected() && client.Space() > LINE_LENGTH + 2 {
        MakeAndSendLine(client);
      }
    }

    /** Periodic poll event: the same gate and the same generator call as an acknowledgement. */
    method OnPoll(c: Connection)
      requires Valid()
      modifies this, clients, c
      ensures Valid()
      ensures var g := if TriggerGate(old(c.disconnected), old(c.space))
                       then GeneratorSlot(old(clients[..]), c, old(c.disconnected)) else None;
        && clients[..] == Rotate(old(clients[..]), g)
        && runs == BumpRuns(old(runs), g)
        && c.output == old(c.output) + Written(old(clients[..]), g, old(c.sendReady), old(c.space))
      ensures c.disconnected == old(c.disconnected) && c.sendReady == old(c.sendReady)
      ensures c.space + |c.output| == old(c.space) + |old(c.output)|
      ensures c.closed == old(c.closed)
    {
      if !c.Disconnected() && c.Space() > LINE_LENGTH + 2 {
        MakeAndSendLine(c);
      }
    }

    /** Disconnect event: free the first slot holding `c`; a handle in no slot changes nothing. */
    method HandleClientDisconnect(c: Connection?)
      requires Valid()
      modifies this, clients
      ensures Valid()
      ensures clients[..] == Release(old(clients[..]), c)
      ensures runs == ClearRuns(old(runs), FindSlot(old(clients[..]), c))
    {
      ReleasePreserves(clients[..], runs, c);
      for i := 0 to MAX_CLIENTS
        invariant forall j :: 0 <= j < i ==> clients[j].client != c
        invariant clients[..] == old(clients[..]) && runs == old(runs)
      {
        if clients[i].client == c {
          FindSlotIsFirst(clients[..], c, i);
          clients[i] := FREE_SLOT;
          runs := runs[i := 0];
          break;
        }
      }
    }

    /**
      Accept event: first-fit admission into the lowest free slot with cursor
      0, then the first line at once; with every slot taken the connection is
      closed, nothing is sent and the table is unchanged.
      The result is the slot number the source logs (its local `freeIndex`),
      -1 for a rejection; the source handler itself returns nothing.
     */
    method HandleNewClient(client: Connection) returns (freeIndex: int)
      requires Valid()
      requires forall j :: 0 <= j < clients.Length ==> clients[j].client != client
      modifies this, clients, client
      ensures Valid()
      ensures freeIndex == match FindSlot(old(clients[..]), null) case None => -1 case Some(i) => i
      ensures freeIndex == -1 ==>
        && clients[..] == old(clients[..]) && runs == old(runs)
        && client.closed && client.output == old(client.output)
      ensures freeIndex != -1 ==>
        && clients[..] == old(clients[..])[freeIndex := ClientState(client, if old(client.disconnected) then 0 else 1)]
        && runs == old(runs)[freeIndex := if old(client.disconnected) then 0 else 1]
        && client.closed == old(client.closed)
        && client.output == old(client.output) +
             (if !old(client.disconnected) && old(client.sendReady) && old(client.space) >= BYTES_PER_LINE
              then Line(0) else [])
      ensures client.disconnected == old(client.disconnected) && client.sendReady == old(client.sendReady)
      ensures client.space + |client.output| == old(client.space) + |old(client.output)|
    {
      freeIndex := -1;
      for i := 0 to MAX_CLIENTS
        invariant freeIndex == -1
        invariant forall j :: 0 <= j < i ==> clients[j].client != null
      {
        if clients[i].client == null {
          freeIndex := i;
          break;
        }
      }

      if freeIndex == -1 {
        client.Close();
        return;
      }

      ghost var table := clients[..];
      FindSlotIsFirst(table, null, freeIndex);
      AdmitPreserves(table, runs, client);
      FirstLineAfterAdmission(table, runs, client, client.disconnected, client.sendReady, client.space);
      clients[freeIndex] := ClientState(client, 0);
      assert clients[..] == Admit(table, client);
      MakeAndSendLine(client);
    }

    /** The number of occupied slots, as the status report counts them; never more than the capacity. */
    method ActiveClients() returns (activeClients: nat)
      requires Valid()
      ensures activeClients == Occupied(clients[..])
      ensures activeClients <= MAX_CLIENTS
    {
      activeClients := 0;
      for i := 0 to MAX_CLIENTS
        invariant activeClients == Occupied(clients[..i])
      {
        OccupiedSnoc(clients[..i], clients[i]);
        assert clients[..i + 1] == clients[..i] + [clients[i]];
        if clients[i].client != null {
          activeClients := activeClients + 1;
        }
      }
      assert clients[..MAX_CLIENTS] == clients[..];
    }
  }
}
