/**
  Call sequences on the server, checked against the contracts alone: lines and rotation on one
  connection, four slots filling up with a fifth connection turned away, a
  slot freed twice and reused, and the two consequences of the gating rules
  on the wire.
 */
module Scenario {
  import opened Pattern
  import opened Transport
  import opened SlotTable
  import opened Chargen

  /** The first connection gets slot 0 and its first line at once; an ack sends the next one. */
  method FirstLines() {
    var server := new Server();
    var x := new Connection(false, true, 1024);
    var slot := server.HandleNewClient(x);
    assert slot == 0 && x.output == Line(0);
    server.HandleClientAck(x);
    assert x.output == Line(0) + Line(1) == Stream(2);
  }

  /** A second connection takes slot 1 and starts its own rotation at offset 0. */
  method SecondConnection() {
    var server := new Server();
    var x := new Connection(false, true, 1024);
    var slot := server.HandleNewClient(x);
    var y := new Connection(false, true, 1024);
    FindSlotIsFirst(server.clients[..], null, 1);
    slot := server.HandleNewClient(y);
    assert slot == 1 && y.output == Line(0);
    assert server.clients[0] == ClientState(x, 1) && server.clients[1] == ClientState(y, 1);
  }

  /** On a full table a new connection is closed without a byte sent and the table stays as it was. */
  method FullTable(server: Server)
    requires server.Valid()
    requires forall j :: 0 <= j < server.clients.Length ==> server.clients[j].client != null
    modifies server, server.clients
  {
    var table := server.clients[..];
    var e := new Connection(false, true, 1024);
    var slot := server.HandleNewClient(e);
    assert slot == -1 && e.closed && e.output == [];
    assert server.clients[..] == table;
  }

  /**
    On a full table, disconnecting the occupant of slot 2 twice frees that slot
    once, and the next connection lands there with cursor 0, whatever the old
    occupant's cursor was.
   */
  method Reuse(server: Server, b: Connection)
    requires server.Valid()
    requires forall j :: 0 <= j < server.clients.Length ==> server.clients[j].client != null
    requires server.clients[2].client == b
    modifies server, server.clients
  {
    FindSlotIsFirst(server.clients[..], b, 2);
    server.HandleClientDisconnect(b);
    assert server.clients[2] == FREE_SLOT;
    var table := server.clients[..];
    server.HandleClientDisconnect(b);
    assert server.clients[..] == table;

    var c := new Connection(false, true, 1024);
    FindSlotIsFirst(server.clients[..], null, 2);
    var slot := server.HandleNewClient(c);
    assert slot == 2 && server.clients[2] == ClientState(c, 1) && c.output == Line(0);
  }

  /**
    A transport that cannot send yet: the first line is built, skipped, and the
    cursor moves on, so the first line the peer ever receives starts at offset 1.
   */
  method SkippedFirstLine() {
    var server := new Server();
    var u := new Connection(false, false, 1024);
    var slot := server.HandleNewClient(u);
    assert slot == 0 && u.output == [] && server.clients[0] == ClientState(u, 1);
    u.sendReady := true;
    server.OnPoll(u);
    assert u.output == Line(1);
  }

  /**
    With exactly 74 bytes free the ack gate stays shut, although the
    generator's own check would pass: the first line, sent at admission with
    exactly 74 bytes free, fills the buffer; the peer's acknowledgement frees
    those 74 bytes, and the ack handler sends nothing.
   */
  method StrictGate() {
    var server := new Server();
    var y := new Connection(false, true, BYTES_PER_LINE);
    var slot := server.HandleNewClient(y);
    assert y.output == Line(0);
    y.space := BYTES_PER_LINE;  // the peer acknowledges line 0: its 74 bytes are free again
    server.HandleClientAck(y);
    assert y.output == Line(0) && y.space == BYTES_PER_LINE;
  }
}
