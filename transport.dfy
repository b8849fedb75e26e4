/**
  The part of the asynchronous TCP library that the server core uses, reduced
  to abstract state. A connection is an object; the null reference plays the
  part of the library's NULL client pointer. The flags and the free send space
  are set by the environment; the core only reads them, appends to the output
  (which uses up send space) and closes the connection.
 */
module Transport {

  class Connection {
    /** What `disconnected()` reports. */
    var disconnected: bool
    /** What `canSend()` reports. */
    var sendReady: bool
    /** What `space()` reports: free bytes in the send buffer. */
    var space: nat
    /** Set once `close()` has been called. */
    var closed: bool
    /** Every byte handed to `write`, in order. */
    var output: seq<char>

    /** A freshly accepted connection, with nothing written yet. */
    constructor (disconnected: bool, sendReady: bool, space: nat)
      ensures this.disconnected == disconnected && this.sendReady == sendReady && this.space == space
      ensures !closed && output == []
    {
      this.disconnected := disconnected;
      this.sendReady := sendReady;
      this.space := space;
      closed := false;
      output := [];
    }

    predicate Disconnected()
      reads this
    {
      disconnected
    }

    predicate CanSend()
      reads this
    {
      sendReady
    }

    function Space(): nat
      reads this
    {
      space
    }

    /** Hands `data` to the transport, which queues it in the send buffer. */
    method Write(data: seq<char>)
      requires |data| <= space
      modifies this
      ensures output == old(output) + data
      ensures space == old(space) - |data|
      ensures disconnected == old(disconnected) && sendReady == old(sendReady) && closed == old(closed)
    {
      output := output + data;
      space := space - |data|;
    }

    /** Closes the connection; nothing is written. */
    method Close()
      modifies this
      ensures closed
      ensures output == old(output)
      ensures disconnected == old(disconnected) && sendReady == old(sendReady) && space == old(space)
    {
      closed := true;
    }
  }
}
