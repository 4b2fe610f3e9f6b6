/**
  The session over one established WebSocket connection: the read half
  and the write half of the connection, and the subprotocol negotiated
  for it. The read half is the queue of items the transport has yet to
  deliver; the write half is the messages the session itself has written
  with `send` and `close` (control frames the WebSocket library answers on
  its own are not recorded).
  The codec (`export_packet`, `import_packet`) is passed in as functions.
 */
module Stream {
  import opened Wrappers
  import opened Subprotocol

  type byte = x: int | 0 <= x < 0x100

  datatype CloseFrame = CloseFrame(code: nat, reason: string)

  /** A WebSocket message as the transport hands it over. */
  datatype Message =
    | Text(text: string)
    | Binary(data: seq<byte>)
    | Ping(data: seq<byte>)
    | Pong(data: seq<byte>)
    | Close(frame: Option<CloseFrame>)
    | Frame(raw: seq<byte>)

  /** One item of the read half: a message, or the error met reading one. */
  datatype Incoming = Received(message: Message) | ReadFailed(cause: string)

  /** The errors a session operation reports. */
  datatype SessionError =
    | ClosedByPeer            // "Connection closed by peer"
    | ReadError(cause: string) // "Error reading message: ..."
    | StreamEnded             // "Stream ended without receiving a data packet"
    | CodecError(cause: string) // what the codec reported
    | SendAfterClosing        // the write half was closed before

  // ---------------------------------------------------------------------
  // What one receive consumes and returns
  // ---------------------------------------------------------------------

  /** Items that a receive passes over: messages other than close, binary and text. */
  predicate Skipped(item: Incoming)
  {
    item.Received? && !(item.message.Close? || item.message.Binary? || item.message.Text?)
  }

  /** The position of the first item a receive stops at, or the length if there is none. */
  function StopIndex(q: seq<Incoming>): (k: nat)
    ensures k <= |q|
    ensures forall i :: 0 <= i < k ==> Skipped(q[i])
    ensures k < |q| ==> !Skipped(q[k])
  {
    if q == [] || !Skipped(q[0]) then 0 else 1 + StopIndex(q[1..])
  }

  /** What a receive meets: a data message, the peer's close, a read error, or the end. */
  datatype Pulled = Data(message: Message) | PeerClosed | Failed(cause: string) | Exhausted

  /** The outcome of meeting an item that ends a receive. */
  function Classify(item: Incoming): (p: Pulled)
    requires !Skipped(item)
    ensures p.Data? ==> item == Received(p.message) && (p.message.Binary? || p.message.Text?)
    ensures item.Received? && (item.message.Binary? || item.message.Text?) ==> p == Data(item.message)
    ensures !p.Exhausted?
    ensures p.PeerClosed? <==> item.Received? && item.message.Close?
    ensures p.Failed? <==> item.ReadFailed?
  {
    match item
    case ReadFailed(cause) => Failed(cause)
    case Received(message) => if message.Close? then PeerClosed else Data(message)
  }

  /** What a receive on the queue `q` meets first. */
  function Pull(q: seq<Incoming>): (p: Pulled)
    ensures p.Data? ==> p.message.Binary? || p.message.Text?
    ensures p.Exhausted? <==> forall i :: 0 <= i < |q| ==> Skipped(q[i])
  {
    var k := StopIndex(q);
    if k == |q| then Exhausted else Classify(q[k])
  }

  /** The queue a receive leaves behind: everything after the item it stopped at. */
  function Remaining(q: seq<Incoming>): (rest: seq<Incoming>)
    ensures |rest| <= |q| && rest == q[|q| - |rest|..]
    ensures q != [] ==> |rest| < |q|
  {
    var k := StopIndex(q);
    if k == |q| then [] else q[k + 1..]
  }

  /** Receiving after skipped items stops at the first item that is not skipped. */
  lemma PullAfterSkipped(skipped: seq<Incoming>, item: Incoming, rest: seq<Incoming>)
    requires forall i :: 0 <= i < |skipped| ==> Skipped(skipped[i])
    requires !Skipped(item)
    ensures Pull(skipped + [item] + rest) == Classify(item)
    ensures Remaining(skipped + [item] + rest) == rest
  {
    var q := skipped + [item] + rest;
    var k := StopIndex(q);
    assert q[|skipped|] == item;
    assert forall i :: 0 <= i < |skipped| ==> q[i] == skipped[i];
    assert k == |skipped|;
    assert q[k + 1..] == rest;
  }

  /** A queue of only skipped items is drained and the stream is reported ended. */
  lemma PullOnlySkipped(q: seq<Incoming>)
    requires forall i :: 0 <= i < |q| ==> Skipped(q[i])
    ensures Pull(q) == Exhausted && Remaining(q) == []
  {
  }

  /** The result of `recv` once it has met `p`. */
  function Deliver<R>(p: Pulled, subprotocol: BlimpSubprotocol,
                      importPacket: (BlimpSubprotocol, Message) -> Result<R, string>): (r: Result<R, SessionError>)
    ensures r.Ok? ==> p.Data?
  {
    match p
    case Data(message) =>
      (match importPacket(subprotocol, message)
       case Ok(value) => Ok(value)
       case Err(cause) => Err(CodecError(cause)))
    case PeerClosed => Err(ClosedByPeer)
    case Failed(cause) => Err(ReadError(cause))
    case Exhausted => Err(StreamEnded)
  }

  // ---------------------------------------------------------------------
  // Successive receives deliver the data messages in arrival order
  // ---------------------------------------------------------------------

  /**
    The data messages of `q` in arrival order, up to the first close or
    read error: what receiving again and again delivers.
   */
  function DataMessages(q: seq<Incoming>): seq<Message>
  {
    if q == [] then []
    else match q[0]
      case ReadFailed(_) => []
      case Received(message) =>
        if message.Close? then []
        else if message.Binary? || message.Text? then [message] + DataMessages(q[1..])
        else DataMessages(q[1..])
  }

  /**
    Successive receives deliver the data messages that come before the
    first close or read error, in arrival order: a receive that meets data
    takes the first of them and leaves the others, in order, to the next
    one; a receive that meets a close, an error or the end happens only
    when none of them is left. Items after a close or an error are not
    counted here.
   */
  lemma {:induction false} PullInOrder(q: seq<Incoming>)
    ensures Pull(q).Data? ==> DataMessages(q) == [Pull(q).message] + DataMessages(Remaining(q))
    ensures !Pull(q).Data? ==> DataMessages(q) == []
  {
    if q != [] && Skipped(q[0]) {
      var tail := q[1..];
      PullInOrder(tail);
      assert StopIndex(q) == 1 + StopIndex(tail);
      if StopIndex(tail) < |tail| {
        assert q[StopIndex(q)] == tail[StopIndex(tail)];
        assert q[StopIndex(q) + 1..] == tail[StopIndex(tail) + 1..];
      }
    }
  }

  // ---------------------------------------------------------------------
  // The session
  // ---------------------------------------------------------------------

  class StreamPair {
    /** The items the read half has yet to deliver, oldest first. */
    var readStream: seq<Incoming>
    /** The messages written to the write half, oldest first. */
    var writeStream: seq<Message>
    /** Whether the write half still accepts messages. */
    var writeOpen: bool
    /** The subprotocol negotiated for the connection; it never changes. */
    const subprotocol: BlimpSubprotocol

    /** `from_stream`: splits a fresh connection into its two halves. */
    constructor FromStream(incoming: seq<Incoming>, subprotocol: BlimpSubprotocol)
      ensures this.subprotocol == subprotocol
      ensures readStream == incoming && writeStream == [] && writeOpen
    {
      this.subprotocol := subprotocol;
      readStream := incoming;
      writeStream := [];
      writeOpen := true;
    }

    /**
      `send`: encodes the message with the session's subprotocol and
      writes exactly that one message; a codec failure or a closed write
      half writes nothing.
     */
    method Send<S>(message: S, exportPacket: (BlimpSubprotocol, S) -> Result<Message, string>)
      returns (r: Result<(), SessionError>)
      modifies this
      ensures readStream == old(readStream) && writeOpen == old(writeOpen)
      ensures exportPacket(subprotocol, message).Err? ==> r == Err(CodecError(exportPacket(subprotocol, message).error))
      ensures exportPacket(subprotocol, message).Ok? && !old(writeOpen) ==> r == Err(SendAfterClosing)
      ensures r.Ok? <==> exportPacket(subprotocol, message).Ok? && old(writeOpen)
      ensures r.Ok? ==> writeStream == old(writeStream) + [exportPacket(subprotocol, message).value]
      ensures r.Err? ==> writeStream == old(writeStream)
    {
      var packet := exportPacket(subprotocol, message);
      if packet.Err? {
        return Err(CodecError(packet.error));
      }
      if !writeOpen {
        return Err(SendAfterClosing);
      }
      writeStream := writeStream + [packet.value];
      r := Ok(());
    }

    /**
      `recv`: takes items off the read half, passing over all but close,
      binary and text messages, until one ends the receive; a data message
      is decoded by the codec, a close, a read error or the end of the
      stream is an error. Exactly the items up to and including that one
      are consumed.
     */
    method Recv<R>(importPacket: (BlimpSubprotocol, Message) -> Result<R, string>)
      returns (r: Result<R, SessionError>)
      modifies this
      ensures writeStream == old(writeStream) && writeOpen == old(writeOpen)
      ensures readStream == Remaining(old(readStream))
      ensures r == Deliver(Pull(old(readStream)), subprotocol, importPacket)
    {
      ghost var q := readStream;
      ghost var consumed := 0;
      while readStream != []
        invariant 0 <= consumed <= |q| && readStream == q[consumed..]
        invariant forall i :: 0 <= i < consumed ==> Skipped(q[i])
        invariant writeStream == old(writeStream) && writeOpen == old(writeOpen)
        decreases |readStream|
      {
        var item := readStream[0];
        readStream := readStream[1..];
        consumed := consumed + 1;
        if !Skipped(item) {
          assert StopIndex(q) == consumed - 1 by {
            assert q[consumed - 1] == item;
          }
          match item {
            case ReadFailed(cause) =>
              r := Err(ReadError(cause));
            case Received(message) =>
              if message.Close? {
                r := Err(ClosedByPeer);
              } else {
                r := match importPacket(subprotocol, message)
                     case Ok(value) => Ok(value)
                     case Err(cause) => Err(CodecError(cause));
              }
          }
          return;
        }
      }
      r := Err(StreamEnded);
    }

    /** `close`: closes the write half, which writes a close message the first time. */
    method Close()
      modifies this
      ensures readStream == old(readStream) && !writeOpen
      ensures writeStream == if old(writeOpen) then old(writeStream) + [Message.Close(None)] else old(writeStream)
    {
      if writeOpen {
        writeStream := writeStream + [Message.Close(None)];
        writeOpen := false;
      }
    }
  }
}
