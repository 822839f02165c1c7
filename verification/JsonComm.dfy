/** Sending messages with a deferred close (jsoncomm.cpp).

    Unlike FdComm::sendString(), a write that fails while nothing is buffered refuses the message; a
    write that fails later keeps what is buffered.
  */
module JsonComm {
  import opened Sequences

  /** What a write of n bytes comes to: a number of bytes taken, or an error. */
  datatype WriteResult = Taken(bytes: nat) | WriteError

  /** A close of the connection on request: what had been written and accepted by then. */
  datatype Close = Close(written: string, accepted: string)

  datatype Sender = Sender(buffer: string, canSendHandler: bool, closeWhenSent: bool,
                           wire: string, accepted: string, closes: seq<Close>)

  datatype Event =
    | SendRaw(message: string, result: WriteResult)
    | CanSend(connectionOk: bool, result: WriteResult)
    | CloseAfterSend

  /** The system never takes more than it is given, and calls back only where a handler is set. */
  predicate Possible(x: Sender, e: Event) {
    match e
    case SendRaw(message, Taken(n)) => n <= |message|
    case CanSend(_, Taken(n)) => x.canSendHandler && n <= |x.buffer|
    case CanSend(_, WriteError) => x.canSendHandler
    case _ => true
  }

  function Closed(x: Sender): Sender {
    x.(closes := x.closes + [Close(x.wire, x.accepted)])
  }

  function AfterSending(x: Sender): Sender {
    if x.closeWhenSent && x.buffer == "" then Closed(x.(closeWhenSent := false)) else x
  }

  function Next(x: Sender, e: Event): Sender
    requires Possible(x, e)
  {
    match e
    case SendRaw(message, result) =>
      if x.buffer != "" then x.(buffer := x.buffer + message, accepted := x.accepted + message)
      else if result.WriteError? then x
      else x.(buffer := message[result.bytes..], canSendHandler := result.bytes < |message|,
              wire := x.wire + message[..result.bytes], accepted := x.accepted + message)
    case CanSend(connectionOk, result) =>
      if x.buffer == "" || !connectionOk || result.WriteError? then x
      else AfterSending(x.(buffer := x.buffer[result.bytes..], canSendHandler := result.bytes < |x.buffer|,
                           wire := x.wire + x.buffer[..result.bytes]))
    case CloseAfterSend =>
      if x.buffer == "" then Closed(x) else x.(closeWhenSent := true)
  }

  /** Bytes leave in the order they were accepted; whatever is buffered has a handler waiting to send
      it; a close that was asked for is still due only while something is buffered; and no close on
      request has cut anything off. */
  ghost predicate Invariant(x: Sender) {
    && x.wire + x.buffer == x.accepted
    && (x.canSendHandler <==> x.buffer != "")
    && (x.closeWhenSent ==> x.buffer != "")
    && forall i :: 0 <= i < |x.closes| ==> x.closes[i].written == x.closes[i].accepted
  }

  lemma SendRawKeepsInvariant(x: Sender, message: string, result: WriteResult)
    requires Invariant(x) && Possible(x, SendRaw(message, result))
    ensures Invariant(Next(x, SendRaw(message, result)))
  {
    if x.buffer == "" {
      assert x.wire == x.accepted;
      if result.Taken? { MoveFront(x.wire, message, result.bytes); }
    }
  }

  lemma CanSendKeepsInvariant(x: Sender, connectionOk: bool, result: WriteResult)
    requires Invariant(x) && Possible(x, CanSend(connectionOk, result))
    ensures Invariant(Next(x, CanSend(connectionOk, result)))
  {
    if result.Taken? { MoveFront(x.wire, x.buffer, result.bytes); }
  }

  lemma NextKeepsInvariant(x: Sender, e: Event)
    requires Invariant(x) && Possible(x, e)
    ensures Invariant(Next(x, e))
  {
    match e
    case SendRaw(message, result) => SendRawKeepsInvariant(x, message, result);
    case CanSend(connectionOk, result) => CanSendKeepsInvariant(x, connectionOk, result);
    case CloseAfterSend =>
  }

  function Start(): Sender {
    Sender("", false, false, "", "", [])
  }

  ghost predicate PossibleRun(x: Sender, events: seq<Event>)
    decreases |events|
  {
    events == [] || (Possible(x, events[0]) && PossibleRun(Next(x, events[0]), events[1..]))
  }

  function Run(x: Sender, events: seq<Event>): Sender
    requires PossibleRun(x, events)
    decreases |events|
  {
    if events == [] then x else Run(Next(x, events[0]), events[1..])
  }

  /** Main result: under any partial or failing writes and any close requests, the invariant holds:
      nothing accepted is lost, repeated or reordered, and a requested close waits for all of it. */
  lemma {:induction false} EveryRunKeepsInvariant(x: Sender, events: seq<Event>)
    requires Invariant(x) && PossibleRun(x, events)
    ensures Invariant(Run(x, events))
    decreases |events|
  {
    if events != [] {
      NextKeepsInvariant(x, events[0]);
      EveryRunKeepsInvariant(Next(x, events[0]), events[1..]);
    }
  }

  /** What an event accepts and what it brings out: a message is refused only if it could have been written
      at once and the write fails; otherwise as much goes out as the system takes. */
  lemma BytesGoOut(x: Sender, e: Event)
    requires Possible(x, e)
    ensures var refused := e.SendRaw? && x.buffer == "" && e.result.WriteError?;
            Next(x, e).accepted == x.accepted + (if e.SendRaw? && !refused then e.message else "")
    ensures |Next(x, e).wire| - |x.wire| ==
            match e
            case SendRaw(_, Taken(n)) => if x.buffer == "" then n else 0
            case CanSend(connectionOk, Taken(n)) => if connectionOk then n else 0
            case _ => 0
  {
  }

  /** With nothing buffered a close comes at once. */
  lemma NothingBufferedClosesAtOnce(x: Sender)
    requires x.buffer == ""
    ensures Next(x, CloseAfterSend).closes == x.closes + [Close(x.wire, x.accepted)]
  {
  }

  /** What is buffered goes out with the notifications the system gives, and then a requested close comes. */
  lemma {:induction false} BufferDrains(x: Sender, events: seq<Event>)
    requires Invariant(x) && PossibleRun(x, events) && |events| == |x.buffer|
    requires forall i :: 0 <= i < |events| ==>
               events[i].CanSend? && events[i].connectionOk && events[i].result == Taken(1)
    ensures var y := Run(x, events);
            && y.wire == x.accepted && y.buffer == "" && !y.closeWhenSent
            && |y.closes| == |x.closes| + if x.closeWhenSent then 1 else 0
    decreases |events|
  {
    if events == [] {
      assert x.wire + x.buffer == x.wire;
    } else {
      NextKeepsInvariant(x, events[0]);
      BytesGoOut(x, events[0]);
      BufferDrains(Next(x, events[0]), events[1..]);
    }
  }

  /** The close comes with the very write that empties the buffer. */
  lemma CloseFollowsLastByte(x: Sender, e: Event)
    requires Invariant(x) && Possible(x, e) && x.closeWhenSent
    ensures var y := Next(x, e);
            (|y.closes| > |x.closes|) == (y.buffer == "") == !y.closeWhenSent
  {
  }

  class JsonComm {
    var transmitBuffer: string
    var canSendHandler: bool
    var closeWhenSent: bool
    ghost var wire: string
    ghost var accepted: string
    ghost var closes: seq<Close>

    ghost function Abs(): Sender
      reads this
    {
      Sender(transmitBuffer, canSendHandler, closeWhenSent, wire, accepted, closes)
    }

    constructor ()
      ensures Abs() == Start()
    {
      transmitBuffer, canSendHandler, closeWhenSent, wire, accepted, closes := "", false, false, "", "", [];
    }

    method CloseConnection()
      modifies this`closes
      ensures Abs() == Closed(old(Abs()))
    {
      closes := closes + [Close(wire, accepted)];
    }

    method SendRaw(message: string, result: WriteResult) returns (ok: bool)
      requires Possible(Abs(), Event.SendRaw(message, result))
      modifies this
      ensures Abs() == Next(old(Abs()), Event.SendRaw(message, result))
      ensures !ok ==> Abs() == old(Abs())
      ensures ok <==> old(transmitBuffer) != "" || result.Taken?
    {
      if |transmitBuffer| > 0 {
        transmitBuffer, accepted := transmitBuffer + message, accepted + message;
        return true;
      }
      match result
      case WriteError => return false;
      case Taken(sentBytes) =>
        if sentBytes < |message| {
          canSendHandler := true;
        } else {
          canSendHandler := false;
        }
        transmitBuffer := message[sentBytes..];
        wire, accepted := wire + message[..sentBytes], accepted + message;
        return true;
    }

    method CloseAfterSend()
      modifies this`closeWhenSent, this`closes
      ensures Abs() == Next(old(Abs()), Event.CloseAfterSend)
    {
      if |transmitBuffer| == 0 {
        CloseConnection();
      } else {
        closeWhenSent := true;
      }
    }

    method CanSendData(connectionOk: bool, result: WriteResult)
      requires Possible(Abs(), CanSend(connectionOk, result))
      modifies this
      ensures Abs() == Next(old(Abs()), CanSend(connectionOk, result))
    {
      var bytesToSend := |transmitBuffer|;
      if bytesToSend > 0 && connectionOk {
        match result
        case WriteError =>
        case Taken(sentBytes) =>
          wire := wire + transmitBuffer[..sentBytes];
          if sentBytes == bytesToSend {
            transmitBuffer := "";
            canSendHandler := false;
          } else {
            transmitBuffer := transmitBuffer[sentBytes..];
          }
          if closeWhenSent && |transmitBuffer| == 0 {
            closeWhenSent := false;
            CloseConnection();
          }
      }
    }
  }
}
