/** Buffered communication over a file descriptor (fdcomm.cpp): reassembling delimited strings from
    arbitrary chunks, and sending strings through partial writes.

    The receive handler is the last thing called when it is called, so a handler that takes the
    delimited string at once is a Take event that follows.
  */
module FdComm {
  import opened Options
  import opened Sequences

  // ----- Receiving

  /** The position of the first occurrence of c. */
  function Find(s: string, c: char): (p: Option<nat>)
    ensures p.None? ==> c !in s
    ensures p.Some? ==> p.value < |s| && s[p.value] == c && c !in s[..p.value]
  {
    if s == "" then None
    else if s[0] == c then Some(0)
    else
      match Find(s[1..], c)
      case None => assert s == [s[0]] + s[1..]; None
      case Some(p) => assert s[..p + 1] == [s[0]] + s[1..][..p]; Some(p + 1)
  }

  /** A line without its end; a CR before the LF belongs to the end. */
  function Trim(line: string, delimiter: char): string {
    if delimiter == '\n' && line != "" && line[|line| - 1] == '\r' then line[..|line| - 1] else line
  }

  /** The complete lines of a stream. */
  function Lines(stream: string, delimiter: char): seq<string>
    decreases |stream|
  {
    match Find(stream, delimiter)
    case None => []
    case Some(p) => [Trim(stream[..p], delimiter)] + Lines(stream[p + 1..], delimiter)
  }

  datatype Receiver = Receiver(delimiter: char, buffer: string, delimiterPos: Option<nat>,
                               checksScheduled: nat,       // deferred calls of checkReceiveData()
                               notified: nat,              // calls of the receive handler
                               delivered: seq<string>, consumed: string, received: string)

  datatype RxEvent = Arrive(chunk: string) | DeferredCheck | Take

  predicate RxPossible(r: Receiver, e: RxEvent) {
    e.DeferredCheck? ==> r.checksScheduled > 0
  }

  function Checked(r: Receiver): Receiver {
    if r.delimiterPos == None && Find(r.buffer, r.delimiter).Some?
    then r.(delimiterPos := Find(r.buffer, r.delimiter), notified := r.notified + 1)
    else r
  }

  function RxNext(r: Receiver, e: RxEvent): Receiver {
    match e
    case Arrive(chunk) => Checked(r.(buffer := r.buffer + chunk, received := r.received + chunk))
    case DeferredCheck => Checked(r.(checksScheduled := if r.checksScheduled > 0 then r.checksScheduled - 1 else 0))
    case Take =>
      if r.delimiterPos == None || r.delimiterPos.value >= |r.buffer| then r
      else
        var p := r.delimiterPos.value;
        r.(delimiterPos := None, buffer := r.buffer[p + 1..], checksScheduled := r.checksScheduled + 1,
           delivered := r.delivered + [Trim(r.buffer[..p], r.delimiter)], consumed := r.consumed + r.buffer[..p + 1])
  }

  /** Every line is either still to be found by a scheduled check, or announced, or delivered. */
  ghost predicate RxInvariant(r: Receiver) {
    && r.consumed + r.buffer == r.received
    && (r.consumed == "" || r.consumed[|r.consumed| - 1] == r.delimiter)
    && r.delivered == Lines(r.consumed, r.delimiter)
    && (r.delimiterPos.Some? ==> r.delimiterPos == Find(r.buffer, r.delimiter))
    && (r.delimiterPos.None? && r.checksScheduled == 0 ==> r.delimiter !in r.buffer)
    && r.notified == |r.delivered| + (if r.delimiterPos.Some? then 1 else 0)
  }

  lemma {:induction false} FindIs(s: string, p: nat, c: char)
    requires p < |s| && s[p] == c && c !in s[..p]
    ensures Find(s, c) == Some(p)
  {
    if p > 0 {
      assert s[0] in s[..p];
      assert s[1..][..p - 1] == s[1..p];
      assert forall i :: 1 <= i < p ==> s[i] in s[..p];
      FindIs(s[1..], p - 1, c);
    }
  }

  lemma FindInFront(s: string, t: string, c: char)
    requires c in s
    ensures Find(s + t, c) == Find(s, c)
  {
    var p := Find(s, c).value;
    assert (s + t)[..p] == s[..p];
    FindIs(s + t, p, c);
  }

  /** Splitting a stream at the end of a line splits its lines. */
  lemma {:induction false} LinesConcat(a: string, b: string, d: char)
    requires a == "" || a[|a| - 1] == d
    ensures Lines(a + b, d) == Lines(a, d) + Lines(b, d)
    decreases |a|
  {
    if a == "" {
      assert a + b == b;
    } else {
      FindInFront(a, b, d);
      var p := Find(a, d).value;
      var text, rest := a[..p], a[p + 1..];
      assert (a + b)[..p] == text && (a + b)[p + 1..] == rest + b;
      LinesConcat(rest, b, d);
      FirstLine(a + b, d, text, rest + b);
      FirstLine(a, d, text, rest);
      Associate([Trim(text, d)], Lines(rest, d), Lines(rest + b, d), Lines(b, d));
    }
  }

  lemma FirstLine(s: string, d: char, text: string, rest: string)
    requires Find(s, d) == Some(|text|) && s[..|text|] == text && s[|text| + 1..] == rest
    ensures Lines(s, d) == [Trim(text, d)] + Lines(rest, d)
  {
  }

  /** Main result on a single line: its text is what precedes the delimiter, without a CR if the delimiter is
      LF; with LinesConcat this fixes the lines of every stream. */
  lemma LineIs(text: string, d: char)
    requires d !in text
    ensures d != '\n' ==> Lines(text + [d], d) == [text]
    ensures d == '\n' && (text == "" || text[|text| - 1] != '\r') ==> Lines(text + [d], d) == [text]
    ensures d == '\n' ==> Lines(text + ['\r', d], d) == [text]
    ensures Lines(text, d) == []
  {
    OneLine(text + [d], d);
    assert (text + [d])[..|text|] == text;
    if d == '\n' {
      var line := text + ['\r', d];
      assert line[..|line| - 1] == text + ['\r'];
      OneLine(line, d);
    }
  }

  lemma OneLine(line: string, d: char)
    requires line != "" && line[|line| - 1] == d && d !in line[..|line| - 1]
    ensures Lines(line, d) == [Trim(line[..|line| - 1], d)]
  {
    var n := |line| - 1;
    FindIs(line, n, d);
    assert line[n + 1..] == "";
  }

  lemma CheckKeepsInvariant(r: Receiver)
    requires r.consumed + r.buffer == r.received && (r.consumed == "" || r.consumed[|r.consumed| - 1] == r.delimiter)
    requires r.delivered == Lines(r.consumed, r.delimiter)
    requires r.delimiterPos.Some? ==> r.delimiterPos == Find(r.buffer, r.delimiter)
    requires r.notified == |r.delivered| + (if r.delimiterPos.Some? then 1 else 0)
    ensures RxInvariant(Checked(r))
  {
  }

  lemma ArriveKeepsInvariant(r: Receiver, chunk: string)
    requires RxInvariant(r)
    ensures RxInvariant(RxNext(r, Arrive(chunk)))
  {
    var q := r.(buffer := r.buffer + chunk, received := r.received + chunk);
    if r.delimiterPos.Some? { FindInFront(r.buffer, chunk, r.delimiter); }
    assert q.consumed + q.buffer == q.received;
    CheckKeepsInvariant(q);
  }

  lemma TakeKeepsInvariant(r: Receiver)
    requires RxInvariant(r) && r.delimiterPos.Some?
    ensures RxInvariant(RxNext(r, Take))
  {
    var p := r.delimiterPos.value;
    var line := r.buffer[..p + 1];
    assert line[..p] == r.buffer[..p];
    OneLine(line, r.delimiter);
    LinesConcat(r.consumed, line, r.delimiter);
    MoveFront(r.consumed, r.buffer, p + 1);
  }

  lemma DeferredCheckKeepsInvariant(r: Receiver)
    requires RxInvariant(r) && r.checksScheduled > 0
    ensures RxInvariant(RxNext(r, DeferredCheck))
  {
    CheckKeepsInvariant(r.(checksScheduled := r.checksScheduled - 1));
  }

  lemma RxKeepsInvariant(r: Receiver, e: RxEvent)
    requires RxInvariant(r) && RxPossible(r, e)
    ensures RxInvariant(RxNext(r, e))
  {
    match e
    case Arrive(chunk) => ArriveKeepsInvariant(r, chunk);
    case DeferredCheck => DeferredCheckKeepsInvariant(r);
    case Take => if r.delimiterPos.Some? { TakeKeepsInvariant(r); }
  }

  ghost predicate RxPossibleRun(r: Receiver, events: seq<RxEvent>)
    decreases |events|
  {
    events == [] || (RxPossible(r, events[0]) && RxPossibleRun(RxNext(r, events[0]), events[1..]))
  }

  function RxRun(r: Receiver, events: seq<RxEvent>): Receiver
    decreases |events|
  {
    if events == [] then r else RxRun(RxNext(r, events[0]), events[1..])
  }

  function RxStart(delimiter: char): Receiver {
    Receiver(delimiter, "", None, 0, 0, [], "", "")
  }

  /** Main result: after any sequence of chunks, deferred checks and takes, the delivered strings are
      the first lines of the received stream, and all of them once nothing is announced or scheduled. */
  lemma {:induction false} DeliveredAreTheLines(r: Receiver, events: seq<RxEvent>)
    requires RxInvariant(r) && RxPossibleRun(r, events)
    ensures var q := RxRun(r, events);
            && RxInvariant(q) && q.delimiter == r.delimiter
            && q.delivered <= Lines(q.received, q.delimiter)
            && (q.delimiterPos == None && q.checksScheduled == 0 ==> q.delivered == Lines(q.received, q.delimiter))
    decreases |events|
  {
    if events == [] {
      LinesConcat(r.consumed, r.buffer, r.delimiter);
    } else {
      RxKeepsInvariant(r, events[0]);
      DeliveredAreTheLines(RxNext(r, events[0]), events[1..]);
    }
  }

  /** Chunking and timing are invisible: two runs over the same stream deliver the same strings, one
      of them perhaps further ahead. */
  lemma ChunkingIsIrrelevant(delimiter: char, events: seq<RxEvent>, others: seq<RxEvent>)
    requires RxPossibleRun(RxStart(delimiter), events) && RxPossibleRun(RxStart(delimiter), others)
    requires RxRun(RxStart(delimiter), events).received == RxRun(RxStart(delimiter), others).received
    ensures var a, b := RxRun(RxStart(delimiter), events).delivered, RxRun(RxStart(delimiter), others).delivered;
            a <= b || b <= a
  {
    DeliveredAreTheLines(RxStart(delimiter), events);
    DeliveredAreTheLines(RxStart(delimiter), others);
  }

  // ----- Sending

  datatype Sender = Sender(open: bool, hasHandler: bool, pollOut: bool, buffer: string, wire: string, accepted: string)

  /** `taken` is the number of bytes the system accepts; 0 also stands for a failing write. */
  datatype TxEvent =
    | Send(s: string, taken: nat)
    | PollOut(taken: nat)
    | SetTransmitHandler(handler: bool)
    | SetFd(open: bool)

  predicate TxPossible(x: Sender, e: TxEvent) {
    e.PollOut? ==> x.open && x.pollOut
  }

  function TransmitBytes(x: Sender, taken: nat): nat {
    if !x.open then 0 else if taken < |x.buffer| then taken else |x.buffer|
  }

  function Flushed(x: Sender, taken: nat): Sender {
    if x.buffer == "" then (if x.hasHandler then x else x.(pollOut := false))
    else
      var n := TransmitBytes(x, taken);
      x.(buffer := x.buffer[n..], wire := x.wire + x.buffer[..n])
  }

  function TxNext(x: Sender, e: TxEvent): Sender {
    match e
    case Send(s, taken) =>
      var a := x.(accepted := x.accepted + s);
      if x.buffer == "" then
        Flushed(a.(pollOut := x.pollOut || (x.open && !x.hasHandler), buffer := s), taken)
      else
        a.(buffer := x.buffer + s)
    case PollOut(taken) => Flushed(x, taken)
    case SetTransmitHandler(handler) =>
      if handler == x.hasHandler then x else x.(hasHandler := handler, pollOut := if x.open then handler else x.pollOut)
    case SetFd(open) => x.(open := open, pollOut := open && x.hasHandler)
  }

  /** What went out followed by what is buffered is everything accepted, in order. */
  ghost predicate NothingLost(x: Sender) {
    x.wire + x.buffer == x.accepted
  }

  /** Buffered data will be sent when the connection takes it. */
  ghost predicate Armed(x: Sender) {
    && (x.open && x.buffer != "" ==> x.pollOut)
    && (x.open && x.hasHandler ==> x.pollOut)
  }

  /** The two ways to lose the notification that is needed to send the rest. */
  predicate Disarms(x: Sender, e: TxEvent) {
    x.buffer != "" && match e
      case SetTransmitHandler(handler) => x.open && x.hasHandler && !handler
      case SetFd(open) => open && !x.hasHandler
      case _ => false
  }

  lemma FlushKeepsOrder(x: Sender, taken: nat)
    requires NothingLost(x)
    ensures NothingLost(Flushed(x, taken))
  {
    MoveFront(x.wire, x.buffer, TransmitBytes(x, taken));
  }

  lemma TxKeepsOrder(x: Sender, e: TxEvent)
    requires NothingLost(x)
    ensures NothingLost(TxNext(x, e))
  {
    match e
    case Send(s, taken) =>
      var pollOut := x.pollOut || (x.open && !x.hasHandler);
      var a := x.(pollOut := pollOut, buffer := x.buffer + s, accepted := x.accepted + s);
      assert NothingLost(a);
      if x.buffer == "" {
        assert x.buffer + s == s;
        FlushKeepsOrder(a, taken);
      }
    case PollOut(taken) => FlushKeepsOrder(x, taken);
    case SetTransmitHandler(_) =>
    case SetFd(_) =>
  }

  /** What an event accepts and what it brings out: a string is accepted whole, and as much of what is
      waiting goes out as the system takes, unless other data is waiting. */
  lemma BytesGoOut(x: Sender, e: TxEvent)
    ensures TxNext(x, e).accepted == x.accepted + (if e.Send? then e.s else "")
    ensures |TxNext(x, e).wire| - |x.wire| ==
            match e
            case Send(s, taken) => if !x.open || x.buffer != "" then 0 else if taken < |s| then taken else |s|
            case PollOut(taken) => if !x.open then 0 else if taken < |x.buffer| then taken else |x.buffer|
            case _ => 0
  {
  }

  /** With nothing to send and nobody to ask for more, the notification is switched off. */
  lemma NothingToSendIsQuiet(x: Sender, taken: nat)
    requires x.buffer == "" && !x.hasHandler
    ensures !TxNext(x, PollOut(taken)).pollOut
  {
  }

  /** Buffered data stays armed by every event except exactly these two. */
  lemma StaysArmedIff(x: Sender, e: TxEvent)
    requires Armed(x) && TxPossible(x, e)
    ensures Armed(TxNext(x, e)) <==> !Disarms(x, e)
  {
  }

  const MESSAGE := "ab"

  /** A run that loses the notification: opened, a handler installed, one of two bytes taken, the handler
      cleared. */
  lemma ClearedHandlerStrandsData() returns (x: Sender)
    ensures x == TxRun(Sender(false, false, false, "", "", ""),
                       [SetFd(true), SetTransmitHandler(true), Send(MESSAGE, 1), SetTransmitHandler(false)])
    ensures Stranded(x) && x.buffer == MESSAGE[1..]
  {
    var start := Sender(false, false, false, "", "", "");
    var ready := TxNext(start, SetFd(true));
    var watched := TxNext(ready, SetTransmitHandler(true));
    var sent := TxNext(watched, Send(MESSAGE, 1));
    x := TxNext(sent, SetTransmitHandler(false));
    var events := [SetFd(true), SetTransmitHandler(true), Send(MESSAGE, 1), SetTransmitHandler(false)];
    assert events[1..][1..][1..][1..] == [];
    assert TxRun(sent, events[1..][1..][1..]) == x;
    assert TxRun(watched, events[1..][1..]) == x;
    assert TxRun(ready, events[1..]) == x;
  }

  /** Data is buffered, but nothing is going to report that it can be sent. */
  predicate Stranded(x: Sender) {
    x.open && x.buffer != "" && !x.pollOut
  }

  /** Sending more and waiting do not help: nothing reaches the wire any more. */
  lemma {:induction false} StrandedDataStays(x: Sender, events: seq<TxEvent>)
    requires Stranded(x) && TxPossibleRun(x, events)
    requires forall i :: 0 <= i < |events| ==> events[i].Send? || events[i].PollOut?
    ensures Stranded(TxRun(x, events)) && TxRun(x, events).wire == x.wire
    decreases |events|
  {
    if events != [] {
      StrandedDataStays(TxNext(x, events[0]), events[1..]);
    }
  }

  ghost predicate TxPossibleRun(x: Sender, events: seq<TxEvent>)
    decreases |events|
  {
    events == [] || (TxPossible(x, events[0]) && TxPossibleRun(TxNext(x, events[0]), events[1..]))
  }

  function TxRun(x: Sender, events: seq<TxEvent>): Sender
    decreases |events|
  {
    if events == [] then x else TxRun(TxNext(x, events[0]), events[1..])
  }

  /** Main result: under any partial and failing writes, nothing is lost, repeated or reordered. */
  lemma {:induction false} SendingKeepsOrder(x: Sender, events: seq<TxEvent>)
    requires NothingLost(x)
    ensures NothingLost(TxRun(x, events))
    decreases |events|
  {
    if events != [] {
      TxKeepsOrder(x, events[0]);
      SendingKeepsOrder(TxNext(x, events[0]), events[1..]);
    }
  }

  /** Once armed, the buffer drains with the notifications the system gives, as long as each write
      takes something. */
  lemma {:induction false} BufferDrains(x: Sender, events: seq<TxEvent>)
    requires NothingLost(x) && Armed(x) && x.open && |events| >= |x.buffer|
    requires forall i :: 0 <= i < |events| ==> events[i].PollOut? && events[i].taken > 0
    requires TxPossibleRun(x, events)
    ensures TxRun(x, events).wire == TxRun(x, events).accepted == x.accepted
    decreases |events|
  {
    SendingKeepsOrder(x, events);
    if events == [] {
      assert x.wire + x.buffer == x.wire;
    } else {
      TxKeepsOrder(x, events[0]);
      StaysArmedIff(x, events[0]);
      BufferDrains(TxNext(x, events[0]), events[1..]);
    }
  }

  /** What the system reports about a descriptor.  Readable without data means that the other end has
      closed, and is all that is handled then. */
  datatype Poll = Poll(readable: bool, writable: bool, hangUp: bool, error: bool)

  // ----- The class

  class FdComm {
    var open: bool
    var hasTransmitHandler: bool
    var pollOut: bool
    var delimiter: char
    var receiveBuffer: string
    var transmitBuffer: string
    var delimiterPos: Option<nat>
    var checksScheduled: nat
    ghost var notified: nat
    ghost var delivered: seq<string>
    ghost var consumed: string
    ghost var received: string
    ghost var wire: string
    ghost var accepted: string

    ghost function Rx(): Receiver
      reads this
    {
      Receiver(delimiter, receiveBuffer, delimiterPos, checksScheduled, notified, delivered, consumed, received)
    }

    ghost function Tx(): Sender
      reads this
    {
      Sender(open, hasTransmitHandler, pollOut, transmitBuffer, wire, accepted)
    }

    constructor (delimiter: char)
      ensures Rx() == RxStart(delimiter) && Tx() == Sender(false, false, false, "", "", "")
    {
      open, hasTransmitHandler, pollOut := false, false, false;
      this.delimiter, receiveBuffer, delimiterPos, checksScheduled := delimiter, "", None, 0;
      notified, delivered, consumed, received := 0, [], "", "";
      transmitBuffer, wire, accepted := "", "", "";
    }

    /** Reports that a delimited string is ready; returns whether the handler is to be called. */
    method CheckReceiveData() returns (call: bool)
      modifies this`delimiterPos, this`notified
      ensures Rx() == Checked(old(Rx()))
      ensures call == (notified > old(notified))
    {
      call := false;
      if delimiterPos == None {
        delimiterPos := Find(receiveBuffer, delimiter);
        if delimiterPos != None {
          notified := notified + 1;
          call := true;
        }
      }
    }

    /** Handles what the system reports, with `chunk` ready to be read and room for `taken` bytes.  Data
        is received even if the other end has closed; sending takes place only if it has not.  Returns
        which handlers are to be called: for received data, for sending more, for an exception. */
    method DataMonitorHandler(poll: Poll, chunk: string, taken: nat)
      returns (call: bool, transmit: bool, exceptions: nat)
      modifies this`receiveBuffer, this`delimiterPos, this`notified, this`received
      modifies this`transmitBuffer, this`pollOut, this`wire
      ensures Rx() == if poll.readable && chunk != "" then RxNext(old(Rx()), Arrive(chunk)) else old(Rx())
      ensures call == (notified > old(notified))
      ensures var sends := poll.writable && !poll.hangUp && (poll.readable ==> chunk != "");
              && Tx() == (if sends then TxNext(old(Tx()), PollOut(taken)) else old(Tx()))
              && (transmit <==> sends && hasTransmitHandler && old(transmitBuffer) == "")
      // an exception is handled only once
      ensures var bad := (poll.readable && chunk == "") || poll.hangUp || (poll.error && !poll.writable);
              exceptions == if bad then 1 else 0
    {
      call, transmit, exceptions := false, false, 0;
      var flags := poll;
      if flags.readable {
        if |chunk| > 0 {
          receiveBuffer, received := receiveBuffer + chunk, received + chunk;
          call := CheckReceiveData();
        } else {
          exceptions := exceptions + 1;
          flags := Poll(false, false, false, false);
        }
      }
      if flags.hangUp {
        exceptions := exceptions + 1;
      } else if flags.writable {
        var busy := SendBufferedData(taken);
        transmit := !busy && hasTransmitHandler;
      } else if flags.error {
        exceptions := exceptions + 1;
      }
    }

    method RunDeferredCheck() returns (call: bool)
      requires checksScheduled > 0
      modifies this`checksScheduled, this`delimiterPos, this`notified
      ensures Rx() == RxNext(old(Rx()), DeferredCheck)
    {
      checksScheduled := checksScheduled - 1;
      call := CheckReceiveData();
    }

    method ReceiveDelimitedString() returns (ok: bool, s: string)
      requires delimiterPos.Some? ==> delimiterPos.value < |receiveBuffer|
      modifies this`receiveBuffer, this`delimiterPos, this`checksScheduled, this`delivered, this`consumed
      ensures Rx() == RxNext(old(Rx()), Take)
      ensures delivered == old(delivered) + (if ok then [s] else [])
    {
      if delimiterPos == None { return false, ""; }
      var pos := delimiterPos.value;
      var eraseSz := pos + 1;
      if delimiter == '\n' && pos > 0 && receiveBuffer[pos - 1] == '\r' {
        pos := pos - 1;
      }
      s := receiveBuffer[..pos];
      assert s == Trim(receiveBuffer[..eraseSz - 1], delimiter);
      delivered, consumed := delivered + [s], consumed + receiveBuffer[..eraseSz];
      receiveBuffer := receiveBuffer[eraseSz..];
      delimiterPos := None;
      checksScheduled := checksScheduled + 1;
      ok := true;
    }

    method SendBufferedData(taken: nat) returns (busy: bool)
      modifies this`transmitBuffer, this`pollOut, this`wire
      ensures Tx() == Flushed(old(Tx()), taken)
      ensures busy == (old(transmitBuffer) != "")
    {
      var toSend := |transmitBuffer|;
      if toSend == 0 {
        if !hasTransmitHandler { pollOut := false; }
        return false;
      }
      var sent := if !open then 0 else if taken < toSend then taken else toSend;
      wire := wire + transmitBuffer[..sent];
      if sent < toSend {
        transmitBuffer := transmitBuffer[sent..];
      } else {
        transmitBuffer := "";
      }
      return true;
    }

    method SendString(s: string, taken: nat)
      modifies this`transmitBuffer, this`pollOut, this`wire, this`accepted
      ensures Tx() == TxNext(old(Tx()), Send(s, taken))
    {
      accepted := accepted + s;
      if transmitBuffer == "" {
        if !hasTransmitHandler && open { pollOut := true; }
        transmitBuffer := s;
        var _ := SendBufferedData(taken);
      } else {
        transmitBuffer := transmitBuffer + s;
      }
    }

    method SetTransmitHandler(handler: bool)
      modifies this`hasTransmitHandler, this`pollOut
      ensures Tx() == TxNext(old(Tx()), TxEvent.SetTransmitHandler(handler))
    {
      if hasTransmitHandler != handler {
        hasTransmitHandler := handler;
        if open { pollOut := handler; }
      }
    }

    method SetFd(connected: bool)
      modifies this`open, this`pollOut
      ensures Tx() == TxNext(old(Tx()), TxEvent.SetFd(connected))
    {
      open, pollOut := connected, connected && hasTransmitHandler;
    }
  }
}
