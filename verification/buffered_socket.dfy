/** The contract of `BufferedSocket` and `BufferedSocketHandler` as its
    header states it: the result codes, the handler's default answers, the
    order of the end-of-stream callbacks, and the object's lifecycle as an
    immutable state with one transition per public method.

    The debug assertions of the header become `Err` results.  The event loop
    is abstracted to flags saying which events are scheduled. */
module BufferedSocket {
  import opened Wrappers
  import opened Words

  // ---------------------------------------------------------------- results

  /** What the handler's `OnBufferedData()` returns. */
  datatype BufferedResult = DataOk | DataMore | DataAgainOptional | DataAgainExpect | DataBlocking | DataClosed

  /** What the handler's `OnBufferedDirect()` returns. */
  datatype DirectResult = DirectOk | DirectBlocking | DirectEmpty | DirectEnd | DirectClosed | DirectErrno

  /** The special return values of `Write()` and `WriteFrom()`. */
  datatype WriteResult = WriteSourceEof | WriteErrno | WriteBlocking | WriteDestroyed | WriteBroken

  function WriteResultCode(w: WriteResult): int
  {
    match w
    case WriteSourceEof => 0
    case WriteErrno => -1
    case WriteBlocking => -2
    case WriteDestroyed => -3
    case WriteBroken => -4
  }

  /** Every code is zero or negative, and no two share a value. */
  lemma WriteResultCodes()
    ensures forall w: WriteResult :: WriteResultCode(w) <= 0
    ensures forall v: WriteResult, w: WriteResult :: v != w ==> WriteResultCode(v) != WriteResultCode(w)
  {
  }

  /** How a caller reads the `ssize_t` of `Write()` / `WriteFrom()`: positive
      is a byte count, anything else one of the special codes.  0 means end
      of the source only for `WriteFrom()`, which has a source. */
  datatype WriteOutcome = Written(count: nat) | Special(code: WriteResult) | Invalid

  function ClassifyWrite(n: int, hasSource: bool): (r: WriteOutcome)
    ensures r.Written? <==> n > 0
    ensures r.Written? ==> r.count == n
  {
    if n > 0 then Written(n)
    else if n == 0 then (if hasSource then Special(WriteSourceEof) else Invalid)
    else if n == -1 then Special(WriteErrno)
    else if n == -2 then Special(WriteBlocking)
    else if n == -3 then Special(WriteDestroyed)
    else if n == -4 then Special(WriteBroken)
    else Invalid
  }

  /** Each outcome a call can report reads back as itself: the positive
      counts and the codes never collide. */
  lemma ClassifyWriteRoundTrip(w: WriteResult, count: nat)
    ensures w != WriteSourceEof ==> ClassifyWrite(WriteResultCode(w), false) == Special(w)
    ensures ClassifyWrite(WriteResultCode(w), true) == Special(w)
    ensures count > 0 ==> ClassifyWrite(count, true) == Written(count) && ClassifyWrite(count, false) == Written(count)
  {
  }

  // ---------------------------------------------------------------- handler

  /** A handler: the answers of the methods it implements.  `None` for a
      method with a default means the handler does not override it.
      `OnBufferedClosed` is pure virtual, so it always has an answer. */
  datatype Handler = Handler(
    direct: Option<DirectResult>,
    hangup: Option<bool>,
    closed: bool,
    remaining: Option<bool>,
    end: Option<bool>,
    drained: Option<bool>,
    broken: Option<WriteResult>)

  /** A failed debug assertion or an unreachable default. */
  datatype Violation = AlreadyEnded | AlreadyDestroyed | SocketNotRemoved | UnreachableDirect

  /** `OnBufferedDirect()`: the default is unreachable. */
  function OnDirect(h: Handler): (r: Result<DirectResult, Violation>)
    ensures r.Ok? <==> h.direct.Some?
    ensures r.Err? ==> r.error == UnreachableDirect
  {
    match h.direct
    case Some(d) => Ok(d)
    case None => Err(UnreachableDirect)
  }

  function OnHangup(h: Handler): bool { h.hangup.GetOr(true) }
  function OnRemaining(h: Handler): bool { h.remaining.GetOr(true) }
  function OnEnd(h: Handler): bool { h.end.GetOr(false) }
  function OnDrained(h: Handler): bool { h.drained.GetOr(true) }
  function OnBroken(h: Handler): WriteResult { h.broken.GetOr(WriteErrno) }

  /** A handler that overrides nothing but the pure virtual methods. */
  function PlainHandler(closed: bool): Handler
  {
    Handler(None, None, closed, None, None, None, None)
  }

  /** The default answers: hang-up, remaining and drained go on; end is
      premature; a broken write becomes an errno error. */
  lemma HandlerDefaults(closed: bool)
    ensures var h := PlainHandler(closed);
            && OnHangup(h) && OnRemaining(h) && OnDrained(h)
            && !OnEnd(h)
            && OnBroken(h) == WriteErrno
            && OnDirect(h) == Err(UnreachableDirect)
  {
  }

  /** An override always wins over the default. */
  lemma OverridesWin(h: Handler)
    ensures h.hangup.Some? ==> OnHangup(h) == h.hangup.value
    ensures h.remaining.Some? ==> OnRemaining(h) == h.remaining.value
    ensures h.end.Some? ==> OnEnd(h) == h.end.value
    ensures h.drained.Some? ==> OnDrained(h) == h.drained.value
    ensures h.broken.Some? ==> OnBroken(h) == h.broken.value
  {
  }

  // ------------------------------------------------- end-of-stream sequence

  /** The handler callbacks around the end of the input stream. */
  datatype Callback = CbClosed | CbRemaining(bytes: nat) | CbEnd | CbError(prematurely: bool)

  /** The callbacks after the peer has closed the socket with `bytes`
      octets still buffered: `OnBufferedClosed`, then (unless it answered
      false) `OnBufferedRemaining`, then (unless that answered false and
      once the buffer has drained) `OnBufferedEnd`; an end answered false is
      reported to `OnBufferedError` as "closed prematurely". */
  function PeerClosedCallbacks(h: Handler, bytes: nat): (t: seq<Callback>)
    ensures |t| >= 1 && t[0] == CbClosed
  {
    var afterEnd := if OnEnd(h) then [] else [CbError(true)];
    var afterRemaining := if OnRemaining(h) then [CbEnd] + afterEnd else [];
    var afterClosed := if h.closed then [CbRemaining(bytes)] + afterRemaining else [];
    [CbClosed] + afterClosed
  }

  /** `OnBufferedClosed` answering false silences `OnBufferedRemaining`,
      `OnBufferedEnd` and `OnBufferedError`. */
  lemma ClosedFalseSuppresses(h: Handler, bytes: nat)
    requires !h.closed
    ensures forall i :: 0 <= i < |PeerClosedCallbacks(h, bytes)| ==>
              !PeerClosedCallbacks(h, bytes)[i].CbRemaining? && !PeerClosedCallbacks(h, bytes)[i].CbError?
    ensures CbEnd !in PeerClosedCallbacks(h, bytes)
  {
  }

  /** `OnBufferedRemaining` answering false silences `OnBufferedEnd`. */
  lemma RemainingFalseSuppressesEnd(h: Handler, bytes: nat)
    requires !OnRemaining(h)
    ensures CbEnd !in PeerClosedCallbacks(h, bytes)
    ensures forall i :: 0 <= i < |PeerClosedCallbacks(h, bytes)| ==> !PeerClosedCallbacks(h, bytes)[i].CbError?
  {
  }

  /** `OnBufferedEnd` is only ever reached through the other two, and an
      error after it happens exactly when it answers false. */
  lemma EndNeedsClosedAndRemaining(h: Handler, bytes: nat)
    ensures CbEnd in PeerClosedCallbacks(h, bytes) <==> h.closed && OnRemaining(h)
    ensures CbError(true) in PeerClosedCallbacks(h, bytes) <==> h.closed && OnRemaining(h) && !OnEnd(h)
  {
  }

  /** With no overrides, a peer closing the connection is reported as a
      premature end. */
  lemma PlainHandlerEndsPrematurely(bytes: nat)
    ensures PeerClosedCallbacks(PlainHandler(true), bytes)
            == [CbClosed, CbRemaining(bytes), CbEnd, CbError(true)]
  {
  }

  // ------------------------------------------------- data result handling

  /** What the object does after `OnBufferedData()` returned. */
  datatype Action =
    | ReadMore(expectMore: bool)   // go on reading from the socket
    | InvokeAgain                  // call the handler again without reading
    | Fail                         // report an error to the handler
    | Wait                          // the handler will call Read()
    | Stop                          // the handler has closed the object

  /** The documented meaning of each `BufferedResult`, given whether the
      input buffer is empty or full and whether the socket is connected. */
  function Interpret(r: BufferedResult, empty: bool, full: bool, connected: bool): (a: Action)
    ensures a == InvokeAgain <==> (r == DataAgainOptional || r == DataAgainExpect) && !empty
  {
    match r
    case DataOk => ReadMore(false)
    case DataMore => if !connected || full then Fail else ReadMore(true)
    case DataAgainOptional => if empty then ReadMore(false) else InvokeAgain
    case DataAgainExpect => if !empty then InvokeAgain else if !connected || full then Fail else ReadMore(true)
    case DataBlocking => Wait
    case DataClosed => Stop
  }

  /** On an empty buffer the two "again" results fall back to `OK` and
      `MORE`; on a non-empty one they call the handler again without
      reading. */
  lemma AgainOnEmptyBuffer(empty: bool, full: bool, connected: bool)
    ensures empty ==> Interpret(DataAgainOptional, empty, full, connected) == Interpret(DataOk, empty, full, connected)
    ensures empty ==> Interpret(DataAgainExpect, empty, full, connected) == Interpret(DataMore, empty, full, connected)
    ensures !empty ==> Interpret(DataAgainOptional, empty, full, connected) == InvokeAgain
    ensures !empty ==> Interpret(DataAgainExpect, empty, full, connected) == InvokeAgain
  {
  }

  /** Asking for more data when none can come is an error, never a wait: the
      socket is closed, or the buffer has no room. */
  lemma MoreWithoutRoomFails(r: BufferedResult, empty: bool, full: bool, connected: bool)
    requires r == DataMore || (r == DataAgainExpect && empty)
    ensures Interpret(r, empty, full, connected) == Fail <==> !connected || full
    ensures Interpret(r, empty, full, connected) != Wait
  {
  }

  /** Only the data results read the socket again. */
  lemma OnlyReadingResultsRead(r: BufferedResult, empty: bool, full: bool, connected: bool)
    ensures Interpret(r, empty, full, connected).ReadMore? ==>
              r == DataOk || r == DataMore || ((r == DataAgainOptional || r == DataAgainExpect) && empty)
  {
  }

  /** What the object does after `OnBufferedDirect()` returned. */
  datatype DirectAction = DirectContinue | DirectWait | ListenOnSocket | PeerEnded | DirectStop | RaiseErrno

  function InterpretDirect(r: DirectResult): (a: DirectAction)
    ensures a == RaiseErrno <==> r == DirectErrno
    ensures a == DirectStop <==> r == DirectClosed
  {
    match r
    case DirectOk => DirectContinue
    case DirectBlocking => DirectWait
    case DirectEmpty => ListenOnSocket
    case DirectEnd => PeerEnded
    case DirectClosed => DirectStop
    case DirectErrno => RaiseErrno
  }

  // ---------------------------------------------------------- the object

  /** The state of the `SocketWrapper`'s descriptor: none yet, open (with its
      number), closed by `Close()`, or handed over by `Abandon()`. */
  datatype Fd = NoFd | Open(number: nat) | Released(closed: bool)

  datatype State = State(
    destroyed: bool,
    ended: bool,
    fd: Fd,
    deferRead: bool,      // `defer_read` scheduled
    deferWrite: bool,     // `defer_write` scheduled
    writePending: bool,   // the wrapper's write event scheduled
    readPending: bool,    // the wrapper's read event scheduled
    input: seq<Byte>,
    inputAllocated: bool,
    capacity: nat)

  /** The constructor: `destroyed` starts true. */
  function New(): (s: State)
    ensures !IsValid(s)
  {
    State(true, false, NoFd, false, false, false, false, [], false, 0)
  }

  /** `Init()` with a handler: connected, with an empty input buffer. */
  function Init(s: State, number: nat, capacity: nat): (r: State)
    ensures IsValid(r) && !r.ended && r.fd == Open(number)
    ensures IsConnected(r) == Ok(true)
  {
    State(false, false, Open(number), false, false, false, false, [], false, capacity)
  }

  predicate IsValid(s: State)
  {
    !s.destroyed
  }

  /** `IsConnected()`: whether the socket is not yet known to be closed,
      that is, whether the wrapper still holds its descriptor. */
  function IsConnected(s: State): (r: Result<bool, Violation>)
    ensures r.Err? <==> s.destroyed
    ensures r.Ok? ==> (r.value <==> s.fd.Open?)
  {
    if s.destroyed then Err(AlreadyDestroyed) else Ok(s.fd.Open?)
  }

  /** The guards shared by `Close`, `Abandon`, `ScheduleWrite` and
      `UnscheduleWrite`: not ended, then not destroyed. */
  function Guard(s: State): Option<Violation>
  {
    if s.ended then Some(AlreadyEnded)
    else if s.destroyed then Some(AlreadyDestroyed)
    else None
  }

  /** `Close()` / `Abandon()`: cancel both deferred events and give up the
      descriptor, closing it or leaving it to the caller.  The wrapper's
      events go with the descriptor. */
  function Release(s: State, close: bool): (r: Result<State, Violation>)
    ensures r.Ok? <==> !s.ended && !s.destroyed
    ensures r.Ok? ==>
              && !r.value.deferRead && !r.value.deferWrite
              && !r.value.readPending && !r.value.writePending
              && r.value.fd == Released(close)
              && r.value.input == s.input && IsValid(r.value)
    ensures r.Ok? ==>
              r.value.(deferRead := s.deferRead, deferWrite := s.deferWrite,
                       readPending := s.readPending, writePending := s.writePending, fd := s.fd) == s
  {
    if Guard(s).Some? then Err(Guard(s).value)
    else Ok(s.(deferRead := false, deferWrite := false,
                      writePending := false, readPending := false,
                      fd := Released(close)))
  }

  function Close(s: State): (r: Result<State, Violation>)
    ensures r.Ok? <==> !s.ended && !s.destroyed
    ensures r.Ok? ==> r.value.fd == Released(true) && !r.value.deferRead && !r.value.deferWrite
    ensures r.Ok? ==> !r.value.readPending && !r.value.writePending
    ensures r.Ok? ==>
              r.value.(deferRead := s.deferRead, deferWrite := s.deferWrite,
                       readPending := s.readPending, writePending := s.writePending, fd := s.fd) == s
  {
    Release(s, true)
  }

  /** A connected object is no longer connected after `Close()` or
      `Abandon()`, and asking stays legal until `Destroy()`. */
  lemma ReleaseDisconnects(s: State)
    requires IsValid(s) && !s.ended && s.fd.Open?
    ensures IsConnected(s) == Ok(true)
    ensures Close(s).Ok? && IsConnected(Close(s).value) == Ok(false)
    ensures Abandon(s).Ok? && IsConnected(Abandon(s).value) == Ok(false)
  {
  }

  function Abandon(s: State): (r: Result<State, Violation>)
    ensures r.Ok? <==> !s.ended && !s.destroyed
    ensures r.Ok? ==> r.value.fd == Released(false) && !r.value.deferRead && !r.value.deferWrite
    ensures r.Ok? ==> !r.value.readPending && !r.value.writePending
    ensures r.Ok? ==>
              r.value.(deferRead := s.deferRead, deferWrite := s.deferWrite,
                       readPending := s.readPending, writePending := s.writePending, fd := s.fd) == s
  {
    Release(s, false)
  }

  /** `Destroy()`: only after `Close()` or `Abandon()`. */
  function Destroy(s: State): (r: Result<State, Violation>)
    ensures r.Ok? <==> !s.destroyed && s.fd.Released?
    ensures r.Ok? ==> !IsValid(r.value)
  {
    if s.destroyed then Err(AlreadyDestroyed)
    else if !s.fd.Released? then Err(SocketNotRemoved)
    else Ok(s.(destroyed := true))
  }

  /** A connected object can be closed or abandoned and then destroyed; it
      cannot be destroyed while it still owns its descriptor. */
  lemma LifecycleOrder(s: State, close: bool)
    requires IsValid(s) && !s.ended && s.fd.Open?
    ensures Destroy(s) == Err(SocketNotRemoved)
    ensures Release(s, close).Ok? && Destroy(Release(s, close).value).Ok?
  {
  }

  /** `AsFD()`: -1 when input is buffered; otherwise the descriptor, after
      `Abandon()`. */
  function AsFD(s: State): (r: Result<(int, State), Violation>)
    ensures |s.input| > 0 ==> r == Ok((-1, s))
    ensures |s.input| == 0 && r.Ok? ==> r.value.1.fd == Released(false)
    ensures |s.input| == 0 && s.fd.Open? && r.Ok? ==> r.value.0 == s.fd.number
  {
    if |s.input| > 0 then Ok((-1, s))
    else
      var number := if s.fd.Open? then s.fd.number as int else -1;
      var a :- Abandon(s);
      Ok((number, a))
  }

  /** `IsEmpty()` / `IsFull()` of the input buffer; both assert not ended. */
  function IsEmpty(s: State): (r: Result<bool, Violation>)
    ensures r.Err? <==> s.ended
    ensures r.Ok? ==> (r.value <==> |s.input| == 0)
  {
    if s.ended then Err(AlreadyEnded) else Ok(|s.input| == 0)
  }

  function IsFull(s: State): (r: Result<bool, Violation>)
    ensures r.Err? <==> s.ended
    ensures r.Ok? ==> (r.value <==> s.inputAllocated && |s.input| == s.capacity)
  {
    if s.ended then Err(AlreadyEnded) else Ok(s.inputAllocated && |s.input| == s.capacity)
  }

  /** `DeferWrite()`: schedule the deferred write unless a real write is
      already pending. */
  function DeferWrite(s: State): (r: State)
    ensures r.deferWrite <==> s.deferWrite || !s.writePending
    ensures r.(deferWrite := s.deferWrite) == s
  {
    if !s.writePending then s.(deferWrite := true) else s
  }

  /** `ScheduleWrite()`: cancel the deferred write, then schedule the real
      one. */
  function ScheduleWrite(s: State): (r: Result<State, Violation>)
    ensures r.Ok? <==> !s.ended && !s.destroyed
    ensures r.Ok? ==> r.value.writePending && !r.value.deferWrite
    ensures r.Ok? ==> r.value.(writePending := s.writePending, deferWrite := s.deferWrite) == s
  {
    if Guard(s).Some? then Err(Guard(s).value)
    else Ok(s.(deferWrite := false, writePending := true))
  }

  /** `UnscheduleWrite()`: neither write event remains. */
  function UnscheduleWrite(s: State): (r: Result<State, Violation>)
    ensures r.Ok? <==> !s.ended && !s.destroyed
    ensures r.Ok? ==> !r.value.writePending && !r.value.deferWrite
    ensures r.Ok? ==> r.value.(writePending := s.writePending, deferWrite := s.deferWrite) == s
  {
    if Guard(s).Some? then Err(Guard(s).value)
    else Ok(s.(writePending := false, deferWrite := false))
  }

  /** `UnscheduleRead()`: neither read event remains. */
  function UnscheduleRead(s: State): (r: State)
    ensures !r.readPending && !r.deferRead
    ensures r.(readPending := s.readPending, deferRead := s.deferRead) == s
  {
    s.(readPending := false, deferRead := false)
  }

  /** Once a write is scheduled, deferring one is a no-op. */
  lemma DeferAfterScheduleIsNoop(s: State)
    requires ScheduleWrite(s).Ok?
    ensures DeferWrite(ScheduleWrite(s).value) == ScheduleWrite(s).value
  {
  }

  /** The peer has closed the socket and the handler has been told (see
      `PeerClosedCallbacks`, with the octets still buffered).
      `OnBufferedClosed` runs first whatever it answers, and it must close
      (`close`) or abandon the socket, which needs the object neither ended
      nor destroyed.  Invoking `OnBufferedEnd` is what makes the object
      ended, and it is invoked only once the input buffer has drained; when
      the handler stops the sequence earlier the object is left as
      `Close()` or `Abandon()` left it. */
  function PeerClosed(s: State, h: Handler, close: bool): (r: Result<State, Violation>)
    ensures r.Ok? <==> !s.ended && !s.destroyed
    ensures r.Ok? ==> r.value.fd == Released(close) && IsValid(r.value)
    ensures r.Ok? ==> (r.value.ended <==> CbEnd in PeerClosedCallbacks(h, |s.input|))
    ensures r.Ok? && r.value.ended ==> |r.value.input| == 0
    ensures r.Ok? && !r.value.ended ==> r.value.input == s.input
    ensures r.Ok? ==> r.value.(ended := false, input := s.input) == Release(s, close).value
  {
    if Guard(s).Some? then Err(Guard(s).value)
    else
      var t := Release(s, close).value;
      EndNeedsClosedAndRemaining(h, |s.input|);
      if h.closed && OnRemaining(h) then Ok(t.(ended := true, input := [])) else Ok(t)
  }

  /** Once `OnBufferedEnd` has run, every guarded operation fails. */
  lemma EndRejectsAll(s: State, h: Handler, close: bool)
    requires PeerClosed(s, h, close).Ok?
    requires CbEnd in PeerClosedCallbacks(h, |s.input|)
    ensures var r := PeerClosed(s, h, close).value;
            && Close(r).Err? && Abandon(r).Err? && ScheduleWrite(r).Err? && UnscheduleWrite(r).Err?
            && IsEmpty(r).Err? && IsFull(r).Err?
  {
    EndedRejectsAll(PeerClosed(s, h, close).value);
  }

  /** After the peer's close the object is disconnected and, ended or
      not, can be destroyed. */
  lemma PeerClosedThenDestroy(s: State, h: Handler, close: bool)
    requires PeerClosed(s, h, close).Ok?
    ensures IsConnected(PeerClosed(s, h, close).value) == Ok(false)
    ensures Destroy(PeerClosed(s, h, close).value).Ok?
  {
  }

  /** The whole life of a connection the peer closes: `Init()`, the
      callbacks, `Destroy()`. */
  lemma PeerClosedLifecycle(number: nat, capacity: nat, h: Handler, close: bool)
    ensures var s := Init(New(), number, capacity);
            && PeerClosed(s, h, close).Ok?
            && Destroy(PeerClosed(s, h, close).value).Ok?
            && !IsValid(Destroy(PeerClosed(s, h, close).value).value)
  {
  }

  /** With a handler whose `OnBufferedClosed` answers true and that keeps
      the default `OnBufferedRemaining`, the object ends when the peer
      closes the connection. */
  lemma PlainHandlerEnds(s: State, close: bool)
    requires !s.ended && !s.destroyed
    ensures PeerClosed(s, PlainHandler(true), close).Ok?
    ensures PeerClosed(s, PlainHandler(true), close).value.ended
  {
    PlainHandlerEndsPrematurely(|s.input|);
  }

  /** After the end of the stream, every guarded operation fails. */
  lemma EndedRejectsAll(s: State)
    requires s.ended
    ensures Close(s).Err? && Abandon(s).Err? && ScheduleWrite(s).Err? && UnscheduleWrite(s).Err?
    ensures IsEmpty(s).Err? && IsFull(s).Err?
  {
  }
}
