/** `ReceiveToBuffer` and `SendFromBuffer`: move octets between a
    non-blocking socket and a FIFO buffer of fixed capacity.

    The buffer (`ForeignFifoBuffer`, whose header is not part of this model)
    is its contents and its capacity; its free space is everything the
    contents leave.  The socket is what a non-blocking `recv` / `send` would
    see: the octets waiting to be read, whether the peer has hung up, the
    room in the send buffer, and a pending error. */
module FifoTransfer {
  import opened Wrappers
  import opened Words

  /** Linux `EAGAIN`. */
  const EAGAIN: int := 11

  datatype Fifo = Fifo(data: seq<Byte>, capacity: nat)
  {
    predicate Valid()
    {
      |data| <= capacity
    }

    function FreeSpace(): nat
      requires Valid()
    {
      capacity - |data|
    }
  }

  datatype Socket = Socket(
    defined: bool,
    incoming: seq<Byte>,
    hungUp: bool,
    readError: Option<int>,
    sendRoom: nat,
    writeError: Option<int>)

  /** A failed `assert` in the source. */
  datatype Violation = SocketNotDefined

  /** What one call did: its return value, `errno` after it, the buffer
      afterwards, and the octets it moved (appended or sent). */
  datatype Transfer = Transfer(nbytes: int, errno: int, buffer: Fifo, moved: seq<Byte>)

  function Min(a: nat, b: nat): nat
  {
    if a <= b then a else b
  }

  /** `SocketDescriptor::ReadNoWait` into a span of `space` octets: a pending
      error first, then whatever is waiting (as much as fits), then 0 at end
      of stream, else `EAGAIN`.  Returns the count (or -1), `errno` and the
      octets read. */
  function ReadNoWait(s: Socket, space: nat): (r: (int, int, seq<Byte>))
    ensures r.0 >= 0 ==> r.0 == |r.2| && r.0 <= space && r.0 <= |s.incoming| && r.2 == s.incoming[..r.0]
    ensures r.0 < 0 ==> r.0 == -1 && r.2 == []
  {
    if s.readError.Some? then (-1, s.readError.value, [])
    else if |s.incoming| > 0 && space > 0 then
      var n := Min(|s.incoming|, space);
      (n, 0, s.incoming[..n])
    else if s.hungUp then (0, 0, [])
    else (-1, EAGAIN, [])
  }

  /** `SocketDescriptor::WriteNoWait` of `r`: a pending error first, then as
      much as the send buffer has room for, else `EAGAIN`. */
  function WriteNoWait(s: Socket, r: seq<Byte>): (w: (int, int))
    ensures w.0 >= 0 ==> w.0 <= |r|
    ensures w.0 < 0 ==> w.0 == -1
  {
    if s.writeError.Some? then (-1, s.writeError.value)
    else if s.sendRoom > 0 || |r| == 0 then (Min(s.sendRoom, |r|) as int, 0)
    else (-1, EAGAIN)
  }

  /** `ReceiveToBuffer`. */
  function ReceiveToBuffer(s: Socket, buffer: Fifo): (r: Result<Transfer, Violation>)
    requires buffer.Valid()
    ensures !s.defined <==> r.Err?
    ensures r.Ok? ==> r.value.buffer.Valid() && r.value.buffer.capacity == buffer.capacity
    ensures r.Ok? && buffer.FreeSpace() == 0 ==> r.value.nbytes == -2 && r.value.buffer == buffer
    ensures r.Ok? && r.value.nbytes == -2 ==> buffer.FreeSpace() == 0
    ensures r.Ok? && r.value.nbytes > 0 ==>
              && r.value.buffer.data == buffer.data + r.value.moved
              && |r.value.moved| == r.value.nbytes <= buffer.FreeSpace()
              && r.value.nbytes <= |s.incoming|
              && r.value.moved == s.incoming[..r.value.nbytes]
    ensures r.Ok? && r.value.nbytes <= 0 ==> r.value.buffer == buffer && r.value.moved == []
  {
    if !s.defined then Err(SocketNotDefined)
    else
      var space := buffer.FreeSpace();
      if space == 0 then Ok(Transfer(-2, 0, buffer, []))
      else
        var (nbytes, errno, got) := ReadNoWait(s, space);
        if nbytes > 0 then Ok(Transfer(nbytes, errno, Fifo(buffer.data + got, buffer.capacity), got))
        else Ok(Transfer(nbytes, errno, buffer, []))
  }

  /** `SendFromBuffer`. */
  function SendFromBuffer(s: Socket, buffer: Fifo): (r: Result<Transfer, Violation>)
    requires buffer.Valid()
    ensures !s.defined <==> r.Err?
    ensures r.Ok? ==> r.value.buffer.Valid() && r.value.buffer.capacity == buffer.capacity
    ensures r.Ok? && |buffer.data| == 0 ==> r.value.nbytes == -2 && r.value.buffer == buffer
    ensures r.Ok? && r.value.nbytes == -2 ==> |buffer.data| == 0
    ensures r.Ok? && r.value.nbytes >= 0 ==>
              && r.value.moved + r.value.buffer.data == buffer.data
              && |r.value.moved| == r.value.nbytes
    ensures r.Ok? && r.value.nbytes < 0 ==> r.value.buffer == buffer && r.value.moved == []
  {
    if !s.defined then Err(SocketNotDefined)
    else if |buffer.data| == 0 then Ok(Transfer(-2, 0, buffer, []))
    else
      var (nbytes, errno) := WriteNoWait(s, buffer.data);
      if nbytes >= 0 then
        assert buffer.data[..nbytes] + buffer.data[nbytes..] == buffer.data;
        Ok(Transfer(nbytes, errno, Fifo(buffer.data[nbytes..], buffer.capacity), buffer.data[..nbytes]))
      else if errno == EAGAIN then Ok(Transfer(0, errno, buffer, []))
      else Ok(Transfer(nbytes, errno, buffer, []))
  }

  /** `EAGAIN` on send is reported as 0; every other error as -1; neither
      touches the buffer. */
  lemma SendErrorCodes(s: Socket, buffer: Fifo)
    requires buffer.Valid() && s.defined && |buffer.data| > 0 && s.writeError.Some?
    ensures var r := SendFromBuffer(s, buffer).value;
            && r.buffer == buffer
            && r.nbytes == (if s.writeError.value == EAGAIN then 0 else -1)
  {
  }

  /** Octets leave the buffer in the order they entered it: receiving and
      then sending everything hands on the old contents followed by what
      was received. */
  lemma FifoOrder(rs: Socket, ws: Socket, buffer: Fifo)
    requires buffer.Valid() && rs.defined && ws.defined
    requires ws.writeError.None? && ws.sendRoom >= buffer.capacity
    ensures var got := ReceiveToBuffer(rs, buffer).value;
            var sent := SendFromBuffer(ws, got.buffer).value;
            |got.buffer.data| > 0 ==>
              sent.moved == buffer.data + got.moved && sent.buffer.data == []
  {
    var got := ReceiveToBuffer(rs, buffer).value;
    assert |got.buffer.data| <= ws.sendRoom;
  }
}
