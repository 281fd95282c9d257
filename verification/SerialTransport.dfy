/**
 * The byte-wise serial transport: it finds frames in an unreliable byte stream by their magic and
 * declared length, and hands each over to the protocol handler.
 */
module SerialTransport {
  import opened Bytes
  import opened ProtocolFrame

  /** The size of the request buffer is set when the firmware is built; it holds a header. */
  type Capacity = n: nat | HEADER_LEN <= n < SIZE_SPAN witness HEADER_LEN

  /** What a pushed byte can cause: nothing, a frame handed over, or a refused length. */
  datatype Event = Deliver(frame: seq<byte>) | Refuse

  const LENGTH_MISMATCH := -3

  /** What the caller is told: the length error, one for a frame handled, or the handler's own error. */
  function Told(events: seq<Event>, handled: int): int
  {
    if events == [] then 0
    else if events[0].Refuse? then LENGTH_MISMATCH
    else if handled != 0 then handled
    else 1
  }

  /** The firmware's prefix comparison: as much of the magic as is there. */
  predicate MagicPrefix(buffer: seq<byte>)
  {
    var n := if |buffer| < 4 then |buffer| else 4;
    buffer[..n] == MAGIC[..n]
  }

  /** How long the frame is by its header. */
  function FrameLen(frame: seq<byte>): nat
    requires |frame| >= HEADER_LEN
  {
    HEADER_LEN + LeValue(frame[12..16])
  }

  /** What the device takes it for: sizes have 32 bits and the sum may wrap. */
  function ExpectedLen(frame: seq<byte>): nat
    requires |frame| >= HEADER_LEN
  {
    FrameLen(frame) % SIZE_SPAN
  }

  /**
   * Between bytes: a start of a frame that still fits, not yet complete. An expected length of zero is
   * taken for none, and then bytes are kept until the buffer is full.
   */
  predicate Waiting(cap: Capacity, buffer: seq<byte>)
  {
    && |buffer| <= cap
    && MagicPrefix(buffer)
    && (|buffer| >= HEADER_LEN ==> ExpectedLen(buffer) == 0 || |buffer| < ExpectedLen(buffer) <= cap)
  }

  /** Drop leading bytes until the rest could begin a frame. */
  function Resync(buffer: seq<byte>): (r: seq<byte>)
    ensures MagicPrefix(r) && |r| <= |buffer|
    decreases |buffer|
  {
    if MagicPrefix(buffer) then buffer else Resync(buffer[1..])
  }

  /** What remains is the longest suffix compatible with the magic. */
  lemma {:induction false} ResyncIsLongest(buffer: seq<byte>)
    ensures Resync(buffer) == buffer[|buffer| - |Resync(buffer)|..]
    ensures forall k :: 0 <= k < |buffer| - |Resync(buffer)| ==> !MagicPrefix(buffer[k..])
    decreases |buffer|
  {
    if !MagicPrefix(buffer) {
      ResyncIsLongest(buffer[1..]);
      forall k | 0 <= k < |buffer| - |Resync(buffer)| ensures !MagicPrefix(buffer[k..]) {
        assert if k == 0 then buffer[k..] == buffer else buffer[k..] == buffer[1..][k - 1..];
      }
    }
  }

  /** One byte of the stream. */
  function Push(cap: Capacity, buffer: seq<byte>, b: byte): (r: (seq<byte>, seq<Event>))
    requires Waiting(cap, buffer)
    ensures Waiting(cap, r.0)
  {
    if |buffer| == cap then ([], [Refuse])
    else
      var next := Resync(buffer + [b]);
      if |next| < HEADER_LEN then (next, [])
      else
        assert next == buffer + [b] by { HeaderMeansNoShift(cap, buffer, b); }
        assert |buffer| >= HEADER_LEN ==> next[12..16] == buffer[12..16];
        if ExpectedLen(next) > cap then ([], [Refuse])
        else if ExpectedLen(next) == 0 || |next| < ExpectedLen(next) then (next, [])
        else ([], [Deliver(next)])
  }

  /** The caller learns of a refused length as -3, of a handled frame as 1, and of the handler's own error. */
  lemma ToldExactly(cap: Capacity, buffer: seq<byte>, b: byte, handled: int)
    requires Waiting(cap, buffer)
    ensures var told := Told(Push(cap, buffer, b).1, handled);
            && (Refuse in Push(cap, buffer, b).1 ==> told == -3)
            && (Push(cap, buffer, b).1 == [] ==> told == 0)
            && ((exists f :: Deliver(f) in Push(cap, buffer, b).1) ==> told == if handled == 0 then 1 else handled)
  {
  }

  /** Only a buffer shorter than the magic can lose bytes. */
  lemma HeaderMeansNoShift(cap: Capacity, buffer: seq<byte>, b: byte)
    requires Waiting(cap, buffer)
    ensures |buffer| >= 4 ==> Resync(buffer + [b]) == buffer + [b]
    ensures |Resync(buffer + [b])| >= HEADER_LEN ==> Resync(buffer + [b]) == buffer + [b]
  {
    assert |buffer| >= 4 ==> (buffer + [b])[..4] == buffer[..4];
  }

  lemma HeaderKept(buffer: seq<byte>, b: byte)
    requires |buffer| >= HEADER_LEN
    ensures FrameLen(buffer + [b]) == FrameLen(buffer)
  {
    assert (buffer + [b])[12..16] == buffer[12..16];
  }

  /** The buffer after a whole stream. */
  function After(cap: Capacity, buffer: seq<byte>, stream: seq<byte>): (r: seq<byte>)
    requires Waiting(cap, buffer)
    ensures Waiting(cap, r)
    decreases |stream|
  {
    if stream == [] then buffer else After(cap, Push(cap, buffer, stream[0]).0, stream[1..])
  }

  /** What happened during the stream, in order. */
  function Events(cap: Capacity, buffer: seq<byte>, stream: seq<byte>): seq<Event>
    requires Waiting(cap, buffer)
    decreases |stream|
  {
    if stream == [] then []
    else var step := Push(cap, buffer, stream[0]); step.1 + Events(cap, step.0, stream[1..])
  }

  // ---------------------------------------------------------------- the transport object

  class Transport {
    const cap: Capacity
    const request: array<byte>
    var requestLen: nat
    var expectedLen: nat

    ghost predicate Valid()
      reads this, request
    {
      && request.Length == cap
      && requestLen <= cap
      && Waiting(cap, request[..requestLen])
      && expectedLen == (if requestLen >= HEADER_LEN then ExpectedLen(request[..requestLen]) else 0)
    }

    ghost function Buffer(): seq<byte>
      reads this, request
      requires Valid()
    {
      request[..requestLen]
    }

    constructor (cap: Capacity)
      ensures Valid() && Buffer() == [] && this.cap == cap
      ensures fresh(request)
    {
      this.cap := cap;
      request := new byte[cap];
      requestLen, expectedLen := 0, 0;
    }

    /** Start over with an empty buffer. */
    method Init()
      requires request.Length == cap
      modifies this
      ensures Valid() && Buffer() == []
    {
      requestLen, expectedLen := 0, 0;
    }

    /** Move everything one place to the front. */
    method DropFirst()
      requires 0 < requestLen <= request.Length
      modifies this`requestLen, request
      ensures requestLen == old(requestLen) - 1
      ensures request[..requestLen] == old(request[1..requestLen])
    {
      forall i | 0 <= i < requestLen - 1 {
        request[i] := request[i + 1];
      }
      requestLen := requestLen - 1;
    }

    /** Drop leading bytes until what is left could begin a frame. */
    method ResyncToMagicPrefix()
      requires requestLen <= request.Length
      modifies this, request
      ensures requestLen <= old(requestLen)
      ensures request[..requestLen] == Resync(old(request[..requestLen]))
      ensures expectedLen == if requestLen == old(requestLen) then old(expectedLen) else 0
    {
      while requestLen > 0
        invariant requestLen <= old(requestLen)
        invariant Resync(request[..requestLen]) == Resync(old(request[..requestLen]))
        invariant expectedLen == if requestLen == old(requestLen) then old(expectedLen) else 0
        decreases requestLen
      {
        if MagicPrefix(request[..requestLen]) {
          return;
        }
        assert request[1..requestLen] == request[..requestLen][1..];
        DropFirst();
        expectedLen := 0;
      }
      assert request[..0] == [];
    }

    method Append(b: byte)
      requires requestLen < request.Length
      modifies this`requestLen, request
      ensures requestLen == old(requestLen) + 1
      ensures request[..requestLen] == old(request[..requestLen]) + [b]
    {
      request[requestLen] := b;
      requestLen := requestLen + 1;
    }

    /**
     * Push one byte: `Refuse` is a refused length, `Deliver` the call of the handler, which would return
     * `handled`. A byte that finds the buffer full is lost with it.
     */
    method PushByte(b: byte, handled: int) returns (events: seq<Event>, result: int)
      requires Valid()
      modifies this, request
      ensures Valid()
      ensures (Buffer(), events) == Push(cap, old(Buffer()), b)
      ensures result == Told(events, handled)
    {
      events, result := [], 0;
      if requestLen >= cap {
        Init();
        return [Refuse], LENGTH_MISMATCH;
      }
      HeaderMeansNoShift(cap, Buffer(), b);
      if requestLen >= HEADER_LEN {
        HeaderKept(Buffer(), b);
      }
      Append(b);
      ResyncToMagicPrefix();
      if requestLen == HEADER_LEN {
        var expected := (HEADER_LEN + LeValue(request[..requestLen][12..16])) % SIZE_SPAN;
        if expected > cap {
          Init();
          return [Refuse], LENGTH_MISMATCH;
        }
        expectedLen := expected;
      }
      if expectedLen == 0 || requestLen < expectedLen {
        return;
      }
      events := [Deliver(request[..requestLen])];
      Init();
      result := if handled != 0 then handled else 1;
    }
  }
}
