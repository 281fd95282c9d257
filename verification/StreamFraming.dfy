/**
 * What the serial transport does to a whole byte stream: it agrees with a reference scan of the
 * stream as long as no header's length wraps, and it recovers the frames a host sent with noise
 * between them.
 */
module StreamFraming {
  import opened Bytes
  import opened ProtocolFrame
  import opened SerialTransport

  predicate MagicAt(s: seq<byte>, i: nat)
  {
    i + 4 <= |s| && s[i..i + 4] == MAGIC
  }

  ghost predicate NoMagic(s: seq<byte>)
  {
    forall i: nat :: !MagicAt(s, i)
  }

  /** Where the magic first occurs; the end of the stream when it does not. */
  function FirstMagic(s: seq<byte>): (i: nat)
    ensures i <= |s|
    ensures i < |s| ==> MagicAt(s, i)
    decreases |s|
  {
    if s == [] || MagicAt(s, 0) then 0 else 1 + FirstMagic(s[1..])
  }

  lemma {:induction false} FirstMagicIsFirst(s: seq<byte>)
    ensures forall k: nat :: k < FirstMagic(s) ==> !MagicAt(s, k)
    ensures FirstMagic(s) == |s| ==> NoMagic(s)
    decreases |s|
  {
    if !(s == [] || MagicAt(s, 0)) {
      FirstMagicIsFirst(s[1..]);
      forall k: nat | 0 < k && MagicAt(s, k) ensures MagicAt(s[1..], k - 1) {
        assert s[k..k + 4] == s[1..][k - 1..k + 3];
      }
    }
  }

  /**
   * The reference reading of a stream: find the magic, read the declared length, take the frame, go on
   * after it. A length that cannot fit discards the header.
   */
  function Scan(cap: Capacity, s: seq<byte>): seq<Event>
    decreases |s|
  {
    var i := FirstMagic(s);
    if |s| < i + HEADER_LEN then []
    else
      var frame := s[i..];
      var n := FrameLen(frame);
      if n > cap then [Refuse] + Scan(cap, frame[HEADER_LEN..])
      else if |frame| < n then []
      else [Deliver(frame[..n])] + Scan(cap, frame[n..])
  }

  /** The header's length and the header together fit a size of the device. */
  predicate LengthFits(frame: seq<byte>)
    requires |frame| >= HEADER_LEN
  {
    LeValue(frame[12..16]) < SIZE_SPAN - HEADER_LEN
  }

  /** Every header the scan reads has a length that fits. */
  predicate HeadersFit(cap: Capacity, s: seq<byte>)
    decreases |s|
  {
    var i := FirstMagic(s);
    |s| < i + HEADER_LEN ||
    var frame := s[i..];
    var n := FrameLen(frame);
    && LengthFits(frame)
    && (if n > cap then HeadersFit(cap, frame[HEADER_LEN..]) else |frame| < n || HeadersFit(cap, frame[n..]))
  }

  /** How many bytes the device takes for the frame: never less than the header. */
  function Taken(frame: seq<byte>): (m: nat)
    requires |frame| >= HEADER_LEN
    ensures m >= HEADER_LEN
  {
    if ExpectedLen(frame) < HEADER_LEN then HEADER_LEN else ExpectedLen(frame)
  }

  /**
   * What the device makes of a stream: where the length wraps to zero it keeps bytes until the buffer is
   * full, and loses them with the next one; where it wraps to less than a header it hands over the header.
   */
  function DeviceScan(cap: Capacity, s: seq<byte>): seq<Event>
    decreases |s|
  {
    var i := FirstMagic(s);
    if |s| < i + HEADER_LEN then []
    else
      var frame := s[i..];
      if ExpectedLen(frame) > cap then [Refuse] + DeviceScan(cap, frame[HEADER_LEN..])
      else if ExpectedLen(frame) == 0 then
        if |frame| <= cap then [] else [Refuse] + DeviceScan(cap, frame[cap + 1..])
      else
        var m := Taken(frame);
        if |frame| < m then [] else [Deliver(frame[..m])] + DeviceScan(cap, frame[m..])
  }

  // ---------------------------------------------------------------- feeding in pieces

  lemma {:induction false} StreamConcat(cap: Capacity, buffer: seq<byte>, x: seq<byte>, y: seq<byte>)
    requires Waiting(cap, buffer)
    ensures After(cap, buffer, x + y) == After(cap, After(cap, buffer, x), y)
    ensures Events(cap, buffer, x + y) == Events(cap, buffer, x) + Events(cap, After(cap, buffer, x), y)
    decreases |x|
  {
    if x == [] {
      assert x + y == y;
    } else {
      var step := Push(cap, buffer, x[0]);
      assert (x + y)[1..] == x[1..] + y;
      StreamConcat(cap, step.0, x[1..], y);
      var later := After(cap, step.0, x[1..]);
      assert step.1 + (Events(cap, step.0, x[1..]) + Events(cap, later, y))
             == (step.1 + Events(cap, step.0, x[1..])) + Events(cap, later, y);
    }
  }

  /** Once the magic is in, bytes accumulate while the frame is incomplete. */
  lemma {:induction false} Grow(cap: Capacity, buffer: seq<byte>, x: seq<byte>)
    requires Waiting(cap, buffer) && |buffer| >= 4 && Waiting(cap, buffer + x)
    ensures After(cap, buffer, x) == buffer + x && Events(cap, buffer, x) == []
    decreases |x|
  {
    if x == [] {
      assert buffer + x == buffer;
    } else {
      var next := buffer + [x[0]];
      assert buffer + x == next + x[1..];
      assert next[..4] == (buffer + x)[..4];
      if |next| >= HEADER_LEN {
        assert next[12..16] == (buffer + x)[12..16];
      }
      HeaderMeansNoShift(cap, buffer, x[0]);
      assert Push(cap, buffer, x[0]) == (next, []);
      Grow(cap, next, x[1..]);
    }
  }

  lemma OneByte(cap: Capacity, buffer: seq<byte>, b: byte)
    requires Waiting(cap, buffer)
    ensures After(cap, buffer, [b]) == Push(cap, buffer, b).0 && Events(cap, buffer, [b]) == Push(cap, buffer, b).1
  {
    assert [b][1..] == [];
  }

  /** What the device does with the byte that completes a header, a frame or a full buffer. */
  function Completed(cap: Capacity, f: seq<byte>): seq<Event>
    requires |f| >= HEADER_LEN
  {
    if 0 < ExpectedLen(f) <= cap then [Deliver(f)] else [Refuse]
  }

  /** Resynchronising byte by byte is resynchronising at the end. */
  lemma {:induction false} ResyncTwice(x: seq<byte>, b: byte)
    ensures Resync(Resync(x) + [b]) == Resync(x + [b])
    decreases |x|
  {
    if x != [] && !MagicPrefix(x) {
      ContradictedStart(x, b);
      assert (x + [b])[1..] == x[1..] + [b];
      ResyncTwice(x[1..], b);
    }
  }

  lemma ContradictedStart(x: seq<byte>, b: byte)
    requires !MagicPrefix(x)
    ensures !MagicPrefix(x + [b])
  {
    var n := if |x| < 4 then |x| else 4;
    var m := if |x + [b]| < 4 then |x + [b]| else 4;
    assert x[..n] == (x + [b])[..m][..n] && MAGIC[..n] == MAGIC[..m][..n];
  }

  /** While nothing has happened, the buffer is the longest suffix of the stream that could begin a frame. */
  lemma {:induction false} QuietBuffer(cap: Capacity, s: seq<byte>)
    requires Events(cap, [], s) == []
    ensures After(cap, [], s) == Resync(s)
    decreases |s|
  {
    if s != [] {
      var front, last := s[..|s| - 1], s[|s| - 1];
      assert s == front + [last];
      StreamConcat(cap, [], front, [last]);
      QuietBuffer(cap, front);
      OneByte(cap, After(cap, [], front), last);
      ResyncTwice(front, last);
    }
  }

  /** The byte that completes a header or a frame. */
  lemma LastByte(cap: Capacity, f: seq<byte>)
    requires |f| >= HEADER_LEN && f[..4] == MAGIC
    requires Waiting(cap, f[..|f| - 1])
    requires if ExpectedLen(f) > cap then |f| == HEADER_LEN
             else if ExpectedLen(f) == 0 then |f| == cap + 1
             else |f| == Taken(f)
    ensures After(cap, MAGIC, f[4..]) == [] && Events(cap, MAGIC, f[4..]) == Completed(cap, f)
  {
    var n := |f| - 1;
    assert f[4..] == f[4..n] + [f[n]];
    assert MAGIC + f[4..n] == f[..n];
    assert f == f[..n] + [f[n]];
    StreamConcat(cap, MAGIC, f[4..n], [f[n]]);
    Grow(cap, MAGIC, f[4..n]);
    OneByte(cap, f[..n], f[n]);
    HeaderMeansNoShift(cap, f[..n], f[n]);
  }

  lemma AllButLastWaits(cap: Capacity, f: seq<byte>)
    requires |f| >= HEADER_LEN && f[..4] == MAGIC && |f| <= cap + 1
    requires |f| == HEADER_LEN || ExpectedLen(f) == |f| <= cap || ExpectedLen(f) == 0
    ensures Waiting(cap, f[..|f| - 1])
  {
    var front := f[..|f| - 1];
    assert front[..4] == f[..4];
    if |front| >= HEADER_LEN {
      assert front[12..16] == f[12..16];
    }
  }

  // ---------------------------------------------------------------- skipping noise

  /** A position whose start contradicts the magic holds no magic, however the stream goes on. */
  lemma ContradictedEarly(grown: seq<byte>, rest: seq<byte>, k: nat)
    requires k < |grown| && !MagicPrefix(grown[k..])
    ensures !MagicAt(grown + rest, k)
  {
    var t := grown + rest;
    if k + 4 <= |t| {
      var n := if |grown| - k < 4 then |grown| - k else 4;
      forall j | 0 <= j < n ensures t[k..k + 4][j] == grown[k..][j] {
        assert t[k + j] == grown[k + j];
      }
      assert t[k..k + 4][..n] == grown[k..][..n];
    }
  }

  lemma MagicMoves(t: seq<byte>, drop: nat, k: nat)
    requires drop <= |t|
    ensures MagicAt(t[drop..], k) <==> MagicAt(t, drop + k)
  {
    if drop + k + 4 <= |t| {
      assert t[drop..][k..k + 4] == t[drop + k..drop + k + 4];
    }
  }

  /** Positions the resynchronisation drops hold no magic. */
  lemma DroppedHoldNoMagic(buffer: seq<byte>, b: byte, rest: seq<byte>)
    ensures var t, next := buffer + [b] + rest, Resync(buffer + [b]);
            var drop := |buffer| + 1 - |next|;
            && next + rest == t[drop..]
            && (forall k: nat :: k < drop ==> !MagicAt(t, k))
  {
    var grown := buffer + [b];
    var t, next := grown + rest, Resync(grown);
    var drop := |grown| - |next|;
    ResyncIsLongest(grown);
    DropThenAppend(grown, rest, drop);
    forall k: nat | k < drop ensures !MagicAt(t, k) {
      ContradictedEarly(grown, rest, k);
    }
  }

  lemma DropThenAppend(grown: seq<byte>, rest: seq<byte>, drop: nat)
    requires drop <= |grown|
    ensures grown[drop..] + rest == (grown + rest)[drop..]
  {
  }

  lemma NoMagicSuffix(t: seq<byte>, drop: nat)
    requires drop <= |t| && NoMagic(t)
    ensures NoMagic(t[drop..])
  {
    forall k: nat ensures !MagicAt(t[drop..], k) {
      MagicMoves(t, drop, k);
    }
  }

  lemma NoMagicIsShort(next: seq<byte>, rest: seq<byte>)
    requires NoMagic(next + rest) && MagicPrefix(next)
    ensures |next| < 4
  {
    if |next| >= 4 {
      assert (next + rest)[0..4] == next[..4];
      assert MagicAt(next + rest, 0);
    }
  }

  /** With no magic in sight nothing happens. */
  lemma {:induction false} SkipNoise(cap: Capacity, buffer: seq<byte>, x: seq<byte>)
    requires Waiting(cap, buffer) && |buffer| < 4 && NoMagic(buffer + x)
    ensures Events(cap, buffer, x) == []
    decreases |x|
  {
    if x != [] {
      var rest, next := x[1..], Resync(buffer + [x[0]]);
      assert buffer + x == buffer + [x[0]] + rest;
      DroppedHoldNoMagic(buffer, x[0], rest);
      NoMagicSuffix(buffer + x, |buffer| + 1 - |next|);
      NoMagicIsShort(next, rest);
      assert Push(cap, buffer, x[0]) == (next, []);
      SkipNoise(cap, next, rest);
    }
  }

  /** The magic occurs in `t`, and first at its very end. */
  ghost predicate EndsWithFirstMagic(t: seq<byte>)
  {
    |t| >= 4 && MagicAt(t, |t| - 4) && forall k: nat :: k < |t| - 4 ==> !MagicAt(t, k)
  }

  lemma FirstMagicMoves(t: seq<byte>, drop: nat)
    requires EndsWithFirstMagic(t) && drop <= |t| - 4
    ensures EndsWithFirstMagic(t[drop..])
  {
    MagicMoves(t, drop, |t| - 4 - drop);
    forall k: nat | k < |t| - drop - 4 ensures !MagicAt(t[drop..], k) {
      MagicMoves(t, drop, k);
      assert !MagicAt(t, drop + k);
    }
  }

  lemma MagicFirstIsAll(next: seq<byte>, rest: seq<byte>)
    requires EndsWithFirstMagic(next + rest) && MagicPrefix(next) && |next| >= 4
    ensures rest == [] && next == MAGIC
  {
    assert (next + rest)[0..4] == next[..4];
    assert MagicAt(next + rest, 0);
    assert next + rest == (next + rest)[0..4];
  }

  /** One byte on the way to the magic. */
  lemma TowardsMagic(cap: Capacity, buffer: seq<byte>, x: seq<byte>)
    requires Waiting(cap, buffer) && |buffer| < 4 && EndsWithFirstMagic(buffer + x)
    ensures x != []
    ensures var next := Resync(buffer + [x[0]]);
            && Push(cap, buffer, x[0]) == (next, []) && EndsWithFirstMagic(next + x[1..])
            && (|next| >= 4 ==> x[1..] == [] && next == MAGIC)
  {
    var t := buffer + x;
    var rest, next := x[1..], Resync(buffer + [x[0]]);
    var drop := |buffer| + 1 - |next|;
    assert t == buffer + [x[0]] + rest;
    DroppedHoldNoMagic(buffer, x[0], rest);
    assert drop <= |t| - 4;
    FirstMagicMoves(t, drop);
    assert next + rest == t[drop..];
    if |next| >= 4 {
      MagicFirstIsAll(next, rest);
    }
  }

  /** When the magic first appears, it is the buffer. */
  lemma {:induction false} ReachMagic(cap: Capacity, buffer: seq<byte>, x: seq<byte>)
    requires Waiting(cap, buffer) && |buffer| < 4 && EndsWithFirstMagic(buffer + x)
    ensures After(cap, buffer, x) == MAGIC && Events(cap, buffer, x) == []
    decreases |x|
  {
    TowardsMagic(cap, buffer, x);
    var next := Resync(buffer + [x[0]]);
    if |next| < 4 {
      ReachMagic(cap, next, x[1..]);
    }
  }

  // ---------------------------------------------------------------- the transport is the scan

  /** For every byte stream, wrapping lengths included, the transport is the device's scan. */
  lemma {:induction false} TransportIsDeviceScan(cap: Capacity, s: seq<byte>)
    ensures Events(cap, [], s) == DeviceScan(cap, s)
    decreases |s|
  {
    var i := FirstMagic(s);
    FirstMagicIsFirst(s);
    assert [] + s == s;
    if i == |s| {
      SkipNoise(cap, [], s);
    } else {
      var frame := s[i..];
      UpToMagic(cap, s, i);
      FrameReached(cap, frame);
      if |frame| >= HEADER_LEN {
        var n := ExpectedLen(frame);
        if n > cap {
          TransportIsDeviceScan(cap, frame[HEADER_LEN..]);
        } else if n == 0 {
          if |frame| > cap {
            TransportIsDeviceScan(cap, frame[cap + 1..]);
          }
        } else if |frame| >= Taken(frame) {
          TransportIsDeviceScan(cap, frame[Taken(frame)..]);
        }
      }
    }
  }

  lemma Wrapping(v: nat)
    requires v < WORD_SPAN
    ensures (HEADER_LEN + v) % SIZE_SPAN == HEADER_LEN + v <==> v < SIZE_SPAN - HEADER_LEN
    ensures v >= SIZE_SPAN - HEADER_LEN ==> (HEADER_LEN + v) % SIZE_SPAN == HEADER_LEN + v - SIZE_SPAN
  {
  }

  lemma LengthIsWord(cap: Capacity, frame: seq<byte>)
    requires |frame| >= HEADER_LEN
    ensures LeValue(frame[12..16]) < WORD_SPAN
    ensures ExpectedLen(frame) == FrameLen(frame) <==> LengthFits(frame)
    ensures !LengthFits(frame) ==> ExpectedLen(frame) < HEADER_LEN && FrameLen(frame) > cap
  {
    WordField(frame[12..16]);
    Wrapping(LeValue(frame[12..16]));
  }

  lemma {:induction false} FittingScans(cap: Capacity, s: seq<byte>)
    requires HeadersFit(cap, s)
    ensures DeviceScan(cap, s) == Scan(cap, s)
    decreases |s|
  {
    var i := FirstMagic(s);
    if |s| >= i + HEADER_LEN {
      var frame := s[i..];
      var n := FrameLen(frame);
      LengthIsWord(cap, frame);
      if n > cap {
        FittingScans(cap, frame[HEADER_LEN..]);
      } else if |frame| >= n {
        FittingScans(cap, frame[n..]);
      }
    }
  }

  /** Where no header's length wraps, the transport does what the reference scan says. */
  lemma TransportIsScan(cap: Capacity, s: seq<byte>)
    requires HeadersFit(cap, s)
    ensures Events(cap, [], s) == Scan(cap, s)
  {
    TransportIsDeviceScan(cap, s);
    FittingScans(cap, s);
  }

  /** What the reference scan asks of the byte that completes a header. */
  function HeaderStep(cap: Capacity, header: seq<byte>): (seq<byte>, seq<Event>)
    requires |header| == HEADER_LEN
  {
    if FrameLen(header) > cap then ([], [Refuse])
    else if FrameLen(header) > HEADER_LEN then (header, [])
    else ([], [Deliver(header)])
  }

  /** A byte that completes a header does that exactly when the length fits. */
  lemma HeaderStepExact(cap: Capacity, buffer: seq<byte>, b: byte)
    requires Waiting(cap, buffer) && |buffer| == HEADER_LEN - 1
    ensures Push(cap, buffer, b) == HeaderStep(cap, buffer + [b]) <==> LengthFits(buffer + [b])
  {
    LengthIsWord(cap, buffer + [b]);
    HeaderMeansNoShift(cap, buffer, b);
  }

  lemma HeaderFirst(header: seq<byte>, x: seq<byte>)
    requires |header| == HEADER_LEN && header[..4] == MAGIC
    ensures var s := header + x;
            && FirstMagic(s) == 0 && s[0..] == s && s[..HEADER_LEN] == header && s[HEADER_LEN..] == x
            && s[12..16] == header[12..16]
  {
    var s := header + x;
    assert s[0..4] == header[..4];
    assert MagicAt(s, 0);
  }

  lemma StallScan(cap: Capacity, s: seq<byte>)
    requires FirstMagic(s) == 0 && |s| >= HEADER_LEN && s[0..] == s && ExpectedLen(s) == 0
    ensures DeviceScan(cap, s) == if |s| <= cap then [] else [Refuse] + DeviceScan(cap, s[cap + 1..])
  {
  }

  /** The one length that wraps to zero: nothing comes out until the buffer is full, and it is lost whole. */
  lemma WrappedLengthStalls(cap: Capacity, header: seq<byte>, x: seq<byte>)
    requires |header| == HEADER_LEN && header[..4] == MAGIC && LeValue(header[12..16]) == 0xFFFF_FFEC
    ensures |header + x| <= cap ==> Events(cap, [], header + x) == []
    ensures |header + x| > cap ==>
              Events(cap, [], header + x) == [Refuse] + Events(cap, [], (header + x)[cap + 1..])
  {
    var s := header + x;
    HeaderFirst(header, x);
    Wrapping(LeValue(header[12..16]));
    StallScan(cap, s);
    TransportIsDeviceScan(cap, s);
    if |s| > cap {
      TransportIsDeviceScan(cap, s[cap + 1..]);
    }
  }

  lemma ShortScan(cap: Capacity, s: seq<byte>)
    requires FirstMagic(s) == 0 && |s| >= HEADER_LEN && s[0..] == s
    requires 0 < ExpectedLen(s) < HEADER_LEN && FrameLen(s) > cap
    ensures DeviceScan(cap, s) == [Deliver(s[..HEADER_LEN])] + DeviceScan(cap, s[HEADER_LEN..])
    ensures Scan(cap, s) == [Refuse] + Scan(cap, s[HEADER_LEN..])
  {
  }

  /** The larger lengths wrap to less than a header: the header is handed over where it should be refused. */
  lemma WrappedLengthDelivers(cap: Capacity, header: seq<byte>, x: seq<byte>)
    requires |header| == HEADER_LEN && header[..4] == MAGIC && LeValue(header[12..16]) > 0xFFFF_FFEC
    ensures Events(cap, [], header + x) == [Deliver(header)] + Events(cap, [], x)
    ensures Scan(cap, header + x) == [Refuse] + Scan(cap, x)
  {
    var s := header + x;
    HeaderFirst(header, x);
    LengthIsWord(cap, header);
    Wrapping(LeValue(header[12..16]));
    ShortScan(cap, s);
    TransportIsDeviceScan(cap, s);
    TransportIsDeviceScan(cap, x);
  }

  lemma UpToMagic(cap: Capacity, s: seq<byte>, i: nat)
    requires MagicAt(s, i) && forall k: nat :: k < i ==> !MagicAt(s, k)
    ensures MagicAt(s[i..], 0) && Events(cap, [], s) == Events(cap, MAGIC, s[i..][4..])
  {
    MagicReached(cap, s, i);
    StreamConcat(cap, [], s[..i + 4], s[i + 4..]);
    assert s == s[..i + 4] + s[i + 4..] && s[i..][4..] == s[i + 4..] && s[i..][0..4] == s[i..i + 4];
  }

  lemma MagicReached(cap: Capacity, s: seq<byte>, i: nat)
    requires MagicAt(s, i) && forall k: nat :: k < i ==> !MagicAt(s, k)
    ensures After(cap, [], s[..i + 4]) == MAGIC && Events(cap, [], s[..i + 4]) == []
  {
    var t := s[..i + 4];
    assert [] + t == t;
    assert t[i..i + 4] == s[i..i + 4];
    forall k: nat | k < i ensures !MagicAt(t, k) {
      assert !MagicAt(s, k);
      assert k + 4 <= |t| ==> t[k..k + 4] == s[k..k + 4];
    }
    ReachMagic(cap, [], t);
  }

  /** How many bytes from the magic on the device takes before something happens. */
  function Reach(cap: Capacity, frame: seq<byte>): (m: nat)
    requires |frame| >= HEADER_LEN
    ensures m >= HEADER_LEN
  {
    if ExpectedLen(frame) > cap then HEADER_LEN
    else if ExpectedLen(frame) == 0 then cap + 1
    else Taken(frame)
  }

  /** What the transport does once it has seen the magic that begins `frame`. */
  lemma FrameReached(cap: Capacity, frame: seq<byte>)
    requires MagicAt(frame, 0)
    ensures |frame| < HEADER_LEN ==> Events(cap, MAGIC, frame[4..]) == []
    ensures |frame| >= HEADER_LEN ==>
              var m := Reach(cap, frame);
              Events(cap, MAGIC, frame[4..]) ==
              if |frame| < m then [] else Completed(cap, frame[..m]) + Events(cap, [], frame[m..])
    ensures |frame| >= HEADER_LEN && |frame| >= Reach(cap, frame) ==>
              ExpectedLen(frame[..Reach(cap, frame)]) == ExpectedLen(frame)
  {
    assert frame == MAGIC + frame[4..];
    if |frame| < HEADER_LEN {
      Grow(cap, MAGIC, frame[4..]);
    } else {
      var m := Reach(cap, frame);
      if |frame| < m {
        Grow(cap, MAGIC, frame[4..]);
      } else {
        HeadTaken(cap, frame, m);
      }
    }
  }

  lemma HeadTaken(cap: Capacity, frame: seq<byte>, m: nat)
    requires MagicAt(frame, 0) && HEADER_LEN <= |frame| && m == Reach(cap, frame) <= |frame|
    ensures Events(cap, MAGIC, frame[4..]) == Completed(cap, frame[..m]) + Events(cap, [], frame[m..])
    ensures ExpectedLen(frame[..m]) == ExpectedLen(frame)
  {
    var head := frame[..m];
    assert head[12..16] == frame[12..16] && head[..4] == frame[..4];
    assert frame[4..] == head[4..] + frame[m..];
    AllButLastWaits(cap, head);
    LastByte(cap, head);
    StreamConcat(cap, MAGIC, head[4..], frame[m..]);
  }

  // ---------------------------------------------------------------- frames with noise between them

  predicate WellFormed(cap: Capacity, f: seq<byte>)
  {
    |f| >= HEADER_LEN && f[..4] == MAGIC && FrameLen(f) == |f| <= cap
  }

  /** `gaps[0] frames[0] gaps[1] ... frames[n - 1] gaps[n]` */
  function Interleave(gaps: seq<seq<byte>>, frames: seq<seq<byte>>): seq<byte>
    requires |gaps| == |frames| + 1
    decreases |frames|
  {
    if frames == [] then gaps[0] else gaps[0] + (frames[0] + Interleave(gaps[1..], frames[1..]))
  }

  function Deliveries(frames: seq<seq<byte>>): (events: seq<Event>)
    ensures |events| == |frames|
  {
    seq(|frames|, i requires 0 <= i < |frames| => Deliver(frames[i]))
  }

  /** No byte of the magic but the first equals its first byte, so noise cannot lend it a beginning. */
  lemma NoMagicAcross(gap: seq<byte>, f: seq<byte>, k: nat)
    requires NoMagic(gap) && |f| >= 4 && f[..4] == MAGIC && k < |gap|
    ensures !MagicAt(gap + f, k)
  {
    var t := gap + f;
    if k + 4 <= |gap| {
      assert t[k..k + 4] == gap[k..k + 4];
      assert !MagicAt(gap, k);
    } else {
      assert t[k..k + 4][|gap| - k] == f[..4][0] == MAGIC[0];
      assert MAGIC[1] != MAGIC[0] && MAGIC[2] != MAGIC[0] && MAGIC[3] != MAGIC[0];
    }
  }

  /** Noise, then a frame: the scan finds the frame and goes on right after it. */
  lemma NoiseThenFrame(cap: Capacity, g: seq<byte>, f: seq<byte>, rest: seq<byte>)
    requires NoMagic(g) && WellFormed(cap, f)
    ensures Scan(cap, g + (f + rest)) == [Deliver(f)] + Scan(cap, rest)
    ensures HeadersFit(cap, g + (f + rest)) == HeadersFit(cap, rest)
  {
    var s := g + (f + rest);
    assert (f + rest)[..4] == f[..4];
    FirstMagicIsFirst(s);
    var i := FirstMagic(s);
    if i < |g| {
      NoMagicAcross(g, f + rest, i);
      assert false;
    }
    assert s[|g|..|g| + 4] == f[..4];
    assert MagicAt(s, |g|);
    assert i == |g| && s[i..] == f + rest;
    assert (f + rest)[12..16] == f[12..16];
    assert (f + rest)[..|f|] == f && (f + rest)[|f|..] == rest;
  }

  /** The scan finds each frame once, in order, and no length wraps. */
  lemma {:induction false} FramesScanned(cap: Capacity, gaps: seq<seq<byte>>, frames: seq<seq<byte>>)
    requires |gaps| == |frames| + 1
    requires forall i :: 0 <= i < |gaps| ==> NoMagic(gaps[i])
    requires forall i :: 0 <= i < |frames| ==> WellFormed(cap, frames[i])
    ensures Scan(cap, Interleave(gaps, frames)) == Deliveries(frames)
    ensures HeadersFit(cap, Interleave(gaps, frames))
    decreases |frames|
  {
    if frames == [] {
      FirstMagicIsFirst(gaps[0]);
    } else {
      NoiseThenFrame(cap, gaps[0], frames[0], Interleave(gaps[1..], frames[1..]));
      FramesScanned(cap, gaps[1..], frames[1..]);
      assert Deliveries(frames) == [Deliver(frames[0])] + Deliveries(frames[1..]);
    }
  }

  /** Each frame is handed over exactly once, in order, with exactly its bytes. */
  lemma FramesRecovered(cap: Capacity, gaps: seq<seq<byte>>, frames: seq<seq<byte>>)
    requires |gaps| == |frames| + 1
    requires forall i :: 0 <= i < |gaps| ==> NoMagic(gaps[i])
    requires forall i :: 0 <= i < |frames| ==> WellFormed(cap, frames[i])
    ensures Scan(cap, Interleave(gaps, frames)) == Deliveries(frames)
    ensures HeadersFit(cap, Interleave(gaps, frames)) && Events(cap, [], Interleave(gaps, frames)) == Deliveries(frames)
  {
    FramesScanned(cap, gaps, frames);
    TransportIsScan(cap, Interleave(gaps, frames));
  }

  function Wires(sent: seq<Frame>): (frames: seq<seq<byte>>)
    ensures |frames| == |sent|
  {
    seq(|sent|, i requires 0 <= i < |sent| => Wire(sent[i], 0))
  }

  /**
   * End to end: whatever noise without the magic surrounds them, the frames a host encodes are the
   * frames the firmware hands over, and each decodes to what was sent.
   */
  lemma HostToFirmware(cap: Capacity, gaps: seq<seq<byte>>, sent: seq<Frame>)
    requires |gaps| == |sent| + 1
    requires forall i :: 0 <= i < |gaps| ==> NoMagic(gaps[i])
    requires forall i :: 0 <= i < |sent| ==> Sendable(sent[i]) && HEADER_LEN + |sent[i].payload| <= cap
    ensures var events := Events(cap, [], Interleave(gaps, Wires(sent)));
            && |events| == |sent|
            && forall i :: 0 <= i < |sent| ==> events[i].Deliver? && Decode(events[i].frame) == Accepted(sent[i])
  {
    var frames := Wires(sent);
    forall i | 0 <= i < |sent| ensures WellFormed(cap, frames[i]) && Decode(frames[i]) == Accepted(sent[i]) {
      var f := sent[i];
      WireParts(f, 0);
      SpanOfWord();
      LeValueBytes(|f.payload|, 4);
      DecodeWire(f, 0);
    }
    FramesRecovered(cap, gaps, frames);
  }
}
