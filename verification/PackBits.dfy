/**
 * The run-length format of BinBook planes: the host tool that writes it, the firmware reader that
 * streams it from a file in chunks, the round trip between the two, and the exact worst-case size.
 *
 * A control byte below 128 announces that many plus one literal bytes; a control byte of 128 or more
 * announces one byte that stands for (control - 128) + 1 copies.
 */
module PackBits {
  import opened Bytes

  const LONGEST := 128

  // ---------------------------------------------------------------- the encoder

  /** The length of the run at the start of `s`, of which `n` bytes are known to match. */
  function RunLen(s: seq<byte>, n: nat): (r: nat)
    requires n <= |s| && n <= LONGEST
    ensures n <= r <= |s| && r <= LONGEST
    decreases |s| - n
  {
    if n < |s| && n < LONGEST && s[n] == s[0] then RunLen(s, n + 1) else n
  }

  /** A run is as long as it can be: the bytes are equal, and it is full, or at the end, or another byte follows. */
  lemma {:induction false} RunIsMaximal(s: seq<byte>, n: nat)
    requires 1 <= n <= |s| && n <= 128 && forall j :: 0 <= j < n ==> s[j] == s[0]
    ensures var r := RunLen(s, n);
            && (forall j :: 0 <= j < r ==> s[j] == s[0])
            && (r == 128 || r == |s| || s[r] != s[0])
    decreases |s| - n
  {
    if n < |s| && n < LONGEST && s[n] == s[0] {
      RunIsMaximal(s, n + 1);
    }
  }

  /** Where the literal block at the start of `s` ends: at the end, before a pair, or when full. */
  function LiteralEnd(s: seq<byte>, e: nat): (r: nat)
    requires e <= |s| && e < LONGEST
    ensures e <= r <= |s| && r <= LONGEST
    decreases |s| - e
  {
    if e == |s| then e
    else if e + 1 < |s| && s[e] == s[e + 1] then e
    else if e + 1 >= LONGEST then e + 1
    else LiteralEnd(s, e + 1)
  }

  function RunControl(n: nat): byte
    requires 2 <= n <= LONGEST
  {
    0x80 | ((n - 1) as bv8)
  }

  function LiteralControl(n: nat): byte
    requires 1 <= n <= LONGEST
  {
    (n - 1) as bv8
  }

  function RleEncode(raw: seq<byte>): seq<byte>
    decreases |raw|
  {
    if raw == [] then []
    else
      var run := RunLen(raw, 1);
      if run >= 2 then [RunControl(run), raw[0]] + RleEncode(raw[run..])
      else
        var e := LiteralEnd(raw, 1);
        [LiteralControl(e)] + raw[..e] + RleEncode(raw[e..])
  }

  /** The first inner loop: advance over equal bytes, at most 128 of them. */
  method SkipRun(raw: seq<byte>, runStart: nat) returns (i: nat)
    requires runStart < |raw|
    ensures i == runStart + RunLen(raw[runStart..], 1)
  {
    i := runStart;
    ghost var s := raw[runStart..];
    while i < |raw| && raw[i] == raw[runStart] && i - runStart < LONGEST
      invariant runStart <= i <= |raw| && i - runStart <= LONGEST
      invariant i == runStart || RunLen(s, i - runStart) == RunLen(s, 1)
    {
      i := i + 1;
    }
  }

  /** The second inner loop: advance until a pair begins or the block is full. */
  method SkipLiterals(raw: seq<byte>, litStart: nat) returns (i: nat)
    requires litStart < |raw|
    ensures i == litStart + LiteralEnd(raw[litStart..], 1)
  {
    i := litStart + 1;
    ghost var s := raw[litStart..];
    while i < |raw|
      invariant litStart < i <= |raw| && i - litStart < LONGEST
      invariant LiteralEnd(s, i - litStart) == LiteralEnd(s, 1)
    {
      if i + 1 < |raw| && raw[i] == raw[i + 1] {
        break;
      }
      i := i + 1;
      if i - litStart >= LONGEST {
        break;
      }
    }
  }

  lemma AppendBlock(done: seq<byte>, block: seq<byte>, rest: seq<byte>)
    ensures (done + block) + rest == done + (block + rest)
  {
  }

  lemma FirstBlock(s: seq<byte>)
    requires s != []
    ensures var n := RunLen(s, 1);
            if n >= 2 then RleEncode(s) == [RunControl(n), s[0]] + RleEncode(s[n..])
            else var e := LiteralEnd(s, 1); RleEncode(s) == ([LiteralControl(e)] + s[..e]) + RleEncode(s[e..])
  {
  }

  method Encode(raw: seq<byte>) returns (encoded: seq<byte>)
    ensures encoded == RleEncode(raw)
  {
    encoded := [];
    var i := 0;
    assert raw[0..] == raw;
    while i < |raw|
      invariant i <= |raw|
      invariant encoded + RleEncode(raw[i..]) == RleEncode(raw)
    {
      var runStart := i;
      ghost var s := raw[runStart..];
      i := SkipRun(raw, runStart);
      var runLen := i - runStart;
      var block;
      if runLen >= 2 {
        block := [RunControl(runLen), raw[runStart]];
      } else {
        i := SkipLiterals(raw, runStart);
        assert s[..i - runStart] == raw[runStart..i];
        block := [LiteralControl(i - runStart)] + raw[runStart..i];
      }
      assert s[i - runStart..] == raw[i..];
      FirstBlock(s);
      assert RleEncode(s) == block + RleEncode(raw[i..]);
      AppendBlock(encoded, block, RleEncode(raw[i..]));
      encoded := encoded + block;
    }
    assert raw[|raw|..] == [];
    assert encoded + [] == encoded;
  }

  // ---------------------------------------------------------------- the stream a reader sees

  /** Pending copies, pending literals, and the compressed bytes not yet taken. */
  datatype Stream = Stream(repeatValue: byte, repeatLeft: nat, literalLeft: nat, rest: seq<byte>)

  datatype Pulled = Pulled(byte: byte, next: Stream) | Failed(next: Stream)

  predicate IsLiteral(control: byte)
  {
    control <= 127
  }

  /** How many literal bytes the control byte announces beyond the first. */
  function MoreLiterals(control: byte): nat
  {
    control as int
  }

  /** How many copies the control byte announces beyond the first. */
  function MoreCopies(control: byte): nat
  {
    (control & 0x7f) as int
  }

  function TakeLiteral(s: Stream): Pulled
    requires s.repeatLeft == 0
  {
    if s.rest == [] then Failed(s) else Pulled(s.rest[0], s.(rest := s.rest[1..]))
  }

  /** One byte of output. */
  function Next(s: Stream): Pulled
  {
    if s.repeatLeft > 0 then Pulled(s.repeatValue, s.(repeatLeft := s.repeatLeft - 1))
    else if s.literalLeft > 0 then TakeLiteral(s.(literalLeft := s.literalLeft - 1))
    else if s.rest == [] then Failed(s)
    else
      var control, rest := s.rest[0], s.rest[1..];
      if IsLiteral(control) then TakeLiteral(s.(literalLeft := MoreLiterals(control), rest := rest))
      else if rest == [] then Failed(s.(rest := rest))
      else Pulled(rest[0], Stream(rest[0], MoreCopies(control), 0, rest[1..]))
  }

  /** Everything that can be pulled before the first failure. */
  function Output(s: Stream): seq<byte>
    decreases |s.rest|, s.repeatLeft
  {
    match Next(s)
    case Failed(_) => []
    case Pulled(b, next) => [b] + Output(next)
  }

  function Start(compressed: seq<byte>): Stream
  {
    Stream(0, 0, 0, compressed)
  }

  // ---------------------------------------------------------------- the streaming reader

  const EIO := 5
  const CHUNK := 512

  function Clip(s: seq<byte>, n: nat): seq<byte>
  {
    if n <= |s| then s[..n] else s
  }

  lemma ClipTail(s: seq<byte>, n: nat)
    requires s != [] && n > 0
    ensures Clip(s, n) != [] && Clip(s, n)[0] == s[0] && Clip(s, n)[1..] == Clip(s[1..], n - 1)
  {
  }

  /** A file opened at the start of a plane. `grant` is what the file system answers to a read. */
  class PlaneReader {
    const contents: seq<byte>
    const chunk: array<byte>
    var position: nat
    var compressedLeft: nat
    var repeatValue: byte
    var repeatRemaining: nat
    var literalRemaining: nat
    var chunkLen: nat
    var chunkPos: nat

    ghost predicate Valid()
      reads this, chunk
    {
      && chunk.Length == CHUNK
      && position <= |contents|
      && chunkPos <= chunkLen <= CHUNK
      && chunkLen - chunkPos <= compressedLeft
      && (repeatRemaining > 0 ==> literalRemaining == 0)
    }

    ghost function Available(): seq<byte>
      requires Valid()
      reads this, chunk
    {
      chunk[chunkPos..chunkLen] + contents[position..]
    }

    /** The compressed bytes still to be taken: what the plane declares, as far as the file goes. */
    ghost function Rest(): seq<byte>
      requires Valid()
      reads this, chunk
    {
      Clip(Available(), compressedLeft)
    }

    ghost function State(): Stream
      requires Valid()
      reads this, chunk
    {
      Stream(repeatValue, repeatRemaining, literalRemaining, Rest())
    }

    constructor (contents: seq<byte>, planeStart: nat, planeSize: nat)
      requires planeStart <= |contents|
      ensures Valid() && fresh(chunk)
      ensures State() == Start(Clip(contents[planeStart..], planeSize))
    {
      this.contents := contents;
      chunk := new byte[CHUNK](_ => 0);
      position, compressedLeft := planeStart, planeSize;
      repeatValue, repeatRemaining, literalRemaining := 0, 0, 0;
      chunkLen, chunkPos := 0, 0;
      new;
      assert chunk[0..0] + contents[planeStart..] == contents[planeStart..];
    }

    /** The file system fills at most `toRead` bytes of the chunk; zero is end of file. */
    method FsRead(toRead: nat, grant: int) returns (n: int)
      requires Valid() && toRead <= CHUNK
      modifies this`position, chunk
      ensures Valid()
      ensures n <= toRead
      ensures grant <= 0 ==> n == grant
      ensures grant > 0 ==> 0 <= n && (n == 0 ==> toRead == 0 || old(position) == |contents|)
      ensures position == old(position) + (if n > 0 then n else 0) <= |contents|
      ensures n > 0 ==> chunk[..n] == contents[old(position)..position]
      ensures n <= 0 ==> chunk[..] == old(chunk[..])
    {
      if grant <= 0 {
        return grant;
      }
      n := if grant < toRead then grant else toRead;
      if |contents| - position < n {
        n := |contents| - position;
      }
      forall k | 0 <= k < n {
        chunk[k] := contents[position + k];
      }
      position := position + n;
    }

    /** Take the next byte of a chunk that is not used up. */
    method TakeFromChunk() returns (out: byte)
      requires Valid() && chunkPos < chunkLen
      modifies this`compressedLeft, this`chunkPos
      ensures Valid()
      ensures old(Rest()) != [] && out == old(Rest())[0] && Rest() == old(Rest())[1..]
    {
      ClipTail(Available(), compressedLeft);
      ghost var before := Available();
      out := chunk[chunkPos];
      chunkPos := chunkPos + 1;
      compressedLeft := compressedLeft - 1;
      assert Available() == before[1..];
    }

    /** Replace a used-up chunk by the next bytes of the file. */
    method Refill(grant: int) returns (ret: int)
      requires Valid() && chunkPos == chunkLen && compressedLeft > 0
      modifies this`position, this`chunkLen, this`chunkPos, chunk
      ensures Valid() && ret <= 0
      ensures Available() == old(Available())
      ensures ret == 0 ==> chunkPos < chunkLen
      ensures ret != 0 ==> chunkPos == chunkLen
      ensures grant > 0 && ret != 0 ==> old(Available()) == []
    {
      ghost var ahead := contents[position..];
      assert Available() == ahead;
      var toRead := if compressedLeft > CHUNK then CHUNK else compressedLeft;
      var read := FsRead(toRead, grant);
      if read <= 0 {
        return if read == 0 then -EIO else read;
      }
      chunkLen := read;
      chunkPos := 0;
      ret := 0;
    }

    /** One compressed byte, refilling the chunk when it is used up. */
    method ReadRaw(grant: int) returns (ret: int, out: byte)
      requires Valid()
      modifies this`position, this`compressedLeft, this`chunkLen, this`chunkPos, chunk
      ensures Valid()
      ensures ret <= 0
      ensures ret == 0 ==> old(Rest()) != [] && out == old(Rest())[0] && Rest() == old(Rest())[1..]
      ensures ret != 0 ==> Rest() == old(Rest())
      ensures grant > 0 ==> (ret == 0 <==> old(Rest()) != [])
    {
      ret, out := 0, 0;
      if compressedLeft == 0 {
        return -EIO, out;
      }
      if chunkPos < chunkLen {
        out := TakeFromChunk();
        return 0, out;
      }
      ret := Refill(grant);
      if ret != 0 {
        return;
      }
      out := TakeFromChunk();
    }

    /** One byte of the plane; at most two compressed bytes are taken for it. */
    method NextByte(grant0: int, grant1: int) returns (ret: int, out: byte)
      requires Valid()
      modifies this, chunk
      ensures Valid()
      ensures ret <= 0
      ensures ret == 0 ==> Next(old(State())) == Pulled(out, State())
      ensures grant0 > 0 && grant1 > 0 && ret != 0 ==> Next(old(State())) == Failed(State())
    {
      if repeatRemaining > 0 {
        repeatRemaining := repeatRemaining - 1;
        return 0, repeatValue;
      }
      if literalRemaining > 0 {
        literalRemaining := literalRemaining - 1;
        ret, out := ReadRaw(grant0);
        return;
      }
      var control;
      ret, control := ReadRaw(grant0);
      if ret != 0 {
        return ret, control;
      }
      if IsLiteral(control) {
        literalRemaining := MoreLiterals(control) + 1;
        literalRemaining := literalRemaining - 1;
        ret, out := ReadRaw(grant1);
        return;
      }
      ret, out := ReadRaw(grant1);
      if ret != 0 {
        return;
      }
      repeatValue := out;
      repeatRemaining := MoreCopies(control);
      out := repeatValue;
    }

    /** Pull a plane of `count` bytes, stopping at the first failure. */
    method ReadPlane(count: nat, grants: nat -> int) returns (ret: int, plane: seq<byte>)
      requires Valid()
      modifies this, chunk
      ensures Valid()
      ensures ret == 0 ==> |plane| == count && plane <= Output(old(State()))
      ensures (forall k :: grants(k) > 0) ==> (ret == 0 <==> count <= |Output(old(State()))|)
    {
      plane := [];
      ret := 0;
      while |plane| < count
        invariant Valid() && |plane| <= count
        invariant Output(old(State())) == plane + Output(State())
      {
        var b;
        ghost var s := State();
        ret, b := NextByte(grants(2 * |plane|), grants(2 * |plane| + 1));
        if ret != 0 {
          return;
        }
        assert Output(s) == [b] + Output(State());
        ghost var before := plane;
        plane := plane + [b];
        AppendBlock(before, [b], Output(State()));
      }
    }
  }

  // ---------------------------------------------------------------- round trip

  function Copies(b: byte, n: nat): (s: seq<byte>)
    ensures |s| == n
  {
    seq(n, _ => b)
  }

  lemma ControlsRead(n: nat)
    requires 1 <= n <= LONGEST
    ensures IsLiteral(LiteralControl(n)) && MoreLiterals(LiteralControl(n)) == n - 1
    ensures n >= 2 ==> !IsLiteral(RunControl(n)) && MoreCopies(RunControl(n)) == n - 1
  {
    LowSeven((n - 1) as bv8);
  }

  lemma LowSeven(b: byte)
    requires b < 128
    ensures b as int < 128 && (0x80 | b) & 0x7f == b && 0x80 | b > 127
  {
  }

  predicate Exhausted(s: Stream)
  {
    s.repeatLeft == 0 && s.literalLeft == 0 && s.rest == []
  }

  /** The first failure comes with nothing pending, so that every later pull fails as well. */
  predicate EndsClean(s: Stream)
    decreases |s.rest|, s.repeatLeft
  {
    match Next(s)
    case Failed(_) => Exhausted(s)
    case Pulled(_, next) => EndsClean(next)
  }

  /** A value nobody will repeat any more does not matter. */
  lemma {:induction false} ValueForgotten(a: byte, b: byte, literals: nat, rest: seq<byte>)
    ensures Output(Stream(a, 0, literals, rest)) == Output(Stream(b, 0, literals, rest))
    ensures EndsClean(Stream(a, 0, literals, rest)) == EndsClean(Stream(b, 0, literals, rest))
    decreases |rest|
  {
    if literals > 0 && rest != [] {
      ValueForgotten(a, b, literals - 1, rest[1..]);
    } else if literals == 0 && |rest| >= 2 && IsLiteral(rest[0]) {
      assert rest[1..][1..] == rest[2..];
      ValueForgotten(a, b, MoreLiterals(rest[0]), rest[2..]);
    }
  }

  lemma {:induction false} LiteralsComeOut(v: byte, literal: seq<byte>, rest: seq<byte>)
    ensures Output(Stream(v, 0, |literal|, literal + rest)) == literal + Output(Start(rest))
    ensures EndsClean(Stream(v, 0, |literal|, literal + rest)) == EndsClean(Start(rest))
    decreases |literal|
  {
    var all := literal + rest;
    if literal == [] {
      assert all == rest;
      assert literal + Output(Start(rest)) == Output(Start(rest));
      ValueForgotten(v, 0, 0, rest);
    } else {
      assert all[1..] == literal[1..] + rest;
      LiteralsComeOut(v, literal[1..], rest);
      assert [literal[0]] + (literal[1..] + Output(Start(rest))) == literal + Output(Start(rest));
    }
  }

  lemma {:induction false} CopiesComeOut(v: byte, n: nat, rest: seq<byte>)
    ensures Output(Stream(v, n, 0, rest)) == Copies(v, n) + Output(Start(rest))
    ensures EndsClean(Stream(v, n, 0, rest)) == EndsClean(Start(rest))
    decreases n
  {
    if n == 0 {
      ValueForgotten(v, 0, 0, rest);
      assert Copies(v, 0) + Output(Start(rest)) == Output(Start(rest));
    } else {
      CopiesComeOut(v, n - 1, rest);
      assert Copies(v, n) == [v] + Copies(v, n - 1);
      assert [v] + (Copies(v, n - 1) + Output(Start(rest))) == Copies(v, n) + Output(Start(rest));
    }
  }

  lemma PulledFirst(s: Stream, b: byte, next: Stream, tail: seq<byte>, rest: seq<byte>)
    requires Next(s) == Pulled(b, next) && Output(next) == tail + rest
    ensures Output(s) == ([b] + tail) + rest && EndsClean(s) == EndsClean(next)
  {
    assert [b] + (tail + rest) == ([b] + tail) + rest;
  }

  /** A literal block, seen by the reader. */
  lemma LiteralBlock(control: byte, literal: seq<byte>, rest: seq<byte>)
    requires literal != [] && IsLiteral(control) && MoreLiterals(control) == |literal| - 1
    ensures Output(Start([control] + literal + rest)) == literal + Output(Start(rest))
    ensures EndsClean(Start([control] + literal + rest)) == EndsClean(Start(rest))
  {
    var all := [control] + literal + rest;
    var next := Stream(0, 0, |literal| - 1, literal[1..] + rest);
    assert all[0] == control && all[1..] == literal + rest;
    assert (literal + rest)[0] == literal[0] && (literal + rest)[1..] == literal[1..] + rest;
    assert Next(Start(all)) == Pulled(literal[0], next);
    LiteralsComeOut(0, literal[1..], rest);
    PulledFirst(Start(all), literal[0], next, literal[1..], Output(Start(rest)));
    assert [literal[0]] + literal[1..] == literal;
  }

  /** A run block, seen by the reader. */
  lemma RunBlock(control: byte, b: byte, n: nat, rest: seq<byte>)
    requires n >= 1 && !IsLiteral(control) && MoreCopies(control) == n - 1
    ensures Output(Start([control, b] + rest)) == Copies(b, n) + Output(Start(rest))
    ensures EndsClean(Start([control, b] + rest)) == EndsClean(Start(rest))
  {
    var all := [control, b] + rest;
    assert all[0] == control && all[1..] == [b] + rest;
    assert ([b] + rest)[0] == b && ([b] + rest)[1..] == rest;
    assert Next(Start(all)) == Pulled(b, Stream(b, n - 1, 0, rest));
    CopiesComeOut(b, n - 1, rest);
    PulledFirst(Start(all), b, Stream(b, n - 1, 0, rest), Copies(b, n - 1), Output(Start(rest)));
    assert Copies(b, n) == [b] + Copies(b, n - 1);
  }

  lemma {:induction false} RunMatches(s: seq<byte>, n: nat)
    requires n <= |s| && n <= LONGEST && s != []
    requires forall j :: 0 <= j < n ==> s[j] == s[0]
    ensures s[..RunLen(s, n)] == Copies(s[0], RunLen(s, n))
    decreases |s| - n
  {
    if n < |s| && n < LONGEST && s[n] == s[0] {
      RunMatches(s, n + 1);
    }
  }

  lemma RunStep(raw: seq<byte>, n: nat, rest: seq<byte>)
    requires 2 <= n <= |raw| && n <= LONGEST && raw[..n] == Copies(raw[0], n)
    requires Output(Start(rest)) == raw[n..] && EndsClean(Start(rest))
    ensures Output(Start([RunControl(n), raw[0]] + rest)) == raw
    ensures EndsClean(Start([RunControl(n), raw[0]] + rest))
  {
    ControlsRead(n);
    RunBlock(RunControl(n), raw[0], n, rest);
    assert raw[..n] + raw[n..] == raw;
  }

  lemma LiteralStep(raw: seq<byte>, n: nat, rest: seq<byte>)
    requires 1 <= n <= |raw| && n <= LONGEST
    requires Output(Start(rest)) == raw[n..] && EndsClean(Start(rest))
    ensures Output(Start([LiteralControl(n)] + raw[..n] + rest)) == raw
    ensures EndsClean(Start([LiteralControl(n)] + raw[..n] + rest))
  {
    ControlsRead(n);
    LiteralBlock(LiteralControl(n), raw[..n], rest);
    assert raw[..n] + raw[n..] == raw;
  }

  /** What the host compresses, the reader gives back, and then it fails for good. */
  lemma {:induction false} RoundTrip(raw: seq<byte>)
    ensures Output(Start(RleEncode(raw))) == raw
    ensures EndsClean(Start(RleEncode(raw)))
    decreases |raw|
  {
    if raw != [] {
      var run := RunLen(raw, 1);
      if run >= 2 {
        RunMatches(raw, 1);
        RoundTrip(raw[run..]);
        RunStep(raw, run, RleEncode(raw[run..]));
      } else {
        var e := LiteralEnd(raw, 1);
        RoundTrip(raw[e..]);
        LiteralStep(raw, e, RleEncode(raw[e..]));
      }
    }
  }

  /**
   * Through the object: reading a plane written by the host gives the raw bytes back, whatever positive
   * amounts the file system returns, and asking for one byte more fails.
   */
  method HostPlaneIsRead(raw: seq<byte>, before: seq<byte>, after: seq<byte>, extra: nat, grants: nat -> int)
    returns (ret: int, plane: seq<byte>)
    requires forall k :: grants(k) > 0
    ensures ret == 0 <==> extra == 0
    ensures ret == 0 ==> plane == raw
  {
    var encoded := Encode(raw);
    RoundTrip(raw);
    var contents := before + encoded + after;
    assert contents[|before|..] == encoded + after;
    assert Clip(encoded + after, |encoded|) == encoded;
    var reader := new PlaneReader(contents, |before|, |encoded|);
    ret, plane := reader.ReadPlane(|raw| + extra, grants);
  }

  // ---------------------------------------------------------------- worst-case size

  /** A short literal block is the last one, or a run of at least two follows it; it holds no pair itself. */
  lemma {:induction false} LiteralStops(s: seq<byte>, e: nat)
    requires e <= |s| && e < LONGEST
    ensures var r := LiteralEnd(s, e); r == |s| || r == 128 || (r + 1 < |s| && s[r] == s[r + 1])
    ensures forall k :: e <= k < LiteralEnd(s, e) && k + 1 < |s| ==> s[k] != s[k + 1]
    decreases |s| - e
  {
    if e < |s| && !(e + 1 < |s| && s[e] == s[e + 1]) && e + 1 < LONGEST {
      LiteralStops(s, e + 1);
    }
  }

  /** Compression never costs more than a third, up to a constant. */
  lemma {:induction false} SizeBound(raw: seq<byte>)
    ensures 3 * |RleEncode(raw)| <= 4 * |raw| + 2
    decreases |raw|
  {
    if raw != [] {
      var run := RunLen(raw, 1);
      if run >= 2 {
        SizeBound(raw[run..]);
      } else {
        var e := LiteralEnd(raw, 1);
        LiteralStops(raw, 1);
        var rest := raw[e..];
        if e < |raw| && e < LONGEST {
          assert rest[0] == rest[1];
          var next := RunLen(rest, 1);
          assert next == RunLen(rest, 2) >= 2;
          SizeBound(rest[next..]);
        } else {
          SizeBound(rest);
        }
      }
    }
  }

  /** The inputs (a b b) repeated `k` times, then c. */
  function Worst(a: byte, b: byte, c: byte, k: nat): (s: seq<byte>)
    ensures |s| == 3 * k + 1
    ensures k > 0 ==> s[0] == a
    ensures k == 0 ==> s[0] == c
  {
    if k == 0 then [c] else [a, b, b] + Worst(a, b, c, k - 1)
  }

  /** The bound is attained for every number of repetitions. */
  lemma {:induction false} SizeBoundIsTight(a: byte, b: byte, c: byte, k: nat)
    requires a != b && c != b
    ensures var raw := Worst(a, b, c, k); 3 * |RleEncode(raw)| == 4 * |raw| + 2
  {
    var raw := Worst(a, b, c, k);
    if k == 0 {
      assert RunLen(raw, 1) == 1 && LiteralEnd(raw, 1) == 1;
      assert raw[1..] == [];
    } else {
      var inner := Worst(a, b, c, k - 1);
      SizeBoundIsTight(a, b, c, k - 1);
      assert raw[1] == b && raw[2] == b && raw[3] == inner[0];
      assert RunLen(raw, 1) == 1 && LiteralEnd(raw, 1) == 1;
      var pair := raw[1..];
      assert pair[0] == b && pair[1] == b && pair[2] == inner[0];
      assert RunLen(pair, 2) == 2;
      assert RunLen(pair, 1) == 2;
      assert pair[2..] == inner;
      assert |RleEncode(raw)| == 2 + |RleEncode(pair)|;
      assert |RleEncode(pair)| == 2 + |RleEncode(inner)|;
    }
  }

  // ---------------------------------------------------------------- the bytes of the format

  /** A run of `n` is announced by n + 127, `n` literals by n - 1. */
  lemma ControlBytes(n: nat)
    requires 1 <= n <= 128
    ensures LiteralControl(n) as int == n - 1
    ensures n >= 2 ==> RunControl(n) as int == n + 127
  {
    ByteRoundTrip(n - 1);
    if n >= 2 {
      HighBitAdds((n - 1) as bv8);
    }
  }

  lemma HighBitAdds(b: byte)
    requires b < 128
    ensures (0x80 | b) as int == b as int + 128
  {
  }

  lemma FirstRun(b: byte, n: nat)
    requires n >= 2
    ensures var run := if n < 128 then n else 128;
            |RleEncode(Copies(b, n))| == 2 + |RleEncode(Copies(b, n - run))|
  {
    var raw, run := Copies(b, n), if n < 128 then n else 128;
    RunIsMaximal(raw, 1);
    assert RunLen(raw, 1) == run;
    assert raw[run..] == Copies(b, n - run);
  }

  lemma OneLiteral(b: byte)
    ensures |RleEncode(Copies(b, 1))| == 2
  {
    var raw := Copies(b, 1);
    assert LiteralEnd(raw, 1) == 1 && raw[1..] == [];
  }

  lemma EncodedSize(b: byte, n: nat) returns (size: nat)
    ensures size == |RleEncode(Copies(b, n))| == 2 * ((n + 127) / 128)
    decreases n
  {
    if n == 0 {
      assert Copies(b, 0) == [];
      size := 0;
    } else if n == 1 {
      OneLiteral(b);
      size := 2;
    } else {
      var rest := EncodedSize(b, if n < 128 then 0 else n - 128);
      FirstRun(b, n);
      size := 2 + rest;
      assert n >= 128 ==> (n + 127) / 128 == 1 + (n - 128 + 127) / 128;
    }
  }

  /** One byte repeated takes two bytes for every 128, or part of 128. */
  lemma RepeatedSize(b: byte, n: nat)
    ensures |RleEncode(Copies(b, n))| == 2 * ((n + 127) / 128)
  {
    var _ := EncodedSize(b, n);
  }

  lemma HighControl(control: byte)
    requires control as int >= 128
    ensures control > 127 && MoreCopies(control) == control as int - 128
  {
  }

  lemma LowControl(control: byte)
    requires control as int < 128
    ensures control <= 127
  {
  }

  lemma {:induction false} LiteralsCutShort(v: byte, left: nat, rest: seq<byte>)
    requires |rest| < left
    ensures Output(Stream(v, 0, left, rest)) == rest
    decreases |rest|
  {
    if rest != [] {
      LiteralsCutShort(v, left - 1, rest[1..]);
      assert [rest[0]] + rest[1..] == rest;
    }
  }

  lemma WholeLiterals(control: byte, rest: seq<byte>, n: nat)
    requires control as int == n - 1 < 128 && n <= |rest|
    ensures Output(Start([control] + rest)) == rest[..n] + Output(Start(rest[n..]))
  {
    LowControl(control);
    LiteralBlock(control, rest[..n], rest[n..]);
    assert [control] + rest[..n] + rest[n..] == [control] + rest;
  }

  lemma FewerLiterals(control: byte, rest: seq<byte>)
    requires control as int < 128 && |rest| <= control as int
    ensures Output(Start([control] + rest)) == rest
  {
    LowControl(control);
    assert ([control] + rest)[1..] == rest;
    if rest != [] {
      LiteralsCutShort(0, control as int, rest[1..]);
      assert [rest[0]] + rest[1..] == rest;
    }
  }

  /** What a literal block means to the reader, whole or cut short. */
  lemma LiteralsMean(control: byte, rest: seq<byte>)
    requires control as int < 128
    ensures var n := control as int + 1;
            Output(Start([control] + rest)) ==
            if n <= |rest| then rest[..n] + Output(Start(rest[n..])) else rest
  {
    if control as int + 1 <= |rest| {
      WholeLiterals(control, rest, control as int + 1);
    } else {
      FewerLiterals(control, rest);
    }
  }

  /** What a run block means to the reader: so many copies of the byte after it, none if there is none. */
  lemma RunMeans(control: byte, rest: seq<byte>)
    requires control as int >= 128
    ensures Output(Start([control] + rest)) ==
            if rest == [] then [] else Copies(rest[0], control as int - 127) + Output(Start(rest[1..]))
  {
    HighControl(control);
    assert ([control] + rest)[1..] == rest;
    if rest != [] {
      RunBlock(control, rest[0], control as int - 127, rest[1..]);
      assert [control, rest[0]] + rest[1..] == [control] + rest;
    }
  }
}
