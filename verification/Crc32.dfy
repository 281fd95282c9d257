/**
 * The reflected CRC-32 of section 3.2.9 of IEEE 802.3, as the firmware computes it over wire
 * payloads and over uploaded content, and the burst errors it is guaranteed to detect.
 */
module Crc32 {
  import opened Bytes
  import opened ShiftRegister

  const POLYNOMIAL: bv32 := 0xedb88320

  function Xor(a: bv32, b: bv32): bv32
  {
    a ^ b
  }

  function Low(w: bv32): bool
  {
    w & 1 == 1
  }

  function Drop(w: bv32): bv32
  {
    w >> 1
  }

  /** One shift of the register. */
  function Step(c: bv32): bv32
  {
    if c & 1 == 1 then (c >> 1) ^ POLYNOMIAL else c >> 1
  }

  function BitWord(bit: bool): bv32
  {
    if bit then 1 else 0
  }

  /** The register after one message bit. */
  function Feed(c: bv32, bit: bool): bv32
  {
    Step(Xor(c, BitWord(bit)))
  }

  /** The register after absorbing whole bytes: each is loaded on top, then shifted through. */
  function Update(c: bv32, data: seq<byte>): bv32
  {
    if data == [] then c
    else Iterate(Step, Load(Update(c, data[..|data| - 1]), data[|data| - 1]), 8)
  }

  function Load(c: bv32, b: byte): bv32
  {
    Xor(c, b as bv32)
  }

  const INITIAL: bv32 := 0xffffffff

  function Complement(c: bv32): bv32
  {
    !c
  }

  function Checksum(data: seq<byte>): bv32
  {
    Complement(Update(INITIAL, data))
  }

  /** The lowest `n` bits of a word, least significant first. */
  function LowBits(w: bv32, n: nat): (bits: seq<bool>)
    ensures |bits| == n
    decreases n
  {
    if n == 0 then [] else [Low(w)] + LowBits(Drop(w), n - 1)
  }

  /** The bits of a byte in transmission order, least significant first. */
  function BitsOf(b: byte): (bits: seq<bool>)
    ensures |bits| == 8
  {
    LowBits(b as bv32, 8)
  }

  function Bits(data: seq<byte>): (bits: seq<bool>)
    ensures |bits| == 8 * |data|
  {
    if data == [] then [] else Bits(data[..|data| - 1]) + BitsOf(data[|data| - 1])
  }

  // ---------------------------------------------------------------- the two loops of the firmware

  /** One pass of the inner loop body: the branch taken through a mask of the low bit. */
  method ShiftOnce(c: bv32) returns (r: bv32)
    ensures r == Step(c)
  {
    var mask: bv32 := 0 - (c & 1);
    LowBit(c);
    r := (c >> 1) ^ (POLYNOMIAL & mask);
  }

  /** The inner loop: eight shifts. */
  method ShiftByte(crc0: bv32) returns (crc: bv32)
    ensures crc == Iterate(Step, crc0, 8)
  {
    crc := crc0;
    for bit := 0 to 8
      invariant Iterate(Step, crc0, 8) == Iterate(Step, crc, 8 - bit)
    {
      crc := ShiftOnce(crc);
    }
  }

  /** The running update used for chunked uploads. */
  method UpdateRunning(crc0: bv32, data: seq<byte>) returns (crc: bv32)
    ensures crc == Update(crc0, data)
  {
    crc := crc0;
    for i := 0 to |data|
      invariant crc == Update(crc0, data[..i])
    {
      assert data[..i + 1][..i] == data[..i];
      crc := ShiftByte(Load(crc, data[i]));
    }
    assert data[..|data|] == data;
  }

  /** The one-shot checksum of a payload. */
  method Compute(data: seq<byte>) returns (crc: bv32)
    ensures crc == Checksum(data)
  {
    var register := UpdateRunning(INITIAL, data);
    crc := Complement(register);
  }

  // ---------------------------------------------------------------- algebra of one shift

  lemma LowBit(a: bv32)
    ensures a & 1 == 0 || a & 1 == 1
  {
  }

  lemma XorComm(a: bv32, b: bv32)
    ensures Xor(a, b) == Xor(b, a)
  {
  }

  lemma XorAssoc(a: bv32, b: bv32, c: bv32)
    ensures Xor(Xor(a, b), c) == Xor(a, Xor(b, c))
  {
  }

  lemma XorSelf(a: bv32)
    ensures Xor(a, a) == 0 && Xor(0, a) == a && Xor(a, 0) == a
  {
  }

  lemma XorZero(a: bv32, b: bv32)
    ensures Xor(a, b) == 0 <==> a == b
  {
    XorSelf(a);
    XorSelf(b);
    if Xor(a, b) == 0 {
      XorAssoc(a, b, b);
    }
  }

  lemma StepEven(a: bv32, b: bv32)
    requires !Low(a)
    ensures Step(Xor(a, b)) == Xor(Step(a), Step(b))
  {
  }

  lemma StepOdd(a: bv32, b: bv32)
    requires Low(a) && Low(b)
    ensures Step(Xor(a, b)) == Xor(Step(a), Step(b))
  {
  }

  /** A shift is linear over exclusive-or. */
  lemma StepLinear(a: bv32, b: bv32)
    ensures Step(Xor(a, b)) == Xor(Step(a), Step(b))
  {
    if !Low(a) {
      StepEven(a, b);
    } else if !Low(b) {
      StepEven(b, a);
      XorComm(a, b);
      XorComm(Step(a), Step(b));
    } else {
      StepOdd(a, b);
    }
  }

  lemma StepZero(a: bv32)
    ensures Step(a) == 0 <==> a == 0
  {
  }

  /** A shift loses nothing: no two registers merge. */
  lemma StepInjective(a: bv32, b: bv32)
    requires Step(a) == Step(b)
    ensures a == b
  {
    StepLinear(a, b);
    StepZero(Xor(a, b));
    XorZero(a, b);
    XorZero(Step(a), Step(b));
  }

  // ---------------------------------------------------------------- bytes are eight bits

  function Even(w: bv32): bv32
  {
    w & 0xffff_fffe
  }

  lemma SplitLow(w: bv32)
    ensures Xor(BitWord(Low(w)), Even(w)) == w
    ensures Step(Even(w)) == Drop(w)
  {
    LowBit(w);
  }

  lemma StepLoads(a: bv32, b: bv32)
    ensures Step(Xor(a, b)) == Xor(Feed(a, Low(b)), Drop(b))
  {
    SplitLow(b);
    XorAssoc(a, BitWord(Low(b)), Even(b));
    StepLinear(Xor(a, BitWord(Low(b))), Even(b));
  }

  lemma {:induction false} WordReads(w: bv32, n: nat)
    ensures Reads(Low, Drop, w, LowBits(w, n))
    decreases n
  {
    if n != 0 {
      WordReads(Drop(w), n - 1);
      assert LowBits(w, n)[1..] == LowBits(Drop(w), n - 1);
    }
  }

  lemma ByteDrains(b: byte)
    ensures Iterate(Drop, b as bv32, 8) == 0
  {
  }

  /** Absorbing a byte is feeding its eight bits. */
  lemma ByteIsBits(c: bv32, b: byte)
    ensures Iterate(Step, Load(c, b), 8) == Fold(Feed, c, BitsOf(b))
  {
    WordReads(b as bv32, 8);
    ByteDrains(b);
    forall x, y ensures Step(Xor(x, y)) == Xor(Feed(x, Low(y)), Drop(y)) {
      StepLoads(x, y);
    }
    LoadedWord(Feed, Step, Xor, Low, Drop, c, b as bv32, BitsOf(b));
  }

  /** The byte-wise register is the bit-serial register of the standard. */
  lemma {:induction false} UpdateIsBitSerial(c: bv32, data: seq<byte>)
    ensures Update(c, data) == Fold(Feed, c, Bits(data))
    decreases |data|
  {
    if data != [] {
      var front, last := data[..|data| - 1], data[|data| - 1];
      UpdateIsBitSerial(c, front);
      ByteIsBits(Update(c, front), last);
      FoldConcat(Feed, c, Bits(front), BitsOf(last));
    }
  }

  /** Feeding a message in two pieces is feeding it whole. */
  lemma {:induction false} UpdateConcat(c: bv32, x: seq<byte>, y: seq<byte>)
    ensures Update(c, x + y) == Update(Update(c, x), y)
    decreases |y|
  {
    if y == [] {
      assert x + y == x;
    } else {
      assert (x + y)[..|x + y| - 1] == x + y[..|y| - 1];
      UpdateConcat(c, x, y[..|y| - 1]);
    }
  }

  // ---------------------------------------------------------------- burst errors

  /** 2 to the power 31 - n. */
  function Limit(n: nat): bv32
  {
    if n == 0 then 0x8000_0000 else Drop(Limit(n - 1))
  }

  predicate Below(a: bv32, limit: bv32)
  {
    a < limit
  }

  predicate Small(limit: bv32)
  {
    limit <= 0x8000_0000
  }

  /** The register needs at most `n` bits. */
  ghost function Fits(n: nat, c: bv32): bool
  {
    n <= 31 ==> Below(c, Limit(31 - n))
  }

  lemma HalfIsSmall(w: bv32)
    requires Small(w)
    ensures Small(Drop(w))
  {
  }

  lemma {:induction false} LimitIsSmall(n: nat)
    ensures Small(Limit(n))
  {
    if n != 0 {
      LimitIsSmall(n - 1);
      HalfIsSmall(Limit(n - 1));
    }
  }

  function Double(w: bv32): bv32
  {
    w << 1
  }

  /** A register with a clear top bit came from an even one. */
  lemma StepBack(a: bv32, limit: bv32)
    requires Below(Step(a), limit) && Small(limit)
    ensures a == Double(Step(a))
  {
  }

  lemma DoubleFits(s: bv32, c: bv32, bit: bool, limit: bv32)
    requires Xor(c, BitWord(bit)) == Double(s)
    requires Below(s, Drop(limit))
    ensures Below(c, limit)
  {
  }

  lemma FeedBack(c: bv32, bit: bool, limit: bv32)
    requires Below(Feed(c, bit), Drop(limit)) && Small(limit)
    ensures Below(c, limit)
  {
    HalfIsSmall(limit);
    StepBack(Xor(c, BitWord(bit)), Drop(limit));
    DoubleFits(Feed(c, bit), c, bit, limit);
  }

  lemma ZeroFeed(bit: bool, limit: bv32)
    requires Below(Feed(0, bit), limit) && Small(limit)
    ensures !bit && Feed(0, bit) == 0
  {
  }

  lemma FeedWidens(n: nat, c: bv32, bit: bool)
    requires n < 32 && Fits(n, Feed(c, bit))
    ensures Fits(n + 1, c)
    ensures c == 0 ==> !bit && Feed(c, bit) == 0
  {
    LimitIsSmall(31 - n);
    if c == 0 {
      ZeroFeed(bit, Limit(31 - n));
    }
    if n < 31 {
      LimitIsSmall(30 - n);
      FeedBack(c, bit, Limit(30 - n));
    }
  }

  lemma LimitEnds()
    ensures Limit(31) == 1
  {
    assert Limit(4) == 0x800_0000;
    assert Limit(8) == 0x80_0000;
    assert Limit(12) == 0x8_0000;
    assert Limit(16) == 0x8000;
    assert Limit(20) == 0x800;
    assert Limit(24) == 0x80;
    assert Limit(28) == 0x8;
  }

  lemma BitXor(x: bool, y: bool)
    ensures Xor(BitWord(x), BitWord(y)) == BitWord(x != y)
  {
  }

  lemma XorRegroup(c: bv32, d: bv32, x: bool, y: bool)
    ensures Xor(Xor(c, BitWord(x)), Xor(d, BitWord(y))) == Xor(Xor(c, d), BitWord(x != y))
  {
    var v, w := BitWord(x), BitWord(y);
    XorAssoc(c, v, Xor(d, w));
    XorAssoc(v, d, w);
    XorComm(v, d);
    XorAssoc(d, v, w);
    XorAssoc(c, d, Xor(v, w));
    BitXor(x, y);
  }

  lemma XorCancels(a: bv32, b: bv32, w: bv32)
    requires Xor(a, w) == Xor(b, w)
    ensures a == b
  {
  }

  /** The register of this polynomial obeys the laws of the burst theorem with a width of 32 bits. */
  lemma RegisterLaws()
    ensures Linear(Feed, Xor) && Injective(Feed) && Widens(Feed, 0, Fits, 32)
    ensures forall a :: Xor(a, a) == 0
  {
    ShiftLaws();
    LimitEnds();
    forall n: nat, c, x | n < 32 && Fits(n, Feed(c, x))
      ensures Fits(n + 1, c) && (c == 0 ==> !x && Feed(c, x) == 0)
    {
      FeedWidens(n, c, x);
    }
    forall a ensures Xor(a, a) == 0 {
      XorZero(a, a);
    }
  }

  lemma ShiftLaws()
    ensures Linear(Feed, Xor) && Injective(Feed)
  {
    forall a, b ensures Step(Xor(a, b)) == Xor(Step(a), Step(b)) {
      StepLinear(a, b);
    }
    forall a, b | Step(a) == Step(b) ensures a == b {
      StepInjective(a, b);
    }
    forall a, b, x, y
      ensures Xor(Xor(a, BitWord(x)), Xor(b, BitWord(y))) == Xor(Xor(a, b), BitWord(x != y))
    {
      XorRegroup(a, b, x, y);
    }
    forall a, b, w | Xor(a, w) == Xor(b, w) ensures a == b {
      XorCancels(a, b, w);
    }
    FeedLaws(Feed, Step, Xor, BitWord);
  }

  lemma {:induction false} BitsDiffer(x: seq<byte>, y: seq<byte>)
    requires |x| == |y| && Bits(x) == Bits(y)
    ensures x == y
    decreases |x|
  {
    if x != [] {
      var n := |x| - 1;
      assert Bits(x)[..8 * n] == Bits(x[..n]) && Bits(y)[..8 * n] == Bits(y[..n]);
      assert Bits(x)[8 * n..] == BitsOf(x[n]) && Bits(y)[8 * n..] == BitsOf(y[n]);
      BitsDiffer(x[..n], y[..n]);
      ByteFromBits(x[n], y[n]);
      assert x == x[..n] + [x[n]] && y == y[..n] + [y[n]];
    }
  }

  lemma ByteFromBits(a: byte, b: byte)
    requires BitsOf(a) == BitsOf(b)
    ensures a == b
  {
    var v, w := a as bv32, b as bv32;
    ByteDrains(a);
    ByteDrains(b);
    WordFromBits(v, w, 8);
  }

  lemma LowAndRest(v: bv32, w: bv32)
    requires Low(v) == Low(w) && Drop(v) == Drop(w)
    ensures v == w
  {
  }

  lemma {:induction false} WordFromBits(v: bv32, w: bv32, n: nat)
    requires LowBits(v, n) == LowBits(w, n)
    requires Iterate(Drop, v, n) == Iterate(Drop, w, n)
    ensures v == w
    decreases n
  {
    if n != 0 {
      assert LowBits(v, n)[0] == LowBits(w, n)[0];
      assert LowBits(v, n)[1..] == LowBits(Drop(v), n - 1);
      assert LowBits(w, n)[1..] == LowBits(Drop(w), n - 1);
      WordFromBits(Drop(v), Drop(w), n - 1);
      LowAndRest(v, w);
    }
  }

  lemma ComplementInjective(a: bv32, b: bv32)
    requires Complement(a) == Complement(b)
    ensures a == b
  {
    assert Xor(Complement(a), 0xffff_ffff) == a;
  }

  /**
   * Any error burst of at most 32 consecutive bits, counted in transmission order, changes the
   * checksum of a message of any length.
   */
  lemma BurstChangesChecksum(x: seq<byte>, y: seq<byte>, at: nat)
    requires |x| == |y| && x != y
    requires forall i :: 0 <= i < 8 * |x| && !(at <= i < at + 32) ==> Bits(x)[i] == Bits(y)[i]
    ensures Checksum(x) != Checksum(y)
  {
    RegisterLaws();
    if Bits(x) == Bits(y) {
      BitsDiffer(x, y);
    }
    BurstDetected(Feed, Xor, 0, Fits, 32, INITIAL, Bits(x), Bits(y), at);
    UpdateIsBitSerial(INITIAL, x);
    UpdateIsBitSerial(INITIAL, y);
    if Checksum(x) == Checksum(y) {
      ComplementInjective(Update(INITIAL, x), Update(INITIAL, y));
    }
  }

  lemma {:induction false} BitsAt(x: seq<byte>, i: nat, j: nat)
    requires i < |x| && j < 8
    ensures Bits(x)[8 * i + j] == BitsOf(x[i])[j]
    decreases |x|
  {
    if i < |x| - 1 {
      BitsAt(x[..|x| - 1], i, j);
    }
  }

  /** In particular, corruption confined to four consecutive bytes is always detected. */
  lemma FourByteBurstChangesChecksum(x: seq<byte>, y: seq<byte>, at: nat)
    requires |x| == |y| && x != y
    requires forall i :: 0 <= i < |x| && !(at <= i < at + 4) ==> x[i] == y[i]
    ensures Checksum(x) != Checksum(y)
  {
    forall k | 0 <= k < 8 * |x| && !(8 * at <= k < 8 * at + 32) ensures Bits(x)[k] == Bits(y)[k] {
      BitsAt(x, k / 8, k % 8);
      BitsAt(y, k / 8, k % 8);
    }
    BurstChangesChecksum(x, y, 8 * at);
  }
}
