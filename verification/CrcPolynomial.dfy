/**
 * What the checksum is: the remainder of a polynomial division over two elements, as section 3.2.9 of
 * IEEE 802.3 defines it. A polynomial is its coefficients, highest power first.
 */
module CrcPolynomial {
  import opened Bytes
  import opened ShiftRegister
  import opened Crc32

  /** x^32 + x^26 + x^23 + x^22 + x^16 + x^12 + x^11 + x^10 + x^8 + x^7 + x^5 + x^4 + x^2 + x + 1 */
  function Generator(): (g: seq<bool>)
    ensures |g| == 33
  {
    seq(33, i requires 0 <= i < 33 =>
      32 - i in {32, 26, 23, 22, 16, 12, 11, 10, 8, 7, 5, 4, 2, 1, 0})
  }

  /** Subtract, which over two elements is to add, `q` from the highest coefficients of `p`. */
  function Subtract(p: seq<bool>, q: seq<bool>): (r: seq<bool>)
    requires |q| <= |p|
    ensures |r| == |p|
  {
    XorBits(p[..|q|], q) + p[|q|..]
  }

  /** Long division: what is left when the highest power is below 32. */
  function Remainder(p: seq<bool>): (r: seq<bool>)
    ensures |r| == if |p| <= 32 then |p| else 32
    decreases |p|
  {
    if |p| <= 32 then p
    else Remainder((if p[0] then Subtract(p, Generator()) else p)[1..])
  }

  /** The polynomial `q` times the generator, plus `r`. */
  function Combined(q: seq<bool>, r: seq<bool>): (p: seq<bool>)
    requires |r| == 32
    ensures |p| == |q| + 32
  {
    if q == [] then r
    else
      var rest := [false] + Combined(q[1..], r);
      if q[0] then Subtract(rest, Generator()) else rest
  }

  lemma SubtractTwice(p: seq<bool>, q: seq<bool>)
    requires |q| <= |p|
    ensures Subtract(Subtract(p, q), q) == p
  {
  }

  /** Long division finds the one remainder there is. */
  lemma {:induction false} RemainderExact(q: seq<bool>, r: seq<bool>)
    requires |r| == 32
    ensures Remainder(Combined(q, r)) == r
    decreases |q|
  {
    if q != [] {
      var rest := [false] + Combined(q[1..], r);
      assert Generator()[0];
      SubtractTwice(rest, Generator());
      RemainderExact(q[1..], r);
      assert rest[1..] == Combined(q[1..], r);
    }
  }

  /** And there is one: every long enough polynomial is a multiple of the generator plus a remainder. */
  lemma {:induction false} Divided(p: seq<bool>) returns (q: seq<bool>)
    requires |p| >= 32
    ensures |q| + 32 == |p| && Combined(q, Remainder(p)) == p
    decreases |p|
  {
    if |p| == 32 {
      q := [];
    } else {
      var s := if p[0] then Subtract(p, Generator()) else p;
      assert Generator()[0];
      SubtractTwice(p, Generator());
      var rest := Divided(s[1..]);
      q := [p[0]] + rest;
      assert q[1..] == rest && s == [false] + s[1..];
    }
  }

  // ---------------------------------------------------------------- registers that divide

  /** The lowest `n` bits of a word of any type. */
  function ReadBits<T>(low: T -> bool, drop: T -> T, w: T, n: nat): (bits: seq<bool>)
    ensures |bits| == n
    decreases n
  {
    if n == 0 then [] else [low(w)] + ReadBits(low, drop, drop(w), n - 1)
  }

  ghost predicate LowAdds<T(!new)>(low: T -> bool, xor: (T, T) -> T)
  {
    forall a, b :: low(xor(a, b)) == (low(a) != low(b))
  }

  ghost predicate DropAdds<T(!new)>(drop: T -> T, xor: (T, T) -> T)
  {
    forall a, b :: drop(xor(a, b)) == xor(drop(a), drop(b))
  }

  lemma {:induction false} ReadXor<T(!new)>(low: T -> bool, drop: T -> T, xor: (T, T) -> T, a: T, b: T, n: nat)
    requires LowAdds(low, xor) && DropAdds(drop, xor)
    ensures ReadBits(low, drop, xor(a, b), n) == XorBits(ReadBits(low, drop, a, n), ReadBits(low, drop, b, n))
    decreases n
  {
    if n > 0 {
      ReadXor(low, drop, xor, drop(a), drop(b), n - 1);
    }
  }

  lemma {:induction false} ReadGrows<T>(low: T -> bool, drop: T -> T, w: T, n: nat)
    ensures ReadBits(low, drop, w, n + 1) == ReadBits(low, drop, w, n) + [low(Iterate(drop, w, n))]
    decreases n
  {
    if n > 0 {
      ReadGrows(low, drop, drop(w), n - 1);
    }
  }

  /**
   * A register that shifts out its lowest bit and, when that differs from the message bit, adds the lower
   * coefficients of the generator: it holds the remainder of what it has absorbed.
   */
  ghost predicate Divides<T(!new)>(feed: (T, bool) -> T, low: T -> bool, drop: T -> T, xor: (T, T) -> T, poly: T)
  {
    && LowAdds(low, xor) && DropAdds(drop, xor)
    && (forall c, x :: feed(c, x) == if low(c) != x then xor(drop(c), poly) else drop(c))
    && (forall c :: !low(Iterate(drop, c, 32)))
    && Generator() == [true] + ReadBits(low, drop, poly, 32)
  }

  function Zeros(n: nat): (z: seq<bool>)
    ensures |z| == n
  {
    seq(n, _ => false)
  }

  /** The register after one more message bit. */
  function Shifted(r: seq<bool>, x: bool): (next: seq<bool>)
    requires |r| == 32
    ensures |next| == 32
  {
    if r[0] != x then XorBits(r[1..] + [false], Generator()[1..]) else r[1..] + [false]
  }

  lemma DropReads<T>(low: T -> bool, drop: T -> T, c: T)
    requires !low(Iterate(drop, c, 32))
    ensures ReadBits(low, drop, drop(c), 32) == ReadBits(low, drop, c, 32)[1..] + [false]
  {
    var r := ReadBits(low, drop, c, 32);
    ReadGrows(low, drop, c, 32);
    assert ReadBits(low, drop, drop(c), 32) == ReadBits(low, drop, c, 33)[1..];
    assert (r + [false])[1..] == r[1..] + [false];
  }

  lemma FeedReads<T(!new)>(feed: (T, bool) -> T, low: T -> bool, drop: T -> T, xor: (T, T) -> T, poly: T, c: T, x: bool)
    requires Divides(feed, low, drop, xor, poly)
    ensures ReadBits(low, drop, feed(c, x), 32) == Shifted(ReadBits(low, drop, c, 32), x)
  {
    DropReads(low, drop, c);
    ReadXor(low, drop, xor, drop(c), poly, 32);
    assert Generator()[1..] == ReadBits(low, drop, poly, 32);
  }

  lemma DividedAt(r: seq<bool>, x: bool, rest: seq<bool>, i: nat)
    requires |r| == 32 && |rest| >= 32 && i < |rest|
    ensures var p := Subtract([x] + rest, r);
            var s := if p[0] then Subtract(p, Generator()) else p;
            s[i + 1] == Subtract(rest, Shifted(r, x))[i]
  {
    var p := Subtract([x] + rest, r);
    assert p[0] == (r[0] != x);
    if i < 31 {
      assert p[i + 1] == (rest[i] != r[i + 1]);
      assert (r[1..] + [false])[i] == r[i + 1];
    } else {
      assert p[i + 1] == rest[i];
      assert i == 31 ==> !(r[1..] + [false])[i];
    }
    assert Generator()[1..][if i < 32 then i else 0] == Generator()[if i < 32 then i + 1 else 1];
  }

  lemma OneDivision(r: seq<bool>, x: bool, rest: seq<bool>)
    requires |r| == 32 && |rest| >= 32
    ensures Remainder(Subtract([x] + rest, r)) == Remainder(Subtract(rest, Shifted(r, x)))
  {
    var p := Subtract([x] + rest, r);
    var s := if p[0] then Subtract(p, Generator()) else p;
    forall i | 0 <= i < |rest| ensures s[1..][i] == Subtract(rest, Shifted(r, x))[i] {
      DividedAt(r, x, rest, i);
    }
    assert s[1..] == Subtract(rest, Shifted(r, x));
  }

  /** What is left of a message, followed by 32 zeros, once the register is subtracted from its front. */
  function Left(bits: seq<bool>, r: seq<bool>): seq<bool>
    requires |r| == 32
  {
    Remainder(Subtract(bits + Zeros(32), r))
  }

  lemma LeftAfterOne(bits: seq<bool>, r: seq<bool>)
    requires |r| == 32 && bits != []
    ensures Left(bits, r) == Left(bits[1..], Shifted(r, bits[0]))
  {
    OneDivision(r, bits[0], bits[1..] + Zeros(32));
    assert bits + Zeros(32) == [bits[0]] + (bits[1..] + Zeros(32));
  }

  lemma LeftOfNothing(r: seq<bool>)
    requires |r| == 32
    ensures Left([], r) == r
  {
    assert Subtract([] + Zeros(32), r) == r;
  }

  lemma {:induction false} FoldDivides<T(!new)>(feed: (T, bool) -> T, low: T -> bool, drop: T -> T, xor: (T, T) -> T,
                                                poly: T, c: T, bits: seq<bool>)
    requires Divides(feed, low, drop, xor, poly)
    ensures Left(bits, ReadBits(low, drop, c, 32)) == ReadBits(low, drop, Fold(feed, c, bits), 32)
    decreases |bits|
  {
    if bits == [] {
      LeftOfNothing(ReadBits(low, drop, c, 32));
    } else {
      LeftAfterOne(bits, ReadBits(low, drop, c, 32));
      FeedReads(feed, low, drop, xor, poly, c, bits[0]);
      FoldDivides(feed, low, drop, xor, poly, feed(c, bits[0]), bits[1..]);
    }
  }

  // ---------------------------------------------------------------- the register of the checksum

  lemma LowXor(a: bv32, b: bv32)
    ensures Low(Xor(a, b)) == (Low(a) != Low(b))
  {
    LowBit(a);
    LowBit(b);
  }

  lemma DropXor(a: bv32, b: bv32)
    ensures Drop(Xor(a, b)) == Xor(Drop(a), Drop(b))
  {
  }

  lemma LowAddsUp()
    ensures LowAdds(Low, Xor)
  {
    forall a, b ensures Low(Xor(a, b)) == (Low(a) != Low(b)) {
      LowXor(a, b);
    }
  }

  lemma DropAddsUp()
    ensures DropAdds(Drop, Xor)
  {
    forall a, b ensures Drop(Xor(a, b)) == Xor(Drop(a), Drop(b)) {
      DropXor(a, b);
    }
  }

  lemma FeedDivides(c: bv32, x: bool)
    ensures Feed(c, x) == if Low(c) != x then Xor(Drop(c), POLYNOMIAL) else Drop(c)
  {
  }

  function Drop4(w: bv32): bv32
  {
    Drop(Drop(Drop(Drop(w))))
  }

  lemma FourDrops(w: bv32, n: nat)
    ensures Iterate(Drop, w, n + 4) == Iterate(Drop, Drop4(w), n)
  {
    IterateFour(Drop, w, n);
  }

  lemma IterateFour<T>(f: T -> T, c: T, n: nat)
    ensures Iterate(f, c, n + 4) == Iterate(f, f(f(f(f(c)))), n)
  {
    assert Iterate(f, c, n + 4) == Iterate(f, f(c), n + 3) == Iterate(f, f(f(c)), n + 2);
  }

  lemma EightTimesFour(w: bv32)
    ensures Drop4(Drop4(Drop4(Drop4(Drop4(Drop4(Drop4(Drop4(w)))))))) == 0
  {
  }

  lemma DropsOut(w: bv32)
    ensures Iterate(Drop, w, 32) == 0
  {
    var w2 := Drop4(Drop4(w));
    var w4 := Drop4(Drop4(w2));
    var w6 := Drop4(Drop4(w4));
    FourDrops(w, 28);
    FourDrops(Drop4(w), 24);
    FourDrops(w2, 20);
    FourDrops(Drop4(w2), 16);
    FourDrops(w4, 12);
    FourDrops(Drop4(w4), 8);
    FourDrops(w6, 4);
    FourDrops(Drop4(w6), 0);
    EightTimesFour(w);
  }

  lemma {:induction false} LowBitsRead(w: bv32, n: nat)
    ensures LowBits(w, n) == ReadBits(Low, Drop, w, n)
    decreases n
  {
    if n > 0 {
      LowBitsRead(Drop(w), n - 1);
    }
  }

  lemma ReadFour<T>(low: T -> bool, drop: T -> T, w: T, n: nat)
    ensures ReadBits(low, drop, w, n + 4) ==
            [low(w), low(drop(w)), low(drop(drop(w))), low(drop(drop(drop(w))))]
            + ReadBits(low, drop, drop(drop(drop(drop(w)))), n)
  {
    assert ReadBits(low, drop, w, n + 4) == [low(w)] + ReadBits(low, drop, drop(w), n + 3);
    assert ReadBits(low, drop, drop(w), n + 3) == [low(drop(w))] + ReadBits(low, drop, drop(drop(w)), n + 2);
  }

  lemma FourBits(w: bv32, n: nat)
    ensures LowBits(w, n + 4) ==
            [Low(w), Low(Drop(w)), Low(Drop(Drop(w))), Low(Drop(Drop(Drop(w))))] + LowBits(Drop4(w), n)
  {
    LowBitsRead(w, n + 4);
    LowBitsRead(Drop4(w), n);
    ReadFour(Low, Drop, w, n);
  }

  lemma FourThen(w: bv32, n: nat, rest: seq<bool>, a: bool, b: bool, c: bool, d: bool)
    requires LowBits(Drop4(w), n) == rest
    requires Low(w) == a && Low(Drop(w)) == b && Low(Drop(Drop(w))) == c && Low(Drop(Drop(Drop(w)))) == d
    ensures LowBits(w, n + 4) == [a, b, c, d] + rest
  {
    FourBits(w, n);
  }

  /** The coefficients of x^15 down to 1, and of x^31 down to x^16. */
  const LOW_HALF: seq<bool> :=
    [false, false, false, true, true, true, false, true]
    + [true, false, true, true, false, true, true, true]
  const HIGH_HALF: seq<bool> :=
    [false, false, false, false, false, true, false, false]
    + [true, true, false, false, false, false, false, true]

  lemma HighWord()
    ensures LowBits(0xedb8, 16) == LOW_HALF
  {
    FourThen(0xe, 0, LowBits(0x0, 0), false, true, true, true);
    FourThen(0xed, 4, LowBits(0xe, 4), true, false, true, true);
    FourThen(0xedb, 8, LowBits(0xed, 8), true, true, false, true);
    FourThen(0xedb8, 12, LowBits(0xedb, 12), false, false, false, true);
  }

  lemma ThreeBytes()
    ensures LowBits(0xed_b883, 24) == HIGH_HALF[8..] + LOW_HALF
  {
    HighWord();
    FourThen(0xe_db88, 16, LOW_HALF, false, false, false, true);
    FourThen(0xed_b883, 20, [false, false, false, true] + LOW_HALF, true, true, false, false);
  }

  lemma WholeWord()
    ensures LowBits(0xedb8_8320, 32) == HIGH_HALF + LOW_HALF
  {
    ThreeBytes();
    var three := HIGH_HALF[8..] + LOW_HALF;
    FourThen(0xedb_8832, 24, three, false, true, false, false);
    FourThen(0xedb8_8320, 28, [false, true, false, false] + three, false, false, false, false);
  }

  lemma GeneratorWritten()
    ensures Generator() == [true] + (HIGH_HALF + LOW_HALF)
  {
  }

  /** The constant of the code holds the coefficients below x^32. */
  lemma PolynomialIsGenerator()
    ensures Generator() == [true] + LowBits(POLYNOMIAL, 32)
  {
    WholeWord();
    GeneratorWritten();
  }

  lemma ChecksumDivides()
    ensures Divides(Feed, Low, Drop, Xor, POLYNOMIAL)
  {
    LowAddsUp();
    DropAddsUp();
    PolynomialIsGenerator();
    LowBitsRead(POLYNOMIAL, 32);
    forall c, x ensures Feed(c, x) == if Low(c) != x then Xor(Drop(c), POLYNOMIAL) else Drop(c) {
      FeedDivides(c, x);
    }
    forall c ensures !Low(Iterate(Drop, c, 32)) {
      DropsOut(c);
    }
  }

  function Ones(n: nat): (z: seq<bool>)
    ensures |z| == n
  {
    seq(n, _ => true)
  }

  lemma FourMore(w: bv32, n: nat)
    requires Low(w) && Low(Drop(w)) && Low(Drop(Drop(w))) && Low(Drop(Drop(Drop(w))))
    requires LowBits(Drop4(w), n) == Ones(n)
    ensures LowBits(w, n + 4) == Ones(n + 4)
  {
    FourBits(w, n);
  }

  lemma AllOnes()
    ensures LowBits(0xffff_ffff, 32) == Ones(32)
  {
    FourMore(0xf, 0);
    FourMore(0xff, 4);
    FourMore(0xfff, 8);
    FourMore(0xffff, 12);
    FourMore(0xfffff, 16);
    FourMore(0xffffff, 20);
    FourMore(0xfffffff, 24);
    FourMore(0xffffffff, 28);
  }

  /**
   * For every message, short or long: take its bits as they are sent, as a polynomial times x^32, invert the
   * first 32 coefficients and divide by the generator. The inverted checksum, lowest bit first, is what is left.
   */
  lemma ChecksumIsRemainder(data: seq<byte>)
    ensures LowBits(!Checksum(data), 32) == Remainder(Subtract(Bits(data) + Zeros(32), Ones(32)))
  {
    ChecksumDivides();
    AllOnes();
    LowBitsRead(0xffff_ffff, 32);
    FoldDivides(Feed, Low, Drop, Xor, POLYNOMIAL, INITIAL, Bits(data));
    UpdateIsBitSerial(INITIAL, data);
    LowBitsRead(Update(INITIAL, data), 32);
    NotNot(Update(INITIAL, data));
  }

  lemma NotNot(c: bv32)
    ensures !Complement(c) == c
  {
  }

  // ---------------------------------------------------------------- the check value

  lemma ByteShifted(c: bv32, r: bv32)
    requires Step(Step(Step(Step(Step(Step(Step(Step(c)))))))) == r
    ensures Iterate(Step, c, 8) == r
  {
    IterateFour(Step, c, 4);
    IterateFour(Step, Step(Step(Step(Step(c)))), 0);
  }

  lemma Absorbed(c: bv32, data: seq<byte>, b: byte, next: bv32)
    requires Update(INITIAL, data) == c
    requires Step(Step(Step(Step(Step(Step(Step(Step(Load(c, b))))))))) == next
    ensures Update(INITIAL, data + [b]) == next
  {
    assert (data + [b])[..|data|] == data;
    ByteShifted(Load(c, b), next);
  }

  /** The nine digits from '1' to '9'. */
  const DIGITS: seq<byte> := [0x31, 0x32, 0x33, 0x34, 0x35, 0x36, 0x37, 0x38, 0x39]

  /** The check value of this checksum. */
  lemma CheckValue()
    ensures Checksum(DIGITS) == 0xcbf4_3926
  {
    Absorbed(0xffffffff, DIGITS[..0], 0x31, 0x7c231048);
    assert DIGITS[..0] + [0x31] == DIGITS[..1];
    Absorbed(0x7c231048, DIGITS[..1], 0x32, 0xb0acbb32);
    assert DIGITS[..1] + [0x32] == DIGITS[..2];
    Absorbed(0xb0acbb32, DIGITS[..2], 0x33, 0x77b79c2d);
    assert DIGITS[..2] + [0x33] == DIGITS[..3];
    Absorbed(0x77b79c2d, DIGITS[..3], 0x34, 0x641c1f5c);
    assert DIGITS[..3] + [0x34] == DIGITS[..4];
    Absorbed(0x641c1f5c, DIGITS[..4], 0x35, 0x340ac5e3);
    assert DIGITS[..4] + [0x35] == DIGITS[..5];
    Absorbed(0x340ac5e3, DIGITS[..5], 0x36, 0xf68d2c9e);
    assert DIGITS[..5] + [0x36] == DIGITS[..6];
    Absorbed(0xf68d2c9e, DIGITS[..6], 0x37, 0xaffc9660);
    assert DIGITS[..6] + [0x37] == DIGITS[..7];
    Absorbed(0xaffc9660, DIGITS[..7], 0x38, 0x651f2550);
    assert DIGITS[..7] + [0x38] == DIGITS[..8];
    Absorbed(0x651f2550, DIGITS[..8], 0x39, 0x340bc6d9);
    assert DIGITS[..8] + [0x39] == DIGITS[..9];
  }
}
