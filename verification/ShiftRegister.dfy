/**
 * Theory of registers that absorb a bit string one bit at a time, for any register type whose
 * difference (`xor`) is respected by the absorbing step. No word arithmetic appears here; the laws a
 * register must obey are the preconditions.
 */
module ShiftRegister {

  function Fold<T>(feed: (T, bool) -> T, c: T, bits: seq<bool>): T
    decreases |bits|
  {
    if bits == [] then c else Fold(feed, feed(c, bits[0]), bits[1..])
  }

  function Iterate<T>(f: T -> T, c: T, n: nat): T
    decreases n
  {
    if n == 0 then c else Iterate(f, f(c), n - 1)
  }

  lemma {:induction false} FoldConcat<T>(feed: (T, bool) -> T, c: T, x: seq<bool>, y: seq<bool>)
    ensures Fold(feed, c, x + y) == Fold(feed, Fold(feed, c, x), y)
    decreases |x|
  {
    if x == [] {
      assert x + y == y;
    } else {
      assert (x + y)[1..] == x[1..] + y;
      FoldConcat(feed, feed(c, x[0]), x[1..], y);
    }
  }

  /** `bits` are what `low` reads while `drop` discards one bit of `w` after another. */
  ghost predicate Reads<T>(low: T -> bool, drop: T -> T, w: T, bits: seq<bool>)
    decreases |bits|
  {
    bits != [] ==> bits[0] == low(w) && Reads(low, drop, drop(w), bits[1..])
  }

  /** Shifting with a word loaded on top of the register absorbs the bits of the word. */
  lemma {:induction false} LoadedWord<T(!new)>(feed: (T, bool) -> T, step: T -> T, xor: (T, T) -> T,
                                               low: T -> bool, drop: T -> T, c: T, w: T, bits: seq<bool>)
    requires forall a, b :: step(xor(a, b)) == xor(feed(a, low(b)), drop(b))
    requires Reads(low, drop, w, bits)
    ensures Iterate(step, xor(c, w), |bits|) == xor(Fold(feed, c, bits), Iterate(drop, w, |bits|))
    decreases |bits|
  {
    if bits != [] {
      LoadedWord(feed, step, xor, low, drop, feed(c, bits[0]), drop(w), bits[1..]);
    }
  }

  function XorBits(x: seq<bool>, y: seq<bool>): (e: seq<bool>)
    requires |x| == |y|
    ensures |e| == |x|
  {
    seq(|x|, i requires 0 <= i < |x| => x[i] != y[i])
  }

  ghost predicate Linear<T(!new)>(feed: (T, bool) -> T, xor: (T, T) -> T)
  {
    forall a, b, x, y {:trigger xor(feed(a, x), feed(b, y))} ::
      xor(feed(a, x), feed(b, y)) == feed(xor(a, b), x != y)
  }

  /** The difference of two registers depends only on the difference of what they absorbed. */
  lemma {:induction false} FoldLinear<T(!new)>(feed: (T, bool) -> T, xor: (T, T) -> T, c: T, d: T,
                                               x: seq<bool>, y: seq<bool>)
    requires Linear(feed, xor) && |x| == |y|
    ensures xor(Fold(feed, c, x), Fold(feed, d, y)) == Fold(feed, xor(c, d), XorBits(x, y))
    decreases |x|
  {
    if x != [] {
      assert XorBits(x, y)[1..] == XorBits(x[1..], y[1..]);
      FoldLinear(feed, xor, feed(c, x[0]), feed(d, y[0]), x[1..], y[1..]);
    }
  }

  ghost predicate Injective<T(!new)>(feed: (T, bool) -> T)
  {
    forall a, b, x {:trigger feed(a, x), feed(b, x)} :: feed(a, x) == feed(b, x) ==> a == b
  }

  /** Registers that differ stay different while they absorb the same bits. */
  lemma {:induction false} FoldInjective<T(!new)>(feed: (T, bool) -> T, c: T, d: T, x: seq<bool>)
    requires Injective(feed)
    ensures Fold(feed, c, x) == Fold(feed, d, x) ==> c == d
    decreases |x|
  {
    if x != [] {
      var bit := x[0];
      var a, b := feed(c, bit), feed(d, bit);
      assert a == b ==> c == d;
      FoldInjective(feed, a, b, x[1..]);
    }
  }

  /**
   * `fits(n, a)` says that register `a` uses at most `n` of its `width` bits. Going backwards, one bit
   * of input widens the register by one bit, and a zero register was never fed a one.
   */
  ghost predicate Widens<T(!new)>(feed: (T, bool) -> T, zero: T, fits: (nat, T) -> bool, width: nat)
  {
    && fits(0, zero)
    && (forall n: nat, a, x {:trigger fits(n, feed(a, x))} ::
          n < width && fits(n, feed(a, x)) ==> fits(n + 1, a) && (a == zero ==> !x && feed(a, x) == zero))
  }

  lemma OneBitBack<T(!new)>(feed: (T, bool) -> T, zero: T, fits: (nat, T) -> bool, width: nat,
                            n: nat, d: T, bit: bool)
    requires Widens(feed, zero, fits, width) && n < width && fits(n, feed(d, bit))
    ensures fits(n + 1, d) && (d == zero ==> !bit && feed(d, bit) == zero)
  {
  }

  lemma {:induction false} BurstKernel<T(!new)>(feed: (T, bool) -> T, zero: T, fits: (nat, T) -> bool,
                                                width: nat, d: T, e: seq<bool>)
    requires Widens(feed, zero, fits, width) && |e| <= width
    requires Fold(feed, d, e) == zero
    ensures fits(|e|, d)
    ensures d == zero ==> forall i :: 0 <= i < |e| ==> !e[i]
    decreases |e|
  {
    if e != [] {
      var bit := e[0];
      var a := feed(d, bit);
      BurstKernel(feed, zero, fits, width, a, e[1..]);
      OneBitBack(feed, zero, fits, width, |e| - 1, d, bit);
      forall i | d == zero && 0 <= i < |e| ensures !e[i] {
        assert i > 0 ==> e[i] == e[1..][i - 1];
      }
    }
  }

  /**
   * A register that adds a bit as a word and then shifts inherits the laws from the shift alone.
   */
  lemma FeedLaws<T(!new)>(feed: (T, bool) -> T, step: T -> T, xor: (T, T) -> T, word: bool -> T)
    requires forall a, x :: feed(a, x) == step(xor(a, word(x)))
    requires forall a, b :: step(xor(a, b)) == xor(step(a), step(b))
    requires forall a, b {:trigger step(a), step(b)} :: step(a) == step(b) ==> a == b
    requires forall a, b, x, y ::
               xor(xor(a, word(x)), xor(b, word(y))) == xor(xor(a, b), word(x != y))
    requires forall a, b, w {:trigger xor(a, w), xor(b, w)} :: xor(a, w) == xor(b, w) ==> a == b
    ensures Linear(feed, xor) && Injective(feed)
  {
    forall a, b, x, y ensures xor(feed(a, x), feed(b, y)) == feed(xor(a, b), x != y) {
      assert xor(feed(a, x), feed(b, y)) == step(xor(xor(a, word(x)), xor(b, word(y))));
    }
    forall a, b, x | feed(a, x) == feed(b, x) ensures a == b {
      assert step(xor(a, word(x))) == step(xor(b, word(x)));
    }
  }

  /** Different windows of at most `width` bits separate equal registers. */
  lemma WindowDetected<T(!new)>(feed: (T, bool) -> T, xor: (T, T) -> T, zero: T, fits: (nat, T) -> bool,
                                width: nat, c: T, x: seq<bool>, y: seq<bool>)
    requires Linear(feed, xor) && Widens(feed, zero, fits, width) && xor(c, c) == zero
    requires |x| == |y| <= width && x != y
    ensures Fold(feed, c, x) == Fold(feed, c, y) ==>
              xor(Fold(feed, c, x), Fold(feed, c, y)) != zero
  {
    var e := XorBits(x, y);
    FoldLinear(feed, xor, c, c, x, y);
    if Fold(feed, zero, e) == zero {
      BurstKernel(feed, zero, fits, width, zero, e);
      forall i | 0 <= i < |x| ensures x[i] == y[i] {
        assert !e[i];
      }
      assert false;
    }
  }

  lemma Cut<T>(feed: (T, bool) -> T, c: T, x: seq<bool>, lo: nat, hi: nat)
    requires lo <= hi <= |x|
    ensures Fold(feed, c, x) == Fold(feed, Fold(feed, Fold(feed, c, x[..lo]), x[lo..hi]), x[hi..])
  {
    assert x == x[..lo] + (x[lo..hi] + x[hi..]);
    FoldConcat(feed, c, x[..lo], x[lo..hi] + x[hi..]);
    FoldConcat(feed, Fold(feed, c, x[..lo]), x[lo..hi], x[hi..]);
  }

  /** Bit strings that differ only within `width` consecutive bits lead to different registers. */
  lemma BurstDetected<T(!new)>(feed: (T, bool) -> T, xor: (T, T) -> T, zero: T, fits: (nat, T) -> bool,
                               width: nat, c: T, x: seq<bool>, y: seq<bool>, at: nat)
    requires Linear(feed, xor) && Injective(feed) && Widens(feed, zero, fits, width)
    requires forall a :: xor(a, a) == zero
    requires |x| == |y| && x != y
    requires forall i :: 0 <= i < |x| && !(at <= i < at + width) ==> x[i] == y[i]
    ensures Fold(feed, c, x) != Fold(feed, c, y)
  {
    var lo := if at < |x| then at else |x|;
    var hi := if at + width < |x| then at + width else |x|;
    assert x[..lo] == y[..lo] && x[hi..] == y[hi..];
    var c' := Fold(feed, c, x[..lo]);
    var xs, ys := Fold(feed, c', x[lo..hi]), Fold(feed, c', y[lo..hi]);
    assert x[lo..hi] != y[lo..hi] by {
      assert x == x[..lo] + x[lo..hi] + x[hi..];
      assert y == y[..lo] + y[lo..hi] + y[hi..];
    }
    Cut(feed, c, x, lo, hi);
    Cut(feed, c, y, lo, hi);
    WindowDetected(feed, xor, zero, fits, width, c', x[lo..hi], y[lo..hi]);
    assert xor(xs, xs) == zero;
    FoldInjective(feed, xs, ys, x[hi..]);
  }
}
