/** Bytes as the firmware sees them, and the little-endian words of the wire formats. */
module Bytes {

  type byte = bv8

  /** The unsigned value of the first `n` bytes read little-endian. */
  function LeValue(s: seq<byte>): (v: nat)
  {
    if s == [] then 0 else (s[0] as int) + 256 * LeValue(s[1..])
  }

  /** `n` little-endian bytes of `v`; only the low `8 * n` bits survive. */
  function LeBytes(v: nat, n: nat): (s: seq<byte>)
    ensures |s| == n
  {
    if n == 0 then [] else [(v % 256) as bv8] + LeBytes(v / 256, n - 1)
  }

  /** 256 to the power `n`: how many values `n` bytes can hold. */
  function Span(n: nat): (p: nat)
    ensures p > 0
  {
    if n == 0 then 1 else 256 * Span(n - 1)
  }

  lemma ByteRoundTrip(n: nat)
    requires n < 256
    ensures (n as bv8) as int == n
  {
    if n < 128 {
      if n < 64 {
      } else {
      }
    } else {
      if n < 192 {
      } else {
      }
    }
  }

  lemma ByteBack(b: byte)
    ensures (b as int) as bv8 == b
  {
  }

  lemma {:induction false} LeValueBytes(v: nat, n: nat)
    requires v < Span(n)
    ensures LeValue(LeBytes(v, n)) == v
  {
    if n != 0 {
      LeValueBytes(v / 256, n - 1);
      ByteRoundTrip(v % 256);
      assert LeBytes(v, n)[1..] == LeBytes(v / 256, n - 1);
    }
  }

  lemma DigitBack(b: nat, rest: nat)
    requires b < 256
    ensures (b + 256 * rest) % 256 == b && (b + 256 * rest) / 256 == rest
  {
  }

  lemma {:induction false} LeBytesValue(s: seq<byte>)
    ensures LeValue(s) < Span(|s|)
    ensures LeBytes(LeValue(s), |s|) == s
  {
    if s != [] {
      LeBytesValue(s[1..]);
      var b := s[0] as int;
      ByteBack(s[0]);
      DigitBack(b, LeValue(s[1..]));
      assert [s[0]] + s[1..] == s;
    }
  }

  // ---------------------------------------------------------------- bits by weight

  function Pow2(k: nat): (p: nat)
    ensures p > 0
  {
    if k == 0 then 1 else 2 * Pow2(k - 1)
  }

  /** The bit of weight 2^k, zero or one. */
  function BitAt(b: byte, k: nat): (bit: nat)
    ensures bit < 2
  {
    b as int / Pow2(k) % 2
  }
}
