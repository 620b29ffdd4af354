/**
  Bit arithmetic used by the proof-of-work check: powers of two, the
  leading-zero count of one byte (`math/bits.LeadingZeros8`) and the big-endian value of a byte string.
 */
module Bits {

  /** An unsigned 8-bit value. */
  type byte = x: int | 0 <= x < 256

  function Pow2(n: nat): (r: nat)
    ensures r >= 1
  {
    if n == 0 then 1 else 2 * Pow2(n - 1)
  }

  lemma {:induction false} Pow2Monotone(a: nat, b: nat)
    requires a <= b
    ensures Pow2(a) <= Pow2(b)
  {
    if a < b {
      Pow2Monotone(a, b - 1);
    }
  }

  /** Eight more bits multiply by 256. */
  lemma {:induction false} Pow2Plus8(e: nat)
    ensures Pow2(e + 8) == 256 * Pow2(e)
  {
    if e == 0 {
      assert Pow2(8) == 256;
    } else {
      Pow2Plus8(e - 1);
      assert Pow2(e + 8) == 2 * Pow2(e - 1 + 8);
    }
  }

  /**
    The number of zero bits above the highest set bit of an 8-bit value:
    8 for zero, otherwise the `n` with 2^(7-n) <= x < 2^(8-n).
   */
  function LeadingZeros8(x: byte): (n: nat)
    ensures n <= 8
    ensures n == 8 <==> x == 0
    ensures x < Pow2(8 - n)
    ensures n < 8 ==> Pow2(7 - n) <= x
  {
    assert Pow2(8) == 256;
    if x >= 128 then 0
    else if x >= 64 then 1
    else if x >= 32 then 2
    else if x >= 16 then 3
    else if x >= 8 then 4
    else if x >= 4 then 5
    else if x >= 2 then 6
    else if x >= 1 then 7
    else 8
  }

  /** The value of `s` read as an unsigned big-endian number, `s[0]` most significant. */
  function BigEndian(s: seq<byte>): (v: nat)
  {
    if s == [] then 0 else 256 * BigEndian(s[..|s| - 1]) + s[|s| - 1]
  }

  /** A leading zero byte contributes nothing to the big-endian value. */
  lemma {:induction false} BigEndianZeroLead(t: seq<byte>)
    ensures BigEndian([0] + t) == BigEndian(t)
  {
    if t != [] {
      var s := [0] + t;
      assert s[..|s| - 1] == [0] + t[..|t| - 1];
      BigEndianZeroLead(t[..|t| - 1]);
    }
  }

  /**
    Bounds on the first byte of a non-empty string carry over to its value,
    shifted by 8 bits for every byte after it.
   */
  lemma {:induction false} BigEndianLeadBounds(s: seq<byte>, lo: nat, hi: nat)
    requires s != [] && Pow2(lo) <= s[0] < Pow2(hi)
    ensures Pow2(lo + 8 * (|s| - 1)) <= BigEndian(s) < Pow2(hi + 8 * (|s| - 1))
  {
    var front := s[..|s| - 1];
    if |s| == 1 {
      assert front == [];
    } else {
      assert front[0] == s[0];
      BigEndianLeadBounds(front, lo, hi);
      Pow2Plus8(lo + 8 * (|front| - 1));
      Pow2Plus8(hi + 8 * (|front| - 1));
      assert lo + 8 * (|front| - 1) + 8 == lo + 8 * (|s| - 1);
      assert hi + 8 * (|front| - 1) + 8 == hi + 8 * (|s| - 1);
    }
  }
}
