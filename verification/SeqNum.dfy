/**
 Machine integers of the C sources and the 32-bit TCP sequence space.

 A sequence number is the image of an unbounded position: position 0 is the octet right after
 the SYN, and `At(isn, p)` is the number the code carries for position `p`.
 */
module SeqNum {

  const TWO_31: int := 0x8000_0000
  const TWO_32: int := 0x1_0000_0000

  type u8 = x: int | 0 <= x < 0x100
  type u16 = x: int | 0 <= x < 0x1_0000
  type u32 = x: int | 0 <= x < TWO_32

  function Min(a: int, b: int): int { if a < b then a else b }

  function Max(a: int, b: int): int { if a < b then b else a }

  /** Conversion to `uint32_t`. */
  function U32(x: int): (r: u32) { x % TWO_32 }

  /** Conversion to `short` (two's complement). */
  function S16(x: int): (r: int)
    ensures -0x8000 <= r < 0x8000
    ensures -0x8000 <= x < 0x8000 ==> r == x
  {
    (x + 0x8000) % 0x1_0000 - 0x8000
  }

  /** `(int)((a) - (b))` on two `tcp_seq` values. */
  function Diff(a: u32, b: u32): (r: int)
    ensures -TWO_31 <= r < TWO_31
    ensures (r - (a - b)) % TWO_32 == 0
  {
    (a - b + TWO_31) % TWO_32 - TWO_31
  }

  predicate SeqLt(a: u32, b: u32) { Diff(a, b) < 0 }

  predicate SeqLeq(a: u32, b: u32) { Diff(a, b) <= 0 }

  predicate SeqGt(a: u32, b: u32) { Diff(a, b) > 0 }

  /** The sequence number of stream position `p`. */
  function At(isn: u32, p: int): (s: u32) { (isn + 1 + p) % TWO_32 }

  /** Comparing numbers is comparing positions as long as they are less than 2^31 apart. */
  lemma DiffAt(isn: u32, p: int, q: int)
    requires -TWO_31 <= p - q < TWO_31
    ensures Diff(At(isn, p), At(isn, q)) == p - q
  {
    var d := Diff(At(isn, p), At(isn, q));
    var kp, kq := (isn + 1 + p) / TWO_32, (isn + 1 + q) / TWO_32;
    assert At(isn, p) - At(isn, q) == p - q - TWO_32 * (kp - kq);
  }

  /** Outside that range the comparison is wrong, so the bound cannot be widened. */
  lemma DiffAtTight(isn: u32)
    ensures Diff(At(isn, TWO_31), At(isn, 0)) < 0 && SeqLt(At(isn, TWO_31), At(isn, 0))
  {
    assert (At(isn, TWO_31) - At(isn, 0)) % TWO_32 == TWO_31;
  }

  /** `SEQ + n` in the code is the number of the position `n` further on. */
  lemma AddAt(isn: u32, p: int, n: int)
    ensures U32(At(isn, p) + n) == At(isn, p + n)
  {
    var k := (isn + 1 + p) / TWO_32;
    assert At(isn, p) + n == isn + 1 + p + n - TWO_32 * k;
  }

  /** Every number, seen from position `q`, is the number of exactly one position near `q`. */
  lemma AtDiff(isn: u32, s: u32, q: int)
    ensures s == At(isn, q + Diff(s, At(isn, q)))
  {
    var d := Diff(s, At(isn, q));
    var k := (isn + 1 + q) / TWO_32;
    assert (isn + 1 + q + d) - s == (d - (s - At(isn, q))) + TWO_32 * k;
  }

  /** Unsigned subtraction of sequence numbers gives the distance when it is not negative. */
  lemma UnsignedDistance(isn: u32, p: int, q: int)
    requires 0 <= p - q < TWO_32
    ensures U32(At(isn, p) - At(isn, q)) == p - q
  {
    var kp, kq := (isn + 1 + p) / TWO_32, (isn + 1 + q) / TWO_32;
    assert At(isn, p) - At(isn, q) == p - q - TWO_32 * (kp - kq);
  }

  /** When it is negative, the unsigned subtraction wraps to a number close to 2^32. */
  lemma NegativeDistance(isn: u32, p: int, q: int)
    requires 0 < p - q < TWO_32
    ensures U32(At(isn, q) - At(isn, p)) == TWO_32 - (p - q)
  {
    var kp, kq := (isn + 1 + p) / TWO_32, (isn + 1 + q) / TWO_32;
    assert At(isn, q) - At(isn, p) == q - p - TWO_32 * (kq - kp);
  }

  lemma AtPeriodic(isn: u32, p: int)
    ensures At(isn, p + TWO_32) == At(isn, p)
  {
    var k := (isn + 1 + p) / TWO_32;
    assert (isn + 1 + p + TWO_32) - TWO_32 * (k + 1) == At(isn, p);
  }
}
