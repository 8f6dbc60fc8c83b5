/**
 The Internet checksum (cksum.c). The routine reads 16-bit words in the machine's byte order, from an even
 or odd address, in unrolled loops; its result is the one's complement sum of RFC 1071 all the same.
 */
module Cksums {
  import opened SeqNum

  /** C's `int`: an assignment that could overflow does not verify. */
  type i32 = x: int | -TWO_31 <= x < TWO_31

  /** The machine's byte order. */
  datatype Order = Little | Big {
    function Other(): Order { if Little? then Big else Little }

    /** A word as the machine reads it from two bytes. */
    function Word(c0: u8, c1: u8): (w: u16) {
      if Little? then c0 + 256 * c1 else 256 * c0 + c1
    }

    /** The bytes of a word as the machine writes it. */
    function Bytes(w: u16): (c: seq<u8>)
      ensures |c| == 2 && Word(c[0], c[1]) == w
    {
      if Little? then [w % 256, w / 256] else [w / 256, w % 256]
    }
  }

  // ------------------------------------------------------------------------------ RFC 1071, section 1

  /** What byte `b` at index `i` adds to the sum. */
  function Term(o: Order, i: nat, b: u8): (t: nat) {
    if i % 2 == 0 then o.Word(b, 0) else o.Word(0, b)
  }

  lemma TermMoves(o: Order, i: nat, b: u8)
    ensures Term(o, i + 1, b) == Term(o.Other(), i, b)
  {
  }

  lemma TermShift(o: Order, i: nat, b: u8)
    ensures Same(256 * Term(o, i, b), Term(o.Other(), i, b))
  {
    assert 256 * (256 * b) == 65535 * b + b;
  }

  /** The plain sum of the 16-bit words of `d`, an odd byte at the end being padded with zero. */
  function PlainSum(o: Order, d: seq<u8>): (s: nat) {
    if d == [] then 0
    else PlainSum(o, d[..|d| - 1]) + Term(o, |d| - 1, d[|d| - 1])
  }

  /** End-around carry: carries out of the 16 bits are added back in until none is left. */
  function Fold(n: nat): (r: u16)
    ensures r % 65535 == n % 65535 && (r == 0 <==> n == 0)
  {
    if n < 0x1_0000 then n else
      Congruent(n, n / 0x1_0000 + n % 0x1_0000, n / 0x1_0000);
      Fold(n / 0x1_0000 + n % 0x1_0000)
  }

  /** The checksum that RFC 1071 defines: the one's complement of the one's complement sum. */
  function Checksum(o: Order, d: seq<u8>): (r: u16) { 65535 - Fold(PlainSum(o, d)) }

  /** Two numbers have the same one's complement sum. */
  predicate Same(a: nat, b: nat) {
    a % 65535 == b % 65535 && (a == 0 <==> b == 0)
  }

  /** A 16-bit value is determined by its residue, except that 0 and 65535 differ. */
  lemma SameFold(a: nat, b: nat)
    requires Same(a, b)
    ensures Fold(a) == Fold(b)
  {
    hide Fold;
    var x, y := Fold(a), Fold(b);
    assert (x == 65535 <==> x != 0 && x % 65535 == 0) && (y == 65535 <==> y != 0 && y % 65535 == 0);
  }

  // ------------------------------------------------------------------------------------- the sum

  lemma PlainSumWord(o: Order, d: seq<u8>, k: nat)
    requires k % 2 == 0 && k + 2 <= |d|
    ensures PlainSum(o, d[..k + 2]) == PlainSum(o, d[..k]) + o.Word(d[k], d[k + 1])
  {
    assert d[..k + 2][..k + 1] == d[..k + 1] && d[..k + 1][..k] == d[..k];
  }

  lemma PlainSumLast(o: Order, d: seq<u8>)
    requires |d| % 2 == 1
    ensures PlainSum(o, d) == PlainSum(o, d[..|d| - 1]) + o.Word(d[|d| - 1], 0)
  {
    var k := |d| - 1;
    EvenTerm(o, k, d[k]);
    hide Term, Order.Word;
  }

  lemma EvenTerm(o: Order, k: nat, b: u8)
    requires (k + 1) % 2 == 1
    ensures Term(o, k, b) == o.Word(b, 0)
  {
  }

  /** Everything behind the first byte changes places: first bytes of words become second ones. */
  lemma {:induction false} PlainSumOdd(o: Order, b: u8, d: seq<u8>)
    ensures PlainSum(o, [b] + d) == o.Word(b, 0) + PlainSum(o.Other(), d)
  {
    if d == [] {
      assert [b] + d == [b] && [b][..0] == [];
    } else {
      var k := |d| - 1;
      assert ([b] + d)[..|d|] == [b] + d[..k];
      PlainSumOdd(o, b, d[..k]);
      TermMoves(o, k, d[k]);
      hide Term, Order.Other, Order.Word;
      assert ([b] + d)[|d|] == d[k];
    }
  }

  /** Shifting the sum by 8 bits exchanges the bytes of every word in it (RFC 1071, section 2 (B)). */
  lemma {:induction false} PlainSumShift(o: Order, d: seq<u8>)
    ensures Same(256 * PlainSum(o, d), PlainSum(o.Other(), d))
  {
    if d != [] {
      var k := |d| - 1;
      PlainSumShift(o, d[..k]);
      TermShift(o, k, d[k]);
      AddSame(256 * PlainSum(o, d[..k]), PlainSum(o.Other(), d[..k]), 256 * Term(o, k, d[k]), Term(o.Other(), k, d[k]));
      hide Term, Order.Other, Same;
    }
  }

  lemma Congruent(a: nat, b: nat, k: int)
    requires a == b + 65535 * k
    ensures a % 65535 == b % 65535
  {
    var q, r := b / 65535, b % 65535;
    assert a == 65535 * (q + k) + r;
  }

  lemma Apart(a: nat, b: nat) returns (k: int)
    requires a % 65535 == b % 65535
    ensures a == b + 65535 * k
  {
    k := a / 65535 - b / 65535;
  }

  lemma AddSame(a: nat, b: nat, x: nat, y: nat)
    requires Same(a, b) && Same(x, y)
    ensures Same(a + x, b + y)
  {
    var i := Apart(a, b);
    var k := Apart(x, y);
    Congruent(a + x, b + y, i + k);
  }

  lemma ShiftSame(a: nat, b: nat)
    requires Same(a, b)
    ensures Same(256 * a, 256 * b)
  {
    var i := Apart(a, b);
    Congruent(256 * a, 256 * b, 256 * i);
  }

  lemma ReduceKeeps(sum: nat, s: nat)
    requires sum < 0x8000_0000 && s == sum % 0x1_0000 + sum / 0x1_0000
    ensures s < 2 * 65535 && Same(s, sum) && (s > 65535 ==> Same(s - 65535, sum))
  {
    Congruent(sum, s, sum / 0x1_0000);
    if s > 65535 {
      Congruent(s, s - 65535, 1);
    }
  }

  /** The macro REDUCE with its ADDCARRY. */
  function Reduce(sum: i32): (r: i32)
    requires 0 <= sum
    ensures 0 <= r <= 65535 && Same(r, sum)
  {
    var s := sum % 0x1_0000 + sum / 0x1_0000;
    ReduceKeeps(sum, s);
    if s > 65535 then s - 65535 else s
  }

  /** A 16-bit value with the right one's complement sum is the folded sum. */
  lemma ReducedIsFold(r: nat, n: nat)
    requires r <= 65535 && Same(r, n)
    ensures r == Fold(n)
  {
    SameFold(r, n);
  }

  /** The value after reading bytes `from` to `to`, two at a time, in an unrolled loop. */
  lemma Unrolled4(o: Order, d: seq<u8>, k: nat)
    requires k % 2 == 0 && k + 8 <= |d|
    ensures PlainSum(o, d[..k + 8]) == PlainSum(o, d[..k]) + o.Word(d[k], d[k + 1]) + o.Word(d[k + 2], d[k + 3])
                                       + o.Word(d[k + 4], d[k + 5]) + o.Word(d[k + 6], d[k + 7])
  {
    hide Order.Word, PlainSum;
    PlainSumWord(o, d, k);
    PlainSumWord(o, d, k + 2);
    PlainSumWord(o, d, k + 4);
    PlainSumWord(o, d, k + 6);
  }

  /** Sixteen additions of a word each. */
  method SumSixteen(o: Order, e: seq<u8>, w: nat, sum0: i32) returns (sum: i32)
    requires w % 2 == 0 && w + 32 <= |e| <= 0x1_0000 && 0 <= sum0 && sum0 == PlainSum(o, e[..w])
    ensures 0 <= sum && sum == PlainSum(o, e[..w + 32])
  {
    hide PlainSum;
    sum := SumFour(o, e, w, sum0);
    sum := SumFour(o, e, w + 8, sum);
    sum := SumFour(o, e, w + 16, sum);
    sum := SumFour(o, e, w + 24, sum);
  }

  /** The loops unrolled by 16 and by 4 words, for bytes `e` that begin at an even address. */
  method SumBlocks(o: Order, e: seq<u8>) returns (sum: i32, w: nat, mlen: int)
    requires |e| <= 0x1_0000
    ensures w % 2 == 0 && 0 <= mlen < 8 && w + mlen == |e| && 0 <= sum && sum == PlainSum(o, e[..w])
  {
    hide PlainSum, Order.Word;
    sum, w, mlen := 0, 0, |e| - 32;
    EmptySum(o, e);
    while mlen >= 0
      invariant w % 2 == 0 && mlen + 32 >= 0 && w + mlen + 32 == |e| && 0 <= sum && sum == PlainSum(o, e[..w])
    {
      sum := SumSixteen(o, e, w, sum);
      w := w + 32;
      mlen := mlen - 32;
    }
    mlen := mlen + 32;
    mlen := mlen - 8;
    while mlen >= 0
      invariant w % 2 == 0 && mlen + 8 >= 0 && w + mlen + 8 == |e| && 0 <= sum && sum == PlainSum(o, e[..w])
    {
      sum := SumFour(o, e, w, sum);
      w := w + 8;
      mlen := mlen - 8;
    }
    mlen := mlen + 8;
  }

  lemma EmptySum(o: Order, e: seq<u8>)
    ensures PlainSum(o, e[..0]) == 0
  {
  }

  /** A plain sum over at most 65536 bytes stays below 2^31. */
  lemma NoOverflow(o: Order, e: seq<u8>, k: nat)
    requires k <= |e| <= 0x1_0000 && k % 2 == 0
    ensures 0 <= PlainSum(o, e[..k]) < TWO_31
  {
    PlainSumBound(o, e[..k]);
  }

  lemma {:induction false} PlainSumBound(o: Order, d: seq<u8>)
    requires |d| % 2 == 0
    ensures 2 * PlainSum(o, d) <= 65535 * |d|
    decreases |d|
  {
    if d != [] {
      var k := |d| - 2;
      PlainSumBound(o, d[..k]);
      PlainSumWord(o, d, k);
      assert d[..k + 2] == d;
    }
  }

  /** Four additions of a word each; none of them overflows. */
  method SumFour(o: Order, e: seq<u8>, w: nat, sum0: i32) returns (sum: i32)
    requires w % 2 == 0 && w + 8 <= |e| <= 0x1_0000 && 0 <= sum0 && sum0 == PlainSum(o, e[..w])
    ensures 0 <= sum && sum == PlainSum(o, e[..w + 8])
  {
    hide PlainSum, Order.Word;
    NoOverflow(o, e, w + 8);
    Unrolled4(o, e, w);
    sum := sum0 + o.Word(e[w], e[w + 1]);
    sum := sum + o.Word(e[w + 2], e[w + 3]);
    sum := sum + o.Word(e[w + 4], e[w + 5]);
    sum := sum + o.Word(e[w + 6], e[w + 7]);
  }

  /** One word more. */
  method SumOne(o: Order, e: seq<u8>, w: nat, sum0: i32) returns (sum: i32)
    requires w % 2 == 0 && w + 2 <= |e| && 0 <= sum0 <= 0x100_0000 && Same(sum0, PlainSum(o, e[..w]))
    ensures sum0 <= sum <= sum0 + 65535 && Same(sum, PlainSum(o, e[..w + 2]))
  {
    hide PlainSum, Order.Word, Same;
    var word := o.Word(e[w], e[w + 1]);
    PlainSumWord(o, e, w);
    SameSelf(word);
    AddSame(sum0, PlainSum(o, e[..w]), word, word);
    sum := sum0 + word;
  }

  /** The loop over the words that remain; `mlen` ends as -1 when one more byte is left, else as -2. */
  method SumWords(o: Order, e: seq<u8>, w0: nat, sum0: i32) returns (sum: i32, w: nat, mlen: int)
    requires w0 % 2 == 0 && w0 <= |e| < w0 + 8 && 0 <= sum0 <= 65535 && Same(sum0, PlainSum(o, e[..w0]))
    ensures 0 <= sum <= 4 * 65535 && w % 2 == 0 && w + mlen + 2 == |e| && (mlen == -1 || mlen == -2)
    ensures Same(sum, PlainSum(o, e[..w]))
  {
    hide PlainSum, Order.Word, Same;
    sum, w, mlen := sum0, w0, |e| - w0 - 2;
    while mlen >= 0
      invariant w % 2 == 0 && w0 <= w && -2 <= mlen && w + mlen + 2 == |e|
      invariant 0 <= 2 * sum <= 65535 * (2 + w - w0) && Same(sum, PlainSum(o, e[..w]))
    {
      sum := SumOne(o, e, w, sum);
      w := w + 2;
      mlen := mlen - 2;
    }
  }

  lemma SameSelf(x: nat)
    ensures Same(x, x)
  {
  }

  lemma SameTrans(x: nat, y: nat, z: nat)
    requires Same(x, y) && Same(y, z)
    ensures Same(x, z)
  {
  }

  /** The end of an even-aligned run. */
  lemma TailEven(o: Order, d: seq<u8>, w: nat, sum: nat)
    requires w % 2 == 0 && w <= |d| <= w + 1 && Same(sum, PlainSum(o, d[..w]))
    ensures w == |d| ==> Same(sum, PlainSum(o, d))
    ensures w < |d| ==> Same(sum + o.Word(d[w], 0), PlainSum(o, d))
  {
    hide PlainSum, Order.Word, Same;
    if w == |d| {
      assert d[..w] == d;
    } else {
      PlainSumLast(o, d);
      SameSelf(o.Word(d[w], 0));
      AddSame(sum, PlainSum(o, d[..w]), o.Word(d[w], 0), o.Word(d[w], 0));
    }
  }

  lemma WordParts(o: Order, c0: u8, c1: u8)
    ensures o.Word(c0, c1) == o.Word(c0, 0) + o.Other().Word(c1, 0)
  {
  }

  /** The end of an odd-aligned run: the first byte `b` and the last one share a word. */
  lemma TailOdd(o: Order, b: u8, e: seq<u8>, w: nat, sum: nat)
    requires w % 2 == 0 && w <= |e| <= w + 1 && Same(sum, PlainSum(o, e[..w]))
    ensures Same(256 * sum + o.Word(b, if w < |e| then e[w] else 0), PlainSum(o, [b] + e))
  {
    hide PlainSum, Order.Word, Order.Other, Same;
    var c1 := if w < |e| then e[w] else 0;
    ShiftSame(sum, PlainSum(o, e[..w]));
    PlainSumShift(o, e[..w]);
    SameTrans(256 * sum, 256 * PlainSum(o, e[..w]), PlainSum(o.Other(), e[..w]));
    TailEven(o.Other(), e, w, 256 * sum);
    PlainSumOdd(o, b, e);
    SameSelf(o.Word(b, 0));
    WordParts(o, b, c1);
    WordParts(o, b, 0);
    var t := if w < |e| then 256 * sum + o.Other().Word(c1, 0) else 256 * sum;
    AddSame(t, PlainSum(o.Other(), e), o.Word(b, 0), o.Word(b, 0));
    ZeroWord(o.Other());
  }

  lemma ZeroWord(o: Order)
    ensures o.Word(0, 0) == 0
  {
  }

  /** The three loops in a row; `rest` is false when the unrolled ones have done everything. */
  method SumRun(o: Order, e: seq<u8>, byte_swapped: bool) returns (sum: i32, w: nat, mlen: int, rest: bool)
    requires |e| <= 0x1_0000
    ensures 0 <= sum && (rest ==> sum <= 4 * 65535)
    ensures rest ==> w % 2 == 0 && w + mlen + 2 == |e| && (mlen == -1 || mlen == -2) && Same(sum, PlainSum(o, e[..w]))
    ensures !rest ==> mlen == 0 && !byte_swapped && Same(sum, PlainSum(o, e))
  {
    hide PlainSum, Same;
    sum, w, mlen := SumBlocks(o, e);
    SameSelf(sum);
    rest := !(mlen == 0 && !byte_swapped);
    if rest {
      sum := ReduceStep(sum, PlainSum(o, e[..w]));
      sum, w, mlen := SumWords(o, e, w, sum);
    } else {
      assert e[..w] == e;
    }
  }

  /**
   cksum: `mbuf` holds the bytes of the mbuf, `odd` says whether they begin at an odd address, and `o` is
   the machine's byte order. The result is the checksum of RFC 1071 in every case, and the signed
   accumulator never overflows.
   */
  method Cksum(o: Order, odd: bool, mbuf: seq<u8>, len: nat) returns (r: u16)
    requires |mbuf| <= 0x1_0000
    ensures r == Checksum(o, mbuf[..Min(len, |mbuf|)])
  {
    hide PlainSum, Order.Word, Same, Fold;
    var sum: i32, mlen: int, byte_swapped, w := 0, 0, false, 0;
    var c0: u8, c1: u8 := 0, 0;
    ghost var data := mbuf[..Min(len, |mbuf|)];
    EmptySum(o, mbuf);
    SameSelf(0);
    if |mbuf| != 0 {
      mlen := Min(len, |mbuf|);
      var base := 0;
      if odd && mlen > 0 {
        sum := Reduce(sum);
        sum := sum * 256;
        c0 := mbuf[0];
        base := 1;
        mlen := mlen - 1;
        byte_swapped := true;
      }
      var e := mbuf[base..base + mlen];
      var rest;
      sum, w, mlen, rest := SumRun(o, e, byte_swapped);
      if rest {
        if byte_swapped {
          assert data == [c0] + e;
          sum := ReduceStep(sum, PlainSum(o, e[..w]));
          TailOdd(o, c0, e, w, sum);
          sum := sum * 256;
          if mlen == -1 {
            c1 := e[w];
            sum := sum + o.Word(c0, c1);
            mlen := 0;
          } else {
            mlen := -1;
          }
        } else if mlen == -1 {
          c0 := e[w];
        }
        if !byte_swapped {
          assert e == data;
          TailEven(o, data, w, sum);
        }
      } else {
        assert e == data;
      }
    }
    if mlen == -1 {
      c1 := 0;
      sum := sum + o.Word(c0, c1);
    }
    assert Same(sum, PlainSum(o, data));
    sum := ReduceStep(sum, PlainSum(o, data));
    ReducedIsFold(sum, PlainSum(o, data));
    r := 65535 - sum;
  }

  method ReduceStep(sum: i32, ghost n: nat) returns (r: i32)
    requires 0 <= sum && Same(sum, n)
    ensures 0 <= r <= 65535 && Same(r, n) && r == Reduce(sum)
  {
    r := Reduce(sum);
  }

  // --------------------------------------------------------------------- what the checksum is for

  /** Both byte orders put the same two checksum bytes into memory (RFC 1071, section 2 (B)). */
  lemma ByteOrderIndependent(d: seq<u8>)
    ensures Little.Bytes(Checksum(Little, d)) == Big.Bytes(Checksum(Big, d))
  {
    hide Fold, PlainSum;
    PlainSumShift(Little, d);
    Swapped(Fold(PlainSum(Little, d)), Fold(PlainSum(Big, d)), PlainSum(Little, d), PlainSum(Big, d));
  }

  /** Folding a byte-swapped sum gives the byte-swapped result. */
  lemma Swapped(x: u16, y: u16, m: nat, n: nat)
    requires Same(x, m) && Same(y, n) && Same(256 * m, n)
    ensures Little.Bytes(65535 - x) == Big.Bytes(65535 - y)
  {
    hide Same, Order.Bytes;
    var h, l := x / 256, x % 256;
    SwapSame(h, l);
    ShiftSame(x, m);
    SameTrans(256 * x, 256 * m, n);
    Unique(256 * l + h, y, 256 * x, n);
    MirroredBytes(h, l);
  }

  lemma MirroredBytes(h: nat, l: nat)
    requires h < 256 && l < 256
    ensures Little.Bytes(65535 - (256 * h + l)) == Big.Bytes(65535 - (256 * l + h))
  {
    Digits(255 - h, 255 - l);
    Digits(255 - l, 255 - h);
  }

  lemma Digits(h: nat, l: nat)
    requires h < 256 && l < 256
    ensures (256 * h + l) / 256 == h && (256 * h + l) % 256 == l
  {
  }

  lemma SwapSame(h: nat, l: nat)
    ensures Same(256 * (256 * h + l), 256 * l + h)
  {
    assert 256 * (256 * h + l) == 65535 * h + (256 * l + h);
  }

  lemma Unique(x: nat, y: nat, m: nat, n: nat)
    requires x <= 65535 && y <= 65535 && Same(m, x) && Same(m, n) && Same(y, n)
    ensures x == y
  {
  }

  /** Storing value `v` in an aligned field that was zero adds `v` to the sum. */
  lemma {:induction false} StoreAdds(o: Order, d: seq<u8>, k: nat, v: u16, d': seq<u8>)
    requires k % 2 == 0 && k + 2 <= |d| && d[k] == d[k + 1] == 0
    requires d' == d[k := o.Bytes(v)[0]][k + 1 := o.Bytes(v)[1]]
    ensures PlainSum(o, d') == PlainSum(o, d) + v
    decreases |d|
  {
    hide Term, Order.Word;
    var l := |d| - 1;
    if l == k + 1 {
      assert d[..k + 2] == d && d'[..k + 2] == d' && d'[..k] == d[..k];
      PlainSumWord(o, d, k);
      PlainSumWord(o, d', k);
      ZeroWord(o);
    } else {
      assert d'[..l] == d[..l][k := o.Bytes(v)[0]][k + 1 := o.Bytes(v)[1]];
      StoreAdds(o, d[..l], k, v, d'[..l]);
    }
  }

  /**
   A packet whose checksum field holds `v` passes the check if and only if `v` is the checksum computed over
   the packet with the field zeroed, or 65535 where that checksum is 0 (what UDP sends instead, since there
   zero means no checksum).
   */
  lemma PassesIff(o: Order, d: seq<u8>, k: nat, v: u16, d': seq<u8>)
    requires k % 2 == 0 && k + 2 <= |d| && d[k] == d[k + 1] == 0
    requires d' == d[k := o.Bytes(v)[0]][k + 1 := o.Bytes(v)[1]]
    ensures Checksum(o, d') == 0 <==> v == Checksum(o, d) || (Checksum(o, d) == 0 && v == 0xffff)
  {
    hide PlainSum, Fold;
    StoreAdds(o, d, k, v, d');
    var f, n := Fold(PlainSum(o, d)), PlainSum(o, d);
    assert n == f + 65535 * (n / 65535 - f / 65535);
    SumsToZero(f, n, v);
  }

  lemma SumsToZero(f: u16, n: nat, v: u16)
    requires f == Fold(n)
    ensures Fold(n + v) == 65535 <==> v == 65535 - f || (f == 65535 && v == 65535)
  {
    hide Fold;
    var i, j := n / 65535, f / 65535;
    assert (n + v) - (f + v) == 65535 * (i - j);
  }

  /** Any change of a single byte changes the checksum. */
  lemma {:induction false} SingleByteErrorDetected(o: Order, d: seq<u8>, k: nat, b: u8)
    requires k < |d| && d[k] != b
    ensures Checksum(o, d[k := b]) != Checksum(o, d)
  {
    hide Fold, PlainSum;
    ByteChange(o, d, k, b);
    var m, n := PlainSum(o, d[k := b]), PlainSum(o, d);
    if Fold(m) == Fold(n) {
      assert m - n == 65535 * (m / 65535 - n / 65535);
      Divides(m - n, m / 65535 - n / 65535);
    }
  }

  lemma Divides(x: int, q: int)
    requires x == 65535 * q && -65535 < x < 65535
    ensures x == 0
  {
  }

  lemma {:induction false} ByteChange(o: Order, d: seq<u8>, k: nat, b: u8)
    requires k < |d|
    ensures PlainSum(o, d[k := b]) - PlainSum(o, d) == Term(o, k, b) - Term(o, k, d[k])
    decreases |d|
  {
    var l := |d| - 1;
    if l == k {
      assert d[k := b][..l] == d[..l];
    } else {
      assert d[k := b][..l] == d[..l][k := b];
      ByteChange(o, d[..l], k, b);
    }
  }
}
