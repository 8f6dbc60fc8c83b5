/**
 The socket buffer of sbuf.c: a circular byte buffer with a read and a write index. When the two
 indices coincide the buffer is empty or full, and only the byte count tells which.
 */
module Sbufs {
  import opened SeqNum

  /** `a` with the bytes from index `at` on replaced by `src`. */
  function Splice(a: seq<u8>, at: nat, src: seq<u8>): (b: seq<u8>)
    requires at + |src| <= |a|
    ensures |b| == |a|
    ensures forall i :: 0 <= i < |a| ==> b[i] == if at <= i < at + |src| then src[i - at] else a[i]
  {
    a[..at] + src + a[at + |src|..]
  }

  /** Copies `src` into `dst` from index `at` on. */
  method MemCpy(dst: array<u8>, at: nat, src: seq<u8>)
    requires at + |src| <= dst.Length
    modifies dst
    ensures dst[..] == Splice(old(dst[..]), at, src)
  {
    for i := 0 to |src|
      invariant dst[..at] == old(dst[..at])
      invariant dst[at..at + i] == src[..i]
      invariant dst[at + i..] == old(dst[at + i..])
    {
      dst[at + i] := src[i];
    }
  }

  /** The `cc` bytes of a ring `a` that start at index `r`. */
  function Window(a: seq<u8>, r: nat, cc: nat): (s: seq<u8>)
    requires r < |a| && cc <= |a|
    ensures |s| == cc
  {
    if r + cc <= |a| then a[r..r + cc] else a[r..] + a[..r + cc - |a|]
  }

  /** `i` steps forward from index `r` in a ring of `n` places, `0 <= i <= n`. */
  function Fwd(n: nat, r: nat, i: nat): (j: nat)
    requires r < n && i <= n
    ensures j < n
  {
    if r + i < n then r + i else r + i - n
  }

  lemma WindowAt(a: seq<u8>, r: nat, cc: nat, i: nat)
    requires r < |a| && i < cc <= |a|
    ensures Window(a, r, cc)[i] == a[Fwd(|a|, r, i)]
  {
  }

  /** A window is known by its bytes. */
  lemma WindowByIndex(a: seq<u8>, r: nat, s: seq<u8>)
    requires r < |a| && |s| <= |a|
    requires forall i :: 0 <= i < |s| ==> a[Fwd(|a|, r, i)] == s[i]
    ensures Window(a, r, |s|) == s
  {
    forall i | 0 <= i < |s|
      ensures Window(a, r, |s|)[i] == s[i]
    {
      WindowAt(a, r, |s|, i);
    }
  }

  /** Dropping from the front of a window is moving its start. */
  lemma WindowDrop(a: seq<u8>, r: nat, cc: nat, k: nat)
    requires r < |a| && k <= cc <= |a|
    ensures Window(a, Fwd(|a|, r, k), cc - k) == Window(a, r, cc)[k..]
  {
    hide Window;
    var s := Window(a, r, cc)[k..];
    forall i | 0 <= i < cc - k
      ensures a[Fwd(|a|, Fwd(|a|, r, k), i)] == s[i]
    {
      WindowAt(a, r, cc, k + i);
    }
    WindowByIndex(a, Fwd(|a|, r, k), s);
  }

  /** How far a run of `len` bytes gets before the end of the ring, when it is written at `w`. */
  function FirstRun(size: nat, r: nat, w: nat, len: nat): (n: nat)
    requires w <= size
  {
    if w < r then len else Min(len, size - w)
  }

  /** The free places of a ring with its contents at `r` and its write index at `w` can take `len` bytes. */
  predicate Room(size: nat, r: nat, w: nat, len: nat) {
    r < size && w < size && if w < r then w + len <= r else len <= size - w + r
  }

  /** The ring after a run `m` has been written right behind a window, around the corner if need be. */
  function Written(a: seq<u8>, r: nat, w: nat, m: seq<u8>): (b: seq<u8>)
    requires Room(|a|, r, w, |m|)
    ensures |b| == |a|
    ensures var n := FirstRun(|a|, r, w, |m|);
            forall f :: 0 <= f < |a| ==>
              b[f] == if f < |m| - n then m[n + f] else if w <= f < w + n then m[f - w] else a[f]
  {
    var n := FirstRun(|a|, r, w, |m|);
    if n == |m| then Splice(a, w, m) else Splice(Splice(a, w, m[..n]), 0, m[n..])
  }

  lemma WrittenAt(a: seq<u8>, r: nat, cc: nat, m: seq<u8>, s: seq<u8>, i: nat)
    requires r < |a| && i < cc + |m| <= |a|
    requires s == Window(a, r, cc) + m
    ensures Room(|a|, r, Fwd(|a|, r, cc), |m|)
    ensures Written(a, r, Fwd(|a|, r, cc), m)[Fwd(|a|, r, i)] == s[i]
  {
    hide Written, Splice, Window;
    if i < cc {
      WindowAt(a, r, cc, i);
    }
  }

  /** Writing inside the free space leaves the window alone and extends it by what was written. */
  lemma WindowExtend(a: seq<u8>, r: nat, w: nat, cc: nat, m: seq<u8>, b: seq<u8>, s: seq<u8>)
    requires r < |a| && cc + |m| <= |a| && w == Fwd(|a|, r, cc)
    requires Room(|a|, r, w, |m|) && b == Written(a, r, w, m)
    requires s == Window(a, r, cc) + m
    ensures Window(b, r, cc + |m|) == s
  {
    forall i | 0 <= i < |s|
      ensures b[Fwd(|a|, r, i)] == s[i]
    {
      WrittenAt(a, r, cc, m, s, i);
    }
    WindowByIndex(b, r, s);
  }

  lemma SpliceJoin(a: seq<u8>, at: nat, x: seq<u8>, y: seq<u8>)
    requires at + |x| + |y| <= |a|
    ensures Splice(Splice(a, at, x), at + |x|, y) == Splice(a, at, x + y)
  {
  }

  /** Copies two runs one behind the other, the second only if there is anything in it. */
  method CopyRuns(to: array<u8>, at: nat, run: seq<u8>, rest: seq<u8>)
    requires at + |run| + |rest| <= to.Length
    modifies to
    ensures to[..] == Splice(old(to[..]), at, run + rest)
  {
    hide Splice;
    MemCpy(to, at, run);
    if |rest| > 0 {
      SpliceJoin(old(to[..]), at, run, rest);
      MemCpy(to, at + |run|, rest);
    } else {
      assert run + rest == run;
    }
  }

  /** A stretch of a window is one run of the ring, or two around the corner. */
  lemma WindowSlice(a: seq<u8>, r: nat, cc: nat, off: nat, len: nat)
    requires r < |a| && off + len <= cc <= |a|
    ensures var f := Fwd(|a|, r, off);
            var k := if f < Fwd(|a|, r, cc) then len else Min(len, |a| - f);
            && f + k <= |a| && len - k <= |a|
            && Window(a, r, cc)[off..off + len] == a[f..f + k] + a[..len - k]
  {
    hide Window, Fwd;
    var f := Fwd(|a|, r, off);
    var k := if f < Fwd(|a|, r, cc) then len else Min(len, |a| - f);
    SliceInRuns(|a|, r, cc, off, len);
    var w, s := Window(a, r, cc), a[f..f + k] + a[..len - k];
    forall i | 0 <= i < len
      ensures w[off..off + len][i] == s[i]
    {
      WindowAt(a, r, cc, off + i);
      SliceIndex(|a|, r, cc, off, len, i);
    }
  }

  lemma SliceInRuns(n: nat, r: nat, cc: nat, off: nat, len: nat)
    requires r < n && off + len <= cc <= n
    ensures var f := Fwd(n, r, off);
            var k := if f < Fwd(n, r, cc) then len else Min(len, n - f);
            f + k <= n && 0 <= len - k <= n
  {
  }

  lemma SliceIndex(n: nat, r: nat, cc: nat, off: nat, len: nat, i: nat)
    requires r < n && off + len <= cc <= n && i < len
    ensures var f := Fwd(n, r, off);
            var k := if f < Fwd(n, r, cc) then len else Min(len, n - f);
            Fwd(n, r, off + i) == if i < k then f + i else i - k
  {
  }

  /** One of the two iovecs that sopreprbuf fills in: `len` places from index `at` on. */
  datatype Region = Region(at: nat, len: nat)

  class Sbuf {
    const data: array<u8>
    var cc: nat
    var rptr: nat
    var wptr: nat

    predicate Valid()
      reads this
    {
      0 < data.Length && rptr < data.Length && cc <= data.Length && wptr == Fwd(data.Length, rptr, cc)
    }

    /** The bytes held, oldest first. */
    ghost function Contents(): (s: seq<u8>)
      reads this, data
      requires Valid()
      ensures |s| == cc
    {
      Window(data[..], rptr, cc)
    }

    function Space(): (n: nat)
      reads this
      requires Valid()
      ensures n + cc == data.Length
    {
      data.Length - cc
    }

    /** sbreserve. */
    constructor (size: nat)
      requires 0 < size
      ensures Valid() && Contents() == [] && data.Length == size && fresh(data)
    {
      data := new u8[size](_ => 0);
      cc, rptr, wptr := 0, 0, 0;
    }

    /** Moves the read index over the oldest `n` bytes. */
    method Advance(n: nat)
      requires Valid() && n <= cc
      modifies this`cc, this`rptr
      ensures Valid() && Contents() == old(Contents())[n..]
    {
      WindowDrop(data[..], rptr, cc, n);
      cc := cc - n;
      rptr := rptr + n;
      if rptr >= data.Length {
        rptr := rptr - data.Length;
      }
    }

    /** sbdrop: drops the oldest `num` bytes, or all when there are fewer; the result asks for a notification. */
    method SbDrop(num: nat) returns (notify: bool)
      requires Valid()
      modifies this
      ensures Valid() && Contents() == old(Contents())[Min(num, old(cc))..]
      ensures notify <==> |Contents()| < data.Length / 2 <= |old(Contents())|
    {
      var limit := data.Length / 2;
      var n := if num > cc then cc else num;
      Advance(n);
      notify := cc < limit && cc + n >= limit;
    }

    /** The copying half of sbappendsb: one or two runs of bytes. */
    method CopyIn(m: seq<u8>) returns (n: nat)
      requires Room(data.Length, rptr, wptr, |m|)
      modifies data
      ensures n == |m| && data[..] == Written(old(data[..]), rptr, wptr, m)
    {
      var len := |m|;
      if wptr < rptr {
        n := rptr - wptr;
        if n > len {
          n := len;
        }
        assert m[..n] == m;
        MemCpy(data, wptr, m[..n]);
      } else {
        n := data.Length - wptr;
        if n > len {
          n := len;
        }
        assert n == len ==> m[..n] == m;
        MemCpy(data, wptr, m[..n]);
        len := len - n;
        if len > 0 {
          var nn := rptr;
          if nn > len {
            nn := len;
          }
          assert m[n..n + nn] == m[n..];
          MemCpy(data, 0, m[n..n + nn]);
          n := n + nn;
        }
      }
    }

    /** Moves the write index over `n` bytes that have just been written behind the contents. */
    method Extend(n: nat, ghost before: seq<u8>, ghost m: seq<u8>)
      requires Valid() && n == |m| <= Space() && |before| == data.Length
      requires Room(data.Length, rptr, wptr, n) && data[..] == Written(before, rptr, wptr, m)
      modifies this`cc, this`wptr
      ensures Valid() && cc == old(cc) + n && Contents() == Window(before, rptr, old(cc)) + m
    {
      WindowExtend(before, rptr, wptr, cc, m, data[..], Window(before, rptr, cc) + m);
      cc := cc + n;
      wptr := wptr + n;
      if wptr >= data.Length {
        wptr := wptr - data.Length;
      }
    }

    /** sbappendsb: appends a whole mbuf; as in the source the caller makes sure that there is room. */
    method SbAppendSb(m: seq<u8>)
      requires Valid() && |m| <= Space()
      modifies this`cc, this`wptr, data
      ensures Valid() && Contents() == old(Contents()) + m
    {
      ghost var before := data[..];
      var n := CopyIn(m);
      Extend(n, before, m);
    }

    /** A stretch of the contents, in the terms of the two indices. */
    lemma StretchInRuns(off: nat, len: nat)
      requires Valid() && off + len <= cc
      ensures rptr < data.Length
      ensures var f := if rptr + off >= data.Length then rptr + off - data.Length else rptr + off;
              var k := Min(len, data.Length - f);
              && 0 <= f < data.Length && len - k <= data.Length && (f < wptr ==> f + len <= data.Length)
              && Contents()[off..off + len] == if f < wptr then data[f..f + len] else data[f..f + k] + data[..len - k]
    {
      hide Window;
      WindowSlice(data[..], rptr, cc, off, len);
    }

    /** Copies `len` bytes from offset `off` into `to`; the buffer itself stays as it is. */
    method SbCopy(off: nat, len: nat, to: array<u8>, at: nat)
      requires Valid() && off + len <= cc
      requires to != data && at + len <= to.Length
      modifies to
      ensures to[..] == Splice(old(to[..]), at, Contents()[off..off + len])
    {
      hide Window, Splice, Fwd, Contents, Valid;
      StretchInRuns(off, len);
      var from := rptr + off;
      if from >= data.Length {
        from := from - data.Length;
      }
      if from < wptr {
        MemCpy(to, at, data[from..from + len]);
      } else {
        var n := data.Length - from;
        if n > len {
          n := len;
        }
        CopyRuns(to, at, data[from..from + n], data[..len - n]);
      }
    }
  }
}
