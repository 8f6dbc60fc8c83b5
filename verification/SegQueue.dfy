/**
 The segment queue of tcp_reass: out-of-order segments between rcv_nxt and the right window edge,
 kept sorted and disjoint in 32-bit sequence space.
 */
module SegQueues {
  import opened SeqNum
  import opened Spans

  /** A queued segment: first sequence number, text, and whether the header carried a FIN. */
  datatype Frag = Frag(seqno: u32, data: seq<u8>, fin: bool)

  /** Both socket buffers are smaller than this. */
  const BUFFER: int := 0x1000_0000

  /**
   Positions that are compared lie less than this apart; together with a buffer that is the 2^31 of the comparisons.
   */
  const REACH: int := 0x7000_0000

  /** The text of segment `f` is exactly the octets of stream `S` in interval `s`. */
  ghost predicate Carries(irs: u32, S: seq<u8>, f: Frag, s: Span) {
    && 0 <= s.lo <= s.hi <= |S|
    && f.seqno == At(irs, s.lo)
    && f.data == S[s.lo..s.hi]
  }

  /** The segment is not empty, and a FIN stands at the end of the stream. */
  ghost predicate EndsRight(S: seq<u8>, f: Frag, s: Span) {
    && (f.data != [] || f.fin)
    && (f.fin ==> s.hi == |S|)
  }

  /** Cutting the first `i` octets off a segment moves its start and nothing else. */
  lemma CarriesTrim(irs: u32, S: seq<u8>, f: Frag, s: Span, i: nat)
    requires Carries(irs, S, f, s) && i <= |f.data|
    ensures Carries(irs, S, Frag(U32(f.seqno + i), f.data[i..], f.fin), Span(s.lo + i, s.hi))
  {
    AddAt(irs, s.lo, i);
  }

  /** The difference of the end of one segment and the start of another, as the code computes it. */
  lemma EndMinusStart(irs: u32, S: seq<u8>, f: Frag, s: Span, g: Frag, t: Span)
    requires Carries(irs, S, f, s) && Carries(irs, S, g, t)
    requires -TWO_31 <= s.hi - t.lo < TWO_31
    ensures Diff(U32(f.seqno + |f.data|), g.seqno) == s.hi - t.lo
  {
    AddAt(irs, s.lo, |f.data|);
    DiffAt(irs, s.hi, t.lo);
  }

  /** Segment by segment, a queue carries the pieces of the stream that `ss` lists, all inside `[lo, hi]`. */
  ghost predicate Pieces(irs: u32, S: seq<u8>, fs: seq<Frag>, ss: seq<Span>, lo: int, hi: int) {
    && |fs| == |ss|
    && (forall i :: 0 <= i < |fs| ==> Carries(irs, S, fs[i], ss[i]) && EndsRight(S, fs[i], ss[i]))
    && (forall i :: 0 <= i < |ss| ==> lo <= ss[i].lo && ss[i].hi <= hi)
  }

  lemma PiecesReplace(irs: u32, S: seq<u8>, fs: seq<Frag>, ss: seq<Span>, lo: int, hi: int, q: nat, f: Frag, s: Span)
    requires Pieces(irs, S, fs, ss, lo, hi) && Ordered(ss) && q < |fs|
    requires Carries(irs, S, f, s) && EndsRight(S, f, s) && ss[q].lo <= s.lo && s.hi == ss[q].hi
    ensures Pieces(irs, S, fs[q := f], ss[q := s], lo, hi) && Ordered(ss[q := s])
  {
  }

  lemma PiecesRemove(irs: u32, S: seq<u8>, fs: seq<Frag>, ss: seq<Span>, lo: int, hi: int, q: nat)
    requires Pieces(irs, S, fs, ss, lo, hi) && Ordered(ss) && q < |fs|
    ensures Pieces(irs, S, fs[..q] + fs[q + 1..], ss[..q] + ss[q + 1..], lo, hi)
    ensures Ordered(ss[..q] + ss[q + 1..])
  {
  }

  lemma PiecesInsert(irs: u32, S: seq<u8>, fs: seq<Frag>, ss: seq<Span>, lo: int, hi: int, q: nat, f: Frag, s: Span)
    requires Pieces(irs, S, fs, ss, lo, hi) && q <= |fs|
    requires Carries(irs, S, f, s) && EndsRight(S, f, s) && lo <= s.lo && s.hi <= hi
    ensures Pieces(irs, S, fs[..q] + [f] + fs[q..], ss[..q] + [s] + ss[q..], lo, hi)
  {
  }

  /** One interval of the list has all of `t` already: tcp_reass then drops the segment, and its FIN with it. */
  ghost predicate Provided(ss: seq<Span>, t: Span) {
    exists i :: 0 <= i < |ss| && ss[i].lo <= t.lo < ss[i].hi && t.hi <= ss[i].hi
  }

  /** It can only be the last interval that begins at or before `t`. */
  lemma ProvidedByPredecessor(ss: seq<Span>, t: Span)
    requires Ordered(ss)
    ensures var n := Before(ss, t.lo); Provided(ss, t) <==> n > 0 && t.lo < ss[n - 1].hi && t.hi <= ss[n - 1].hi
  {
    if Provided(ss, t) {
      var i :| 0 <= i < |ss| && ss[i].lo <= t.lo < ss[i].hi && t.hi <= ss[i].hi;
      BeforeEndsAt(ss, t.lo, i);
    }
  }

  lemma {:induction false} BeforeEndsAt(ss: seq<Span>, k: int, i: nat)
    requires Ordered(ss) && i < |ss| && ss[i].lo <= k < ss[i].hi
    ensures Before(ss, k) == i + 1
  {
    if i > 0 {
      BeforeEndsAt(ss[1..], k, i - 1);
    }
  }

  /** The merge in terms of the predecessor: it may have everything already, or the beginning, or nothing. */
  lemma InsertByPredecessor(ss: seq<Span>, t: Span)
    requires Ordered(ss)
    ensures var n := Before(ss, t.lo);
            if Provided(ss, t) then Spans.Insert(ss, t) == ss
            else var lo := if n > 0 && ss[n - 1].hi > t.lo then ss[n - 1].hi else t.lo;
                 Spans.Insert(ss, t) == ss[..n] + [Span(lo, t.hi)] + CutBelow(ss[n..], t.hi)
  {
    ProvidedByPredecessor(ss, t);
    hide Ordered, Provided, CutBelow;
  }

  predicate HasFin(fs: seq<Frag>) {
    exists i :: 0 <= i < |fs| && fs[i].fin
  }

  lemma FinReplaced(fs: seq<Frag>, q: nat, f: Frag)
    requires q < |fs| && f.fin == fs[q].fin
    ensures HasFin(fs[q := f]) <==> HasFin(fs)
  {
    forall i | 0 <= i < |fs|
      ensures fs[q := f][i].fin == fs[i].fin
    {
    }
  }

  lemma FinRemoved(fs: seq<Frag>, q: nat)
    requires q < |fs|
    ensures HasFin(fs) <==> HasFin(fs[..q] + fs[q + 1..]) || fs[q].fin
  {
    var rs := fs[..q] + fs[q + 1..];
    forall i | 0 <= i < |rs|
      ensures rs[i] == fs[if i < q then i else i + 1]
    {
    }
    forall i | 0 <= i < |fs| && i != q
      ensures fs[i] == rs[if i < q then i else i - 1]
    {
    }
  }

  lemma FinInserted(fs: seq<Frag>, q: nat, f: Frag)
    requires q <= |fs|
    ensures HasFin(fs[..q] + [f] + fs[q..]) <==> HasFin(fs) || f.fin
  {
    var rs := fs[..q] + [f] + fs[q..];
    FinRemoved(rs, q);
    assert rs[..q] + rs[q + 1..] == fs;
  }

  class SegQueue {
    ghost const irs: u32
    ghost var S: seq<u8>  // the stream that the queue holds pieces of
    var segs: seq<Frag>
    ghost var spans: seq<Span>

    constructor (ghost irs: u32, ghost S: seq<u8>)
      ensures segs == [] && spans == [] && this.irs == irs && this.S == S
    {
      this.irs, this.S := irs, S;
      segs, spans := [], [];
    }

    /** The queue is an ordered list of pieces of the stream, all inside `[lo, hi]`. */
    ghost predicate Valid(lo: int, hi: int)
      reads this
    {
      Ordered(spans) && Pieces(irs, S, segs, spans, lo, hi)
    }

    lemma SeqGtIsLater(lo: int, hi: int, i: nat, ti: Frag, t: Span)
      requires Valid(lo, hi) && hi - lo <= REACH && i < |segs|
      requires Carries(irs, S, ti, t) && lo <= t.lo <= hi
      ensures SeqGt(segs[i].seqno, ti.seqno) <==> spans[i].lo > t.lo
    {
      DiffAt(irs, spans[i].lo, t.lo);
    }

    /** The search loop: how many queued segments do not begin after `ti`. */
    method Find(ti: Frag, ghost t: Span, ghost lo: int, ghost hi: int) returns (q: nat)
      requires Valid(lo, hi) && hi - lo <= REACH
      requires Carries(irs, S, ti, t) && lo <= t.lo && t.hi <= hi
      ensures q == Before(spans, t.lo)
    {
      q := 0;
      while q < |segs|
        invariant q <= |segs| && Before(spans, t.lo) == q + Before(spans[q..], t.lo)
      {
        SeqGtIsLater(lo, hi, q, ti, t);
        if SeqGt(segs[q].seqno, ti.seqno) {
          break;
        }
        assert spans[q..][1..] == spans[q + 1..];
        q := q + 1;
      }
    }

    /** The loop that trims the succeeding segments, or dequeues those completely covered. */
    method TrimSuccessors(q: nat, ti: Frag, ghost t: Span, ghost lo: int, ghost hi: int)
      requires Valid(lo, hi) && hi - lo <= REACH && q <= |segs|
      requires Carries(irs, S, ti, t) && lo <= t.lo && t.hi <= hi
      modifies this`segs, this`spans
      ensures Valid(lo, hi) && q <= |segs| == |spans|
      ensures spans[..q] == old(spans[..q])
      ensures spans[q..] == CutBelow(old(spans[q..]), t.hi)
      ensures HasFin(segs) ==> old(HasFin(segs))
    {
      while q < |segs|
        invariant q <= |segs| && Valid(lo, hi)
        invariant spans[..q] == old(spans[..q])
        invariant CutBelow(spans[q..], t.hi) == CutBelow(old(spans[q..]), t.hi)
        invariant HasFin(segs) ==> old(HasFin(segs))
        decreases |segs|
      {
        var f := segs[q];
        EndMinusStart(irs, S, ti, t, f, spans[q]);
        var i := Diff(U32(ti.seqno + |ti.data|), f.seqno);
        if i <= 0 {
          break;
        }
        if i < |f.data| {
          ghost var s := Span(t.hi, spans[q].hi);
          var g := Frag(U32(f.seqno + i), f.data[i..], f.fin);
          CarriesTrim(irs, S, f, spans[q], i);
          PiecesReplace(irs, S, segs, spans, lo, hi, q, g, s);
          FinReplaced(segs, q, g);
          assert spans[q := s][q..] == [s] + spans[q..][1..];
          segs, spans := segs[q := g], spans[q := s];
          return;
        }
        PiecesRemove(irs, S, segs, spans, lo, hi, q);
        FinRemoved(segs, q);
        assert (spans[..q] + spans[q + 1..])[q..] == spans[q..][1..];
        segs, spans := segs[..q] + segs[q + 1..], spans[..q] + spans[q + 1..];
      }
    }

    lemma QueuedPiece(i: nat, lo: int, hi: int)
      requires Valid(lo, hi) && i < |segs|
      ensures |segs| == |spans| && Carries(irs, S, segs[i], spans[i]) && lo <= spans[i].lo <= spans[i].hi <= hi
    {
    }

    lemma NewPiece(ti: Frag, t: Span, lo: int, hi: int)
      requires Valid(lo, hi) && Carries(irs, S, ti, t)
      ensures |segs| == |spans| && Ordered(spans) && |ti.data| == t.hi - t.lo >= 0
    {
    }

    /** Drops what the preceding segment already provides; `dup` says that this is everything. */
    method TrimByPredecessor(q: nat, ti0: Frag, ghost t0: Span, ghost lo: int, ghost hi: int)
      returns (dup: bool, ti: Frag, ghost t: Span)
      requires Valid(lo, hi) && hi - lo <= REACH && q == Before(spans, t0.lo)
      requires Carries(irs, S, ti0, t0) && lo <= t0.lo && t0.hi <= hi
      ensures dup <==> Provided(spans, t0)
      ensures dup ==> Spans.Insert(spans, t0) == spans
      ensures !dup ==> Carries(irs, S, ti, t) && lo <= t.lo && t.hi == t0.hi
      ensures !dup ==> ti.fin == ti0.fin && (ti.data == [] <==> ti0.data == [])
      ensures !dup ==> Spans.Insert(spans, t0) == spans[..q] + [t] + CutBelow(spans[q..], t.hi)
    {
      hide At, Diff, U32, Carries, CutBelow, Provided, Pieces, Ordered, Spans.Insert;
      NewPiece(ti0, t0, lo, hi);
      ProvidedByPredecessor(spans, t0);
      InsertByPredecessor(spans, t0);
      dup, ti, t := false, ti0, t0;
      if q > 0 {
        QueuedPiece(q - 1, lo, hi);
        EndMinusStart(irs, S, segs[q - 1], spans[q - 1], ti, t);
        var i := Diff(U32(segs[q - 1].seqno + |segs[q - 1].data|), ti.seqno);
        if i > 0 {
          if i >= |ti.data| {
            dup := true;
            return;
          }
          CarriesTrim(irs, S, ti, t, i);
          ti := Frag(U32(ti.seqno + i), ti.data[i..], ti.fin);
          t := Span(t.lo + i, t.hi);
        }
      }
    }

    lemma QueueInserts(t: Span, lo: int, hi: int)
      requires Valid(lo, hi) && t.lo <= t.hi
      ensures |segs| == |spans| && Ordered(Spans.Insert(spans, t))
                && Cover(Spans.Insert(spans, t)) == Cover(spans) + Range(t)
    {
      InsertSpec(spans, t);
    }

    /**
     tcp_reass up to the label `present`: merges segment `ti` into the queue, which afterwards holds
     exactly the octets it held before and those of `ti`.
     */
    method Insert(ti0: Frag, ghost t0: Span, ghost lo: int, ghost hi: int)
      requires Valid(lo, hi) && hi - lo <= REACH
      requires Carries(irs, S, ti0, t0) && lo <= t0.lo && t0.hi <= hi
      requires EndsRight(S, ti0, t0) || (ti0.data != [] && Provided(spans, t0))
      modifies this`segs, this`spans
      ensures Valid(lo, hi)
      ensures spans == Spans.Insert(old(spans), t0)
      ensures Cover(spans) == old(Cover(spans)) + Range(t0)
      ensures ti0.fin && !Provided(old(spans), t0) ==> HasFin(segs)
      ensures HasFin(segs) ==> old(HasFin(segs)) || ti0.fin
    {
      hide At, Carries, CutBelow, Cover, Range, Provided, Pieces, Ordered, Spans.Insert, HasFin;
      NewPiece(ti0, t0, lo, hi);
      QueueInserts(t0, lo, hi);
      var q := Find(ti0, t0, lo, hi);
      var dup, ti, t := TrimByPredecessor(q, ti0, t0, lo, hi);
      if dup {
        return;
      }
      TrimSuccessors(q, ti, t, lo, hi);
      PiecesInsert(irs, S, segs, spans, lo, hi, q, ti, t);
      FinInserted(segs, q, ti);
      segs, spans := segs[..q] + [ti] + segs[q..], spans[..q] + [t] + spans[q..];
    }

    /** Takes the first segment off the queue. */
    method PopFirst(ghost lo: int, ghost hi: int) returns (f: Frag, ghost s: Span)
      requires segs != [] && Valid(lo, hi)
      modifies this`segs, this`spans
      ensures s == old(spans[0]) && f == old(segs[0]) && Carries(irs, S, f, s) && EndsRight(S, f, s) && lo <= s.lo
                && s.hi <= hi
      ensures segs == old(segs)[1..] && spans == old(spans)[1..]
      ensures Valid(s.hi, hi)
      ensures old(Cover(spans)) == Range(s) + Cover(spans)
    {
      f, s := segs[0], spans[0];
      segs, spans := segs[1..], spans[1..];
    }

    /** Only a segment at the lower end can have the lower end's sequence number. */
    lemma FirstIsNext(lo: int, hi: int)
      requires segs != [] && Valid(lo, hi) && hi - lo <= REACH
      ensures segs[0].seqno == At(irs, lo) <==> spans[0].lo == lo
    {
      DiffAt(irs, spans[0].lo, lo);
      DiffAt(irs, lo, lo);
    }

    lemma Widen(lo: int, hi: int, hi': int)
      requires Valid(lo, hi) && hi <= hi'
      ensures Valid(lo, hi')
    {
    }

    method Clear()
      modifies this`segs, this`spans
      ensures segs == [] && spans == [] && forall lo, hi :: Valid(lo, hi)
    {
      segs, spans := [], [];
    }
  }
}
