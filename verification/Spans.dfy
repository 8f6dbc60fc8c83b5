/**
 Ordered lists of half-open intervals, and the merge that both reassembly queues of the stack (TCP
 segments in tcp_input.c, IP fragments in ip_input.c) perform: cut what the predecessor already
 has, cut or drop what the newcomer covers, insert.
 */
module Spans {

  datatype Span = Span(lo: int, hi: int)

  predicate Inside(s: Span, k: int) {
    s.lo <= k < s.hi
  }

  ghost function Range(s: Span): set<int> {
    set k | s.lo <= k < s.hi && Inside(s, k)
  }

  /** All positions that some interval of the list contains. */
  ghost function Cover(ss: seq<Span>): set<int> {
    if ss == [] then {} else Range(ss[0]) + Cover(ss[1..])
  }

  /** Sorted and pairwise disjoint; empty intervals may sit on the boundaries. */
  ghost predicate Ordered(ss: seq<Span>) {
    && (forall i :: 0 <= i < |ss| ==> ss[i].lo <= ss[i].hi)
    && (forall i, j :: 0 <= i < j < |ss| ==> ss[i].hi <= ss[j].lo)
  }

  /** How many intervals begin at or before `lo`: the search loop of both queues. */
  function Before(ss: seq<Span>, lo: int): (n: nat)
    ensures n <= |ss|
    ensures forall i :: 0 <= i < n ==> ss[i].lo <= lo
    ensures n < |ss| ==> lo < ss[n].lo
  {
    if ss == [] || ss[0].lo > lo then 0 else 1 + Before(ss[1..], lo)
  }

  /** What is left of the successors once everything below `hi` has been cut off. */
  function CutBelow(ss: seq<Span>, hi: int): (rs: seq<Span>) {
    if ss == [] || hi <= ss[0].lo then ss
    else if hi < ss[0].hi then [Span(hi, ss[0].hi)] + ss[1..]
    else CutBelow(ss[1..], hi)
  }

  /** Merges interval `s` into an ordered list. */
  function Insert(ss: seq<Span>, s: Span): (rs: seq<Span>) {
    var n := Before(ss, s.lo);
    if n > 0 && ss[n - 1].hi > s.lo then
      if ss[n - 1].hi >= s.hi then ss
      else ss[..n] + [Span(ss[n - 1].hi, s.hi)] + CutBelow(ss[n..], s.hi)
    else
      ss[..n] + [s] + CutBelow(ss[n..], s.hi)
  }

  lemma {:induction false} CoverConcat(a: seq<Span>, b: seq<Span>)
    ensures Cover(a + b) == Cover(a) + Cover(b)
  {
    if a == [] {
      assert a + b == b;
    } else {
      assert (a + b)[1..] == a[1..] + b;
      CoverConcat(a[1..], b);
    }
  }

  lemma {:induction false} CoverContains(ss: seq<Span>, i: nat)
    requires i < |ss|
    ensures Range(ss[i]) <= Cover(ss)
  {
    if i > 0 {
      CoverContains(ss[1..], i - 1);
    }
  }

  /** Every covered position lies in some interval of the list. */
  lemma {:induction false} CoverWitness(ss: seq<Span>, k: int) returns (i: nat)
    requires k in Cover(ss)
    ensures i < |ss| && ss[i].lo <= k < ss[i].hi
  {
    if k in Range(ss[0]) {
      i := 0;
    } else {
      i := CoverWitness(ss[1..], k);
      i := i + 1;
    }
  }

  lemma {:induction false} CutBelowSpec(ss: seq<Span>, s: Span)
    requires Ordered(ss) && s.lo <= s.hi
    requires forall i :: 0 <= i < |ss| ==> s.lo <= ss[i].lo
    ensures var rs := CutBelow(ss, s.hi);
            && Ordered(rs)
            && Range(s) + Cover(rs) == Range(s) + Cover(ss)
            && (forall i :: 0 <= i < |rs| ==> s.hi <= rs[i].lo)
            && |rs| <= |ss|
  {
    if ss == [] || s.hi <= ss[0].lo {
    } else if s.hi < ss[0].hi {
      var rs := CutBelow(ss, s.hi);
      assert rs[1..] == ss[1..];
      assert Range(s) + Range(ss[0]) == Range(s) + Range(rs[0]);
    } else {
      CutBelowSpec(ss[1..], s);
      assert Range(ss[0]) <= Range(s);
    }
  }

  lemma OrderedSplit(ss: seq<Span>, n: nat)
    requires Ordered(ss) && n <= |ss|
    ensures Ordered(ss[..n]) && Ordered(ss[n..])
    ensures n > 0 ==> forall i :: 0 <= i < |ss[n..]| ==> ss[n - 1].hi <= ss[n..][i].lo
    ensures Cover(ss) == Cover(ss[..n]) + Cover(ss[n..])
  {
    assert ss == ss[..n] + ss[n..];
    CoverConcat(ss[..n], ss[n..]);
  }

  lemma InsertMiddle(a: seq<Span>, s: Span, b: seq<Span>)
    requires Ordered(a) && Ordered(b) && s.lo <= s.hi
    requires forall i :: 0 <= i < |a| ==> a[i].hi <= s.lo
    requires forall i :: 0 <= i < |b| ==> s.lo <= b[i].lo
    ensures var rs := a + [s] + CutBelow(b, s.hi);
            && Ordered(rs)
            && Cover(rs) == Cover(a) + Range(s) + Cover(b)
  {
    var c := CutBelow(b, s.hi);
    CutBelowSpec(b, s);
    CoverConcat(a, [s]);
    CoverConcat(a + [s], c);
    assert Cover([s]) == Range(s);
  }

  /**
   The merge keeps the list ordered, and the list then covers exactly what it covered before and
   the new interval: nothing is lost, nothing is invented.
   */
  lemma InsertSpec(ss: seq<Span>, s: Span)
    requires Ordered(ss) && s.lo <= s.hi
    ensures Ordered(Insert(ss, s))
    ensures Cover(Insert(ss, s)) == Cover(ss) + Range(s)
  {
    var n := Before(ss, s.lo);
    var a, b := ss[..n], ss[n..];
    OrderedSplit(ss, n);
    if n > 0 && a[n - 1].hi > s.lo {
      InsertOverlapping(a, a[n - 1], s, b);
    } else {
      InsertMiddle(a, s, b);
    }
  }

  lemma InsertOverlapping(a: seq<Span>, p: Span, s: Span, b: seq<Span>)
    requires Ordered(a) && Ordered(b) && a != [] && p == a[|a| - 1]
    requires p.lo <= s.lo < p.hi && s.lo <= s.hi
    requires forall i :: 0 <= i < |b| ==> p.hi <= b[i].lo
    ensures p.hi >= s.hi ==> Range(s) <= Cover(a)
    ensures p.hi < s.hi ==>
              var rs := a + [Span(p.hi, s.hi)] + CutBelow(b, s.hi);
              Ordered(rs) && Cover(rs) == Cover(a) + Cover(b) + Range(s)
  {
    CoverContains(a, |a| - 1);
    if p.hi >= s.hi {
      assert Range(s) <= Range(p);
    } else {
      var t := Span(p.hi, s.hi);
      InsertMiddle(a, t, b);
      assert Range(s) <= Range(p) + Range(t) && Range(t) <= Range(s);
    }
  }

  /** The list is contiguous from `from` on: each interval starts where the one before it ends. */
  ghost predicate Contiguous(ss: seq<Span>, from: int) {
    ss == [] || (ss[0].lo == from && Contiguous(ss[1..], ss[0].hi))
  }

  ghost function End(ss: seq<Span>, from: int): int {
    if ss == [] then from else ss[|ss| - 1].hi
  }

  /** An ordered list inside `[from, to)` covers all of it exactly when it is contiguous and reaches `to`. */
  lemma {:induction false} ContiguousIffFull(ss: seq<Span>, from: int, to: int)
    requires Ordered(ss) && from <= to
    requires forall i :: 0 <= i < |ss| ==> from <= ss[i].lo && ss[i].hi <= to
    ensures Contiguous(ss, from) && End(ss, from) == to ==> Range(Span(from, to)) <= Cover(ss)
    ensures Range(Span(from, to)) <= Cover(ss) ==> End(ss, from) == to
    ensures Range(Span(from, to)) <= Cover(ss) && (forall i :: 0 <= i < |ss| ==> ss[i].lo < ss[i].hi) ==>
              Contiguous(ss, from)
  {
    if ss == [] {
      if from < to {
        assert from in Range(Span(from, to));
      }
    } else {
      var rest := ss[1..];
      ContiguousIffFull(rest, ss[0].hi, to);
      assert Range(Span(from, to)) == Range(Span(from, ss[0].hi)) + Range(Span(ss[0].hi, to));
      assert Range(Span(ss[0].hi, to)) !! Range(ss[0]);
      if Range(Span(from, to)) <= Cover(ss) && from < ss[0].lo {
        assert from in Range(Span(from, to));
        var i := CoverWitness(ss, from);
        assert false;
      }
    }
  }

  lemma RangeSplit(a: int, b: int, c: int)
    requires a <= b <= c
    ensures Range(Span(a, c)) == Range(Span(a, b)) + Range(Span(b, c))
  {
  }
}
