/**
 The output scheduler of if.c: two queues of sessions, each session a list of packets of one socket.
 Sockets and packets are identified by numbers. While a packet is handed to the interface nothing else
 enters the queues.
 */
module IfQueues {

  type Packet = nat

  datatype Option<T> = None | Some(value: T)

  /** One of the inner lists: its socket, unless it has none or that has been freed, and its packets, oldest first. */
  datatype Session = Session(so: Option<nat>, pkts: seq<Packet>)

  function Get<T>(m: map<nat, T>, s: nat, default: T): T { if s in m then m[s] else default }

  // -------------------------------------------------------------------------- what the queues hold

  /** All packets in a queue, list by list. */
  ghost function All(q: seq<Session>): (ps: seq<Packet>) {
    if q == [] then [] else All(q[..|q| - 1]) + q[|q| - 1].pkts
  }

  /** The packets that list `x` holds for socket `s`. */
  ghost function Mine(x: Session, s: nat): (ps: seq<Packet>) { if x.so == Some(s) then x.pkts else [] }

  /** The packets of socket `s` in a queue, list by list. */
  ghost function Waiting(q: seq<Session>, s: nat): (ps: seq<Packet>) {
    if q == [] then [] else Waiting(q[..|q| - 1], s) + Mine(q[|q| - 1], s)
  }

  lemma {:induction false} AllJoined(a: seq<Session>, b: seq<Session>)
    ensures All(a + b) == All(a) + All(b)
  {
    if b == [] {
      assert a + b == a;
    } else {
      var k := |b| - 1;
      assert (a + b)[..|a| + k] == a + b[..k];
      AllJoined(a, b[..k]);
    }
  }

  lemma {:induction false} WaitingJoined(a: seq<Session>, b: seq<Session>, s: nat)
    ensures Waiting(a + b, s) == Waiting(a, s) + Waiting(b, s)
  {
    hide Mine;
    if b == [] {
      assert a + b == a;
    } else {
      var k := |b| - 1;
      assert (a + b)[..|a| + k] == a + b[..k];
      WaitingJoined(a, b[..k], s);
    }
  }

  lemma Single(x: Session, s: nat)
    ensures All([x]) == x.pkts && Waiting([x], s) == Mine(x, s)
  {
    assert [x][..0] == [];
  }

  /** A queue made of what is before some lists, these, and what is behind them. */
  lemma Parts(a: seq<Session>, xs: seq<Session>, b: seq<Session>, s: nat)
    ensures All(a + xs + b) == All(a) + All(xs) + All(b)
    ensures Waiting(a + xs + b, s) == Waiting(a, s) + Waiting(xs, s) + Waiting(b, s)
  {
    AllJoined(a + xs, b);
    AllJoined(a, xs);
    WaitingJoined(a + xs, b, s);
    WaitingJoined(a, xs, s);
  }

  lemma {:induction false} NothingOf(q: seq<Session>, s: nat)
    requires forall i :: 0 <= i < |q| ==> q[i].so != Some(s)
    ensures Waiting(q, s) == []
  {
    if q != [] {
      NothingOf(q[..|q| - 1], s);
    }
  }

  // ------------------------------------------------------------------------- what one pass takes out

  /** How many packets leave a session: those before the first delayed one, or at most the first. */
  function Taken(pkts: seq<Packet>, delayed: Packet -> bool, all: bool): (n: nat)
    ensures n <= |pkts|
    ensures !all ==> n <= 1
    ensures forall k :: 0 <= k < n ==> !delayed(pkts[k])
    ensures n < |pkts| && (all || n == 0) ==> delayed(pkts[n])
  {
    if pkts == [] || delayed(pkts[0]) then 0
    else if all then 1 + Taken(pkts[1..], delayed, all)
    else 1
  }

  /** What remains of a session after `n` packets have left; an empty list disappears. */
  function Rest(x: Session, n: nat): (r: seq<Session>)
    requires n <= |x.pkts|
  {
    if n == |x.pkts| then [] else [Session(x.so, x.pkts[n..])]
  }

  lemma RestIs(x: Session, n: nat, s: nat)
    requires n <= |x.pkts|
    ensures All(Rest(x, n)) == x.pkts[n..]
    ensures Waiting(Rest(x, n), s) == if x.so == Some(s) then x.pkts[n..] else []
  {
    if n < |x.pkts| {
      Single(Session(x.so, x.pkts[n..]), s);
    }
  }

  /** The queue after `Taken` packets have left each of its sessions. */
  ghost function Served(q: seq<Session>, delayed: Packet -> bool, all: bool): (r: seq<Session>) {
    if q == [] then []
    else
      var x := q[|q| - 1];
      Served(q[..|q| - 1], delayed, all) + Rest(x, Taken(x.pkts, delayed, all))
  }

  /** The packets that leave, in their order. */
  ghost function Leaving(q: seq<Session>, delayed: Packet -> bool, all: bool): (ps: seq<Packet>) {
    if q == [] then []
    else
      var x := q[|q| - 1];
      Leaving(q[..|q| - 1], delayed, all) + x.pkts[..Taken(x.pkts, delayed, all)]
  }

  lemma NothingServed(q: seq<Session>, delayed: Packet -> bool, all: bool)
    ensures Served(q[..0], delayed, all) == [] && Leaving(q[..0], delayed, all) == [] && q[0..] == q
    ensures FastServed([], delayed) == [] && FastLeaving([], delayed) == []
  {
  }

  /** Serving the next list turns what is left of `k` lists into what is left of `k + 1`. */
  lemma ServedMore(q: seq<Session>, k: nat, delayed: Packet -> bool, all: bool)
    requires k < |q|
    ensures var n := Taken(q[k].pkts, delayed, all);
            var p := Served(q[..k], delayed, all);
            && (p + q[k..])[..|p|] == p && (p + q[k..])[|p|] == q[k] && (p + q[k..])[|p| + 1..] == q[k + 1..]
            && p + Rest(q[k], n) == Served(q[..k + 1], delayed, all)
            && |Served(q[..k + 1], delayed, all)| == |p| + (if n == |q[k].pkts| then 0 else 1)
            && Leaving(q[..k + 1], delayed, all) == Leaving(q[..k], delayed, all) + q[k].pkts[..n]
  {
    hide Taken;
    assert q[..k + 1][..k] == q[..k];
  }

  lemma ServedLast(q: seq<Session>, k: nat, delayed: Packet -> bool)
    requires k + 1 == |q|
    ensures var n := Taken(q[k].pkts, delayed, false);
            var p := Served(q[..k], delayed, true);
            && (p + q[k..])[..|p|] == p && (p + q[k..])[|p|] == q[k] && (p + q[k..])[|p| + 1..] == []
            && p + Rest(q[k], n) + [] == FastServed(q, delayed)
            && Leaving(q[..k], delayed, true) + q[k].pkts[..n] == FastLeaving(q, delayed)
  {
    hide Taken, Served, Leaving, Rest;
    assert q[k..] == [q[k]];
    ServedOne(q[k], delayed);
  }

  lemma ServedOne(x: Session, delayed: Packet -> bool)
    ensures var n := Taken(x.pkts, delayed, false);
            Served([x], delayed, false) == Rest(x, n) && Leaving([x], delayed, false) == x.pkts[..n]
  {
    hide Taken, Rest;
    assert [x][..0] == [];
  }

  /**
   A pass serves every fastq session but the last until something is delayed, and the last one like a batchq
   session.
   */
  ghost function FastServed(q: seq<Session>, delayed: Packet -> bool): seq<Session> {
    if q == [] then [] else Served(q[..|q| - 1], delayed, true) + Served(q[|q| - 1..], delayed, false)
  }

  ghost function FastLeaving(q: seq<Session>, delayed: Packet -> bool): seq<Packet> {
    if q == [] then [] else Leaving(q[..|q| - 1], delayed, true) + Leaving(q[|q| - 1..], delayed, false)
  }

  // ------------------------------------------------------------------------------- the two queues

  /** Queue `q` without the first packet of list `i`. */
  function Without(q: seq<Session>, i: nat): (r: seq<Session>)
    requires i < |q| && q[i].pkts != []
  {
    q[..i] + Rest(q[i], 1) + q[i + 1..]
  }

  lemma WithoutIs(q: seq<Session>, i: nat, s: nat)
    requires i < |q| && q[i].pkts != []
    ensures All(q) == All(q[..i]) + q[i].pkts + All(q[i + 1..])
    ensures All(Without(q, i)) == All(q[..i]) + q[i].pkts[1..] + All(q[i + 1..])
    ensures Waiting(q, s) == Waiting(q[..i], s) + Mine(q[i], s) + Waiting(q[i + 1..], s)
    ensures Waiting(Without(q, i), s) ==
              Waiting(q[..i], s) + (if q[i].so == Some(s) then q[i].pkts[1..] else []) + Waiting(q[i + 1..], s)
  {
    hide All, Waiting, Mine, Rest;
    assert q == q[..i] + [q[i]] + q[i + 1..];
    Parts(q[..i], [q[i]], q[i + 1..], s);
    Parts(q[..i], Rest(q[i], 1), q[i + 1..], s);
    Single(q[i], s);
    RestIs(q[i], 1, s);
  }

  lemma OneLess(a: seq<Packet>, p: seq<Packet>, b: seq<Packet>)
    requires p != []
    ensures multiset(a + p + b) == multiset(a + p[1..] + b) + multiset{p[0]}
    ensures |a + p + b| == |a + p[1..] + b| + 1
    ensures a == [] ==> a + p + b == [p[0]] + (a + p[1..] + b)
  {
    assert p == [p[0]] + p[1..];
  }

  lemma WithoutAll(q: seq<Session>, i: nat)
    requires i < |q| && q[i].pkts != []
    ensures multiset(All(q)) == multiset(All(Without(q, i))) + multiset{q[i].pkts[0]}
  {
    hide All, Without;
    WithoutIs(q, i, 0);
    OneLess(All(q[..i]), q[i].pkts, All(q[i + 1..]));
  }

  lemma WithoutWaiting(q: seq<Session>, i: nat, s: nat)
    requires i < |q| && q[i].pkts != []
    ensures q[i].so != Some(s) ==> Waiting(q, s) == Waiting(Without(q, i), s)
    ensures q[i].so == Some(s) ==> |Waiting(q, s)| == |Waiting(Without(q, i), s)| + 1
    ensures q[i].so == Some(s) && OneListEach(q) ==> Waiting(q, s) == [q[i].pkts[0]] + Waiting(Without(q, i), s)
  {
    hide Waiting, Without;
    WithoutIs(q, i, s);
    if q[i].so == Some(s) {
      OneLess(Waiting(q[..i], s), q[i].pkts, Waiting(q[i + 1..], s));
      if OneListEach(q) {
        NothingOf(q[..i], s);
      }
    }
  }

  lemma NoneTaken(q: seq<Session>, i: nat)
    requires i < |q| && q[i].pkts != []
    ensures q == q[..i] + Rest(q[i], 0) + q[i + 1..] && q[i] == Session(q[i].so, q[i].pkts[0..])
  {
  }

  /** Taking the first packet of what `n` packets have left is taking one more. */
  lemma OneTaken(q: seq<Session>, i: nat, n: nat, delayed: Packet -> bool, all: bool)
    requires i < |q| && n < |q[i].pkts| && !delayed(q[i].pkts[n])
    ensures var x := q[i];
            var r := q[..i] + Rest(x, n) + q[i + 1..];
            && i < |r| && r[i] == Session(x.so, x.pkts[n..])
            && Without(r, i) == q[..i] + Rest(x, n + 1) + q[i + 1..]
            && x.pkts[..n] + [x.pkts[n]] == x.pkts[..n + 1]
            && (n + 1 < |x.pkts| ==> i < |Without(r, i)| && Without(r, i)[i] == Session(x.so, x.pkts[n + 1..]))
            && Taken(x.pkts[n..], delayed, all) == if all then 1 + Taken(x.pkts[n + 1..], delayed, all) else 1
  {
    var x := q[i];
    assert x.pkts[n..][1..] == x.pkts[n + 1..];
  }

  lemma TakenStops(pkts: seq<Packet>, delayed: Packet -> bool, all: bool)
    ensures pkts == [] || delayed(pkts[0]) ==> Taken(pkts, delayed, all) == 0
  {
  }

  /** What was offered is in the one queue, in the other, or has left. */
  ghost predicate Balanced(offered: seq<Packet>, q: seq<Session>, o: seq<Session>, left: seq<Packet>) {
    multiset(offered) == multiset(All(q)) + multiset(All(o)) + multiset(left)
  }

  lemma WithoutBalanced(offered: seq<Packet>, q: seq<Session>, o: seq<Session>, left: seq<Packet>, i: nat)
    requires i < |q| && q[i].pkts != []
    ensures Balanced(offered, q, o, left) ==> Balanced(offered, Without(q, i), o, left + [q[i].pkts[0]])
    ensures Balanced(offered, o, q, left) ==> Balanced(offered, o, Without(q, i), left + [q[i].pkts[0]])
  {
    hide All, Without;
    WithoutAll(q, i);
  }

  /** No two lists of a queue belong to the same socket. */
  ghost predicate OneListEach(q: seq<Session>) {
    forall i, j :: 0 <= i < j < |q| && q[i].so.Some? ==> q[i].so != q[j].so
  }

  ghost predicate NoneEmpty(q: seq<Session>) {
    forall i :: 0 <= i < |q| ==> q[i].pkts != []
  }

  /** Only sockets in `low` have lists here. */
  ghost predicate OnlyFor(q: seq<Session>, low: set<nat>) {
    forall i :: 0 <= i < |q| && q[i].so.Some? ==> q[i].so.value in low
  }

  lemma WithoutShape(q: seq<Session>, i: nat, low: set<nat>)
    requires i < |q| && NoneEmpty(q)
    ensures NoneEmpty(Without(q, i)) && q[i].pkts != []
    ensures OneListEach(q) ==> OneListEach(Without(q, i))
    ensures OnlyFor(q, low) ==> OnlyFor(Without(q, i), low)
  {
  }

  /** Queue `q` with packet `p` at the end of list `i`, or in a new list behind all others. */
  function Put(q: seq<Session>, i: nat, so: Option<nat>, p: Packet): (r: seq<Session>)
    requires i <= |q|
  {
    if i < |q| then q[..i] + [Session(q[i].so, q[i].pkts + [p])] + q[i + 1..] else q + [Session(so, [p])]
  }

  lemma PutIs(q: seq<Session>, i: nat, so: Option<nat>, p: Packet, s: nat)
    requires i <= |q| && (i < |q| ==> q[i].so == so)
    ensures var a, b := if i < |q| then q[..i] else q, if i < |q| then q[i + 1..] else [];
            var held, more := if i < |q| then q[i].pkts else [], [p];
            && All(q) == All(a) + held + All(b) && All(Put(q, i, so, p)) == All(a) + (held + more) + All(b)
            && Waiting(q, s) == Waiting(a, s) + (if so == Some(s) then held else []) + Waiting(b, s)
            && Waiting(Put(q, i, so, p), s) == Waiting(a, s) + (if so == Some(s) then held + more
              else []) + Waiting(b, s)
  {
    if i < |q| {
      hide All, Waiting;
      var x := Session(q[i].so, q[i].pkts + [p]);
      assert q == q[..i] + [q[i]] + q[i + 1..];
      Parts(q[..i], [q[i]], q[i + 1..], s);
      Parts(q[..i], [x], q[i + 1..], s);
      Single(q[i], s);
      Single(x, s);
    } else {
      assert All([]) == [] && Waiting([], s) == [];
      hide All, Waiting;
      AllJoined(q, [Session(so, [p])]);
      WaitingJoined(q, [Session(so, [p])], s);
      Single(Session(so, [p]), s);
    }
  }

  lemma PutAll(q: seq<Session>, i: nat, so: Option<nat>, p: Packet)
    requires i <= |q| && (i < |q| ==> q[i].so == so)
    ensures multiset(All(Put(q, i, so, p))) == multiset(All(q)) + multiset{p}
  {
    hide All, Put;
    PutIs(q, i, so, p, 0);
  }

  lemma PutBalanced(offered: seq<Packet>, q: seq<Session>, o: seq<Session>, left: seq<Packet>, i: nat,
    so: Option<nat>, p: Packet)
    requires i <= |q| && (i < |q| ==> q[i].so == so)
    ensures Balanced(offered, q, o, left) ==> Balanced(offered + [p], Put(q, i, so, p), o, left)
    ensures Balanced(offered, o, q, left) ==> Balanced(offered + [p], o, Put(q, i, so, p), left)
  {
    hide All, Put;
    PutAll(q, i, so, p);
  }

  lemma PutWaiting(q: seq<Session>, i: nat, so: Option<nat>, p: Packet, s: nat)
    requires i <= |q| && (i < |q| ==> q[i].so == so)
    ensures so != Some(s) ==> Waiting(Put(q, i, so, p), s) == Waiting(q, s)
    ensures so == Some(s) ==> |Waiting(Put(q, i, so, p), s)| == |Waiting(q, s)| + 1
    ensures so == Some(s) && OneListEach(q) ==> Waiting(Put(q, i, so, p), s) == Waiting(q, s) + [p]
  {
    hide Waiting, Put, All;
    PutIs(q, i, so, p, s);
    if so == Some(s) && OneListEach(q) && i < |q| {
      NothingOf(q[i + 1..], s);
    }
    if i == |q| {
      NothingOf([], s);
    }
  }

  lemma PutShape(q: seq<Session>, i: nat, so: Option<nat>, p: Packet, low: set<nat>)
    requires i <= |q| && (i < |q| ==> q[i].so == so) && NoneEmpty(q)
    ensures NoneEmpty(Put(q, i, so, p))
    ensures OneListEach(q) && (i == |q| && so.Some? ==> forall j :: 0 <= j < |q| ==> q[j].so != so) ==>
              OneListEach(Put(q, i, so, p))
    ensures OnlyFor(q, low) && so.Some? && so.value in low ==> OnlyFor(Put(q, i, so, p), low)
  {
  }

  // Moving list `i` of queue `q` to the head of another queue, or of the same one.

  lemma Moved(q: seq<Session>, i: nat, s: nat)
    requires i < |q|
    ensures All(q) == All(q[..i]) + q[i].pkts + All(q[i + 1..])
              && All(q[..i] + q[i + 1..]) == All(q[..i]) + All(q[i + 1..])
    ensures Waiting(q, s) == Waiting(q[..i], s) + Mine(q[i], s) + Waiting(q[i + 1..], s)
    ensures Waiting(q[..i] + q[i + 1..], s) == Waiting(q[..i], s) + Waiting(q[i + 1..], s)
  {
    hide All, Waiting, Mine;
    assert q == q[..i] + [q[i]] + q[i + 1..];
    Parts(q[..i], [q[i]], q[i + 1..], s);
    AllJoined(q[..i], q[i + 1..]);
    WaitingJoined(q[..i], q[i + 1..], s);
    Single(q[i], s);
  }

  lemma AtHead(x: Session, q: seq<Session>, s: nat)
    ensures All([x] + q) == x.pkts + All(q) && Waiting([x] + q, s) == Mine(x, s) + Waiting(q, s)
  {
    AllJoined([x], q);
    WaitingJoined([x], q, s);
    Single(x, s);
  }

  lemma MoveAcrossShape(f: seq<Session>, b: seq<Session>, i: nat, low: set<nat>)
    requires i < |f| && NoneEmpty(f) && NoneEmpty(b) && OneListEach(b) && OnlyFor(f, low)
    requires forall j :: 0 <= j < |b| ==> b[j].so != f[i].so
    ensures NoneEmpty(f[..i] + f[i + 1..]) && OnlyFor(f[..i] + f[i + 1..], low)
    ensures NoneEmpty([f[i]] + b) && OneListEach([f[i]] + b)
  {
  }

  lemma MoveAcrossBalanced(offered: seq<Packet>, f: seq<Session>, b: seq<Session>, left: seq<Packet>, i: nat)
    requires i < |f| && Balanced(offered, f, b, left)
    ensures Balanced(offered, f[..i] + f[i + 1..], [f[i]] + b, left)
  {
    hide All;
    Moved(f, i, 0);
    AtHead(f[i], b, 0);
  }

  lemma MoveAcrossWaiting(f: seq<Session>, b: seq<Session>, i: nat, low: set<nat>, s: nat)
    requires i < |f| && OnlyFor(f, low) && f[i].so.Some?
    ensures |Waiting(f[..i] + f[i + 1..], s)| + |Waiting([f[i]] + b, s)| == |Waiting(f, s)| + |Waiting(b, s)|
    ensures s !in low ==> Waiting([f[i]] + b, s) == Waiting(b, s)
    ensures Waiting(f, s) == [] ==> Waiting(f[..i] + f[i + 1..], s) == []
  {
    hide Waiting;
    Moved(f, i, s);
    AtHead(f[i], b, s);
  }

  lemma MoveFirstShape(b: seq<Session>, i: nat)
    requires i < |b| && NoneEmpty(b) && OneListEach(b)
    ensures NoneEmpty([b[i]] + b[..i] + b[i + 1..]) && OneListEach([b[i]] + b[..i] + b[i + 1..])
  {
  }

  lemma MoveFirstBalanced(offered: seq<Packet>, f: seq<Session>, b: seq<Session>, left: seq<Packet>, i: nat)
    requires i < |b| && Balanced(offered, f, b, left)
    ensures Balanced(offered, f, [b[i]] + b[..i] + b[i + 1..], left)
  {
    hide All;
    Moved(b, i, 0);
    AtHead(b[i], b[..i] + b[i + 1..], 0);
    assert [b[i]] + b[..i] + b[i + 1..] == [b[i]] + (b[..i] + b[i + 1..]);
  }

  lemma MoveFirstWaiting(b: seq<Session>, i: nat, s: nat)
    requires i < |b| && OneListEach(b)
    ensures Waiting([b[i]] + b[..i] + b[i + 1..], s) == Waiting(b, s)
  {
    hide Waiting, Mine, OneListEach;
    Moved(b, i, s);
    AtHead(b[i], b[..i] + b[i + 1..], s);
    assert [b[i]] + b[..i] + b[i + 1..] == [b[i]] + (b[..i] + b[i + 1..]);
    NoOtherList(b, i, s);
  }

  lemma NoOtherList(b: seq<Session>, i: nat, s: nat)
    requires i < |b| && OneListEach(b)
    ensures Mine(b[i], s) == [] || (Waiting(b[..i], s) == [] && Waiting(b[i + 1..], s) == [])
  {
    if b[i].so == Some(s) {
      NothingOf(b[..i], s);
      NothingOf(b[i + 1..], s);
    }
  }

  /** A queue after socket `so` has been freed. */
  ghost function Orphaned(q: seq<Session>, so: nat): (r: seq<Session>)
    ensures |r| == |q|
    ensures forall i :: 0 <= i < |q| ==> r[i] == if q[i].so == Some(so) then Session(None, q[i].pkts) else q[i]
  {
    if q == [] then []
    else
      var x := q[|q| - 1];
      Orphaned(q[..|q| - 1], so) + [if x.so == Some(so) then Session(None, x.pkts) else x]
  }

  lemma {:induction false} OrphanedWaiting(q: seq<Session>, so: nat, s: nat)
    ensures All(Orphaned(q, so)) == All(q)
    ensures Waiting(Orphaned(q, so), s) == if s == so then [] else Waiting(q, s)
  {
    if q != [] {
      var k := |q| - 1;
      OrphanedWaiting(q[..k], so, s);
      assert Orphaned(q, so)[..k] == Orphaned(q[..k], so);
    }
  }

  lemma OrphanedShape(q: seq<Session>, so: nat, low: set<nat>)
    requires NoneEmpty(q)
    ensures NoneEmpty(Orphaned(q, so)) && (OnlyFor(q, low) ==> OnlyFor(Orphaned(q, so), low))
    ensures OneListEach(q) ==> OneListEach(Orphaned(q, so))
  {
  }

  lemma OrphanedBalanced(offered: seq<Packet>, f: seq<Session>, b: seq<Session>, left: seq<Packet>, so: nat)
    requires Balanced(offered, f, b, left)
    ensures Balanced(offered, Orphaned(f, so), Orphaned(b, so), left)
  {
    OrphanedWaiting(f, so, so);
    OrphanedWaiting(b, so, so);
  }

  /**
   The fastq does not have absolute priority: even when nothing is delayed, a pass empties it before it turns to
   the batchq if and only if its last list holds a single packet.
   */
  lemma FastEmptiedIff(q: seq<Session>, delayed: Packet -> bool)
    requires NoneEmpty(q) && q != [] && forall p :: !delayed(p)
    ensures FastServed(q, delayed) == [] <==> |q[|q| - 1].pkts| == 1
  {
    var k := |q| - 1;
    AllServed(q[..k], delayed);
    ServedOne(q[k], delayed);
    assert q[k..] == [q[k]];
  }

  lemma {:induction false} AllServed(q: seq<Session>, delayed: Packet -> bool)
    requires forall p :: !delayed(p)
    ensures Served(q, delayed, true) == []
  {
    if q != [] {
      AllServed(q[..|q| - 1], delayed);
      assert Taken(q[|q| - 1].pkts, delayed, true) == |q[|q| - 1].pkts|;
    }
  }

  datatype Operation =
    | Output(so: Option<nat>, p: Packet, delayed: Packet -> bool)
    | Start(delayed: Packet -> bool)
    | Free(gone: nat)

  class Interface {
    const lowDelay: set<nat>  // the sockets with IPTOS_LOWDELAY
    var fastq: seq<Session>
    var batchq: seq<Session>
    var so_queued: map<nat, int>
    var so_nqueued: map<nat, int>
    ghost var offered: seq<Packet>  // everything passed to if_output
    ghost var left: seq<Packet>     // everything that has left the queues again
    ghost var arrived: map<nat, seq<Packet>>   // the same for each socket
    ghost var departed: map<nat, seq<Packet>>

    /** if_init. */
    constructor (lowDelay: set<nat>)
      ensures Valid() && this.lowDelay == lowDelay && fastq == batchq == [] && offered == left == []
    {
      this.lowDelay := lowDelay;
      fastq, batchq, so_queued, so_nqueued := [], [], map[], map[];
      offered, left, arrived, departed := [], [], map[], map[];
    }

    /** The counters of socket `s` are right, and a socket without low delay has its packets sent in their order. */
    ghost predicate Counted(s: nat)
      reads this
    {
      var n := |Waiting(fastq, s)| + |Waiting(batchq, s)|;
      && Get(so_queued, s, 0) == n <= Get(so_nqueued, s, 0)
      && (n == 0 ==> Get(so_nqueued, s, 0) == 0)
      && (s !in lowDelay ==>
        Waiting(fastq, s) == [] && Get(arrived, s, []) == Get(departed, s, []) + Waiting(batchq, s))
    }

    /** Lists are not empty, and only sockets with low delay have any on the fastq. */
    ghost predicate Shape()
      reads this`fastq, this`batchq
    {
      NoneEmpty(fastq) && NoneEmpty(batchq) && OneListEach(batchq) && OnlyFor(fastq, lowDelay)
    }

    /** Every packet ever offered is in exactly one list, or has left exactly once. */
    ghost predicate Conserved()
      reads this`fastq, this`batchq, this`offered, this`left
    {
      Balanced(offered, fastq, batchq, left)
    }

    ghost predicate Valid()
      reads this
    {
      Shape() && Conserved() && forall s: nat :: Counted(s)
    }

    /** The counters after one packet of a list of socket `so` has left. */
    method CountDown(so: Option<nat>)
      modifies this`so_queued, this`so_nqueued
      ensures forall s: nat :: so != Some(s) ==>
                Get(so_queued, s, 0) == old(Get(so_queued, s, 0)) && Get(so_nqueued, s, 0) == old(Get(so_nqueued, s, 0))
      ensures so.Some? ==>
                && Get(so_queued, so.value, 0) == old(Get(so_queued, so.value, 0)) - 1
                && Get(so_nqueued, so.value, 0) == if old(Get(so_queued, so.value, 0)) == 1 then 0
                  else old(Get(so_nqueued, so.value, 0))
    {
      if so.Some? {
        so_queued := so_queued[so.value := Get(so_queued, so.value, 0) - 1];
        if so_queued[so.value] == 0 {
          so_nqueued := so_nqueued[so.value := 0];
        }
      }
    }

    /** Records that a packet of a list of socket `so` has left. */
    ghost method Record(so: Option<nat>, p: Packet)
      modifies this`left, this`departed
      ensures left == old(left) + [p]
      ensures forall s: nat :: Get(departed, s, []) == old(Get(departed, s, [])) + if so == Some(s) then [p] else []
    {
      left := left + [p];
      if so.Some? {
        departed := departed[so.value := Get(departed, so.value, []) + [p]];
      }
    }

    /** Takes the first packet of list `i` off the batchq. */
    method TakeBatch(i: nat)
      requires Valid() && i < |batchq|
      modifies this
      ensures Valid() && fastq == old(fastq) && batchq == Without(old(batchq), i)
      ensures left == old(left) + [old(batchq)[i].pkts[0]] && offered == old(offered)
    {
      hide Without, Rest, Waiting, All, NoneEmpty, OneListEach, OnlyFor, Get, Balanced;
      ghost var q := batchq;
      var x := batchq[i];
      WithoutShape(q, i, lowDelay);
      WithoutBalanced(offered, q, fastq, left, i);
      batchq := Without(batchq, i);
      Record(x.so, x.pkts[0]);
      CountDown(x.so);
      forall s: nat
        ensures Counted(s)
      {
        assert old(Counted(s));
        WithoutWaiting(q, i, s);
      }
    }

    /** Takes the first packet of list `i` off the fastq. */
    method TakeFast(i: nat)
      requires Valid() && i < |fastq|
      modifies this
      ensures Valid() && batchq == old(batchq) && fastq == Without(old(fastq), i)
      ensures left == old(left) + [old(fastq)[i].pkts[0]] && offered == old(offered)
    {
      hide Without, Rest, Waiting, All, NoneEmpty, OneListEach, OnlyFor, Get, Balanced;
      ghost var q := fastq;
      var x := fastq[i];
      WithoutShape(q, i, lowDelay);
      WithoutBalanced(offered, q, batchq, left, i);
      fastq := Without(fastq, i);
      Record(x.so, x.pkts[0]);
      CountDown(x.so);
      forall s: nat
        ensures Counted(s)
      {
        assert old(Counted(s));
        WithoutWaiting(q, i, s);
      }
    }

    /**
     Serves list `i` of the fastq: its packets leave one after the other until one is delayed, or, for the last
     list, at most the first one does.
     */
    method ServeFast(i: nat, all: bool, delayed: Packet -> bool) returns (gone: bool)
      requires Valid() && i < |fastq|
      modifies this
      ensures Valid() && batchq == old(batchq) && offered == old(offered)
      ensures var x := old(fastq)[i];
              var n := Taken(x.pkts, delayed, all);
              && fastq == old(fastq)[..i] + Rest(x, n) + old(fastq)[i + 1..]
              && left == old(left) + x.pkts[..n] && (gone <==> n == |x.pkts|)
    {
      hide Valid, Rest, Taken;
      gone := false;
      ghost var q, x := fastq, fastq[i];
      var n := 0;
      HeadThere(i);
      NoneTaken(q, i);
      while !gone && !delayed(fastq[i].pkts[0]) && (all || n == 0)
        invariant Valid() && batchq == old(batchq) && offered == old(offered)
        invariant n <= |x.pkts| && fastq == q[..i] + Rest(x, n) + q[i + 1..] && (gone <==> n == |x.pkts|)
        invariant left == old(left) + x.pkts[..n]
        invariant !gone ==> i < |fastq| && fastq[i] == Session(x.so, x.pkts[n..])
        invariant if all then Taken(x.pkts, delayed, all) == n + Taken(x.pkts[n..], delayed, all)
                  else n == 0 || n == Taken(x.pkts, delayed, all)
        decreases |x.pkts| - n
      {
        OneTaken(q, i, n, delayed, all);
        gone := |fastq[i].pkts| == 1;
        TakeFast(i);
        n := n + 1;
      }
      TakenStops(x.pkts[n..], delayed, all);
    }

    lemma HeadThere(i: nat)
      requires Valid()
      ensures i < |fastq| ==> fastq[i].pkts != []
      ensures i < |batchq| ==> batchq[i].pkts != []
    {
      hide Counted;
    }

    /** Serves list `i` of the batchq: at most one packet leaves. */
    method ServeBatch(i: nat, delayed: Packet -> bool) returns (gone: bool)
      requires Valid() && i < |batchq|
      modifies this
      ensures Valid() && fastq == old(fastq) && offered == old(offered)
      ensures var x := old(batchq)[i];
              var n := Taken(x.pkts, delayed, false);
              && batchq == old(batchq)[..i] + Rest(x, n) + old(batchq)[i + 1..]
              && left == old(left) + x.pkts[..n] && (gone <==> n == |x.pkts|)
    {
      hide Valid;
      HeadThere(i);
      NoneTaken(batchq, i);
      gone := false;
      if !delayed(batchq[i].pkts[0]) {
        gone := |batchq[i].pkts| == 1;
        TakeBatch(i);
      }
    }

    /**
     One pass of if_start over the queues as they are: every fastq list but the last until one of its packets
     is delayed, then one packet of the last one and of each batchq list.
     */
    method IfStart(delayed: Packet -> bool)
      requires Valid()
      modifies this
      ensures Valid() && offered == old(offered)
      ensures fastq == FastServed(old(fastq), delayed) && batchq == Served(old(batchq), delayed, false)
      ensures left == old(left) + FastLeaving(old(fastq), delayed) + Leaving(old(batchq), delayed, false)
    {
      hide Valid;
      StartFast(delayed);
      StartBatch(delayed);
    }

    method StartFast(delayed: Packet -> bool)
      requires Valid()
      modifies this
      ensures Valid() && offered == old(offered) && batchq == old(batchq)
      ensures fastq == FastServed(old(fastq), delayed) && left == old(left) + FastLeaving(old(fastq), delayed)
    {
      hide Valid, Taken, Rest, Served, Leaving, FastServed, FastLeaving;
      ghost var q := fastq;
      ghost var k := 0;
      var i := 0;
      NothingServed(q, delayed, true);
      while i + 1 < |fastq|
        invariant Valid() && offered == old(offered) && batchq == old(batchq)
        invariant k <= |q| && (k < |q| || q == []) && i == |Served(q[..k], delayed, true)|
        invariant fastq == Served(q[..k], delayed, true) + q[k..]
        invariant left == old(left) + Leaving(q[..k], delayed, true)
        decreases |fastq| - i
      {
        ServedMore(q, k, delayed, true);
        var gone := ServeFast(i, true, delayed);
        k := k + 1;
        if !gone {
          i := i + 1;
        }
      }
      if i < |fastq| {
        ServedLast(q, k, delayed);
        var gone := ServeFast(i, false, delayed);
      }
    }

    method StartBatch(delayed: Packet -> bool)
      requires Valid()
      modifies this
      ensures Valid() && offered == old(offered) && fastq == old(fastq)
      ensures batchq == Served(old(batchq), delayed, false) && left == old(left) + Leaving(old(batchq), delayed, false)
    {
      hide Valid, Taken, Rest, Served, Leaving;
      ghost var q := batchq;
      ghost var k := 0;
      var i := 0;
      NothingServed(q, delayed, false);
      while i < |batchq|
        invariant Valid() && offered == old(offered) && fastq == old(fastq)
        invariant k <= |q| && i == |Served(q[..k], delayed, false)|
        invariant batchq == Served(q[..k], delayed, false) + q[k..]
        invariant left == old(left) + Leaving(q[..k], delayed, false)
        decreases |batchq| - i
      {
        ServedMore(q, k, delayed, false);
        var gone := ServeBatch(i, delayed);
        k := k + 1;
        if !gone {
          i := i + 1;
        }
      }
      assert q[..k] == q;
    }

    /** Searches the batchq from its end for a list of socket `so`. */
    method FindBatch(so: nat) returns (i: nat)
      ensures i <= |batchq|
      ensures i < |batchq| ==> batchq[i].so == Some(so)
      ensures i == |batchq| ==> forall j :: 0 <= j < |batchq| ==> batchq[j].so != Some(so)
    {
      i := |batchq|;
      while i > 0
        invariant 0 <= i <= |batchq|
        invariant forall j :: i <= j < |batchq| ==> batchq[j].so != Some(so)
      {
        i := i - 1;
        if batchq[i].so == Some(so) {
          return;
        }
      }
      i := |batchq|;
    }

    /** One more packet of socket `so` is waiting. */
    method CountUp(so: Option<nat>)
      modifies this`so_queued, this`so_nqueued
      ensures forall s: nat ::
                && Get(so_queued, s, 0) == old(Get(so_queued, s, 0)) + (if so == Some(s) then 1 else 0)
                && Get(so_nqueued, s, 0) == old(Get(so_nqueued, s, 0)) + (if so == Some(s) then 1 else 0)
    {
      if so.Some? {
        so_queued := so_queued[so.value := Get(so_queued, so.value, 0) + 1];
        so_nqueued := so_nqueued[so.value := Get(so_nqueued, so.value, 0) + 1];
      }
    }

    /** Records that a packet for socket `so` has come. */
    ghost method RecordArrival(so: Option<nat>, p: Packet)
      modifies this`offered, this`arrived
      ensures offered == old(offered) + [p]
      ensures forall s: nat :: Get(arrived, s, []) == old(Get(arrived, s, [])) + if so == Some(s) then [p] else []
    {
      offered := offered + [p];
      if so.Some? {
        arrived := arrived[so.value := Get(arrived, so.value, []) + [p]];
      }
    }

    /** The packet joins list `i` of the batchq, or forms a new list at the end if there is none. */
    method PutBatch(so: Option<nat>, p: Packet, i: nat)
      requires Valid() && i <= |batchq|
      requires i < |batchq| ==> so.Some? && batchq[i].so == so
      requires i == |batchq| && so.Some? ==> forall j :: 0 <= j < |batchq| ==> batchq[j].so != so
      modifies this
      ensures Valid() && fastq == old(fastq) && batchq == Put(old(batchq), i, so, p)
      ensures offered == old(offered) + [p] && left == old(left)
    {
      hide Waiting, All, Put, NoneEmpty, OneListEach, OnlyFor, Get, Balanced;
      ghost var q := batchq;
      PutShape(q, i, so, p, lowDelay);
      PutBalanced(offered, q, fastq, left, i, so, p);
      batchq := Put(batchq, i, so, p);
      RecordArrival(so, p);
      CountUp(so);
      forall s: nat
        ensures Counted(s)
      {
        assert old(Counted(s));
        PutWaiting(q, i, so, p, s);
      }
    }

    /** The packet joins the last list of the fastq, or forms a new one behind it. */
    method PutFast(so: Option<nat>, p: Packet, i: nat)
      requires Valid() && i <= |fastq| && so.Some? && so.value in lowDelay
      requires i < |fastq| ==> fastq[i].so == so
      modifies this
      ensures Valid() && batchq == old(batchq) && fastq == Put(old(fastq), i, so, p)
      ensures offered == old(offered) + [p] && left == old(left)
    {
      hide Waiting, All, Put, NoneEmpty, OneListEach, OnlyFor, Get, Balanced;
      ghost var q := fastq;
      PutShape(q, i, so, p, lowDelay);
      PutBalanced(offered, q, batchq, left, i, so, p);
      fastq := Put(fastq, i, so, p);
      RecordArrival(so, p);
      CountUp(so);
      forall s: nat
        ensures Counted(s)
      {
        assert old(Counted(s));
        PutWaiting(q, i, so, p, s);
      }
    }

    /**
     The first half of if_output: a socket that has a batchq list keeps to it, one with low delay uses the last
     list of the fastq if that is its own, and everybody else starts a new list. The result tells where.
     */
    method Enqueue(so: Option<nat>, p: Packet) returns (fast: bool, i: nat)
      requires Valid()
      modifies this
      ensures Valid() && offered == old(offered) + [p] && left == old(left)
      ensures i < |(if fast then fastq else batchq)|
      ensures var x := (if fast then fastq else batchq)[i];
              x.so == so && x.pkts != [] && x.pkts[|x.pkts| - 1] == p
      ensures fast ==> so.Some? && forall j :: 0 <= j < |batchq| ==> batchq[j].so != so
      ensures so.Some? && so.value !in lowDelay ==> !fast
    {
      hide Valid;
      var m := |batchq|;
      if so.Some? {
        m := FindBatch(so.value);
      }
      if m < |batchq| || so.None? || so.value !in lowDelay {
        fast, i := false, m;
        PutBatch(so, p, m);
      } else {
        fast, i := true, |fastq|;
        if fastq != [] && fastq[|fastq| - 1].so == so {
          i := |fastq| - 1;
        }
        PutFast(so, p, i);
      }
    }

    /** Moves a list to the head of the batchq. */
    method Downgrade(fast: bool, i: nat)
      requires Valid() && i < |(if fast then fastq else batchq)|
      requires fast ==> fastq[i].so.Some? && forall j :: 0 <= j < |batchq| ==> batchq[j].so != fastq[i].so
      modifies this`fastq, this`batchq
      ensures Valid()
      ensures if fast then batchq == [old(fastq)[i]] + old(batchq) && fastq == old(fastq)[..i] + old(fastq)[i + 1..]
              else batchq == [old(batchq)[i]] + old(batchq)[..i] + old(batchq)[i + 1..] && fastq == old(fastq)
    {
      hide Waiting, All, NoneEmpty, OneListEach, OnlyFor, Get, Balanced;
      ghost var f, b := fastq, batchq;
      if fast {
        MoveAcrossShape(f, b, i, lowDelay);
        MoveAcrossBalanced(offered, f, b, left, i);
        batchq, fastq := [fastq[i]] + batchq, fastq[..i] + fastq[i + 1..];
      } else {
        MoveFirstShape(b, i);
        MoveFirstBalanced(offered, f, b, left, i);
        batchq := [batchq[i]] + batchq[..i] + batchq[i + 1..];
      }
      forall s: nat
        ensures Counted(s)
      {
        assert old(Counted(s));
        if fast {
          MoveAcrossWaiting(f, b, i, lowDelay, s);
        } else {
          MoveFirstWaiting(b, i, s);
        }
      }
    }

    /** if_output: queues the packet, perhaps downgrades its session, and starts sending. */
    method IfOutput(so: Option<nat>, p: Packet, delayed: Packet -> bool)
      requires Valid()
      modifies this
      ensures Valid() && offered == old(offered) + [p] && old(left) <= left
    {
      hide Valid, FastServed, FastLeaving, Served, Leaving;
      var fast, i := Enqueue(so, p);
      if so.Some? && Get(so_nqueued, so.value, 0) >= 6
        && Get(so_nqueued, so.value, 0) - Get(so_queued, so.value, 0) >= 3 {
        Downgrade(fast, i);
      }
      IfStart(delayed);
    }

    /** soqfree on one queue: its lists forget socket `so`. */
    method Forget(q: seq<Session>, so: nat) returns (r: seq<Session>)
      ensures r == Orphaned(q, so)
    {
      r := [];
      for i := 0 to |q|
        invariant r == Orphaned(q[..i], so)
      {
        assert q[..i + 1][..i] == q[..i];
        r := r + [if q[i].so == Some(so) then Session(None, q[i].pkts) else q[i]];
      }
      assert q[..|q|] == q;
    }

    /** The counters go with the socket. */
    method DropSocket(so: nat)
      modifies this`so_queued, this`so_nqueued, this`arrived, this`departed
      ensures forall s: nat ::
                && Get(so_queued, s, 0) == (if s == so then 0 else old(Get(so_queued, s, 0)))
                && Get(so_nqueued, s, 0) == (if s == so then 0 else old(Get(so_nqueued, s, 0)))
                && Get(arrived, s, []) == (if s == so then [] else old(Get(arrived, s, [])))
                && Get(departed, s, []) == (if s == so then [] else old(Get(departed, s, [])))
    {
      so_queued, so_nqueued := so_queued - {so}, so_nqueued - {so};
      arrived, departed := arrived - {so}, departed - {so};
    }

    /** soqfree for both queues, when socket `so` is freed: its packets stay but belong to nobody. */
    method SoQFree(so: nat)
      requires Valid()
      modifies this
      ensures Valid() && fastq == Orphaned(old(fastq), so) && batchq == Orphaned(old(batchq), so)
      ensures offered == old(offered) && left == old(left)
    {
      hide Waiting, All, NoneEmpty, OneListEach, OnlyFor, Balanced, Orphaned, Get;
      ghost var f, b := fastq, batchq;
      fastq := Forget(fastq, so);
      batchq := Forget(batchq, so);
      DropSocket(so);
      OrphanedShape(f, so, lowDelay);
      OrphanedShape(b, so, lowDelay);
      OrphanedBalanced(offered, f, b, left, so);
      forall s: nat
        ensures Counted(s)
      {
        assert old(Counted(s));
        OrphanedWaiting(f, so, s);
        OrphanedWaiting(b, so, s);
      }
    }

    /** Any run of the three operations. */
    method Run(ops: seq<Operation>)
      requires Valid()
      modifies this
      ensures Valid() && old(left) <= left && old(offered) <= offered
    {
      hide Valid, FastServed, FastLeaving, Served, Leaving, Orphaned;
      for i := 0 to |ops|
        invariant Valid() && old(left) <= left && old(offered) <= offered
      {
        match ops[i]
        case Output(so, p, delayed) => IfOutput(so, p, delayed);
        case Start(delayed) => IfStart(delayed);
        case Free(gone) => SoQFree(gone);
      }
    }

    /** What holds after any run. */
    lemma WhatHolds(s: nat)
      requires Valid()
      // each packet is in exactly one list, or has left exactly once
      ensures multiset(offered) == multiset(All(fastq)) + multiset(All(batchq)) + multiset(left)
      // so_queued counts the packets of the socket that are queued, and so_nqueued starts again with it
      ensures Get(so_queued, s, 0) == |Waiting(fastq, s)| + |Waiting(batchq, s)|
      ensures Get(so_queued, s, 0) == 0 ==> Get(so_nqueued, s, 0) == 0
      // no socket has two batchq lists, and without low delay its packets leave in the order they came
      ensures forall i, j :: 0 <= i < j < |batchq| && batchq[i].so == Some(s) ==> batchq[j].so != Some(s)
      ensures s !in lowDelay ==> Get(departed, s, []) <= Get(arrived, s, [])
    {
      hide Waiting, All, Get;
      assert Counted(s);
    }
  }
}
