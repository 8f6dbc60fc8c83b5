/**
 Vocabulary of the TCP engine: connection states, segments, and the relation between the 32-bit
 variables of the control block and unbounded positions in the two octet streams.
 */
module TcpSpec {
  import opened SeqNum
  import opened Rtt
  import opened SegQueues
  import opened Spans

  // Connection states, numbered as in tcp.h; the code compares them by number.
  const TCPS_CLOSED := 0
  const TCPS_ESTABLISHED := 4
  const TCPS_CLOSE_WAIT := 5
  const TCPS_FIN_WAIT_1 := 6
  const TCPS_CLOSING := 7
  const TCPS_LAST_ACK := 8
  const TCPS_FIN_WAIT_2 := 9
  const TCPS_TIME_WAIT := 10

  predicate Synchronized(st: int) { st == TCPS_CLOSED || TCPS_ESTABLISHED <= st <= TCPS_TIME_WAIT }

  /** The user has not closed yet. */
  predicate Open(st: int) { st == TCPS_ESTABLISHED || st == TCPS_CLOSE_WAIT }

  /** The states whose output flags contain FIN: closed by the user, FIN not yet acknowledged. */
  predicate Closing(st: int) { TCPS_FIN_WAIT_1 <= st <= TCPS_LAST_ACK }

  /** The guest's FIN has been received. */
  predicate GuestDone(st: int) {
    st == TCPS_CLOSE_WAIT || st == TCPS_CLOSING || st == TCPS_LAST_ACK || st == TCPS_TIME_WAIT
  }

  /** TCPS_HAVERCVDFIN. */
  predicate HaveRcvdFin(st: int) { st >= TCPS_TIME_WAIT }

  const TCP_MAXWIN := 65535

  datatype Segment = Segment(seqno: u32, ackno: u32, ack: bool, rst: bool, fin: bool, psh: bool, win: u16,
    data: seq<u8>)

  /**
   A segment put on the wire, with the stream position of its sequence number, the position it
   acknowledges and the right window edge advertised up to then.
   */
  datatype Emitted = Emitted(pos: int, rcv: int, edge: int, seg: Segment)

  /**
   An emitted segment tells the guest the truth: its text is what the host wrote at that place of
   the stream, and a FIN stands right behind the last byte.
   */
  ghost predicate Faithful(iss: u32, irs: u32, sent: seq<u8>, e: Emitted) {
    && e.seg.seqno == At(iss, e.pos)
    && e.seg.ackno == At(irs, e.rcv)
    && -1 <= e.pos <= |sent| + 1
    && (e.seg.data != [] || e.seg.fin ==>
          0 <= e.pos && e.pos + |e.seg.data| <= |sent| && e.seg.data == sent[e.pos..e.pos + |e.seg.data|])
    && (e.seg.fin ==> e.pos + |e.seg.data| == |sent|)
  }

  /**
   Bytes that the host delivers later do not make an emitted segment wrong, unless it carried a FIN: then
   its FIN no longer stands behind the last byte.
   */
  lemma ReadKeepsFaith(iss: u32, irs: u32, sent: seq<u8>, more: seq<u8>, e: Emitted)
    requires Faithful(iss, irs, sent, e)
    ensures Faithful(iss, irs, sent + more, e) <==> more == [] || !e.seg.fin
  {
    hide At;
    if more == [] {
      assert sent + more == sent;
    } else if e.seg.data != [] {
      var d := |e.seg.data|;
      assert (sent + more)[e.pos..e.pos + d] == sent[e.pos..e.pos + d];
    }
  }

  /**
   The send side of the control block. `u`, `x` and `m` are the positions of snd_una, snd_nxt and
   snd_max, `n` is the number of bytes read from the host and `cc` the fill of so_snd.
   */
  ghost predicate SendVars(iss: u32, una: u32, nxt: u32, max: u32, u: int, x: int, m: int,
                           n: int, cc: int, sentFin: bool, st: int)
  {
    && una == At(iss, u) && nxt == At(iss, x) && max == At(iss, m)
    && 0 <= u <= x <= m <= n + (if sentFin then 1 else 0)
    && cc == Max(n - u, 0) && cc < BUFFER
    && (sentFin ==> m == n + 1)
    && Synchronized(st)
    && (Open(st) ==> !sentFin)
    && (Closing(st) ==> u <= n)
    && (st >= TCPS_FIN_WAIT_2 ==> u == n + 1)
  }

  /**
   The receive side: `r` is the position of rcv_nxt, `a` that of rcv_adv, `space` the free room of
   so_rcv, and the guest's stream has `len` octets followed by a FIN.
   */
  ghost predicate RecvVars(irs: u32, nxt: u32, adv: u32, r: int, a: int, space: int, len: int) {
    && nxt == At(irs, r) && adv == At(irs, a)
    && 0 <= r <= len + 1
    && a <= r + space && a - r <= TCP_MAXWIN && r - a < REACH
    && 0 <= space < BUFFER
  }

  /** Comparing an acknowledgment that is new and not beyond snd_max locates it between the two. */
  lemma AckInRange(iss: u32, u: int, m: int, ack: u32)
    requires 0 <= m - u <= REACH
    requires SeqGt(ack, At(iss, u)) && !SeqGt(ack, At(iss, m))
    ensures 0 < Diff(ack, At(iss, u)) <= m - u
    ensures ack == At(iss, u + Diff(ack, At(iss, u)))
  {
    AtDiff(iss, ack, u);
    var k := Diff(ack, At(iss, u));
    if k > m - u {
      DiffAt(iss, u + k, m);
    }
  }

  /** Moving snd_nxt over `len` octets of so_snd and maybe the FIN behind them, and snd_max along with it. */
  lemma SendAdvance(iss: u32, una: u32, nxt: u32, max: u32, u: int, x: int, m: int, n: int, cc: int, sentFin: bool,
    st: int, len: int, fin: bool, x': int)
    requires SendVars(iss, una, nxt, max, u, x, m, n, cc, sentFin, st)
    requires x' == x + len + (if fin then 1 else 0) && 0 <= len
    requires len > 0 || fin ==> x + len <= n
    requires fin ==> Closing(st) && x + len == n
    ensures var nxt' := U32((if fin then U32(nxt + 1) else nxt) + len);
            && nxt' == At(iss, x')
            && (SeqGt(nxt', max) <==> x' > m)
            && (nxt' == una <==> x' == u)
            && SendVars(iss, una, nxt', if x' > m then nxt' else max, u, x', Max(m, x'), n, cc, sentFin || fin, st)
  {
    hide At, Diff, U32;
    AddAt(iss, x, 1);
    AddAt(iss, x + (if fin then 1 else 0), len);
    DiffAt(iss, x', m);
    DiffAt(iss, x', u);
    DiffAt(iss, u, u);
  }

  /** A window probe leaves snd_nxt where it is and only raises snd_max. */
  lemma SendProbe(iss: u32, una: u32, nxt: u32, max: u32, u: int, x: int, m: int, n: int, cc: int, sentFin: bool,
    st: int, len: int)
    requires SendVars(iss, una, nxt, max, u, x, m, n, cc, sentFin, st)
    requires 0 <= len && (len > 0 ==> x + len <= n)
    ensures SeqGt(U32(nxt + len), max) <==> x + len > m
    ensures SendVars(iss, una, nxt, if x + len > m then U32(nxt + len)
              else max, u, x, Max(m, x + len), n, cc, sentFin, st)
  {
    hide At, Diff, U32;
    AddAt(iss, x, len);
    DiffAt(iss, x + len, m);
  }

  /**
   The window `win` that tcp_output computes, seen from the positions: for a guest that stayed inside
   its window it never takes back what was advertised; for one that did not it is an underflow.
   */
  ghost predicate WindowFor(r: int, a: int, space: int, win: int) {
    if r <= a then a - r <= win <= Max(a - r, Min(space, TCP_MAXWIN)) else win == TWO_32 - (r - a)
  }

  /** The right edge that tcp_output remembers after advertising `win`. */
  function EdgeAfter(r: int, a: int, win: int): (e: int) {
    if r <= a < r + win then r + win else a
  }

  /**
   The window survives the cast to 16 bits if and only if rcv_nxt has not passed the advertised edge; the field
   then names the edge that is remembered. Otherwise it is what is left of a negative distance: a FIN just behind
   a full window passes the edge by one, and the guest is told that the window is wide open.
   */
  lemma WindowExactIff(r: int, a: int, space: int, win: int)
    requires WindowFor(r, a, space, win) && a - r <= TCP_MAXWIN && r - a < REACH
    ensures win % 0x1_0000 == win <==> r <= a
    ensures r <= a ==> r + win % 0x1_0000 == EdgeAfter(r, a, win)
    ensures win % 0x1_0000 == (EdgeAfter(r, a, win) - r) % 0x1_0000
    ensures r == a + 1 ==> win % 0x1_0000 == TCP_MAXWIN
  {
  }

  /** Advertising such a window moves rcv_adv to the new right edge, and never beyond the free space. */
  lemma Advertise(irs: u32, nxt: u32, adv: u32, r: int, a: int, space: int, len: int, win: int)
    requires RecvVars(irs, nxt, adv, r, a, space, len) && WindowFor(r, a, space, win)
    ensures var moved := win > 0 && SeqGt(U32(nxt + win), adv);
            && (moved <==> r <= a < r + win)
            && RecvVars(irs, nxt, if moved then U32(nxt + win) else adv, r, if moved then r + win else a, space, len)
    ensures r <= a ==> win <= TCP_MAXWIN
  {
    hide At, Diff, U32;
    AddAt(irs, r, win);
    if r <= a {
      DiffAt(irs, r + win, a);
    } else {
      AtPeriodic(irs, a);
      DiffAt(irs, a, a);
    }
  }

  /** A FIN that is sent again gets its old sequence number back, right behind the last byte. */
  lemma SendBackUp(iss: u32, una: u32, nxt: u32, max: u32, u: int, x: int, m: int, n: int, cc: int, sentFin: bool,
    st: int, len: int)
    requires SendVars(iss, una, nxt, max, u, x, m, n, cc, sentFin, st)
    requires Closing(st) && 0 <= len && x + len >= n && (len > 0 ==> x + len <= n)
    ensures sentFin && nxt == max <==> x == n + 1
    ensures x == n + 1 ==> len == 0 && SendVars(iss, una, U32(nxt - 1), max, u, x - 1, m, n, cc, sentFin, st)
    ensures x != n + 1 ==> x + len == n
  {
    hide At, Diff, U32;
    DiffAt(iss, x, m);
    DiffAt(iss, m, m);
    AddAt(iss, x, -1);
  }

  /**
   Segment `e` acknowledges everything received (`r`); as long as the guest has kept to its window, the
   window field names the right edge exactly. The edge is not left of `edge`, the one advertised before.
   */
  ghost predicate Timely(e: Emitted, edge: int, r: int, a: int, st: int, maxseg: int) {
    && e.rcv == r && edge <= e.edge <= a && e.seg.ack && (edge < r ==> e.edge == edge)
    && NamesEdge(e)
    && |e.seg.data| <= maxseg && (e.seg.rst <==> st == TCPS_CLOSED)
  }

  /** The segments from index `from` on are timely, and the edge they advertise never moves left and ends at `a`. */
  ghost predicate Fresh(w: seq<Emitted>, from: int, edge: int, r: int, a: int, st: int, maxseg: int) {
    && 0 <= from <= |w|
    && (forall i :: from <= i < |w| ==> Timely(w[i], edge, r, a, st, maxseg))
    && (forall i, j :: from <= i < j < |w| ==> w[i].edge <= w[j].edge)
    && (if |w| > from then w[|w| - 1].edge == a else a == edge)
  }

  lemma FreshStart(w: seq<Emitted>, r: int, a: int, st: int, maxseg: int)
    ensures Fresh(w, |w|, a, r, a, st, maxseg)
  {
  }

  lemma FreshGrows(w: seq<Emitted>, from: int, edge: int, r: int, a: int, st: int, maxseg: int)
    requires Fresh(w, from, edge, r, a, st, maxseg)
    ensures edge <= a
  {
  }

  lemma FreshExtend(w: seq<Emitted>, w': seq<Emitted>, from: int, edge: int, r: int, a: int, a': int, st: int,
    maxseg: int)
    requires Fresh(w, from, edge, r, a, st, maxseg)
    requires (w' == w && a' == a)
             || (w <= w' && |w'| == |w| + 1 && w'[|w|].edge == a' && Timely(w'[|w|], a, r, a', st, maxseg))
    ensures Fresh(w', from, edge, r, a', st, maxseg)
  {
    forall i | from <= i < |w'|
      ensures Timely(w'[i], edge, r, a', st, maxseg)
    {
      if i < |w| {
        assert Timely(w[i], edge, r, a, st, maxseg);
      }
    }
  }

  /** rcv_nxt moves over `len` octets that so_rcv or the host has taken: the right edge does not move left. */
  lemma ReceiveAdvance(irs: u32, nxt: u32, adv: u32, r: int, a: int, space: int, space': int, slen: int, len: int)
    requires RecvVars(irs, nxt, adv, r, a, space, slen)
    requires 0 <= len <= space && space - len <= space' < BUFFER && r + len <= slen + 1
    requires r + len - a < REACH
    ensures RecvVars(irs, U32(nxt + len), adv, r + len, a, space', slen)
  {
    hide At, Diff, U32;
    AddAt(irs, r, len);
  }

  /**
   What tcp_input has left of a segment after trimming: `fin` is the FIN bit of the working flags, which
   trimming on the right clears, `hdrFin` the one still standing in the header.
   */
  datatype Trimmed = Trimmed(seqno: u32, data: seq<u8>, fin: bool, hdrFin: bool)

  /**
   Octets `data` at position `p` are those of stream `S` below `hi`. Octets in front of the stream may be anything.
   */
  ghost predicate Agrees(data: seq<u8>, p: int, S: seq<u8>, hi: int) {
    forall k :: 0 <= k < |S| && p <= k < p + |data| && k < hi ==> S[k] == data[k - p]
  }

  /**
   The arriving segment belongs to stream `S` at position `p`, less than `REACH` behind and 2^31 ahead of `r`.
   */
  ghost predicate Genuine(irs: u32, S: seq<u8>, r: int, ti: Segment, p: int) {
    var e := p + |ti.data|;
    && |ti.data| <= 0xffff
    && ti.seqno == At(irs, p) && -REACH < p - r && e - r < TWO_31
    && e <= |S| && (ti.fin ==> e == |S|) && Agrees(ti.data, p, S, e)
  }

  /** A segment of a guest that sends stream `S`: any piece of it at any time, and perhaps older octets before it. */
  ghost predicate FromGuest(irs: u32, S: seq<u8>, ti: Segment, p: int) {
    var e := p + |ti.data|;
    && |ti.data| <= 0xffff && ti.seqno == At(irs, p) && |S| + 1 - REACH < p
    && e <= |S| && (ti.fin ==> e == |S|) && Agrees(ti.data, p, S, e)
  }

  /** The stream cut off at position `hi`. */
  ghost function UpTo(S: seq<u8>, hi: int): seq<u8> {
    if 0 <= hi <= |S| then S[..hi] else S
  }

  /**
   What tcp_input relies on: the octets of the segment below the right window edge `hi` are those of stream
   `S`, and a FIN inside the window stands at its end. Nothing is said of what lies beyond the edge.
   */
  ghost predicate Plausible(irs: u32, S: seq<u8>, r: int, hi: int, ti: Segment, p: int) {
    var e := p + |ti.data|;
    && |ti.data| <= 0xffff
    && ti.seqno == At(irs, p) && -REACH < p - r && e - r < TWO_31
    && Min(e, hi) <= |S| && (ti.fin && e <= hi ==> e == |S|) && Agrees(ti.data, p, S, hi)
  }

  /** The FIN of a segment that begins inside the window and ends beyond it will be cut off. */
  predicate FinBeyond(r: int, hi: int, ti: Segment, p: int) {
    ti.fin && r < hi && p < hi < p + |ti.data|
  }

  lemma GenuineIsPlausible(irs: u32, S: seq<u8>, r: int, hi: int, ti: Segment, p: int)
    requires Genuine(irs, S, r, ti, p)
    ensures Plausible(irs, S, r, hi, ti, p)
  {
    hide At;
  }

  /** To the receiver, a stream that ends at the right window edge looks just the same. */
  lemma PlausibleUpToEdge(irs: u32, S: seq<u8>, r: int, hi: int, ti: Segment, p: int)
    requires Plausible(irs, S, r, hi, ti, p) && 0 <= hi <= |S| && FinBeyond(r, hi, ti, p)
    ensures Plausible(irs, UpTo(S, hi), r, hi, ti, p)
  {
    hide At;
  }

  lemma PlausibleNear(irs: u32, S: seq<u8>, r: int, hi: int, ti: Segment, p: int)
    requires Plausible(irs, S, r, hi, ti, p)
    ensures ti.seqno == At(irs, p) && -REACH < p - r && p + |ti.data| - r < TWO_31
    ensures p + |ti.data| <= hi ==> p + |ti.data| <= |S| && (0 <= p ==> ti.data == S[p..p + |ti.data|])
  {
    hide At;
  }

  /**
   A trimmed segment that may be merged into queue `ss`: it lies between `r` and `hi`, or there is nothing
   left of it; its FIN stands at the end of the stream, unless the queue has all of the text and drops both.
   */
  ghost predicate Fits(irs: u32, S: seq<u8>, r: int, hi: int, tj: Trimmed, p: int, ss: seq<Span>) {
    var f, t := Frag(tj.seqno, tj.data, tj.hdrFin), Span(p, p + |tj.data|);
    && tj.seqno == At(irs, p) && (tj.fin ==> tj.hdrFin)
    && (tj.data != [] || tj.fin ==>
          && r <= t.lo && t.hi <= hi && Carries(irs, S, f, t)
          && (EndsRight(S, f, t) || (tj.data != [] && Provided(ss, t))))
  }

  /** Of a segment's octets `[p0, e)`, those in `[p, p + n)` are the ones inside the window `[r, hi)`. */
  lemma KeptIsInWindow(p0: int, e: int, r: int, hi: int, p: int, n: int)
    requires p0 <= e && r <= hi && p == Max(p0, Min(r, e)) && n == Max(0, Min(e - p, hi - p)) && (n > 0 ==> r <= p)
    ensures Range(Span(p, p + n)) == Range(Span(p0, e)) * Range(Span(r, hi))
  {
  }

  lemma TrimmedFits(irs: u32, S: seq<u8>, r: int, hi: int, ti: Segment, p0: int, tj: Trimmed, p: int, ss: seq<Span>)
    requires 0 <= r <= hi && Plausible(irs, S, r, hi, ti, p0)
    requires forall i :: 0 <= i < |ss| ==> r <= ss[i].lo && ss[i].hi <= hi
    requires p == Max(p0, Min(r, p0 + |ti.data|)) && |tj.data| == Max(0, Min(p0 + |ti.data|, hi) - p)
    requires tj.seqno == At(irs, p) && tj.data == ti.data[p - p0..][..|tj.data|] && tj.hdrFin == ti.fin
    requires tj.fin <==> ti.fin && r <= p0 + |ti.data| <= hi
    requires tj.data == [] || !FinBeyond(r, hi, ti, p0) || |S| == hi || Provided(ss, Span(p0, hi))
    ensures Fits(irs, S, r, hi, tj, p, ss)
  {
    assert Provided(ss, Span(p0, hi)) ==> r <= p0;
    hide At, Provided;
    if tj.data != [] {
      KeptText(S, r, hi, ti.data, p0, tj.data, p);
    }
  }

  lemma KeptText(S: seq<u8>, r: int, hi: int, data: seq<u8>, p0: int, kept: seq<u8>, p: int)
    requires Agrees(data, p0, S, hi) && 0 <= r <= p && p0 <= p && p + |kept| <= hi && p + |kept| <= |S|
    requires p - p0 + |kept| <= |data| && kept == data[p - p0..][..|kept|]
    ensures kept == S[p..p + |kept|]
  {
    forall i | 0 <= i < |kept|
      ensures kept[i] == S[p + i]
    {
      assert data[p + i - p0] == S[p + i];
    }
  }

  /** The state after the guest has acknowledged our FIN; in LAST_ACK this closes the connection. */
  function AfterFinAcked(st: int): int {
    if st == TCPS_FIN_WAIT_1 then TCPS_FIN_WAIT_2
    else if st == TCPS_CLOSING then TCPS_TIME_WAIT
    else if st == TCPS_LAST_ACK then TCPS_CLOSED
    else st
  }

  /** The state after the guest's FIN. */
  function AfterGuestFin(st: int): int {
    if st == TCPS_ESTABLISHED then TCPS_CLOSE_WAIT
    else if st == TCPS_FIN_WAIT_1 then TCPS_CLOSING
    else if st == TCPS_FIN_WAIT_2 then TCPS_TIME_WAIT
    else st
  }

  /** The state once the user has closed. */
  function AfterClose(st: int): int {
    if st == TCPS_ESTABLISHED then TCPS_FIN_WAIT_1 else if st == TCPS_CLOSE_WAIT then TCPS_LAST_ACK else st
  }

  /**
   A new acknowledgment, whatever number the guest puts there, drops exactly the acknowledged bytes and
   keeps the order of the send variables; it covers our FIN exactly when it exceeds what so_snd holds.
   */
  lemma SendAcked(iss: u32, una: u32, nxt: u32, max: u32, u: int, x: int, m: int, n: int, cc: int, sentFin: bool,
    st: int, ack: u32)
    requires SendVars(iss, una, nxt, max, u, x, m, n, cc, sentFin, st) && st != TCPS_CLOSED
    requires SeqGt(ack, una) && !SeqGt(ack, max)
    ensures var k := Diff(ack, una);
            && 0 < k <= m - u && u + k <= n + 1
            && ack == At(iss, u + k)
            && (ack == max <==> u + k == m)
            && (k > cc <==> u + k == n + 1)
            && (k > cc ==> Closing(st) && k == cc + 1)
            && (SeqLt(nxt, ack) <==> x < u + k) && (nxt == max ==> x == m)
            && SendVars(iss, ack, if x < u + k then ack
              else nxt, max, u + k, Max(x, u + k), m, n, Max(cc - k, 0), sentFin,
                        if k > cc then AfterFinAcked(st) else st)
  {
    hide At, Diff, U32;
    AckInRange(iss, u, m, ack);
    var k := Diff(ack, una);
    DiffAt(iss, x, u + k);
    DiffAt(iss, u + k, m);
    DiffAt(iss, m, m);
    DiffAt(iss, x, m);
  }

  /** snd_nxt may be pulled back to snd_una, and pushed forward again to any place sent before. */
  lemma SendRewind(iss: u32, una: u32, nxt: u32, max: u32, u: int, x: int, m: int, n: int, cc: int, sentFin: bool,
    st: int, x': int)
    requires SendVars(iss, una, nxt, max, u, x, m, n, cc, sentFin, st) && u <= x' <= m
    ensures SendVars(iss, una, At(iss, x'), max, u, x', m, n, cc, sentFin, st)
    ensures SeqGt(At(iss, x'), nxt) <==> x' > x
  {
    hide At, Diff, U32;
    DiffAt(iss, x', x);
  }

  /** Does a segment carry newer information about the send window than the one it was last taken from? */
  predicate WindowNews(wl1: u32, wl2: u32, wnd: u32, seqno: u32, ack: u32, win: u16) {
    SeqLt(wl1, seqno) || (wl1 == seqno && (SeqLt(wl2, ack) || (wl2 == ack && win > wnd)))
  }

  /** The part of a connection's state that header prediction and the general path must agree on. */
  datatype Core = Core(rcvNxt: u32, una: u32, nxt: u32, max: u32, wnd: u32, rexmt: int, sndq: seq<u8>, handed: seq<u8>)

  /** The core after an acknowledgment up to `ack`, with the given send window and retransmit timer. */
  ghost function AckedCore(c: Core, ack: u32, wnd: u32, rexmt: int): Core {
    c.(una := ack, wnd := wnd, rexmt := rexmt, sndq := c.sndq[Max(0, Min(Diff(ack, c.una), |c.sndq|))..])
  }

  /** The core after text that was next in line. */
  ghost function DataCore(c: Core, data: seq<u8>): Core {
    c.(rcvNxt := U32(c.rcvNxt + |data|), handed := c.handed + data)
  }

  /** The send side before an acknowledgment: snd_una, snd_nxt, snd_max, snd_wnd, two positions, and so_snd. */
  datatype Sending = Sending(una: u32, nxt: u32, max: u32, wnd: u32, u: int, x: int, q: seq<u8>)

  lemma AckedCoreWindow(c: Core, ack: u32, w: u32, w': u32, rexmt: int)
    ensures AckedCore(c, ack, w, rexmt).(wnd := w') == AckedCore(c, ack, w', rexmt)
    ensures AckedCore(c, ack, w, rexmt).wnd == w
  {
  }

  lemma DataCoreWindow(c: Core, data: seq<u8>)
    ensures DataCore(c, data).(wnd := c.wnd) == DataCore(c, data)
    ensures forall w: u32 :: DataCore(c.(wnd := w), data) == DataCore(c, data).(wnd := w)
  {
  }

  /**
   The window field is the distance to the advertised edge in 16 bits. So it names the edge exactly unless the
   segment acknowledges something beyond that edge.
   */
  ghost predicate NamesEdge(e: Emitted) {
    e.edge - e.rcv <= TCP_MAXWIN && e.seg.win == (e.edge - e.rcv) % 0x1_0000
  }

  lemma EdgeIsExact(e: Emitted)
    requires NamesEdge(e)
    ensures e.rcv + e.seg.win == e.edge <==> e.rcv <= e.edge
    ensures e.rcv == e.edge + 1 ==> e.seg.win == TCP_MAXWIN
  {
  }

  /** Over everything emitted the advertised right edge never moves left, and never beyond `a`. */
  ghost predicate EdgesAdvance(w: seq<Emitted>, a: int) {
    && (forall i :: 0 <= i < |w| ==> w[i].edge <= a && NamesEdge(w[i]))
    && (forall i, j :: 0 <= i < j < |w| ==> w[i].edge <= w[j].edge)
  }

  /** The position behind everything the segment takes up in the stream, its FIN included. */
  function EndOf(ti: Segment, p: int): (e: int) {
    p + |ti.data| + if ti.fin then 1 else 0
  }

  /**
   If all the text that has arrived so far lay below `a0`, then text and FIN below `a0` do not push rcv_nxt beyond
   it; the sets are the received positions as tcp_input leaves them.
   */
  lemma StaysInside(r0: int, r1: int, len: int, a0: int, c0: set<int>, c1: set<int>, w: set<int>)
    requires r0 <= r1 <= len + 1 && (r0 <= len < r1 ==> len < a0)
    requires Range(Span(r0, Min(r1, len))) + c1 == c0 + w
    requires forall k :: k in c0 || k in w ==> k < a0
    ensures r0 <= a0 ==> r1 <= a0
    ensures forall k :: k in c1 ==> k < a0
  {
    if r0 < Min(r1, len) {
      assert Min(r1, len) - 1 in Range(Span(r0, Min(r1, len)));
    }
    forall k | k in c1
      ensures k < a0
    {
      assert k in c0 + w;
    }
  }

  // ------------------------------------------------------------------ the retransmit timer while the guest is silent

  /** The retransmit and persist timers, and what tcp_output looks at when it moves them. */
  datatype Clock = Clock(rexmt: int, persist: int, shift: int, x: int, u: int, n: int, cc: int, wnd: int, cwnd: int,
    st: int, force: bool)

  /** The two timers exclude each other, and with so_snd empty only a FIN can be outstanding. */
  predicate Consistent(c: Clock) {
    && (c.rexmt > 0 ==> c.persist == 0) && 0 <= c.rexmt && 0 <= c.persist && c.u <= c.x && c.cc == Max(c.n - c.u, 0)
    && (c.cc == 0 && c.x > c.u && c.st != TCPS_CLOSED ==> Closing(c.st) && c.u == c.n)
    && (Closing(c.st) ==> c.u <= c.n)
  }

  /**
   The retransmit timer runs and tcp_output will not stop it for good: the guest's window is open, or nothing
   that was sent counts as outstanding, or what is outstanding is a FIN, which is sent again at once.
   */
  predicate Committed(c: Clock) {
    c.rexmt > 0 && c.cwnd > 0 && (c.wnd > 0 || c.x == c.u || c.cc == 0)
  }

  predicate SameGuest(c: Clock, d: Clock) {
    d.u == c.u && d.n == c.n && d.cc == c.cc && d.wnd == c.wnd && d.st == c.st && d.force == c.force
  }

  /**
   While the retransmit timer runs nothing moves the backoff, and once it is committed nothing stops it; with
   the guest's window open nothing even restarts it.
   */
  predicate Steady(c: Clock, d: Clock) {
    !d.force && d.st != TCPS_CLOSED ==>
      && d.wnd == c.wnd && (c.rexmt > 0 && d.rexmt > 0 ==> d.shift == c.shift)
      && (Committed(c) ==> Committed(d) && (d.wnd > 0 ==> d.rexmt == c.rexmt))
  }

  /** Bytes wait in so_snd, and neither timer will bring them up again. */
  predicate StrandedAt(c: Clock) {
    c.cc > 0 && c.rexmt == 0 && c.persist == 0
  }

  /**
   The exact situation in which tcp_output leaves bytes stranded: a window is closed, no probe is due, the
   retransmit timer is off or about to be stopped, and something else is `due`, an acknowledgment or a window
   update. What is due goes out, and the persist timer is not considered any more.
   */
  predicate StrandsAt(c: Clock, due: bool) {
    c.cc > 0 && Min(c.wnd, c.cwnd) <= 0 && c.persist == 0 && (c.x != c.u || c.rexmt == 0) && due
  }

  /** Both windows let out all that so_snd holds, and what is left to send of it makes no more than one segment. */
  predicate FitsOneSegment(c: Clock, maxseg: int) {
    !c.force && Open(c.st) && c.cc <= Min(c.wnd, c.cwnd) && c.u + c.cc - c.x <= maxseg
  }

  /** What planning does to snd_nxt and the timers while a window is closed, open, or a byte is forced out. */
  predicate WindowMoves(c: Clock, d: Clock, len: int) {
    var open := Min(c.wnd, c.cwnd) > 0;
    && (!c.force && !open ==> d.x == c.u && len == 0 && d.rexmt == if c.x != c.u then 0 else c.rexmt)
    && (c.force || open ==> d.x == c.x && d.rexmt == c.rexmt)
    && (c.force ==> d.persist == if open then 0 else c.persist)
    && (open && d.x == c.u && c.cc > 0 ==> len > 0)
  }

  /**
   The timers while a segment of `len` octets, perhaps with a FIN, is planned; `due` is an acknowledgment or a
   window update.
   */
  predicate PlanMoves(c: Clock, d: Clock, send: bool, fin: bool, len: int, due: bool) {
    && SameGuest(c, d) && d.cwnd == c.cwnd && WindowMoves(c, d, len)
    && (!c.force ==> d.shift == c.shift && d.persist == c.persist)
    && (len > 0 ==> d.x - c.u + len <= c.cc)
    && (fin ==> Closing(c.st) && d.x + len >= c.n == c.u + c.cc)
    && (!c.force && Closing(c.st) && d.x + len >= c.n ==> fin && (send || d.x != c.u))
    && (len == 0 && !fin && c.st != TCPS_CLOSED ==> (send <==> due))
  }

  /** The timers while it is sent. */
  predicate SendMoves(c: Clock, d: Clock, fin: bool, len: int) {
    && SameGuest(c, d) && d.cwnd == c.cwnd
    && (c.rexmt > 0 ==> d.rexmt == c.rexmt && d.shift == c.shift) && (c.persist == 0 ==> d.shift == c.shift)
    && (!fin && (len == 0 || !(c.force && c.persist > 0)) ==> d.x == c.x + len)
    && (if c.force && c.persist > 0 then d.rexmt == c.rexmt && d.persist == c.persist
        else if d.x == d.u then d.rexmt == c.rexmt && d.persist == c.persist && len <= 0
        else d.rexmt > 0)
    && (fin && !(c.force && c.persist > 0) ==> d.x == c.n + 1)
  }

  /** The timers when there is nothing to send. */
  predicate IdleMoves(c: Clock, d: Clock) {
    && SameGuest(c, d) && d.cwnd == c.cwnd && d.x == c.x && d.rexmt == c.rexmt && (c.rexmt > 0 ==> d.shift == c.shift)
    && !StrandedAt(d) && (c.persist > 0 ==> d.persist == c.persist)
  }

  /**
   What one round does to the clock. It leaves bytes stranded exactly in the one situation, and never when a byte
   was to be forced out; what fits one segment has all been sent.
   */
  predicate RoundMoves(c: Clock, e: Clock, due: bool, maxseg: int) {
    && Steady(c, e)
    && (c.st != TCPS_CLOSED && (c.force ==> c.persist > 0) ==> (StrandedAt(e) <==> !c.force && StrandsAt(c, due)))
    && (FitsOneSegment(c, maxseg) ==> e.x == c.u + c.cc && (c.cc > 0 && c.x == c.u ==> e.rexmt > 0))
  }

  lemma SentMoves(c: Clock, d: Clock, e: Clock, fin: bool, len: int, due: bool, maxseg: int)
    requires Consistent(c) && PlanMoves(c, d, true, fin, len, due) && SendMoves(d, e, fin, len) && 0 <= len
               && 0 < maxseg
    requires FitsOneSegment(d, maxseg) ==> !fin && len == d.u + d.cc - d.x
    ensures RoundMoves(c, e, due, maxseg) && (FitsOneSegment(c, maxseg) ==> FitsOneSegment(d, maxseg))
  {
  }

  lemma IdleRound(c: Clock, d: Clock, e: Clock, fin: bool, len: int, due: bool, maxseg: int)
    requires Consistent(c) && PlanMoves(c, d, false, fin, len, due) && IdleMoves(d, e) && 0 < maxseg
    requires FitsOneSegment(d, maxseg) ==> d.x == d.u + d.cc
    ensures RoundMoves(c, e, due, maxseg)
  {
  }

  lemma EitherRound(c: Clock, d: Clock, e: Clock, send: bool, fin: bool, len: int, due: bool, maxseg: int)
    requires Consistent(c) && PlanMoves(c, d, send, fin, len, due) && 0 <= len && 0 < maxseg
    requires if send then SendMoves(d, e, fin, len) else IdleMoves(d, e)
    requires FitsOneSegment(d, maxseg) ==> !fin && len == d.u + d.cc - d.x && (!send ==> d.x == d.u + d.cc)
    ensures RoundMoves(c, e, due, maxseg) && Steady(c, e)
              && (send && FitsOneSegment(c, maxseg) ==> FitsOneSegment(d, maxseg))
  {
    hide *;
    if send {
      SentMoves(c, d, e, fin, len, due, maxseg);
    } else {
      IdleRound(c, d, e, fin, len, due, maxseg);
    }
    RoundIsSteady(c, e, due, maxseg);
  }

  lemma RoundIsSteady(c: Clock, e: Clock, due: bool, maxseg: int)
    requires RoundMoves(c, e, due, maxseg)
    ensures Steady(c, e)
  {
  }

  /** The first round of tcp_output, which may find the congestion window closed for being idle, and the others. */
  predicate FirstMoves(c: Clock, d: Clock, more: bool) {
    SameGuest(c, d) && d.cwnd == c.cwnd && Steady(c, d)
      && (more ==>
        (c.rexmt > 0 ==> d.rexmt == c.rexmt && (!c.force ==> d.shift == c.shift))
        && d.wnd > 0 && d.cwnd > 0 && d.rexmt > 0)
  }

  predicate OtherMoves(c: Clock, d: Clock, more: bool) {
    if more then SameGuest(c, d) && d.cwnd == c.cwnd
      && (c.rexmt > 0 ==> d.rexmt == c.rexmt && (!c.force ==> d.shift == c.shift))
    else d == c
  }

  /** All rounds together: the first one decides whether bytes are stranded. */
  lemma AllRounds(c: Clock, d: Clock, e: Clock, more: bool, due: bool, maxseg: int)
    requires FirstMoves(c, d, more) && OtherMoves(d, e, more) && RoundMoves(c, d, due, maxseg)
    requires more ==> !FitsOneSegment(c, maxseg)
    ensures RoundMoves(c, e, due, maxseg)
  {
  }

  /** The same with the congestion window as it was before it may have been opened for a connection that was idle. */
  lemma AfterIdle(b: Clock, c: Clock, e: Clock, due: bool, maxseg: int)
    requires c == b.(cwnd := c.cwnd) && (c.cwnd == b.cwnd || (c.cwnd == maxseg > 0 && b.x == b.u))
    requires RoundMoves(c, e, due, maxseg)
    ensures Steady(b, e)
    ensures b.st != TCPS_CLOSED && (b.force ==> b.persist > 0) ==> (StrandedAt(e) <==> !b.force && StrandsAt(c, due))
    ensures FitsOneSegment(b, maxseg) ==> e.x == b.u + b.cc && (b.cc > 0 && b.x == b.u ==> e.rexmt > 0)
  {
  }

  /**
   What may happen to the clock between an outside event and tcp_output: the host closes, or more of its bytes are
   read.
   */
  lemma SteadyFrom(b: Clock, c: Clock, d: Clock)
    requires Steady(c, d)
    requires c == b.(st := c.st, n := c.n, cc := c.cc) && (b.cc == 0 ==> b.x == b.u || c.cc == 0)
    ensures Steady(b, d)
  {
  }

  lemma StaysCommitted(c: Clock, d: Clock)
    requires Steady(c, d) && Committed(c) && !d.force && d.st != TCPS_CLOSED
    ensures Committed(d) && d.wnd == c.wnd
  {
  }

  lemma SteadySame(c: Clock)
    ensures Steady(c, c)
  {
  }

  /**
   One tick of half a second, with segment sizes `mc` and `md` before and after. The retransmit timer counts
   down, and when it expires the backoff goes one step on and the timer is committed to run again.
   */
  predicate Ticked(c: Clock, d: Clock, mc: int, md: int) {
    && d.wnd == c.wnd && (c.rexmt == 0 ==> md == mc)
    && (c.rexmt > 1 ==> d.rexmt == c.rexmt - 1 && d.shift == c.shift && md == mc && (Committed(c) ==> Committed(d)))
    && (c.rexmt == 1 ==> Expire(Alive(mc, c.shift)) == Alive(md, d.shift) && Committed(d) && d.rexmt <= TCPTV_REXMTMAX)
  }

  /**
   Slow ticks until a silent guest's connection is closed: the running timeout, and the longest one for each further
   expiry.
   */
  function TicksLeft(rexmt: int, p: Patience): int
    requires Reasonable(p)
  {
    rexmt + TCPTV_REXMTMAX * (ExpiriesLeft(p) - 1)
  }

  /**
   Where a silence began: segment size and backoff, the timer, whether it was committed, and the guest's window
   open.
   */
  datatype Watch = Watch(p: Patience, rexmt: int, committed: bool, open: bool)

  /** No silence sees more expiries than this, wherever the backoff stands when the timer first expires. */
  function MostExpiries(maxseg: int): (n: int)
  {
    if 0 < maxseg <= 32768 then ExpiriesLeft(Alive(maxseg, 0)) else 0
  }

  /** What holds after `n` expiries and `ticks` ticks; `running` says that the timer has run all the time. */
  predicate Watched(w: Watch, c: Clock, maxseg: int, n: nat, running: bool, ticks: nat) {
    var q := Alive(maxseg, c.shift);
    && w.p.Alive? && Reasonable(w.p) && Reasonable(q) && 0 <= c.rexmt
    && (if n == 0 then maxseg == w.p.maxseg else n + ExpiriesLeft(q) <= MostExpiries(w.p.maxseg))
    && (running ==> c.rexmt > 0 && q == ExpireTimes(w.p, n))
    && (w.committed ==> running) && (w.committed || n > 0 ==> Committed(c))
    && (w.open ==> w.committed && c.wnd > 0 && ticks + TicksLeft(c.rexmt, q) <= TicksLeft(w.rexmt, w.p))
  }

  lemma WatchBegins(c: Clock, maxseg: int)
    requires Reasonable(Alive(maxseg, c.shift)) && 0 <= c.rexmt
    ensures Watched(Watch(Alive(maxseg, c.shift), c.rexmt, Committed(c), Committed(c) && c.wnd > 0), c, maxseg, 0,
              c.rexmt > 0, 0)
  {
  }

  lemma WatchTick(w: Watch, c: Clock, d: Clock, mc: int, md: int, n: nat, running: bool, ticks: nat)
    requires Watched(w, c, mc, n, running, ticks) && Ticked(c, d, mc, md) && Reasonable(Alive(md, d.shift))
               && 0 <= d.rexmt
    ensures Watched(w, d, md, if c.rexmt == 1 then n + 1 else n, running && d.rexmt > 0, ticks + 1)
  {
    if c.rexmt == 1 {
      ExpireDecreases(Alive(mc, c.shift));
    }
  }

  lemma WatchOther(w: Watch, c: Clock, d: Clock, m: int, n: nat, running: bool, ticks: nat)
    requires Watched(w, c, m, n, running, ticks) && Steady(c, d) && !d.force && d.st != TCPS_CLOSED
    requires Reasonable(Alive(m, d.shift)) && 0 <= d.rexmt
    ensures Watched(w, d, m, n, running && d.rexmt > 0, ticks)
  {
  }

  /** At the end: while the connection lasts, neither the expiries nor the ticks can have reached their bounds. */
  lemma WatchEnds(w: Watch, c: Clock, maxseg: int, n: nat, running: bool, ticks: nat)
    requires Watched(w, c, maxseg, n, running, ticks) && w.p.Alive?
    ensures running ==> n < ExpiriesLeft(w.p) && Alive(maxseg, c.shift) == ExpireTimes(w.p, n)
    ensures w.open ==> ticks < TicksLeft(w.rexmt, w.p)
    ensures (w.committed ==> running) && (n > 0 ==> Committed(c)) && n < MostExpiries(w.p.maxseg)
  {
    if running {
      SilentPeerIsDropped(w.p, n);
    }
  }
}
