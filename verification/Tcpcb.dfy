/**
 The TCP control block: tcp_output.c, tcp_input.c from header prediction on, tcp_timer.c and the
 state changes of tcp_subr.c, for a connection past its handshake.
 */
module Tcpcbs {
  import opened SeqNum
  import opened Sbufs
  import opened Sockets
  import opened Spans
  import opened SegQueues
  import opened Rtt
  import opened TcpSpec

  const TCPTV_MSL := 10
  const TCPTV_KEEP_IDLE := 14400
  const TCPTV_KEEPINTVL := 150
  const TCP_MAXIDLE := 8 * TCPTV_KEEPINTVL
  const TCPREXMTTHRESH := 3

  /** What one round of tcp_output decides to send. */
  datatype Plan = Plan(send: bool, off: int, len: nat, fin: bool, rst: bool, win: int, sendalot: bool)

  /**
   What the handshake leaves behind: the windows both sides know, from which segment the send window was
   taken, and whatever round trips and retransmissions of the SYN have made of the timing and the congestion window.
   */
  datatype Handshake = Handshake(adv: u16, win: u16, wl1: u32, wl2: u32, est: Estimate, rxtcur: int, rxtshift: int,
    cwnd: u32, ssthresh: u32, keep: nat)

  /** How tcp_input goes on with a segment. */
  datatype Verdict = Continue | DropAfterAck | Drop | DropWithReset

  /** What the guest, the host and the clock can do to a connection. */
  datatype Event =
    | Arrive(ti: Segment, p: int, host: nat -> SendAnswer, accepts: nat, keepalive: bool)
    | HostReadable(received: Received, more: seq<u8>, accepts: nat)
    | HostSupplied(buf: seq<u8>, accepts: nat)
    | HostWritable(send0: SendAnswer, send1: SendAnswer, accepts: nat)
    | SlowTick(keepalive: bool, refusals: nat -> nat)
    | FastTick(accepts: nat)

  class Tcpcb {
    const so: Socket
    const segq: SegQueue
    const iss: u32
    const irs: u32

    var t_state: int
    var t_rexmt: nat      // t_timer[TCPT_REXMT]
    var t_persist: nat    // t_timer[TCPT_PERSIST]
    var t_keep: nat       // t_timer[TCPT_KEEP]
    var t_2msl: nat       // t_timer[TCPT_2MSL]
    var t_rxtshift: int
    var t_rxtcur: int
    var t_dupacks: int
    var t_maxseg: int
    var t_force: bool
    var tf_acknow: bool   // TF_ACKNOW
    var tf_delack: bool   // TF_DELACK
    var tf_sentfin: bool  // TF_SENTFIN
    var fin_out: bool     // some segment that has left carried a FIN
    var snd_una: u32
    var snd_nxt: u32
    var snd_max: u32
    var snd_wl1: u32
    var snd_wl2: u32
    var snd_wnd: u32
    var snd_cwnd: u32
    var snd_ssthresh: u32
    var max_sndwnd: u32
    var rcv_nxt: u32
    var rcv_adv: u32
    var rcv_wnd: u32
    var t_idle: int
    var t_rtt: int
    var t_rtseq: u32
    var t_srtt: int
    var t_rttvar: int

    // Unbounded positions of snd_una, snd_nxt, snd_max, rcv_nxt and rcv_adv.
    ghost var u: int
    ghost var x: int
    ghost var m: int
    ghost var r: int
    ghost var a: int
    ghost var wire: seq<Emitted>  // everything ever emitted
    ghost var skipped: bool       // text was thrown away because the host no longer takes any
    ghost var overrun: bool       // something beyond the advertised right edge was taken
    ghost var strands: bool       // tcp_output was last called in the situation that `Strands` describes

    ghost const Repr: set<object> := {this, segq} + so.Repr

    /** The octets the guest will ever send, in order. */
    ghost function Stream(): seq<u8>
      reads segq`S
    {
      segq.S
    }

    /** The send sequence variables agree with their positions. */
    ghost predicate SeqOk()
      reads this`snd_una, this`snd_nxt, this`snd_max, this`u, this`x, this`m, this`tf_sentfin, this`t_state,
            so`fromHost, so.so_snd
    {
      SendVars(iss, snd_una, snd_nxt, snd_max, u, x, m, |so.fromHost|, so.so_snd.cc, tf_sentfin, t_state)
    }

    /** so_snd holds what the host wrote from snd_una on, and everything emitted was faithful to it. */
    ghost predicate DataOk()
      reads this`u, this`wire, so`fromHost, so.so_snd, so.so_snd.data
      requires so.so_snd.Valid()
    {
      && 0 <= u && so.so_snd.Contents() == so.fromHost[Min(u, |so.fromHost|)..] && so.so_snd.data.Length < BUFFER
      && (forall e :: e in wire ==> Faithful(iss, irs, so.fromHost, e))
    }

    /** No FIN is emitted before the user has closed, and `fin_out` tells whether one was. */
    ghost predicate NoEarlyFin()
      reads this`wire, this`t_state, this`fin_out
    {
      && (Open(t_state) ==> !fin_out)
      && (!fin_out ==> forall e :: e in wire ==> !e.seg.fin)
    }

    /** Nothing emitted takes back receive window that was advertised before. */
    ghost predicate WindowsOk()
      reads this`wire, this`a
    {
      EdgesAdvance(wire, a)
    }

    /** The receive variables, the segment queue and what has been handed over agree with the guest's stream. */
    ghost predicate RecvOk()
      reads this`rcv_nxt, this`rcv_adv, this`r, this`a, this`skipped, this`overrun, this`wire, segq, so`toHost,
            so.so_rcv, so.so_rcv.data
      requires so.so_rcv.Valid()
    {
      && segq.irs == irs && so.so_rcv.data.Length < BUFFER
      && RecvVars(irs, rcv_nxt, rcv_adv, r, a, so.so_rcv.Space(), |Stream()|)
      && segq.Valid(r, r + so.so_rcv.Space())
      && Handed(Min(r, |Stream()|)) && EdgeKept()
    }

    /** Unless the guest has overrun its window, nothing beyond the advertised edge was ever acknowledged. */
    ghost predicate EdgeKept()
      reads this`overrun, this`wire, this`r, this`a
    {
      !overrun ==> r <= a && forall e :: e in wire ==> e.rcv <= e.edge
    }

    /** What the host took and what still waits for it are the first `k` octets of the guest's stream. */
    ghost predicate Handed(k: int)
      reads this`skipped, segq`S, so`toHost, so.so_rcv, so.so_rcv.data
      requires so.so_rcv.Valid()
    {
      !skipped ==> 0 <= k <= |Stream()| && so.HandedOver() == Stream()[..k]
    }

    /** Nothing in the queue could be presented: the first queued segment starts above rcv_nxt. */
    ghost predicate Presented()
      reads this`r, segq`spans
    {
      segq.spans != [] ==> r < segq.spans[0].lo
    }

    predicate TimersOk()
      reads this`t_rexmt, this`t_persist, this`t_rxtshift, this`t_rxtcur, this`t_maxseg, this`t_state
    {
      TimersInRange(if t_state == TCPS_CLOSED then 16 else 32)
    }

    /** Retransmit and persist timer exclude each other, and shift, timeout and segment size stay in range. */
    predicate TimersInRange(least: int)
      reads this`t_rexmt, this`t_persist, this`t_rxtshift, this`t_rxtcur, this`t_maxseg
    {
      && !(t_rexmt > 0 && t_persist > 0)
      && 0 <= t_rxtshift <= TCP_MAXRXTSHIFT
      && TCPTV_MIN <= t_rxtcur <= TCPTV_REXMTMAX
      && least <= t_maxseg <= 32768
    }

    /** The state tells exactly whether the guest's FIN has been received. */
    ghost predicate FinMatchesState()
      reads this`t_state, this`r, segq`S
    {
      Synchronized(t_state) && (t_state != TCPS_CLOSED ==> (GuestDone(t_state) <==> r == |Stream()| + 1))
    }

    /** What a plan may ask for: text inside so_snd, and a FIN only behind the last byte. */
    ghost predicate Sound(p: Plan)
      reads this`t_state, this`u, this`x, so`fromHost, so.so_snd, so.so_rcv
      requires so.Valid()
    {
      && p.win == so.so_rcv.Space()
      && (p.len > 0 ==> p.off == x - u && p.off + p.len <= so.so_snd.cc && x + p.len <= |so.fromHost|)
      && (p.fin ==> Closing(t_state) && x + p.len >= |so.fromHost| == u + so.so_snd.cc)
    }

    ghost predicate Valid()
      reads this`t_state, this`t_rexmt, this`t_persist, this`t_rxtshift, this`t_rxtcur, this`t_maxseg, this`tf_sentfin,
            this`fin_out, this`snd_una, this`snd_nxt, this`snd_max, this`rcv_nxt, this`rcv_adv, this`u, this`x, this`m,
            this`r, this`a, this`wire, this`skipped, this`overrun, segq, so`fromHost, so`toHost, so.so_snd,
            so.so_snd.data, so.so_rcv, so.so_rcv.data
    {
      so.Valid() && SeqOk() && DataOk() && NoEarlyFin() && WindowsOk() && RecvOk() && Presented() && FinMatchesState()
        && TimersOk()
    }

    /**
     A connection whose handshake is complete: nothing sent or received yet. `S` is the stream the guest is
     going to send.
     */
    constructor (iss: u32, irs: u32, ghost S: seq<u8>, sndSize: nat, rcvSize: nat, maxseg: int, h: Handshake)
      requires 0 < sndSize < BUFFER && h.adv <= rcvSize < BUFFER && 0 < rcvSize && 32 <= maxseg <= 32768
      requires TCPTV_MIN <= h.rxtcur <= TCPTV_REXMTMAX && 0 <= h.rxtshift <= TCP_MAXRXTSHIFT
      ensures so.Valid() && Valid() && fresh(Repr) && fresh(this)
      ensures so.so_snd.data.Length == sndSize && so.so_snd.Space() == sndSize
      ensures this.iss == iss && this.irs == irs && a == h.adv && so.so_rcv.data.Length == rcvSize && !t_force
                && Behaved()
      ensures t_state == TCPS_ESTABLISHED && Stream() == S && wire == [] && !skipped && segq.segs == []
      ensures u == x == m == r == 0 && so.fromHost == [] && so.toHost == [] && so.so_rcv.Space() == rcvSize
      ensures !so.noFdRef && !so.fCantSendMore && !Stranded()
      ensures snd_wnd == max_sndwnd == h.win && snd_cwnd == h.cwnd && snd_wl1 == h.wl1 && snd_wl2 == h.wl2
                && t_maxseg == maxseg
      ensures t_rexmt == t_persist == t_2msl == 0 && t_idle == 0 && t_rxtcur == h.rxtcur && !tf_acknow
    {
      hide At, S16, Sbuf.Valid, Sbuf.Contents, SendVars, RecvVars, SegQueue.Valid, Cover, QueueInside, EdgesAdvance,
           EdgeKept;
      so := new Socket(sndSize, rcvSize);
      segq := new SegQueue(irs, S);
      this.iss, this.irs := iss, irs;
      t_state := TCPS_ESTABLISHED;
      t_rexmt, t_persist, t_keep, t_2msl := 0, 0, h.keep, 0;
      t_rxtshift, t_rxtcur, t_dupacks, t_maxseg := h.rxtshift, h.rxtcur, 0, maxseg;
      t_force, tf_acknow, tf_delack, tf_sentfin := false, false, false, false;
      snd_una, snd_nxt, snd_max := At(iss, 0), At(iss, 0), At(iss, 0);
      snd_wl1, snd_wl2, snd_wnd, max_sndwnd := h.wl1, h.wl2, h.win, h.win;
      snd_cwnd, snd_ssthresh := h.cwnd, h.ssthresh;
      rcv_nxt, rcv_adv, rcv_wnd := At(irs, 0), At(irs, h.adv), h.adv;
      t_idle, t_rtt, t_rtseq, t_srtt, t_rttvar := 0, 0, 0, h.est.srtt, h.est.rttvar;
      u, x, m, r, a := 0, 0, 0, 0, h.adv;
      wire, fin_out, skipped, overrun, strands := [], false, false, false, false;
      new;
      SendStarts();
      ReceiveStarts();
    }

    lemma SendStarts()
      requires so.Valid() && so.so_snd.Contents() == so.fromHost == [] && so.so_snd.data.Length < BUFFER && wire == []
                 && !fin_out && u == x == m == 0
      requires snd_una == snd_nxt == snd_max == At(iss, 0) && t_state == TCPS_ESTABLISHED && !tf_sentfin
      ensures SeqOk() && DataOk() && NoEarlyFin() && WindowsOk()
    {
      hide At, Window, Fwd;
    }

    lemma ReceiveStarts()
      requires so.Valid() && so.so_rcv.Contents() == so.toHost == [] && so.so_rcv.data.Length < BUFFER
                 && segq.irs == irs
      requires r == 0 <= a <= Min(so.so_rcv.Space(), TCP_MAXWIN) && rcv_nxt == At(irs, 0) && rcv_adv == At(irs, a)
      requires segq.segs == [] && segq.spans == [] && t_state == TCPS_ESTABLISHED && wire == []
      ensures RecvOk() && Presented() && FinMatchesState() && QueueInside()
    {
      hide At, Window, Fwd;
    }

    /** tcp_setpersist. */
    method SetPersist()
      requires 0 <= t_rxtshift <= TCP_MAXRXTSHIFT
      modifies this`t_persist, this`t_rxtshift
      ensures TCPTV_PERSMIN <= t_persist <= TCPTV_PERSMAX
      ensures t_rxtshift == Min(old(t_rxtshift) + 1, TCP_MAXRXTSHIFT)
    {
      var t := PersistVal(Estimate(t_srtt, t_rttvar));
      t_persist := RangeSet(t * Backoff(t_rxtshift), TCPTV_PERSMIN, TCPTV_PERSMAX);
      if t_rxtshift < TCP_MAXRXTSHIFT {
        t_rxtshift := t_rxtshift + 1;
      }
    }

    /** The receive window has grown by enough, compared with what the guest knows, to tell it so. */
    predicate UpdateDue()
      reads this`rcv_adv, this`rcv_nxt, this`t_maxseg, so.so_snd, so.so_rcv
      requires so.Valid()
    {
      var win := so.so_rcv.Space();
      var adv := Min(win, TCP_MAXWIN) - U32(rcv_adv - rcv_nxt);
      win > 0 && (adv >= 2 * t_maxseg || 2 * adv >= so.so_rcv.data.Length)
    }

    /** An acknowledgment or a window update has to go out. */
    predicate Due()
      reads this`tf_acknow, this`rcv_adv, this`rcv_nxt, this`t_maxseg, so.so_snd, so.so_rcv
      requires so.Valid()
    {
      tf_acknow || UpdateDue()
    }

    /**
     The sender side silly window avoidance and the other reasons of tcp_output to send something. A segment with
     neither text nor FIN goes out exactly when an acknowledgment, a window update or a reset is due.
     */
    method Reasons(off: int, len: nat, fin: bool, rst: bool, win: int) returns (send: bool)
      requires so.Valid() && win == so.so_rcv.Space()
      ensures len == 0 && !fin ==> (send <==> Due() || rst)
      ensures len > 0 && (len == t_maxseg || len + off >= so.so_snd.cc || t_force || SeqLt(snd_nxt, snd_max)) ==> send
      ensures len > 0 && 0 < max_sndwnd && max_sndwnd / 2 <= len ==> send
      ensures tf_acknow || rst || (fin && (!tf_sentfin || snd_nxt == snd_una)) ==> send
      ensures send && len == 0 && !tf_acknow && !rst && !fin ==>
                Min(win, TCP_MAXWIN) - U32(rcv_adv - rcv_nxt) >= Min(2 * t_maxseg, (so.so_rcv.data.Length + 1) / 2)
    {
      if len > 0 {
        if len == t_maxseg || len + off >= so.so_snd.cc || t_force {
          return true;
        }
        if len >= max_sndwnd / 2 && max_sndwnd > 0 {
          return true;
        }
        if SeqLt(snd_nxt, snd_max) {
          return true;
        }
      }
      if win > 0 {
        var adv := Min(win, TCP_MAXWIN) - U32(rcv_adv - rcv_nxt);
        if adv >= 2 * t_maxseg || 2 * adv >= so.so_rcv.data.Length {
          return true;
        }
      }
      send := tf_acknow || rst || (fin && (!tf_sentfin || snd_nxt == snd_una));
    }

    /** The guest's window is closed while everything that was sent is acknowledged and more is waiting. */
    predicate Starved()
      reads this`snd_wnd, this`snd_nxt, this`snd_una, so.so_snd
    {
      snd_wnd == 0 && snd_nxt == snd_una && so.so_snd.cc > 0
    }

    /** The smaller of the guest's window and the congestion window. */
    function SendWindow(): (n: int)
      reads this`snd_wnd, this`snd_cwnd
    {
      Min(snd_wnd, snd_cwnd)
    }

    /** How many of the bytes in so_snd the two windows let out. */
    function Usable(): (n: int)
      reads this`snd_wnd, this`snd_cwnd, so.so_snd
    {
      Min(so.so_snd.cc, SendWindow())
    }

    /** Bytes wait in so_snd while neither timer runs that could bring them up again. */
    predicate Stranded()
      reads this`t_rexmt, this`t_persist, so.so_snd
    {
      so.so_snd.cc > 0 && t_rexmt == 0 && t_persist == 0
    }

    /**
     The exact situation in which tcp_output leaves the waiting bytes stranded: the guest's window is closed (or the
     congestion window is, and will not be opened for idleness), no probe is due, the retransmit timer is off or
     will be stopped because snd_nxt is pulled back, and an acknowledgment or a window update is due. That goes out
     as a segment, and the way that starts the persist timer is not taken.
     */
    predicate Strands()
      reads this`snd_wnd, this`snd_cwnd, this`snd_max, this`snd_una, this`snd_nxt, this`t_idle, this`t_rxtcur,
            this`t_persist, this`t_rexmt, this`tf_acknow, this`rcv_adv, this`rcv_nxt, this`t_maxseg, so.so_snd,
            so.so_rcv
      requires so.Valid()
    {
      && so.so_snd.cc > 0 && t_persist == 0 && (snd_nxt != snd_una || t_rexmt == 0) && Due()
      && (snd_wnd == 0 || (snd_cwnd == 0 && !(snd_max == snd_una && t_idle >= t_rxtcur)))
    }

    /** If bytes are stranded, then tcp_output has left them so when it was last called, or it will `soon` be called. */
    ghost predicate Explained(soon: bool)
      reads this`t_state, this`t_force, this`strands, this`t_rexmt, this`t_persist, so.so_snd
    {
      t_state != TCPS_CLOSED && !t_force && Stranded() ==> strands || soon
    }

    /** The start of a round of tcp_output: offset, usable length and flags, and the handling of a closed window. */
    method Measure() returns (off: int, len: int, fin: bool, rst: bool)
      requires so.Valid() && SeqOk() && TimersOk()
      modifies this`t_persist, this`t_rxtshift, this`t_rexmt, this`snd_nxt, this`x
      ensures SeqOk() && TimersOk()
      ensures x == old(x) || (x == u && len == 0)
      ensures 0 <= len && (len > 0 ==> off == x - u && off + len <= so.so_snd.cc)
      ensures fin ==> Closing(t_state)
      ensures rst <==> t_state == TCPS_CLOSED
      ensures t_force && t_persist > 0 ==> len <= 1
      ensures len > 1 ==> Usable() > 0
      ensures !t_force || SendWindow() > 0 ==> len == Max(0, Usable() - (x - u))
      ensures !t_force ==> (fin <==> Closing(t_state))
      ensures if !t_force && SendWindow() == 0 then x == u && t_rexmt == (if old(x) != u then 0 else old(t_rexmt))
              else x == old(x) && t_rexmt == old(t_rexmt)
      ensures t_persist == if t_force && SendWindow() > 0 then 0 else old(t_persist)
      ensures !t_force ==> t_rxtshift == old(t_rxtshift)
      ensures t_force && old(Starved()) ==> len == 1 && off == 0 && x == u && x == old(x) && !fin
    {
      hide At, Diff, U32, Fwd;
      off := Diff(snd_nxt, snd_una);
      DiffAt(iss, x, u);
      var win: int := Min(snd_wnd, snd_cwnd);
      var cc := so.so_snd.cc;
      fin, rst := Closing(t_state), t_state == TCPS_CLOSED;
      if t_force {
        if win == 0 {
          if off < cc {
            fin := false;
          }
          win := 1;
        } else {
          t_persist := 0;
          t_rxtshift := 0;
        }
      }
      len := Min(cc, win) - off;
      if len < 0 {
        len := 0;
        if win == 0 {
          t_rexmt := 0;
          snd_nxt := snd_una;
          x := u;
        }
      }
    }

    lemma EndOfText(len: nat)
      requires so.Valid() && SeqOk() && len < BUFFER
      ensures SeqLt(U32(snd_nxt + len), U32(snd_una + so.so_snd.cc)) <==> x + len < u + so.so_snd.cc
      ensures SeqLt(snd_nxt, snd_max) <==> x < m
      ensures Max(|so.fromHost| - u, 0) == so.so_snd.cc && 0 <= u <= x
    {
      hide At, Diff, U32, Fwd;
      AddAt(iss, x, len);
      AddAt(iss, u, so.so_snd.cc);
      DiffAt(iss, x + len, u + so.so_snd.cc);
      DiffAt(iss, x, m);
    }

    /** What remains unsent of the usable bytes is a short piece held back by the silly window avoidance. */
    ghost predicate HeldBack(len: int)
      reads this`t_maxseg, this`max_sndwnd, this`u, this`x, this`m, this`t_force, so.so_snd
    {
      len > 0 ==> len < t_maxseg && (x - u) + len < so.so_snd.cc && !t_force && x == m
                  && (max_sndwnd == 0 || len < max_sndwnd / 2)
    }

    /** What is planned for the next segment. */
    ghost predicate Decided(p: Plan)
      requires so.Valid()
      reads this`t_state, this`u, this`x, this`m, this`t_maxseg, this`max_sndwnd, this`t_force, this`t_persist,
            this`tf_acknow, this`tf_sentfin, this`snd_wnd, this`snd_cwnd, this`rcv_adv, this`rcv_nxt, so`fromHost,
            so.so_snd, so.so_rcv
    {
      && Sound(p) && p.len <= t_maxseg && (p.rst <==> t_state == TCPS_CLOSED)
      && (p.len == 0 && !p.fin && t_state != TCPS_CLOSED ==> (p.send <==> Due()))
      && (p.sendalot && !t_force ==> t_maxseg < Usable() - (x - u))
      && (p.sendalot ==> p.send && 0 < p.len == t_maxseg && !(t_force && t_persist > 0) && Usable() > 0)
      && (tf_acknow || t_state == TCPS_CLOSED ==> p.send)
      && (!p.send ==> HeldBack(p.len))
      && ((!t_force || SendWindow() > 0) && !p.sendalot ==> p.len == Max(0, Usable() - (x - u)))
      && (!t_force && Closing(t_state) && x + p.len >= |so.fromHost| ==> p.fin && (p.send || (tf_sentfin && x != u)))
    }

    /** The same, and what planning has done to snd_nxt and the timers. */
    twostate predicate Planned(p: Plan)
      requires so.Valid()
      reads this, so, so.so_snd, so.so_rcv
    {
      && Decided(p)
      && (if !t_force && SendWindow() == 0 then
            x == u && p.len == 0 && t_rexmt == if old(x) != u then 0 else old(t_rexmt)
          else
            x == old(x) && t_rexmt == old(t_rexmt))
      && t_persist == (if t_force && SendWindow() > 0 then 0 else old(t_persist))
      && (!t_force ==> t_rxtshift == old(t_rxtshift))
      && (t_force && old(Starved()) ==> p.send && p.len == 1 && x == u && !p.fin)
    }

    /** The part of tcp_output from the label `again` to `send`: what to send, if anything. */
    method MakePlan() returns (p: Plan)
      requires so.Valid() && SeqOk() && TimersOk()
      modifies this`t_persist, this`t_rxtshift, this`t_rexmt, this`snd_nxt, this`x
      ensures SeqOk() && TimersOk()
      ensures Planned(p)
    {
      hide At, Diff, U32, Fwd;
      var off, len, fin, rst := Measure();
      var sendalot := false;
      if len > t_maxseg {
        len := t_maxseg;
        sendalot := true;
      }
      var cc := so.so_snd.cc;
      EndOfText(len);
      if SeqLt(U32(snd_nxt + len), U32(snd_una + cc)) {
        fin := false;
      }
      var win := so.so_rcv.Space();
      var send := Reasons(off, len, fin, rst, win);
      p := Plan(send, off, len, fin, rst, win, sendalot);
    }

    twostate lemma TimerKept(p: Plan)
      requires so.Valid() && Planned(p)
      ensures old(t_rexmt) > 0 && (old(x) == u || Usable() > 0) ==> t_rexmt == old(t_rexmt)
    {
      hide Decided, Starved;
    }

    twostate lemma PlanIs(p: Plan)
      requires so.Valid() && Planned(p)
      ensures Decided(p) && (x == old(x) || (x == u && p.len == 0)) && (!t_force ==> t_rxtshift == old(t_rxtshift))
      ensures p.sendalot ==> p.send && p.len > 0
      ensures t_force && old(Starved()) ==> p.send && p.len == 1 && x == u
    {
      hide Starved;
    }

    /** The same for a whole connection. */
    method PlanRound() returns (p: Plan)
      requires so.Valid() && Valid()
      modifies this`t_persist, this`t_rxtshift, this`t_rexmt, this`snd_nxt, this`x
      ensures so.Valid() && Valid()
      ensures Planned(p) && PlanMoves(old(ClockNow()), ClockNow(), p.send, p.fin, p.len, Due())
      ensures old(t_rexmt) > 0 && (old(x) == u || Usable() > 0) ==> t_rexmt == old(t_rexmt)
      ensures Decided(p) && (x == old(x) || (x == u && p.len == 0)) && (!t_force ==> t_rxtshift == old(t_rxtshift))
      ensures p.sendalot ==> p.send && p.len > 0
      ensures t_force && old(Starved()) ==> p.send && p.len == 1 && x == u
    {
      hide PlanMoves, ClockNow, At, Diff, U32, Fwd, SeqOk, DataOk, NoEarlyFin, WindowsOk, RecvOk, Presented,
           FinMatchesState, TimersOk, Planned;
      p := MakePlan();
      OrderNow();
      PlanMovesClock(p);
      TimerKept(p);
      PlanIs(p);
    }

    /** sbcopy into the mbuf of the outgoing segment; its assertion is the precondition. */
    method CopyText(off: nat, len: nat) returns (text: seq<u8>)
      requires so.Valid() && off + len <= so.so_snd.cc
      ensures text == so.so_snd.Contents()[off..off + len]
    {
      var mbuf := new u8[len](_ => 0);
      so.so_snd.SbCopy(off, len, mbuf, 0);
      text := mbuf[..];
    }

    /**
     The receive window of an outgoing segment: never less than what was advertised before, and
     zero rather than silly. Once the guest has sent beyond its window (`r > a`) the unsigned
     difference makes it meaningless.
     */
    method WindowToAdvertise(space: int) returns (win: int)
      requires so.Valid() && Valid() && space == so.so_rcv.Space()
      ensures 0 <= win && WindowFor(r, a, space, win)
      ensures r <= a ==> win <= TCP_MAXWIN && a <= r + win
      ensures r <= a && (so.so_rcv.data.Length / 4 <= space || t_maxseg <= space) ==>
                win == Max(Min(space, TCP_MAXWIN), a - r)
    {
      hide SeqOk, DataOk, WindowsOk, Presented, NoEarlyFin, FinMatchesState, TimersOk, At, Diff, U32, Fwd,
           SegQueue.Valid, Socket.HandedOver;
      win := space;
      if win < so.so_rcv.data.Length / 4 && win < t_maxseg {
        win := 0;
      }
      if win > TCP_MAXWIN {
        win := TCP_MAXWIN;
      }
      if r <= a {
        UnsignedDistance(irs, a, r);
      } else {
        NegativeDistance(irs, r, a);
      }
      if win < U32(rcv_adv - rcv_nxt) {
        win := U32(rcv_adv - rcv_nxt);
      }
    }

    /** Moves snd_nxt over a segment of `len` octets (and maybe a FIN), and snd_max with it. */
    method AdvanceNxt(len: nat, fin: bool)
      requires so.Valid() && SeqOk()
      requires len > 0 || fin ==> x + len <= |so.fromHost|
      requires fin ==> Closing(t_state) && x + len == |so.fromHost|
      modifies this`snd_nxt, this`snd_max, this`t_rtt, this`t_rtseq, this`tf_sentfin, this`x, this`m
      ensures SeqOk()
      ensures x == old(x) + len + (if fin then 1 else 0) && m == Max(old(m), x)
      ensures tf_sentfin == (old(tf_sentfin) || fin)
      ensures snd_nxt == snd_una <==> x == u
    {
      hide At, Diff, U32, SeqGt, Fwd, SendVars, Socket.Valid;
      ghost var x' := x + len + (if fin then 1 else 0);
      SendAdvance(iss, snd_una, snd_nxt, snd_max, u, x, m, |so.fromHost|, so.so_snd.cc, tf_sentfin, t_state, len, fin,
        x');
      var startseq := snd_nxt;
      if fin {
        snd_nxt := U32(snd_nxt + 1);
        tf_sentfin := true;
      }
      snd_nxt := U32(snd_nxt + len);
      x := x';
      if SeqGt(snd_nxt, snd_max) {
        snd_max := snd_nxt;
        if t_rtt == 0 {
          t_rtt := 1;
          t_rtseq := startseq;
        }
      }
      m := Max(m, x);
    }

    /** Sequence numbers and timers after a segment of `len` octets (and maybe a FIN) has been built. */
    method Account(len: nat, fin: bool)
      requires so.Valid() && SeqOk() && TimersOk()
      requires len > 0 || fin ==> x + len <= |so.fromHost|
      requires fin ==> Closing(t_state) && x + len == |so.fromHost|
      modifies this`snd_nxt, this`snd_max, this`t_rtt, this`t_rtseq, this`t_rexmt, this`t_persist, this`t_rxtshift,
               this`tf_sentfin, this`x, this`m
      ensures SeqOk() && TimersOk()
      ensures !(t_force && old(t_persist) > 0) ==>
                && x == old(x) + len + (if fin then 1 else 0) && m == Max(old(m), x)
                && (x != u ==> t_rexmt > 0) && tf_sentfin == (old(tf_sentfin) || fin)
      ensures t_force && old(t_persist) > 0 ==>
                && x == old(x) && m == Max(old(m), x + len) && tf_sentfin == old(tf_sentfin)
                && t_rexmt == old(t_rexmt) && t_persist == old(t_persist) && t_rxtshift == old(t_rxtshift)
      ensures old(t_rexmt) > 0 || x == u ==>
                t_rexmt == old(t_rexmt) && t_persist == old(t_persist) && t_rxtshift == old(t_rxtshift)
      ensures old(t_persist) == 0 ==> t_rxtshift == old(t_rxtshift)
    {
      hide At, Diff, U32, SeqGt, Fwd, SendVars, Socket.Valid;
      if !t_force || t_persist == 0 {
        AdvanceNxt(len, fin);
        if t_rexmt == 0 && snd_nxt != snd_una {
          t_rexmt := t_rxtcur;
          if t_persist > 0 {
            t_persist := 0;
            t_rxtshift := 0;
          }
        }
      } else {
        SendProbe(iss, snd_una, snd_nxt, snd_max, u, x, m, |so.fromHost|, so.so_snd.cc, tf_sentfin, t_state, len);
        if SeqGt(U32(snd_nxt + len), snd_max) {
          snd_max := U32(snd_nxt + len);
        }
        m := Max(m, x + len);
      }
    }

    /** A segment advertising `win` has left: remembers the new right edge. */
    method NoteWindow(win: int)
      requires so.Valid() && Valid() && WindowFor(r, a, so.so_rcv.Space(), win)
      modifies this`rcv_adv, this`a
      ensures so.Valid() && Valid()
      ensures a == EdgeAfter(r, old(a), win)
    {
      hide SeqOk, DataOk, NoEarlyFin, Presented, FinMatchesState, TimersOk, At, Diff, U32, SeqGt, Fwd, RecvVars,
           SegQueue.Valid, Socket.HandedOver;
      Advertise(irs, rcv_nxt, rcv_adv, r, a, so.so_rcv.Space(), |Stream()|, win);
      if win > 0 && SeqGt(U32(rcv_nxt + win), rcv_adv) {
        rcv_adv := U32(rcv_nxt + win);
        a := r + win;
      }
    }

    /** Adds a faithful segment to the record of what has been emitted. */
    ghost method Record(e: Emitted)
      requires so.Valid() && Valid() && Faithful(iss, irs, so.fromHost, e) && (e.seg.fin ==> fin_out)
      requires e.edge == a && e.rcv == r && NamesEdge(e)
      modifies this`wire
      ensures so.Valid() && Valid() && wire == old(wire) + [e]
    {
      hide SeqOk, Presented, FinMatchesState, TimersOk, At, Faithful, Fwd, Sbuf.Contents, RecvVars, SegQueue.Valid,
           Handed;
      wire := wire + [e];
    }

    /** A FIN that was numbered before takes its old number again. */
    method BackUpOverFin(p: Plan)
      requires so.Valid() && Valid() && Sound(p)
      modifies this`snd_nxt, this`x
      ensures so.Valid() && Valid() && Sound(p)
      ensures p.fin ==> x + p.len == |so.fromHost|
      ensures p.len > 0 || !p.fin ==> x == old(x)
    {
      hide At, Diff, U32, Fwd, SendVars, Sbuf.Valid, DataOk, RecvOk, WindowsOk, Presented, NoEarlyFin, FinMatchesState,
           TimersOk;
      if p.fin {
        SendBackUp(iss, snd_una, snd_nxt, snd_max, u, x, m, |so.fromHost|, so.so_snd.cc, tf_sentfin, t_state, p.len);
        if tf_sentfin && snd_nxt == snd_max {
          snd_nxt := U32(snd_nxt - 1);
          x := x - 1;
        }
      }
    }

    static lemma SliceOfRest(s: seq<u8>, u: int, off: int, len: nat)
      requires 0 <= u && 0 <= off && u + off + len <= |s|
      ensures Min(u, |s|) == u && s[u..][off..off + len] == s[u + off..u + off + len]
    {
    }

    /** The segment that a plan calls for: text from so_snd, numbers from the control block. */
    method Build(p: Plan, win: int) returns (seg: Segment, ghost pos: int)
      requires so.Valid() && Valid() && Sound(p) && 0 <= win
      requires p.fin ==> x + p.len == |so.fromHost|
      ensures |seg.data| == p.len && seg.fin == p.fin && seg.rst == p.rst && seg.ack && seg.ackno == rcv_nxt
      ensures seg.win == win % 0x1_0000
      ensures pos == if p.len > 0 || p.fin || t_persist > 0 then x else m
      ensures forall edge :: Faithful(iss, irs, so.fromHost, Emitted(pos, r, edge, seg))
    {
      hide At, Diff, U32, Fwd, Window, Sbuf.Valid, SegQueue.Valid, Socket.HandedOver, WindowsOk, Presented, NoEarlyFin,
           FinMatchesState, TimersOk;
      var text: seq<u8> := [];
      var psh := false;
      if p.len > 0 {
        text := CopyText(p.off, p.len);
        psh := p.off + p.len == so.so_snd.cc;
        assert text == so.fromHost[x..x + p.len] by {
          SliceOfRest(so.fromHost, u, p.off, p.len);
        }
      }
      var seqno := if p.len > 0 || p.fin || t_persist > 0 then snd_nxt else snd_max;
      pos := if p.len > 0 || p.fin || t_persist > 0 then x else m;
      seg := Segment(seqno, rcv_nxt, true, p.rst, p.fin, psh, win % 0x1_0000, text);
    }

    /** Everything about the outgoing segment that is fixed before the control block changes. */
    method Prepare(p: Plan) returns (seg: Segment, win: int, ghost pos: int)
      requires so.Valid() && Valid() && Sound(p)
      modifies this`snd_nxt, this`x
      ensures so.Valid() && Valid() && Sound(p)
      ensures p.fin ==> x + p.len == |so.fromHost|
      ensures p.len > 0 || !p.fin ==> x == old(x)
      ensures WindowFor(r, a, so.so_rcv.Space(), win) && 0 <= win
      ensures |seg.data| == p.len && seg.fin == p.fin && seg.rst == p.rst && seg.ack && seg.ackno == rcv_nxt
      ensures seg.win == win % 0x1_0000
      ensures pos == if p.len > 0 || p.fin || t_persist > 0 then x else m
      ensures forall edge :: Faithful(iss, irs, so.fromHost, Emitted(pos, r, edge, seg))
    {
      hide Valid, Sbuf.Valid, Faithful, WindowFor, At;
      BackUpOverFin(p);
      win := WindowToAdvertise(p.win);
      seg, pos := Build(p, win);
    }

    /**
     What building the planned segment has done to snd_nxt, snd_max and the timers; a forced probe is the exception.
     */
    twostate predicate Accounted(p: Plan)
      reads this`t_force, this`t_persist, this`tf_sentfin, this`u, this`x, this`m, this`t_rexmt, this`t_rxtshift,
            so`fromHost
    {
      && old(m) <= m && (p.fin ==> x + (if t_force && old(t_persist) > 0 then p.len else 0) >= |so.fromHost|)
      && (!(t_force && old(t_persist) > 0) ==>
            && tf_sentfin == (old(tf_sentfin) || p.fin) && (x != u ==> t_rexmt > 0)
            && (p.len > 0 ==> x == old(x) + p.len + (if p.fin then 1 else 0)) && (p.fin ==> x == |so.fromHost| + 1))
      && (p.len == 0 && !p.fin ==> x == old(x))
      && (old(t_rexmt) > 0 || x == u || (t_force && old(t_persist) > 0) ==>
            t_rexmt == old(t_rexmt) && t_persist == old(t_persist) && t_rxtshift == old(t_rxtshift))
      && (old(t_persist) == 0 ==> t_rxtshift == old(t_rxtshift))
    }

    twostate lemma SendMovesClock(p: Plan)
      requires Accounted(p) && OnlyTimers() && u <= old(x)
      ensures SendMoves(old(ClockNow()), ClockNow(), p.fin, p.len)
    {
    }

    /** Sequence numbers and timers after the planned segment has been built. */
    method AccountFor(p: Plan)
      requires so.Valid() && Valid() && Sound(p) && (p.fin ==> x + p.len == |so.fromHost|)
      modifies this`snd_nxt, this`snd_max, this`t_rtt, this`t_rtseq, this`t_rexmt, this`t_persist, this`t_rxtshift,
               this`tf_sentfin, this`x, this`m
      ensures so.Valid() && Valid()
      ensures Accounted(p) && SendMoves(old(ClockNow()), ClockNow(), p.fin, p.len)
    {
      hide At, SendMoves, ClockNow, SeqOk, DataOk, RecvOk, WindowsOk, Presented, NoEarlyFin, FinMatchesState, TimersOk;
      OrderNow();
      Account(p.len, p.fin);
      SendMovesClock(p);
    }

    /** Builds the planned segment and updates sequence numbers and timers for it. */
    method Compose(p: Plan) returns (seg: Segment, win: int, ghost pos: int)
      requires so.Valid() && Valid() && Sound(p)
      modifies this`snd_nxt, this`snd_max, this`t_rtt, this`t_rtseq, this`t_rexmt, this`t_persist, this`t_rxtshift,
               this`tf_sentfin, this`x, this`m
      ensures so.Valid() && Valid()
      ensures Accounted(p) && SendMoves(old(ClockNow()), ClockNow(), p.fin, p.len)
      ensures WindowFor(r, a, so.so_rcv.Space(), win) && 0 <= win
      ensures |seg.data| == p.len && seg.fin == p.fin && seg.rst == p.rst && seg.ack
      ensures seg.win == win % 0x1_0000
      ensures forall edge :: Faithful(iss, irs, so.fromHost, Emitted(pos, r, edge, seg))
      ensures seg.fin ==> !Open(t_state)
      ensures p.len > 0 ==> pos == old(x)
    {
      hide Valid, At, Sbuf.Valid, Faithful, WindowFor;
      seg, win, pos := Prepare(p);
      AccountFor(p);
    }

    /** Remembers whether a FIN has left. */
    method MarkFin(fin: bool)
      requires so.Valid() && Valid() && (fin ==> !Open(t_state))
      modifies this`fin_out
      ensures so.Valid() && Valid() && fin_out == (old(fin_out) || fin)
    {
      hide SeqOk, DataOk, RecvOk, WindowsOk, Presented, FinMatchesState, TimersOk, At;
      fin_out := fin_out || fin;
    }

    lemma FieldIs(seg: Segment, win: int, pos: int)
      requires so.Valid() && Valid() && WindowFor(r, a, so.so_rcv.Space(), win) && seg.win == win % 0x1_0000
      ensures a <= EdgeAfter(r, a, win) && (a < r ==> EdgeAfter(r, a, win) == a)
                && NamesEdge(Emitted(pos, r, EdgeAfter(r, a, win), seg))
    {
      hide At, SeqOk, DataOk, WindowsOk, NoEarlyFin, Presented, FinMatchesState, TimersOk, SegQueue.Valid, Handed;
      WindowExactIff(r, a, so.so_rcv.Space(), win);
    }

    /** ip_output has accepted the segment: remembers the window and that no acknowledgment is owed. */
    method Finish(seg: Segment, win: int, ghost pos: int)
      requires so.Valid() && Valid() && WindowFor(r, a, so.so_rcv.Space(), win)
      requires seg.win == win % 0x1_0000
      requires forall edge :: Faithful(iss, irs, so.fromHost, Emitted(pos, r, edge, seg))
      requires seg.fin ==> !Open(t_state)
      modifies this`wire, this`fin_out, this`rcv_adv, this`a, this`tf_acknow, this`tf_delack
      ensures so.Valid() && Valid()
      ensures old(a) <= a && (old(a) < r ==> a == old(a))
      ensures wire == old(wire) + [Emitted(pos, r, a, seg)]
      ensures !tf_acknow && !tf_delack && NamesEdge(Emitted(pos, r, a, seg))
    {
      hide Valid, At, Diff, U32, Fwd, Sbuf.Valid, Faithful, WindowFor, EdgeAfter, NamesEdge;
      FieldIs(seg, win, pos);
      NoteWindow(win);
      MarkFin(seg.fin);
      Record(Emitted(pos, r, a, seg));
      tf_acknow, tf_delack := false, false;
    }

    /**
     The part of tcp_output from the label `send` on: builds one segment as planned and passes it to
     ip_output, which may refuse it.
     */
    method Send(p: Plan, ipError: bool)
      requires so.Valid() && Valid() && Sound(p) && p.len <= t_maxseg && (p.rst <==> t_state == TCPS_CLOSED)
      modifies this`snd_nxt, this`snd_max, this`t_rtt, this`t_rtseq, this`t_rexmt, this`t_persist, this`t_rxtshift,
               this`tf_sentfin, this`x, this`m, this`wire, this`fin_out, this`rcv_adv, this`a, this`tf_acknow,
               this`tf_delack
      ensures so.Valid() && Valid()
      ensures Accounted(p) && SendMoves(old(ClockNow()), ClockNow(), p.fin, p.len)
      ensures ipError ==> wire == old(wire) && a == old(a) && tf_acknow == old(tf_acknow)
      ensures !ipError ==> !tf_acknow && |wire| == |old(wire)| + 1 && old(wire) <= wire
      ensures !ipError ==> |wire[|wire| - 1].seg.data| == p.len && (p.len > 0 ==> wire[|wire| - 1].pos == old(x))
      ensures !ipError ==> wire[|wire| - 1].edge == a && Timely(wire[|wire| - 1], old(a), r, a, t_state, t_maxseg)
    {
      hide ClockNow, Accounted, SendMoves, At, Diff, U32, Fwd, Valid, Sbuf.Valid, Faithful, WindowFor;
      ghost var pos;
      var seg, win;
      seg, win, pos := Compose(p);
      if ipError {
        return;
      }
      Finish(seg, win, pos);
    }

    /** The way out of tcp_output without a segment: starts the persist timer if data waits and no timer runs. */
    method NothingToSend()
      requires so.Valid() && Valid()
      modifies this`t_persist, this`t_rxtshift
      ensures so.Valid() && Valid()
      ensures so.so_snd.cc > 0 ==> t_rexmt > 0 || t_persist > 0
      ensures t_rexmt > 0 ==> t_persist == old(t_persist) && t_rxtshift == old(t_rxtshift)
      ensures IdleMoves(old(ClockNow()), ClockNow())
    {
      hide At, Diff, U32, Fwd, Socket.Valid, Faithful, SeqOk, DataOk, RecvOk, WindowsOk, Presented;
      if so.so_snd.cc > 0 && t_rexmt == 0 && t_persist == 0 {
        t_rxtshift := 0;
        SetPersist();
      }
    }

    /** A segment with one byte of text, the next one that the guest has not acknowledged. */
    ghost predicate Probe(e: Emitted)
      reads this`u
    {
      e.pos == u && |e.seg.data| == 1
    }

    /** The text of the segment, if it has any, begins at position `pos`. */
    ghost predicate StartsAt(e: Emitted, pos: int) {
      e.seg.data != [] ==> e.pos == pos
    }

    twostate predicate OnlyTimers()
      reads this`u, this`snd_wnd, this`snd_cwnd, this`t_state, this`t_force, so`fromHost, so.so_snd
    {
      && u == old(u) && so.fromHost == old(so.fromHost) && so.so_snd.cc == old(so.so_snd.cc) && snd_wnd == old(snd_wnd)
      && snd_cwnd == old(snd_cwnd) && t_state == old(t_state) && t_force == old(t_force)
    }

    ghost function ClockNow(): (c: Clock)
      reads this`t_rexmt, this`t_persist, this`t_rxtshift, this`u, this`x, this`snd_wnd, this`snd_cwnd, this`t_state,
            this`t_force, so`fromHost, so.so_snd
    {
      Clock(t_rexmt, t_persist, t_rxtshift, x, u, |so.fromHost|, so.so_snd.cc, snd_wnd, snd_cwnd, t_state, t_force)
    }

    lemma ClockNowIs()
      ensures var c := ClockNow();
              && c.st == t_state && c.force == t_force && c.persist == t_persist && c.x == x && c.u == u
              && c.cc == so.so_snd.cc && c.rexmt == t_rexmt && (StrandedAt(c) <==> Stranded())
    {
    }

    lemma OrderNow()
      requires SeqOk()
      ensures 0 <= u <= x
    {
      hide At;
    }

    lemma ClockConsistent()
      requires so.Valid() && Valid()
      ensures Consistent(ClockNow())
    {
      hide At, DataOk, RecvOk, WindowsOk, Presented, NoEarlyFin, FinMatchesState;
    }

    twostate lemma PlanMovesClock(p: Plan)
      requires so.Valid() && Planned(p) && OnlyTimers() && u <= x && TimersOk()
      ensures PlanMoves(old(ClockNow()), ClockNow(), p.send, p.fin, p.len, Due())
    {
      hide HeldBack, Starved;
    }

    twostate lemma FirstMovesNow(more: bool)
      requires Steady(old(ClockNow()), ClockNow())
      requires more ==> Usable() > 0 && t_rexmt > 0 && (old(t_rexmt) > 0 ==>
                 t_rexmt == old(t_rexmt) && (!t_force ==> t_rxtshift == old(t_rxtshift)))
      requires u == old(u) && so.fromHost == old(so.fromHost) && so.so_snd.cc == old(so.so_snd.cc)
                 && snd_wnd == old(snd_wnd)
      requires snd_cwnd == old(snd_cwnd) && t_state == old(t_state) && t_force == old(t_force)
      ensures FirstMoves(old(ClockNow()), ClockNow(), more)
    {
      hide Steady;
    }

    twostate lemma OtherMovesNow(more: bool)
      requires u == old(u) && so.fromHost == old(so.fromHost) && so.so_snd.cc == old(so.so_snd.cc)
                 && snd_wnd == old(snd_wnd)
      requires snd_cwnd == old(snd_cwnd) && t_state == old(t_state) && t_force == old(t_force)
      requires !more ==>
                x == old(x) && t_rexmt == old(t_rexmt) && t_persist == old(t_persist) && t_rxtshift == old(t_rxtshift)
      requires old(t_rexmt) > 0 ==> t_rexmt == old(t_rexmt) && (!t_force ==> t_rxtshift == old(t_rxtshift))
      ensures OtherMoves(old(ClockNow()), ClockNow(), more)
    {
    }

    /** A round that sends. */
    method SendRound(p: Plan, ipError: bool) returns (ok: bool, more: bool)
      requires so.Valid() && Valid() && Decided(p) && p.send
      modifies this`snd_nxt, this`snd_max, this`t_rtt, this`t_rtseq, this`t_rexmt, this`t_persist, this`t_rxtshift,
               this`tf_sentfin, this`x, this`m, this`wire, this`fin_out, this`rcv_adv, this`a, this`tf_acknow,
               this`tf_delack
      ensures so.Valid() && Valid() && SendMoves(old(ClockNow()), ClockNow(), p.fin, p.len)
      ensures ok == !ipError && more == (ok && p.sendalot) && old(m) <= m
      ensures more ==> old(x) < x <= |so.fromHost| + 1 && Usable() > 0 && t_rexmt > 0
      ensures if ok then old(wire) <= wire && |wire| == |old(wire)| + 1 && wire[|wire| - 1].edge == a
                && Timely(wire[|wire| - 1], old(a), r, a, t_state, t_maxseg)
              else wire == old(wire) && a == old(a)
      ensures ok ==>
                !tf_acknow && |wire[|wire| - 1].seg.data| == p.len && (p.len > 0 ==> wire[|wire| - 1].pos == old(x))
      ensures ok && !more && !t_force ==> HeldBack(Max(0, Usable() - (x - u)))
      ensures ok && !more && !t_force && Closing(t_state) && x >= |so.fromHost| ==> tf_sentfin
      ensures old(t_rexmt) > 0 ==> t_rexmt == old(t_rexmt) && t_rxtshift == old(t_rxtshift)
    {
      hide At, ClockNow, SendMoves, Valid, Sbuf.Valid, Timely;
      PlacesNow();
      Send(p, ipError);
      ok, more := !ipError, !ipError && p.sendalot;
    }

    /** Whatever fits one segment is planned as one. */
    lemma FitsPlan(p: Plan)
      requires so.Valid() && Valid() && Decided(p)
      ensures var d := ClockNow();
              && 0 < t_maxseg
              && (FitsOneSegment(d, t_maxseg) ==>
                    !p.sendalot && !p.fin && p.len == d.u + d.cc - d.x && (!p.send ==> d.x == d.u + d.cc))
    {
      hide At, DataOk, RecvOk, WindowsOk, Presented, NoEarlyFin, FinMatchesState, Due;
    }

    /** The end of a round: what was planned leaves, or nothing does. */
    method CarryOut(p: Plan, ipError: bool) returns (ok: bool, more: bool)
      requires so.Valid() && Valid() && Decided(p)
      modifies this`snd_nxt, this`snd_max, this`t_rtt, this`t_rtseq, this`t_rexmt, this`t_persist, this`t_rxtshift,
               this`tf_sentfin, this`x, this`m, this`wire, this`fin_out, this`rcv_adv, this`a, this`tf_acknow,
               this`tf_delack
      ensures so.Valid() && Valid()
      ensures if p.send then SendMoves(old(ClockNow()), ClockNow(), p.fin, p.len)
                else IdleMoves(old(ClockNow()), ClockNow())
      ensures ok == !(p.send && ipError) && more == (ok && p.send && p.sendalot) && old(m) <= m
      ensures more ==> old(x) < x <= |so.fromHost| + 1 && Usable() > 0 && t_rexmt > 0
      ensures if ok && p.send then old(wire) <= wire && |wire| == |old(wire)| + 1 && wire[|wire| - 1].edge == a
                && Timely(wire[|wire| - 1], old(a), r, a, t_state, t_maxseg)
              else wire == old(wire) && a == old(a)
      ensures ok ==> !tf_acknow && (old(tf_acknow) || t_state == TCPS_CLOSED ==> p.send)
      ensures ok && !more && !t_force ==> HeldBack(Max(0, Usable() - (x - u)))
      ensures ok && !more && !t_force && Closing(t_state) && x >= |so.fromHost| ==> tf_sentfin
      ensures !p.send && so.so_snd.cc > 0 ==> t_rexmt > 0 || t_persist > 0
      ensures old(t_rexmt) > 0 ==> t_rexmt == old(t_rexmt) && t_rxtshift == old(t_rxtshift)
      ensures |wire| > |old(wire)| && p.len == 1 && old(x) == u ==> Probe(wire[|old(wire)|])
      ensures |wire| > |old(wire)| ==> forall pos :: p.len == 0 || pos == old(x) ==> StartsAt(wire[|old(wire)|], pos)
    {
      hide Sound, Usable, SendWindow, Max, At, Valid, Sbuf.Valid, Timely, ClockNow, SendMoves, IdleMoves, HeldBack, Due;
      ok, more := true, false;
      if p.send {
        ok, more := SendRound(p, ipError);
      } else {
        NothingToSend();
      }
    }

    /** One round of tcp_output; `more` asks for another one, `ok` is false when ip_output has refused. */
    method OutputRound(ipError: bool) returns (ok: bool, sent: bool, more: bool)
      requires so.Valid() && Valid()
      modifies this`snd_nxt, this`snd_max, this`t_rtt, this`t_rtseq, this`t_rexmt, this`t_persist, this`t_rxtshift,
               this`tf_sentfin, this`x, this`m, this`wire, this`fin_out, this`rcv_adv, this`a, this`tf_acknow,
               this`tf_delack
      ensures so.Valid() && Valid()
      ensures old(m) <= m && (more ==> ok && sent && old(x) < x <= |so.fromHost| + 1 && Usable() > 0)
      ensures RoundMoves(old(ClockNow()), ClockNow(), old(Due()), t_maxseg)
      ensures more ==> !old(FitsOneSegment(ClockNow(), t_maxseg))
      ensures if ok && sent then old(wire) <= wire && |wire| == |old(wire)| + 1 && wire[|wire| - 1].edge == a
                && Timely(wire[|wire| - 1], old(a), r, a, t_state, t_maxseg)
              else wire == old(wire) && a == old(a)
      ensures ok ==> !tf_acknow && (old(tf_acknow) ==> sent)
      ensures ok && !more && !t_force ==> HeldBack(Max(0, Usable() - (x - u)))
      ensures ok && !more && !t_force && Closing(t_state) && x >= |so.fromHost| ==> tf_sentfin
      ensures !sent && so.so_snd.cc > 0 ==> t_rexmt > 0 || t_persist > 0
      ensures old(t_rexmt) > 0 && (old(x) == u || Usable() > 0) ==>
                t_rexmt == old(t_rexmt) && (!t_force ==> t_rxtshift == old(t_rxtshift))
      ensures FirstMoves(old(ClockNow()), ClockNow(), more)
      ensures t_force && old(Starved()) && !ipError ==> |wire| > |old(wire)| && Probe(wire[|old(wire)|])
      ensures |wire| > |old(wire)| ==> StartsAt(wire[|old(wire)|], old(x))
      ensures !ipError && (old(tf_acknow) || t_state == TCPS_CLOSED) ==> |wire| > |old(wire)|
    {
      hide *;
      ghost var c, due := ClockNow(), Due();
      ClockConsistent();
      var p := PlanRound();
      ghost var d := ClockNow();
      FitsPlan(p);
      ok, more := CarryOut(p, ipError);
      sent := p.send;
      EitherRound(c, d, ClockNow(), p.send, p.fin, p.len, due, t_maxseg);
      FirstMovesNow(more);
    }

    /** A congestion window of one segment. */
    method SlowStart()
      requires TimersOk()
      modifies this`snd_cwnd
      ensures snd_cwnd == t_maxseg
    {
      snd_cwnd := t_maxseg;
    }

    /**
     A connection that has nothing outstanding and has been idle for a whole timeout begins with one segment again.
     */
    method StartSlowly()
      requires so.Valid() && Valid()
      modifies this`snd_cwnd
      ensures so.Valid() && Valid()
      ensures Starved() == old(Starved())
      ensures snd_cwnd == if snd_max == snd_una && t_idle >= t_rxtcur then t_maxseg else old(snd_cwnd)
      ensures ClockNow() == old(ClockNow()).(cwnd := snd_cwnd)
      ensures snd_cwnd == old(snd_cwnd) || (snd_cwnd == t_maxseg > 0 && x == u)
      ensures StrandsAt(ClockNow(), Due()) == old(Strands())
    {
      hide At, Diff, U32, Fwd, SeqOk, DataOk, RecvOk, WindowsOk, Presented, NoEarlyFin, FinMatchesState, Due;
      SamePlaces();
      if snd_max == snd_una && t_idle >= t_rxtcur {
        SlowStart();
      }
    }

    lemma SamePlaces()
      requires so.Valid() && Valid()
      ensures snd_nxt == snd_una <==> x == u
      ensures snd_max == snd_una ==> x == u
    {
      hide At, DataOk, RecvOk, WindowsOk, Presented, NoEarlyFin, FinMatchesState, TimersOk;
      DiffAt(iss, x, u);
      DiffAt(iss, m, u);
      DiffAt(iss, u, u);
    }

    /** The state between two rounds of tcp_output that began with `from` segments emitted and edge `edge`. */
    ghost predicate BetweenRounds(ok: bool, sent: bool, more: bool, first: bool, owed: bool, from: int, edge: int)
      reads Repr
      requires so.Valid()
    {
      && (more ==> ok && (first || (sent && x <= |so.fromHost| + 1 && Usable() > 0)))
      && (first ==> more && tf_acknow == owed)
      && (ok && !first ==> !tf_acknow && (sent || owed ==> |wire| > from))
      && (ok && !more && !t_force ==> HeldBack(Max(0, Usable() - (x - u))))
      && (ok && !more && !t_force && Closing(t_state) && x >= |so.fromHost| ==> tf_sentfin)
      && (!first && !sent && so.so_snd.cc > 0 ==> t_rexmt > 0 || t_persist > 0)
      && from <= |wire| && Fresh(wire, from, edge, r, a, t_state, t_maxseg)
    }

    /** One turn of the loop of tcp_output. */
    method Turn(ipError: bool, first: bool, ghost ok0: bool, ghost sent0: bool, ghost owed: bool, ghost from: int,
      ghost edge: int)
      returns (ok: bool, sent: bool, more: bool)
      requires so.Valid() && Valid() && BetweenRounds(ok0, sent0, true, first, owed, from, edge)
      modifies this`snd_nxt, this`snd_max, this`t_rtt, this`t_rtseq, this`t_rexmt, this`t_persist, this`t_rxtshift,
               this`tf_sentfin, this`x, this`m, this`wire, this`fin_out, this`rcv_adv, this`a, this`tf_acknow,
               this`tf_delack
      ensures so.Valid() && Valid() && old(m) <= m && old(wire) <= wire
      ensures BetweenRounds(ok, sent, more, false, owed, from, edge)
      ensures more ==> old(x) < x <= |so.fromHost| + 1
      ensures old(t_rexmt) > 0 && (first ==> old(x) == u) ==>
                t_rexmt == old(t_rexmt) && (!t_force ==> t_rxtshift == old(t_rxtshift))
      ensures t_force && old(Starved()) && first && !ipError ==> |wire| > |old(wire)| && Probe(wire[|old(wire)|])
      ensures |wire| > |old(wire)| ==> StartsAt(wire[|old(wire)|], old(x))
      ensures more ==> |wire| > |old(wire)|
      ensures !ipError && (old(tf_acknow) || t_state == TCPS_CLOSED) ==> |wire| > |old(wire)|
      ensures FirstMoves(old(ClockNow()), ClockNow(), more)
      ensures RoundMoves(old(ClockNow()), ClockNow(), old(Due()), t_maxseg)
      ensures more ==> !old(FitsOneSegment(ClockNow(), t_maxseg))
    {
      hide RoundMoves, Due, FitsOneSegment, ClockNow, FirstMoves, Valid, At, Diff, U32, Fwd, Socket.Valid, Faithful,
           SeqOk, DataOk, RecvOk, WindowsOk, Presented, HeldBack, Timely, Fresh, TimersOk;
      ok, sent, more := OutputRound(ipError);
      FreshExtend(old(wire), wire, from, edge, r, old(a), a, t_state, t_maxseg);
    }

    lemma FirstRound()
      requires so.Valid() && Valid()
      ensures BetweenRounds(true, false, true, true, tf_acknow, |wire|, a)
    {
      hide At, Diff, U32, Fwd, SeqOk, DataOk, RecvOk, WindowsOk, Presented, HeldBack, TimersOk, NoEarlyFin,
           FinMatchesState;
      FreshStart(wire, r, a, t_state, t_maxseg);
    }

    lemma LastRound(ok: bool, sent: bool, owed: bool, from: int, edge: int)
      requires so.Valid() && BetweenRounds(ok, sent, false, false, owed, from, edge)
      ensures from <= |wire| && Fresh(wire, from, edge, r, a, t_state, t_maxseg)
      ensures ok ==> !tf_acknow && (owed ==> |wire| > from)
      ensures ok && !t_force ==> HeldBack(Max(0, Usable() - (x - u)))
      ensures ok && !t_force && Closing(t_state) && x >= |so.fromHost| ==> tf_sentfin
      ensures ok && |wire| == from && so.so_snd.cc > 0 ==> t_rexmt > 0 || t_persist > 0
    {
      hide Fwd, HeldBack, Fresh;
    }

    /** The rounds after the first one, as long as the last one asks for more. */
    method MoreTurns(ok0: bool, sent0: bool, more0: bool, accepts: nat, ghost owed: bool, ghost from: int,
      ghost edge: int)
      returns (ok: bool, sent: bool)
      requires so.Valid() && Valid() && BetweenRounds(ok0, sent0, more0, false, owed, from, edge)
      requires more0 ==> x <= |so.fromHost| + 1
      modifies this`snd_nxt, this`snd_max, this`t_rtt, this`t_rtseq, this`t_rexmt, this`t_persist, this`t_rxtshift,
               this`tf_sentfin, this`x, this`m, this`wire, this`fin_out, this`rcv_adv, this`a, this`tf_acknow,
               this`tf_delack
      ensures so.Valid() && Valid() && old(m) <= m && old(wire) <= wire
      ensures BetweenRounds(ok, sent, false, false, owed, from, edge)
      ensures old(t_rexmt) > 0 ==> t_rexmt == old(t_rexmt) && (!t_force ==> t_rxtshift == old(t_rxtshift))
      ensures !more0 ==> wire == old(wire)
      ensures OtherMoves(old(ClockNow()), ClockNow(), more0)
    {
      hide *;
      ok, sent := ok0, sent0;
      var more, count := more0, 1;
      while more
        invariant so.Valid() && Valid() && old(m) <= m && old(wire) <= wire
        invariant BetweenRounds(ok, sent, more, false, owed, from, edge)
        invariant !more0 ==> !more && wire == old(wire)
        invariant !more0 ==>
                  x == old(x) && t_rexmt == old(t_rexmt) && t_persist == old(t_persist) && t_rxtshift == old(t_rxtshift)
        invariant more ==> x <= |so.fromHost| + 1
        invariant old(t_rexmt) > 0 ==> t_rexmt == old(t_rexmt) && (!t_force ==> t_rxtshift == old(t_rxtshift))
        decreases if more then 1 else 0, |so.fromHost| + 1 - x
      {
        ok, sent, more := Turn(count == accepts, false, ok, sent, owed, from, edge);
        count := count + 1;
      }
      OtherMovesNow(more0);
    }

    /** The rounds of tcp_output. The packet queue below accepts `accepts` segments and refuses the next one. */
    method Rounds(accepts: nat) returns (ok: bool)
      requires so.Valid() && Valid()
      modifies this`snd_nxt, this`snd_max, this`t_rtt, this`t_rtseq, this`t_rexmt, this`t_persist, this`t_rxtshift,
               this`tf_sentfin, this`x, this`m, this`wire, this`fin_out, this`rcv_adv, this`a, this`tf_acknow,
               this`tf_delack
      ensures so.Valid() && Valid()
      ensures RoundMoves(old(ClockNow()), ClockNow(), old(Due()), t_maxseg)
      ensures old(m) <= m && old(wire) <= wire && Fresh(wire, |old(wire)|, old(a), r, a, t_state, t_maxseg)
      ensures ok ==> !tf_acknow && (old(tf_acknow) ==> |wire| > |old(wire)|)
      ensures ok && !t_force ==> HeldBack(Max(0, Usable() - (x - u)))
      ensures ok && !t_force && Closing(t_state) && x >= |so.fromHost| ==> tf_sentfin
      ensures ok && wire == old(wire) && so.so_snd.cc > 0 ==> t_rexmt > 0 || t_persist > 0
      ensures old(t_rexmt) > 0 && old(x) == u ==>
                t_rexmt == old(t_rexmt) && (!t_force ==> t_rxtshift == old(t_rxtshift))
      ensures t_force && old(Starved()) && accepts > 0 ==> |wire| > |old(wire)| && Probe(wire[|old(wire)|])
      ensures |wire| > |old(wire)| ==> StartsAt(wire[|old(wire)|], old(x))
      ensures accepts > 0 && (old(tf_acknow) || t_state == TCPS_CLOSED) ==> |wire| > |old(wire)|
    {
      hide *;
      ghost var c, due := ClockNow(), Due();
      FirstRound();
      ghost var from, edge, owed := |wire|, a, tf_acknow;
      var sent, more;
      ok, sent, more := Turn(accepts == 0, true, true, false, owed, from, edge);
      ghost var d := ClockNow();
      ok, sent := MoreTurns(ok, sent, more, accepts, owed, from, edge);
      AllRounds(c, d, ClockNow(), more, due, t_maxseg);
      LastRound(ok, sent, owed, from, edge);
    }

    /**
     tcp_output. The packet queue below accepts `accepts` segments and refuses the next one. Unless a byte was to be
     forced out while no probe was pending, waiting bytes are stranded afterwards exactly if `Strands` held before.
     */
    method TcpOutput(accepts: nat) returns (ok: bool)
      requires so.Valid() && Valid()
      modifies this`snd_nxt, this`snd_max, this`t_rtt, this`t_rtseq, this`t_rexmt, this`t_persist, this`t_rxtshift,
               this`tf_sentfin, this`x, this`m, this`wire, this`fin_out, this`rcv_adv, this`a, this`tf_acknow,
               this`tf_delack, this`snd_cwnd, this`strands
      ensures so.Valid() && Valid()
      ensures strands == old(!t_force && Strands())
      ensures t_state != TCPS_CLOSED && (t_force ==> old(t_persist) > 0) ==> (Stranded() <==> strands)
      ensures old(FitsOneSegment(ClockNow(), t_maxseg)) ==>
                x == u + so.so_snd.cc && (so.so_snd.cc > 0 && old(x) == u ==> t_rexmt > 0)
      ensures snd_cwnd == old(snd_cwnd) || (old(snd_max == snd_una && t_idle >= t_rxtcur) && snd_cwnd == t_maxseg)
      ensures old(m) <= m && old(wire) <= wire && Fresh(wire, |old(wire)|, old(a), r, a, t_state, t_maxseg)
      ensures ok ==> !tf_acknow && (old(tf_acknow) ==> |wire| > |old(wire)|)
      ensures ok && !t_force ==> HeldBack(Max(0, Usable() - (x - u)))
      ensures ok && !t_force && Closing(t_state) && x >= |so.fromHost| ==> tf_sentfin
      ensures ok && wire == old(wire) && so.so_snd.cc > 0 ==> t_rexmt > 0 || t_persist > 0
      ensures old(t_rexmt) > 0 && old(x) == u ==>
                t_rexmt == old(t_rexmt) && (!t_force ==> t_rxtshift == old(t_rxtshift))
      ensures t_force && old(Starved()) && accepts > 0 ==> |wire| > |old(wire)| && Probe(wire[|old(wire)|])
      ensures |wire| > |old(wire)| ==> StartsAt(wire[|old(wire)|], old(x))
      ensures accepts > 0 && (old(tf_acknow) || t_state == TCPS_CLOSED) ==> |wire| > |old(wire)|
      ensures Steady(old(ClockNow()), ClockNow())
    {
      hide *;
      ghost var b := ClockNow();
      ClockNowIs();
      strands := !t_force && Strands();
      StartSlowly();
      ghost var c, due := ClockNow(), Due();
      ok := Rounds(accepts);
      AfterIdle(b, c, ClockNow(), due, t_maxseg);
      ClockNowIs();
    }

    // ---------------------------------------------------------------------------------- tcp_input.c

    /** Hands text over for the host, unless the host no longer takes any. */
    method HandOver(data: seq<u8>, check: bool, answer: SendAnswer, ghost k: int)
      requires so.Valid() && |data| <= so.so_rcv.Space()
      requires 0 <= k && k + |data| <= |Stream()| && data == Stream()[k..k + |data|] && Handed(k)
      modifies this`skipped, so`toHost, so.so_rcv, so.so_rcv.data
      ensures so.Valid() && Handed(k + |data|)
      ensures so.so_rcv.Space() + |data| >= old(so.so_rcv.Space())
      ensures skipped == (old(skipped) || (check && so.fCantSendMore))
      ensures old(so.toHost) <= so.toHost
      ensures !check ==> so.HandedOver() == old(so.HandedOver()) + data
      ensures !answer.Takes? ==> so.toHost == old(so.toHost)
    {
      hide Window, Fwd, Sbuf.Valid;
      if check && so.fCantSendMore {
        skipped := true;
      } else {
        so.SbAppend(data, answer);
      }
    }

    /** rcv_nxt moves past text that is handed over. */
    method Deliver(data: seq<u8>, check: bool, answer: SendAnswer)
      requires so.Valid() && RecvOk() && |data| <= so.so_rcv.Space()
      requires r + |data| <= |Stream()| && data == Stream()[r..r + |data|]
      requires r + |data| - a < REACH && segq.Valid(r + |data|, r + so.so_rcv.Space())
      modifies this`rcv_nxt, this`r, this`skipped, this`overrun, so`toHost, so.so_rcv, so.so_rcv.data
      ensures so.Valid() && RecvOk() && r == old(r) + |data|
      ensures r + so.so_rcv.Space() >= old(r + so.so_rcv.Space())
      ensures skipped == (old(skipped) || (check && so.fCantSendMore))
      ensures overrun ==> old(overrun) || r > a
      ensures old(so.toHost) <= so.toHost
      ensures rcv_nxt == U32(old(rcv_nxt) + |data|)
      ensures !check ==> so.HandedOver() == old(so.HandedOver()) + data
      ensures !answer.Takes? ==> so.toHost == old(so.toHost)
    {
      hide At, Diff, U32, Fwd, SegQueue.Valid, Handed, Socket.HandedOver;
      HandOver(data, check, answer, r);
      ReceiveAdvance(irs, rcv_nxt, rcv_adv, r, a, old(so.so_rcv.Space()), so.so_rcv.Space(), |Stream()|, |data|);
      segq.Widen(r + |data|, r + old(so.so_rcv.Space()), r + |data| + so.so_rcv.Space());
      rcv_nxt := U32(rcv_nxt + |data|);
      r := r + |data|;
      overrun := overrun || r > a;
    }

    /** The stream positions the guest's octets of which have arrived, from position `from` on. */
    ghost function Arrived(from: int): set<int>
      reads this`r, segq`spans
    {
      Range(Span(from, r)) + Cover(segq.spans)
    }

    /** One turn of the loop that presents queued segments: dequeues the first one and hands it over. */
    method PresentFirst(answer: SendAnswer, ghost hi: int) returns (fin: bool)
      requires so.Valid() && RecvOk() && segq.segs != [] && segq.segs[0].seqno == rcv_nxt
      requires segq.Valid(r, hi) && hi <= r + so.so_rcv.Space() && hi - a < REACH
      modifies this`rcv_nxt, this`r, this`skipped, this`overrun, segq`segs, segq`spans, so`toHost, so.so_rcv,
               so.so_rcv.data
      ensures so.Valid() && RecvOk()
      ensures segq.Valid(r, hi) && old(r) <= r <= hi <= r + so.so_rcv.Space()
      ensures (fin ==> r == |Stream()|) && (old(r) <= |Stream()| ==> r <= |Stream()|)
      ensures segq.segs == old(segq.segs)[1..] && fin == old(segq.segs[0]).fin && (!fin ==> old(r) < r)
      ensures forall from :: from <= old(r) ==> Arrived(from) == old(Arrived(from))
      ensures skipped == (old(skipped) || so.fCantSendMore) && old(so.toHost) <= so.toHost
      ensures overrun ==> old(overrun) || r > a
    {
      hide At, Diff, U32, Fwd, Handed, Cover;
      segq.FirstIsNext(r, r + so.so_rcv.Space());
      ghost var s;
      var ti;
      ti, s := segq.PopFirst(r, hi);
      fin := ti.fin;
      assert s.lo == r && s.hi == r + |ti.data|;
      segq.Widen(s.hi, hi, r + so.so_rcv.Space());
      Deliver(ti.data, true, answer);
      forall from | from <= old(r)
        ensures Arrived(from) == old(Arrived(from))
      {
        RangeSplit(from, old(r), r);
      }
    }

    /** tcp_reass from the label `present` on: hands over what is now contiguous. */
    method Present(host: nat -> SendAnswer) returns (fin: bool)
      requires so.Valid() && RecvOk() && r + so.so_rcv.Space() - a < REACH
      modifies this`rcv_nxt, this`r, this`skipped, this`overrun, segq`segs, segq`spans, so`toHost, so.so_rcv,
               so.so_rcv.data
      ensures so.Valid() && RecvOk() && Presented()
      ensures old(r) <= r <= old(r + so.so_rcv.Space()) <= r + so.so_rcv.Space()
      ensures (fin ==> r == |Stream()|) && (old(r) <= |Stream()| ==> r <= |Stream()|)
      ensures forall from :: from <= old(r) ==> Arrived(from) == old(Arrived(from))
      ensures !so.fCantSendMore ==> skipped == old(skipped)
      ensures overrun ==> old(overrun) || r > a
      ensures old(so.toHost) <= so.toHost
      ensures old(HasFin(segq.segs)) && old(r) <= |Stream()| ==> fin || HasFin(segq.segs)
      ensures fin || HasFin(segq.segs) ==> old(HasFin(segq.segs))
    {
      hide At, Diff, U32, Fwd, Handed, Cover, RecvVars, Pieces, Ordered;
      fin := false;
      ghost var hi := r + so.so_rcv.Space();
      var i := 0;
      while segq.segs != [] && segq.segs[0].seqno == rcv_nxt
        invariant so.Valid() && RecvOk() && segq.Valid(r, hi) && old(r) <= r <= hi <= r + so.so_rcv.Space()
        invariant (fin ==> r == |Stream()|) && (old(r) <= |Stream()| ==> r <= |Stream()|)
        invariant forall from :: from <= old(r) ==> Arrived(from) == old(Arrived(from))
        invariant !so.fCantSendMore ==> skipped == old(skipped)
        invariant overrun ==> old(overrun) || r > a
        invariant old(so.toHost) <= so.toHost
        invariant old(HasFin(segq.segs)) && old(r) <= |Stream()| ==> fin || HasFin(segq.segs)
        invariant fin || HasFin(segq.segs) ==> old(HasFin(segq.segs))
        decreases |segq.segs|
      {
        FinStays(segq.segs);
        fin := PresentFirst(host(i), hi);
        i := i + 1;
      }
      PresentedAtExit();
    }

    lemma PresentedAtExit()
      requires so.Valid() && RecvOk() && (segq.segs == [] || segq.segs[0].seqno != rcv_nxt)
      ensures Presented()
    {
      hide At, Diff, U32, Fwd, Handed, Cover;
      if segq.segs != [] {
        segq.FirstIsNext(r, r + so.so_rcv.Space());
      }
    }

    /** Taking off a segment without FIN leaves the FIN in the queue. */
    lemma FinStays(fs: seq<Frag>)
      requires fs != []
      ensures HasFin(fs) <==> fs[0].fin || HasFin(fs[1..])
    {
      FinRemoved(fs, 0);
      assert fs[..0] + fs[0 + 1..] == fs[1..];
    }

    lemma StillInStream(ti: Frag, t: Span)
      requires Carries(irs, Stream(), ti, t) && r <= t.lo
      ensures r <= |Stream()|
    {
    }

    /** tcp_reass: queues segment `ti`, then presents what has become contiguous. */
    method TcpReass(ti: Frag, ghost t: Span, host: nat -> SendAnswer) returns (fin: bool)
      requires so.Valid() && RecvOk() && Presented() && r + so.so_rcv.Space() - a < REACH
      requires Carries(irs, Stream(), ti, t) && r <= t.lo && t.hi <= r + so.so_rcv.Space()
      requires EndsRight(Stream(), ti, t) || (ti.data != [] && Provided(segq.spans, t))
      modifies this`rcv_nxt, this`r, this`skipped, this`overrun, segq`segs, segq`spans, so`toHost, so.so_rcv,
               so.so_rcv.data
      ensures so.Valid() && RecvOk() && Presented()
      ensures old(r) <= r <= old(r + so.so_rcv.Space()) <= r + so.so_rcv.Space()
      ensures (fin ==> r == |Stream()|) && (old(r) <= |Stream()| ==> r <= |Stream()|)
      ensures Arrived(old(r)) == old(Cover(segq.spans)) + Range(t)
      ensures !so.fCantSendMore ==> skipped == old(skipped)
      ensures overrun ==> old(overrun) || r > a
      ensures old(so.toHost) <= so.toHost
      ensures ti.fin && !Provided(old(segq.spans), t) ==> fin || HasFin(segq.segs)
      ensures fin || HasFin(segq.segs) ==> old(HasFin(segq.segs)) || ti.fin
    {
      hide At, Diff, U32, Fwd, Handed, Cover, Carries, Pieces, Ordered, RecvVars, HasFin, Provided, EndsRight,
           Sbuf.Valid;
      StillInStream(ti, t);
      segq.Insert(ti, t, r, r + so.so_rcv.Space());
      assert Arrived(r) == Cover(segq.spans);
      fin := Present(host);
    }

    /** Text that is next in line, with nothing waiting in the queue, goes to the host at once. */
    method TakeInOrder(ti: Frag, ghost t: Span, answer: SendAnswer)
      requires so.Valid() && RecvOk() && Presented() && r + so.so_rcv.Space() - a < REACH
      requires Carries(irs, Stream(), ti, t) && r == t.lo && t.hi <= r + so.so_rcv.Space() && segq.segs == []
      modifies this`rcv_nxt, this`r, this`skipped, this`overrun, so`toHost, so.so_rcv, so.so_rcv.data
      ensures so.Valid() && RecvOk() && Presented()
      ensures r == t.hi && old(r + so.so_rcv.Space()) <= r + so.so_rcv.Space()
      ensures Arrived(old(r)) == old(Cover(segq.spans)) + Range(t)
      ensures skipped == old(skipped) && old(so.toHost) <= so.toHost
      ensures overrun ==> old(overrun) || r > a
      ensures rcv_nxt == U32(old(rcv_nxt) + |ti.data|) && so.HandedOver() == old(so.HandedOver()) + ti.data
    {
      hide At, Diff, U32, Fwd, Handed, SegQueue.Valid, Cover, EdgeKept, Socket.HandedOver;
      EmptyQueue(t.hi);
      Deliver(ti.data, false, answer);
    }

    /** TCP_REASS: hands in-order text over at once, and queues everything else. */
    method Reass(ti: Frag, ghost t: Span, host: nat -> SendAnswer) returns (fin: bool)
      requires so.Valid() && RecvOk() && Presented() && r + so.so_rcv.Space() - a < REACH
      requires Carries(irs, Stream(), ti, t) && r <= t.lo && t.hi <= r + so.so_rcv.Space()
      requires EndsRight(Stream(), ti, t) || (ti.data != [] && Provided(segq.spans, t))
      modifies this`rcv_nxt, this`r, this`skipped, this`overrun, this`tf_delack, this`tf_acknow, segq`segs, segq`spans,
               so`toHost, so.so_rcv, so.so_rcv.data
      ensures so.Valid() && RecvOk() && Presented()
      ensures old(r) <= r <= old(r + so.so_rcv.Space()) <= r + so.so_rcv.Space()
      ensures (fin ==> r == |Stream()|) && (old(r) <= |Stream()| ==> r <= |Stream()|)
      ensures Arrived(old(r)) == old(Cover(segq.spans)) + Range(t)
      ensures !so.fCantSendMore ==> skipped == old(skipped)
      ensures overrun ==> old(overrun) || r > a
      ensures old(so.toHost) <= so.toHost && (old(tf_acknow) ==> tf_acknow)
      ensures tf_acknow || tf_delack
      ensures ti.seqno != old(rcv_nxt) ==> tf_acknow
      ensures ti.fin && !Provided(old(segq.spans), t) ==> fin || HasFin(segq.segs)
      ensures fin || HasFin(segq.segs) ==> old(HasFin(segq.segs)) || ti.fin
      ensures old(ti.seqno == rcv_nxt && segq.segs == [] && t_state == TCPS_ESTABLISHED) ==>
                && rcv_nxt == U32(old(rcv_nxt) + |ti.data|) && so.HandedOver() == old(so.HandedOver()) + ti.data
                && fin == ti.fin && segq.segs == []
    {
      hide At, Diff, U32, Fwd, Handed, SegQueue.Valid, Cover, EdgeKept, Socket.HandedOver, Socket.Valid, Sbuf.Valid;
      DiffAt(irs, t.lo, r);
      DiffAt(irs, r, r);
      if ti.seqno == rcv_nxt && segq.segs == [] && t_state == TCPS_ESTABLISHED {
        EmptyQueue(t.hi);
        tf_delack := true;
        fin := ti.fin;
        TakeInOrder(ti, t, host(0));
      } else {
        fin := TcpReass(ti, t, host);
        tf_acknow := true;
      }
    }

    /** An empty queue is valid anywhere. */
    lemma EmptyQueue(lo: int)
      requires so.Valid() && segq.segs == [] && segq.Valid(r, r + so.so_rcv.Space())
      ensures segq.spans == [] && segq.Valid(lo, r + so.so_rcv.Space()) && Cover(segq.spans) == {}
    {
    }

    /** The switch on the state once the guest's FIN has been received. */
    method FinReceived()
      requires so.Valid() && SeqOk() && NoEarlyFin() && TimersOk() && t_state != TCPS_CLOSED
      modifies this`t_state, this`t_rexmt, this`t_persist, this`t_keep, this`t_2msl
      ensures SeqOk() && NoEarlyFin() && TimersOk()
      ensures t_state == AfterGuestFin(old(t_state))
      ensures old(t_state) != TCPS_FIN_WAIT_2 ==> t_rexmt == old(t_rexmt) && t_persist == old(t_persist)
      ensures old(t_state) < TCPS_FIN_WAIT_2 ==> t_2msl == old(t_2msl)
    {
      hide At, Diff, U32, Fwd, Faithful, Window;
      if t_state == TCPS_ESTABLISHED {
        t_state := TCPS_CLOSE_WAIT;
      } else if t_state == TCPS_FIN_WAIT_1 {
        t_state := TCPS_CLOSING;
      } else if t_state == TCPS_FIN_WAIT_2 {
        t_state := TCPS_TIME_WAIT;
        CancelTimers();
        t_2msl := 2 * TCPTV_MSL;
      } else if t_state == TCPS_TIME_WAIT {
        t_2msl := 2 * TCPTV_MSL;
      }
    }

    /** tcp_canceltimers. */
    method CancelTimers()
      modifies this`t_rexmt, this`t_persist, this`t_keep, this`t_2msl
      ensures t_rexmt == t_persist == t_keep == t_2msl == 0
    {
      t_rexmt, t_persist, t_keep, t_2msl := 0, 0, 0, 0;
    }

    /** Once everything before the FIN has been presented, the queue is empty. */
    lemma QueueEmptyAtFin(hi: int)
      requires segq.irs == irs && segq.Valid(r, hi) && Presented() && r == |Stream()|
      ensures segq.segs == [] && segq.spans == [] && segq.Valid(r + 1, hi + 1)
    {
    }

    /** rcv_nxt moves past the guest's FIN. */
    method PassFin()
      requires so.Valid() && RecvOk() && Presented() && r == |Stream()| && r + 1 - a < REACH
      modifies this`rcv_nxt, this`r, this`overrun
      ensures so.Valid() && RecvOk() && Presented() && r == |Stream()| + 1 && segq.segs == [] && segq.spans == []
      ensures overrun ==> old(overrun) || r > a
    {
      hide At, Diff, U32, Fwd, SegQueue.Valid;
      QueueEmptyAtFin(r + so.so_rcv.Space());
      AddAt(irs, r, 1);
      rcv_nxt := U32(rcv_nxt + 1);
      r := r + 1;
      overrun := overrun || r > a;
    }

    /** Takes the FIN that has become contiguous: the host side is shut down, rcv_nxt passes it, the state moves on. */
    method AcceptFin()
      requires so.Valid() && Valid() && t_state != TCPS_CLOSED && !HaveRcvdFin(t_state) && r == |Stream()|
                 && r + 1 - a < REACH
      modifies this`rcv_nxt, this`r, this`overrun, this`tf_acknow, this`t_state, this`t_rexmt, this`t_persist,
               this`t_keep, this`t_2msl, so`noFdRef, so`fCantRcvMore, so`fCantSendMore, so`fwDrain
      ensures so.Valid() && Valid() && tf_acknow
      ensures overrun ==> old(overrun) || r > a
      ensures segq.segs == []
      ensures r == |Stream()| + 1 && t_state == AfterGuestFin(old(t_state)) != TCPS_CLOSED
      ensures old(t_state) != TCPS_FIN_WAIT_2 ==> t_rexmt == old(t_rexmt) && t_persist == old(t_persist)
      ensures old(t_state) < TCPS_FIN_WAIT_2 ==> t_2msl == old(t_2msl)
      ensures so.so_rcv.Space() == old(so.so_rcv.Space())
    {
      hide At, Diff, U32, Fwd, SeqOk, DataOk, RecvOk, Presented, TimersOk, Handed;
      if !HaveRcvdFin(t_state) {
        so.SoFwDrain();
        PassFin();
      }
      tf_acknow := true;
      FinReceived();
    }

    /** The guest has not run so far beyond its advertised window that 32-bit comparisons would fail. */
    ghost predicate WithinReach()
      reads this`r, this`a, so.so_rcv
      requires so.so_rcv.Valid()
    {
      r + so.so_rcv.Space() + 1 - a < REACH
    }

    /** Text (or nothing) without a FIN that is next in line, with nothing waiting in the queue. */
    predicate InOrder(tj: Trimmed, nxt: u32, queue: seq<Frag>, st: int) {
      tj.seqno == nxt && queue == [] && st == TCPS_ESTABLISHED && !tj.hdrFin && !tj.fin && tj.data != []
    }

    /** A FIN, perhaps behind text, that is next in line, with nothing waiting in the queue. */
    predicate FinInOrder(tj: Trimmed, nxt: u32, queue: seq<Frag>, st: int) {
      tj.seqno == nxt && queue == [] && st == TCPS_ESTABLISHED && tj.fin
    }

    /** Text with a FIN bit in its header, and the queue does not have all of that text already. */
    ghost predicate FinBrought(tj: Trimmed, p: int, ss: seq<Span>) {
      tj.data != [] && tj.hdrFin && !Provided(ss, Span(p, p + |tj.data|))
    }

    /** A FIN bit in the header of a segment of which something is left. */
    predicate FinCarried(tj: Trimmed) {
      tj.hdrFin && (tj.data != [] || tj.fin)
    }

    /** The guest's FIN has been taken, or stands in the queue. */
    ghost predicate FinStands()
      reads this`r, segq
    {
      r == |Stream()| + 1 || HasFin(segq.segs)
    }

    lemma NothingBrought(p: int)
      ensures Range(Span(r, Min(r, |Stream()|))) == {} && Range(Span(p, p)) == {}
    {
    }

    /** Merges the text of a segment, unless the guest's FIN is long past. */
    method TakeText(tj: Trimmed, ghost p: int, host: nat -> SendAnswer) returns (fin: bool)
      requires so.Valid() && Valid() && t_state != TCPS_CLOSED && WithinReach()
      requires Fits(irs, Stream(), r, r + so.so_rcv.Space(), tj, p, segq.spans)
      modifies this`rcv_nxt, this`r, this`skipped, this`overrun, this`tf_delack, this`tf_acknow, segq`segs, segq`spans,
               so`toHost, so.so_rcv, so.so_rcv.data
      ensures so.Valid() && Valid()
      ensures old(r) <= r <= old(r + so.so_rcv.Space()) <= r + so.so_rcv.Space()
      ensures fin ==> r == |Stream()| && !HaveRcvdFin(t_state)
      ensures old(r) <= |Stream()| ==> r <= |Stream()|
      ensures Range(Span(old(r), Min(r, |Stream()|))) + Cover(segq.spans)
                == old(Cover(segq.spans)) + Range(Span(p, p + |tj.data|))
      ensures !so.fCantSendMore ==> skipped == old(skipped)
      ensures overrun ==> old(overrun) || r > a
      ensures old(so.toHost) <= so.toHost && (old(tf_acknow) ==> tf_acknow)
      ensures tj.data != [] && !HaveRcvdFin(t_state) ==> tf_acknow || tf_delack
      ensures tj.data != [] && !HaveRcvdFin(t_state) && tj.seqno != old(rcv_nxt) ==> tf_acknow
      ensures InOrder(tj, old(rcv_nxt), old(segq.segs), t_state) ==>
                rcv_nxt == U32(old(rcv_nxt) + |tj.data|) && so.HandedOver() == old(so.HandedOver()) + tj.data && !fin
      ensures FinInOrder(tj, old(rcv_nxt), old(segq.segs), t_state) ==> fin
      ensures FinBrought(tj, p, old(segq.spans)) ==> fin || HasFin(segq.segs)
      ensures fin || HasFin(segq.segs) ==> old(HasFin(segq.segs)) || FinCarried(tj)
      ensures tj.data == [] && !tj.fin ==> !fin && rcv_nxt == old(rcv_nxt) && so.HandedOver() == old(so.HandedOver())
    {
      hide At, Diff, U32, Fwd, SeqOk, DataOk, NoEarlyFin, WindowsOk, TimersOk, RecvOk, Handed, Cover, Range, Sbuf.Valid;
      if 0 < |tj.data| <= 5 && tj.data[0] == 27 {
        tf_acknow := true;
      }
      if (tj.data != [] || tj.fin) && !HaveRcvdFin(t_state) {
        fin := Reass(Frag(tj.seqno, tj.data, tj.hdrFin), Span(p, p + |tj.data|), host);
      } else {
        fin := false;
        assert tj.data == [];
        NothingBrought(p);
      }
    }

    /**
     tcp_input from the label `dodata` to the end of the FIN processing: the text joins the sequencing
     queue, and a FIN that has become contiguous closes the guest's direction.
     */
    method DoData(tj: Trimmed, ghost p: int, host: nat -> SendAnswer)
      requires so.Valid() && Valid() && t_state != TCPS_CLOSED && WithinReach()
      requires Fits(irs, Stream(), r, r + so.so_rcv.Space(), tj, p, segq.spans)
      modifies this`rcv_nxt, this`r, this`skipped, this`overrun, this`tf_delack, this`tf_acknow, this`t_state,
               this`t_rexmt, this`t_persist, this`t_keep, this`t_2msl, segq`segs, segq`spans, so`toHost, so`noFdRef,
               so`fCantRcvMore, so`fCantSendMore, so`fwDrain, so.so_rcv, so.so_rcv.data
      ensures so.Valid() && Valid() && t_state != TCPS_CLOSED && (Open(old(t_state)) <==> Open(t_state))
      ensures old(r) <= r && old(r + so.so_rcv.Space()) <= r + so.so_rcv.Space()
      ensures Range(Span(old(r), Min(r, |Stream()|))) + Cover(segq.spans)
                == old(Cover(segq.spans)) + Range(Span(p, p + |tj.data|))
      ensures !old(so.fCantSendMore) ==> skipped == old(skipped)
      ensures overrun ==> old(overrun) || r > a
      ensures old(so.toHost) <= so.toHost && (old(tf_acknow) ==> tf_acknow)
      ensures tj.data != [] && !HaveRcvdFin(old(t_state)) ==> tf_acknow || tf_delack
      ensures tj.data != [] && !HaveRcvdFin(old(t_state)) && tj.seqno != old(rcv_nxt) ==> tf_acknow
      ensures t_state == old(t_state) || t_state == AfterGuestFin(old(t_state))
      ensures old(t_state) != TCPS_FIN_WAIT_2 ==> t_rexmt == old(t_rexmt) && t_persist == old(t_persist)
      ensures old(t_state) < TCPS_FIN_WAIT_2 ==> t_2msl == old(t_2msl)
      ensures Stranded() ==> old(Stranded())
      ensures FinInOrder(tj, old(rcv_nxt), old(segq.segs), old(t_state)) ==>
                t_state == TCPS_CLOSE_WAIT && r == |Stream()| + 1 && tf_acknow
      ensures FinBrought(tj, p, old(segq.spans)) ==> FinStands()
      ensures FinStands() ==> old(FinStands()) || FinCarried(tj)
      ensures tj.data == [] && !tj.fin ==> CoreNow() == old(CoreNow())
      ensures InOrder(tj, old(rcv_nxt), old(segq.segs), old(t_state)) ==> CoreNow() == DataCore(old(CoreNow()), tj.data)
    {
      hide Valid, At, Cover, Range, Fits, Sbuf.Valid, Socket.HandedOver, U32, Sbuf.Contents, FinBrought, FinCarried,
           InOrder, Fwd, Window;
      RNow();
      AllDropped();
      var fin := TakeText(tj, p, host);
      if fin {
        AcceptFin();
      }
    }

    lemma AllDropped()
      requires so.Valid() && Valid()
      ensures t_state == TCPS_FIN_WAIT_2 ==> so.so_snd.cc == 0
    {
      hide At, DataOk, RecvOk, Presented, NoEarlyFin, WindowsOk, TimersOk, FinMatchesState;
    }

    lemma RNow()
      requires so.Valid() && Valid()
      ensures 0 <= r <= |Stream()| + 1
    {
      hide At, SeqOk, DataOk, NoEarlyFin, WindowsOk, TimersOk, Handed, SegQueue.Valid;
    }

    /** What is left of segment `ti` are its octets at or above rcv_nxt, and its FIN if that is not old. */
    ghost predicate FromLeftEdge(ti: Segment, p0: int, tj: Trimmed, p: int)
      reads this`r
    {
      && p == Max(p0, Min(r, p0 + |ti.data|)) && p0 <= p
      && |tj.data| == p0 + |ti.data| - p && tj.data == ti.data[p - p0..]
      && tj.seqno == At(irs, p) && tj.hdrFin == ti.fin && (tj.fin <==> ti.fin && r <= p0 + |ti.data|)
    }

    /** Drops what lies to the left of rcv_nxt, and an old FIN; if nothing is left an acknowledgment is owed. */
    method TrimLeft(ti: Segment, ghost p0: int) returns (tj: Trimmed, ghost p: int)
      requires rcv_nxt == At(irs, r) && ti.seqno == At(irs, p0) && -REACH < p0 - r && p0 + |ti.data| - r < TWO_31
      modifies this`tf_acknow
      ensures FromLeftEdge(ti, p0, tj, p)
      ensures if p0 < r && tj.data == [] && !tj.fin then tf_acknow else tf_acknow == old(tf_acknow)
      ensures p0 >= r ==> tj == Trimmed(ti.seqno, ti.data, ti.fin, ti.fin)
    {
      hide At, Diff, U32, Max, Min, FromLeftEdge;
      DiffAt(irs, r, p0);
      var fin := ti.fin;
      var todrop := Diff(rcv_nxt, ti.seqno);
      if todrop > 0 {
        if todrop > |ti.data| || (todrop == |ti.data| && !fin) {
          fin := false;
          tf_acknow := true;
          todrop := |ti.data|;
        }
        AddAt(irs, p0, todrop);
        p := p0 + todrop;
        tj := Trimmed(U32(ti.seqno + todrop), ti.data[todrop..], fin, ti.fin);
        LeftEdge(ti, p0, todrop, tj, p);
      } else {
        p := p0;
        tj := Trimmed(ti.seqno, ti.data, fin, ti.fin);
        LeftEdge(ti, p0, 0, tj, p);
      }
    }

    lemma LeftEdge(ti: Segment, p0: int, k: nat, tj: Trimmed, p: int)
      requires k <= |ti.data| && p == p0 + k && k == (if r <= p0 then 0 else if r <= p0 + |ti.data| then r - p0
                 else |ti.data|)
      requires tj.data == (if k == 0 then ti.data else ti.data[k..]) && tj.seqno == At(irs, p) && tj.hdrFin == ti.fin
      requires tj.fin <==> ti.fin && r <= p0 + |ti.data|
      ensures FromLeftEdge(ti, p0, tj, p)
    {
      hide At;
      assert ti.data[0..] == ti.data;
    }

    /** Drops what lies to the right of the window, with PUSH and FIN; a segment wholly outside is refused. */
    method TrimRight(ti: Trimmed, ghost p: int) returns (v: Verdict, tj: Trimmed)
      requires so.Valid() && rcv_nxt == At(irs, r) && 0 <= rcv_wnd < BUFFER
      requires ti.seqno == At(irs, p) && -REACH < p - r && p + |ti.data| - r < TWO_31
      modifies this`tf_acknow
      ensures v == Continue || v == DropAfterAck
      ensures v == DropAfterAck ==> p >= r + rcv_wnd && (rcv_wnd > 0 || p > r) && tf_acknow == old(tf_acknow)
      ensures v == Continue ==>
                && tj.seqno == ti.seqno && tj.hdrFin == ti.hdrFin
                && |tj.data| == Max(0, Min(|ti.data|, r + rcv_wnd - p)) && tj.data == ti.data[..|tj.data|]
                && (tj.fin <==> ti.fin && p + |ti.data| <= r + rcv_wnd)
                && (old(tf_acknow) ==> tf_acknow)
      ensures p + |ti.data| <= r + rcv_wnd ==> v == Continue && tj == ti && tf_acknow == old(tf_acknow)
    {
      hide At, Diff, U32, Fwd;
      AddAt(irs, p, |ti.data|);
      AddAt(irs, r, rcv_wnd);
      DiffAt(irs, p + |ti.data|, r + rcv_wnd);
      DiffAt(irs, p, r);
      DiffAt(irs, r, r);
      v, tj := Continue, ti;
      var todrop := Diff(U32(ti.seqno + |ti.data|), U32(rcv_nxt + rcv_wnd));
      if todrop > 0 {
        if todrop >= |ti.data| {
          if rcv_wnd == 0 && ti.seqno == rcv_nxt {
            tf_acknow := true;
          } else {
            v := DropAfterAck;
            return;
          }
        }
        tj := Trimmed(ti.seqno, ti.data[..|ti.data| - todrop], false, ti.hdrFin);
      }
    }

    /** The right-hand half of trimming: what is left is exactly the text inside the window. */
    method CutRight(ti: Segment, ghost p0: int, left: Trimmed, ghost p: int) returns (v: Verdict, tj: Trimmed)
      requires so.Valid() && RecvOk() && Plausible(irs, Stream(), r, r + so.so_rcv.Space(), ti, p0)
                 && rcv_wnd == so.so_rcv.Space()
      requires FromLeftEdge(ti, p0, left, p)
      modifies this`tf_acknow
      ensures v == Continue || v == DropAfterAck
      ensures v == DropAfterAck ==> p0 >= r + so.so_rcv.Space()
      ensures old(tf_acknow) ==> tf_acknow
      ensures v == Continue ==>
                && tj.hdrFin == ti.fin && (tj.fin <==> ti.fin && r <= p0 + |ti.data| <= r + so.so_rcv.Space())
                && Kept(ti, p0, tj, p) && |tj.data| <= |left.data|
                && (tj.data == [] || FinFits(ti, p0) ==>
                  Fits(irs, Stream(), r, r + so.so_rcv.Space(), tj, p, segq.spans))
      ensures p0 + |ti.data| <= r + so.so_rcv.Space() ==> v == Continue && tj == left && tf_acknow == old(tf_acknow)
    {
      hide At, Diff, U32, Fwd, Plausible, Fits, SegQueue.Valid, FinFits, Kept, RecvOk, Sbuf.Valid, Max, Min;
      WindowNow();
      ghost var hi := r + so.so_rcv.Space();
      PlausibleNear(irs, Stream(), r, hi, ti, p0);
      v, tj := TrimRight(left, p);
      if v == Continue {
        SameLength(p0 + |ti.data|, hi, p, |left.data|);
        FitsAsTrimmed(ti, p0, left, tj, p);
      } else {
        RightOfWindow(p0, p0 + |ti.data|, r, hi, p);
      }
    }

    /**
     Trims an arriving segment to the receive window: what goes on to be queued is exactly the part of
     its text inside the window.
     */
    method TrimToWindow(ti: Segment, ghost p0: int) returns (v: Verdict, tj: Trimmed, ghost p: int)
      requires so.Valid() && Valid() && Plausible(irs, Stream(), r, r + so.so_rcv.Space(), ti, p0)
                 && rcv_wnd == so.so_rcv.Space()
      modifies this`tf_acknow
      ensures so.Valid() && Valid()
      ensures v == DropAfterAck ==> p0 >= r + so.so_rcv.Space()
      ensures v == DropWithReset ==> so.noFdRef && t_state > TCPS_CLOSE_WAIT
      ensures v != Drop && (old(tf_acknow) ==> tf_acknow)
      ensures v == Continue ==>
                && tj.hdrFin == ti.fin && (tj.fin <==> ti.fin && r <= p0 + |ti.data| <= r + so.so_rcv.Space())
                && Kept(ti, p0, tj, p)
                && (so.noFdRef && t_state > TCPS_CLOSE_WAIT ==> tj.data == [])
                && (tj.data == [] || FinFits(ti, p0) ==>
                  Fits(irs, Stream(), r, r + so.so_rcv.Space(), tj, p, segq.spans))
      ensures p0 >= r && p0 + |ti.data| <= r + so.so_rcv.Space() && t_state <= TCPS_CLOSE_WAIT ==>
                && v == Continue && tf_acknow == old(tf_acknow)
                && tj == Trimmed(ti.seqno, ti.data, ti.fin, ti.fin)
    {
      hide Valid, At, Diff, U32, Fwd, Plausible, Fits, SegQueue.Valid, FinFits, Kept, RecvOk, Sbuf.Valid, FromLeftEdge;
      RecvIsOk();
      WindowNow();
      PlausibleNear(irs, Stream(), r, r + so.so_rcv.Space(), ti, p0);
      tj, p := TrimLeft(ti, p0);
      if so.noFdRef && t_state > TCPS_CLOSE_WAIT && tj.data != [] {
        v := DropWithReset;
      } else {
        v, tj := CutRight(ti, p0, tj, p);
      }
    }

    lemma SameLength(e: int, hi: int, p: int, n: int)
      requires n == e - p >= 0
      ensures Max(0, Min(n, hi - p)) == Max(0, Min(e, hi) - p) <= n
    {
    }

    lemma RightOfWindow(p0: int, e: int, r: int, hi: int, p: int)
      requires p == Max(p0, Min(r, e)) && p >= hi >= r && (hi > r || p > r)
      ensures p0 >= hi
    {
    }

    lemma RecvIsOk()
      requires so.Valid() && Valid()
      ensures RecvOk()
    {
    }

    lemma WindowNow()
      requires so.Valid() && RecvOk()
      ensures rcv_nxt == At(irs, r) && 0 <= r && 0 <= so.so_rcv.Space() < BUFFER && segq.Valid(r, r + so.so_rcv.Space())
    {
      hide At, Handed, SegQueue.Valid, EdgeKept;
    }

    lemma FitsAsTrimmed(ti: Segment, p0: int, left: Trimmed, tj: Trimmed, p: int)
      requires so.Valid() && 0 <= r && segq.Valid(r, r + so.so_rcv.Space())
                 && Plausible(irs, Stream(), r, r + so.so_rcv.Space(), ti, p0)
      requires p == Max(p0, Min(r, p0 + |ti.data|))
                 && |tj.data| == Max(0, Min(p0 + |ti.data|, r + so.so_rcv.Space()) - p)
      requires tj.seqno == At(irs, p) && left.data == ti.data[p - p0..] && tj.data == left.data[..|tj.data|]
                 && tj.hdrFin == ti.fin
      requires tj.fin <==> ti.fin && r <= p0 + |ti.data| <= r + so.so_rcv.Space()
      ensures tj.data == [] || FinFits(ti, p0) ==> Fits(irs, Stream(), r, r + so.so_rcv.Space(), tj, p, segq.spans)
      ensures Kept(ti, p0, tj, p)
    {
      var hi := r + so.so_rcv.Space();
      assert forall i :: 0 <= i < |segq.spans| ==> r <= segq.spans[i].lo && segq.spans[i].hi <= hi;
      hide At, Plausible, Range, Fits, Provided, SegQueue.Valid, InWindow, Kept, Max, Min;
      if tj.data == [] || FinFits(ti, p0) {
        TrimmedFits(irs, Stream(), r, hi, ti, p0, tj, p, segq.spans);
      }
      IsKept(ti, p0, tj, p);
    }

    lemma IsKept(ti: Segment, p0: int, tj: Trimmed, p: int)
      requires so.so_rcv.Valid() && p == Max(p0, Min(r, p0 + |ti.data|))
      requires |tj.data| == Max(0, Min(p0 + |ti.data|, r + so.so_rcv.Space()) - p)
      ensures Kept(ti, p0, tj, p)
    {
      KeptIsInWindow(p0, p0 + |ti.data|, r, r + so.so_rcv.Space(), p, |tj.data|);
    }

    /** What trimming leaves of the text is its part inside the window. */
    ghost predicate Kept(ti: Segment, p0: int, tj: Trimmed, p: int)
      reads this`r, so.so_rcv
      requires so.so_rcv.Valid()
    {
      && p == Max(p0, Min(r, p0 + |ti.data|)) && |tj.data| == Max(0, Min(p0 + |ti.data|, r + so.so_rcv.Space()) - p)
      && Range(Span(p, p + |tj.data|)) == InWindow(ti, p0)
    }

    /**
     Trimming does not cut a FIN off that TCP_REASS would then still see: the FIN does not lie beyond the
     window with text before it inside, or the stream ends at the edge anyway, or the queue has that text.
     */
    ghost predicate FinFits(ti: Segment, p0: int)
      reads this`r, segq, so.so_rcv
      requires so.so_rcv.Valid()
    {
      var hi := r + so.so_rcv.Space();
      FinBeyond(r, hi, ti, p0) ==> |Stream()| == hi || Provided(segq.spans, Span(p0, hi))
    }

    /** tcp_xmit_timer: a round trip of `rtt` ticks has been measured. */
    method XmitTimer(rtt: int)
      modifies this`t_srtt, this`t_rttvar, this`t_rtt, this`t_rxtshift, this`t_rxtcur
      ensures Estimate(t_srtt, t_rttvar) == Sampled(old(Estimate(t_srtt, t_rttvar)), rtt)
      ensures t_rtt == 0 && t_rxtshift == 0
      ensures t_rxtcur == RangeSet(RexmtVal(Estimate(t_srtt, t_rttvar)), TCPTV_MIN, TCPTV_REXMTMAX)
    {
      hide S16, RangeSet;
      if t_srtt != 0 {
        var delta := S16(rtt - 1 - t_srtt / 8);
        t_srtt := S16(t_srtt + delta);
        if t_srtt <= 0 {
          t_srtt := 1;
        }
        if delta < 0 {
          delta := S16(-delta);
        }
        delta := S16(delta - t_rttvar / 4);
        t_rttvar := S16(t_rttvar + delta);
        if t_rttvar <= 0 {
          t_rttvar := 1;
        }
      } else {
        t_srtt := S16(rtt * 8);
        t_rttvar := S16(rtt * 2);
      }
      t_rtt := 0;
      t_rxtshift := 0;
      t_rxtcur := RangeSet(RexmtVal(Estimate(t_srtt, t_rttvar)), TCPTV_MIN, TCPTV_REXMTMAX);
    }

    /** tcp_close: the queue is freed and the control block is gone. */
    method TcpClose()
      requires so.Valid() && SeqOk() && DataOk() && NoEarlyFin() && WindowsOk() && RecvOk() && TimersOk()
      modifies this`t_state, segq`segs, segq`spans
      ensures so.Valid() && Valid() && t_state == TCPS_CLOSED && segq.segs == []
    {
      hide At, Diff, U32, Fwd, DataOk, Handed, SegQueue.Valid, WindowsOk;
      t_state := TCPS_CLOSED;
      segq.Clear();
    }

    /** Removes acknowledged bytes from so_snd, and from the window they were sent in. */
    method DropFromWindow(acked: nat) returns (ourfinisacked: bool)
      requires so.Valid()
      modifies this`snd_wnd, so.so_snd
      ensures so.Valid() && (ourfinisacked <==> acked > old(so.so_snd.cc))
      ensures snd_wnd == U32(old(snd_wnd) - Min(acked, old(so.so_snd.cc)))
      ensures so.so_snd.Contents() == old(so.so_snd.Contents())[Min(acked, old(so.so_snd.cc))..]
    {
      hide U32, Fwd, Window, Sbuf.Contents, Sbuf.Valid;
      var notify;
      if acked > so.so_snd.cc {
        snd_wnd := U32(snd_wnd - so.so_snd.cc);
        notify := so.so_snd.SbDrop(so.so_snd.cc);
        ourfinisacked := true;
      } else {
        notify := so.so_snd.SbDrop(acked);
        snd_wnd := U32(snd_wnd - acked);
        ourfinisacked := false;
      }
    }

    ghost function SendingNow(): (b: Sending)
      reads this`snd_una, this`snd_nxt, this`snd_max, this`snd_wnd, this`u, this`x, so.so_snd, so.so_snd.data
      requires so.so_snd.Valid()
    {
      Sending(snd_una, snd_nxt, snd_max, snd_wnd, u, x, so.so_snd.Contents())
    }

    /** What acknowledgment `ack` does to the send side `b`: the acknowledged bytes leave so_snd and the window. */
    ghost predicate Acked(ack: u32, b: Sending)
      reads this`snd_una, this`snd_nxt, this`snd_max, this`snd_wnd, this`u, this`x, this`m, so.so_snd, so.so_snd.data
      requires so.so_snd.Valid()
    {
      var k := Diff(ack, b.una);
      && 0 < k && snd_una == ack && u == b.u + k <= m && x == Max(b.x, u)
      && (b.nxt == b.max ==> snd_nxt == b.nxt)
      && snd_wnd == U32(b.wnd - Min(k, |b.q|))
      && so.so_snd.Contents() == b.q[Min(k, |b.q|)..]
    }

    /** snd_una moves to the acknowledgment, and snd_nxt is not left behind; `cc` is what so_snd held before. */
    method MoveUna(ack: u32, ghost cc: int)
      requires SendVars(iss, snd_una, snd_nxt, snd_max, u, x, m, |so.fromHost|, cc, tf_sentfin, t_state)
                 && t_state != TCPS_CLOSED
      requires SeqGt(ack, snd_una) && !SeqGt(ack, snd_max)
      modifies this`snd_una, this`snd_nxt, this`u, this`x
      ensures var k := Diff(ack, old(snd_una));
              && 0 < k && u == old(u) + k <= m && snd_una == ack && x == Max(old(x), u)
              && (old(snd_nxt) == snd_max ==> snd_nxt == old(snd_nxt))
              && (k > cc <==> u == |so.fromHost| + 1) && (k > cc ==> Closing(t_state))
              && SendVars(iss, snd_una, snd_nxt, snd_max, u, x, m, |so.fromHost|, Max(cc - k, 0), tf_sentfin,
                          if k > cc then AfterFinAcked(t_state) else t_state)
    {
      hide At, Diff, U32, SeqLt, SeqGt, SendVars, AfterFinAcked;
      SendAcked(iss, snd_una, snd_nxt, snd_max, u, x, m, |so.fromHost|, cc, tf_sentfin, t_state, ack);
      u := u + Diff(ack, snd_una);
      snd_una := ack;
      if SeqLt(snd_nxt, snd_una) {
        snd_nxt := snd_una;
      }
      x := Max(x, u);
    }

    /** Dropping acknowledged bytes keeps so_snd in step with the stream. */
    lemma StillInStep(q: seq<u8>, u0: int, k: int)
      requires so.so_snd.Valid() && 0 <= u0 <= |so.fromHost| + 1 && q == so.fromHost[Min(u0, |so.fromHost|)..]
                 && 0 <= k && u == u0 + k
      requires so.so_snd.Contents() == q[Min(k, |q|)..] && so.so_snd.data.Length < BUFFER
      requires forall e :: e in wire ==> Faithful(iss, irs, so.fromHost, e)
      ensures DataOk() && so.so_snd.cc == Max(|q| - k, 0)
    {
      hide At, Window, Fwd, Faithful;
      SliceTwice(so.fromHost, u0, |q|, k);
    }

    /** The retransmission queue gives up what has been acknowledged; snd_una and snd_nxt follow. */
    method DropAcked(ack: u32) returns (ourfinisacked: bool)
      requires so.Valid() && SeqOk() && DataOk() && t_state != TCPS_CLOSED
      requires SeqGt(ack, snd_una) && !SeqGt(ack, snd_max)
      modifies this`snd_wnd, this`snd_una, this`snd_nxt, this`u, this`x, so.so_snd
      ensures so.Valid() && DataOk()
      ensures SendVars(iss, snd_una, snd_nxt, snd_max, u, x, m, |so.fromHost|, so.so_snd.cc, tf_sentfin,
                       if ourfinisacked then AfterFinAcked(t_state) else t_state)
      ensures ourfinisacked <==> u == |so.fromHost| + 1
      ensures ourfinisacked ==> Closing(t_state)
      ensures Acked(ack, old(SendingNow()))
    {
      hide Window, Sbuf.Valid, At, Diff, U32, Fwd, Sbuf.Contents, Faithful, SeqLt, SeqGt, SeqLeq, AfterFinAcked,
           SendVars;
      ghost var b := SendingNow();
      var acked := Diff(ack, snd_una);
      AckIsAhead(ack);
      ourfinisacked := DropFromWindow(acked);
      MoveUna(ack, |b.q|);
      StillInStep(b.q, b.u, acked);
    }

    lemma AckIsAhead(ack: u32)
      requires so.Valid() && SeqOk() && SeqGt(ack, snd_una)
      ensures 0 < Diff(ack, snd_una) && 0 <= u <= |so.fromHost| + 1
    {
      hide At, Diff;
    }

    /** A measured round trip ends the backoff; otherwise the estimate and the timeout stay. */
    function RttAfter(ack: u32): (e: (Estimate, int))
      reads this`t_rtt, this`t_rtseq, this`t_srtt, this`t_rttvar, this`t_rxtcur
    {
      if t_rtt != 0 && SeqGt(ack, t_rtseq) then
        var est := Sampled(Estimate(t_srtt, t_rttvar), t_rtt);
        (est, RangeSet(RexmtVal(est), TCPTV_MIN, TCPTV_REXMTMAX))
      else
        (Estimate(t_srtt, t_rttvar), t_rxtcur)
    }

    /** The retransmit timer after acknowledgment `ack`: off when all is acknowledged, else restarted. */
    function RexmtAfter(ack: u32): (t: int)
      reads this`snd_max, this`t_persist, this`t_rexmt, this`t_rtt, this`t_rtseq, this`t_srtt, this`t_rttvar,
            this`t_rxtcur
    {
      if ack == snd_max then 0 else if t_persist == 0 then RttAfter(ack).1 else t_rexmt
    }

    /** Round-trip sample and retransmit timer for a new acknowledgment. */
    method RestartTimers(ack: u32) returns (needoutput: bool)
      requires TimersOk()
      modifies this`t_srtt, this`t_rttvar, this`t_rtt, this`t_rxtshift, this`t_rxtcur, this`t_rexmt
      ensures TimersOk() && (needoutput <==> ack == snd_max) && (needoutput || t_rexmt > 0 || t_persist > 0)
      ensures (Estimate(t_srtt, t_rttvar), t_rxtcur) == old(RttAfter(ack)) && t_rexmt == old(RexmtAfter(ack))
    {
      hide RangeSet, Sampled, SeqGt;
      if t_rtt != 0 && SeqGt(ack, t_rtseq) {
        XmitTimer(t_rtt);
      }
      needoutput := false;
      if ack == snd_max {
        t_rexmt := 0;
        needoutput := true;
      } else if t_persist == 0 {
        t_rexmt := t_rxtcur;
      }
    }

    /** The congestion window grows by a segment per acknowledgment below the threshold, more slowly above it. */
    method OpenWindow()
      requires TimersOk()
      modifies this`snd_cwnd
      ensures snd_cwnd <= TCP_MAXWIN
      ensures old(snd_cwnd) <= snd_ssthresh && old(snd_cwnd) + t_maxseg <= TCP_MAXWIN ==>
                snd_cwnd == old(snd_cwnd) + t_maxseg
    {
      var cw := snd_cwnd;
      var incr := t_maxseg;
      if cw > snd_ssthresh {
        incr := U32(incr * incr) / cw;
      }
      snd_cwnd := Min(U32(cw + incr), TCP_MAXWIN);
    }

    /** The state after our FIN has been acknowledged, if the connection lasts. */
    method MoveOn(st: int)
      requires so.Valid() && DataOk() && NoEarlyFin() && WindowsOk() && RecvOk() && Presented() && FinMatchesState()
                 && TimersOk()
      requires Closing(t_state) && st == AfterFinAcked(t_state) != TCPS_CLOSED
      requires SendVars(iss, snd_una, snd_nxt, snd_max, u, x, m, |so.fromHost|, so.so_snd.cc, tf_sentfin, st)
      modifies this`t_state
      ensures so.Valid() && Valid() && t_state == st && so.so_snd.cc == 0
    {
      hide At, DataOk, RecvOk, Presented, WindowsOk;
      t_state := st;
    }

    /** tcp_canceltimers on a connection as it is. */
    method StopAll()
      requires so.Valid() && Valid()
      modifies this`t_rexmt, this`t_persist, this`t_keep, this`t_2msl
      ensures so.Valid() && Valid()
    {
      hide At, SeqOk, DataOk, RecvOk, WindowsOk, Presented, NoEarlyFin, FinMatchesState;
      CancelTimers();
    }

    /** The state switch after an acknowledgment that covered our FIN. */
    method FinAcked() returns (closed: bool)
      requires so.Valid() && DataOk() && NoEarlyFin() && WindowsOk() && RecvOk() && Presented() && FinMatchesState()
                 && TimersOk()
      requires Closing(t_state)
      requires SendVars(iss, snd_una, snd_nxt, snd_max, u, x, m, |so.fromHost|, so.so_snd.cc, tf_sentfin,
                 AfterFinAcked(t_state))
      modifies this`t_state, this`t_rexmt, this`t_persist, this`t_keep, this`t_2msl, segq`segs, segq`spans
      ensures so.Valid() && Valid() && t_state == AfterFinAcked(old(t_state)) && (closed <==> t_state == TCPS_CLOSED)
      ensures !closed ==> segq.segs == old(segq.segs) && segq.spans == old(segq.spans) && so.so_snd.cc == 0
    {
      hide Valid, At, Diff, U32, Fwd, DataOk, RecvOk, SendVars, Presented, WindowsOk;
      closed := false;
      if t_state == TCPS_FIN_WAIT_1 {
        if so.fCantRcvMore {
          t_2msl := TCP_MAXIDLE;
        }
        MoveOn(TCPS_FIN_WAIT_2);
      } else if t_state == TCPS_CLOSING {
        MoveOn(TCPS_TIME_WAIT);
        StopAll();
        t_2msl := 2 * TCPTV_MSL;
      } else {
        t_state := TCPS_CLOSED;
        TcpClose();
        closed := true;
      }
    }

    /** Half the current flight size, in whole segments, but at least two. */
    method HalveThreshold()
      requires TimersOk()
      modifies this`snd_ssthresh
    {
      var win := Min(snd_wnd, snd_cwnd) / 2 / t_maxseg;
      if win < 2 {
        win := 2;
      }
      snd_ssthresh := U32(win * t_maxseg);
    }

    /** Back to snd_una: everything from there on counts as unsent again. */
    method Rewind()
      requires so.Valid() && Valid()
      modifies this`snd_nxt, this`x
      ensures so.Valid() && Valid() && x == u
    {
      hide At, Diff, U32, SendVars, Fwd, DataOk, RecvOk, WindowsOk, Presented, NoEarlyFin, FinMatchesState, TimersOk;
      SendRewindHere(u);
      snd_nxt := snd_una;
      x := u;
    }

    lemma SendRewindHere(x': int)
      requires so.Valid() && SeqOk()
      ensures u <= x' <= m ==>
                && SendVars(iss, snd_una, At(iss, x'), snd_max, u, x', m, |so.fromHost|, so.so_snd.cc, tf_sentfin,
                  t_state)
                && (SeqGt(At(iss, x'), snd_nxt) <==> x' > x)
      ensures snd_una == At(iss, u) && snd_nxt == At(iss, x) && u <= x <= m
    {
      hide At, Diff, U32, Fwd;
      if u <= x' <= m {
        SendRewind(iss, snd_una, snd_nxt, snd_max, u, x, m, |so.fromHost|, so.so_snd.cc, tf_sentfin, t_state, x');
      }
    }

    /** Goes on to `onxt` if that is further ahead: what lies before it need not be sent again. */
    method Forward(onxt: u32, ghost ox: int)
      requires so.Valid() && SeqOk() && onxt == At(iss, ox) && u <= ox <= m
      modifies this`snd_nxt, this`x
      ensures SeqOk() && x == Max(old(x), ox)
    {
      hide At, Diff, U32, SendVars, SeqGt, Fwd;
      SendRewindHere(ox);
      if SeqGt(onxt, snd_nxt) {
        snd_nxt := onxt;
      }
      x := Max(x, ox);
    }

    /** Stops the retransmit timer and the round-trip measurement. */
    method StopTiming()
      requires TimersOk()
      modifies this`t_rexmt, this`t_rtt
      ensures TimersOk() && t_rexmt == 0 && t_rtt == 0
    {
      t_rexmt := 0;
      t_rtt := 0;
    }

    /** Half the threshold, no timer, a window of one segment. */
    method ShrinkWindow()
      requires so.Valid() && Valid()
      modifies this`t_rexmt, this`t_rtt, this`snd_cwnd, this`snd_ssthresh
      ensures so.Valid() && Valid() && t_rexmt == 0 && snd_cwnd == t_maxseg
    {
      hide At, Diff, U32, Fwd, SeqOk, DataOk, RecvOk, Presented, WindowsOk, NoEarlyFin, Socket.Valid, TimersOk,
           FinMatchesState;
      HalveThreshold();
      StopTiming();
      SlowStart();
    }

    lemma PlacesNow()
      requires so.Valid() && Valid()
      ensures u <= x <= m && snd_nxt == At(iss, x)
    {
      hide At, DataOk, RecvOk, WindowsOk, Presented, NoEarlyFin, FinMatchesState, TimersOk;
    }

    /** Fast retransmit up to the call of tcp_output: back to snd_una with a window of one segment. */
    method EnterRecovery() returns (ghost ox: int)
      requires so.Valid() && Valid()
      modifies this`snd_nxt, this`x, this`t_rexmt, this`t_rtt, this`snd_cwnd, this`snd_ssthresh
      ensures so.Valid() && Valid() && x == u && t_rexmt == 0 && snd_cwnd == t_maxseg
      ensures ox == old(x) && u <= ox <= m && old(snd_nxt) == At(iss, ox)
    {
      hide Valid, At, Diff, U32, Fwd, SendVars;
      PlacesNow();
      ox := x;
      Rewind();
      ShrinkWindow();
    }

    /** Fast retransmit after tcp_output: the inflated window, and on to where sending had got to. */
    method LeaveRecovery(onxt: u32, ghost ox: int)
      requires so.Valid() && Valid() && u <= ox <= m && onxt == At(iss, ox)
      modifies this`snd_nxt, this`x, this`snd_cwnd
      ensures so.Valid() && Valid() && x == Max(old(x), ox) && snd_cwnd == U32(snd_ssthresh + t_maxseg * t_dupacks)
    {
      hide At, Diff, U32, Fwd, SeqOk, DataOk, RecvOk, Presented, WindowsOk, NoEarlyFin, Socket.Valid, TimersOk,
           FinMatchesState, SendVars;
      snd_cwnd := U32(snd_ssthresh + t_maxseg * t_dupacks);
      Forward(onxt, ox);
    }

    /** Fast retransmit: resends from snd_una and returns to where sending had got to. */
    method FastRetransmit(accepts: nat)
      requires so.Valid() && Valid()
      modifies this`snd_nxt, this`snd_max, this`t_rtt, this`t_rtseq, this`t_rexmt, this`t_persist, this`t_rxtshift,
               this`tf_sentfin, this`x, this`m, this`wire, this`fin_out, this`rcv_adv, this`a, this`tf_acknow,
               this`tf_delack, this`snd_cwnd, this`snd_ssthresh, this`strands
      ensures so.Valid() && Valid() && old(wire) <= wire && old(m) <= m && x >= old(x)
      ensures Fresh(wire, |old(wire)|, old(a), r, a, t_state, t_maxseg)
      ensures |wire| > |old(wire)| ==> StartsAt(wire[|old(wire)|], u)
      ensures Explained(false)
    {
      hide Valid, At, Diff, U32, Fwd, SeqOk, DataOk, RecvOk, Presented, WindowsOk, NoEarlyFin, HeldBack, Fresh,
           Socket.Valid, TimersOk, Strands, FitsOneSegment;
      var onxt := snd_nxt;
      ghost var ox := EnterRecovery();
      var ok := TcpOutput(accepts);
      LeaveRecovery(onxt, ox);
    }

    /**
     Counts an acknowledgment of nothing new if it is a duplicate one of outstanding data, else starts the count
     again.
     */
    method CountDupAck(ack: u32, len: nat, tiwin: u16)
      requires so.Valid() && Valid()
      modifies this`t_dupacks
      ensures so.Valid() && Valid()
      ensures t_dupacks == if len == 0 && tiwin == snd_wnd && t_rexmt != 0 && ack == snd_una
                then S16(old(t_dupacks) + 1) else 0
    {
      hide At, Diff, U32, S16, Fwd, SeqOk, DataOk, RecvOk, Presented, WindowsOk, NoEarlyFin, TimersOk, FinMatchesState;
      if len == 0 && tiwin == snd_wnd {
        if t_rexmt == 0 || ack != snd_una {
          t_dupacks := 0;
        } else {
          t_dupacks := S16(t_dupacks + 1);
        }
      } else {
        t_dupacks := 0;
      }
    }

    /** One segment more of congestion window for each further duplicate. */
    method InflateWindow()
      requires so.Valid() && Valid()
      modifies this`snd_cwnd
      ensures so.Valid() && Valid() && snd_cwnd == U32(old(snd_cwnd) + t_maxseg)
    {
      hide At, Diff, U32, Fwd, SeqOk, DataOk, RecvOk, Presented, WindowsOk, NoEarlyFin, FinMatchesState;
      snd_cwnd := U32(snd_cwnd + t_maxseg);
    }

    /** An acknowledgment of nothing new; `len` is the length of the text that came along. */
    method DupAck(ack: u32, len: nat, tiwin: u16, accepts: nat) returns (v: Verdict)
      requires so.Valid() && Valid() && SeqLeq(ack, snd_una)
      modifies this`snd_nxt, this`snd_max, this`t_rtt, this`t_rtseq, this`t_rexmt, this`t_persist, this`t_rxtshift,
               this`tf_sentfin, this`x, this`m, this`wire, this`fin_out, this`rcv_adv, this`a, this`tf_acknow,
               this`tf_delack, this`snd_cwnd, this`snd_ssthresh, this`strands, this`t_dupacks
      ensures so.Valid() && Valid() && old(wire) <= wire && old(m) <= m
      ensures Fresh(wire, |old(wire)|, old(a), r, a, t_state, t_maxseg)
      ensures v == Drop || v == Continue
      ensures v == Continue ==>
                && wire == old(wire) && snd_nxt == old(snd_nxt) && snd_max == old(snd_max) && x == old(x) && m == old(m)
                && t_rexmt == old(t_rexmt) && t_persist == old(t_persist) && t_rxtshift == old(t_rxtshift)
                && rcv_adv == old(rcv_adv) && a == old(a) && tf_acknow == old(tf_acknow)
                && tf_sentfin == old(tf_sentfin) && strands == old(strands) && snd_cwnd == old(snd_cwnd)
      ensures len > 0 || tiwin != snd_wnd || old(t_rexmt) == 0 || ack != snd_una ==> v == Continue
      ensures S16(old(t_dupacks) + 1) < TCPREXMTTHRESH ==> v == Continue
      ensures v == Drop ==> t_dupacks == S16(old(t_dupacks) + 1) >= TCPREXMTTHRESH
      ensures old(a) <= a && (v == Continue ==> CoreNow() == old(CoreNow()))
      ensures v == Drop ==> Explained(false)
    {
      hide Strands, FitsOneSegment, Valid, CoreNow, At, Diff, U32, S16, HeldBack, Fresh, Socket.Valid, Sbuf.Valid,
           Steady, ClockNow, StartsAt, Usable, Starved, Probe, Max, SeqLeq;
      v := Continue;
      CountDupAck(ack, len, tiwin);
      if t_dupacks < TCPREXMTTHRESH {
        FreshStart(wire, r, a, t_state, t_maxseg);
      } else if t_dupacks == TCPREXMTTHRESH {
        FastRetransmit(accepts);
        v := Drop;
      } else {
        InflateWindow();
        var ok := TcpOutput(accepts);
        v := Drop;
      }
      FreshGrows(wire, |old(wire)|, old(a), r, a, t_state, t_maxseg);
    }

    /** The end of a series of duplicates: the congestion window loses what they had added. */
    method Deflate()
      modifies this`snd_cwnd, this`t_dupacks
      ensures t_dupacks == 0
      ensures snd_cwnd == if old(t_dupacks) > TCPREXMTTHRESH && old(snd_cwnd) > snd_ssthresh then snd_ssthresh
                else old(snd_cwnd)
    {
      if t_dupacks > TCPREXMTTHRESH && snd_cwnd > snd_ssthresh {
        snd_cwnd := snd_ssthresh;
      }
      t_dupacks := 0;
    }

    /** Timers, congestion window and retransmission queue for an acknowledgment of something outstanding. */
    method TakeAck(ack: u32) returns (needoutput: bool, ourfinisacked: bool)
      requires so.Valid() && SeqOk() && DataOk() && TimersOk() && t_state != TCPS_CLOSED
      requires SeqGt(ack, snd_una) && !SeqGt(ack, snd_max)
      modifies this`snd_cwnd, this`t_srtt, this`t_rttvar, this`t_rtt, this`t_rxtshift, this`t_rxtcur, this`t_rexmt,
               this`snd_wnd, this`snd_una, this`snd_nxt, this`u, this`x, so.so_snd
      ensures so.Valid() && DataOk() && TimersOk()
      ensures SendVars(iss, snd_una, snd_nxt, snd_max, u, x, m, |so.fromHost|, so.so_snd.cc, tf_sentfin,
                       if ourfinisacked then AfterFinAcked(t_state) else t_state)
      ensures (ourfinisacked <==> u == |so.fromHost| + 1) && (ourfinisacked ==> Closing(t_state))
      ensures Acked(ack, old(SendingNow()))
      ensures (needoutput <==> ack == snd_max) && (needoutput || t_rexmt > 0 || t_persist > 0)
      ensures (Estimate(t_srtt, t_rttvar), t_rxtcur) == old(RttAfter(ack)) && t_rexmt == old(RexmtAfter(ack))
    {
      hide At, Diff, U32, Fwd, SeqGt, RttAfter, RexmtAfter, SendVars, DataOk, TimersOk, Sbuf.Contents, Acked;
      needoutput := RestartTimers(ack);
      OpenWindow();
      ourfinisacked := DropAcked(ack);
    }

    /** The acknowledgment is of something that was never sent. */
    predicate AckBeyond(ack: u32)
      reads this`snd_una, this`snd_max
    {
      SeqGt(ack, snd_una) && SeqGt(ack, snd_max)
    }

    /** An acknowledgment beyond snd_una: drops what it covers, or is refused if it is beyond snd_max. */
    method NewAck(ack: u32) returns (v: Verdict, needoutput: bool)
      requires so.Valid() && Valid() && t_state != TCPS_CLOSED && SeqGt(ack, snd_una)
      modifies this`snd_cwnd, this`t_dupacks, this`t_srtt, this`t_rttvar, this`t_rtt, this`t_rxtshift, this`t_rxtcur,
               this`t_rexmt, this`snd_wnd, this`snd_una, this`snd_nxt, this`u, this`x, this`t_state, this`t_persist,
               this`t_keep, this`t_2msl, so.so_snd, segq`segs, segq`spans
      ensures so.Valid() && Valid()
      ensures v == DropAfterAck <==> SeqGt(ack, snd_max)
      ensures v == DropAfterAck ==> t_state == old(t_state) && u == old(u) && x == old(x)
      ensures v == DropAfterAck ==> so.so_snd.Contents() == old(so.so_snd.Contents())
      ensures v != DropWithReset && (v == Drop <==> t_state == TCPS_CLOSED)
      ensures v != Drop ==> segq.segs == old(segq.segs) && segq.spans == old(segq.spans)
      ensures v == Continue || v == Drop ==>
                && Acked(ack, old(SendingNow()))
                && (needoutput <==> ack == snd_max)
                && t_state == if u == |so.fromHost| + 1 then AfterFinAcked(old(t_state)) else old(t_state)
      ensures t_state != TCPS_CLOSED && Stranded() ==> (v == Continue && needoutput) || old(Stranded())
      ensures v == Continue && t_state == old(t_state) ==>
                (Estimate(t_srtt, t_rttvar), t_rxtcur) == old(RttAfter(ack)) && t_rexmt == old(RexmtAfter(ack))
                  && t_persist == old(t_persist)
    {
      hide At, Diff, U32, Fwd, SeqGt, RttAfter, RexmtAfter, SendVars, DataOk, RecvOk, Presented, WindowsOk, NoEarlyFin,
           TimersOk, Sbuf.Contents, Acked;
      v, needoutput := Continue, false;
      Deflate();
      if SeqGt(ack, snd_max) {
        v := DropAfterAck;
        return;
      }
      var ourfinisacked;
      needoutput, ourfinisacked := TakeAck(ack);
      if ourfinisacked {
        var closed := FinAcked();
        if closed {
          v := Drop;
        }
      }
    }

    /**
     The receive window as tcp_input computes it from the free space and the advertised edge: it is the free space.
     */
    method SetReceiveWindow()
      requires so.Valid() && Valid()
      modifies this`rcv_wnd
      ensures so.Valid() && Valid() && rcv_wnd == so.so_rcv.Space()
    {
      hide At, Diff, U32, SegQueue.Valid, Handed, Fwd, SeqOk, DataOk, WindowsOk, NoEarlyFin, Presented, FinMatchesState,
           TimersOk;
      if r - a < TWO_31 {
        DiffAt(irs, a, r);
      }
      rcv_wnd := Max(so.so_rcv.Space(), Diff(rcv_adv, rcv_nxt));
    }

    /** Whatever is in the queue, text and FIN, lies below the advertised right edge. */
    ghost predicate QueueInside()
      reads this`a, segq
    {
      (forall k :: k in Cover(segq.spans) ==> k < a) && (HasFin(segq.segs) ==> |Stream()| < a)
    }

    /** The positions of a segment's text that lie inside the receive window. */
    ghost function InWindow(ti: Segment, p0: int): set<int>
      reads this`r, so.so_rcv
      requires so.so_rcv.Valid()
    {
      Range(Span(p0, p0 + |ti.data|)) * Range(Span(r, r + so.so_rcv.Space()))
    }

    /** tcp_close on a connection as it is. */
    method CloseNow()
      requires so.Valid() && Valid()
      modifies this`t_state, segq`segs, segq`spans
      ensures so.Valid() && Valid() && t_state == TCPS_CLOSED
    {
      hide At, SeqOk, DataOk, RecvOk, WindowsOk, TimersOk, Presented, NoEarlyFin, FinMatchesState;
      TcpClose();
    }

    lemma KeptFin(ti: Segment, p0: int, tj: Trimmed, p: int)
      requires so.Valid() && Valid() && Kept(ti, p0, tj, p) && tj.hdrFin == ti.fin
      ensures FinFalls(ti, p0) ==> FinBrought(tj, p, segq.spans)
      ensures Range(Span(p, p + |tj.data|)) == InWindow(ti, p0)
    {
      hide Range, Pieces, InWindow, At, SeqOk, DataOk, Handed, EdgeKept, WindowsOk, TimersOk, NoEarlyFin,
           FinMatchesState;
    }

    /** tcp_input from after header prediction to the acknowledgment processing: window, RST and ACK checks. */
    method Admit(ti: Segment, ghost p0: int) returns (v: Verdict, tj: Trimmed, ghost p: int)
      requires so.Valid() && Valid() && t_state != TCPS_CLOSED
                 && Plausible(irs, Stream(), r, r + so.so_rcv.Space(), ti, p0)
      modifies this`rcv_wnd, this`tf_acknow, this`t_state, segq`segs, segq`spans
      ensures so.Valid() && Valid() && (t_state == old(t_state) || t_state == TCPS_CLOSED)
      ensures t_state == TCPS_CLOSED <==> v == DropWithReset || (v == Drop && ti.rst)
      ensures t_state != TCPS_CLOSED ==> segq.segs == old(segq.segs) && segq.spans == old(segq.spans)
      ensures v == DropAfterAck ==> p0 >= r + so.so_rcv.Space()
      ensures v == Drop ==> ti.rst || !ti.ack
      ensures v == DropWithReset ==> so.noFdRef && old(t_state) > TCPS_CLOSE_WAIT
      ensures old(tf_acknow) ==> tf_acknow
      ensures v == Continue ==>
                && !ti.rst && ti.ack && tj.hdrFin == ti.fin
                  && (tj.fin <==> ti.fin && r <= p0 + |ti.data| <= r + so.so_rcv.Space())
                && Range(Span(p, p + |tj.data|)) == InWindow(ti, p0)
                && (tj.data == [] || old(FinFits(ti, p0)) ==>
                  Fits(irs, Stream(), r, r + so.so_rcv.Space(), tj, p, segq.spans))
                && (tj.data == [] || AckBeyond(ti.ackno) || old(Takes(ti)))
      ensures old(Takes(ti) && FinFalls(ti, p0)) ==> v == Continue && FinBrought(tj, p, old(segq.spans))
      ensures v == Continue ==> Predicts(ti) == old(Predicts(ti)) && GeneralCore(ti) == old(GeneralCore(ti))
      ensures v == Continue ==> FromAhead(ti) == old(FromAhead(ti)) && FinNext(ti) == old(FinNext(ti))
      ensures p0 >= r && p0 + |ti.data| <= r + so.so_rcv.Space() && old(t_state) <= TCPS_CLOSE_WAIT && ti.ack
                && !ti.rst ==>
                v == Continue && tj == Trimmed(ti.seqno, ti.data, ti.fin, ti.fin)
      ensures old(Predicts(ti)) ==> v == Continue && tj == Trimmed(ti.seqno, ti.data, false, false)
    {
      hide Valid, Predicts, GeneralCore, At, Diff, U32, Fwd, SeqOk, DataOk, RecvOk, Presented, WindowsOk, NoEarlyFin,
           TimersOk, Plausible, Fits, Range, InWindow, Kept, FinFits, FinBrought, Provided, AckBeyond, FromAhead,
           FinNext;
      Predicted(ti, p0);
      SetReceiveWindow();
      v, tj, p := TrimToWindow(ti, p0);
      if v == Continue {
        KeptFin(ti, p0, tj, p);
      }
      if v == DropWithReset {
        CloseNow();
        return;
      }
      if v == DropAfterAck {
        return;
      }
      if ti.rst {
        CloseNow();
        v := Drop;
      } else if !ti.ack {
        v := Drop;
      }
    }

    /**
     Takes over the window of a segment that is newer than the one snd_wnd was last taken from (the label `step6`).
     */
    method UpdateWindow(seqno: u32, ack: u32, tiwin: u16) returns (needoutput: bool)
      requires so.Valid()
      modifies this`snd_wnd, this`snd_wl1, this`snd_wl2, this`max_sndwnd
      ensures needoutput == old(WindowNews(snd_wl1, snd_wl2, snd_wnd, seqno, ack, tiwin))
      ensures snd_wnd == if needoutput then tiwin else old(snd_wnd)
      ensures snd_wl1 == (if needoutput then seqno else old(snd_wl1)) && snd_wl2 == if needoutput then ack
                else old(snd_wl2)
      ensures max_sndwnd == if needoutput then Max(old(max_sndwnd), tiwin) else old(max_sndwnd)
      ensures CoreNow() == old(CoreNow()).(wnd := snd_wnd) && old(CoreNow()).wnd == old(snd_wnd)
    {
      needoutput := false;
      if SeqLt(snd_wl1, seqno) || (snd_wl1 == seqno && (SeqLt(snd_wl2, ack) || (snd_wl2 == ack && tiwin > snd_wnd))) {
        snd_wnd := tiwin;
        snd_wl1 := seqno;
        snd_wl2 := ack;
        if snd_wnd > max_sndwnd {
          max_sndwnd := snd_wnd;
        }
        needoutput := true;
      }
    }

    ghost function CoreNow(): (c: Core)
      reads this`rcv_nxt, this`snd_una, this`snd_nxt, this`snd_max, this`snd_wnd, this`t_rexmt, so`toHost, so.so_snd,
            so.so_snd.data, so.so_rcv, so.so_rcv.data
      requires so.Valid()
    {
      Core(rcv_nxt, snd_una, snd_nxt, snd_max, snd_wnd, t_rexmt, so.so_snd.Contents(), so.HandedOver())
    }

    lemma SidesNow()
      requires so.Valid()
      ensures var b, c := SendingNow(), CoreNow();
              && c == Core(rcv_nxt, snd_una, snd_nxt, snd_max, snd_wnd, t_rexmt, so.so_snd.Contents(), so.HandedOver())
              && b == Sending(snd_una, snd_nxt, snd_max, snd_wnd, u, x, so.so_snd.Contents()) && |b.q| == so.so_snd.cc
    {
    }

    lemma AckedMoves(ack: u32, b: Sending)
      requires so.so_snd.Valid() && Acked(ack, b)
      ensures snd_una == ack && b.u < u
    {
    }

    lemma AckedIsCore(ack: u32, b: Sending, c: Core)
      requires so.Valid() && Acked(ack, b) && b.nxt == b.max
      requires c.una == b.una && c.nxt == b.nxt && c.max == b.max && c.sndq == b.q
      requires rcv_nxt == c.rcvNxt && snd_max == c.max && so.HandedOver() == c.handed
      ensures CoreNow() == AckedCore(c, ack, U32(b.wnd - Min(Diff(ack, b.una), |b.q|)), t_rexmt)
    {
      hide Diff, U32, Fwd, Window;
    }

    /** What an acknowledgment beyond snd_una means for the rest of tcp_input. */
    method NewAckSeen(ack: u32) returns (v: Verdict, needoutput: bool)
      requires so.Valid() && Valid() && t_state != TCPS_CLOSED && SeqGt(ack, snd_una)
      modifies this`snd_cwnd, this`t_dupacks, this`t_srtt, this`t_rttvar, this`t_rtt, this`t_rxtshift, this`t_rxtcur,
               this`t_rexmt, this`snd_wnd, this`snd_una, this`snd_nxt, this`u, this`x, this`t_state, this`t_persist,
               this`t_keep, this`t_2msl, so.so_snd, segq`segs, segq`spans
      ensures so.Valid() && Valid() && old(u) <= u
      ensures v == DropAfterAck <==> SeqGt(ack, snd_max)
      ensures v == DropAfterAck ==> t_state == old(t_state)
      ensures v != DropWithReset && (v == Drop <==> t_state == TCPS_CLOSED)
      ensures t_state == TCPS_CLOSED ==> GuestDone(old(t_state))
      ensures v != Drop ==> segq.segs == old(segq.segs) && segq.spans == old(segq.spans)
      ensures v == Continue ==> snd_una == ack
      ensures t_state != TCPS_CLOSED && Stranded() ==> (v == Continue && needoutput) || old(Stranded())
      ensures old(t_state == TCPS_ESTABLISHED && !SeqGt(ack, snd_max) && snd_nxt == snd_max) ==>
                && v == Continue && t_state == TCPS_ESTABLISHED && (needoutput <==> ack == snd_max)
                && CoreNow() == AckedCore(old(CoreNow()), ack,
                  U32(old(snd_wnd) - Min(Diff(ack, old(snd_una)), old(so.so_snd.cc))),
                                          old(RexmtAfter(ack)))
    {
      hide At, Diff, U32, Fwd, SeqGt, RttAfter, RexmtAfter, Valid, Sbuf.Contents, Socket.HandedOver, Acked, AckedCore,
           CoreNow, SendingNow;
      ghost var b, c := SendingNow(), CoreNow();
      SidesNow();
      v, needoutput := NewAck(ack);
      if v == Continue || v == Drop {
        AckedMoves(ack, b);
        if b.nxt == b.max {
          AckedIsCore(ack, b, c);
        }
      }
    }

    /**
     What the acknowledgment processing tells the rest of tcp_input, and its effect on the fields shared with header
     prediction.
     */
    twostate predicate AckProcessed(ack: u32, len: nat, v: Verdict, needoutput: bool)
      requires old(so.Valid()) && so.Valid()
      reads this, so, so.so_snd, so.so_snd.data, so.so_rcv, so.so_rcv.data, segq
    {
      && v != DropWithReset && (t_state == TCPS_CLOSED ==> v == Drop && GuestDone(old(t_state)))
      && (v == Drop && t_state != TCPS_CLOSED ==> len == 0)
      && (t_state != TCPS_CLOSED ==> segq.segs == old(segq.segs) && segq.spans == old(segq.spans))
      && (v == Continue ==> a == old(a) && wire == old(wire) && (old(tf_acknow) ==> tf_acknow))
      && (v == DropAfterAck ==> t_state == old(t_state) && old(AckBeyond(ack)) && a == old(a))
      && (v == Continue ==> !old(AckBeyond(ack)) && (SeqGt(ack, old(snd_una)) ==> snd_una == ack))
      && (old(t_state == TCPS_ESTABLISHED && SeqGt(ack, snd_una) && !SeqGt(ack, snd_max) && snd_nxt == snd_max) ==>
            && v == Continue && t_state == TCPS_ESTABLISHED && (needoutput <==> ack == snd_max)
            && CoreNow() == AckedCore(old(CoreNow()), ack,
              U32(old(snd_wnd) - Min(Diff(ack, old(snd_una)), old(so.so_snd.cc))),
                                      old(RexmtAfter(ack))))
      && (ack == old(snd_una) && len > 0 ==>
            && v == Continue && CoreNow() == old(CoreNow()) && t_state == old(t_state) && !needoutput
            && x == old(x) && m == old(m) && u == old(u) && t_persist == old(t_persist) && snd_cwnd == old(snd_cwnd)
            && t_2msl == old(t_2msl))
      && (old(Explained(false)) ==> Explained(v == Continue && needoutput))
    }

    /** The acknowledgment processing of tcp_input, for a trimmed segment with `len` octets of text. */
    method AckSwitch(ack: u32, len: nat, tiwin: u16, accepts: nat) returns (v: Verdict, needoutput: bool)
      requires so.Valid() && Valid() && t_state != TCPS_CLOSED
      modifies this`snd_cwnd, this`t_dupacks, this`t_srtt, this`t_rttvar, this`t_rtt, this`t_rtseq, this`t_rxtshift,
               this`t_rxtcur, this`t_rexmt, this`snd_wnd, this`snd_una, this`snd_nxt, this`snd_max, this`u, this`x,
               this`m, this`t_state, this`t_persist, this`t_keep, this`t_2msl, this`tf_sentfin, this`wire, this`fin_out,
               this`rcv_adv, this`a, this`tf_acknow, this`tf_delack, this`snd_ssthresh, this`strands, so.so_snd,
               segq`segs, segq`spans
      ensures so.Valid() && Valid() && old(wire) <= wire && old(m) <= m && old(u) <= u && old(a) <= a
      ensures AckProcessed(ack, len, v, needoutput)
    {
      hide CoreNow, SendingNow, Valid, At, Diff, U32, Fwd, SendVars, SeqOk, DataOk, RecvOk, Presented, WindowsOk,
           NoEarlyFin, TimersOk, SeqGt, RttAfter, RexmtAfter, Fresh, Sbuf.Contents, Socket.HandedOver, Acked, AckedCore;
      needoutput := false;
      AckSides(ack);
      if SeqLeq(ack, snd_una) {
        v := DupAck(ack, len, tiwin, accepts);
      } else {
        v, needoutput := NewAckSeen(ack);
      }
    }

    /** The acknowledgment processing as the rest of tcp_input sees it. */
    method Acknowledge(ack: u32, len: nat, tiwin: u16, accepts: nat) returns (v: Verdict, needoutput: bool)
      requires so.Valid() && Valid() && t_state != TCPS_CLOSED
      modifies this, so.so_snd, segq`segs, segq`spans
      ensures r == old(r) && rcv_nxt == old(rcv_nxt) && skipped == old(skipped) && overrun == old(overrun)
      ensures snd_wl1 == old(snd_wl1) && snd_wl2 == old(snd_wl2) && t_maxseg == old(t_maxseg)
      ensures so.Valid() && Valid() && old(wire) <= wire && old(m) <= m && old(u) <= u && old(a) <= a
      ensures AckProcessed(ack, len, v, needoutput)
      ensures t_force == old(t_force)
    {
      hide *;
      v, needoutput := AckSwitch(ack, len, tiwin, accepts);
    }

    lemma AckSides(ack: u32)
      ensures SeqLeq(ack, snd_una) <==> !SeqGt(ack, snd_una)
      ensures ack == snd_una ==> SeqLeq(ack, snd_una)
    {
    }

    /**
     Text from ahead of rcv_nxt, inside the receive window, that acknowledges nothing new, with a sequence number
     above that of the segment from which the send window was last taken.
     */
    predicate FromAhead(ti: Segment)
      reads this`t_state, this`snd_una, this`snd_wl1, this`rcv_nxt, so.so_rcv
      requires so.so_rcv.Valid()
    {
      && t_state == TCPS_ESTABLISHED && ti.ack && !ti.rst && ti.data != [] && ti.ackno == snd_una
      && SeqGt(ti.seqno, rcv_nxt) && SeqLt(snd_wl1, ti.seqno)
      && SeqLeq(U32(ti.seqno + |ti.data|), U32(rcv_nxt + so.so_rcv.Space()))
    }

    lemma AheadMeans(ti: Segment, p0: int)
      requires so.Valid() && Valid() && Plausible(irs, Stream(), r, r + so.so_rcv.Space(), ti, p0)
      ensures FromAhead(ti) ==>
                && r < p0 && p0 + |ti.data| <= r + so.so_rcv.Space() && r < |Stream()| && ti.seqno != rcv_nxt
                && ti.ack && !ti.rst && ti.data != [] && t_state == TCPS_ESTABLISHED && !AckBeyond(ti.ackno)
    {
      hide At, Diff, U32, SeqOk, DataOk, NoEarlyFin, WindowsOk, TimersOk, Handed, SegQueue.Valid, Presented,
           FinMatchesState;
      AddAt(irs, p0, |ti.data|);
      AddAt(irs, r, so.so_rcv.Space());
      DiffAt(irs, p0, r);
      DiffAt(irs, r, r);
      DiffAt(irs, p0 + |ti.data|, r + so.so_rcv.Space());
    }

    /**
     What such a segment leaves of the send side before tcp_output is called: a new window, and an acknowledgment
     owed.
     */
    twostate predicate HeardAhead(ti: Segment)
      reads this, so.so_snd
    {
      && (t_state == TCPS_ESTABLISHED || t_state == TCPS_CLOSE_WAIT) && tf_acknow
      && snd_wnd == ti.win && snd_wl1 == ti.seqno && snd_wl2 == ti.ackno
      && snd_una == old(snd_una) && snd_nxt == old(snd_nxt) && snd_max == old(snd_max)
      && u == old(u) && x == old(x) && m == old(m) && snd_cwnd == old(snd_cwnd)
      && t_rexmt == old(t_rexmt) && t_persist == old(t_persist) && t_2msl == old(t_2msl)
      && t_maxseg == old(t_maxseg) && so.so_snd.cc == old(so.so_snd.cc)
    }

    /**
     Text with a FIN behind it that is next in line, fits, and acknowledges nothing new, with nothing in the queue.
     */
    predicate FinNext(ti: Segment)
      reads this`t_state, this`snd_una, this`rcv_nxt, segq`segs, so.so_rcv
      requires so.so_rcv.Valid()
    {
      && t_state == TCPS_ESTABLISHED && ti.ack && !ti.rst && ti.fin && ti.data != [] && ti.ackno == snd_una
      && ti.seqno == rcv_nxt && segq.segs == [] && |ti.data| <= so.so_rcv.Space()
    }

    lemma FinNextMeans(ti: Segment, p0: int)
      requires so.Valid() && Valid() && Plausible(irs, Stream(), r, r + so.so_rcv.Space(), ti, p0)
      ensures FinNext(ti) ==>
                && p0 == r && p0 + |ti.data| <= r + so.so_rcv.Space() && t_state == TCPS_ESTABLISHED
                && ti.ack && !ti.rst && ti.fin && ti.data != [] && ti.seqno == rcv_nxt
    {
      hide At, Diff, U32, SeqOk, DataOk, NoEarlyFin, WindowsOk, TimersOk, Handed, SegQueue.Valid, Presented,
           FinMatchesState, Plausible;
      if ti.seqno == rcv_nxt {
        NextInLine(ti, p0);
      }
    }

    /** Header prediction's first case: a pure acknowledgment of outstanding data. */
    predicate PredictsAck(ti: Segment)
      reads this`t_state, this`rcv_nxt, this`snd_wnd, this`snd_nxt, this`snd_max, this`snd_una, this`snd_cwnd
    {
      && t_state == TCPS_ESTABLISHED && ti.ack && !ti.fin && !ti.rst && ti.seqno == rcv_nxt && ti.win != 0
        && ti.win == snd_wnd
      && snd_nxt == snd_max && ti.data == []
      && SeqGt(ti.ackno, snd_una) && SeqLeq(ti.ackno, snd_max) && snd_cwnd >= snd_wnd
    }

    /** Header prediction's second case: nothing but text, and that next in line. */
    predicate PredictsData(ti: Segment)
      reads this`t_state, this`rcv_nxt, this`snd_wnd, this`snd_nxt, this`snd_max, this`snd_una, segq`segs, so.so_rcv
      requires so.so_rcv.Valid()
    {
      && t_state == TCPS_ESTABLISHED && ti.ack && !ti.fin && !ti.rst && ti.seqno == rcv_nxt && ti.win != 0
        && ti.win == snd_wnd
      && snd_nxt == snd_max && ti.data != []
      && ti.ackno == snd_una && segq.segs == [] && |ti.data| <= so.so_rcv.Space()
    }

    /** The send window after the general path: replaced if the segment has news, else only reduced. */
    function WindowAfter(ti: Segment): (w: u32)
      reads this`snd_wnd, this`snd_wl1, this`snd_wl2, this`snd_una, so.so_snd
    {
      var w := U32(snd_wnd - Min(Diff(ti.ackno, snd_una), so.so_snd.cc));
      if WindowNews(snd_wl1, snd_wl2, w, ti.seqno, ti.ackno, ti.win) then ti.win else w
    }

    /** The text inside the window is received, and the send window is taken from the segment if it has `news`. */
    twostate predicate TextProcessed(ti: Segment, tj: Trimmed, p: int, news: bool)
      requires old(so.Valid()) && so.Valid()
      reads this, so, so.so_snd, so.so_snd.data, so.so_rcv, so.so_rcv.data, segq
    {
      && (!old(so.fCantSendMore) ==> skipped == old(skipped))
      && (overrun ==> old(overrun) || r > a)
      && (old(tf_acknow) ==> tf_acknow)
      && Range(Span(old(r), Min(r, |Stream()|))) + Cover(segq.spans)
        == old(Cover(segq.spans)) + Range(Span(p, p + |tj.data|))
      && (FinInOrder(tj, old(rcv_nxt), old(segq.segs), old(t_state)) ==> r == |Stream()| + 1 && tf_acknow)
      && (FinBrought(tj, p, old(segq.spans)) ==> FinStands()) && (FinStands() ==> old(FinStands()) || FinCarried(tj))
      && news == WindowNews(old(snd_wl1), old(snd_wl2), old(CoreNow()).wnd, tj.seqno, ti.ackno, ti.win)
      && (tj.data == [] && !tj.fin ==> CoreNow() == old(CoreNow()).(wnd := if news then ti.win else old(CoreNow()).wnd))
      && (InOrder(tj, old(rcv_nxt), old(segq.segs), old(t_state)) ==>
            CoreNow() == DataCore(old(CoreNow()), tj.data).(wnd := if news then ti.win else old(CoreNow()).wnd))
    }

    /**
     The send side while text is received: a new window if there is `news`, and an acknowledgment owed for text from
     ahead.
     */
    twostate predicate SendKept(ti: Segment, tj: Trimmed, news: bool)
      reads this, so.so_snd
    {
      && (news ==> snd_wnd == ti.win && snd_wl1 == tj.seqno && snd_wl2 == ti.ackno)
      && (t_state == old(t_state) || t_state == AfterGuestFin(old(t_state)))
      && (old(t_state) != TCPS_FIN_WAIT_2 ==> t_rexmt == old(t_rexmt) && t_persist == old(t_persist))
      && (old(t_state) < TCPS_FIN_WAIT_2 ==> t_2msl == old(t_2msl))
      && (Stranded() ==> old(Stranded()))
      && (tj.data != [] && !HaveRcvdFin(old(t_state)) && tj.seqno != old(rcv_nxt) ==> tf_acknow)
    }

    /** The general path from the label `step6` on: window information, then text and FIN. */
    method Step6(ti: Segment, tj: Trimmed, ghost p: int, host: nat -> SendAnswer) returns (news: bool)
      requires so.Valid() && Valid() && t_state != TCPS_CLOSED && WithinReach()
      requires Fits(irs, Stream(), r, r + so.so_rcv.Space(), tj, p, segq.spans)
      modifies this`snd_wnd, this`snd_wl1, this`snd_wl2, this`max_sndwnd, this`rcv_nxt, this`r, this`skipped,
               this`overrun, this`tf_delack, this`tf_acknow, this`t_state, this`t_rexmt, this`t_persist, this`t_keep,
               this`t_2msl, segq`segs, segq`spans, so`toHost, so`noFdRef, so`fCantRcvMore, so`fCantSendMore, so`fwDrain,
               so.so_rcv, so.so_rcv.data
      ensures so.Valid() && Valid() && t_state != TCPS_CLOSED && old(so.toHost) <= so.toHost && old(r) <= r
      ensures TextProcessed(ti, tj, p, news)
      ensures SendKept(ti, tj, news)
    {
      hide Valid, At, Fits, WindowNews, Sbuf.Contents, Socket.HandedOver, Sbuf.Valid, Range, Cover, Stranded, FinStands,
           FinBrought, FinCarried, InOrder, FinInOrder, HaveRcvdFin, AfterGuestFin, WithinReach, DataCore, CoreNow;
      DataCoreWindow(CoreNow(), tj.data);
      news := UpdateWindow(tj.seqno, ti.ackno, ti.win);
      DoData(tj, p, host);
    }

    /** The same as the rest of tcp_input sees it. */
    method WindowThenText(ti: Segment, tj: Trimmed, ghost p: int, host: nat -> SendAnswer) returns (news: bool)
      requires so.Valid() && Valid() && t_state != TCPS_CLOSED && WithinReach()
      requires Fits(irs, Stream(), r, r + so.so_rcv.Space(), tj, p, segq.spans)
      modifies this, segq`segs, segq`spans, so`toHost, so`noFdRef, so`fCantRcvMore, so`fCantSendMore, so`fwDrain,
               so.so_rcv, so.so_rcv.data
      ensures u == old(u) && m == old(m) && wire == old(wire) && t_maxseg == old(t_maxseg) && a == old(a)
      ensures snd_una == old(snd_una) && snd_nxt == old(snd_nxt) && snd_max == old(snd_max) && x == old(x)
      ensures snd_cwnd == old(snd_cwnd) && strands == old(strands)
      ensures so.Valid() && Valid() && t_state != TCPS_CLOSED && old(so.toHost) <= so.toHost && old(r) <= r
      ensures TextProcessed(ti, tj, p, news)
      ensures SendKept(ti, tj, news)
      ensures t_force == old(t_force)
    {
      hide *;
      news := Step6(ti, tj, p, host);
    }

    static lemma NewsAhead(wl1: u32, wl2: u32, seqno: u32, ack: u32, win: u16)
      ensures SeqLt(wl1, seqno) ==> forall wnd: u32 :: WindowNews(wl1, wl2, wnd, seqno, ack, win)
    {
    }

    /** The general path for an admitted segment: acknowledgment, window, text. */
    method AckThenText(ti: Segment, tj: Trimmed, ghost p: int, host: nat -> SendAnswer,
      accepts: nat) returns (v: Verdict, needoutput: bool)
      requires so.Valid() && Valid() && t_state != TCPS_CLOSED && WithinReach()
      requires AckBeyond(ti.ackno) || Fits(irs, Stream(), r, r + so.so_rcv.Space(), tj, p, segq.spans)
      modifies this, segq`segs, segq`spans, so`toHost, so`noFdRef, so`fCantRcvMore, so`fCantSendMore, so`fwDrain,
               so.so_snd, so.so_rcv, so.so_rcv.data
      ensures so.Valid() && Valid() && old(wire) <= wire && old(so.toHost) <= so.toHost
      ensures old(r) <= r && old(u) <= u && old(m) <= m
      ensures v != DropWithReset && (t_state == TCPS_CLOSED ==> v == Drop && GuestDone(old(t_state)))
      ensures !old(so.fCantSendMore) ==> skipped == old(skipped)
      ensures old(a) <= a && (overrun ==> old(overrun) || r > old(a))
      ensures v == Continue ==>
                Range(Span(old(r), Min(r, |Stream()|))) + Cover(segq.spans)
                  == old(Cover(segq.spans)) + Range(Span(p, p + |tj.data|))
      ensures v != Continue ==> r == old(r) && (t_state != TCPS_CLOSED ==>
                segq.spans == old(segq.spans) && segq.segs == old(segq.segs))
      ensures v == Drop && t_state != TCPS_CLOSED ==> tj.data == []
      ensures v == DropAfterAck ==> old(AckBeyond(ti.ackno))
      ensures tj.data != [] && !old(GuestDone(t_state)) && !old(AckBeyond(ti.ackno)) ==> v == Continue
      ensures v == Continue && FinBrought(tj, p, old(segq.spans)) ==> FinStands()
      ensures t_state != TCPS_CLOSED && FinStands() ==> old(FinStands()) || FinCarried(tj)
      ensures old(Predicts(ti)) && tj == Trimmed(ti.seqno, ti.data, false, false) ==>
                v == Continue && CoreNow() == old(GeneralCore(ti))
      ensures t_force == old(t_force)
      ensures old(Explained(false)) ==> Explained(v == Continue && needoutput)
      ensures old(FromAhead(ti)) && tj.seqno == ti.seqno != old(rcv_nxt) && tj.data != [] ==>
                v == Continue && needoutput && HeardAhead(ti)
      ensures v == Continue ==> a == old(a)
      ensures old(FinNext(ti)) && tj == Trimmed(ti.seqno, ti.data, true, true) ==>
                v == Continue && r == |Stream()| + 1 && tf_acknow
    {
      NewsAhead(snd_wl1, snd_wl2, tj.seqno, ti.ackno, ti.win);
      hide At, Diff, U32, Fwd, SeqOk, DataOk, RecvOk, Presented, WindowsOk, NoEarlyFin, TimersOk, FinMatchesState,
           RexmtAfter, Fits, WindowNews, Sbuf.Contents, Socket.HandedOver, Range, Cover, AckedCore, DataCore, Valid;
      ghost var c, w := CoreNow(), U32(snd_wnd - Min(Diff(ti.ackno, snd_una), so.so_snd.cc));
      AckedCoreWindow(c, ti.ackno, w, WindowAfter(ti), RexmtAfter(ti.ackno));
      DataCoreWindow(c, tj.data);
      v, needoutput := Acknowledge(ti.ackno, |tj.data|, ti.win, accepts);
      if v == Continue {
        var news := WindowThenText(ti, tj, p, host);
        needoutput := needoutput || news;
      }
    }

    /** A segment with rcv_nxt's own sequence number lies at rcv_nxt's position. */
    lemma NextInLine(ti: Segment, p0: int)
      requires so.Valid() && Valid() && Plausible(irs, Stream(), r, r + so.so_rcv.Space(), ti, p0)
                 && ti.seqno == rcv_nxt
      ensures p0 == r
    {
      hide At, Diff, Handed, SegQueue.Valid;
      DiffAt(irs, p0, r);
      DiffAt(irs, r, r);
    }

    lemma Predicted(ti: Segment, p0: int)
      requires so.Valid() && Valid() && Plausible(irs, Stream(), r, r + so.so_rcv.Space(), ti, p0)
      ensures Predicts(ti) ==>
                && p0 == r && p0 + |ti.data| <= r + so.so_rcv.Space() && t_state <= TCPS_CLOSE_WAIT
                && ti.ack && !ti.rst && !ti.fin
    {
      hide At, Diff, U32, Fwd, SeqGt, SeqLeq, SeqOk, DataOk, Presented, WindowsOk, NoEarlyFin, TimersOk,
           FinMatchesState, Plausible, Handed, SegQueue.Valid;
      if ti.seqno == rcv_nxt {
        NextInLine(ti, p0);
      }
    }

    static lemma EmptyRange(p: int)
      ensures Range(Span(p, p)) == {}
    {
    }

    lemma NothingInWindow(ti: Segment, p0: int)
      requires so.Valid()
      ensures p0 >= r + so.so_rcv.Space() ==> InWindow(ti, p0) == {}
      ensures Range(Span(r, Min(r, |Stream()|))) == {}
      ensures ti.data == [] ==> InWindow(ti, p0) == {}
      ensures forall k :: k in InWindow(ti, p0) ==> k < p0 + |ti.data|
    {
    }

    predicate Predicts(ti: Segment)
      reads this`t_state, this`rcv_nxt, this`snd_wnd, this`snd_nxt, this`snd_max, this`snd_una, this`snd_cwnd,
            segq`segs, so.so_rcv
      requires so.so_rcv.Valid()
    {
      PredictsAck(ti) || PredictsData(ti)
    }

    /** What the fast form makes of a segment that header prediction takes. */
    ghost function PredictedCore(ti: Segment): (c: Core)
      reads this`rcv_nxt, this`snd_una, this`snd_nxt, this`snd_max, this`snd_wnd, this`t_rexmt, this`t_persist,
            this`t_rtt, this`t_rtseq, this`t_srtt, this`t_rttvar, this`t_rxtcur, so`toHost, so.so_snd, so.so_snd.data,
            so.so_rcv, so.so_rcv.data
      requires so.Valid()
    {
      if ti.data == [] then AckedCore(CoreNow(), ti.ackno, snd_wnd, RexmtAfter(ti.ackno))
        else DataCore(CoreNow(), ti.data)
    }

    /** What the general path makes of it. */
    ghost function GeneralCore(ti: Segment): (c: Core)
      reads this`rcv_nxt, this`snd_una, this`snd_nxt, this`snd_max, this`snd_wnd, this`snd_wl1, this`snd_wl2,
            this`t_rexmt, this`t_persist, this`t_rtt, this`t_rtseq, this`t_srtt, this`t_rttvar, this`t_rxtcur,
            so`toHost, so.so_snd, so.so_snd.data, so.so_rcv, so.so_rcv.data
      requires so.Valid()
    {
      if ti.data == [] then AckedCore(CoreNow(), ti.ackno, WindowAfter(ti), RexmtAfter(ti.ackno))
        else DataCore(CoreNow(), ti.data)
    }

    /**
     Header prediction leaves snd_wnd alone where the general path takes the acknowledged bytes out of it and
     then looks at the segment's own window. So both forms agree on text, and on a pure acknowledgment if and
     only if it counts as news about the window.
     */
    lemma PredictionAgreesIff(ti: Segment)
      requires so.Valid() && Valid() && Predicts(ti)
      ensures PredictedCore(ti) == GeneralCore(ti) <==>
                ti.data != [] || WindowNews(snd_wl1, snd_wl2, U32(snd_wnd - Diff(ti.ackno, snd_una)), ti.seqno,
                  ti.ackno, ti.win)
    {
      hide At, Diff, DataOk, RecvOk, Presented, WindowsOk, NoEarlyFin, TimersOk, FinMatchesState, WindowNews,
           RexmtAfter, Socket.HandedOver, Sbuf.Contents;
      if PredictsAck(ti) {
        SeqLeqNotGt(ti.ackno, snd_max);
        SendAcked(iss, snd_una, snd_nxt, snd_max, u, x, m, |so.fromHost|, so.so_snd.cc, tf_sentfin, t_state, ti.ackno);
        AckedCoreWindow(CoreNow(), ti.ackno, snd_wnd, WindowAfter(ti), RexmtAfter(ti.ackno));
        AckedCoreWindow(CoreNow(), ti.ackno, WindowAfter(ti), WindowAfter(ti), RexmtAfter(ti.ackno));
      }
    }

    /**
     It does as long as the window was last taken from a segment not ahead of rcv_nxt whose acknowledgment was
     not ahead of snd_una, that is, while segments arrive in order.
     */
    lemma PredictionAgrees(ti: Segment)
      requires so.Valid() && Valid() && Predicts(ti)
      requires SeqLeq(snd_wl1, rcv_nxt) && -REACH < Diff(snd_wl2, snd_una) <= 0
      ensures PredictedCore(ti) == GeneralCore(ti)
    {
      PredictionAgreesIff(ti);
      hide PredictedCore, GeneralCore, RecvOk, Presented, WindowsOk, NoEarlyFin, TimersOk, FinMatchesState;
      if PredictsAck(ti) {
        SeqLeqNotGt(ti.ackno, snd_max);
        SendAcked(iss, snd_una, snd_nxt, snd_max, u, x, m, |so.fromHost|, so.so_snd.cc, tf_sentfin, t_state, ti.ackno);
        NewsFollows(snd_wl1, snd_wl2, rcv_nxt, snd_una, ti.ackno);
      }
    }

    static lemma NewsFollows(wl1: u32, wl2: u32, nxt: u32, una: u32, ack: u32)
      requires SeqLeq(wl1, nxt) && -REACH < Diff(wl2, una) <= 0 && 0 < Diff(ack, una) <= BUFFER
      ensures SeqLt(wl1, nxt) || wl1 == nxt
      ensures SeqLt(wl2, ack)
    {
    }

    static lemma StaleIsNoNews(wl1: u32, nxt: u32)
      requires SeqGt(wl1, nxt)
      ensures !SeqLt(wl1, nxt) && wl1 != nxt
    {
    }

    /** The text of segment `ti` will not be refused for another reason than its place. */
    predicate Takes(ti: Segment)
      reads this`t_state, this`snd_una, this`snd_max, so`noFdRef
    {
      t_state != TCPS_CLOSED && ti.ack && !ti.rst && !AckBeyond(ti.ackno) && !(so.noFdRef && t_state > TCPS_CLOSE_WAIT)
    }

    /** A FIN beyond the window, with text before it inside the window that the queue does not have yet. */
    ghost predicate FinFalls(ti: Segment, p0: int)
      reads this`r, segq`spans, so.so_rcv
      requires so.so_rcv.Valid()
    {
      var hi := r + so.so_rcv.Space();
      FinBeyond(r, hi, ti, p0) && !Provided(segq.spans, Span(p0, hi))
    }

    lemma GuestNotDone(ti: Segment, p0: int)
      requires so.Valid() && Valid() && (Takes(ti) ==> FinFits(ti, p0))
      ensures Takes(ti) && FinFalls(ti, p0) ==> !GuestDone(t_state) && !AckBeyond(ti.ackno)
    {
      hide At, Diff, U32, Fwd, SeqOk, DataOk, RecvOk, Presented, WindowsOk, NoEarlyFin, TimersOk, Provided, AckBeyond;
    }

    /**
     A segment that ends inside the window leaves everything inside, and nothing overruns it. The parameters are
     rcv_nxt, the edge, whether it had been overrun, whether the FIN stood, and the positions queued, all as they
     were before.
     */
    lemma StillInside(r0: int, a0: int, over: bool, stood: bool, cover: set<int>, brought: set<int>, fin: bool)
      requires so.Valid() && Valid() && a0 <= a && r0 <= r && (overrun ==> over || r > a0) && (over || r0 <= a0)
      requires Range(Span(r0, Min(r, |Stream()|))) + Cover(segq.spans) == cover + brought
      requires forall k :: k in cover || k in brought ==> k < a0
      requires FinStands() ==> stood || fin
      requires stood ==> r0 == |Stream()| + 1 || |Stream()| < a0
      requires fin ==> |Stream()| < a0
      ensures (overrun ==> over) && QueueInside()
    {
      hide Valid, Cover, Range, HasFin;
      FinNow();
      StaysInside(r0, r, |Stream()|, a0, cover, Cover(segq.spans), brought);
    }

    lemma FinNow()
      requires so.Valid() && Valid()
      ensures 0 <= r <= |Stream()| + 1 && (HasFin(segq.segs) ==> r <= |Stream()|) && (!overrun ==> r <= a)
      ensures QueueInside() && FinStands() ==> r == |Stream()| + 1 || |Stream()| < a
    {
      hide At, SeqOk, DataOk, NoEarlyFin, WindowsOk, TimersOk, Handed;
    }

    /** A FIN that ends inside the window stands at the end of the stream. */
    lemma FinInside(ti: Segment, p0: int)
      requires so.Valid() && Valid() && Plausible(irs, Stream(), r, r + so.so_rcv.Space(), ti, p0)
      ensures EndOf(ti, p0) <= a ==> (ti.fin ==> |Stream()| < a) && forall k :: k in InWindow(ti, p0) ==> k < a
    {
      hide At, SeqOk, DataOk, NoEarlyFin, WindowsOk, TimersOk, Handed, SegQueue.Valid;
    }

    /** The general path from the acknowledgment on, for what `Admit` has let through of segment `ti`. */
    method Admitted(ti: Segment, ghost p0: int, tj: Trimmed, ghost p: int, host: nat -> SendAnswer, accepts: nat)
      returns (v: Verdict, needoutput: bool)
      requires so.Valid() && Valid() && t_state != TCPS_CLOSED && WithinReach()
      requires AckBeyond(ti.ackno) || Fits(irs, Stream(), r, r + so.so_rcv.Space(), tj, p, segq.spans)
      requires Range(Span(p, p + |tj.data|)) == InWindow(ti, p0) && tj.hdrFin == ti.fin
      requires EndOf(ti, p0) <= a ==> (ti.fin ==> |Stream()| < a) && forall k :: k in InWindow(ti, p0) ==> k < a
      modifies this, segq`segs, segq`spans, so`toHost, so`noFdRef, so`fCantRcvMore, so`fCantSendMore, so`fwDrain,
               so.so_snd, so.so_rcv, so.so_rcv.data
      ensures so.Valid() && Valid() && old(wire) <= wire && old(so.toHost) <= so.toHost
      ensures old(r) <= r && old(u) <= u && old(m) <= m && old(a) <= a
      ensures v != DropWithReset && (t_state == TCPS_CLOSED ==> v == Drop && GuestDone(old(t_state)))
      ensures !old(so.fCantSendMore) ==> skipped == old(skipped)
      ensures t_state != TCPS_CLOSED && !old(AckBeyond(ti.ackno)) ==>
                TextKept(old(r), old(Cover(segq.spans)), old(InWindow(ti, p0)))
      ensures v != Continue ==> r == old(r) && (t_state != TCPS_CLOSED ==> segq.spans == old(segq.spans))
      ensures old(QueueInside()) && EndOf(ti, p0) <= old(a) ==>
                (overrun ==> old(overrun)) && (t_state != TCPS_CLOSED ==> QueueInside())
      ensures v == DropAfterAck ==> old(AckBeyond(ti.ackno))
      ensures FinBrought(tj, p, old(segq.spans)) && !old(GuestDone(t_state)) && !old(AckBeyond(ti.ackno)) ==>
                v == Continue && FinStands()
      ensures old(Predicts(ti)) && tj == Trimmed(ti.seqno, ti.data, false, false) ==>
                v == Continue && CoreNow() == old(GeneralCore(ti))
      ensures t_force == old(t_force)
      ensures old(Explained(false)) ==> Explained(v == Continue && needoutput)
      ensures old(FromAhead(ti)) && tj.seqno == ti.seqno != old(rcv_nxt) && tj.data != [] ==>
                v == Continue && needoutput && HeardAhead(ti)
      ensures v == Continue ==> a == old(a)
      ensures old(FinNext(ti)) && tj == Trimmed(ti.seqno, ti.data, true, true) ==>
                v == Continue && r == |Stream()| + 1 && tf_acknow
    {
      hide FinNext, FromAhead, HeardAhead, Explained, Predicts, GeneralCore, Valid, InWindow, CoreNow, At, Diff, U32,
           Fwd, SeqOk, DataOk, RecvOk, Presented, WindowsOk, NoEarlyFin, TimersOk, FinMatchesState, RexmtAfter, Fits,
           Provided, FinStands, AckBeyond, GuestDone, WindowNews, Sbuf.Contents, Sbuf.Valid, Socket.HandedOver, Range,
           Cover, AckedCore, DataCore, SeqGt, SeqLeq, HasFin;
      FinNow();
      EmptyRange(p);
      NothingYet();
      v, needoutput := AckThenText(ti, tj, p, host, accepts);
      if v == Continue && old(QueueInside()) && EndOf(ti, p0) <= old(a) {
        StillInside(old(r), old(a), old(overrun), old(FinStands()), old(Cover(segq.spans)), old(InWindow(ti, p0)),
          ti.fin);
      }
    }

    lemma AheadInWindow(ti: Segment, p0: int)
      requires so.Valid()
      ensures r < p0 ==> forall k :: k in InWindow(ti, p0) ==> r < k
    {
    }

    lemma NothingYet()
      ensures Range(Span(r, Min(r, |Stream()|))) == {}
    {
    }

    /**
     The general path of tcp_input, up to the final call of tcp_output: whatever the guest sends, the
     octets received afterwards are those received before and the segment's part inside the window.
     For the segments that header prediction would take, the effect is the same as header prediction's.
     */
    method GeneralPath(ti: Segment, ghost p0: int, host: nat -> SendAnswer, accepts: nat)
      returns (v: Verdict, needoutput: bool)
      requires so.Valid() && Valid() && t_state != TCPS_CLOSED && WithinReach()
      requires Plausible(irs, Stream(), r, r + so.so_rcv.Space(), ti, p0) && (Takes(ti) ==> FinFits(ti, p0))
      modifies this, segq`segs, segq`spans, so`toHost, so`noFdRef, so`fCantRcvMore, so`fCantSendMore, so`fwDrain,
               so.so_snd, so.so_rcv, so.so_rcv.data
      ensures so.Valid() && Valid() && old(wire) <= wire && old(so.toHost) <= so.toHost && old(r) <= r && old(u) <= u
                && old(m) <= m && old(a) <= a
      ensures !old(so.fCantSendMore) ==> skipped == old(skipped)
      ensures v == Continue ==> t_state != TCPS_CLOSED
      ensures t_state != TCPS_CLOSED && ti.ack && !ti.rst && !old(AckBeyond(ti.ackno)) ==>
                TextKept(old(r), old(Cover(segq.spans)), old(InWindow(ti, p0)))
      ensures v != Continue ==> r == old(r) && (t_state != TCPS_CLOSED ==> segq.spans == old(segq.spans))
      ensures old(QueueInside()) && EndOf(ti, p0) <= old(a) ==>
                (overrun ==> old(overrun)) && (t_state != TCPS_CLOSED ==> QueueInside())
      ensures v == DropWithReset ==> t_state == TCPS_CLOSED
      ensures v == DropAfterAck ==> t_state != TCPS_CLOSED
      ensures old(Predicts(ti)) ==> v == Continue && CoreNow() == old(GeneralCore(ti))
      ensures t_force == old(t_force)
      ensures old(Takes(ti) && FinFalls(ti, p0)) ==> v == Continue && FinStands()
      ensures old(Explained(false)) ==> Explained(v == Continue && needoutput)
      ensures old(FromAhead(ti)) ==> v == Continue && needoutput && HeardAhead(ti)
      ensures old(FinNext(ti)) ==> v == Continue && r == |Stream()| + 1 && tf_acknow && a == old(a)
    {
      hide FinNext, FromAhead, Predicts, GeneralCore, Valid, InWindow, CoreNow, At, Diff, U32, Fwd, SeqOk, DataOk,
           RecvOk, Presented, WindowsOk, NoEarlyFin, TimersOk, FinMatchesState, RexmtAfter, Fits, Plausible, Takes,
           FinFalls, FinFits, Provided, FinStands, AckBeyond, GuestDone, WindowNews, Sbuf.Contents, Sbuf.Valid,
           Socket.HandedOver, Range, Cover, AckedCore, DataCore, SeqGt, SeqLeq, HasFin, FinBrought, TextKept,
           QueueInside;
      NothingInWindow(ti, p0);
      FinInside(ti, p0);
      GuestNotDone(ti, p0);
      AheadMeans(ti, p0);
      FinNextMeans(ti, p0);
      needoutput := false;
      ghost var p;
      var tj;
      v, tj, p := Admit(ti, p0);
      if v == Continue {
        v, needoutput := Admitted(ti, p0, tj, p, host, accepts);
      } else if t_state != TCPS_CLOSED {
        NothingTaken(old(r), old(Cover(segq.spans)), old(InWindow(ti, p0)));
      }
    }

    lemma NothingTaken(r0: int, cover: set<int>, brought: set<int>)
      requires r == r0 && Cover(segq.spans) == cover
      ensures brought == {} ==> TextKept(r0, cover, brought)
    {
      NothingYet();
    }

    /** Drops what a predicted acknowledgment covers, without touching the send window. */
    method DropPredicted(ack: u32)
      requires so.Valid() && SeqOk() && DataOk() && t_state == TCPS_ESTABLISHED && snd_nxt == snd_max
      requires SeqGt(ack, snd_una) && !SeqGt(ack, snd_max)
      modifies this`snd_una, this`u, so.so_snd
      ensures so.Valid() && SeqOk() && DataOk() && snd_una == ack && u == old(u) + Diff(ack, old(snd_una)) > old(u)
      ensures Diff(ack, old(snd_una)) <= |old(so.so_snd.Contents())|
      ensures so.so_snd.Contents() == old(so.so_snd.Contents())[Diff(ack, old(snd_una))..]
    {
      hide At, Diff, U32, Fwd, Faithful, SeqGt, Sbuf.Contents;
      SendAcked(iss, snd_una, snd_nxt, snd_max, u, x, m, |so.fromHost|, so.so_snd.cc, tf_sentfin, t_state, ack);
      var acked := Diff(ack, snd_una);
      SliceTwice(so.fromHost, u, so.so_snd.cc, acked);
      hide SendVars;
      var notify := so.so_snd.SbDrop(acked);
      snd_una := ack;
      u := u + acked;
    }

    /** Header prediction's first case, up to tcp_output. */
    method PredictedAck(ti: Segment)
      requires so.Valid() && Valid() && PredictsAck(ti)
      modifies this`t_srtt, this`t_rttvar, this`t_rtt, this`t_rxtshift, this`t_rxtcur, this`t_rexmt, this`snd_una,
               this`u, so.so_snd
      ensures so.Valid() && Valid() && old(u) < u
      ensures CoreNow() == old(PredictedCore(ti))
    {
      hide At, Diff, U32, Fwd, SeqOk, DataOk, RecvOk, Presented, RexmtAfter, RttAfter, SeqGt, SeqLeq, Sbuf.Contents,
           Socket.HandedOver, TimersOk;
      SeqLeqNotGt(ti.ackno, snd_max);
      var all := RestartTimers(ti.ackno);
      DropPredicted(ti.ackno);
    }

    lemma SeqLeqNotGt(s: u32, t: u32)
      ensures SeqLeq(s, t) <==> !SeqGt(s, t)
    {
    }

    /** Header prediction's second case, up to tcp_output. */
    method PredictedData(ti: Segment, ghost p0: int, host: nat -> SendAnswer)
      requires so.Valid() && Valid() && PredictsData(ti) && WithinReach()
                 && Plausible(irs, Stream(), r, r + so.so_rcv.Space(), ti, p0)
      modifies this`rcv_nxt, this`r, this`skipped, this`overrun, this`tf_acknow, so`toHost, so.so_rcv, so.so_rcv.data
      ensures so.Valid() && Valid() && tf_acknow && old(so.toHost) <= so.toHost && skipped == old(skipped)
      ensures overrun ==> old(overrun) || r > old(a)
      ensures p0 == old(r) && r == old(r) + |ti.data|
      ensures Range(Span(old(r), Min(r, |Stream()|))) + Cover(segq.spans)
                == old(Cover(segq.spans)) + old(InWindow(ti, p0))
      ensures CoreNow() == old(PredictedCore(ti))
      ensures !host(0).Takes? ==> so.toHost == old(so.toHost)
    {
      hide Valid, At, Diff, U32, Fwd, Sbuf.Contents, Socket.HandedOver, Plausible;
      NextInLine(ti, p0);
      PlausibleNear(irs, Stream(), r, r + so.so_rcv.Space(), ti, p0);
      EdgeInStream();
      DeliverNext(ti.data, host(0));
      tf_acknow := true;
    }

    /** Text that is next in line, with an empty queue, is handed over. */
    method DeliverNext(data: seq<u8>, answer: SendAnswer)
      requires so.Valid() && Valid() && WithinReach() && segq.segs == [] && |data| <= so.so_rcv.Space()
                 && t_state == TCPS_ESTABLISHED
      requires r + |data| <= |Stream()| && data == Stream()[r..r + |data|]
      modifies this`rcv_nxt, this`r, this`skipped, this`overrun, so`toHost, so.so_rcv, so.so_rcv.data
      ensures so.Valid() && Valid() && r == old(r) + |data| && segq.spans == []
      ensures skipped == old(skipped) && old(so.toHost) <= so.toHost
      ensures overrun ==> old(overrun) || r > a
      ensures rcv_nxt == U32(old(rcv_nxt) + |data|) && so.HandedOver() == old(so.HandedOver()) + data
      ensures !answer.Takes? ==> so.toHost == old(so.toHost)
    {
      hide At, Diff, U32, Fwd, SeqOk, DataOk, NoEarlyFin, WindowsOk, TimersOk, Sbuf.Contents, Socket.HandedOver, Handed,
           SegQueue.Valid;
      EmptyQueue(r + |data|);
      Deliver(data, false, answer);
    }

    /** The retransmit timer and its backoff stand by while nothing arrives. */
    twostate predicate StoodBy()
      reads this`t_rexmt, this`t_persist, this`t_rxtshift, this`u, this`x, this`snd_wnd, this`snd_cwnd, this`t_state,
            this`t_force, this`t_maxseg, so`fromHost, so.so_snd
    {
      t_maxseg == old(t_maxseg) && snd_wnd == old(snd_wnd) && Steady(old(ClockNow()), ClockNow())
    }

    /**
     What tcp_output does to the waiting bytes: it leaves them stranded exactly if `Strands` held, and sends them all
     if they fit one segment and both windows. Everything that belongs to the other direction stays.
     */
    twostate predicate Outputted()
      requires old(so.Valid())
      reads this, so, so.so_snd
    {
      && strands == old(!t_force && Strands())
      && (t_state != TCPS_CLOSED && (t_force ==> old(t_persist) > 0) ==> (Stranded() <==> strands))
      && (old(FitsOneSegment(ClockNow(), t_maxseg)) ==>
            x == u + so.so_snd.cc && (so.so_snd.cc > 0 && old(x) == u ==> t_rexmt > 0))
      && snd_una == old(snd_una) && snd_wnd == old(snd_wnd) && snd_wl1 == old(snd_wl1) && snd_wl2 == old(snd_wl2)
      && rcv_nxt == old(rcv_nxt) && t_maxseg == old(t_maxseg)
      && (snd_cwnd == old(snd_cwnd) || old(snd_max == snd_una && t_idle >= t_rxtcur))
    }

    /** tcp_output as the callers outside see it: it only adds to the wire and leaves both streams alone. */
    method Output(accepts: nat)
      requires so.Valid() && Valid()
      modifies this
      ensures so.Valid() && Valid() && old(wire) <= wire && old(m) <= m && u == old(u) && r == old(r) && old(a) <= a
      ensures t_state == old(t_state) && skipped == old(skipped) && overrun == old(overrun)
      ensures t_force == old(t_force) && t_2msl == old(t_2msl)
      ensures StoodBy() && Outputted() && Explained(false)
      ensures |wire| > |old(wire)| ==> wire[|wire| - 1].rcv == r && wire[|wire| - 1].edge == a
      ensures old(a) < r ==> a == old(a)
      ensures t_force && old(Starved()) && accepts > 0 ==> |wire| > |old(wire)| && Probe(wire[|old(wire)|])
      ensures accepts > 0 && (old(tf_acknow) || t_state == TCPS_CLOSED) ==> |wire| > |old(wire)|
    {
      hide At, Diff, U32, Fwd, SeqOk, DataOk, RecvOk, WindowsOk, Presented, NoEarlyFin, TimersOk, FinMatchesState,
           HeldBack, Strands, FitsOneSegment;
      var ok := TcpOutput(accepts);
    }

    /** The end of tcp_input: answer as the verdict demands. */
    method Conclude(v: Verdict, needoutput: bool, rst: bool, accepts: nat)
      requires so.Valid() && Valid()
      modifies this
      ensures so.Valid() && Valid() && old(wire) <= wire && old(m) <= m && u == old(u) && r == old(r) && old(a) <= a
      ensures t_state == old(t_state) && skipped == old(skipped) && overrun == old(overrun)
      ensures t_force == old(t_force) && t_2msl == old(t_2msl)
      ensures accepts > 0 && (if v == Continue then old(tf_acknow) else v == DropAfterAck && !rst) ==>
                |wire| > |old(wire)|
      ensures old(Explained(v == Continue && needoutput)) ==> Explained(false)
      ensures v == Continue && needoutput ==> Outputted()
      ensures v == Continue && old(tf_acknow) && accepts > 0 ==>
                |wire| > |old(wire)| && wire[|wire| - 1].rcv == r && wire[|wire| - 1].edge == a
      ensures old(a) < r ==> a == old(a)
    {
      hide Strands, FitsOneSegment, ClockNow, At, Diff, U32, Fwd, SeqOk, DataOk, RecvOk, WindowsOk, Presented,
           NoEarlyFin, TimersOk, FinMatchesState;
      if v == Continue {
        if needoutput || tf_acknow {
          Output(accepts);
        }
      } else if v == DropAfterAck && !rst {
        tf_acknow := true;
        Output(accepts);
      }
    }

    /** Text of an acceptable segment is kept, unless the connection is closed. */
    ghost predicate TextKept(r0: int, cover: set<int>, brought: set<int>)
      reads this`r, segq
    {
      Range(Span(r0, Min(r, |Stream()|))) + Cover(segq.spans) == cover + brought
    }

    /** Header prediction, first case: drop what is acknowledged and send more. */
    method InputPredictedAck(ti: Segment, ghost p0: int, accepts: nat)
      requires so.Valid() && Valid() && PredictsAck(ti)
      modifies this, so.so_snd
      ensures so.Valid() && Valid() && old(wire) <= wire && r == old(r) && old(u) <= u && old(m) <= m
                && skipped == old(skipped) && overrun == old(overrun)
      ensures old(a) <= a
      ensures TextKept(old(r), old(Cover(segq.spans)), old(InWindow(ti, p0)))
      ensures t_force == old(t_force) && Explained(false)
    {
      hide Outputted, At, Diff, U32, Fwd, SeqOk, DataOk, RecvOk, WindowsOk, Presented, NoEarlyFin, TimersOk,
           FinMatchesState, RexmtAfter, CoreNow, Range, Cover, AckedCore, SeqGt, SeqLeq, InWindow;
      NothingInWindow(ti, p0);
      PredictedAck(ti);
      if so.so_snd.cc > 0 {
        Output(accepts);
      }
    }

    /** Header prediction, second case: hand the text over and acknowledge it at once. */
    method InputPredictedData(ti: Segment, ghost p0: int, host: nat -> SendAnswer, accepts: nat)
      requires so.Valid() && Valid() && PredictsData(ti) && WithinReach()
                 && Plausible(irs, Stream(), r, r + so.so_rcv.Space(), ti, p0)
      modifies this, so`toHost, so.so_rcv, so.so_rcv.data
      ensures so.Valid() && Valid() && old(wire) <= wire && old(r) <= r && u == old(u) && old(m) <= m
                && skipped == old(skipped)
      ensures old(a) <= a && (overrun ==> old(overrun) || r > old(a))
      ensures old(so.toHost) <= so.toHost && r == p0 + |ti.data|
      ensures TextKept(old(r), old(Cover(segq.spans)), old(InWindow(ti, p0)))
      ensures t_force == old(t_force) && Explained(false)
      ensures DataDone(ti) && (!host(0).Takes? ==> so.toHost == old(so.toHost))
    {
      hide Strands, FitsOneSegment, ClockNow, At, Diff, U32, Fwd, SeqOk, DataOk, RecvOk, WindowsOk, Presented,
           NoEarlyFin, TimersOk, FinMatchesState, Plausible, CoreNow, Range, Cover, DataCore, SeqGt, SeqLeq, InWindow;
      PredictedData(ti, p0, host);
      Output(accepts);
    }

    /** What a predicted segment with text leaves behind, so that the next one can be predicted. */
    twostate predicate DataDone(ti: Segment)
      reads this, so, segq
    {
      && t_state == old(t_state) && r == old(r) + |ti.data| && u == old(u) && snd_una == old(snd_una)
      && snd_wnd == old(snd_wnd) && t_maxseg == old(t_maxseg) && segq.segs == old(segq.segs)
      && so.noFdRef == old(so.noFdRef) && so.fCantRcvMore == old(so.fCantRcvMore)
      && so.fCantSendMore == old(so.fCantSendMore) && skipped == old(skipped)
    }

    /**
     What a segment from ahead leaves behind. If it closes the window on outstanding bytes, they are stranded: the
     acknowledgment it calls for goes out instead of the persist timer being started.
     */
    twostate predicate AheadDone(ti: Segment)
      reads this, so, so.so_snd
    {
      && t_state == TCPS_ESTABLISHED && r == old(r) && rcv_nxt == old(rcv_nxt) && u == old(u)
      && snd_una == old(snd_una) && snd_wnd == ti.win && snd_wl1 == ti.seqno && snd_wl2 == ti.ackno
      && t_maxseg == old(t_maxseg) && t_2msl == old(t_2msl) && so.so_snd.cc == old(so.so_snd.cc)
      && (snd_cwnd == old(snd_cwnd) || old(snd_max == snd_una))
      && (old(!t_force && ti.win == 0 && snd_nxt != snd_una && t_persist == 0 && so.so_snd.cc > 0) ==> Stranded())
      && (old(FitsOneSegment(ClockNow().(wnd := ti.win), t_maxseg)) ==> x == u + so.so_snd.cc)
    }

    /**
     The guest's FIN has been taken and acknowledged; if that overran the advertised edge, the edge stays where it
     was.
     */
    twostate predicate FinDone()
      reads this, segq
    {
      && r == |Stream()| + 1 && |wire| > |old(wire)| && wire[|wire| - 1].rcv == r && wire[|wire| - 1].edge == a
      && (old(a) < r ==> a == old(a))
    }

    lemma QueueAbove()
      requires so.Valid() && Valid()
      ensures forall k :: k in Cover(segq.spans) ==> r < k
    {
      hide At, SeqOk, DataOk, NoEarlyFin, WindowsOk, TimersOk, Handed, EdgeKept;
      forall k | k in Cover(segq.spans)
        ensures r < k
      {
        var i := CoverWitness(segq.spans, k);
      }
    }

    /** Nothing that came in lay at `r0`, so rcv_nxt is there still. */
    lemma NotMoved(r0: int, cover: set<int>, brought: set<int>)
      requires so.Valid() && Valid() && TextKept(r0, cover, brought) && r0 <= r && r0 < |Stream()|
      requires forall k :: k in cover || k in brought ==> r0 < k
      ensures r == r0 && rcv_nxt == At(irs, r0)
      ensures t_state != TCPS_CLOSED ==> !GuestDone(t_state)
    {
      hide At, SeqOk, DataOk, NoEarlyFin, WindowsOk, TimersOk, Handed, SegQueue.Valid, EdgeKept;
      assert r0 !in cover + brought;
      RangeBegins(r0, Min(r, |Stream()|));
    }

    static lemma RangeBegins(lo: int, hi: int)
      ensures lo < hi ==> lo in Range(Span(lo, hi))
    {
    }

    /** The general path and the answer to it. */
    method InputGenerally(ti: Segment, ghost p0: int, host: nat -> SendAnswer, accepts: nat)
      requires so.Valid() && Valid() && t_state != TCPS_CLOSED && WithinReach()
      requires Plausible(irs, Stream(), r, r + so.so_rcv.Space(), ti, p0) && (Takes(ti) ==> FinFits(ti, p0))
      modifies this, segq`segs, segq`spans, so`toHost, so`noFdRef, so`fCantRcvMore, so`fCantSendMore, so`fwDrain,
               so.so_snd, so.so_rcv, so.so_rcv.data
      ensures so.Valid() && Valid() && old(wire) <= wire && old(so.toHost) <= so.toHost
      ensures old(r) <= r && old(u) <= u && old(m) <= m
      ensures !old(so.fCantSendMore) ==> skipped == old(skipped)
      ensures t_state != TCPS_CLOSED && ti.ack && !ti.rst && !old(AckBeyond(ti.ackno)) ==>
                TextKept(old(r), old(Cover(segq.spans)), old(InWindow(ti, p0)))
      ensures old(a) <= a && (old(QueueInside()) && EndOf(ti, p0) <= old(a) ==>
                (overrun ==> old(overrun)) && (t_state != TCPS_CLOSED ==> QueueInside()))
      ensures t_force == old(t_force)
      ensures old(Takes(ti) && FinFalls(ti, p0)) ==>
                t_state != TCPS_CLOSED && FinStands() && (p0 <= old(r) ==> r == |Stream()| + 1)
      ensures old(Explained(false)) ==> Explained(false)
      ensures old(FromAhead(ti)) ==> AheadDone(ti)
      ensures old(FinNext(ti)) && accepts > 0 ==> FinDone()
    {
      hide FinNext, FromAhead, Valid, At, Diff, U32, Fwd, SeqOk, DataOk, RecvOk, WindowsOk, Presented, NoEarlyFin,
           TimersOk, FinMatchesState, RexmtAfter, Plausible, WindowNews, CoreNow, Range, Cover, AckedCore, DataCore,
           SeqGt, SeqLeq, FinStands, Provided, FinFits, PredictsAck, PredictsData, AckBeyond;
      ghost var hi := r + so.so_rcv.Space();
      if Takes(ti) {
        EndsAtEdge(ti, p0);
      }
      AheadMeans(ti, p0);
      QueueAbove();
      AheadInWindow(ti, p0);
      NumbersNow();
      var v, needoutput := GeneralPath(ti, p0, host, accepts);
      if old(FromAhead(ti)) {
        NotMoved(old(r), old(Cover(segq.spans)), old(InWindow(ti, p0)));
      }
      if v == Continue && old(Takes(ti) && FinFalls(ti, p0)) && p0 <= old(r) {
        FinTaken(old(r), old(Cover(segq.spans)), ti, p0, hi);
      }
      Conclude(v, needoutput, ti.rst, accepts);
    }

    /** A segment has arrived: the idle time and the keepalive timer start again. */
    method NotIdle(keepalive: bool)
      requires so.Valid() && Valid()
      modifies this`t_idle, this`t_keep
      ensures so.Valid() && Valid() && t_idle == 0 && t_keep == if keepalive then TCPTV_KEEPINTVL else TCPTV_KEEP_IDLE
    {
      hide At, Diff, U32, Fwd, SeqOk, DataOk, RecvOk, WindowsOk, Presented, NoEarlyFin, TimersOk, FinMatchesState;
      t_idle := 0;
      t_keep := if keepalive then TCPTV_KEEPINTVL else TCPTV_KEEP_IDLE;
    }

    /** The queue has all of the segment's text inside the window already. */
    predicate QueueHas(ti: Segment)
      reads this`rcv_nxt, segq`segs, so.so_rcv
      requires so.so_rcv.Valid()
    {
      exists i :: 0 <= i < |segq.segs| && SeqLeq(segq.segs[i].seqno, ti.seqno)
                  && !SeqLt(U32(segq.segs[i].seqno + |segq.segs[i].data|), U32(rcv_nxt + so.so_rcv.Space()))
    }

    /**
     The segments whose FIN is cut off, with text before it left over, but is seen all the same by TCP_REASS,
     which takes it from the header.
     */
    predicate CutsFin(ti: Segment)
      reads this`t_state, this`snd_una, this`snd_max, this`rcv_nxt, so`noFdRef, segq`segs, so.so_rcv
      requires so.so_rcv.Valid()
    {
      var edge := U32(rcv_nxt + so.so_rcv.Space());
      && Takes(ti) && ti.fin && 0 < so.so_rcv.Space()
      && SeqLt(ti.seqno, edge) && SeqGt(U32(ti.seqno + |ti.data|), edge) && !QueueHas(ti)
    }

    lemma QueuedMeans(ti: Segment, p0: int, i: nat)
      requires so.Valid() && Valid() && Genuine(irs, Stream(), r, ti, p0) && i < |segq.segs|
      ensures |segq.spans| == |segq.segs|
      ensures SeqLeq(segq.segs[i].seqno, ti.seqno) <==> segq.spans[i].lo <= p0
      ensures SeqLt(U32(segq.segs[i].seqno + |segq.segs[i].data|), U32(rcv_nxt + so.so_rcv.Space())) <==>
                segq.spans[i].hi < r + so.so_rcv.Space()
    {
      hide At, Diff, U32, SeqOk, DataOk, NoEarlyFin, WindowsOk, TimersOk, Handed, EdgeKept, Presented, FinMatchesState,
           Agrees;
      DiffAt(irs, segq.spans[i].lo, p0);
      AddAt(irs, segq.spans[i].lo, |segq.segs[i].data|);
      AddAt(irs, r, so.so_rcv.Space());
      DiffAt(irs, segq.spans[i].hi, r + so.so_rcv.Space());
    }

    lemma QueueHasMeans(ti: Segment, p0: int)
      requires so.Valid() && Valid() && Genuine(irs, Stream(), r, ti, p0)
      ensures QueueHas(ti) <==>
                exists i :: 0 <= i < |segq.spans| && segq.spans[i].lo <= p0 && r + so.so_rcv.Space() <= segq.spans[i].hi
    {
      hide Valid, Genuine, SeqLeq, SeqLt, U32;
      SameLengths();
      forall i | 0 <= i < |segq.segs|
        ensures SeqLeq(segq.segs[i].seqno, ti.seqno) <==> segq.spans[i].lo <= p0
        ensures SeqLt(U32(segq.segs[i].seqno + |segq.segs[i].data|), U32(rcv_nxt + so.so_rcv.Space())) <==>
                  segq.spans[i].hi < r + so.so_rcv.Space()
      {
        QueuedMeans(ti, p0, i);
      }
    }

    lemma SameLengths()
      requires so.Valid() && Valid()
      ensures |segq.spans| == |segq.segs|
    {
      hide At, SeqOk, DataOk, NoEarlyFin, WindowsOk, TimersOk, Handed, EdgeKept, Presented, FinMatchesState;
    }

    /** The numbers tell these segments exactly. */
    lemma CutsFinMeans(ti: Segment, p0: int)
      requires so.Valid() && Valid() && Genuine(irs, Stream(), r, ti, p0)
      ensures CutsFin(ti) <==> Takes(ti) && FinFalls(ti, p0)
    {
      hide At, Diff, U32, Handed, EdgeKept, Takes, QueueHas, SegQueue.Valid, SeqOk, DataOk, WindowsOk, NoEarlyFin,
           FinMatchesState, TimersOk, Presented, Agrees;
      var hi := r + so.so_rcv.Space();
      AddAt(irs, p0, |ti.data|);
      AddAt(irs, r, so.so_rcv.Space());
      DiffAt(irs, p0 + |ti.data|, hi);
      DiffAt(irs, p0, hi);
      QueueHasMeans(ti, p0);
    }

    /** What was received so far agrees just as well with the stream that ends at the right window edge. */
    ghost method EndAtEdge()
      requires so.Valid() && Valid() && r + so.so_rcv.Space() < |Stream()|
      modifies segq`S
      ensures so.Valid() && Valid() && Stream() == UpTo(old(Stream()), r + so.so_rcv.Space()) < old(Stream())
    {
      hide At, SeqOk, DataOk, NoEarlyFin, WindowsOk, TimersOk;
      ghost var hi := r + so.so_rcv.Space();
      ghost var T := UpTo(Stream(), hi);
      forall i | 0 <= i < |segq.segs|
        ensures Carries(irs, T, segq.segs[i], segq.spans[i]) && EndsRight(T, segq.segs[i], segq.spans[i])
      {
        assert T[segq.spans[i].lo..segq.spans[i].hi] == Stream()[segq.spans[i].lo..segq.spans[i].hi];
      }
      assert T[..r] == Stream()[..r];
      segq.S := T;
    }

    lemma NotPredicted(ti: Segment)
      requires so.Valid()
      ensures CutsFin(ti) ==> !PredictsAck(ti) && !PredictsData(ti)
      ensures FromAhead(ti) ==> !PredictsAck(ti) && !PredictsData(ti) && t_state != TCPS_CLOSED
      ensures CutsFin(ti) ==> t_state != TCPS_CLOSED
      ensures PredictsData(ti) ==> !PredictsAck(ti) && t_state != TCPS_CLOSED
      ensures FinNext(ti) ==> !PredictsAck(ti) && !PredictsData(ti) && t_state != TCPS_CLOSED
    {
      hide At, U32, QueueHas, AckBeyond;
    }

    /** tcp_input once it is settled to which stream the segment belongs: header prediction, or the general path. */
    method Dispatch(ti: Segment, ghost p0: int, host: nat -> SendAnswer, accepts: nat)
      requires so.Valid() && Valid() && t_state != TCPS_CLOSED && WithinReach()
      requires Plausible(irs, Stream(), r, r + so.so_rcv.Space(), ti, p0) && (Takes(ti) ==> FinFits(ti, p0))
      requires Takes(ti) && FinFalls(ti, p0) ==> !PredictsAck(ti) && !PredictsData(ti)
      modifies this, segq`segs, segq`spans, so`toHost, so`noFdRef, so`fCantRcvMore, so`fCantSendMore, so`fwDrain,
               so.so_snd, so.so_rcv, so.so_rcv.data
      ensures so.Valid() && Valid() && old(wire) <= wire && old(so.toHost) <= so.toHost
      ensures old(r) <= r && old(u) <= u && old(m) <= m
      ensures !old(so.fCantSendMore) ==> skipped == old(skipped)
      ensures t_state != TCPS_CLOSED && ti.ack && !ti.rst && !old(AckBeyond(ti.ackno)) ==>
                TextKept(old(r), old(Cover(segq.spans)), old(InWindow(ti, p0)))
      ensures old(a) <= a && (old(QueueInside()) && EndOf(ti, p0) <= old(a) ==>
                (overrun ==> old(overrun)) && (t_state != TCPS_CLOSED ==> QueueInside()))
      ensures t_force == old(t_force)
      ensures old(Takes(ti) && FinFalls(ti, p0)) ==>
                t_state != TCPS_CLOSED && FinStands() && (p0 <= old(r) ==> r == |Stream()| + 1)
      ensures old(Explained(false)) ==> Explained(false)
      ensures old(FromAhead(ti)) ==> AheadDone(ti)
      ensures old(PredictsData(ti)) ==> DataDone(ti) && (!host(0).Takes? ==> so.toHost == old(so.toHost))
      ensures old(FinNext(ti)) && accepts > 0 ==> FinDone()
    {
      hide FinNext, FinDone, FromAhead, Explained, AheadDone, DataDone, Valid, PredictsAck, PredictsData, At, Diff, U32,
           Fwd, CoreNow, Range, Cover, SeqGt, SeqLeq, InWindow, Plausible, FinFits, FinStands, QueueHas, Provided,
           AckBeyond, TextKept, Takes, FinFalls;
      NotPredicted(ti);
      FinNow();
      FinInside(ti, p0);
      if PredictsAck(ti) {
        InputPredictedAck(ti, p0, accepts);
      } else if PredictsData(ti) {
        InputPredictedData(ti, p0, host, accepts);
      } else {
        InputGenerally(ti, p0, host, accepts);
      }
    }

    /** Settles which stream the connection will take the segment to belong to. */
    ghost method Believe(ti: Segment, p0: int)
      requires so.Valid() && Valid() && t_state != TCPS_CLOSED && Genuine(irs, Stream(), r, ti, p0)
      modifies segq`S
      ensures so.Valid() && Valid() && Plausible(irs, Stream(), r, r + so.so_rcv.Space(), ti, p0)
                && (Takes(ti) ==> FinFits(ti, p0))
      ensures Stream() == if CutsFin(ti) then UpTo(old(Stream()), r + so.so_rcv.Space()) else old(Stream())
      ensures CutsFin(ti) <==> Takes(ti) && FinFalls(ti, p0)
      ensures CutsFin(ti) ==> Stream() < old(Stream())
      ensures !CutsFin(ti) ==> QueueInside() == old(QueueInside())
    {
      hide Valid, Takes, CutsFin, Provided;
      var hi := r + so.so_rcv.Space();
      CutsFinMeans(ti, p0);
      GenuineIsPlausible(irs, Stream(), r, hi, ti, p0);
      EdgeInStream();
      if CutsFin(ti) {
        PlausibleUpToEdge(irs, Stream(), r, hi, ti, p0);
        EndAtEdge();
      }
    }

    lemma EdgeInStream()
      requires so.Valid() && Valid()
      ensures 0 <= r <= r + so.so_rcv.Space()
    {
      hide At, SeqOk, DataOk, NoEarlyFin, WindowsOk, TimersOk, Handed, SegQueue.Valid;
    }

    lemma EndsAtEdge(ti: Segment, p0: int)
      requires so.Valid() && FinFits(ti, p0)
      ensures FinFalls(ti, p0) ==> |Stream()| == r + so.so_rcv.Space() <= p0 + |ti.data|
    {
    }

    /** A FIN that stands has been taken once rcv_nxt has reached it. */
    lemma FinTaken(r0: int, cover: set<int>, ti: Segment, p0: int, hi: int)
      requires so.Valid() && Valid() && FinStands() && r0 <= r && hi == |Stream()| && p0 <= r0 && hi <= p0 + |ti.data|
      requires TextKept(r0, cover, Range(Span(p0, p0 + |ti.data|)) * Range(Span(r0, hi)))
      ensures r == |Stream()| + 1
    {
      hide At, SeqOk, DataOk, NoEarlyFin, WindowsOk, TimersOk, Handed;
      if r < hi {
        assert r in Range(Span(p0, p0 + |ti.data|)) && r in Range(Span(r0, hi));
        assert r !in Range(Span(r0, Min(r, |Stream()|)));
        assert r in cover + Range(Span(p0, p0 + |ti.data|)) * Range(Span(r0, hi));
        assert r in Range(Span(r0, Min(r, |Stream()|))) + Cover(segq.spans);
        var i := CoverWitness(segq.spans, r);
        assert false;
      }
    }

    /**
     tcp_input on an established or closing connection, for any segment whatever of a guest that sends one
     stream (`Genuine` says how it lies in that stream): both directions stay in order, and what the guest
     sent inside the window is kept. A segment that `CutsFin` makes the stream end at the window's edge: the
     FIN stands there, or has been taken already, and the octet that is really there will never be delivered.
     */
    method TcpInput(ti: Segment, ghost p0: int, host: nat -> SendAnswer, accepts: nat, keepalive: bool)
      requires so.Valid() && Valid() && WithinReach() && Genuine(irs, Stream(), r, ti, p0)
      modifies this, segq, so`toHost, so`noFdRef, so`fCantRcvMore, so`fCantSendMore, so`fwDrain, so.so_snd, so.so_rcv,
               so.so_rcv.data
      ensures so.Valid() && Valid() && old(wire) <= wire && old(so.toHost) <= so.toHost
      ensures old(r) <= r && old(u) <= u && old(m) <= m
      ensures !old(so.fCantSendMore) ==> skipped == old(skipped)
      ensures t_state != TCPS_CLOSED && ti.ack && !ti.rst && !old(AckBeyond(ti.ackno)) ==>
                TextKept(old(r), old(Cover(segq.spans)), old(InWindow(ti, p0)))
      ensures old(a) <= a && (old(QueueInside()) && EndOf(ti, p0) <= old(a) ==>
                (overrun ==> old(overrun)) && (t_state != TCPS_CLOSED ==> QueueInside()))
      ensures old(t_state) == TCPS_CLOSED ==>
                t_state == TCPS_CLOSED && wire == old(wire) && r == old(r) && overrun == old(overrun)
      ensures t_force == old(t_force)
      ensures Stream() == if old(CutsFin(ti)) then old(UpTo(Stream(), r + so.so_rcv.Space())) else old(Stream())
      ensures old(CutsFin(ti)) ==> Stream() < old(Stream()) && t_state != TCPS_CLOSED && FinStands()
      ensures old(CutsFin(ti)) && p0 <= old(r) ==> r == |Stream()| + 1
      ensures old(Explained(false)) ==> Explained(false)
      ensures old(FromAhead(ti)) ==> AheadDone(ti)
      ensures old(PredictsData(ti)) ==> DataDone(ti) && (!host(0).Takes? ==> so.toHost == old(so.toHost))
      ensures old(FinNext(ti)) && accepts > 0 ==> FinDone()
    {
      hide FinNext, Valid, PredictsAck, PredictsData, At, Diff, U32, Fwd, SeqOk, DataOk, RecvOk, WindowsOk, Presented,
           NoEarlyFin, TimersOk, FinMatchesState, RexmtAfter, Genuine, WindowNews, CoreNow, Range, Cover, AckedCore,
           DataCore, SeqGt, SeqLeq, InWindow, Plausible, FinFits, FinStands, QueueHas, Provided, AckBeyond, FromAhead,
           TextKept, Explained, Takes, FinFalls, CutsFin, QueueInside, FitsOneSegment, ClockNow, Stranded;
      NotPredicted(ti);
      CutIsImpolite(ti, p0);
      if t_state == TCPS_CLOSED {
        return;
      }
      Believe(ti, p0);
      NotIdle(keepalive);
      Dispatch(ti, p0, host, accepts);
    }

    /**
     A segment from ahead moves snd_wl1 beyond rcv_nxt. From then on, until rcv_nxt has caught up, header prediction
     and the general path leave different windows behind for every pure acknowledgment, and there are such
     acknowledgments: `next` is one if the segment opens a window that lets out all that waits.
     */
    method WindowFromAhead(ti: Segment, ghost p0: int, host: nat -> SendAnswer, accepts: nat, keepalive: bool)
      returns (next: Segment)
      requires so.Valid() && Valid() && WithinReach() && Genuine(irs, Stream(), r, ti, p0) && FromAhead(ti)
      modifies this, segq, so`toHost, so`noFdRef, so`fCantRcvMore, so`fCantSendMore, so`fwDrain, so.so_snd, so.so_rcv,
               so.so_rcv.data
      ensures so.Valid() && Valid()
      ensures forall tk :: PredictsAck(tk) ==> PredictedCore(tk) != GeneralCore(tk)
      ensures old(0 < ti.win <= snd_cwnd && so.so_snd.cc > 0 && snd_max != snd_una
                && FitsOneSegment(ClockNow().(wnd := ti.win), t_maxseg)) ==>
                PredictsAck(next)
    {
      hide Valid, PredictedCore, GeneralCore, PredictsAck, FromAhead, Genuine, At, U32, Diff, SeqGt, FitsOneSegment,
           ClockNow;
      AheadIs(ti);
      TcpInput(ti, p0, host, accepts, keepalive);
      next := Segment(rcv_nxt, snd_max, true, false, false, false, snd_wnd % 0x1_0000, []);
      forall tk | PredictsAck(tk)
        ensures PredictedCore(tk) != GeneralCore(tk)
      {
        Differs(tk);
      }
      Predictable(next);
    }

    lemma AheadIs(ti: Segment)
      requires so.Valid()
      ensures FromAhead(ti) ==> SeqGt(ti.seqno, rcv_nxt)
    {
    }

    lemma Differs(tk: Segment)
      requires so.Valid() && Valid() && PredictsAck(tk) && SeqGt(snd_wl1, rcv_nxt)
      ensures PredictedCore(tk) != GeneralCore(tk)
    {
      hide Valid, PredictedCore, GeneralCore;
      PredictionAgreesIff(tk);
      StaleIsNoNews(snd_wl1, rcv_nxt);
    }

    /** With everything that was read outstanding, an acknowledgment of all of it is predicted. */
    lemma Predictable(next: Segment)
      requires so.Valid() && Valid() && next == Segment(rcv_nxt, snd_max, true, false, false, false,
                 snd_wnd % 0x1_0000, [])
      ensures t_state == TCPS_ESTABLISHED && so.so_snd.cc > 0 && x == u + so.so_snd.cc
                && 0 < snd_wnd <= Min(snd_cwnd, 0xffff) ==>
                PredictsAck(next)
    {
      hide Valid, At, Diff, U32;
      NumbersNow();
      FillNow();
      if t_state == TCPS_ESTABLISHED && x == u + so.so_snd.cc {
        DiffAt(iss, m, u);
        DiffAt(iss, m, m);
      }
    }

    /**
     Text that fills the advertised window exactly, with a FIN behind it: the window field of the segment that
     acknowledges them says that 65535 octets may be sent, whatever room there is.
     */
    method FinBehindWindow(ti: Segment, ghost p0: int, host: nat -> SendAnswer, accepts: nat, keepalive: bool)
      requires so.Valid() && Valid() && WithinReach() && Genuine(irs, Stream(), r, ti, p0) && FinNext(ti)
      requires r + |ti.data| == a && accepts > 0
      modifies this, segq, so`toHost, so`noFdRef, so`fCantRcvMore, so`fCantSendMore, so`fwDrain, so.so_snd, so.so_rcv,
               so.so_rcv.data
      ensures so.Valid() && Valid() && Stream() == old(Stream())
      ensures r == |Stream()| + 1 == a + 1 && a == old(a)
      ensures |wire| > |old(wire)| && wire[|wire| - 1].seg.win == TCP_MAXWIN && wire[|wire| - 1].seg.ackno == rcv_nxt
    {
      hide Valid, FinNext, At, Genuine;
      GenuineIsPlausible(irs, Stream(), r, r + so.so_rcv.Space(), ti, p0);
      FinNextMeans(ti, p0);
      GenuineEnd(ti, p0);
      CutIsImpolite(ti, p0);
      TcpInput(ti, p0, host, accepts, keepalive);
      NumbersNow();
      WhatHolds();
      assert wire[|wire| - 1] in wire;
    }

    lemma GenuineEnd(ti: Segment, p0: int)
      requires Genuine(irs, Stream(), r, ti, p0)
      ensures ti.fin ==> p0 + |ti.data| == |Stream()|
    {
    }

    // ------------------------------------------------------------- tcp_timer.c, tcp_subr.c, socket.c

    /** tcp_drop: sends a RST and gives the connection up. */
    method TcpDrop(accepts: nat)
      requires so.Valid() && SeqOk() && DataOk() && NoEarlyFin() && WindowsOk() && RecvOk() && Presented()
                 && FinMatchesState()
      requires TimersInRange(16)
      modifies this, segq`segs, segq`spans
      ensures so.Valid() && Valid() && t_state == TCPS_CLOSED && segq.segs == []
      ensures Progress() && QueueKept() && u == old(u) && r == old(r) && skipped == old(skipped)
                && overrun == old(overrun) && t_force == old(t_force)
      ensures accepts > 0 ==> |wire| > |old(wire)|
    {
      hide At, Diff, U32, Fwd, DataOk, RecvOk, WindowsOk, Presented, TimersInRange;
      t_state := TCPS_CLOSED;
      Output(accepts);
      TcpClose();
    }

    /** One more retransmission timeout: the backoff grows, or starts again with half the segment size. */
    method Escalate() returns (giveUp: bool)
      requires TimersOk() && t_state != TCPS_CLOSED
      modifies this`t_rxtshift, this`t_maxseg
      ensures giveUp <==> Expire(old(Alive(t_maxseg, t_rxtshift))) == Dropped
      ensures TimersInRange(if giveUp then 16 else 32)
      ensures !giveUp ==> Expire(old(Alive(t_maxseg, t_rxtshift))) == Alive(t_maxseg, t_rxtshift)
    {
      giveUp := false;
      t_rxtshift := t_rxtshift + 1;
      if t_rxtshift > TCP_MAXRXTSHIFT {
        t_maxseg := t_maxseg / 2;
        if t_maxseg < 32 {
          t_rxtshift := TCP_MAXRXTSHIFT;
          giveUp := true;
          return;
        }
        t_rxtshift := 6;
      }
    }

    /** The retransmit timer expired: back off, and give up or get ready to start over. */
    method BackOff() returns (giveUp: bool)
      requires TimersOk() && t_state != TCPS_CLOSED && t_rexmt == 0 && t_persist == 0
      modifies this`t_rxtshift, this`t_maxseg, this`t_rxtcur, this`t_rexmt, this`t_srtt, this`t_rttvar, this`t_rtt,
               this`t_dupacks, this`snd_cwnd, this`snd_ssthresh
      ensures giveUp <==> Expire(old(Alive(t_maxseg, t_rxtshift))) == Dropped
      ensures TimersInRange(if giveUp then 16 else 32)
      ensures !giveUp ==>
                && Expire(old(Alive(t_maxseg, t_rxtshift))) == Alive(t_maxseg, t_rxtshift)
                && t_rexmt == t_rxtcur == RangeSet(RexmtVal(old(Estimate(t_srtt, t_rttvar))) * Backoff(t_rxtshift),
                  TCPTV_MIN, TCPTV_REXMTMAX)
                && Estimate(t_srtt, t_rttvar) == TimedOut(old(Estimate(t_srtt, t_rttvar)), t_rxtshift)
                && t_rtt == 0 && t_dupacks == 0 && snd_cwnd == t_maxseg
    {
      hide S16, RangeSet, Backoff, Expire;
      giveUp := Escalate();
      if giveUp {
        return;
      }
      var rexmt := RexmtVal(Estimate(t_srtt, t_rttvar)) * Backoff(t_rxtshift);
      t_rxtcur := RangeSet(rexmt, TCPTV_MIN, TCPTV_REXMTMAX);
      t_rexmt := t_rxtcur;
      if t_rxtshift > TCP_MAXRXTSHIFT / 4 {
        t_rttvar := S16(t_rttvar + t_srtt / 8);
        t_srtt := 0;
      }
      t_rtt := 0;
      HalveThreshold();
      SlowStart();
      t_dupacks := 0;
    }

    /** Whatever happens, emitted segments stay emitted, both streams only grow, and so do the positions in them. */
    twostate predicate Progress()
      reads this, so
    {
      && old(wire) <= wire && old(so.fromHost) <= so.fromHost && old(so.toHost) <= so.toHost
      && old(u) <= u && old(m) <= m && old(r) <= r && old(a) <= a
    }

    /** Starts over from snd_una; the timer that has just been restarted keeps running. */
    method Resend(accepts: nat)
      requires so.Valid() && Valid() && !t_force && t_rexmt > 0 && snd_cwnd > 0 && t_state != TCPS_CLOSED
      modifies this
      ensures so.Valid() && Valid() && Progress() && QueueKept() && !t_force && skipped == old(skipped)
                && overrun == old(overrun) && t_state == old(t_state)
      ensures t_rexmt == old(t_rexmt) && t_rxtshift == old(t_rxtshift) && t_rxtcur == old(t_rxtcur)
                && t_maxseg == old(t_maxseg)
      ensures t_srtt == old(t_srtt) && t_rttvar == old(t_rttvar)
      ensures |wire| > |old(wire)| ==> StartsAt(wire[|old(wire)|], u)
      ensures Committed(ClockNow()) && snd_wnd == old(snd_wnd)
    {
      hide Valid, At, Steady, HeldBack, Fresh, Sbuf.Valid;
      Rewind();
      ghost var c := ClockNow();
      var ok := TcpOutput(accepts);
      StaysCommitted(c, ClockNow());
      FreshGrows(wire, |old(wire)|, old(a), r, a, t_state, t_maxseg);
    }

    /** The segment queue stays as it is while the connection lasts. */
    twostate predicate QueueKept()
      reads this, segq
    {
      t_state != TCPS_CLOSED ==> segq.segs == old(segq.segs) && segq.spans == old(segq.spans)
    }

    /**
     tcp_timers, TCPT_REXMT: gives up on a guest that stays silent, or resends from snd_una with a longer
     timeout. The retransmit timer is running again afterwards.
     */
    method RexmtExpired(accepts: nat)
      requires so.Valid() && Valid() && t_state != TCPS_CLOSED && !t_force && t_rexmt == 0 && t_persist == 0
      modifies this, segq`segs, segq`spans
      ensures so.Valid() && Valid() && Progress() && QueueKept() && !t_force && skipped == old(skipped)
                && overrun == old(overrun)
      ensures t_state == if Expire(old(Alive(t_maxseg, t_rxtshift))) == Dropped then TCPS_CLOSED else old(t_state)
      ensures t_state != TCPS_CLOSED ==>
                && Expire(old(Alive(t_maxseg, t_rxtshift))) == Alive(t_maxseg, t_rxtshift)
                && t_rexmt == t_rxtcur > 0 && t_rexmt <= TCPTV_REXMTMAX
                && Committed(ClockNow()) && snd_wnd == old(snd_wnd)
                && Estimate(t_srtt, t_rttvar) == TimedOut(old(Estimate(t_srtt, t_rttvar)), t_rxtshift)
      ensures t_state != TCPS_CLOSED && |wire| > |old(wire)| ==> StartsAt(wire[|old(wire)|], u)
    {
      hide Committed, At, Diff, U32, Fwd, SeqOk, DataOk, RecvOk, WindowsOk, Presented, NoEarlyFin, FinMatchesState,
           HeldBack, Fresh, Expire, TimedOut, RangeSet, Backoff;
      var giveUp := BackOff();
      if giveUp {
        TcpDrop(accepts);
      } else {
        Resend(accepts);
      }
    }

    lemma ProbeIsNext(e: Emitted)
      requires so.Valid() && Valid() && e in wire
      ensures Probe(e) ==> 0 <= e.pos < |so.fromHost| && e.seg.data == [so.fromHost[e.pos]]
    {
      hide At, SeqOk, RecvOk, Presented, WindowsOk, NoEarlyFin, TimersOk, FinMatchesState;
      assert Faithful(iss, irs, so.fromHost, e);
    }

    /** tcp_setpersist while the retransmit timer is off. */
    method Persist()
      requires so.Valid() && Valid() && t_rexmt == 0
      modifies this`t_persist, this`t_rxtshift
      ensures so.Valid() && Valid()
      ensures t_persist > 0
    {
      hide At, SeqOk, DataOk, RecvOk, WindowsOk, Presented, NoEarlyFin, FinMatchesState;
      SetPersist();
    }

    /** tcp_timers, TCPT_PERSIST: forces a byte out, if possible. */
    method PersistExpired(accepts: nat)
      requires so.Valid() && Valid() && t_state != TCPS_CLOSED && !t_force && t_rexmt == 0
      modifies this
      ensures so.Valid() && Valid() && Progress() && QueueKept() && !t_force && skipped == old(skipped)
                && overrun == old(overrun) && t_state == old(t_state)
      ensures old(Starved()) && accepts > 0 ==>
                |wire| > |old(wire)| && wire[|old(wire)|].pos == u < |so.fromHost|
                  && wire[|old(wire)|].seg.data == [so.fromHost[u]]
      ensures snd_wnd == old(snd_wnd) && t_maxseg == old(t_maxseg)
      ensures !Stranded()
    {
      hide Valid, At, Sbuf.Valid, Steady;
      Persist();
      t_force := true;
      Output(accepts);
      if |wire| > |old(wire)| {
        ProbeIsNext(wire[|old(wire)|]);
      }
      t_force := false;
    }

    /**
     tcp_timers, TCPT_KEEP: gives up on a guest that has been silent for too long, or asks it for a sign of life
     with a segment of tcp_respond from just before snd_una. Its window is whatever room so_rcv has, in 16 bits,
     and is not remembered in rcv_adv.
     */
    method KeepExpired(keepalive: bool, accepts: nat) returns (probe: seq<Segment>)
      requires so.Valid() && Valid() && t_state != TCPS_CLOSED && !t_force
      modifies this, segq`segs, segq`spans
      ensures so.Valid() && Valid() && Progress() && QueueKept() && !t_force && skipped == old(skipped)
                && overrun == old(overrun)
      ensures t_state == if keepalive && old(Open(t_state)) && old(t_idle) >= TCPTV_KEEP_IDLE + TCP_MAXIDLE
                then TCPS_CLOSED else old(t_state)
      ensures t_state != TCPS_CLOSED ==> t_keep > 0 && ClockNow() == old(ClockNow()) && t_maxseg == old(t_maxseg)
      ensures |probe| == if keepalive && old(Open(t_state)) && t_state != TCPS_CLOSED then 1 else 0
      ensures forall e :: e in probe ==>
                && e.data == [] && e.ack && !e.rst && e.win == so.so_rcv.Space() % 0x1_0000
                && Faithful(iss, irs, so.fromHost, Emitted(u - 1, r, a, e))
      ensures r <= a ==> forall e :: e in probe ==>
                (a <= r + e.win <==> so.so_rcv.Space() < 0x1_0000 || a - r <= so.so_rcv.Space() % 0x1_0000)
      ensures t_state != TCPS_CLOSED ==> wire == old(wire) && strands == old(strands) && t_2msl == old(t_2msl)
    {
      hide At, Diff, U32, Fwd, DataOk, WindowsOk, Presented, NoEarlyFin, SegQueue.Valid, Handed, EdgeKept;
      probe := [];
      if keepalive && t_state <= TCPS_CLOSE_WAIT {
        if t_idle >= TCPTV_KEEP_IDLE + TCP_MAXIDLE {
          TcpDrop(accepts);
        } else {
          AddAt(iss, u, -1);
          probe := [Segment(U32(snd_una - 1), rcv_nxt, true, false, false, false, so.so_rcv.Space() % 0x1_0000, [])];
          t_keep := TCPTV_KEEPINTVL;
        }
      } else {
        t_keep := TCPTV_KEEP_IDLE;
      }
    }

    /** tcp_timers, TCPT_2MSL: TIME_WAIT is over, or the guest has been idle too long in FIN_WAIT_2. */
    method TwoMslExpired()
      requires so.Valid() && Valid() && t_state != TCPS_CLOSED && !t_force
      modifies this, segq`segs, segq`spans
      ensures so.Valid() && Valid() && Progress() && QueueKept() && !t_force && skipped == old(skipped)
                && overrun == old(overrun) && wire == old(wire)
      ensures t_state == if old(t_state) != TCPS_TIME_WAIT && old(t_idle) <= TCP_MAXIDLE then old(t_state)
                else TCPS_CLOSED
      ensures t_state != TCPS_CLOSED ==> t_2msl > 0
      ensures t_state != TCPS_CLOSED ==> ClockNow() == old(ClockNow()) && t_maxseg == old(t_maxseg)
      ensures strands == old(strands)
    {
      hide At, Diff, U32, Fwd, DataOk, RecvOk, WindowsOk, Presented, NoEarlyFin;
      if t_state != TCPS_TIME_WAIT && t_idle <= TCP_MAXIDLE {
        t_2msl := TCPTV_KEEPINTVL;
      } else {
        TcpClose();
      }
    }


    /** One tick of the retransmit timer. */
    method TickRexmt(accepts: nat)
      requires so.Valid() && Valid() && !t_force && t_state != TCPS_CLOSED
      modifies this, segq`segs, segq`spans
      ensures so.Valid() && Valid() && Progress() && QueueKept() && !t_force && skipped == old(skipped)
                && overrun == old(overrun)
      ensures old(t_rexmt) != 1 ==> t_state == old(t_state) && wire == old(wire) && t_rexmt == Max(0, old(t_rexmt) - 1)
      ensures old(t_rexmt) == 1 ==>
                if Expire(old(Alive(t_maxseg, t_rxtshift))) == Dropped then t_state == TCPS_CLOSED
                else t_state == old(t_state) && Alive(t_maxseg, t_rxtshift) == Expire(old(Alive(t_maxseg, t_rxtshift)))
      ensures old(t_rexmt) == 1 && t_state != TCPS_CLOSED ==> t_rexmt > 0
      ensures t_state != TCPS_CLOSED ==> Ticked(old(ClockNow()), ClockNow(), old(t_maxseg), t_maxseg)
      ensures old(t_rexmt) == 0 ==> ClockNow() == old(ClockNow()) && t_maxseg == old(t_maxseg)
      ensures old(Explained(false)) ==> Explained(false)
      ensures old(t_rexmt) == 0 ==> strands == old(strands) && t_2msl == old(t_2msl)
    {
      hide At, Diff, U32, Fwd, SeqOk, DataOk, RecvOk, WindowsOk, Presented, NoEarlyFin, FinMatchesState, Expire,
           TimedOut, RangeSet;
      if t_rexmt > 0 {
        t_rexmt := t_rexmt - 1;
        if t_rexmt == 0 {
          RexmtExpired(accepts);
        }
      }
    }

    /** One tick of the persist timer. */
    method TickPersist(accepts: nat)
      requires so.Valid() && Valid() && !t_force
      modifies this
      ensures so.Valid() && Valid() && Progress() && QueueKept() && !t_force && skipped == old(skipped)
                && overrun == old(overrun) && t_state == old(t_state)
      ensures snd_wnd == old(snd_wnd) && t_maxseg == old(t_maxseg)
      ensures old(t_persist) == 0 ==> ClockNow() == old(ClockNow())
      ensures old(Explained(false)) ==> Explained(false)
      ensures old(t_persist) == 0 ==> wire == old(wire) && strands == old(strands) && t_2msl == old(t_2msl)
    {
      hide At, Diff, U32, Fwd, SeqOk, DataOk, RecvOk, WindowsOk, Presented, NoEarlyFin, FinMatchesState;
      if t_persist > 0 {
        t_persist := t_persist - 1;
        if t_persist == 0 && t_state != TCPS_CLOSED {
          PersistExpired(accepts);
        }
      }
    }

    /** One tick of the keepalive and the 2MSL timer. */
    method TickIdle(keepalive: bool, accepts: nat)
      requires so.Valid() && Valid() && !t_force
      modifies this, segq`segs, segq`spans
      ensures so.Valid() && Valid() && Progress() && QueueKept() && !t_force && skipped == old(skipped)
                && overrun == old(overrun)
      ensures t_state == old(t_state) || t_state == TCPS_CLOSED
      ensures t_state != TCPS_CLOSED ==> ClockNow() == old(ClockNow()) && t_maxseg == old(t_maxseg)
      ensures old(Explained(false)) ==> Explained(false)
      ensures t_state != TCPS_CLOSED ==> wire == old(wire)
      ensures !keepalive && old(t_2msl) == 0 ==> t_state == old(t_state) && t_2msl == 0
    {
      hide At, Diff, U32, Fwd, SeqOk, DataOk, RecvOk, WindowsOk, Presented, NoEarlyFin, FinMatchesState, TimersOk;
      if t_keep > 0 {
        t_keep := t_keep - 1;
        if t_keep == 0 && t_state != TCPS_CLOSED {
          var probe := KeepExpired(keepalive, accepts);
        }
      }
      if t_2msl > 0 {
        t_2msl := t_2msl - 1;
        if t_2msl == 0 && t_state != TCPS_CLOSED {
          TwoMslExpired();
        }
      }
    }

    /** The other timers, and the counters of idle and round-trip time. */
    method TickRest(keepalive: bool, accepts: nat -> nat)
      requires so.Valid() && Valid() && !t_force
      modifies this, segq`segs, segq`spans
      ensures so.Valid() && Valid() && Progress() && QueueKept() && !t_force && skipped == old(skipped)
                && overrun == old(overrun)
      ensures t_state == old(t_state) || t_state == TCPS_CLOSED
      ensures t_state != TCPS_CLOSED ==> snd_wnd == old(snd_wnd) && t_maxseg == old(t_maxseg)
      ensures t_state != TCPS_CLOSED && old(t_rexmt) > 0 ==> ClockNow() == old(ClockNow())
      ensures old(Explained(false)) ==> Explained(false)
      ensures old(Stranded()) && t_state != TCPS_CLOSED ==> Stranded() && wire == old(wire)
      ensures old(Stranded()) && !keepalive && old(t_2msl) == 0 ==> t_state == old(t_state) && t_2msl == 0
    {
      hide Valid, At, Diff, U32, Fwd, SeqOk, DataOk, RecvOk, WindowsOk, Presented, NoEarlyFin, FinMatchesState,
           TimersOk;
      ClockConsistent();
      TickPersist(accepts(1));
      TickIdle(keepalive, accepts(2));
      if t_state != TCPS_CLOSED {
        CountTick();
      }
    }

    /** The counters of idle ticks and of the round trip being measured go up, in 16 bits. */
    method CountTick()
      requires so.Valid() && Valid()
      modifies this`t_idle, this`t_rtt
      ensures so.Valid() && Valid()
      ensures t_idle == S16(old(t_idle) + 1) && t_rtt == if old(t_rtt) != 0 then S16(old(t_rtt) + 1) else 0
      ensures ClockNow() == old(ClockNow())
    {
      hide At, S16, SeqOk, DataOk, RecvOk, WindowsOk, Presented, NoEarlyFin, FinMatchesState, TimersOk;
      t_idle := S16(t_idle + 1);
      if t_rtt != 0 {
        t_rtt := S16(t_rtt + 1);
      }
    }

    /** The turn of one connection in tcp_slowtimo: its timers in order, until one of them closes it. */
    method SlowTimo(keepalive: bool, accepts: nat -> nat)
      requires so.Valid() && Valid() && !t_force
      modifies this, segq`segs, segq`spans
      ensures so.Valid() && Valid() && Progress() && QueueKept() && !t_force && skipped == old(skipped)
                && overrun == old(overrun)
      ensures t_state == old(t_state) || t_state == TCPS_CLOSED
      ensures old(t_rexmt) == 1 && Expire(old(Alive(t_maxseg, t_rxtshift))) == Dropped ==> t_state == TCPS_CLOSED
      ensures old(t_state) == TCPS_CLOSED ==> wire == old(wire)
      ensures t_state != TCPS_CLOSED ==> Ticked(old(ClockNow()), ClockNow(), old(t_maxseg), t_maxseg)
      ensures old(Explained(false)) ==> Explained(false)
      ensures old(Stranded()) && t_state != TCPS_CLOSED ==> Stranded() && wire == old(wire)
      ensures old(Stranded()) && !keepalive && old(t_2msl) == 0 ==> t_state == old(t_state) && t_2msl == 0
    {
      hide At, Diff, U32, Fwd, SeqOk, DataOk, RecvOk, WindowsOk, Presented, NoEarlyFin, FinMatchesState, TimersOk,
           Expire, Committed;
      if t_state == TCPS_CLOSED {
        return;
      }
      TickRexmt(accepts(0));
      if t_state != TCPS_CLOSED {
        TickRest(keepalive, accepts);
      }
    }

    /** The turn of one connection in tcp_fasttimo: a delayed acknowledgment goes out now. */
    method FastTimo(accepts: nat)
      requires so.Valid() && Valid() && !t_force
      modifies this
      ensures so.Valid() && Valid() && Progress() && QueueKept() && !t_force && skipped == old(skipped)
                && overrun == old(overrun) && t_state == old(t_state)
      ensures !old(tf_delack) || old(t_state) == TCPS_CLOSED ==> wire == old(wire)
      ensures accepts > 0 && old(tf_delack) && old(t_state) != TCPS_CLOSED ==> |wire| > |old(wire)|
      ensures t_state == TCPS_CLOSED || StoodBy()
      ensures old(Explained(false)) ==> Explained(false)
    {
      hide At, Diff, U32, Fwd, SeqOk, DataOk, RecvOk, WindowsOk, Presented, NoEarlyFin, FinMatchesState, TimersOk;
      if t_state != TCPS_CLOSED && tf_delack {
        tf_delack := false;
        tf_acknow := true;
        Output(accepts);
      }
    }

    /** tcp_sockclosed: the host has closed its end, so a FIN will follow what so_snd still holds. */
    method SockClosed(accepts: nat)
      requires so.Valid() && Valid()
      modifies this
      ensures so.Valid() && Valid() && Progress() && QueueKept() && t_force == old(t_force) && skipped == old(skipped)
                && overrun == old(overrun)
      ensures t_state == AfterClose(old(t_state))
      ensures t_state == TCPS_CLOSED || StoodBy()
      ensures Explained(false)
    {
      hide Steady, At, Diff, U32, Fwd, DataOk, RecvOk, WindowsOk, Presented, Faithful;
      if t_state == TCPS_CLOSED {
        return;
      }
      ghost var b := ClockNow();
      t_state := AfterClose(t_state);
      ghost var c := ClockNow();
      Output(accepts);
      SteadyFrom(b, c, ClockNow());
    }

    /** No FIN has been numbered or emitted yet. This is what makes reading more from the host safe. */
    predicate NoFinYet()
      reads this`tf_sentfin, this`fin_out
    {
      !tf_sentfin && !fin_out
    }

    lemma NothingOutstanding()
      requires so.Valid() && SeqOk() && !tf_sentfin
      ensures so.so_snd.cc == 0 ==> x == u
    {
      hide At;
    }

    /** soread's transfer: more of the host's bytes go into so_snd. */
    method ReadMore(bytes: seq<u8>, more: seq<u8>) returns (read: seq<u8>)
      requires so.Valid() && SeqOk() && DataOk() && NoEarlyFin() && NoFinYet() && t_state != TCPS_CLOSED
                 && 32 <= t_maxseg && 0 < so.so_snd.Space()
      modifies so`fromHost, so.so_snd, so.so_snd.data
      ensures so.Valid() && SeqOk() && DataOk()
      ensures read <= bytes + more && |read| <= Offered(old(so.so_snd.Space()), t_maxseg)
      ensures so.fromHost == old(so.fromHost) + read
      ensures bytes != [] ==> read != []
    {
      hide At, Window, Offered, Sbuf.Contents, Faithful;
      read := so.Fill(t_maxseg, bytes, more);
      BytesJoin(read, old(so.fromHost));
    }

    /** The same on a whole connection. */
    method ReadIn(bytes: seq<u8>, more: seq<u8>) returns (read: seq<u8>)
      requires so.Valid() && Valid() && NoFinYet() && t_state != TCPS_CLOSED && 0 < so.so_snd.Space()
      modifies so`fromHost, so.so_snd, so.so_snd.data
      ensures so.Valid() && Valid() && so.fromHost == old(so.fromHost) + read
      ensures read <= bytes + more && (bytes != [] ==> read != [])
    {
      hide At, SeqOk, DataOk, RecvOk, WindowsOk, Presented, NoEarlyFin, FinMatchesState, Offered;
      read := ReadMore(bytes, more);
    }

    /**
     What becomes of bytes that are read once a FIN has been numbered, when the guest then acknowledges all that
     was sent: the first of them has the number of the FIN, so it is dropped as acknowledged though no segment
     carried it, and the FIN does not count as acknowledged. Without such bytes it does.
     */
    method LateBytes(bytes: seq<u8>, more: seq<u8>) returns (read: seq<u8>, ourfinisacked: bool)
      requires so.Valid() && Valid() && t_state != TCPS_CLOSED && tf_sentfin && SeqGt(snd_max, snd_una)
      requires 0 < so.so_snd.Space()
      modifies this`snd_wnd, so`fromHost, so.so_snd, so.so_snd.data
      ensures so.Valid() && read <= bytes + more && so.fromHost == old(so.fromHost) + read
      ensures ourfinisacked <==> read == []
      ensures so.so_snd.Contents() == if read == [] then [] else read[1..]
      ensures forall e :: e in wire ==> e.seg.data == [] || e.pos + |e.seg.data| <= |old(so.fromHost)|
    {
      hide Valid, At, Diff, U32, SeqGt, Window, Fwd, Offered, Sbuf.Contents;
      AllAcked();
      read := so.Fill(t_maxseg, bytes, more);
      ourfinisacked := DropFromWindow(Diff(snd_max, snd_una));
    }

    /** With a FIN numbered, an acknowledgment of everything covers what so_snd holds and one number more. */
    lemma AllAcked()
      requires so.Valid() && Valid() && t_state != TCPS_CLOSED && tf_sentfin && SeqGt(snd_max, snd_una)
      ensures Diff(snd_max, snd_una) == so.so_snd.cc + 1 == |so.so_snd.Contents()| + 1 && 0 < t_maxseg
      ensures forall e :: e in wire ==> e.seg.data == [] || e.pos + |e.seg.data| <= |so.fromHost|
    {
      hide At, Diff, U32, RecvOk, Presented, WindowsOk, FinMatchesState;
      DiffAt(iss, m, m);
      SendAcked(iss, snd_una, snd_nxt, snd_max, u, x, m, |so.fromHost|, so.so_snd.cc, tf_sentfin, t_state, snd_max);
    }

    /** soreadbuf, and the tcp_output that slirp_socket_recv calls after it. */
    method SoReadBuf(buf: seq<u8>, accepts: nat) returns (ok: bool)
      requires so.Valid() && Valid() && t_state != TCPS_CLOSED && buf != [] && NoFinYet()
      modifies this, so`noFdRef, so`fCantRcvMore, so`fCantSendMore, so`fwDrain, so`fromHost, so.so_snd, so.so_snd.data
      ensures so.Valid() && Valid() && Progress() && QueueKept() && t_force == old(t_force) && skipped == old(skipped)
                && overrun == old(overrun)
      ensures ok <==> |buf| <= Offered(old(so.so_snd.Space()), old(t_maxseg))
      ensures so.fromHost == old(so.fromHost) + if ok then buf else []
      ensures t_state == if ok then old(t_state) else AfterClose(old(t_state))
      ensures t_state == TCPS_CLOSED || StoodBy()
      ensures old(Explained(false)) ==> Explained(false)
    {
      hide Steady, At, Diff, U32, Fwd, SeqOk, DataOk, RecvOk, WindowsOk, Presented, NoEarlyFin, FinMatchesState,
           Faithful, Offered;
      NothingOutstanding();
      ghost var b := ClockNow();
      ok := BufferMore(buf);
      ghost var c := ClockNow();
      if ok {
        Output(accepts);
      } else {
        so.SoFCantRcvMore();
        SockClosed(accepts);
      }
      if t_state != TCPS_CLOSED {
        SteadyFrom(b, c, ClockNow());
      }
    }

    /** The buffering half of soreadbuf. */
    method BufferMore(buf: seq<u8>) returns (ok: bool)
      requires so.Valid() && SeqOk() && DataOk() && NoEarlyFin() && NoFinYet() && t_state != TCPS_CLOSED
                 && 32 <= t_maxseg && buf != []
      modifies so`fromHost, so.so_snd, so.so_snd.data
      ensures so.Valid() && SeqOk() && DataOk()
      ensures ok <==> |buf| <= Offered(old(so.so_snd.Space()), t_maxseg)
      ensures so.fromHost == old(so.fromHost) + if ok then buf else []
    {
      hide At, Window, Offered, Sbuf.Contents, Faithful;
      ok := so.SoReadBuf(t_maxseg, buf);
      BytesJoin(if ok then buf else [], old(so.fromHost));
    }

    lemma BytesJoin(read: seq<u8>, sent: seq<u8>)
      requires so.Valid() && 0 <= u <= |sent| && so.fromHost == sent + read && so.so_snd.data.Length < BUFFER
      requires so.so_snd.Contents() == sent[u..] + read
      requires forall e :: e in wire ==> Faithful(iss, irs, sent, e) && !e.seg.fin
      ensures DataOk()
    {
      hide At, Window;
      assert so.fromHost[u..] == sent[u..] + read;
      forall e | e in wire
        ensures Faithful(iss, irs, so.fromHost, e)
      {
        ReadKeepsFaith(iss, irs, sent, read, e);
      }
    }

    /** soread meets the end of the host's stream, or an error. */
    method HostGone(reset: bool, accepts: nat)
      requires so.Valid() && Valid() && t_state != TCPS_CLOSED
      modifies this, segq`segs, segq`spans, so`noFdRef, so`fCantRcvMore, so`fCantSendMore, so`fwDrain
      ensures so.Valid() && Valid() && Progress() && QueueKept() && t_force == old(t_force) && skipped == old(skipped)
                && overrun == old(overrun)
      ensures t_state == if reset then TCPS_CLOSED else AfterClose(old(t_state))
      ensures so.fCantRcvMore || so.noFdRef
      ensures t_state == TCPS_CLOSED || StoodBy()
      ensures Explained(false)
    {
      hide At, Diff, U32, Fwd, SendVars, DataOk, RecvOk, WindowsOk, Presented, NoEarlyFin, Faithful;
      so.SoFCantRcvMore();
      if reset {
        TcpDrop(accepts);
      } else {
        SockClosed(accepts);
      }
    }

    /** soread, and the tcp_output that slirp_pollfds_poll calls after it. */
    method SoRead(received: Received, more: seq<u8>, accepts: nat)
      requires so.Valid() && Valid() && t_state != TCPS_CLOSED && 0 < so.so_snd.Space()
      requires received.Bytes? ==> received.bytes != [] && NoFinYet()
      modifies this, segq`segs, segq`spans, so`noFdRef, so`fCantRcvMore, so`fCantSendMore, so`fwDrain, so`fromHost,
               so.so_snd, so.so_snd.data
      ensures so.Valid() && Valid() && Progress() && QueueKept() && t_force == old(t_force) && skipped == old(skipped)
                && overrun == old(overrun)
      ensures t_state == if received.Disconnected? then if received.reset then TCPS_CLOSED
                else AfterClose(old(t_state)) else old(t_state)
      ensures received.Bytes? ==> so.fromHost <= old(so.fromHost) + received.bytes + more
      ensures !received.Bytes? ==> so.fromHost == old(so.fromHost)
      ensures t_state == TCPS_CLOSED || StoodBy()
      ensures old(Explained(false)) ==> Explained(false)
    {
      hide Steady, At, Diff, U32, Fwd, SeqOk, DataOk, RecvOk, WindowsOk, Presented, NoEarlyFin, FinMatchesState,
           Faithful;
      SteadySame(ClockNow());
      match received
      case WouldBlock =>
      case Bytes(bytes) =>
        NothingOutstanding();
        ghost var b := ClockNow();
        var read := ReadIn(bytes, more);
        ghost var c := ClockNow();
        SteadySame(c);
        if read != [] {
          Output(accepts);
        }
        SteadyFrom(b, c, ClockNow());
      case Disconnected(reset) =>
        HostGone(reset, accepts);
    }

    /** sowrite's transfer: the host takes some of what waits in so_rcv. */
    method WriteMore(send0: SendAnswer, send1: SendAnswer) returns (ok: bool, nn: nat)
      requires so.Valid() && RecvOk() && 0 < so.so_rcv.cc
      modifies so`toHost, so`noFdRef, so`fCantRcvMore, so`fCantSendMore, so`fwDrain, so.so_rcv
      ensures so.Valid() && RecvOk() && old(so.toHost) <= so.toHost && so.so_rcv.Space() == old(so.so_rcv.Space()) + nn
      ensures nn == |so.toHost| - |old(so.toHost)| && (ok <==> send0.Busy? || nn > 0)
    {
      hide At, Window, Fwd, SegQueue.Valid, Socket.HandedOver;
      ok, nn := so.Drain(send0, send1);
      segq.Widen(r, old(r + so.so_rcv.Space()), r + so.so_rcv.Space());
    }

    /** sowrite, and the tcp_output that slirp_pollfds_poll calls after it. */
    method SoWrite(send0: SendAnswer, send1: SendAnswer, accepts: nat)
      requires so.Valid() && Valid() && t_state != TCPS_CLOSED && 0 < so.so_rcv.cc
      modifies this, so`toHost, so`noFdRef, so`fCantRcvMore, so`fCantSendMore, so`fwDrain, so.so_rcv
      ensures so.Valid() && Valid() && Progress() && QueueKept() && t_force == old(t_force) && skipped == old(skipped)
                && overrun == old(overrun)
      ensures t_state == if send0.Busy? || so.toHost != old(so.toHost) then old(t_state) else AfterClose(old(t_state))
      ensures so.fromHost == old(so.fromHost)
      ensures t_state == TCPS_CLOSED || StoodBy()
      ensures old(Explained(false)) ==> Explained(false)
    {
      hide At, Diff, U32, Fwd, SeqOk, DataOk, RecvOk, WindowsOk, Presented, NoEarlyFin, FinMatchesState, TimersOk;
      var ok, nn := WriteMore(send0, send1);
      if !ok {
        so.SoFCantSendMore();
        SockClosed(accepts);
      } else if nn > 0 {
        Output(accepts);
      }
    }

    // ------------------------------------------------------------------------------------ whole runs

    lemma Arrives(ti: Segment, p: int, S: seq<u8>)
      requires so.Valid() && Valid() && FromGuest(irs, S, ti, p) && S == Stream() && 0 <= a
                 && |S| + so.so_rcv.data.Length + 2 < REACH
      ensures WithinReach() && Genuine(irs, Stream(), r, ti, p)
    {
      hide At, Agrees, Handed, EdgeKept, SegQueue.Valid, SeqOk, DataOk, WindowsOk, NoEarlyFin, FinMatchesState,
           TimersOk;
    }

    /** The guest has stayed inside the window it was given. */
    ghost predicate Behaved()
      reads this`overrun, this`t_state, this`a, segq
    {
      !overrun && (t_state != TCPS_CLOSED ==> QueueInside())
    }

    /** What an event without a segment from the guest does to the retransmit timer and its backoff. */
    twostate predicate Silence(tick: bool)
      reads this`t_rexmt, this`t_persist, this`t_rxtshift, this`u, this`x, this`snd_wnd, this`snd_cwnd, this`t_state,
            this`t_force, this`t_maxseg, so`fromHost, so.so_snd
    {
      if tick then Ticked(old(ClockNow()), ClockNow(), old(t_maxseg), t_maxseg) else StoodBy()
    }

    /**
     One event of any kind. A segment of the guest must lie near rcv_nxt in its stream, which may be of any
     length; beyond that the environment is free in what it does, except that the host is not read any more
     once a FIN has been emitted or numbered.
     */
    method Step(ev: Event) returns (ghost polite: bool)
      requires so.Valid() && Valid() && !t_force && 0 <= a
      requires ev.Arrive? ==> Genuine(irs, Stream(), r, ev.ti, ev.p) && WithinReach()
      modifies this, segq, so, so.so_snd, so.so_snd.data, so.so_rcv, so.so_rcv.data
      ensures so.Valid() && Valid() && !t_force && Progress()
      ensures polite <==> ev.Arrive? ==> EndOf(ev.ti, ev.p) <= old(a)
      ensures old(Behaved()) && polite ==> Behaved()
      ensures old(t_state) == TCPS_CLOSED ==> t_state == TCPS_CLOSED && wire == old(wire)
      ensures Stream() == if ev.Arrive? && old(CutsFin(ev.ti)) then old(UpTo(Stream(), r + so.so_rcv.Space()))
                else old(Stream())
      ensures ev.Arrive? && old(CutsFin(ev.ti)) ==> Stream() < old(Stream()) && FinStands() && !polite
      ensures !ev.Arrive? && t_state != TCPS_CLOSED ==> Silence(ev.SlowTick?)
      ensures old(Explained(false)) ==> Explained(false)
    {
      hide At, Diff, U32, Fwd, SeqOk, DataOk, RecvOk, WindowsOk, Presented, NoEarlyFin, FinMatchesState, TimersOk,
           Genuine, Expire, Offered, TextKept, CutsFin, Cover, InWindow, FinStands, ClockNow, Steady, Ticked;
      polite := true;
      SteadySame(ClockNow());
      match ev
      case Arrive(ti, p, host, accepts, keepalive) =>
        polite := EndOf(ti, p) <= a;
        CutIsImpolite(ti, p);
        TcpInput(ti, p, host, accepts, keepalive);
      case HostReadable(received, more, accepts) =>
        if t_state != TCPS_CLOSED && 0 < so.so_snd.Space() && (received.Bytes? ==> received.bytes != [] && NoFinYet()) {
          SoRead(received, more, accepts);
        }
      case HostSupplied(buf, accepts) =>
        if t_state != TCPS_CLOSED && buf != [] && NoFinYet() {
          var ok := SoReadBuf(buf, accepts);
        }
      case HostWritable(send0, send1, accepts) =>
        if t_state != TCPS_CLOSED && 0 < so.so_rcv.cc {
          SoWrite(send0, send1, accepts);
        }
      case SlowTick(keepalive, accepts) =>
        SlowTimo(keepalive, accepts);
      case FastTick(accepts) =>
        FastTimo(accepts);
    }

    lemma CutIsImpolite(ti: Segment, p: int)
      requires so.Valid() && Valid() && Genuine(irs, Stream(), r, ti, p)
      ensures CutsFin(ti) ==> p + |ti.data| > a
    {
      hide At, Diff, U32, CutsFin, Takes, Agrees, Handed, EdgeKept, SegQueue.Valid, SeqOk, DataOk, WindowsOk,
           NoEarlyFin, FinMatchesState, TimersOk;
      CutsFinMeans(ti, p);
    }

    /** What the invariant says about a connection at any moment, in terms of the two streams and the wire. */
    lemma WhatHolds()
      requires so.Valid() && Valid()
      // guest to host: what was handed over is the guest's stream up to rcv_nxt, in order, once
      ensures !skipped ==> so.toHost + so.so_rcv.Contents() == Stream()[..Min(r, |Stream()|)]
      ensures rcv_nxt == At(irs, r) && 0 <= r <= |Stream()| + 1
      // host to guest: every segment emitted carries the host's bytes at its place in the stream
      ensures forall e :: e in wire ==> Faithful(iss, irs, so.fromHost, e)
      ensures so.so_snd.Contents() == so.fromHost[Min(u, |so.fromHost|)..]
      // the send variables keep their order, so sbcopy's assertion never fails
      ensures snd_una == At(iss, u) && snd_nxt == At(iss, x) && snd_max == At(iss, m)
      ensures 0 <= u <= x <= m <= u + so.so_snd.cc + 1
      ensures !tf_sentfin ==> m <= u + so.so_snd.cc
      // everything accepted fits, and the advertised edge lies inside the buffer and never moves left
      ensures a <= r + so.so_rcv.Space()
      ensures forall i, j :: 0 <= i < j < |wire| ==> wire[i].edge <= wire[j].edge <= a
      // the 16 bits of the header name that edge exactly unless something beyond it is acknowledged, which takes a
      // guest that overruns its window
      ensures forall e :: e in wire ==> (e.rcv + e.seg.win == e.edge <==> e.rcv <= e.edge)
      ensures forall e :: e in wire && e.rcv == e.edge + 1 ==> e.seg.win == TCP_MAXWIN
      ensures !overrun ==> forall e :: e in wire ==> e.rcv <= e.edge
      // timers
      ensures !(t_rexmt > 0 && t_persist > 0) && 0 <= t_rxtshift <= TCP_MAXRXTSHIFT
                && TCPTV_MIN <= t_rxtcur <= TCPTV_REXMTMAX
    {
      hide At, Faithful, Fwd, Window, SegQueue.Valid;
      forall e | e in wire
        ensures e.rcv + e.seg.win == e.edge <==> e.rcv <= e.edge
        ensures e.rcv == e.edge + 1 ==> e.seg.win == TCP_MAXWIN
      {
        var i :| 0 <= i < |wire| && wire[i] == e;
        EdgeIsExact(wire[i]);
      }
    }

    /**
     Any run of events, up to the first segment whose FIN is cut off. `edges` are the right edges that the
     guest knew before each event and at the end.
     */
    method Run(script: seq<Event>) returns (done: nat, ghost edges: seq<int>)
      requires so.Valid() && Valid() && !t_force && 0 <= a && |Stream()| + so.so_rcv.data.Length + 2 < REACH
      requires forall i :: 0 <= i < |script| && script[i].Arrive? ==>
                 FromGuest(irs, Stream(), script[i].ti, script[i].p)
      modifies this, segq, so, so.so_snd, so.so_snd.data, so.so_rcv, so.so_rcv.data
      ensures so.Valid() && Valid() && Progress()
      ensures done <= |script| && |edges| == done + 1 && edges[0] == old(a) && edges[done] == a
      ensures forall i, j :: 0 <= i < j < |edges| ==> edges[i] <= edges[j]
      ensures done < |script| ==> Stream() != old(Stream())
      ensures Stream() == old(Stream()) || (Stream() < old(Stream()) && FinStands())
      ensures old(Behaved()) && Polite(script[..done], edges) ==>
                Behaved() && done == |script| && Stream() == old(Stream())
      ensures old(Explained(false)) ==> Explained(false)
    {
      hide Valid, Behaved, FromGuest, Faithful, CutsFin, FinStands;
      edges := [a];
      done := 0;
      ghost var S := Stream();
      while done < |script|
        invariant so.Valid() && Valid() && !t_force && Progress() && 0 <= a && done <= |script| && Stream() == S
        invariant |edges| == done + 1 && edges[0] == old(a) && edges[done] == a
        invariant forall j, k :: 0 <= j < k < |edges| ==> edges[j] <= edges[k]
        invariant old(Behaved()) && Polite(script[..done], edges) ==> Behaved()
        invariant old(Explained(false)) ==> Explained(false)
      {
        var ev := script[done];
        if ev.Arrive? {
          Arrives(ev.ti, ev.p, S);
        }
        var cut := ev.Arrive? && CutsFin(ev.ti);
        ghost var polite := Step(ev);
        PoliteSoFar(script, done, edges, a);
        edges := edges + [a];
        done := done + 1;
        if cut {
          return;
        }
      }
    }

    lemma PoliteSoFar(script: seq<Event>, i: nat, edges: seq<int>, next: int)
      requires i < |script| && |edges| == i + 1
      ensures Polite(script[..i + 1], edges + [next]) ==>
                Polite(script[..i], edges) && (script[i].Arrive? ==> EndOf(script[i].ti, script[i].p) <= edges[i])
    {
      if Polite(script[..i + 1], edges + [next]) {
        forall j | 0 <= j < i && script[..i][j].Arrive?
          ensures EndOf(script[..i][j].ti, script[..i][j].p) <= edges[j]
        {
          assert script[..i + 1][j] == script[..i][j] && (edges + [next])[j] == edges[j];
        }
        assert script[..i + 1][i] == script[i] && (edges + [next])[i] == edges[i];
      }
    }

    /** The segment size and the backoff that count the retransmission timeouts. */
    function PatienceNow(): (p: Patience)
      reads this`t_maxseg, this`t_rxtshift
    {
      Alive(t_maxseg, t_rxtshift)
    }

    lemma PatienceReasonable()
      requires so.Valid() && Valid() && t_state != TCPS_CLOSED
      ensures Reasonable(PatienceNow()) && 0 <= t_rexmt
    {
      hide At, SeqOk, DataOk, RecvOk, WindowsOk, Presented, NoEarlyFin, FinMatchesState;
    }

    /**
     Any run of events in which nothing arrives from the guest. `expiries` counts the retransmission timeouts,
     and `running` says that the timer ran all the time. As long as it does, every expiry is one more step of the
     backoff, so the connection is closed at the `ExpiriesLeft`-th at the latest. A committed timer does run all the
     time, and any timer is committed once it has expired, so that no silence sees more than `MostExpiries`, whether
     the timer ran all the time or not. With the guest's window open, the connection is closed within a number of
     ticks known from the start.
     */
    method StaySilent(script: seq<Event>) returns (ghost expiries: nat, ghost running: bool)
      requires so.Valid() && Valid() && !t_force && 0 <= a && t_state != TCPS_CLOSED
      requires forall i :: 0 <= i < |script| ==> !script[i].Arrive?
      modifies this, segq, so, so.so_snd, so.so_snd.data, so.so_rcv, so.so_rcv.data
      ensures so.Valid() && Valid() && Stream() == old(Stream())
      ensures running && t_state != TCPS_CLOSED ==>
                expiries < ExpiriesLeft(old(PatienceNow()))
                  && PatienceNow() == ExpireTimes(old(PatienceNow()), expiries)
      ensures running && expiries >= ExpiriesLeft(old(PatienceNow())) ==> t_state == TCPS_CLOSED
      ensures old(Committed(ClockNow())) ==> running
      ensures expiries <= MostExpiries(old(t_maxseg)) <= 83
      ensures t_state != TCPS_CLOSED ==> expiries < MostExpiries(old(t_maxseg))
      ensures expiries > 0 && t_state != TCPS_CLOSED ==> Committed(ClockNow())
      ensures old(Committed(ClockNow()) && snd_wnd > 0) ==>
                Ticks(script) >= TicksLeft(old(t_rexmt), old(PatienceNow())) ==> t_state == TCPS_CLOSED
    {
      ghost var w := Watch(PatienceNow(), t_rexmt, Committed(ClockNow()), Committed(ClockNow()) && snd_wnd > 0);
      hide *;
      WatchNow();
      PatienceReasonable();
      AtMost();
      expiries, running := WatchAll(script, w);
      WatchDone(w, expiries, running, Ticks(script));
    }

    /** The events of a silence one after the other. */
    method WatchAll(script: seq<Event>, ghost w: Watch) returns (ghost n: nat, ghost running: bool)
      requires so.Valid() && Valid() && !t_force && 0 <= a
      requires Watched(w, ClockNow(), t_maxseg, 0, t_rexmt > 0, 0) && (w.committed ==> t_rexmt > 0)
      requires w.p.Alive? && 0 <= MostExpiries(w.p.maxseg)
      requires forall i :: 0 <= i < |script| ==> !script[i].Arrive?
      modifies this, segq, so, so.so_snd, so.so_snd.data, so.so_rcv, so.so_rcv.data
      ensures so.Valid() && Valid() && Stream() == old(Stream()) && (w.committed ==> running)
      ensures n <= MostExpiries(w.p.maxseg)
      ensures t_state != TCPS_CLOSED ==> Watched(w, ClockNow(), t_maxseg, n, running, Ticks(script))
    {
      hide *;
      n, running := 0, t_rexmt > 0;
      var i := 0;
      TicksNone(script);
      while i < |script|
        invariant i <= |script| && so.Valid() && Valid() && !t_force && 0 <= a && Stream() == old(Stream())
        invariant t_state != TCPS_CLOSED ==> Watched(w, ClockNow(), t_maxseg, n, running, Ticks(script[..i]))
        invariant (w.committed ==> running) && n <= MostExpiries(w.p.maxseg)
      {
        TicksGrow(script, i);
        n, running := WatchStep(script[i], w, n, running, Ticks(script[..i]));
        i := i + 1;
      }
      assert script[..i] == script;
    }

    lemma AtMost()
      requires so.Valid() && Valid() && t_state != TCPS_CLOSED
      ensures 0 <= MostExpiries(t_maxseg) <= 83
    {
      hide At, SeqOk, DataOk, RecvOk, WindowsOk, Presented, NoEarlyFin, FinMatchesState;
      SilentPeerIsDropped(Alive(t_maxseg, 0), 0);
    }

    lemma WatchNow()
      requires so.Valid() && Valid() && t_state != TCPS_CLOSED
      ensures Watched(Watch(PatienceNow(), t_rexmt, Committed(ClockNow()), Committed(ClockNow()) && snd_wnd > 0),
                ClockNow(), t_maxseg, 0, t_rexmt > 0, 0)
    {
      PatienceReasonable();
      WatchBegins(ClockNow(), t_maxseg);
    }

    /** One event of a silence. */
    method WatchStep(ev: Event, ghost w: Watch, ghost n: nat, ghost running: bool, ghost ticks: nat)
      returns (ghost n': nat, ghost running': bool)
      requires so.Valid() && Valid() && !t_force && 0 <= a && !ev.Arrive?
      requires t_state != TCPS_CLOSED ==> Watched(w, ClockNow(), t_maxseg, n, running, ticks)
      requires w.p.Alive? && (w.committed ==> running) && n <= MostExpiries(w.p.maxseg)
      modifies this, segq, so, so.so_snd, so.so_snd.data, so.so_rcv, so.so_rcv.data
      ensures so.Valid() && Valid() && !t_force && 0 <= a && Stream() == old(Stream())
      ensures t_state != TCPS_CLOSED ==> Watched(w, ClockNow(), t_maxseg, n', running', if ev.SlowTick? then ticks + 1
                else ticks)
      ensures (w.committed ==> running') && n' <= MostExpiries(w.p.maxseg)
      ensures n' == if old(t_state) != TCPS_CLOSED && ev.SlowTick? && old(t_rexmt) == 1 then n + 1 else n
    {
      hide Valid, Watched, Steady, Ticked, Committed;
      ghost var c, mc, st := ClockNow(), t_maxseg, t_state;
      if t_state != TCPS_CLOSED {
        WatchEnds(w, c, mc, n, running, ticks);
      }
      n' := if t_state != TCPS_CLOSED && ev.SlowTick? && t_rexmt == 1 then n + 1 else n;
      var polite := Step(ev);
      running' := if t_state == TCPS_CLOSED then running else running && t_rexmt > 0;
      if t_state != TCPS_CLOSED {
        PatienceReasonable();
        if ev.SlowTick? {
          WatchTick(w, c, ClockNow(), mc, t_maxseg, n, running, ticks);
        } else {
          WatchOther(w, c, ClockNow(), mc, n, running, ticks);
        }
        WatchGoesOn(w, ClockNow(), t_maxseg, n', running', if ev.SlowTick? then ticks + 1 else ticks);
      }
    }

    static lemma WatchGoesOn(w: Watch, c: Clock, m: int, n: nat, running: bool, ticks: nat)
      requires Watched(w, c, m, n, running, ticks)
      ensures w.committed ==> running
    {
    }

    lemma WatchDone(w: Watch, n: nat, running: bool, ticks: nat)
      requires w.p.Alive? && (t_state != TCPS_CLOSED ==> Watched(w, ClockNow(), t_maxseg, n, running, ticks))
      requires Reasonable(w.p)
      ensures t_state != TCPS_CLOSED ==>
                && (running ==> n < ExpiriesLeft(w.p) && PatienceNow() == ExpireTimes(w.p, n))
                && (w.open ==> ticks < TicksLeft(w.rexmt, w.p)) && (n > 0 ==> Committed(ClockNow()))
                && n < MostExpiries(w.p.maxseg)
    {
      if t_state != TCPS_CLOSED {
        WatchEnds(w, ClockNow(), t_maxseg, n, running, ticks);
      }
    }

    /** A connection from its handshake on, through any run of events. */
    static method Connection(iss: u32, irs: u32, ghost S: seq<u8>, sndSize: nat, rcvSize: nat, maxseg: int,
      h: Handshake, script: seq<Event>)
      returns (c: Tcpcb, done: nat, ghost edges: seq<int>)
      requires 0 < sndSize < BUFFER && h.adv <= rcvSize < BUFFER && 0 < rcvSize && |S| + rcvSize + 2 < REACH
                 && 32 <= maxseg <= 32768
      requires TCPTV_MIN <= h.rxtcur <= TCPTV_REXMTMAX && 0 <= h.rxtshift <= TCP_MAXRXTSHIFT
      requires forall i :: 0 <= i < |script| && script[i].Arrive? ==> FromGuest(irs, S, script[i].ti, script[i].p)
      ensures c.so.Valid() && c.Valid() && c.Stream() <= S && c.iss == iss && c.irs == irs
      // the guest's octets reach the host in order; they stop only once the host has stopped taking them
      ensures !c.skipped ==> c.so.toHost + c.so.so_rcv.Contents() <= S
      // the guest receives the host's bytes at their places, and a FIN behind the last one only
      ensures forall e :: e in c.wire ==> Faithful(iss, irs, c.so.fromHost, e)
      // as long as it keeps to its window the guest always knows the edge exactly
      ensures done <= |script| && |edges| == done + 1
      ensures Polite(script[..done], edges) ==>
                done == |script| && c.Stream() == S && forall e :: e in c.wire ==> e.rcv + e.seg.win == e.edge
      // bytes wait without a timer only if tcp_output was last called in the one situation in which it leaves them so
      ensures c.Explained(false)
      // the run ends early only when a FIN has been taken for one in the middle of the stream
      ensures done < |script| ==> c.Stream() < S && c.FinStands()
    {
      hide FromGuest, Faithful, At, Tcpcb.Valid, Tcpcb.Progress, Tcpcb.FinStands, Sbuf.Contents;
      c := new Tcpcb(iss, irs, S, sndSize, rcvSize, maxseg, h);
      done, edges := c.Run(script);
      c.WhatHolds();
    }

    /**
     What becomes of a segment whose FIN is cut off, when its text is next in line: the FIN is taken right at
     the edge of the window, rcv_nxt moves past the octet that stands there, and the host has all octets before
     that one and no other.
     */
    method LoseOctet(ti: Segment, ghost p0: int, host: nat -> SendAnswer, accepts: nat,
      keepalive: bool) returns (ghost edge: int)
      requires so.Valid() && Valid() && WithinReach() && Genuine(irs, Stream(), r, ti, p0) && CutsFin(ti) && p0 <= r
      requires !skipped && !so.fCantSendMore
      modifies this, segq, so`toHost, so`noFdRef, so`fCantRcvMore, so`fCantSendMore, so`fwDrain, so.so_snd, so.so_rcv,
               so.so_rcv.data
      ensures so.Valid() && Valid() && GuestDone(t_state)
      ensures edge == old(r + so.so_rcv.Space()) && 0 <= edge < |old(Stream())|
      ensures rcv_nxt == At(irs, edge + 1) && so.HandedOver() == old(Stream())[..edge]
    {
      hide Valid, Genuine, CutsFin, WithinReach, TextKept, FinStands, Explained, FromAhead, AheadDone, PredictsData,
           DataDone, FinNext, FinDone, At, Cover, InWindow, QueueInside, Socket.HandedOver, GuestDone, AckBeyond;
      edge := r + so.so_rcv.Space();
      EdgeInStream();
      Shortened(Stream(), edge);
      TcpInput(ti, p0, host, accepts, keepalive);
      NumbersNow();
    }

    static lemma Shortened(S: seq<u8>, hi: int)
      requires 0 <= hi
      ensures UpTo(S, hi) < S ==> hi < |S| && UpTo(S, hi) == S[..hi]
    {
    }

    lemma NumbersNow()
      requires so.Valid() && Valid()
      ensures snd_una == At(iss, u) && snd_max == At(iss, m) && rcv_nxt == At(irs, r)
      ensures t_state != TCPS_CLOSED && r == |Stream()| + 1 ==> GuestDone(t_state)
      ensures !skipped && r >= |Stream()| ==> so.HandedOver() == Stream()
    {
      hide At, SegQueue.Valid, Socket.HandedOver;
    }

    /** The fill of both rings, and what can have been sent, while the user has not closed. */
    lemma FillNow()
      requires so.Valid() && Valid()
      ensures so.so_snd.cc == Max(|so.fromHost| - u, 0) < BUFFER && 0 <= u <= x <= m && snd_nxt == At(iss, x)
      ensures Open(t_state) ==> m <= |so.fromHost| && NoFinYet()
      ensures t_rexmt > 0 ==> t_persist == 0
      ensures !skipped && so.toHost == [] && r <= |Stream()| ==> so.so_rcv.cc == r
      ensures 0 <= r <= r + so.so_rcv.Space() < r + BUFFER
    {
      hide At, SegQueue.Valid, Window;
    }
  }

  function Ticks(script: seq<Event>): (n: nat) {
    if script == [] then 0 else Ticks(script[..|script| - 1]) + if script[|script| - 1].SlowTick? then 1 else 0
  }

  lemma TicksNone(script: seq<Event>)
    ensures Ticks(script[..0]) == 0
  {
  }

  lemma TicksGrow(script: seq<Event>, i: nat)
    requires i < |script|
    ensures Ticks(script[..i + 1]) == Ticks(script[..i]) + if script[i].SlowTick? then 1 else 0
  {
    assert script[..i + 1][..i] == script[..i];
  }

  /** Every segment of the script ends, FIN included, inside the window that the guest knew when it arrived. */
  ghost predicate Polite(script: seq<Event>, edges: seq<int>)
    requires |edges| == |script| + 1
  {
    forall i :: 0 <= i < |script| && script[i].Arrive? ==> EndOf(script[i].ti, script[i].p) <= edges[i]
  }

  lemma SliceTwice(s: seq<u8>, u: int, cc: nat, k: int)
    requires 0 <= u <= |s| + 1 && cc == Max(|s| - u, 0) && 0 <= k
    ensures s[Min(u, |s|)..][Min(k, cc)..] == s[Min(u + k, |s|)..]
  {
  }
}
