/**
 Single runs of a connection that show the limits of what the source promises, with buffers of the sizes that it
 reserves.
 */
module Runs {
  import opened SeqNum
  import opened Sockets
  import opened Rtt
  import opened SegQueues
  import opened TcpSpec
  import opened Tcpcbs

  const TCP_SNDSPACE: nat := 0x2_0000
  const TCP_RCVSPACE: nat := 0x2_0000

  /** A host that takes nothing for the time being. */
  function AllBusy(i: nat): SendAnswer { Busy }

  function NoSegment(i: nat): nat { 0 }

  /** A connection over which nothing has gone yet. */
  method Begin(iss: u32, irs: u32, ghost S: seq<u8>) returns (c: Tcpcb)
    ensures c.so.Valid() && c.Valid() && fresh(c.Repr) && c.iss == iss && c.irs == irs && c.Stream() == S
    ensures c.t_state == TCPS_ESTABLISHED && c.u == c.x == c.m == c.r == 0 && c.a == TCP_MAXWIN && !c.t_force
    ensures c.so.fromHost == [] && c.so.toHost == [] && c.segq.segs == [] && c.wire == [] && !c.skipped
    ensures c.so.so_rcv.data.Length == c.so.so_rcv.Space() == TCP_RCVSPACE && c.so.so_snd.Space() == TCP_SNDSPACE
    ensures c.snd_wnd == c.snd_cwnd == c.t_maxseg == 1024 && c.snd_wl1 == At(irs, -1) && c.t_persist == 0
    ensures c.t_idle < c.t_rxtcur && c.t_2msl == 0 && !c.so.noFdRef && !c.so.fCantSendMore
  {
    hide Tcpcb.Valid, At;
    c := new Tcpcb(iss, irs, S, TCP_SNDSPACE, TCP_RCVSPACE, 1024,
      Handshake(TCP_MAXWIN, 1024, At(irs, -1), At(iss, 0), INITIAL, 12, 0, 1024, 0x1_0000, 0));
  }

  /** The same once the host's first byte has been read. */
  method ByteIn(iss: u32, irs: u32, ghost S: seq<u8>) returns (c: Tcpcb)
    ensures c.so.Valid() && c.Valid() && fresh(c.Repr) && c.iss == iss && c.irs == irs && c.Stream() == S
    ensures c.t_state == TCPS_ESTABLISHED && c.u == c.r == c.x == 0 && c.a == TCP_MAXWIN && !c.t_force
    ensures c.so.fromHost == [65] && c.so.so_rcv.Space() == TCP_RCVSPACE && c.so.so_snd.cc == 1
    ensures c.snd_wnd == c.snd_cwnd == c.t_maxseg == 1024 && c.snd_wl1 == At(irs, -1) && c.t_idle < c.t_rxtcur
              && c.t_2msl == 0
  {
    hide Tcpcb.Valid, At;
    c := Begin(iss, irs, S);
    c.FillNow();
    var read := c.ReadIn([65], []);
    assert read == [65];
    c.FillNow();
  }

  /** And once it has been sent. */
  method ByteOut(iss: u32, irs: u32, ghost S: seq<u8>) returns (c: Tcpcb)
    ensures c.so.Valid() && c.Valid() && fresh(c.Repr) && c.iss == iss && c.irs == irs && c.Stream() == S
    ensures c.t_state == TCPS_ESTABLISHED && c.u == c.r == 0 && c.x == c.m == c.so.so_snd.cc == 1 && 0 <= c.a
    ensures !c.t_force && c.so.fromHost == [65] && c.so.so_rcv.Space() == TCP_RCVSPACE
    ensures c.snd_wnd == c.snd_cwnd == c.t_maxseg == 1024 && c.snd_wl1 == At(irs, -1) && c.t_persist == c.t_2msl == 0
  {
    hide Tcpcb.Valid, At, Tcpcb.Strands, Tcpcb.Starved, Tcpcb.Probe, Steady;
    c := ByteIn(iss, irs, S);
    c.Output(1);
    c.FillNow();
  }

  /** The second octet of the guest arrives before the first one, and offers window `win`. */
  lemma SecondComesFirst(c: Tcpcb, ti: Segment)
    requires c.so.Valid() && c.Valid() && c.t_state == TCPS_ESTABLISHED && c.u == c.r == 0 && c.m == 1 && 0 <= c.a
    requires c.so.so_rcv.Space() == TCP_RCVSPACE && c.snd_wl1 == At(c.irs, -1)
    requires ti.seqno == At(c.irs, 1) && ti.ackno == At(c.iss, 0) && ti.ack && !ti.rst && !ti.fin && ti.data == [98]
    ensures c.FromAhead(ti) && c.WithinReach() && Genuine(c.irs, [97, 98], c.r, ti, 1)
    ensures c.snd_max != c.snd_una && (c.x == 1 ==> c.snd_nxt != c.snd_una)
  {
    hide Tcpcb.Valid, At, Diff, U32;
    c.NumbersNow();
    c.FillNow();
    AddAt(c.irs, 1, 1);
    AddAt(c.irs, 0, TCP_RCVSPACE);
    DiffAt(c.irs, 1, 0);
    DiffAt(c.irs, -1, 1);
    DiffAt(c.irs, 2, TCP_RCVSPACE);
    DiffAt(c.iss, 1, 0);
    DiffAt(c.iss, 0, 0);
  }

  /** A byte is outstanding when a segment from ahead arrives and closes the window. */
  method WindowShut(iss: u32, irs: u32) returns (c: Tcpcb)
    ensures c.so.Valid() && c.Valid() && fresh(c.Repr) && c.so.so_snd.Contents() == [65] && !c.t_force
    ensures c.t_state == TCPS_ESTABLISHED && c.Stranded() && c.t_2msl == 0
  {
    hide Tcpcb.Valid, At, Tcpcb.FromAhead, Genuine, Tcpcb.WithinReach, FitsOneSegment;
    c := ByteOut(iss, irs, [97, 98]);
    var ti := Segment(At(irs, 1), At(iss, 0), true, false, false, false, 0, [98]);
    SecondComesFirst(c, ti);
    c.TcpInput(ti, 1, AllBusy, 1, false);
    c.WhatHolds();
  }

  /**
   The acknowledgment for that segment goes out at once; the byte stays in so_snd with neither the retransmit nor the
   persist timer running, and however many ticks go by nothing more is sent. If the guest's next window update is
   lost, nothing here sends again.
   */
  method StrandedByte(iss: u32, irs: u32, ticks: nat) returns (c: Tcpcb, ghost sent: seq<Emitted>)
    ensures c.so.Valid() && c.Valid() && c.so.so_snd.Contents() == [65]
    ensures c.t_state == TCPS_ESTABLISHED && c.Stranded() && c.wire == sent
  {
    hide Tcpcb.Valid, At, Ticked, Tcpcb.ClockNow, Expire;
    c := WindowShut(iss, irs);
    sent := c.wire;
    for i := 0 to ticks
      invariant c.so.Valid() && c.Valid() && fresh(c.Repr) && !c.t_force && c.so.so_snd.Contents() == [65]
      invariant c.t_state == TCPS_ESTABLISHED && c.Stranded() && c.wire == sent && c.t_2msl == 0
    {
      c.SlowTimo(false, NoSegment);
    }
  }

  /**
   The same with a window that stays open: an acknowledgment of the byte is then predicted, and header prediction
   leaves another window behind than the general path would.
   */
  method PredictionDiffers(iss: u32, irs: u32) returns (c: Tcpcb, next: Segment)
    ensures c.so.Valid() && c.Valid() && c.PredictsAck(next) && c.PredictedCore(next) != c.GeneralCore(next)
  {
    hide Tcpcb.Valid, At, Tcpcb.FromAhead, Genuine, Tcpcb.WithinReach, Tcpcb.PredictsAck, Tcpcb.PredictedCore,
         Tcpcb.GeneralCore;
    c := ByteOut(iss, irs, [97, 98]);
    var ti := Segment(At(irs, 1), At(iss, 0), true, false, false, false, 512, [98]);
    SecondComesFirst(c, ti);
    next := c.WindowFromAhead(ti, 1, AllBusy, 1, false);
  }

  /** A guest that fills the window it was given and puts its FIN right behind is told that the window is wide open. */
  method WideOpen(iss: u32, irs: u32, S: seq<u8>) returns (c: Tcpcb)
    requires |S| == TCP_MAXWIN
    ensures c.so.Valid() && c.Valid() && c.Stream() == S && c.r == c.a + 1 == |S| + 1
    ensures c.wire != [] && c.wire[|c.wire| - 1].seg.win == TCP_MAXWIN
  {
    hide Tcpcb.Valid, At;
    c := Begin(iss, irs, S);
    c.NumbersNow();
    var ti := Segment(At(irs, 0), At(iss, 0), true, false, true, false, 1024, S);
    c.FinBehindWindow(ti, 0, AllBusy, 1, false);
  }

  /** The guest's octets arrive in order, 512 at a time, while the host takes nothing, until so_rcv has room for 512. */
  method AlmostFull(iss: u32, irs: u32, S: seq<u8>) returns (c: Tcpcb)
    requires |S| == TCP_RCVSPACE + 1
    ensures c.so.Valid() && c.Valid() && fresh(c.Repr) && c.irs == irs && c.Stream() == S
    ensures c.t_state == TCPS_ESTABLISHED && c.r == TCP_RCVSPACE - 512 && c.so.so_rcv.Space() == 512
              && c.segq.segs == []
    ensures !c.skipped && !c.so.fCantSendMore && !c.so.noFdRef && 0 <= c.a
  {
    hide Tcpcb.Valid, At, Genuine, Tcpcb.WithinReach, Tcpcb.PredictsData, FitsOneSegment;
    c := Begin(iss, irs, S);
    for i := 0 to 255
      invariant c.so.Valid() && c.Valid() && fresh(c.Repr) && c.irs == irs && c.Stream() == S
      invariant c.t_state == TCPS_ESTABLISHED && c.r == 512 * i && c.so.toHost == [] && c.so.fromHost == []
      invariant c.segq.segs == [] && c.snd_wnd == 1024 && 0 <= c.a && !c.t_force
      invariant c.so.so_rcv.data.Length == TCP_RCVSPACE && c.u == 0
      invariant !c.skipped && !c.so.fCantSendMore && !c.so.noFdRef
    {
      var ti := Segment(c.rcv_nxt, c.snd_una, true, false, false, false, 1024, S[512 * i..512 * i + 512]);
      NextPiece(c, ti, S);
      c.TcpInput(ti, c.r, AllBusy, 1, false);
    }
    c.FillNow();
  }

  lemma NextPiece(c: Tcpcb, ti: Segment, S: seq<u8>)
    requires c.so.Valid() && c.Valid() && c.t_state == TCPS_ESTABLISHED && c.so.toHost == c.so.fromHost == []
    requires c.segq.segs == [] && c.snd_wnd == 1024 && 0 <= c.a && c.so.so_rcv.data.Length == TCP_RCVSPACE && !c.skipped
    requires c.Stream() == S && |S| == TCP_RCVSPACE + 1 && c.u == 0 && 0 <= c.r <= TCP_RCVSPACE - 512
    requires ti == Segment(c.rcv_nxt, c.snd_una, true, false, false, false, 1024, S[c.r..c.r + 512])
    ensures c.PredictsData(ti) && c.WithinReach() && Genuine(c.irs, S, c.r, ti, c.r) && !c.CutsFin(ti)
  {
    hide Tcpcb.Valid, At;
    c.NumbersNow();
    c.FillNow();
  }

  /**
   A guest that sends 512 octets into the last 512 places, one more octet and its FIN: the connection counts it as
   finished, and the host never gets the last octet.
   */
  method LostOctet(iss: u32, irs: u32, S: seq<u8>) returns (c: Tcpcb)
    requires |S| == TCP_RCVSPACE + 1
    ensures c.so.Valid() && c.Valid() && GuestDone(c.t_state)
    ensures c.rcv_nxt == At(irs, |S|) && c.so.HandedOver() == S[..TCP_RCVSPACE]
  {
    hide Tcpcb.Valid, At, Genuine, Tcpcb.WithinReach, Tcpcb.CutsFin, Socket.HandedOver, GuestDone;
    c := AlmostFull(iss, irs, S);
    var ti := Segment(c.rcv_nxt, c.snd_una, true, false, true, false, 1024, S[TCP_RCVSPACE - 512..]);
    LastPiece(c, ti, S);
    ghost var edge := c.LoseOctet(ti, c.r, AllBusy, 1, false);
  }

  lemma LastPiece(c: Tcpcb, ti: Segment, S: seq<u8>)
    requires c.so.Valid() && c.Valid() && c.t_state == TCPS_ESTABLISHED && c.segq.segs == [] && 0 <= c.a
    requires c.Stream() == S && |S| == TCP_RCVSPACE + 1 && c.r == TCP_RCVSPACE - 512 && c.so.so_rcv.Space() == 512
    requires ti == Segment(c.rcv_nxt, c.snd_una, true, false, true, false, 1024, S[c.r..]) && !c.so.noFdRef
    ensures c.CutsFin(ti) && c.WithinReach() && Genuine(c.irs, S, c.r, ti, c.r)
  {
    hide Tcpcb.Valid, At, Diff, U32;
    c.NumbersNow();
    AddAt(c.irs, c.r, 512);
    AddAt(c.irs, c.r, 513);
    DiffAt(c.irs, c.r, c.r + 512);
    DiffAt(c.irs, c.r + 513, c.r + 512);
    DiffAt(c.iss, c.u, c.u);
  }
}
