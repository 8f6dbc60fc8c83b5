# libslirp, verified

A Dafny model of the user-space network stack in `dosbox-ios/libslirp`: TCP, IP fragmentation, the Internet
checksum, the output scheduler, packet buffers, the state interpreter and the DHCP search list. Objects whose
fields the C code updates are classes here, its loops are loops, and its 16- and 32-bit arithmetic is written
out. `dafny verify dfyconfig.toml` checks everything.

**TCP.** `Tcpcb` is a connection past its handshake. Beside each 32-bit sequence variable stands the unbounded
position in the octet stream that it stands for, and `Valid()` says that the two agree, that `so_snd` holds the
host's bytes from `snd_una` on, that what the host took followed by `so_rcv` is the guest's stream up to
`rcv_nxt`, that the segment queue consists of true pieces of that stream above `rcv_nxt`, and that every segment
of `tcp_output` so far carried the host's bytes at their places and never took window back. `Step` shows that every
event keeps this: any segment of the guest, any reading from or writing to the host with any partial result, ticks of
all timers, refusals by the layer below at any point. `Run` and `Connection` extend it to whole runs.

The guest sends one stream, in segments of any size and order, with repetitions and overlaps, stale or ahead,
inside the window or beyond it; acknowledgment numbers, windows and flags are arbitrary. `Step` takes streams of
any length and asks only that positions in play are less than 2^31 apart, as the comparisons do; `Run` and
`Connection` bound the whole stream by 0x70000000 octets. Reading from the host after a FIN has been numbered or
emitted is excluded, and what goes wrong then is proved as an equivalence (`TcpSpec.ReadKeepsFaith`, `LateBytes`).

Where the code fails its promise the model says exactly when. TCP_REASS takes the FIN bit from the header and not
from the flags that trimming has cleared, so a FIN beyond the window can be taken for one at its edge. `CutsFin` is
the exact condition, `TcpInput` says that the guest's stream then ends at the edge and in no other case, and
`LoseOctet` that the octet behind the edge is acknowledged but never delivered. Header prediction does not update the
send window; `PredictionAgreesIff` and `WindowFromAhead` say when that shows.

Bytes that wait in `so_snd` are meant to keep the retransmit or the persist timer running. They do not if `tcp_output`
finds the window closed and has an acknowledgment or a window update to send: that segment goes out and the way that
starts the persist timer is not taken. `Strands` is the exact condition. `TcpOutput` says that bytes are left without a
timer if and only if it held, and every operation, `Step`, `Run` and `Connection` keep `Explained`: if bytes wait
without a timer, the last call of `tcp_output` met that condition.

`Runs` has a concrete connection for each of these failures, with buffers of 131072 bytes as `tcp_input` reserves
them.

`StaySilent` is about a guest of which nothing more is heard: whatever the host and the layer below do, each expiry
of the retransmit timer is one step of the backoff, and the connection ends at the expiry that `Rtt` computes. No
silence sees more than 83 expiries, whatever happens to the timer in between.

**IP.** `IpSender` cuts packets as `ip_output` does, `IpReceiver` collects fragments as `ip_input` and `ip_reass`
do; `Collect` composes the two, among other datagrams. Both reassembly queues of the stack, for segments and for
fragments, use the same theory of interval lists (`Spans`).

**Checksum.** `Cksum` has the unrolled loops, the odd-address case and both byte orders; `Checksum` is the plain
sum with end-around carry of RFC 1071.

**Scheduler, buffers, state, search list.** `Interface` has the nested queues and counters of `if.c`, `Pool` and
`Mbuf` the free list and the growing buffers, `SaveState` and `LoadState` interpret one table in both directions,
and `SplitOptions` is the loop that works through its buffer from the back.

Where the code differs from its comments, or from what one would expect, the model follows the code:

- `tcp_input.c:185` compares the list cursor with the control block; the model uses the end of the list, which
  `tcpip.h:85` defines and all other loops use.
- The comment at `if.c:35` promises absolute priority for the fastq. A pass takes only one packet of its last
  list (`IfQueues.FastEmptiedIff`).
- `if.c:118` tests `on_fastq`, which is never cleared, so a session on the batchq is "downgraded" as well and
  moves to the head of that queue.
- `tcp_output.c:361-367` computes the window with unsigned arithmetic. Once rcv_nxt has passed the advertised edge the
  result is negative and the cast to 16 bits makes a large window of it: a FIN right behind a full window is answered
  with a window of 65535 (`TcpSpec.WindowExactIff`, `Runs.WideOpen`).
- The comment at `tcp_output.c:219-240` says that the output side is idle when neither timer runs; with the window
  closed it can also be stuck (`Tcpcbs.Tcpcb.TcpOutput`, `Runs.StrandedByte`).
- A keepalive probe names the free space modulo 2^16 as the window and does not remember it in rcv_adv. With 65536
  bytes free or more it can take window back; `Tcpcbs.Tcpcb.KeepExpired` says exactly when.
- Round trips of 146 ticks let a backed-off timeout wrap and fall to its minimum (`Rtt.TimeoutsFitIff`).

## Model

| member | source | states |
|---|---|---|
| `SeqNum.DiffAt` | dosbox-ios/libslirp/tcp.h:152-155 | comparing two sequence numbers is comparing their stream positions, as long as these are less than 2^31 apart |
| `SeqNum.DiffAtTight` | dosbox-ios/libslirp/tcp.h:152-155 | at a distance of 2^31 the comparison gives the wrong answer, so the bound cannot be widened |
| `SeqNum.AtDiff` | dosbox-ios/libslirp/tcp.h:152-155 | every 32-bit number is the number of a position near any given one, at the signed distance the code computes |
| `Sbufs.WindowExtend` | dosbox-ios/libslirp/sbuf.c:107-139 | writing a run into the free places of the ring, around the corner if need be, extends what it holds by that run and disturbs nothing |
| `Sbufs.WindowSlice` | dosbox-ios/libslirp/sbuf.c:146-168 | any stretch of the contents is one run of the ring or two around the corner, also when the indices coincide |
| `Sbufs.Sbuf.SbDrop` | dosbox-ios/libslirp/sbuf.c:15-33 | the contents lose exactly their oldest bytes; the result tells exactly when the fill falls below half |
| `Sbufs.Sbuf.SbAppendSb` | dosbox-ios/libslirp/sbuf.c:107-139 | the contents become the old contents followed by the whole mbuf, whether or not the ring wraps or becomes full |
| `Sbufs.Sbuf.SbCopy` | dosbox-ios/libslirp/sbuf.c:146-168 | the destination receives exactly the asked stretch of the contents and the ring stays as it is |
| `Sockets.OfferedWholeSegments` | dosbox-ios/libslirp/socket.c:112-170 | the offer is at most one segment or a whole number of segments, wastes less than one, and is empty only when the buffer is full |
| `Sockets.Socket.SbAppend` | dosbox-ios/libslirp/sbuf.c:48-101 | for every answer of the host, what it took followed by what waits grows by exactly the segment: the direct send never reorders, loses or repeats |
| `Sockets.Socket.SoPrepRBuf` | dosbox-ios/libslirp/socket.c:112-170 | the one or two regions lie in the free places, do not overlap, and have the offered total length |
| `Sockets.Socket.Fill` | dosbox-ios/libslirp/socket.c:177-254 | for every pair of partial reads, so_snd and the record of the host stream grow by the same bytes, a prefix of what the host has |
| `Sockets.Socket.SoReadBuf` | dosbox-ios/libslirp/socket.c:256-297 | takes all of the buffer if and only if it fits the offer, and otherwise nothing |
| `Sockets.Socket.Drain` | dosbox-ios/libslirp/socket.c:404-490 | for every pair of partial writes or errors, what the host took followed by what waits is unchanged; failure is reported exactly when nothing could be written and the host was not just busy |
| `Sockets.Socket.SoFCantRcvMore` | dosbox-ios/libslirp/socket.c:906-918 | both directions gone means no descriptor any more, else only reading ends |
| `Sockets.Socket.SoFCantSendMore` | dosbox-ios/libslirp/socket.c:920-932 | both directions gone means no descriptor any more, else only writing ends |
| `Sockets.Socket.SoFwDrain` | dosbox-ios/libslirp/socket.c:938-944 | with data waiting the shutdown is postponed, without it happens at once |
| `Spans.InsertSpec` | dosbox-ios/libslirp/tcp_input.c:96-156 | the merge keeps the list sorted and disjoint, and it then covers exactly what it covered before and the newcomer |
| `Spans.ContiguousIffFull` | dosbox-ios/libslirp/ip_input.c:317-325 | a sorted disjoint list covers a whole range if and only if it has no gap and reaches the end |
| `SegQueues.SegQueue.Find` | dosbox-ios/libslirp/tcp_input.c:99-102 | the loop in 32-bit arithmetic finds the place that comparing unbounded positions would give |
| `SegQueues.SegQueue.TrimByPredecessor` | dosbox-ios/libslirp/tcp_input.c:109-130 | drops exactly what the predecessor has, or the whole segment if that is everything |
| `SegQueues.SegQueue.TrimSuccessors` | dosbox-ios/libslirp/tcp_input.c:137-151 | the successors lose exactly what lies below the end of the newcomer; what remains still is a true piece of the stream |
| `SegQueues.SegQueue.Insert` | dosbox-ios/libslirp/tcp_input.c:96-156 | the queue stays a sorted, disjoint list of true pieces of the stream and holds exactly the octets it held and those of the segment |
| `Rtt.EstimateBounded` | dosbox-ios/libslirp/tcp_input.c:1426-1484 | if all samples lie in 1..R ticks with 6 <= R <= 4095, every interleaving of samples and timeouts keeps srtt within 8R, rttvar within 5R and the timeout within 5R, and the 16-bit fields equal the unbounded computation |
| `Rtt.EstimateExactIff` | dosbox-ios/libslirp/tcp_input.c:1426-1484 | the 16-bit fields equal the unbounded computation over all runs of samples in 1..R if and only if R is at most 4095 |
| `Rtt.TimeoutsFitIff` | dosbox-ios/libslirp/tcp_timer.c:183-185 | over all runs of samples in 1..R ticks no timeout, at any backoff, overflows a short, if and only if R is at most 145 |
| `Rtt.TimeoutWraps` | dosbox-ios/libslirp/tcp_timer.h:113-120 | the samples 146, 3 and 1 lead to a timeout of 513 ticks, which wraps at the sixth backoff and is clamped to the minimum |
| `Rtt.ExpireDecreases` | dosbox-ios/libslirp/tcp_timer.c:149-180 | each expiry lowers the pair of segment size and remaining backoff steps lexicographically |
| `Rtt.SilentPeerIsDropped` | dosbox-ios/libslirp/tcp_timer.c:149-180 | the pair of segment size and backoff says at exactly which expiry the connection is given up, the 83rd at the latest |
| `TcpSpec.ReadKeepsFaith` | dosbox-ios/libslirp/socket.c:190-254 | bytes read later leave an emitted segment right if and only if it carried no FIN: reading after the FIN breaks the mapping of bytes to sequence numbers |
| `TcpSpec.SendAdvance` | dosbox-ios/libslirp/tcp_output.c:393-418 | moving snd_nxt over text and FIN keeps snd_una <= snd_nxt <= snd_max and the byte mapping, modulo 2^32 |
| `TcpSpec.SendBackUp` | dosbox-ios/libslirp/tcp_output.c:331-333 | the modular test recognises a FIN that is sent again, and gives it its old number right behind the last byte |
| `TcpSpec.SendAcked` | dosbox-ios/libslirp/tcp_input.c:1079-1131 | any acknowledgment number that passes the two comparisons drops exactly the acknowledged bytes, and covers the FIN exactly when it exceeds the fill of so_snd |
| `TcpSpec.WindowExactIff` | dosbox-ios/libslirp/tcp_output.c:361-367 | the computed window survives the cast to 16 bits if and only if rcv_nxt has not passed the advertised edge, and then names the edge that is remembered; otherwise the field is a negative distance modulo 2^16, and 65535 for a FIN just behind a full window |
| `TcpSpec.EdgeIsExact` | dosbox-ios/libslirp/tcp_output.c:361-367 | of any emitted segment: acknowledgment and window field name the advertised edge if and only if the segment acknowledges nothing beyond that edge |
| `TcpSpec.Advertise` | dosbox-ios/libslirp/tcp_output.c:495-496 | the advertised edge moves only to the right, and never beyond the free space |
| `TcpSpec.StaysInside` | dosbox-ios/libslirp/tcp_input.c:878-909 | text and a FIN below the advertised edge never push rcv_nxt beyond it |
| `Tcpcbs.Tcpcb.constructor` | dosbox-ios/libslirp/tcp_subr.c:254-291 | every state that a handshake leaves behind (windows, round-trip estimate, congestion window, backoff, keepalive timer) satisfies every invariant |
| `Tcpcbs.Tcpcb.SetPersist` | dosbox-ios/libslirp/tcp_output.c:505-516 | the persist timer is in 10..120 ticks and the backoff index stays in its table |
| `Tcpcbs.Tcpcb.Reasons` | dosbox-ios/libslirp/tcp_output.c:165-217 | a segment with neither text nor FIN goes out exactly when an acknowledgment, a window update or a reset is due; the other situations in which something must be sent, and the window growth that makes an update due |
| `Tcpcbs.Tcpcb.Measure` | dosbox-ios/libslirp/tcp_output.c:84-144 | the length is what so_snd and the window allow behind snd_nxt; a closed window, and nothing else, pulls snd_nxt back and then stops REXMT; a forced output into a closed window is one byte |
| `Tcpcbs.Tcpcb.MakePlan` | dosbox-ios/libslirp/tcp_output.c:84-217 | what is planned lies inside so_snd, a FIN only behind the last byte; nothing is held back but a short piece that silly window avoidance may hold back |
| `Tcpcbs.Tcpcb.CopyText` | dosbox-ios/libslirp/tcp_output.c:292-311 | the assertion of sbcopy holds and the segment carries the stretch of so_snd it should |
| `Tcpcbs.Tcpcb.WindowToAdvertise` | dosbox-ios/libslirp/tcp_output.c:361-367 | never less than what was advertised before, and the free space when that is not silly |
| `Tcpcbs.Tcpcb.Account` | dosbox-ios/libslirp/tcp_output.c:393-436 | sequence variables and timers after a segment: REXMT runs whenever something is outstanding, a probe moves snd_max only |
| `Tcpcbs.Tcpcb.Send` | dosbox-ios/libslirp/tcp_output.c:252-502 | the emitted segment carries the host bytes of its sequence number, acknowledges everything received and names the right window edge; a refusal by ip_output emits nothing |
| `Tcpcbs.Tcpcb.NothingToSend` | dosbox-ios/libslirp/tcp_output.c:241-250 | waiting data leave a timer running when nothing is sent |
| `Tcpcbs.Tcpcb.TcpOutput` | dosbox-ios/libslirp/tcp_output.c:56-503 | keeps every invariant; an owed acknowledgment or a reset goes out; the first text starts at snd_nxt; what remains unsent is only a held-back short piece; a zero window is probed with one byte; while REXMT runs the backoff stays; bytes are left waiting with neither timer if and only if the window was closed, no probe was pending, REXMT was off or is stopped with snd_nxt pulled back, and an acknowledgment or a window update was due; the loop ends |
| `Tcpcbs.Tcpcb.Present` | dosbox-ios/libslirp/tcp_input.c:158-187 | hands over all text that is now contiguous and no other; afterwards the queue begins strictly above rcv_nxt |
| `Tcpcbs.Tcpcb.Reass` | dosbox-ios/libslirp/tcp_input.c:60-76 | the octets received are those received before and those of the segment, each once; in-order text goes to the host at once |
| `Tcpcbs.Tcpcb.AcceptFin` | dosbox-ios/libslirp/tcp_input.c:1287-1342 | the FIN is accepted only behind the last octet, once, and the state moves as RFC 793 says |
| `Tcpcbs.Tcpcb.DoData` | dosbox-ios/libslirp/tcp_input.c:1255-1342 | text joins what was received without loss; text or FIN next in line is taken at once and acknowledged |
| `Tcpcbs.Tcpcb.TrimLeft` | dosbox-ios/libslirp/tcp_input.c:824-863 | leaves exactly the octets at or above rcv_nxt, and the FIN only if it is not old |
| `Tcpcbs.Tcpcb.TrimRight` | dosbox-ios/libslirp/tcp_input.c:878-909 | leaves exactly the octets below the right window edge; a segment wholly outside is refused; the FIN flag is cleared if anything is cut |
| `Tcpcbs.Tcpcb.TrimToWindow` | dosbox-ios/libslirp/tcp_input.c:824-909 | for every segment of the guest what goes on is exactly the part inside the window; it is a true piece of the stream unless a FIN was cut off text that remains |
| `Tcpcbs.Tcpcb.XmitTimer` | dosbox-ios/libslirp/tcp_input.c:1426-1484 | the fields become the estimate that the model of the estimator gives, and the backoff ends |
| `Tcpcbs.Tcpcb.TcpClose` | dosbox-ios/libslirp/tcp_subr.c:317-346 | the queue is freed and nothing is emitted |
| `Tcpcbs.Tcpcb.DropAcked` | dosbox-ios/libslirp/tcp_input.c:1120-1131 | so_snd holds the host bytes from the new snd_una on; our FIN is acknowledged exactly when snd_una is one beyond the last byte |
| `Tcpcbs.Tcpcb.FinAcked` | dosbox-ios/libslirp/tcp_input.c:1133-1190 | the state moves on once our FIN is acknowledged, and in LAST_ACK the connection is gone |
| `Tcpcbs.Tcpcb.FastRetransmit` | dosbox-ios/libslirp/tcp_input.c:1044-1061 | the resent text starts at snd_una, and sending then continues where it had got to |
| `Tcpcbs.Tcpcb.DupAck` | dosbox-ios/libslirp/tcp_input.c:1015-1069 | only the third and later duplicates of an acknowledgment of outstanding data end the processing; everything else leaves the send side alone |
| `Tcpcbs.Tcpcb.NewAck` | dosbox-ios/libslirp/tcp_input.c:1076-1190 | an acknowledgment of something not sent is refused and changes nothing; any other one is taken with its timers, window and state |
| `Tcpcbs.Tcpcb.SetReceiveWindow` | dosbox-ios/libslirp/tcp_input.c:580-586 | the receive window is the free space: the advertised window is never larger |
| `Tcpcbs.Tcpcb.Admit` | dosbox-ios/libslirp/tcp_input.c:580-955 | window, RST and ACK checks: an admitted segment is what lies inside the window; RST closes; nothing else changes |
| `Tcpcbs.Tcpcb.Acknowledge` | dosbox-ios/libslirp/tcp_input.c:957-1191 | acknowledgment processing keeps every invariant and both streams; its effect on the fields shared with header prediction |
| `Tcpcbs.Tcpcb.GeneralPath` | dosbox-ios/libslirp/tcp_input.c:574-1342 | octets received afterwards are those received before and the part inside the window; for segments that header prediction takes, the effect on the shared fields is that of the fast form, but for snd_wnd, which is taken from newer segments; text and FIN below the advertised edge do not overrun it |
| `Tcpcbs.Tcpcb.PredictedAck` | dosbox-ios/libslirp/tcp_input.c:506-547 | for a pure acknowledgment the fast form drops the acknowledged bytes, moves snd_una, restarts or stops REXMT, and leaves the other fields it shares with the general path alone, snd_wnd among them |
| `Tcpcbs.Tcpcb.PredictedData` | dosbox-ios/libslirp/tcp_input.c:548-572 | for in-sequence text the fast form hands the text over, moves rcv_nxt, and leaves the other shared fields alone |
| `Tcpcbs.Tcpcb.PredictionAgreesIff` | dosbox-ios/libslirp/tcp_input.c:1198-1209 | the two paths have the same effect on the shared fields if and only if there is text or the segment counts as newer window information |
| `Tcpcbs.Tcpcb.PredictionAgrees` | dosbox-ios/libslirp/tcp_input.c:502-573 | they agree whenever snd_wl1 is not after rcv_nxt and snd_wl2 not after snd_una |
| `Tcpcbs.Tcpcb.WindowFromAhead` | dosbox-ios/libslirp/tcp_input.c:1198-1209 | after any segment of text ahead of rcv_nxt with a newer sequence number they differ for every pure acknowledgment that prediction takes; if its window lets out all that waits, there is one, and it is returned |
| `Runs.PredictionDiffers` | dosbox-ios/libslirp/tcp_input.c:1198-1209 | a run to such an acknowledgment: a byte outstanding, an octet from ahead that changes the window, then a predicted acknowledgment on which the paths differ |
| `Tcpcbs.Tcpcb.Conclude` | dosbox-ios/libslirp/tcp_input.c:1344-1382 | an owed or demanded acknowledgment is emitted |
| `Tcpcbs.Tcpcb.CutsFinMeans` | dosbox-ios/libslirp/tcp_input.c:60-76 | a test on the 32-bit fields and the queue tells exactly when a FIN is cut off with text before it left over and is taken all the same |
| `Tcpcbs.Tcpcb.TcpInput` | dosbox-ios/libslirp/tcp_input.c:466-1382 | for any segment of the guest: every invariant holds, both streams only grow, text inside the window is kept, text and FIN below the advertised edge do not overrun it; a FIN that is cut off and taken makes the edge of the window the end of the stream, and no other segment does |
| `Tcpcbs.Tcpcb.LoseOctet` | dosbox-ios/libslirp/tcp_input.c:60-76 | if such a segment is next in line, rcv_nxt passes the octet at the edge and the host never gets it: it has exactly the octets before |
| `Runs.LostOctet` | dosbox-ios/libslirp/tcp_input.c:60-76 | a run with buffers of 131072 bytes: 255 segments of 512 octets with the host busy, then 513 octets and a FIN; the connection counts the guest as finished and the host never gets the last octet |
| `Tcpcbs.Tcpcb.TcpDrop` | dosbox-ios/libslirp/tcp_subr.c:298-309 | the connection is closed and a reset has gone out |
| `Tcpcbs.Tcpcb.BackOff` | dosbox-ios/libslirp/tcp_timer.c:149-232 | gives up exactly when the model of the backoff does, else the timer restarts from the estimate and the backoff |
| `Tcpcbs.Tcpcb.RexmtExpired` | dosbox-ios/libslirp/tcp_timer.c:143-236 | drops the connection or resends from snd_una with REXMT running; each expiry is one step of the backoff model |
| `Tcpcbs.Tcpcb.PersistExpired` | dosbox-ios/libslirp/tcp_timer.c:243-248 | with the window closed the next unacknowledged byte goes out |
| `Tcpcbs.Tcpcb.KeepExpired` | dosbox-ios/libslirp/tcp_timer.c:254-285 | drops an open connection exactly when keepalive is on and the guest has been silent too long, else probes with an old sequence number and the free space modulo 2^16 as the window; that keeps the advertised edge exactly when fewer than 65536 bytes are free or the edge is no farther than that remainder |
| `Tcpcbs.Tcpcb.TwoMslExpired` | dosbox-ios/libslirp/tcp_timer.c:131-136 | closes after TIME_WAIT or after too long an idle time, and emits nothing |
| `Tcpcbs.Tcpcb.SlowTimo` | dosbox-ios/libslirp/tcp_timer.c:64-99 | one tick of all four timers keeps every invariant; REXMT counts down and nothing moves the backoff before it expires, then by one step; a connection that gives up is closed in that tick; stranded bytes stay stranded and nothing is sent |
| `Tcpcbs.Tcpcb.FastTimo` | dosbox-ios/libslirp/tcp_timer.c:41-58 | a delayed acknowledgment goes out, and nothing else happens |
| `Tcpcbs.Tcpcb.SockClosed` | dosbox-ios/libslirp/tcp_subr.c:362-389 | the user closes: state and invariants, the FIN behind what is still queued |
| `Tcpcbs.Tcpcb.LateBytes` | dosbox-ios/libslirp/tcp_input.c:1120-1131 | when all that was sent is acknowledged after bytes were read behind a numbered FIN, the first of these bytes is dropped though no segment carried it and the FIN does not count as acknowledged; without such bytes it does |
| `Tcpcbs.Tcpcb.SoRead` | dosbox-ios/libslirp/socket.c:177-254 | reading from the host keeps every invariant as long as no FIN has been numbered or emitted; end of stream and errors close or drop |
| `Tcpcbs.Tcpcb.SoReadBuf` | dosbox-ios/libslirp/socket.c:256-297 | the same for a buffer handed in; one that does not fit closes the host side |
| `Tcpcbs.Tcpcb.SoWrite` | dosbox-ios/libslirp/socket.c:404-490 | writing to the host keeps every invariant; failure closes the host side |
| `Tcpcbs.Tcpcb.Step` | dosbox-ios/libslirp/tcp_input.c:466-1382 | any event of any kind keeps every invariant, both streams only grow, a closed connection stays silent, a guest that keeps to the window stays inside it, FIN included; without the guest nothing stops or resets a committed timer; bytes wait without a timer only if the last tcp_output left them so |
| `Tcpcbs.Tcpcb.WhatHolds` | dosbox-ios/libslirp/tcp_output.c:84-503 | the invariant in terms of the two streams, the sequence variables, the window edges and the timers; the window field of an emitted segment is exact if and only if the segment acknowledges nothing beyond the edge |
| `Tcpcbs.Tcpcb.Run` | dosbox-ios/libslirp/slirp.c:889-1030 | the same for every sequence of events, up to the first FIN that is cut off and taken; a guest that keeps text and FIN inside its window never sends one, and never makes rcv_nxt pass the edge |
| `Tcpcbs.Tcpcb.StaySilent` | dosbox-ios/libslirp/tcp_timer.c:143-236 | while nothing arrives from the guest, whatever the host, the timers and ip_output do: every expiry of a running REXMT is one step of the backoff, so the connection is closed at the computed expiry at the latest; whatever the timer does there are at most as many expiries as the segment size allows, 83 at most; a committed timer never stops, every timer is committed once it has expired, and with the window open the connection is closed within a number of ticks known from the start |
| `Tcpcbs.Tcpcb.Connection` | dosbox-ios/libslirp/tcp_subr.c:254-291 | for every run from the handshake on: the host gets a prefix of the guest stream in order, the guest gets the host bytes at their places, and a guest that keeps text and FIN inside its window sees the edge exactly in every segment; bytes wait without a timer only in the one situation of tcp_output |
| `Tcpcbs.Tcpcb.FinBehindWindow` | dosbox-ios/libslirp/tcp_output.c:361-367 | text that fills the advertised window, with a FIN behind it, is acknowledged with a window field of 65535 |
| `Runs.WideOpen` | dosbox-ios/libslirp/tcp_output.c:361-367 | a run to that segment from the handshake on |
| `Runs.StrandedByte` | dosbox-ios/libslirp/tcp_output.c:165-250 | a run to a stranded byte: with a byte outstanding a segment from ahead closes the window; then for any number of ticks the connection stays established, the byte waits, no timer runs and nothing is sent |
| `IpFrags.IpSender.Fragment` | dosbox-ios/libslirp/ip_output.c:102-152 | the fragments cut the payload without gap or overlap, all but the last with the same multiple of 8 bytes and the MF bit; without mbufs nothing is sent |
| `IpFrags.IpSender.IpOutput` | dosbox-ios/libslirp/ip_output.c:51-171 | a packet that fits goes out whole, one that must not be fragmented or has no room for 8 bytes is refused, and every fragment fits the MTU |
| `IpFrags.Ipq.Insert` | dosbox-ios/libslirp/ip_input.c:266-316 | the fragments stay sorted, disjoint pieces of the datagram and hold exactly the bytes they held and the new ones |
| `IpFrags.Ipq.Complete` | dosbox-ios/libslirp/ip_input.c:317-325 | the test for no gap and no MF at the end succeeds if and only if every byte of the datagram is there |
| `IpFrags.Ipq.Join` | dosbox-ios/libslirp/ip_input.c:327-369 | the joined packet has the payload of the datagram, and its addresses |
| `IpFrags.Ipq.Reass` | dosbox-ios/libslirp/ip_input.c:225-374 | gives the datagram back at exactly the arrival that completes coverage, and otherwise remembers the fragment |
| `IpFrags.IpReceiver.Reassemble` | dosbox-ios/libslirp/ip_input.c:148-191 | the same across all datagrams in progress: other datagrams are not touched |
| `IpFrags.IpReceiver.Input` | dosbox-ios/libslirp/ip_input.c:148-194 | whole packets pass, fragments are collected, and an unfragmented packet with the reserved bit discards what was collected under its key |
| `IpFrags.IpReceiver.SlowTimo` | dosbox-ios/libslirp/ip_input.c:422-440 | exactly the queues at the end of their time disappear, the others keep order and fragments |
| `IpFrags.IpReceiver.Tick` | dosbox-ios/libslirp/ip_input.c:422-440 | a tick forgets nothing of a datagram whose queue may wait longer |
| `IpFrags.FragmentsPartition` | dosbox-ios/libslirp/ip_output.c:96-154 | the fragments of ip_output partition the payload |
| `IpFrags.FullIffAllThere` | dosbox-ios/libslirp/ip_input.c:317-325 | some of them cover the payload if and only if they are all there |
| `IpFrags.Collect` | dosbox-ios/libslirp/ip_input.c:148-374 | the fragments of one datagram arriving in any order, any of them repeatedly, among packets of other datagrams and fewer ticks than its queue may wait, rebuild the payload at exactly the arrival after which all have been there |
| `Cksums.Cksum` | dosbox-ios/libslirp/cksum.c:53-155 | for every alignment, byte order and length up to 65536 the result is the checksum of RFC 1071, section 1, and no signed addition overflows |
| `Cksums.NoOverflow` | dosbox-ios/libslirp/cksum.c:93-119 | a sum over at most 65536 bytes stays below 2^31 |
| `Cksums.PlainSumShift` | dosbox-ios/libslirp/cksum.c:128-130 | shifting a sum by 8 bits is summing with the bytes of every word exchanged (RFC 1071, section 2 (B)) |
| `Cksums.TailOdd` | dosbox-ios/libslirp/cksum.c:128-137 | the first and last byte of an odd-aligned run are added as one word, and the total is right |
| `Cksums.ByteOrderIndependent` | dosbox-ios/libslirp/cksum.c:53-155 | machines of both byte orders put the same two checksum bytes into memory |
| `Cksums.PassesIff` | dosbox-ios/libslirp/udp.c:293-295 | a packet passes the check if and only if its field holds the checksum, or 0xffff where that is 0 |
| `Cksums.SingleByteErrorDetected` | dosbox-ios/libslirp/cksum.c:53-155 | any change of a single byte changes the checksum |
| `IfQueues.Interface.TakeBatch` | dosbox-ios/libslirp/if.c:191-212 | one packet leaves the head of one list; counters, conservation and order are kept |
| `IfQueues.Interface.TakeFast` | dosbox-ios/libslirp/if.c:191-212 | the same for the fastq |
| `IfQueues.Interface.IfStart` | dosbox-ios/libslirp/if.c:143-216 | what one pass takes: from each fastq list but the last up to the first delayed packet, from the last and from each batchq list at most one; it ends |
| `IfQueues.Interface.Enqueue` | dosbox-ios/libslirp/if.c:63-110 | the packet goes to the end of its socket's list; a socket with a batchq list keeps to it |
| `IfQueues.Interface.Downgrade` | dosbox-ios/libslirp/if.c:118-125 | moving a list to the head of the batchq keeps counters, conservation and order |
| `IfQueues.Interface.IfOutput` | dosbox-ios/libslirp/if.c:41-132 | every packet offered is accounted for, whatever the counters decide |
| `IfQueues.Interface.SoQFree` | dosbox-ios/libslirp/socket.c:64-78 | freeing a socket keeps every packet and breaks no count of another socket |
| `IfQueues.Interface.Run` | dosbox-ios/libslirp/if.c:41-216 | every run of the three operations keeps all of this |
| `IfQueues.Interface.WhatHolds` | dosbox-ios/libslirp/if.c:41-216 | each packet is in exactly one list or has left once; so_queued counts the queued packets; no socket has two batchq lists; without low delay packets leave in the order they came |
| `IfQueues.FastEmptiedIff` | dosbox-ios/libslirp/if.c:171-203 | a pass empties the fastq before the batchq if and only if its last list holds a single packet, so there is no absolute priority |
| `IfQueues.WithoutWaiting` | dosbox-ios/libslirp/if.c:191-204 | removing the head of a list removes the oldest packet of its socket and nothing else |
| `Mbufs.Mbuf.MInc` | dosbox-ios/libslirp/mbuf.c:148-169 | the room grows to the size asked for; data and the gap in front of them are kept |
| `Mbufs.Mbuf.Concat` | dosbox-ios/libslirp/mbuf.c:132-141 | the data become the concatenation, inside the buffer, and the gap in front of them is kept |
| `Mbufs.Mbuf.MAdj` | dosbox-ios/libslirp/mbuf.c:172-185 | trims exactly the asked bytes from head or tail |
| `Mbufs.Mbuf.MCopy` | dosbox-ios/libslirp/mbuf.c:191-199 | appends exactly the asked stretch, or fails exactly when there is no room |
| `Mbufs.Pool.MGet` | dosbox-ios/libslirp/mbuf.c:65-97 | reuses before it allocates; an mbuf is to be given back exactly when 30 are alive already |
| `Mbufs.Pool.MFree` | dosbox-ios/libslirp/mbuf.c:99-125 | the mbuf is given back or kept for reuse, once |
| `Mbufs.Pool.MCat` | dosbox-ios/libslirp/mbuf.c:132-144 | the concatenation, with the second mbuf freed |
| `Mbufs.Pool.FreeListBounded` | dosbox-ios/libslirp/mbuf.c:65-125 | the free list never exceeds 30 mbufs and mbuf_alloced counts every live one |
| `VmStates.BigEndianRoundTrip` | dosbox-ios/libslirp/stream.c:54-120 | a number written most significant byte first is read back |
| `VmStates.NumberRoundTrip` | dosbox-ios/libslirp/vmstate.c:78-194 | every put/get pair gives every number of its type back, with its sign |
| `VmStates.RoundTrip` | dosbox-ios/libslirp/vmstate.c:297-444 | loading what was saved at the same version restores every field in the stream, leaves the others alone and consumes exactly the bytes written; with all fields present the object is restored |
| `VmStates.LoadsIffUpToDate` | dosbox-ios/libslirp/vmstate.c:336-338 | saving does not look at versions; what was saved can be loaded, and is restored, if and only if no structure in it, at any depth, has a version newer than its own table |
| `VmStates.SaveState` | dosbox-ios/libslirp/vmstate.c:297-359 | the interpreter writes the bytes of the format |
| `VmStates.LoadState` | dosbox-ios/libslirp/vmstate.c:378-444 | the interpreter reads what the format says, and refuses a version newer than the table |
| `DnsSearches.SplitOptions` | dosbox-ios/libslirp/dnssearch.c:286-300 | the loop from the back turns the bytes in place into a row of options |
| `DnsSearches.BodiesOfOptions` | dosbox-ios/libslirp/dnssearch.c:286-300 | the joined bodies of the options are the original bytes |
| `DnsSearches.MkLabels` | dosbox-ios/libslirp/dnssearch.c:116-156 | writes the labels of a name, and refuses exactly the empty name and names with an empty or too long label |
| `DnsSearches.LabelsRoundTrip` | dosbox-ios/libslirp/dnssearch.c:116-156 | reading the labels gives the name back, up to a closing dot |

## Left out

- The handshake, SYN segments, TCP options, urgent data, `tcp_emu` and `tcp_ctl`: the model starts when both sides
  are established.
- Resets that answer dropped segments are not emitted; their effect on the control block is modelled. Keepalive
  probes are returned by `KeepExpired` and not added to what a connection has sent.
- Tcpcbs.Tcpcb.Run: bounds the guest's stream and the receive buffer together by 0x70000000 octets, and ends at the
  first FIN that is cut off and taken, after which guest and host no longer mean the same stream; `Step` has neither
  limit.
- Tcpcbs.Tcpcb.Connection: the same bound as `Run`.
- Tcpcbs.Tcpcb.SoRead: bytes are read only while no FIN has been numbered or emitted, after which they would have no
  sequence number of their own; `TcpSpec.ReadKeepsFaith` gives the exact condition and `LateBytes` what happens.
  `Step` does not read then.
- Tcpcbs.Tcpcb.SoReadBuf: the same.
- Tcpcbs.Tcpcb.StaySilent: with the window closed it bounds expiries and not ticks, because each time something is
  sent the timer may start anew, and stranded bytes wait for ever.
- Tcpcbs.Tcpcb.Send: does not model m_get, which aborts rather than fails, nor the checksum field and the IP header.
- IP options, header checks and datagrams longer than 65535 bytes; a key (identification, addresses, protocol)
  stands for one datagram.
- IpFrags.Collect: an mbuf is there for every fragment of the datagram itself; without one the fragment is lost.
- IpFrags.Ipq.Join: does not model where the reassembled header lies in memory, only its fields.
- IfQueues.Interface.IfOutput: nothing else is queued while if_encap runs; a neighbour solicitation sent from
  there would add one packet to the batchq.
- Order among the packets of a low-delay socket: it may have lists on both queues, and they can overtake each other.
- Memory layout: pointers into buffers are offsets, linked lists are sequences, header overlays are records.
- Mbufs.Pool.MFree: freeing an mbuf that was already given back to the allocator is excluded.
- VmStates.RoundTrip: tables without hooks, temporary structures and arrays of pointers; a slot lists the elements
  in use. A count is a C `int`, so one of 2^31 or more is negative and nothing is processed; overflow of a count
  times a factor, which C leaves undefined, is taken to wrap, and a buffer of negative size is empty.
- Compression of domain names: its references use lengths that were already shortened, so no general round trip holds.
- Sockets, polling, name lookup, address translation, ICMP, UDP, TFTP, DHCP, ARP and the user interface.
