/**
 The socket side of socket.c and sbuf.c: moving bytes between the host's socket and the two ring
 buffers. The host decides freely how much each `recv` and `send` transfers.
 */
module Sockets {
  import opened SeqNum
  import opened Sbufs

  /** What one non-blocking `recv` gives back. */
  datatype Received = Bytes(bytes: seq<u8>) | WouldBlock | Disconnected(reset: bool)

  /** What one non-blocking `send` does: it takes up to `budget` bytes, or fails. */
  datatype SendAnswer = Takes(budget: nat) | Busy | Broken

  /** The bytes a `send` of `m` passes on. */
  function Taken(m: seq<u8>, a: SendAnswer): (n: nat)
    ensures n <= |m|
  {
    if a.Takes? then Min(a.budget, |m|) else 0
  }

  /** How many bytes sopreprbuf offers: what is free, cut to whole segments once it exceeds one. */
  function Offered(space: nat, mss: nat): (n: nat)
    requires 0 < mss
    ensures n <= space
  {
    if space <= mss then space else space - space % mss
  }

  /** The offer is at most one segment or whole segments, wastes less than one, and is empty only when full. */
  lemma OfferedWholeSegments(space: nat, mss: nat)
    requires 0 < mss
    ensures Offered(space, mss) <= mss || Offered(space, mss) == mss * (space / mss)
    ensures space - Offered(space, mss) < mss
    ensures Offered(space, mss) == 0 <==> space == 0
  {
    if space > mss {
      assert space == mss * (space / mss) + space % mss;
    }
  }

  /** Filling the first region, and the second only once the first is full, writes one run into the ring. */
  lemma WrittenInTwo(a: seq<u8>, r: nat, w: nat, got0: seq<u8>, got1: seq<u8>, b: seq<u8>)
    requires Room(|a|, r, w, |got0| + |got1|)
    requires w + |got0| <= |a|
    requires got1 != [] ==> r <= w && w + |got0| == |a|
    requires b == Splice(Splice(a, w, got0), 0, got1)
    ensures b == Written(a, r, w, got0 + got1)
  {
    var m := got0 + got1;
    var n := FirstRun(|a|, r, w, |m|);
    if got1 == [] {
      assert m == got0 && b == Splice(a, w, got0);
    } else {
      assert n == |got0| && m[..n] == got0 && m[n..] == got1;
    }
  }

  lemma MoveOver(done: seq<u8>, waiting: seq<u8>, n: nat)
    requires n <= |waiting|
    ensures (done + waiting[..n]) + waiting[n..] == done + waiting
  {
  }

  class Socket {
    const so_snd: Sbuf  // bytes read from the host, not yet acknowledged by the guest
    const so_rcv: Sbuf  // bytes from the guest that the host has not taken yet
    var noFdRef: bool        // SS_NOFDREF
    var fCantRcvMore: bool   // SS_FCANTRCVMORE
    var fCantSendMore: bool  // SS_FCANTSENDMORE
    var fwDrain: bool        // SS_FWDRAIN
    ghost var fromHost: seq<u8>  // everything ever received from the host
    ghost var toHost: seq<u8>    // everything the host ever accepted

    predicate Valid()
      reads so_snd, so_rcv
    {
      so_snd != so_rcv && so_snd.data != so_rcv.data && so_snd.Valid() && so_rcv.Valid()
    }

    ghost const Repr: set<object> := {this, so_snd, so_snd.data, so_rcv, so_rcv.data}

    /** Everything ever handed over for the host: what it took, then what still waits in the ring. */
    ghost function HandedOver(): (s: seq<u8>)
      reads this`toHost, so_rcv, so_rcv.data
      requires so_rcv.Valid()
    {
      toHost + so_rcv.Contents()
    }

    constructor (sndSize: nat, rcvSize: nat)
      requires 0 < sndSize && 0 < rcvSize
      ensures Valid() && fresh(Repr)
      ensures so_snd.Contents() == [] && so_rcv.Contents() == [] && fromHost == [] && toHost == []
      ensures so_snd.data.Length == sndSize && so_rcv.data.Length == rcvSize
      ensures !noFdRef && !fCantRcvMore && !fCantSendMore && !fwDrain
    {
      so_snd := new Sbuf(sndSize);
      so_rcv := new Sbuf(rcvSize);
      noFdRef, fCantRcvMore, fCantSendMore, fwDrain := false, false, false, false;
      fromHost, toHost := [], [];
    }

    /** sbappend: sends directly while nothing is waiting, and buffers what the host does not take. */
    method SbAppend(m: seq<u8>, answer: SendAnswer)
      requires Valid() && |m| <= so_rcv.Space()
      modifies this`toHost, so_rcv, so_rcv.data
      ensures Valid()
      ensures HandedOver() == old(HandedOver()) + m
      ensures old(toHost) <= toHost
      ensures |m| - so_rcv.cc + old(so_rcv.cc) == |toHost| - |old(toHost)|
      ensures !answer.Takes? ==> toHost == old(toHost)
    {
      if |m| <= 0 {
        return;
      }
      var ret := 0;
      if so_rcv.cc == 0 {
        ret := Taken(m, answer);
        toHost := toHost + m[..ret];
      }
      if ret <= 0 {
        so_rcv.SbAppendSb(m);
      } else if ret != |m| {
        so_rcv.SbAppendSb(m[ret..]);
      }
    }

    /** sopreprbuf: the free regions of so_snd that soread may fill. */
    method SoPrepRBuf(mss: nat) returns (total: nat, n: nat, iov0: Region, iov1: Region)
      requires Valid() && 0 < mss && 0 < so_snd.Space()
      ensures total == Offered(so_snd.Space(), mss) && 0 < iov0.len
      ensures n == 1 || n == 2
      ensures total == if n == 1 then iov0.len else iov0.len + iov1.len
      ensures iov0.at == so_snd.wptr && iov1.at == 0
      ensures so_snd.wptr < so_snd.rptr ==> n == 1 && so_snd.wptr + iov0.len <= so_snd.rptr
      ensures so_snd.rptr <= so_snd.wptr ==> so_snd.wptr + iov0.len <= so_snd.data.Length
      ensures n == 2 ==> so_snd.wptr + iov0.len == so_snd.data.Length && iov1.len <= so_snd.rptr
    {
      var size := so_snd.data.Length;
      var len := size - so_snd.cc;
      iov1 := Region(0, 0);
      var len0: int;
      if so_snd.wptr < so_snd.rptr {
        len0 := so_snd.rptr - so_snd.wptr;
        if len0 > len {
          len0 := len;
        }
        if len0 > mss {
          len0 := len0 - len0 % mss;
        }
        n := 1;
      } else {
        len0 := size - so_snd.wptr;
        if len0 > len {
          len0 := len;
        }
        len := len - len0;
        if len > 0 {
          var len1 := so_snd.rptr;
          if len1 > len {
            len1 := len;
          }
          total := len0 + len1;
          if total > mss {
            var lss := total % mss;
            if len1 > lss {
              len1 := len1 - lss;
              n := 2;
            } else {
              lss := lss - len1;
              len0 := len0 - lss;
              n := 1;
            }
          } else {
            n := 2;
          }
          iov1 := Region(0, len1);
        } else {
          if len0 > mss {
            len0 := len0 - len0 % mss;
          }
          n := 1;
        }
      }
      iov0 := Region(so_snd.wptr, len0);
      total := iov0.len + (n - 1) * iov1.len;
    }

    /**
     The one or two `recv` calls of soread, with the bytes the host has ready at the first and gets before the
     second.
     */
    method Recv(iov0: Region, iov1: Region, n: nat, recv0: seq<u8>, recv1: seq<u8>) returns (read: seq<u8>)
      requires Room(so_snd.data.Length, so_snd.rptr, so_snd.wptr, if n == 2 then iov0.len + iov1.len else iov0.len)
      requires iov0.at == so_snd.wptr && iov1.at == 0 && iov0.at + iov0.len <= so_snd.data.Length
      requires n == 2 ==> so_snd.rptr <= so_snd.wptr && iov0.at + iov0.len == so_snd.data.Length
      modifies so_snd.data
      ensures |read| <= if n == 2 then iov0.len + iov1.len else iov0.len
      ensures read <= recv0 + recv1 && (recv0 != [] && 0 < iov0.len ==> read != [])
      ensures Room(so_snd.data.Length, so_snd.rptr, so_snd.wptr, |read|)
      ensures so_snd.data[..] == Written(old(so_snd.data[..]), so_snd.rptr, so_snd.wptr, read)
    {
      ghost var before := so_snd.data[..];
      var got0 := recv0[..Min(|recv0|, iov0.len)];
      MemCpy(so_snd.data, iov0.at, got0);
      if n == 2 && |got0| == iov0.len {
        var rest := recv0[|got0|..] + recv1;
        var got1 := rest[..Min(|rest|, iov1.len)];
        MemCpy(so_snd.data, iov1.at, got1);
        read := got0 + got1;
        assert recv0 + recv1 == got0 + rest;
        WrittenInTwo(before, so_snd.rptr, so_snd.wptr, got0, got1, so_snd.data[..]);
      } else {
        read := got0;
      }
    }

    /** soread's transfer: reads from the host into the regions that sopreprbuf offers. */
    method Fill(mss: nat, recv0: seq<u8>, recv1: seq<u8>) returns (read: seq<u8>)
      requires Valid() && 0 < mss && 0 < so_snd.Space()
      modifies this`fromHost, so_snd, so_snd.data
      ensures Valid()
      ensures |read| <= Offered(old(so_snd.Space()), mss)
      ensures read <= recv0 + recv1 && (recv0 != [] ==> read != [])
      ensures so_snd.Contents() == old(so_snd.Contents()) + read
      ensures fromHost == old(fromHost) + read
    {
      var total, n, iov0, iov1 := SoPrepRBuf(mss);
      ghost var before := so_snd.data[..];
      read := Recv(iov0, iov1, n, recv0, recv1);
      so_snd.Extend(|read|, before, read);
      fromHost := fromHost + read;
    }

    /** The two memcpy calls of soreadbuf. */
    method CopyBuf(iov0: Region, iov1: Region, n: nat, buf: seq<u8>)
      requires Room(so_snd.data.Length, so_snd.rptr, so_snd.wptr, |buf|)
      requires iov0.at == so_snd.wptr && iov1.at == 0 && iov0.at + iov0.len <= so_snd.data.Length
      requires |buf| > iov0.len ==> n == 2 && so_snd.rptr <= so_snd.wptr && iov0.at + iov0.len == so_snd.data.Length
      modifies so_snd.data
      ensures so_snd.data[..] == Written(old(so_snd.data[..]), so_snd.rptr, so_snd.wptr, buf)
    {
      ghost var before := so_snd.data[..];
      var nn := Min(iov0.len, |buf|);
      MemCpy(so_snd.data, iov0.at, buf[..nn]);
      if nn < |buf| {
        MemCpy(so_snd.data, iov1.at, buf[nn..]);
      }
      assert buf == buf[..nn] + buf[nn..];
      WrittenInTwo(before, so_snd.rptr, so_snd.wptr, buf[..nn], buf[nn..], so_snd.data[..]);
    }

    /** soreadbuf up to the error label: takes all of `buf`, or nothing when sopreprbuf offers less. */
    method SoReadBuf(mss: nat, buf: seq<u8>) returns (ok: bool)
      requires Valid() && 0 < mss && buf != []
      modifies this`fromHost, so_snd, so_snd.data
      ensures Valid()
      ensures ok <==> |buf| <= Offered(old(so_snd.Space()), mss)
      ensures so_snd.Contents() == old(so_snd.Contents()) + if ok then buf else []
      ensures fromHost == old(fromHost) + if ok then buf else []
    {
      if so_snd.Space() == 0 {
        return false;
      }
      var total, n, iov0, iov1 := SoPrepRBuf(mss);
      ok := |buf| <= total;
      if ok {
        ghost var before := so_snd.data[..];
        CopyBuf(iov0, iov1, n, buf);
        so_snd.Extend(|buf|, before, buf);
        fromHost := fromHost + buf;
      }
    }

    /** sofcantrcvmore. */
    method SoFCantRcvMore()
      modifies this`noFdRef, this`fCantRcvMore, this`fCantSendMore, this`fwDrain
      ensures if old(fCantSendMore) then noFdRef && !fCantRcvMore && !fCantSendMore && !fwDrain
              else fCantRcvMore && !fCantSendMore && noFdRef == old(noFdRef) && fwDrain == old(fwDrain)
    {
      if fCantSendMore {
        fCantRcvMore, fCantSendMore, fwDrain := false, false, false;
        noFdRef := true;
      } else {
        fCantRcvMore := true;
      }
    }

    /** sofcantsendmore. */
    method SoFCantSendMore()
      modifies this`noFdRef, this`fCantRcvMore, this`fCantSendMore, this`fwDrain
      ensures if old(fCantRcvMore) then noFdRef && !fCantRcvMore && !fCantSendMore && !fwDrain
              else fCantSendMore && !fCantRcvMore && noFdRef == old(noFdRef) && fwDrain == old(fwDrain)
    {
      if fCantRcvMore {
        fCantRcvMore, fCantSendMore, fwDrain := false, false, false;
        noFdRef := true;
      } else {
        fCantSendMore := true;
      }
    }

    /** sofwdrain: after a FIN from the guest, shut down at once or when the ring has drained. */
    method SoFwDrain()
      modifies this`noFdRef, this`fCantRcvMore, this`fCantSendMore, this`fwDrain
      ensures so_rcv.cc > 0 ==> fwDrain && noFdRef == old(noFdRef) && fCantRcvMore == old(fCantRcvMore)
                                && fCantSendMore == old(fCantSendMore)
      ensures so_rcv.cc == 0 ==> noFdRef || fCantSendMore
    {
      if so_rcv.cc > 0 {
        fwDrain := true;
      } else {
        SoFCantSendMore();
      }
    }

    /** The readable regions of so_rcv that sowrite passes to `send`. */
    method Readable() returns (iov0: seq<u8>, iov1: seq<u8>)
      requires Valid()
      ensures so_rcv.Contents() == iov0 + iov1
    {
      var size := so_rcv.data.Length;
      var len := so_rcv.cc;
      iov1 := [];
      if so_rcv.rptr < so_rcv.wptr {
        iov0 := so_rcv.data[so_rcv.rptr..so_rcv.wptr];
      } else {
        var len0 := Min(size - so_rcv.rptr, len);
        iov0 := so_rcv.data[so_rcv.rptr..so_rcv.rptr + len0];
        len := len - len0;
        if len > 0 {
          iov1 := so_rcv.data[..Min(so_rcv.wptr, len)];
        }
      }
    }

    /**
     The transfer of sowrite: one or two `send` calls on the readable regions. `ok` is false when the
     host has gone, which the caller treats as a close.
     */
    method Drain(send0: SendAnswer, send1: SendAnswer) returns (ok: bool, nn: nat)
      requires Valid() && 0 < so_rcv.cc
      modifies this`toHost, this`noFdRef, this`fCantRcvMore, this`fCantSendMore, this`fwDrain, so_rcv
      ensures Valid() && fromHost == old(fromHost)
      ensures HandedOver() == old(HandedOver()) && old(toHost) <= toHost
      ensures nn == |toHost| - |old(toHost)| == old(so_rcv.cc) - so_rcv.cc
      ensures ok <==> send0.Busy? || nn > 0
      ensures nn > 0 && old(fwDrain) && so_rcv.cc == 0 ==> noFdRef || fCantSendMore
      ensures !(nn > 0 && old(fwDrain) && so_rcv.cc == 0) ==>
                noFdRef == old(noFdRef) && fCantRcvMore == old(fCantRcvMore)
                && fCantSendMore == old(fCantSendMore) && fwDrain == old(fwDrain)
    {
      var iov0, iov1 := Readable();
      if send0.Busy? {
        return true, 0;
      }
      nn := Taken(iov0, send0);
      if nn <= 0 {
        return false, 0;
      }
      if iov1 != [] && nn == |iov0| {
        nn := nn + Taken(iov1, send1);
      }
      ghost var before := so_rcv.Contents();
      so_rcv.Advance(nn);
      toHost := toHost + before[..nn];
      MoveOver(old(toHost), before, nn);
      if fwDrain && so_rcv.cc == 0 {
        SoFCantSendMore();
      }
      ok := true;
    }
  }
}
