/**
 IP fragmentation (ip_output.c) and reassembly (ip_input.c). A packet is its header without the length,
 the 16-bit `ip_off` field with its flags, and the payload; headers are always 20 bytes long on output.
 */
module IpFrags {
  import opened SeqNum
  import opened Spans

  const HLEN := 20
  const IP_DF := 0x4000
  const IP_MF := 0x2000
  const IPFRAGTTL := 60
  const IP_MAXPACKET := 65535

  datatype Header = Header(tos: u8, ttl: u8, p: u8, id: u16, src: u32, dst: u32)

  datatype Packet = Packet(h: Header, off: u16, data: seq<u8>)

  datatype Option<T> = None | Some(value: T)

  /** `ip_off & IP_MF`. */
  predicate MoreFragments(f: Packet) { f.off / IP_MF % 2 == 1 }

  /** `ip_off & IP_DF`. */
  predicate DontFragment(f: Packet) { f.off / IP_DF % 2 == 1 }

  /** The offset in bytes: `ip_off << 3` in 16 bits. */
  function Offset(f: Packet): (n: nat)
    ensures n == f.off % IP_MF * 8
  {
    f.off * 8 % 0x1_0000
  }

  function Extent(f: Packet): Span { Span(Offset(f), Offset(f) + |f.data|) }

  ghost function Extents(fs: seq<Packet>): (ss: seq<Span>)
    ensures |ss| == |fs|
  {
    seq(|fs|, i requires 0 <= i < |fs| => Extent(fs[i]))
  }

  /** Fragment `f` carries a nonempty piece of payload `D`, and says whether more follows. */
  ghost predicate FragmentOf(D: seq<u8>, f: Packet) {
    var s := Extent(f);
    && f.data != [] && s.hi <= |D| && f.data == D[s.lo..s.hi]
    && (MoreFragments(f) <==> s.hi < |D|)
  }

  /**
   `fs` cuts the first `at` bytes of payload `D` into pieces of `len` bytes under header `h`; only the last one of
   all may be shorter.
   */
  ghost predicate CutUpTo(h: Header, D: seq<u8>, len: nat, fs: seq<Packet>, at: int) {
    && fs != [] && at <= |D|
    && (forall i :: 0 <= i < |fs| ==>
      fs[i].h == h && FragmentOf(D, fs[i]) && |fs[i].data| <= len && !DontFragment(fs[i]))
    && (forall i :: 0 <= i < |fs| && (i < |fs| - 1 || at < |D|) ==> |fs[i].data| == len)
    && Contiguous(Extents(fs), 0) && End(Extents(fs), 0) == at
  }

  ghost predicate Fragments(h: Header, D: seq<u8>, len: nat, fs: seq<Packet>) {
    CutUpTo(h, D, len, fs, |D|)
  }

  /** The `ip_off` field of a fragment that begins at `at`, with the MF bit if there is `more`. */
  function OffField(at: nat, more: bool): (off: u16)
    requires at % 8 == 0 && at <= IP_MAXPACKET
    ensures off % IP_MF * 8 == at && (off / IP_MF % 2 == 1 <==> more) && off / IP_DF % 2 == 0
  {
    at / 8 + if more then IP_MF else 0
  }

  /** The fragment of `D` that begins at `at`. */
  function Cut(h: Header, D: seq<u8>, at: nat, len: nat): (f: Packet)
    requires at % 8 == 0 && at < |D| <= IP_MAXPACKET - HLEN && 0 < len
    ensures f.h == h && FragmentOf(D, f) && Extent(f) == Span(at, Min(at + len, |D|)) && !DontFragment(f)
  {
    if at + len >= |D| then Packet(h, OffField(at, false), D[at..]) else Packet(h, OffField(at, true), D[at..at + len])
  }

  lemma CutFirst(h: Header, D: seq<u8>, len: nat)
    requires 0 < len < |D| <= IP_MAXPACKET - HLEN
    ensures CutUpTo(h, D, len, [Cut(h, D, 0, len)], len)
  {
    hide FragmentOf, Cut, DontFragment;
    var f := Cut(h, D, 0, len);
    assert Extents([f]) == [Extent(f)];
    assert [f][0] == f && Contiguous([Extent(f)][1..], len);
  }

  lemma CutNext(h: Header, D: seq<u8>, len: nat, fs: seq<Packet>, at: nat)
    requires CutUpTo(h, D, len, fs, at) && 0 < len && at % 8 == 0 && at < |D| <= IP_MAXPACKET - HLEN
    ensures CutUpTo(h, D, len, fs + [Cut(h, D, at, len)], Min(at + len, |D|))
  {
    hide FragmentOf, DontFragment, Cut;
    var f := Cut(h, D, at, len);
    ContiguousAppend(Extents(fs), Extent(f), 0);
    ExtentsAppend(fs, f);
  }

  lemma {:induction false} ContiguousAppend(ss: seq<Span>, s: Span, from: int)
    requires Contiguous(ss, from) && s.lo == End(ss, from)
    ensures Contiguous(ss + [s], from)
  {
    if ss == [] {
      assert ss + [s] == [s];
    } else {
      assert (ss + [s])[1..] == ss[1..] + [s];
      assert End(ss[1..], ss[0].hi) == End(ss, from);
      ContiguousAppend(ss[1..], s, ss[0].hi);
    }
  }

  lemma ExtentsAppend(fs: seq<Packet>, f: Packet)
    ensures Extents(fs + [f]) == Extents(fs) + [Extent(f)]
  {
  }

  /** slirp's sending side of IP: the identification counter, and the packets passed on to if_output. */
  class IpSender {
    var ip_id: u16
    var sent: seq<Packet>

    constructor ()
      ensures sent == []
    {
      ip_id, sent := 0, [];
    }

    /**
     The loop of ip_output: cuts payload `D` into fragments with `len` data bytes each. It fails when m_get
     has no mbuf left for one of them, and then no fragment is sent at all.
     */
    method Fragment(h: Header, D: seq<u8>, firstlen: nat, mbufs: nat) returns (error: bool, fs: seq<Packet>)
      requires 8 <= firstlen < |D| <= IP_MAXPACKET - HLEN && firstlen % 8 == 0
      ensures !error ==> Fragments(h, D, firstlen, fs) && |fs| <= mbufs + 1
      ensures error ==> fs == []
    {
      hide CutUpTo, Cut;
      var len := firstlen;
      var off := HLEN + len;
      fs := [Cut(h, D, 0, len)];
      CutFirst(h, D, len);
      while off < HLEN + |D|
        invariant HLEN + firstlen <= off <= HLEN + |D|
                    && (off < HLEN + |D| ==> len == firstlen && (off - HLEN) % 8 == 0)
        invariant |fs| <= mbufs + 1 && CutUpTo(h, D, firstlen, fs, off - HLEN)
        decreases HLEN + |D| - off
      {
        if |fs| > mbufs {
          return true, [];
        }
        CutNext(h, D, len, fs, off - HLEN);
        fs := fs + [Cut(h, D, off - HLEN, len)];
        if off + len >= HLEN + |D| {
          len := HLEN + |D| - off;
        }
        off := off + len;
      }
      error := false;
    }

    /** ip_output: a packet that fits goes out as it is, another one in fragments, or not at all. */
    method IpOutput(h0: Header, df: bool, D: seq<u8>, mtu: int, mbufs: nat) returns (error: bool, ghost fs: seq<Packet>)
      requires |D| <= IP_MAXPACKET - HLEN
      modifies this
      ensures ip_id == (old(ip_id) + 1) % 0x1_0000
      ensures sent == old(sent) + fs
      ensures HLEN + |D| <= mtu ==>
                !error && fs == [Packet(h0.(id := old(ip_id)), if df then IP_DF else 0, D)]
      ensures HLEN + |D| > mtu && (df || mtu < HLEN + 8) ==> error
      ensures error ==> fs == [] && HLEN + |D| > mtu
      ensures HLEN + |D| > mtu && !error ==>
                && Fragments(h0.(id := old(ip_id)), D, (mtu - HLEN) / 8 * 8, fs)
                && forall i :: 0 <= i < |fs| ==> HLEN + |fs[i].data| <= mtu
    {
      var h := h0.(id := ip_id);
      ip_id := (ip_id + 1) % 0x1_0000;
      if HLEN + |D| <= mtu {
        var whole := Packet(h, if df then IP_DF else 0, D);
        fs := [whole];
        sent := sent + [whole];
        return false, fs;
      }
      if df {
        return true, [];
      }
      var len := (mtu - HLEN) / 8 * 8;
      if len < 8 {
        return true, [];
      }
      var out;
      error, out := Fragment(h, D, len, mbufs);
      sent := sent + out;
      fs := out;
    }
  }

  // ---------------------------------------------------------------------------------- reassembly

  /** What identifies a datagram. */
  datatype Key = Key(id: u16, src: u32, dst: u32, p: u8)

  function KeyOf(h: Header): Key { Key(h.id, h.src, h.dst, h.p) }

  /** A fragment in the queue: the low bit of `h.tos` says that more follow, the offset is in bytes. */
  datatype Piece = Piece(h: Header, off: nat, data: seq<u8>)

  predicate More(f: Piece) { f.h.tos % 2 == 1 }

  function Reach(f: Piece): Span { Span(f.off, f.off + |f.data|) }

  ghost function Reaches(fs: seq<Piece>): (ss: seq<Span>)
    ensures |ss| == |fs|
  {
    seq(|fs|, i requires 0 <= i < |fs| => Reach(fs[i]))
  }

  ghost predicate PieceOf(D: seq<u8>, f: Piece) {
    && f.data != [] && f.off + |f.data| <= |D| && f.data == D[f.off..f.off + |f.data|]
    && (More(f) <==> f.off + |f.data| < |D|)
  }

  /** Cutting the first `i` bytes off leaves a piece of the same datagram. */
  lemma PieceTrim(D: seq<u8>, f: Piece, i: nat)
    requires PieceOf(D, f) && i < |f.data|
    ensures PieceOf(D, Piece(f.h, f.off + i, f.data[i..]))
  {
  }

  /** The concatenation of the first `n` pieces. */
  function Joined(fs: seq<Piece>): (d: seq<u8>) {
    if fs == [] then [] else Joined(fs[..|fs| - 1]) + fs[|fs| - 1].data
  }

  lemma JoinStep(D: seq<u8>, d: seq<u8>, f: Piece)
    requires PieceOf(D, f) && d == D[..f.off]
    ensures f.off + |f.data| <= |D| && d + f.data == D[..f.off + |f.data|]
  {
  }

  lemma {:induction false} JoinedContiguous(D: seq<u8>, fs: seq<Piece>)
    requires (forall i :: 0 <= i < |fs| ==> PieceOf(D, fs[i])) && Contiguous(Reaches(fs), 0)
    ensures 0 <= End(Reaches(fs), 0) <= |D| && Joined(fs) == D[..End(Reaches(fs), 0)]
  {
    hide Contiguous, PieceOf;
    if fs != [] {
      var k := |fs| - 1;
      ReachesSlice(fs, k);
      ContiguousPrefix(Reaches(fs), 0, k);
      JoinedContiguous(D, fs[..k]);
      JoinStep(D, Joined(fs[..k]), fs[k]);
    }
  }

  lemma {:induction false} ContiguousPrefix(ss: seq<Span>, from: int, k: nat)
    requires Contiguous(ss, from) && k < |ss|
    ensures Contiguous(ss[..k], from) && ss[k].lo == End(ss[..k], from)
  {
    if k > 0 {
      ContiguousPrefix(ss[1..], ss[0].hi, k - 1);
      assert ss[1..][..k - 1] == ss[..k][1..];
      assert End(ss[..k], from) == End(ss[..k][1..], ss[0].hi);
    }
  }

  lemma ReachesSplice(a: seq<Piece>, f: Piece, b: seq<Piece>)
    ensures Reaches(a + [f] + b) == Reaches(a) + [Reach(f)] + Reaches(b)
  {
  }

  lemma ReachesSlice(fs: seq<Piece>, q: nat)
    requires q <= |fs|
    ensures Reaches(fs[..q]) == Reaches(fs)[..q] && Reaches(fs[q..]) == Reaches(fs)[q..]
  {
  }

  /** struct ipq: the fragments of one datagram that have arrived so far, and how long to wait for the rest. */
  class Ipq {
    const key: Key
    ghost const whole: seq<u8>  // the payload of the datagram
    var ttl: u8
    var frags: seq<Piece>

    ghost predicate Pieces()
      reads this`frags
    {
      Ordered(Reaches(frags)) && forall i :: 0 <= i < |frags| ==> PieceOf(whole, frags[i])
    }

    ghost predicate Full()
      reads this`frags
    {
      Range(Span(0, |whole|)) <= Cover(Reaches(frags))
    }

    /** Between calls the fragments are disjoint, sorted pieces of the datagram, and something is missing. */
    ghost predicate Valid()
      reads this`frags
    {
      Pieces() && !Full()
    }

    constructor (key: Key, ghost whole: seq<u8>)
      requires whole != []
      ensures Valid() && this.key == key && this.whole == whole && frags == [] && ttl == IPFRAGTTL
    {
      this.key, this.whole := key, whole;
      ttl, frags := IPFRAGTTL, [];
      assert 0 in Range(Span(0, |whole|));
    }

    /** The search loop of ip_reass: how many fragments do not begin after `off`. */
    method Find(off: nat) returns (q: nat)
      ensures q == Before(Reaches(frags), off) <= |frags|
    {
      q := 0;
      ghost var ss := Reaches(frags);
      while q < |frags| && frags[q].off <= off
        invariant q <= |frags| && Before(ss, off) == q + Before(ss[q..], off)
      {
        assert ss[q..][1..] == ss[q + 1..];
        q := q + 1;
      }
    }

    /** Drops what the preceding fragment already provides; `dup` says that this is everything. */
    method TrimByPredecessor(q: nat, f0: Piece) returns (dup: bool, f: Piece)
      requires Pieces() && PieceOf(whole, f0) && q == Before(Reaches(frags), f0.off)
      ensures dup ==> Spans.Insert(Reaches(frags), Reach(f0)) == Reaches(frags)
      ensures !dup ==> PieceOf(whole, f)
      ensures !dup ==> Spans.Insert(Reaches(frags), Reach(f0)) ==
                         Reaches(frags)[..q] + [Reach(f)] + CutBelow(Reaches(frags)[q..], Reach(f).hi)
    {
      hide CutBelow, Before, Ordered, PieceOf;
      dup, f := false, f0;
      if q > 0 {
        var pq := frags[q - 1];
        assert Reaches(frags)[q - 1] == Reach(pq);
        var i := pq.off + |pq.data| - f.off;
        if i > 0 {
          if i >= |f.data| {
            dup := true;
            return;
          }
          PieceTrim(whole, f, i);
          f := Piece(f.h, f.off + i, f.data[i..]);
        }
      }
    }

    static lemma ReachesFrom(fs: seq<Piece>, q: nat)
      requires q <= |fs|
      ensures |Reaches(fs)[q..]| == |fs| - q && (q < |fs| ==> Reaches(fs)[q..][0] == Reach(fs[q]))
    {
    }

    static lemma ReachesReplace(fs: seq<Piece>, q: nat, g: Piece)
      requires q < |fs|
      ensures Reaches(fs[q := g])[q..] == [Reach(g)] + Reaches(fs)[q..][1..]
    {
    }

    static lemma ReachesRemove(fs: seq<Piece>, q: nat)
      requires q < |fs|
      ensures Reaches(fs[..q] + fs[q + 1..])[q..] == Reaches(fs)[q..][1..]
    {
    }

    /** The loop that shortens or drops the following fragments as far as `f` covers them. */
    method TrimSuccessors(q: nat, f: Piece)
      requires Pieces() && q <= |frags| && PieceOf(whole, f)
      modifies this`frags
      ensures q <= |frags| && frags[..q] == old(frags[..q])
      ensures forall i :: 0 <= i < |frags| ==> PieceOf(whole, frags[i])
      ensures Reaches(frags)[q..] == CutBelow(old(Reaches(frags)[q..]), Reach(f).hi)
    {
      hide Ordered, PieceOf, Reaches;
      ghost var ss := Reaches(frags)[q..];
      ReachesFrom(frags, q);
      while q < |frags| && f.off + |f.data| > frags[q].off
        invariant q <= |frags| && frags[..q] == old(frags[..q])
        invariant forall i :: 0 <= i < |frags| ==> PieceOf(whole, frags[i])
        invariant CutBelow(Reaches(frags)[q..], Reach(f).hi) == CutBelow(ss, Reach(f).hi)
        invariant |Reaches(frags)[q..]| == |frags| - q && (q < |frags| ==> Reaches(frags)[q..][0] == Reach(frags[q]))
        decreases |frags|
      {
        var i := f.off + |f.data| - frags[q].off;
        if i < |frags[q].data| {
          PieceTrim(whole, frags[q], i);
          var g := Piece(frags[q].h, frags[q].off + i, frags[q].data[i..]);
          ReachesReplace(frags, q, g);
          frags := frags[q := g];
          break;
        }
        ReachesRemove(frags, q);
        frags := frags[..q] + frags[q + 1..];
        ReachesFrom(frags, q);
      }
    }

    /** ip_reass up to the label `insert` and the insertion; `dup` when everything was there already. */
    method Insert(f0: Piece) returns (dup: bool)
      requires Pieces() && PieceOf(whole, f0)
      modifies this`frags
      ensures Pieces()
      ensures Cover(Reaches(frags)) == old(Cover(Reaches(frags))) + Range(Reach(f0))
      ensures dup ==> frags == old(frags)
      ensures frags != []
    {
      hide Ordered, Cover, CutBelow, Spans.Insert, Before;
      InsertSpec(Reaches(frags), Reach(f0));
      var q := Find(f0.off);
      var f;
      dup, f := TrimByPredecessor(q, f0);
      if dup {
        SomethingThere(f0);
        return;
      }
      TrimSuccessors(q, f);
      ReachesSlice(old(frags), q);
      ReachesSlice(frags, q);
      ReachesSplice(frags[..q], f, frags[q..]);
      assert forall g :: g in frags[q..] ==> g in frags;
      frags := frags[..q] + [f] + frags[q..];
    }

    lemma SomethingThere(f0: Piece)
      requires PieceOf(whole, f0) && Spans.Insert(Reaches(frags), Reach(f0)) == Reaches(frags)
      ensures frags != []
    {
    }

    /** The completeness test of ip_reass: no gap from offset 0 on, and nothing more to come after the last fragment. */
    method Complete() returns (full: bool)
      requires Pieces() && frags != []
      ensures full <==> Full()
      ensures full ==> Contiguous(Reaches(frags), 0) && End(Reaches(frags), 0) == |whole|
    {
      hide Cover, Ordered;
      var next := 0;
      ghost var ss := Reaches(frags);
      GapIffNotFull();
      for q := 0 to |frags|
        invariant Contiguous(ss, 0) <==> Contiguous(ss[q..], next)
        invariant q > 0 ==> next == ss[q - 1].hi
      {
        if frags[q].off != next {
          return false;
        }
        assert ss[q..][1..] == ss[q + 1..];
        next := next + |frags[q].data|;
      }
      full := !More(frags[|frags| - 1]);
    }

    lemma GapIffNotFull()
      requires Pieces() && frags != []
      ensures Full() <==> Contiguous(Reaches(frags), 0) && End(Reaches(frags), 0) == |whole|
      ensures End(Reaches(frags), 0) == |whole| <==> !More(frags[|frags| - 1])
    {
      var ss := Reaches(frags);
      ContiguousIffFull(ss, 0, |whole|);
    }

    /** The end of ip_reass: one packet with the data of all fragments, under the header of the first one. */
    method Join() returns (r: Packet)
      requires Pieces() && frags != [] && Contiguous(Reaches(frags), 0) && End(Reaches(frags), 0) == |whole|
      ensures r.data == whole && KeyOf(r.h) == Key(frags[0].h.id, key.src, key.dst, frags[0].h.p) && r.off == 0
    {
      var data := frags[0].data;
      assert frags[..1][..0] == [] && Joined(frags[..1]) == data;
      for q := 1 to |frags|
        invariant data == Joined(frags[..q])
      {
        assert frags[..q + 1][..q] == frags[..q];
        data := data + frags[q].data;
      }
      assert frags[..|frags|] == frags;
      JoinedContiguous(whole, frags);
      var h := frags[0].h;
      r := Packet(h.(tos := h.tos - h.tos % 2, src := key.src, dst := key.dst), 0, data);
    }

    /** ip_reass: takes in a fragment, and gives back the whole packet at the arrival that completes it. */
    method Reass(f: Piece) returns (r: Option<Packet>)
      requires Valid() && PieceOf(whole, f)
      modifies this`frags
      ensures r.Some? <==> Range(Span(0, |whole|)) <= old(Cover(Reaches(frags))) + Range(Reach(f))
      ensures r.Some? ==> r.value.data == whole && r.value.off == 0
      ensures r.None? ==> Valid() && Cover(Reaches(frags)) == old(Cover(Reaches(frags))) + Range(Reach(f))
    {
      hide Cover, Contiguous, Pieces;
      var dup := Insert(f);
      if dup {
        return None;
      }
      var full := Complete();
      if !full {
        return None;
      }
      var p := Join();
      r := Some(p);
    }
  }

  /** `ip_off & ~IP_DF`: the packet takes the way through reassembly. */
  predicate Partial(f: Packet) { f.off % IP_DF != 0 || f.off / 0x8000 == 1 }

  /** A fragment proper: more follow, or it does not begin the datagram. */
  predicate IsFragment(f: Packet) { MoreFragments(f) || Offset(f) != 0 }

  /** The fragment as it is kept in the queue, with the MF bit in the type of service and the offset in bytes. */
  function ToPiece(f: Packet): (g: Piece)
    ensures Reach(g) == Extent(f)
    ensures forall D :: FragmentOf(D, f) ==> PieceOf(D, g)
  {
    Piece(f.h.(tos := f.h.tos - f.h.tos % 2 + if MoreFragments(f) then 1 else 0), Offset(f), f.data)
  }

  /** `rs` is what remains of `qs` when only the places listed in `at` are kept, in their order. */
  ghost predicate Selected(qs: seq<Ipq>, at: seq<nat>, rs: seq<Ipq>) {
    && |at| == |rs|
    && (forall k :: 0 <= k < |at| ==> at[k] < |qs| && rs[k] == qs[at[k]])
    && (forall j, k :: 0 <= j < k < |at| ==> at[j] < at[k])
  }

  lemma SelectedAppend(qs: seq<Ipq>, at: seq<nat>, rs: seq<Ipq>, i: nat)
    requires Selected(qs, at, rs) && i < |qs| && forall j :: j in at ==> j < i
    ensures Selected(qs, at + [i], rs + [qs[i]])
  {
    assert forall j :: 0 <= j < |at| ==> at[j] in at;
  }

  /** slirp's receiving side of IP: the reassembly queues, most recent first. */
  class IpReceiver {
    var queues: seq<Ipq>
    ghost const sent: Key -> seq<u8>  // the payload of the one datagram that each key stands for

    constructor (ghost sent: Key -> seq<u8>)
      ensures Valid() && queues == [] && this.sent == sent
    {
      this.sent := sent;
      queues := [];
    }

    ghost predicate Valid()
      reads this, queues
    {
      && (forall i :: 0 <= i < |queues| ==>
        queues[i].Valid() && 0 < queues[i].ttl && queues[i].whole == sent(queues[i].key))
      && (forall i, j :: 0 <= i < j < |queues| ==> queues[i].key != queues[j].key)
    }

    /** The bytes of datagram `k` that have arrived so far. */
    ghost function Have(k: Key): set<int>
      reads this, queues
    {
      set q, x | q in queues && q.key == k && x in Cover(Reaches(q.frags)) :: x
    }

    lemma HaveAt(i: nat)
      requires Valid() && i < |queues|
      ensures Have(queues[i].key) == Cover(Reaches(queues[i].frags))
    {
      hide Cover, Reaches, Ipq.Valid;
      var p := queues[i];
      assert forall q :: q in queues && q.key == p.key ==> q == p;
      forall x | x in Cover(Reaches(p.frags))
        ensures x in Have(p.key)
      {
        assert p in queues;
      }
    }

    lemma HaveNothing(k: Key)
      requires forall j :: 0 <= j < |queues| ==> queues[j].key != k
      ensures Have(k) == {}
    {
    }

    /** The look-up of ip_input: where the queue with key `k` is, if there is one. */
    method Lookup(k: Key) returns (i: nat)
      requires Valid()
      ensures i <= |queues|
      ensures i < |queues| ==> queues[i].key == k
      ensures i == |queues| ==> forall j :: 0 <= j < |queues| ==> queues[j].key != k
    {
      i := 0;
      while i < |queues| && queues[i].key != k
        invariant i <= |queues|
        invariant forall j :: 0 <= j < i ==> queues[j].key != k
      {
        i := i + 1;
      }
    }

    /** ip_freef: unlinks a queue. */
    method Free(i: nat)
      requires i < |queues|
      modifies this
      ensures queues == old(queues[..i] + queues[i + 1..])
      ensures forall q: Ipq :: q in queues ==> q in old(queues)
      ensures forall q: Ipq :: q in old(queues) && q != old(queues[i]) ==> q in queues
    {
      queues := queues[..i] + queues[i + 1..];
    }

    /** Without one of its queues the list is still in order, and holds nothing under that queue's key. */
    lemma FreedIsValid(qs: seq<Ipq>, i: nat)
      requires i < |qs| && queues == qs[..i] + qs[i + 1..]
      requires forall j :: 0 <= j < |qs| && j != i ==> qs[j].Valid() && 0 < qs[j].ttl && qs[j].whole == sent(qs[j].key)
      requires forall j, k :: 0 <= j < k < |qs| ==> qs[j].key != qs[k].key
      ensures Valid() && forall j :: 0 <= j < |queues| ==> queues[j].key != qs[i].key
    {
      hide Ipq.Valid;
      forall j | 0 <= j < |queues|
        ensures queues[j] == qs[if j < i then j else j + 1]
      {
      }
    }

    /** Passes fragment `f` to the queue at `i`, which goes away if that completes the datagram. */
    method Advance(i: nat, f: Packet) returns (r: Option<Packet>)
      requires Valid() && i < |queues| && queues[i].key == KeyOf(f.h) && FragmentOf(sent(KeyOf(f.h)), f)
      modifies this, queues[i]
      ensures Valid() && (forall q :: q in queues ==> q in old(queues) && q.ttl == old(q.ttl))
      ensures r.Some? <==> Range(Span(0, |sent(KeyOf(f.h))|)) <= old(Have(KeyOf(f.h))) + Range(Extent(f))
      ensures r.Some? ==> r.value.data == sent(KeyOf(f.h)) && r.value.off == 0
      ensures Have(KeyOf(f.h)) == if r.Some? then {} else old(Have(KeyOf(f.h))) + Range(Extent(f))
      ensures forall k :: k != KeyOf(f.h) ==> Have(k) == old(Have(k))
    {
      hide Cover, Reaches, Ipq.Valid, FragmentOf, PieceOf, ToPiece;
      var q := queues[i];
      HaveAt(i);
      r := q.Reass(ToPiece(f));
      if r.Some? {
        ghost var qs := queues;
        Free(i);
        FreedIsValid(qs, i);
        HaveNothing(KeyOf(f.h));
      } else {
        HaveAt(i);
      }
    }

    /** A new, empty queue at the head of the list changes nothing about what has arrived. */
    method Open(k: Key)
      requires Valid() && sent(k) != [] && forall j :: 0 <= j < |queues| ==> queues[j].key != k
      modifies this
      ensures Valid() && queues != [] && fresh(queues[0]) && queues[1..] == old(queues) && queues[0].key == k
                && queues[0].ttl == IPFRAGTTL
      ensures forall k' :: Have(k') == old(Have(k'))
    {
      hide Reaches, Ipq.Valid;
      var q := new Ipq(k, sent(k));
      queues := [q] + queues;
    }

    /** ip_reass with its look-up: `mbuf` says whether m_get can provide for a new queue. */
    method Reassemble(f: Packet, mbuf: bool) returns (r: Option<Packet>)
      requires Valid() && FragmentOf(sent(KeyOf(f.h)), f)
      modifies this, queues
      ensures Valid() && forall q :: q in queues ==>
                (q in old(queues) && q.ttl == old(q.ttl)) || (fresh(q) && q.ttl == IPFRAGTTL)
      ensures forall k :: k != KeyOf(f.h) ==> Have(k) == old(Have(k))
      ensures mbuf ==> (r.Some? <==> Range(Span(0, |sent(KeyOf(f.h))|)) <= old(Have(KeyOf(f.h))) + Range(Extent(f)))
      ensures r.Some? ==> r.value.data == sent(KeyOf(f.h)) && r.value.off == 0
      ensures mbuf ==> Have(KeyOf(f.h)) == if r.Some? then {} else old(Have(KeyOf(f.h))) + Range(Extent(f))
    {
      hide Cover, Reaches, Ipq.Valid, Range;
      var i := Lookup(KeyOf(f.h));
      if i == |queues| {
        HaveNothing(KeyOf(f.h));
        if !mbuf {
          return None;
        }
        Open(KeyOf(f.h));
        i := 0;
      }
      r := Advance(i, f);
    }

    /** Gives up what has been collected of a datagram. */
    method Discard(k: Key)
      requires Valid()
      modifies this
      ensures Valid() && Have(k) == {} && (forall q :: q in queues ==> q in old(queues) && q.ttl == old(q.ttl))
      ensures forall k' :: k' != k ==> Have(k') == old(Have(k'))
    {
      hide Reaches, Cover, Ipq.Valid;
      var i := Lookup(k);
      if i < |queues| {
        ghost var qs := queues;
        Free(i);
        FreedIsValid(qs, i);
      }
      HaveNothing(k);
    }

    /**
     ip_input from the length checks on: whole packets pass through, fragments go into reassembly, and a packet
     with nothing but the reserved bit set discards what had been collected under its key.
     */
    method Input(f: Packet, mbuf: bool) returns (r: Option<Packet>)
      requires Valid() && (IsFragment(f) ==> FragmentOf(sent(KeyOf(f.h)), f))
      modifies this, queues
      ensures Valid() && forall q :: q in queues ==>
                (q in old(queues) && q.ttl == old(q.ttl)) || (fresh(q) && q.ttl == IPFRAGTTL)
      ensures forall k :: k != KeyOf(f.h) ==> Have(k) == old(Have(k))
      ensures !IsFragment(f) ==> r == Some(f) && Have(KeyOf(f.h)) == if Partial(f) then {} else old(Have(KeyOf(f.h)))
      ensures IsFragment(f) && mbuf ==>
                && (r.Some? <==> Range(Span(0, |sent(KeyOf(f.h))|)) <= old(Have(KeyOf(f.h))) + Range(Extent(f)))
                && Have(KeyOf(f.h)) == if r.Some? then {} else old(Have(KeyOf(f.h))) + Range(Extent(f))
      ensures IsFragment(f) && r.Some? ==> r.value.data == sent(KeyOf(f.h)) && r.value.off == 0
    {
      hide Cover, Reaches, Ipq.Valid, Range, FragmentOf;
      if Partial(f) {
        if IsFragment(f) {
          r := Reassemble(f, mbuf);
          return;
        }
        Discard(KeyOf(f.h));
      }
      r := Some(f);
    }

    /**
     ip_slowtimo: a datagram that has waited too long for its missing fragments is forgotten; `at` lists the
     queues that stay.
     */
    method SlowTimo() returns (ghost at: seq<nat>)
      requires Valid()
      modifies this, queues
      ensures Valid() && Selected(old(queues), at, queues)
      ensures forall j :: 0 <= j < |old(queues)| ==> (j in at <==> old(queues[j].ttl) != 1)
      ensures forall q :: q in queues ==> q in old(queues) && q.frags == old(q.frags) && q.ttl == old(q.ttl) - 1
    {
      hide Ipq.Valid, Selected;
      ghost var qs := queues;
      var kept: seq<Ipq>;
      kept, at := TickAll();
      KeptAreDistinct(qs, at, kept);
      forall q | q in kept
        ensures q.Valid() && 0 < q.ttl && q.whole == sent(q.key)
      {
        var j :| 0 <= j < |qs| && j in at && q == qs[j];
      }
      queues := kept;
    }

    /** The queues that stay are some of those there were, still with time left, and still with different keys. */
    static lemma KeptAreDistinct(qs: seq<Ipq>, at: seq<nat>, rs: seq<Ipq>)
      requires Selected(qs, at, rs) && forall i, j :: 0 <= i < j < |qs| ==> qs[i].key != qs[j].key
      ensures forall i, j :: 0 <= i < j < |rs| ==> rs[i].key != rs[j].key
      ensures forall q :: q in rs ==> exists j :: 0 <= j < |qs| && j in at && q == qs[j]
    {
      forall q | q in rs
        ensures exists j :: 0 <= j < |qs| && j in at && q == qs[j]
      {
        var k :| 0 <= k < |rs| && rs[k] == q;
        assert at[k] in at;
      }
    }

    /** A tick forgets nothing of a datagram whose queue may wait longer. */
    method Tick(k: Key)
      requires Valid() && forall q :: q in queues && q.key == k ==> 1 < q.ttl
      modifies this, queues
      ensures Valid() && Have(k) == old(Have(k)) && forall q :: q in queues ==>
                q in old(queues) && q.ttl == old(q.ttl) - 1
    {
      hide Ipq.Valid, Cover, Reaches, Range;
      ghost var qs := queues;
      ghost var at := SlowTimo();
      Remain(qs, at, queues, k);
      assert forall q: Ipq :: q in qs && q.key == k ==> q in queues;
    }

    static lemma Remain(qs: seq<Ipq>, at: seq<nat>, rs: seq<Ipq>, k: Key)
      requires Selected(qs, at, rs) && forall j :: 0 <= j < |qs| && qs[j].key == k ==> j in at
      ensures forall q :: q in qs && q.key == k ==> q in rs
    {
    }

    /** The loop of ip_slowtimo. */
    method TickAll() returns (kept: seq<Ipq>, ghost at: seq<nat>)
      requires forall j, k :: 0 <= j < k < |queues| ==> queues[j] != queues[k]
      requires forall j :: 0 <= j < |queues| ==> 0 < queues[j].ttl
      modifies queues`ttl
      ensures Selected(queues, at, kept)
      ensures forall j :: 0 <= j < |queues| ==> (j in at <==> old(queues[j].ttl) != 1)
      ensures forall j :: 0 <= j < |queues| ==> queues[j].ttl == old(queues[j].ttl) - 1
    {
      kept, at := [], [];
      assert Selected(queues, at, kept);
      hide Selected;
      for i := 0 to |queues|
        invariant Selected(queues, at, kept)
        invariant forall j :: 0 <= j < i ==> (j in at <==> old(queues[j].ttl) != 1)
        invariant forall j :: j in at ==> j < i
        invariant forall j :: 0 <= j < |queues| ==> queues[j].ttl == old(queues[j].ttl) - if j < i then 1 else 0
      {
        queues[i].ttl := queues[i].ttl - 1;
        if queues[i].ttl != 0 {
          SelectedAppend(queues, at, kept, i);
          kept, at := kept + [queues[i]], at + [i];
        }
      }
    }
  }

  // --------------------------------------------------------------- fragmentation, then reassembly

  predicate Numbers(fs: seq<Packet>, o: seq<nat>) {
    forall k :: 0 <= k < |o| ==> o[k] < |fs|
  }

  /** Every fragment's number is among those in `o`. */
  predicate AllThere(fs: seq<Packet>, o: seq<nat>) {
    forall j: nat :: j < |fs| ==> j in o
  }

  /** What the fragments with the numbers in `o` have brought. */
  ghost function Brought(fs: seq<Packet>, o: seq<nat>): set<int>
    requires Numbers(fs, o)
  {
    if o == [] then {} else Brought(fs, o[..|o| - 1]) + Range(Extent(fs[o[|o| - 1]]))
  }

  lemma {:induction false} BroughtBy(fs: seq<Packet>, o: seq<nat>, x: int)
    requires Numbers(fs, o)
    ensures x in Brought(fs, o) <==> exists k :: 0 <= k < |o| && x in Range(Extent(fs[o[k]]))
  {
    if o != [] {
      var l := |o| - 1;
      BroughtBy(fs, o[..l], x);
      assert forall k :: 0 <= k < l ==> o[..l][k] == o[k];
    }
  }

  lemma {:induction false} ContiguousOrdered(ss: seq<Span>, from: int)
    requires Contiguous(ss, from) && forall i :: 0 <= i < |ss| ==> ss[i].lo <= ss[i].hi
    ensures Ordered(ss) && from <= End(ss, from)
    ensures forall i :: 0 <= i < |ss| ==> from <= ss[i].lo && ss[i].hi <= End(ss, from)
  {
    if ss != [] {
      ContiguousOrdered(ss[1..], ss[0].hi);
      assert forall i :: 0 < i < |ss| ==> ss[i] == ss[1..][i - 1];
    }
  }

  /** The fragments partition the payload. */
  lemma FragmentsPartition(h: Header, D: seq<u8>, len: nat, fs: seq<Packet>)
    requires Fragments(h, D, len, fs)
    ensures Ordered(Extents(fs)) && Range(Span(0, |D|)) <= Cover(Extents(fs))
    ensures forall i :: 0 <= i < |fs| ==> 0 <= Extent(fs[i]).lo < Extent(fs[i]).hi <= |D|
  {
    var ss := Extents(fs);
    assert forall i :: 0 <= i < |fs| ==> ss[i] == Extent(fs[i]);
    ContiguousOrdered(ss, 0);
    ContiguousIffFull(ss, 0, |D|);
  }

  /** Some of the fragments cover the whole payload exactly when they are all there. */
  lemma FullIffAllThere(h: Header, D: seq<u8>, len: nat, fs: seq<Packet>, o: seq<nat>)
    requires Fragments(h, D, len, fs) && Numbers(fs, o)
    ensures Range(Span(0, |D|)) <= Brought(fs, o) <==> AllThere(fs, o)
  {
    hide CutUpTo, Fragments;
    FragmentsPartition(h, D, len, fs);
    if Range(Span(0, |D|)) <= Brought(fs, o) {
      forall j: nat | j < |fs|
        ensures j in o
      {
        var x := Extent(fs[j]).lo;
        assert x in Range(Span(0, |D|));
        BroughtBy(fs, o, x);
        var k :| 0 <= k < |o| && x in Range(Extent(fs[o[k]]));
        var i := o[k];
        assert Extents(fs)[i] == Extent(fs[i]) && Extents(fs)[j] == Extent(fs[j]);
      }
    }
    if AllThere(fs, o) {
      forall x | x in Range(Span(0, |D|))
        ensures x in Brought(fs, o)
      {
        var j := CoverWitness(Extents(fs), x);
        assert Extents(fs)[j] == Extent(fs[j]) && x in Range(Extent(fs[j]));
        assert j in o;
        var k :| 0 <= k < |o| && o[k] == j;
        BroughtBy(fs, o, x);
      }
    }
  }

  lemma EachIsFragment(h: Header, D: seq<u8>, len: nat, fs: seq<Packet>, i: nat)
    requires Fragments(h, D, len, fs) && |fs| >= 2 && i < |fs|
    ensures IsFragment(fs[i]) && FragmentOf(D, fs[i]) && fs[i].h == h
  {
    FragmentsPartition(h, D, len, fs);
    assert Extents(fs)[0] == Extent(fs[0]) && Extents(fs)[1] == Extent(fs[1]) && Extents(fs)[i] == Extent(fs[i]);
  }

  /**
   What happens at the receiver: one of the fragments in question arrives, or some packet of another datagram,
   for which there may or may not be an mbuf, or half a second passes. A fragment that m_get fails is one that
   has not arrived.
   */
  datatype Arrival = Own(i: nat) | Other(f: Packet, mbuf: bool) | HalfSecond

  /** The numbers of the fragments that have arrived, in their order. */
  function Owns(script: seq<Arrival>): (o: seq<nat>) {
    if script == [] then []
    else
      var n := |script| - 1;
      Owns(script[..n]) + if script[n].Own? then [script[n].i] else []
  }

  function HalfSeconds(script: seq<Arrival>): (n: nat) {
    if script == [] then 0 else HalfSeconds(script[..|script| - 1]) + if script[|script| - 1].HalfSecond? then 1 else 0
  }

  lemma ScriptGrows(script: seq<Arrival>, n: nat)
    requires n < |script|
    ensures Owns(script[..n + 1]) == if script[n].Own? then Owns(script[..n]) + [script[n].i] else Owns(script[..n])
    ensures HalfSeconds(script[..n + 1]) == HalfSeconds(script[..n]) + if script[n].HalfSecond? then 1 else 0
  {
    assert script[..n + 1][..n] == script[..n];
  }

  lemma {:induction false} ScriptPrefix(script: seq<Arrival>, n: nat, m: nat)
    requires n <= m <= |script|
    ensures Owns(script[..n]) <= Owns(script[..m]) && HalfSeconds(script[..n]) <= HalfSeconds(script[..m])
  {
    hide Owns, HalfSeconds;
    if n < m {
      ScriptPrefix(script, n, m - 1);
      ScriptGrows(script, m - 1);
    }
  }

  lemma BroughtMore(fs: seq<Packet>, o: seq<nat>, i: nat)
    requires Numbers(fs, o) && i < |fs|
    ensures Numbers(fs, o + [i]) && Brought(fs, o + [i]) == Brought(fs, o) + Range(Extent(fs[i]))
  {
    assert (o + [i])[..|o|] == o;
  }

  /**
   The fragments of one datagram arrive in any order, any of them any number of times, among packets of any
   other datagrams, within the time that ip_reass waits: the datagram comes out at exactly the arrival after which
   all of them have been there, with the payload it was sent with.
   */
  method Collect(net: IpReceiver, h: Header, ghost D: seq<u8>, ghost len: nat, fs: seq<Packet>, script: seq<Arrival>)
    returns (out: Option<Packet>, n: nat)
    requires net.Valid() && Fragments(h, D, len, fs) && |fs| >= 2
    requires net.sent(KeyOf(h)) == D && net.Have(KeyOf(h)) == {} && forall q :: q in net.queues ==> q.key != KeyOf(h)
    requires forall k :: 0 <= k < |script| && script[k].Own? ==> script[k].i < |fs|
    requires forall k :: 0 <= k < |script| && script[k].Other? ==> NotOurs(net, h, script[k].f)
    requires HalfSeconds(script) < IPFRAGTTL
    modifies net, net.queues
    ensures net.Valid() && n <= |script|
    ensures out.Some? <==> AllThere(fs, Owns(script))
    ensures out.Some? ==> out.value.data == D && out.value.off == 0
    ensures out.Some? ==> AllThere(fs, Owns(script[..n]))
                          && forall k: nat :: k < n ==> !AllThere(fs, Owns(script[..k]))
  {
    hide Fragments, CutUpTo, Cover, FragmentOf, IpReceiver.Valid, IpReceiver.Have, Range, NotOurs, Owns, HalfSeconds,
         AllThere, Brought, Numbers;
    out, n := None, 0;
    NothingYet(h, D, len, fs, script);
    while n < |script| && out.None?
      invariant net.Valid() && n <= |script| && Numbers(fs, Owns(script[..n]))
      invariant forall i :: 0 <= i < |net.queues| ==> net.queues[i] in old(net.queues) || fresh(net.queues[i])
      invariant forall q :: q in net.queues && q.key == KeyOf(h) ==> IPFRAGTTL <= q.ttl + HalfSeconds(script[..n])
      invariant out.None? ==> net.Have(KeyOf(h)) == Brought(fs, Owns(script[..n]))
      invariant out.Some? <==> Range(Span(0, |D|)) <= Brought(fs, Owns(script[..n]))
      invariant out.Some? ==> out.value.data == D && out.value.off == 0
      invariant forall k: nat :: k < n ==> !AllThere(fs, Owns(script[..k]))
    {
      FullIffAllThere(h, D, len, fs, Owns(script[..n]));
      ScriptGrows(script, n);
      ScriptPrefix(script, n + 1, |script|);
      assert script[..|script|] == script;
      match script[n] {
        case Own(i) =>
          BroughtMore(fs, Owns(script[..n]), i);
          EachIsFragment(h, D, len, fs, i);
          out := net.Input(fs[i], true);
        case Other(f, mbuf) =>
          Elsewhere(net, h, f);
          var passed := net.Input(f, mbuf);
        case HalfSecond =>
          net.Tick(KeyOf(h));
      }
      assert forall i :: 0 <= i < |net.queues| ==> net.queues[i] in net.queues;
      n := n + 1;
    }
    FullIffAllThere(h, D, len, fs, Owns(script[..n]));
    ScriptPrefix(script, n, |script|);
    assert script[..|script|] == script;
    StillThere(fs, Owns(script[..n]), Owns(script));
  }

  /** A packet of another datagram; if it is a fragment, it is one of what its key stands for. */
  ghost predicate NotOurs(net: IpReceiver, h: Header, f: Packet) {
    KeyOf(f.h) != KeyOf(h) && (IsFragment(f) ==> FragmentOf(net.sent(KeyOf(f.h)), f))
  }

  lemma Elsewhere(net: IpReceiver, h: Header, f: Packet)
    requires NotOurs(net, h, f)
    ensures KeyOf(f.h) != KeyOf(h) && (IsFragment(f) ==> FragmentOf(net.sent(KeyOf(f.h)), f))
  {
  }

  lemma NothingYet(h: Header, D: seq<u8>, len: nat, fs: seq<Packet>, script: seq<Arrival>)
    requires Fragments(h, D, len, fs)
    ensures Owns(script[..0]) == [] && HalfSeconds(script[..0]) == 0 && Numbers(fs, []) && Brought(fs, []) == {}
    ensures !(Range(Span(0, |D|)) <= {})
  {
    FullIffAllThere(h, D, len, fs, []);
    var none: seq<nat> := [];
    assert fs != [] && 0 !in none && !AllThere(fs, none);
  }

  lemma StillThere(fs: seq<Packet>, o: seq<nat>, more: seq<nat>)
    requires o <= more
    ensures AllThere(fs, o) ==> AllThere(fs, more)
  {
    assert forall j :: j in o ==> j in more;
  }
}
