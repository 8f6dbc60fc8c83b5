/**
 Packet buffers (mbuf.c): the pool with its free list and counter, and the operations on the data area.
 */
module Mbufs {
  import opened SeqNum

  const MBUF_THRESH := 30

  lemma SliceOfSlice(b: seq<u8>, at: nat, n: nat, k: nat)
    requires k <= n && at + n <= |b|
    ensures b[at..at + n][..k] == b[at..at + k] && b[at..at + n][k..] == b[at + k..at + n]
  {
  }

  class Mbuf {
    const dofree: bool      // M_DOFREE: given back to the allocator when it is freed
    const m_dat: array<u8>  // the buffer inside the mbuf
    var ext: bool           // M_EXT
    var m_ext: array<u8>    // the larger buffer in use when `ext` is set
    var m_data: nat         // where the data begin, counted from the start of the buffer in use
    var m_len: nat

    constructor (dofree: bool, size: nat)
      ensures Valid() && this.dofree == dofree && !ext && m_len == 0 && m_data == 0 && m_dat.Length == size
      ensures fresh(m_dat) && fresh(m_ext)
    {
      this.dofree := dofree;
      m_dat := new u8[size](_ => 0);
      m_ext := new u8[0](_ => 0);
      ext, m_data, m_len := false, 0, 0;
    }

    /** The buffer in use. */
    function Buffer(): array<u8>
      reads this
    {
      if ext then m_ext else m_dat
    }

    /** The data lie inside the buffer. */
    predicate Valid()
      reads this
    {
      m_data + m_len <= Buffer().Length
    }

    function Contents(): (s: seq<u8>)
      reads this, Buffer()
      requires Valid()
    {
      Buffer()[m_data..m_data + m_len]
    }

    /** The bytes in front of the data, where headers have been skipped. */
    function Gap(): (s: seq<u8>)
      reads this, Buffer()
      requires Valid()
    {
      Buffer()[..m_data]
    }

    /** M_ROOM. */
    function Room(): (n: nat)
      reads this
      requires Valid()
    {
      Buffer().Length - m_data
    }

    /** M_FREEROOM. */
    function FreeRoom(): (n: nat)
      reads this
      requires Valid()
      ensures n + m_len == Room()
    {
      Room() - m_len
    }

    /** The two mbufs share no memory. */
    ghost predicate Apart(n: Mbuf)
      reads this, n
    {
      this != n && Buffer() != n.Buffer()
    }

    /** m_inc: makes room for `size` bytes from m_data on, unless there is more than that already. */
    method MInc(size: nat)
      requires Valid()
      modifies this
      ensures Valid() && m_data == old(m_data) && m_len == old(m_len)
      ensures Contents() == old(Contents()) && Gap() == old(Gap())
      ensures Room() == Max(size, old(Room()))
      ensures Buffer() == old(Buffer()) || (fresh(Buffer()) && ext)
    {
      if Room() > size {
        return;
      }
      var gap, from := m_data, Buffer();
      var bigger := new u8[gap + size](i requires 0 <= i < gap + size reads from => if i < from.Length then from[i]
        else 0);
      assert bigger[..from.Length] == from[..];
      assert bigger[..m_data] == from[..m_data] && bigger[m_data..m_data + m_len] == from[m_data..m_data + m_len];
      m_ext := bigger;
      ext := true;
    }

    /** Copies `src` behind the data; the caller has made sure that there is room. */
    method Append(src: seq<u8>)
      requires Valid() && |src| <= FreeRoom()
      modifies this`m_len, Buffer()
      ensures Valid() && Contents() == old(Contents()) + src && Gap() == old(Gap())
    {
      ghost var before: seq<u8> := Buffer()[..];
      CopyBytes(Buffer(), m_data + m_len, src);
      Extended(before, Buffer()[..], m_data, m_len, src);
      m_len := m_len + |src|;
    }

    static method CopyBytes(b: array<u8>, at: nat, src: seq<u8>)
      requires at + |src| <= b.Length
      modifies b
      ensures b[..] == old(b[..at]) + src + old(b[at + |src|..])
    {
      for i := 0 to |src|
        invariant b[..at] == old(b[..at]) && b[at + |src|..] == old(b[at + |src|..])
        invariant b[at..at + i] == src[..i]
      {
        b[at + i] := src[i];
      }
      assert b[..] == b[..at] + b[at..at + |src|] + b[at + |src|..];
    }

    static lemma Extended(a: seq<u8>, b: seq<u8>, at: nat, n: nat, src: seq<u8>)
      requires at + n + |src| <= |a| && b == a[..at + n] + src + a[at + n + |src|..]
      ensures b[at..at + n + |src|] == a[at..at + n] + src && b[..at] == a[..at]
    {
    }

    /** m_adj: trims `len` bytes from the head, or `-len` bytes from the tail. */
    method MAdj(len: int)
      requires Valid() && 0 <= m_len + len && len <= m_len
      modifies this`m_data, this`m_len
      ensures Valid()
      ensures Contents() == if len >= 0 then old(Contents())[len..] else old(Contents())[..old(m_len) + len]
    {
      SliceOfSlice(Buffer()[..], m_data, m_len, if len >= 0 then len else m_len + len);
      if len >= 0 {
        m_data := m_data + len;
        m_len := m_len - len;
      } else {
        m_len := m_len + len;
      }
    }

    /** m_copy: appends `len` bytes of `m` from offset `off` on, or fails for lack of room and changes nothing. */
    method MCopy(m: Mbuf, off: nat, len: nat) returns (error: bool)
      requires Valid() && m.Valid() && Apart(m) && off + len <= m.m_len
      modifies this`m_len, Buffer()
      ensures Valid() && (error <==> len > old(FreeRoom()))
      ensures Contents() == old(Contents()) + if error then [] else old(m.Contents())[off..off + len]
      ensures Gap() == old(Gap())
    {
      if len > FreeRoom() {
        return true;
      }
      Append(m.Contents()[off..off + len]);
      error := false;
    }

    /** The copying half of m_cat: the data of `n` follow, in a larger buffer if need be, and the gap is kept. */
    method Concat(n: Mbuf)
      requires Valid() && n.Valid() && Apart(n)
      modifies this, Buffer()
      ensures Valid() && Contents() == old(Contents()) + old(n.Contents()) && Gap() == old(Gap())
      ensures m_data == old(m_data) && (Buffer() == old(Buffer()) || fresh(Buffer()))
    {
      var src := n.Contents();
      if FreeRoom() < n.m_len {
        MInc(m_len + n.m_len);
      }
      Append(src);
    }
  }

  /** The pool of a slirp instance; being on a list is what the flags M_USEDLIST and M_FREELIST say. */
  class Pool {
    const msize: nat
    var mbuf_alloced: int
    var m_freelist: seq<Mbuf>
    var m_usedlist: seq<Mbuf>
    ghost var live: set<Mbuf>  // everything allocated and not given back

    constructor (msize: nat)
      ensures Valid() && live == {}
    {
      this.msize := msize;
      mbuf_alloced, m_freelist, m_usedlist, live := 0, [], [], {};
    }

    ghost predicate Distinct(s: seq<Mbuf>) {
      forall i, j :: 0 <= i < j < |s| ==> s[i] != s[j]
    }

    /** The mbufs that are kept for reuse. */
    ghost function Kept(): (k: set<Mbuf>)
      reads this`live
    {
      set m | m in live && !m.dofree
    }

    ghost predicate Valid()
      reads this
    {
      && mbuf_alloced == |live|
      && Distinct(m_freelist) && Distinct(m_usedlist)
      && (forall m :: m in m_freelist ==> m in Kept() && m !in m_usedlist)
      && (forall m :: m in m_usedlist ==> m in live)
      && |Kept()| <= MBUF_THRESH
    }

    lemma FreeListBounded()
      requires Valid()
      ensures |m_freelist| <= MBUF_THRESH && mbuf_alloced == |live|
    {
      DistinctSize(m_freelist, Kept());
    }

    lemma {:induction false} DistinctSize(s: seq<Mbuf>, k: set<Mbuf>)
      requires Distinct(s) && forall m :: m in s ==> m in k
      ensures |s| <= |k|
    {
      if s != [] {
        var l := |s| - 1;
        DistinctSize(s[..l], k - {s[l]});
      }
    }

    lemma Subset(a: set<Mbuf>, b: set<Mbuf>)
      requires a <= b
      ensures |a| <= |b|
    {
      if a != {} {
        var x :| x in a;
        Subset(a - {x}, b - {x});
      }
    }

    /** m_get: reuses a kept mbuf before it asks for a new one, which is to be given back if enough are alive. */
    method MGet() returns (m: Mbuf)
      requires Valid()
      modifies this, m_freelist
      ensures Valid() && m in live && m in m_usedlist && m !in m_freelist
      ensures m.Valid() && m.m_len == 0 && m.m_data == 0 && !m.ext
      ensures if old(m_freelist) == [] then fresh(m) && live == old(live) + {m}
                && (m.dofree <==> |old(live)| >= MBUF_THRESH)
              else m == old(m_freelist)[0] && live == old(live) && m_freelist == old(m_freelist)[1..]
    {
      if m_freelist == [] {
        mbuf_alloced := mbuf_alloced + 1;
        m := new Mbuf(mbuf_alloced > MBUF_THRESH, msize);
        assert m !in m_usedlist;
        live := live + {m};
        Subset(Kept(), live);
        assert m.dofree ==> Kept() == old(Kept());
      } else {
        m := m_freelist[0];
        assert m in m_freelist && m !in m_usedlist;
        m_freelist := m_freelist[1..];
        m.ext, m.m_data, m.m_len := false, 0, 0;
      }
      m_usedlist := [m] + m_usedlist;
    }

    /** slirp_remque on the used list. */
    method LeaveUsed(m: Mbuf)
      requires Valid()
      modifies this`m_usedlist
      ensures Valid() && m !in m_usedlist && forall x :: x in m_usedlist ==> x in old(m_usedlist)
    {
      var i := 0;
      while i < |m_usedlist| && m_usedlist[i] != m
        invariant i <= |m_usedlist| && forall j :: 0 <= j < i ==> m_usedlist[j] != m
      {
        i := i + 1;
      }
      if i < |m_usedlist| {
        m_usedlist := m_usedlist[..i] + m_usedlist[i + 1..];
      }
    }

    /** m_free: gives the mbuf back, or puts it on the free list unless it is there already. */
    method MFree(m: Mbuf)
      requires Valid() && m in live
      modifies this, m`ext
      ensures Valid() && m !in m_usedlist && !m.ext
      ensures if m.dofree then live == old(live) - {m} && m_freelist == old(m_freelist)
              else live == old(live) && m_freelist == if m in old(m_freelist) then old(m_freelist)
                else [m] + old(m_freelist)
    {
      LeaveUsed(m);
      m.ext := false;
      if m.dofree {
        mbuf_alloced := mbuf_alloced - 1;
        live := live - {m};
        assert Kept() == old(Kept());
      } else if m !in m_freelist {
        m_freelist := [m] + m_freelist;
      }
    }

    /** m_cat. */
    method MCat(m: Mbuf, n: Mbuf)
      requires Valid() && m in live && n in live && n !in m_freelist
      requires m.Valid() && n.Valid() && m.Apart(n)
      modifies this, m, m.Buffer(), n`ext
      ensures Valid() && live == old(live) - (if n.dofree then {n} else {})
      ensures m.Valid() && m.Contents() == old(m.Contents()) + old(n.Contents()) && m.Gap() == old(m.Gap())
      ensures !n.dofree ==> m_freelist == [n] + old(m_freelist)
    {
      m.Concat(n);
      ghost var c, g := m.Contents(), m.Gap();
      MFree(n);
      assert m.Contents() == c && m.Gap() == g;
    }
  }
}
