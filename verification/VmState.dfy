/**
 The state interpreter (vmstate.c) over its byte streams (stream.c): one table of field descriptors drives
 both saving and loading. An object is a list of slots, one for each field of its table, and a slot a list
 of elements; raw memory offsets and hooks are not modelled.
 */
module VmStates {
  import opened SeqNum

  // -------------------------------------------------------------------------------------- stream.c

  class OStream {
    var out: seq<u8>

    constructor ()
      ensures out == []
    {
      out := [];
    }

    /** slirp_ostream_write. */
    method Write(buf: seq<u8>)
      modifies this
      ensures out == old(out) + buf
    {
      out := out + buf;
    }
  }

  /** `n` bytes with the most significant first. */
  function BigEndian(n: nat, v: nat): (b: seq<u8>)
    ensures |b| == n
  {
    if n == 0 then [] else BigEndian(n - 1, v / 256) + [v % 256]
  }

  function FromBigEndian(b: seq<u8>): (v: nat) {
    if b == [] then 0 else 256 * FromBigEndian(b[..|b| - 1]) + b[|b| - 1]
  }

  function Pow256(n: nat): (p: nat)
    ensures p > 0
  {
    if n == 0 then 1 else 256 * Pow256(n - 1)
  }

  lemma {:induction false} BigEndianRoundTrip(n: nat, v: nat)
    requires v < Pow256(n)
    ensures FromBigEndian(BigEndian(n, v)) == v
  {
    if n > 0 {
      BigEndianRoundTrip(n - 1, v / 256);
      var b := BigEndian(n, v);
      assert b[..n - 1] == BigEndian(n - 1, v / 256);
    }
  }

  class IStream {
    var data: seq<u8>

    constructor (data: seq<u8>)
      ensures this.data == data
    {
      this.data := data;
    }

    /** slirp_istream_read: false, and nothing read, when there is less left than asked for. */
    method Read(n: nat) returns (ok: bool, buf: seq<u8>)
      modifies this
      ensures ok <==> n <= |old(data)|
      ensures ok ==> buf == old(data)[..n] && data == old(data)[n..]
      ensures !ok ==> buf == [] && data == old(data)
    {
      ok := n <= |data|;
      buf := [];
      if ok {
        buf, data := data[..n], data[n..];
      }
    }
  }

  // ---------------------------------------------------------------------------- objects and tables

  /** One element: a number, a byte buffer, or a structure of its own. */
  datatype Cell = Int(n: int) | Raw(b: seq<u8>) | Rec(o: seq<seq<Cell>>)

  type Object = seq<seq<Cell>>

  datatype Info = U8 | U16 | U32 | I16 | I32 | Buffer {
    /** How many bytes a number takes in the stream. */
    function Width(): (n: nat) {
      match this
      case U8 => 1
      case U16 | I16 => 2
      case U32 | I32 => 4
      case Buffer => 0
    }

    /** One more than the largest unsigned number of that width. */
    function Modulus(): (m: nat)
      ensures m > 0
    {
      match this
      case U8 => 0x100
      case U16 | I16 => 0x1_0000
      case U32 | I32 => TWO_32
      case Buffer => 1
    }

    predicate Signed() { I16? || I32? }

    /** The numbers of this type. */
    predicate Fits(n: int) {
      if Signed() then -(Modulus() / 2) <= n < Modulus() / 2 else 0 <= n < Modulus()
    }
  }

  /** A number of elements or bytes: fixed, or `times` what an earlier field holds (VMS_VARRAY_*, VMS_VBUFFER). */
  datatype Length = Fixed(n: nat) | FromField(slot: nat, times: nat)

  /** field_exists, reading the slots in `deps`, or the comparison of versions. */
  datatype Presence = Since(version_id: int) | Test(p: (Object, int) -> bool, deps: set<nat>)

  datatype Elem = Plain(info: Info, size: Length) | Struct(vmsd: Desc) | VStruct(vmsd: Desc, struct_version_id: int)

  datatype Field = Field(presence: Presence, mustExist: bool, count: Length, elem: Elem)

  datatype Desc = Desc(version_id: int, fields: seq<Field>)

  /** The condition under which a field is in the stream. */
  predicate Exists(f: Field, o: Object, version: int) {
    match f.presence
    case Since(v) => v <= version
    case Test(p, _) => p(o, version)
  }

  /** A number in the C type `int`. */
  function AsInt(n: int): (r: int)
    ensures -TWO_31 <= r < TWO_31 && (-TWO_31 <= n < TWO_31 ==> r == n)
  {
    (n + TWO_31) % TWO_32 - TWO_31
  }

  /**
   vmstate_n_elems and vmstate_size, which compute in `int`: an unsigned count of 2^31 or more is a negative number
   there, and like every negative count it means that there is nothing to process.
   */
  function Eval(l: Length, o: Object): (n: nat) {
    match l
    case Fixed(n) => n
    case FromField(slot, times) =>
      if slot < |o| && o[slot] != [] && o[slot][0].Int? then Max(0, AsInt(AsInt(o[slot][0].n) * times)) else 0
  }

  /** The version at which a nested structure is processed. */
  function VersionOf(e: Elem): int
    requires !e.Plain?
  {
    if e.Struct? then e.vmsd.version_id else e.struct_version_id
  }

  // ------------------------------------------------------------------------------------ the format

  /** The bytes of a plain element: the put functions. A buffer of another size than `size` is not writable. */
  function Put(info: Info, size: nat, c: Cell): (b: seq<u8>) {
    match c
    case Int(n) => if info.Buffer? then [] else BigEndian(info.Width(), n % info.Modulus())
    case Raw(buf) => if info.Buffer? && |buf| == size then buf else []
    case Rec(_) => []
  }

  /** A number read from its bytes, with its sign. */
  function Number(info: Info, b: seq<u8>): (n: int) {
    var v := FromBigEndian(b);
    if info.Signed() && v >= info.Modulus() / 2 then v - info.Modulus() else v
  }

  /**
   The get functions: the element and the rest of the stream. A stream that is too short gives zero, or leaves a
   buffer alone.
   */
  function Get(info: Info, size: nat, c: Cell, s: seq<u8>): (r: (Cell, seq<u8>)) {
    var n := if info.Buffer? then size else info.Width();
    if n > |s| then (if info.Buffer? then c else Int(0), s)
    else (if info.Buffer? then Raw(s[..n]) else Int(Number(info, s[..n])), s[n..])
  }

  /** What an absent structure element looks like before it is loaded. */
  function RecordOf(c: Cell): (o: Object) { if c.Rec? then c.o else [] }

  function Slot(o: Object, i: nat): (cs: seq<Cell>) { if i < |o| then o[i] else [] }

  function CellAt(cs: seq<Cell>, k: nat): (c: Cell) { if k < |cs| then cs[k] else Rec([]) }

  /** The bytes that the fields of `d` from number `i` on put into the stream. */
  function Saved(d: Desc, o: Object, version: int, i: nat): (b: seq<u8>)
    requires i <= |d.fields|
    decreases d, |d.fields| - i, 0
  {
    if i == |d.fields| then []
    else
      var f := d.fields[i];
      (if Exists(f, o, version) then SavedElems(f.elem, Eval(ElemSize(f.elem), o), Slot(o, i), Eval(f.count, o), 0)
        else [])
        + Saved(d, o, version, i + 1)
  }

  function ElemSize(e: Elem): Length { if e.Plain? then e.size else Fixed(0) }

  /** The elements of one field from number `k` on. */
  function SavedElems(e: Elem, size: nat, cs: seq<Cell>, n: nat, k: nat): (b: seq<u8>)
    requires k <= n
    decreases e, n - k
  {
    if k == n then [] else SavedElem(e, size, CellAt(cs, k)) + SavedElems(e, size, cs, n, k + 1)
  }

  function SavedElem(e: Elem, size: nat, c: Cell): (b: seq<u8>)
    decreases e, 0
  {
    if e.Plain? then Put(e.info, size, c) else Saved(e.vmsd, RecordOf(c), VersionOf(e), 0)
  }

  /** What loading a field list leaves: success, the object, and the rest of the stream. */
  datatype Loaded<T> = Loaded(ok: bool, value: T, rest: seq<u8>)

  /** slirp_vmstate_load_state from field `i` on, into object `o`. */
  function Load(d: Desc, o: Object, s: seq<u8>, version: int, i: nat): (r: Loaded<Object>)
    requires i <= |d.fields| == |o|
    ensures |r.value| == |o|
    decreases d, |d.fields| - i, 0
  {
    if i == |d.fields| then Loaded(true, o, s)
    else
      var f := d.fields[i];
      if Exists(f, o, version) then
        var r := LoadElems(f.elem, Eval(ElemSize(f.elem), o), o[i], Eval(f.count, o), 0, s);
        if r.ok then Load(d, o[i := r.value], r.rest, version, i + 1) else Loaded(false, o[i := r.value], r.rest)
      else if f.mustExist then Loaded(false, o, s)
      else Load(d, o, s, version, i + 1)
  }

  /** The elements of one field from number `k` on. */
  function LoadElems(e: Elem, size: nat, cs: seq<Cell>, n: nat, k: nat, s: seq<u8>): (r: Loaded<seq<Cell>>)
    requires k <= n
    decreases e, n - k
  {
    if k == n then Loaded(true, [], s)
    else
      var r := LoadElem(e, size, CellAt(cs, k), s);
      if !r.ok then Loaded(false, [r.value], r.rest)
      else
        var t := LoadElems(e, size, cs, n, k + 1, r.rest);
        Loaded(t.ok, [r.value] + t.value, t.rest)
  }

  function LoadElem(e: Elem, size: nat, c: Cell, s: seq<u8>): (r: Loaded<Cell>)
    decreases e, 0
  {
    if e.Plain? then
      var (v, rest) := Get(e.info, size, c, s);
      Loaded(true, v, rest)
    else if VersionOf(e) > e.vmsd.version_id then Loaded(false, c, s)
    else
      var r := Load(e.vmsd, Sized(RecordOf(c), |e.vmsd.fields|), s, VersionOf(e), 0);
      Loaded(r.ok, Rec(r.value), r.rest)
  }

  /** An object with exactly `n` slots. */
  function Sized(o: Object, n: nat): (r: Object)
    ensures |r| == n && forall i :: 0 <= i < n ==> r[i] == Slot(o, i)
  {
    seq(n, i requires 0 <= i < n => Slot(o, i))
  }

  // ---------------------------------------------------------------------------------- round trip

  /** The slots that decide whether and how a field is processed. */
  function Reads(f: Field): set<nat> {
    (if f.presence.Test? then f.presence.deps else {}) + SlotsOf(f.count) + SlotsOf(ElemSize(f.elem))
  }

  function SlotsOf(l: Length): set<nat> { if l.FromField? then {l.slot} else {} }

  ghost predicate Agree(a: Object, b: Object, js: set<nat>) {
    forall j :: j in js ==> Slot(a, j) == Slot(b, j)
  }

  /** A presence test looks only at the slots it names. */
  ghost predicate Local(f: Field) {
    f.presence.Test? ==>
      forall a: Object, b: Object, v: int :: Agree(a, b, f.presence.deps) ==>
        (f.presence.p(a, v) <==> f.presence.p(b, v))
  }

  /**
   Object `o` can be saved under table `d` at `version`: its elements have the types and numbers the table
   says, and lengths and presence tests depend only on plain fields that come earlier and are in the stream.
   */
  ghost predicate Writable(d: Desc, o: Object, version: int)
    decreases d, 1
  {
    && |o| == |d.fields|
    && forall i :: 0 <= i < |d.fields| ==>
         var f := d.fields[i];
         && Local(f) && (f.mustExist ==> Exists(f, o, version))
         && (forall j :: j in Reads(f) ==> j < i && d.fields[j].elem.Plain? && Exists(d.fields[j], o, version))
         && (Exists(f, o, version) ==>
               && |o[i]| == Eval(f.count, o)
               && forall k :: 0 <= k < |o[i]| ==> WritableElem(f.elem, Eval(ElemSize(f.elem), o), o[i][k]))
  }

  ghost predicate WritableElem(e: Elem, size: nat, c: Cell)
    decreases e, 0
  {
    if e.Plain? then
      if e.info.Buffer? then c.Raw? && |c.b| == size else c.Int? && e.info.Fits(c.n)
    else
      c.Rec? && Writable(e.vmsd, c.o, VersionOf(e))
  }

  /** No structure that is in the stream, from field `i` on, has a version newer than its own table. */
  ghost predicate UpToDate(d: Desc, o: Object, version: int, i: nat)
    requires i <= |d.fields| <= |o|
    decreases d, |d.fields| - i
  {
    i == |d.fields| || (
      && (Exists(d.fields[i], o, version) ==> forall k :: 0 <= k < |o[i]| ==> UpToDateElem(d.fields[i].elem, o[i][k]))
      && UpToDate(d, o, version, i + 1))
  }

  ghost predicate UpToDateElem(e: Elem, c: Cell)
    decreases e
  {
    e.Plain? || (VersionOf(e) <= e.vmsd.version_id && c.Rec? && |e.vmsd.fields| <= |c.o|
      && UpToDate(e.vmsd, c.o, VersionOf(e), 0))
  }

  /** Object `o` in the fields that are in the stream, and `o0` in the others, from slot `i` on. */
  ghost function Merged(d: Desc, o: Object, o0: Object, version: int, i: nat): (r: Object)
    requires i <= |d.fields|
    ensures |r| == |d.fields| - i
    decreases d, |d.fields| - i, 0
  {
    if i == |d.fields| then []
    else
      var f := d.fields[i];
      [if Exists(f, o, version) then MergedElems(f.elem, Slot(o, i), Slot(o0, i), 0) else Slot(o0, i)]
        + Merged(d, o, o0, version, i + 1)
  }

  ghost function MergedElems(e: Elem, cs: seq<Cell>, cs0: seq<Cell>, k: nat): (r: seq<Cell>)
    requires k <= |cs|
    decreases e, |cs| - k
  {
    if k == |cs| then [] else [MergedElem(e, cs[k], CellAt(cs0, k))] + MergedElems(e, cs, cs0, k + 1)
  }

  ghost function MergedElem(e: Elem, c: Cell, c0: Cell): (r: Cell)
    decreases e, 0
  {
    if e.Plain? then c else Rec(Merged(e.vmsd, RecordOf(c), RecordOf(c0), VersionOf(e), 0))
  }

  lemma ModulusIsPower(info: Info)
    ensures info.Modulus() == Pow256(info.Width())
  {
    assert Pow256(4) == 256 * Pow256(3) == 256 * (256 * Pow256(2)) && Pow256(2) == 256 * Pow256(1)
           && Pow256(1) == 256 * Pow256(0);
  }

  lemma NumberRoundTrip(info: Info, n: int)
    requires !info.Buffer? && info.Fits(n)
    ensures Number(info, BigEndian(info.Width(), n % info.Modulus())) == n
  {
    ModulusIsPower(info);
    BigEndianRoundTrip(info.Width(), n % info.Modulus());
    Wrapped(info, n);
    hide BigEndian, FromBigEndian, Pow256, Info.Modulus, Info.Width, Info.Fits;
  }

  /** Two's complement: the residue of a number tells which number of its type it is. */
  lemma Wrapped(info: Info, n: int)
    requires info.Fits(n)
    ensures n == if info.Signed() && n % info.Modulus() >= info.Modulus() / 2 then n % info.Modulus() - info.Modulus()
              else n % info.Modulus()
  {
  }

  lemma PlainRoundTrip(info: Info, size: nat, c: Cell, c0: Cell, rest: seq<u8>)
    requires if info.Buffer? then c.Raw? && |c.b| == size else c.Int? && info.Fits(c.n)
    ensures Get(info, size, c0, Put(info, size, c) + rest) == (c, rest)
  {
    var b := Put(info, size, c);
    assert (b + rest)[..|b|] == b && (b + rest)[|b|..] == rest;
    if !info.Buffer? {
      NumberRoundTrip(info, c.n);
    }
  }

  /**
   The outcome of loading is right: it succeeds exactly when it may, and then gives the merged value and the rest of
   the stream.
   */
  ghost predicate Right<T>(r: Loaded<T>, may: bool, value: T, rest: seq<u8>) {
    (r.ok <==> may) && (r.ok ==> r.value == value && r.rest == rest)
  }

  lemma {:induction false} ElemRoundTrip(e: Elem, size: nat, c: Cell, c0: Cell, rest: seq<u8>)
    requires WritableElem(e, size, c)
    ensures Right(LoadElem(e, size, c0, SavedElem(e, size, c) + rest), UpToDateElem(e, c), MergedElem(e, c, c0), rest)
    decreases e, 0
  {
    if e.Plain? {
      PlainRoundTrip(e.info, size, c, c0, rest);
    } else {
      var o0 := Sized(RecordOf(c0), |e.vmsd.fields|);
      FieldsRoundTrip(e.vmsd, c.o, o0, o0, VersionOf(e), 0, rest);
      MergedSized(e.vmsd, c.o, RecordOf(c0), VersionOf(e), 0);
      assert o0[..0] + Merged(e.vmsd, c.o, o0, VersionOf(e), 0) == Merged(e.vmsd, c.o, o0, VersionOf(e), 0);
    }
  }

  lemma {:induction false} MergedSized(d: Desc, o: Object, o0: Object, version: int, i: nat)
    requires i <= |d.fields|
    ensures Merged(d, o, Sized(o0, |d.fields|), version, i) == Merged(d, o, o0, version, i)
    decreases |d.fields| - i
  {
    hide MergedElems, Exists, Sized;
    if i < |d.fields| {
      MergedSized(d, o, o0, version, i + 1);
    }
  }

  lemma {:induction false} ElemsRoundTrip(e: Elem, size: nat, cs: seq<Cell>, cs0: seq<Cell>, k: nat, rest: seq<u8>)
    requires k <= |cs| && forall j :: 0 <= j < |cs| ==> WritableElem(e, size, cs[j])
    ensures Right(LoadElems(e, size, cs0, |cs|, k, SavedElems(e, size, cs, |cs|, k) + rest),
                  forall j :: k <= j < |cs| ==> UpToDateElem(e, cs[j]), MergedElems(e, cs, cs0, k), rest)
    decreases e, |cs| - k
  {
    hide LoadElem, SavedElem, MergedElem, WritableElem, UpToDateElem;
    if k < |cs| {
      var a, b := SavedElem(e, size, cs[k]), SavedElems(e, size, cs, |cs|, k + 1);
      assert (a + b) + rest == a + (b + rest);
      ElemRoundTrip(e, size, cs[k], CellAt(cs0, k), b + rest);
      ElemsRoundTrip(e, size, cs, cs0, k + 1, rest);
    } else {
      assert [] + rest == rest;
    }
  }

  /** Lengths and presence come out the same on two objects that agree where the field looks. */
  lemma SameView(f: Field, a: Object, b: Object, version: int)
    requires Local(f) && |a| == |b| && forall j :: j in Reads(f) ==> Slot(a, j) == Slot(b, j)
    ensures Exists(f, a, version) <==> Exists(f, b, version)
    ensures Eval(f.count, a) == Eval(f.count, b) && Eval(ElemSize(f.elem), a) == Eval(ElemSize(f.elem), b)
  {
    SameLength(f.count, a, b);
    SameLength(ElemSize(f.elem), a, b);
    if f.presence.Test? {
      assert Agree(a, b, f.presence.deps);
    }
  }

  lemma SameLength(l: Length, a: Object, b: Object)
    requires |a| == |b| && forall j :: j in SlotsOf(l) ==> Slot(a, j) == Slot(b, j)
    ensures Eval(l, a) == Eval(l, b)
  {
    if l.FromField? {
      assert Slot(a, l.slot) == Slot(b, l.slot);
    }
  }

  /** What is known of field `i` of a writable object. */
  lemma FieldOf(d: Desc, o: Object, version: int, i: nat)
    requires Writable(d, o, version) && i < |d.fields|
    ensures var f := d.fields[i];
            && |o| == |d.fields| && Local(f) && (f.mustExist ==> Exists(f, o, version))
            && (forall j :: j in Reads(f) ==> j < i && d.fields[j].elem.Plain? && Exists(d.fields[j], o, version))
            && (Exists(f, o, version) ==>
                  && |o[i]| == Eval(f.count, o)
                  && forall k :: 0 <= k < |o[i]| ==> WritableElem(f.elem, Eval(ElemSize(f.elem), o), o[i][k]))
  {
  }

  /** The slots that later fields may look at have been loaded already. */
  ghost predicate SoFar(d: Desc, o: Object, cur: Object, version: int, i: nat) {
    |cur| == |o| == |d.fields| &&
    forall j :: 0 <= j < i && j < |d.fields| && d.fields[j].elem.Plain? && Exists(d.fields[j], o, version) ==>
      cur[j] == o[j]
  }

  lemma PlainMerged(e: Elem, cs: seq<Cell>, cs0: seq<Cell>, k: nat)
    requires e.Plain? && k <= |cs|
    ensures MergedElems(e, cs, cs0, k) == cs[k..]
    decreases |cs| - k
  {
    if k < |cs| {
      PlainMerged(e, cs, cs0, k + 1);
    }
  }

  lemma {:induction false} FieldsRoundTrip(d: Desc, o: Object, o0: Object, cur: Object, version: int, i: nat,
    rest: seq<u8>)
    requires Writable(d, o, version) && i <= |d.fields| == |o| && |o0| == |d.fields|
    requires SoFar(d, o, cur, version, i) && cur[i..] == o0[i..]
    ensures Right(Load(d, cur, Saved(d, o, version, i) + rest, version, i), UpToDate(d, o, version, i),
                  cur[..i] + Merged(d, o, o0, version, i), rest)
    decreases d, |d.fields| - i, 2
  {
    if i == |d.fields| {
      assert [] + rest == rest && cur[..i] + [] == cur;
    } else {
      FieldStep(d, o, o0, cur, version, i, rest);
    }
  }

  /** A field that is not in the stream is left alone. */
  lemma {:induction false} FieldAbsent(d: Desc, o: Object, o0: Object, cur: Object, version: int, i: nat, rest: seq<u8>)
    requires Writable(d, o, version) && i < |d.fields| == |o| && |o0| == |d.fields|
    requires SoFar(d, o, cur, version, i) && cur[i..] == o0[i..]
    requires !Exists(d.fields[i], o, version) && !Exists(d.fields[i], cur, version) && !d.fields[i].mustExist
    ensures Right(Load(d, cur, Saved(d, o, version, i) + rest, version, i), UpToDate(d, o, version, i),
                  cur[..i] + Merged(d, o, o0, version, i), rest)
    decreases d, |d.fields| - i, 0
  {
    hide LoadElems, SavedElems, MergedElems, Writable, Eval, Exists, ElemSize;
    var t := Merged(d, o, o0, version, i + 1);
    assert [] + Saved(d, o, version, i + 1) == Saved(d, o, version, i + 1);
    assert cur[i + 1..] == cur[i..][1..] && o0[i + 1..] == o0[i..][1..];
    FieldsRoundTrip(d, o, o0, cur, version, i + 1, rest);
    assert cur[i] == cur[i..][0] == o0[i..][0] == o0[i];
    assert cur[..i + 1] + t == cur[..i] + ([o0[i]] + t);
  }

  /** A field that is in the stream is replaced by what was saved. */
  lemma {:induction false} FieldPresent(d: Desc, o: Object, o0: Object, cur: Object, version: int, i: nat, size: nat,
    rest: seq<u8>)
    requires Writable(d, o, version) && i < |d.fields| == |o| && |o0| == |d.fields|
    requires SoFar(d, o, cur, version, i) && cur[i..] == o0[i..]
    requires Exists(d.fields[i], o, version) && Exists(d.fields[i], cur, version)
    requires Eval(d.fields[i].count, o) == Eval(d.fields[i].count, cur) == |o[i]|
    requires Eval(ElemSize(d.fields[i].elem), o) == Eval(ElemSize(d.fields[i].elem), cur) == size
    requires forall k :: 0 <= k < |o[i]| ==> WritableElem(d.fields[i].elem, size, o[i][k])
    ensures Right(Load(d, cur, Saved(d, o, version, i) + rest, version, i), UpToDate(d, o, version, i),
                  cur[..i] + Merged(d, o, o0, version, i), rest)
    decreases d, |d.fields| - i, 0
  {
    hide LoadElems, SavedElems, MergedElems, Writable, WritableElem, UpToDateElem, Eval, Exists, ElemSize;
    var e := d.fields[i].elem;
    var a, b := SavedElems(e, size, o[i], |o[i]|, 0), Saved(d, o, version, i + 1);
    var m, t := MergedElems(e, o[i], o0[i], 0), Merged(d, o, o0, version, i + 1);
    assert (a + b) + rest == a + (b + rest);
    assert cur[i] == cur[i..][0] == o0[i..][0] == o0[i];
    ElemsRoundTrip(e, size, o[i], o0[i], 0, b + rest);
    if e.Plain? {
      PlainMerged(e, o[i], o0[i], 0);
    }
    assert cur[i := m][i + 1..] == cur[i..][1..] && o0[i + 1..] == o0[i..][1..];
    FieldsRoundTrip(d, o, o0, cur[i := m], version, i + 1, rest);
    assert cur[i := m][..i + 1] + t == cur[..i] + ([m] + t);
  }

  lemma {:induction false} FieldStep(d: Desc, o: Object, o0: Object, cur: Object, version: int, i: nat, rest: seq<u8>)
    requires Writable(d, o, version) && i < |d.fields| == |o| && |o0| == |d.fields|
    requires SoFar(d, o, cur, version, i) && cur[i..] == o0[i..]
    ensures Right(Load(d, cur, Saved(d, o, version, i) + rest, version, i), UpToDate(d, o, version, i),
                  cur[..i] + Merged(d, o, o0, version, i), rest)
    decreases d, |d.fields| - i, 1
  {
    hide Load, Saved, Merged, LoadElems, SavedElems, MergedElems, Writable, WritableElem, Local, Eval, Exists, ElemSize,
         UpToDate, UpToDateElem, Right;
    var f := d.fields[i];
    FieldOf(d, o, version, i);
    assert forall j :: j in Reads(f) ==> Slot(cur, j) == Slot(o, j);
    SameView(f, cur, o, version);
    if Exists(f, o, version) {
      FieldPresent(d, o, o0, cur, version, i, Eval(ElemSize(f.elem), o), rest);
    } else {
      FieldAbsent(d, o, o0, cur, version, i, rest);
    }
  }

  /**
   Loading what was saved, at the same version and whatever follows in the stream, gives the object back in
   every field that is in the stream, leaves the others as they were, and reads not one byte too many.
   */
  lemma RoundTrip(d: Desc, o: Object, o0: Object, version: int, rest: seq<u8>)
    requires Writable(d, o, version) && UpToDate(d, o, version, 0) && |o0| == |d.fields|
    ensures Load(d, o0, Saved(d, o, version, 0) + rest, version, 0) == Loaded(true, Merged(d, o, o0, version, 0), rest)
    ensures Complete(d, o, version) ==> Merged(d, o, o0, version, 0) == o
  {
    LoadsIffUpToDate(d, o, o0, version, rest);
    if Complete(d, o, version) {
      CompleteMerged(d, o, o0, version, 0);
    }
  }

  /**
   Saving never looks at the versions of the structures inside, loading does: what was saved can be loaded if
   and only if no structure in the stream, at any depth, has a version newer than its own table.
   */
  lemma LoadsIffUpToDate(d: Desc, o: Object, o0: Object, version: int, rest: seq<u8>)
    requires Writable(d, o, version) && |o0| == |d.fields|
    ensures var r := Load(d, o0, Saved(d, o, version, 0) + rest, version, 0);
            && (r.ok <==> UpToDate(d, o, version, 0))
            && (r.ok ==> r.value == Merged(d, o, o0, version, 0) && r.rest == rest)
  {
    FieldsRoundTrip(d, o, o0, o0, version, 0, rest);
    assert o0[..0] + Merged(d, o, o0, version, 0) == Merged(d, o, o0, version, 0);
  }

  /** Every field of the object and of its structures is in the stream. */
  ghost predicate Complete(d: Desc, o: Object, version: int)
    decreases d, 1
  {
    |o| == |d.fields| &&
    forall i :: 0 <= i < |d.fields| ==>
      Exists(d.fields[i], o, version) && forall k :: 0 <= k < |o[i]| ==> CompleteElem(d.fields[i].elem, o[i][k])
  }

  ghost predicate CompleteElem(e: Elem, c: Cell)
    decreases e, 0
  {
    e.Plain? || (c.Rec? && Complete(e.vmsd, c.o, VersionOf(e)))
  }

  lemma {:induction false} CompleteMerged(d: Desc, o: Object, o0: Object, version: int, i: nat)
    requires Complete(d, o, version) && i <= |d.fields|
    ensures Merged(d, o, o0, version, i) == o[i..]
    decreases d, |d.fields| - i, 0
  {
    if i < |d.fields| {
      CompleteElems(d.fields[i].elem, o[i], Slot(o0, i), 0);
      CompleteMerged(d, o, o0, version, i + 1);
    }
  }

  lemma {:induction false} CompleteElems(e: Elem, cs: seq<Cell>, cs0: seq<Cell>, k: nat)
    requires k <= |cs| && forall j :: 0 <= j < |cs| ==> CompleteElem(e, cs[j])
    ensures MergedElems(e, cs, cs0, k) == cs[k..]
    decreases e, |cs| - k
  {
    if k < |cs| {
      if !e.Plain? {
        CompleteMerged(e.vmsd, cs[k].o, RecordOf(CellAt(cs0, k)), VersionOf(e), 0);
      }
      CompleteElems(e, cs, cs0, k + 1);
    }
  }

  // -------------------------------------------------------------------------------- the interpreter

  /** vmstate_save_state_v. */
  method SaveState(f: OStream, d: Desc, o: Object, version: int)
    modifies f
    ensures f.out == old(f.out) + Saved(d, o, version, 0)
    decreases d, 1
  {
    hide SavedElems;
    for i := 0 to |d.fields|
      invariant f.out + Saved(d, o, version, i) == old(f.out) + Saved(d, o, version, 0)
    {
      var field := d.fields[i];
      if Exists(field, o, version) {
        SaveElems(f, field.elem, Eval(ElemSize(field.elem), o), Slot(o, i), Eval(field.count, o));
      }
    }
  }

  /** The loop over the elements of a field. */
  method SaveElems(f: OStream, e: Elem, size: nat, cs: seq<Cell>, n: nat)
    modifies f
    ensures f.out == old(f.out) + SavedElems(e, size, cs, n, 0)
    decreases e, 1
  {
    hide SavedElem;
    for k := 0 to n
      invariant f.out + SavedElems(e, size, cs, n, k) == old(f.out) + SavedElems(e, size, cs, n, 0)
    {
      SaveElem(f, e, size, CellAt(cs, k));
    }
  }

  method SaveElem(f: OStream, e: Elem, size: nat, c: Cell)
    modifies f
    ensures f.out == old(f.out) + SavedElem(e, size, c)
    decreases e, 0
  {
    if e.Plain? {
      f.Write(Put(e.info, size, c));
    } else {
      SaveState(f, e.vmsd, RecordOf(c), VersionOf(e));
    }
  }

  /** slirp_vmstate_load_state, into an object with the slots of the table. */
  method LoadState(f: IStream, d: Desc, o0: Object, version: int) returns (ok: bool, o: Object)
    requires |o0| == |d.fields|
    modifies f
    ensures version > d.version_id ==> !ok && o == o0 && f.data == old(f.data)
    ensures version <= d.version_id ==> Loaded(ok, o, f.data) == Load(d, o0, old(f.data), version, 0)
    decreases d, 1
  {
    hide LoadElems;
    o := o0;
    if version > d.version_id {
      return false, o;
    }
    for i := 0 to |d.fields|
      invariant |o| == |d.fields| && Load(d, o, f.data, version, i) == Load(d, o0, old(f.data), version, 0)
    {
      var field := d.fields[i];
      if Exists(field, o, version) {
        var good, cs := LoadCells(f, field.elem, Eval(ElemSize(field.elem), o), o[i], Eval(field.count, o));
        o := o[i := cs];
        if !good {
          return false, o;
        }
      } else if field.mustExist {
        return false, o;
      }
    }
    ok := true;
  }

  /** The loop over the elements of a field. */
  method LoadCells(f: IStream, e: Elem, size: nat, cs0: seq<Cell>, n: nat) returns (ok: bool, cs: seq<Cell>)
    modifies f
    ensures Loaded(ok, cs, f.data) == LoadElems(e, size, cs0, n, 0, old(f.data))
    decreases e, 1
  {
    hide LoadElem;
    cs := [];
    assert [] + LoadElems(e, size, cs0, n, 0, f.data).value == LoadElems(e, size, cs0, n, 0, f.data).value;
    for k := 0 to n
      invariant var t := LoadElems(e, size, cs0, n, k, f.data);
                Loaded(t.ok, cs + t.value, t.rest) == LoadElems(e, size, cs0, n, 0, old(f.data))
    {
      ghost var t := LoadElems(e, size, cs0, n, k, f.data);
      var good, c := LoadCell(f, e, size, CellAt(cs0, k));
      assert cs + t.value == (cs + [c]) + t.value[1..];
      cs := cs + [c];
      if !good {
        return false, cs;
      }
    }
    assert cs + [] == cs;
    ok := true;
  }

  method LoadCell(f: IStream, e: Elem, size: nat, c0: Cell) returns (ok: bool, c: Cell)
    modifies f
    ensures Loaded(ok, c, f.data) == LoadElem(e, size, c0, old(f.data))
    decreases e, 0
  {
    if e.Plain? {
      var n := if e.info.Buffer? then size else e.info.Width();
      var got, buf := f.Read(n);
      ok := true;
      c := if !got then if e.info.Buffer? then c0 else Int(0)
           else if e.info.Buffer? then Raw(buf) else Int(Number(e.info, buf));
    } else {
      c := c0;
      if VersionOf(e) > e.vmsd.version_id {
        return false, c;
      }
      var o;
      ok, o := LoadState(f, e.vmsd, Sized(RecordOf(c0), |e.vmsd.fields|), VersionOf(e));
      c := Rec(o);
    }
  }
}
