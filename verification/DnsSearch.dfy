/**
 The domain search list for DHCP (dnssearch.c): domain names as length-prefixed labels, and the loop that
 cuts the finished list into options of at most 255 bytes, in place and from the back.
 */
module DnsSearches {
  import opened SeqNum

  const MAX_OPT_LEN := 255
  const OPT_HEADER_LEN := 2
  const RFC3397_OPT_DOMAIN_SEARCH: u8 := 119

  // ----------------------------------------------------------------------------- option splitting

  /** DIV_ROUND_UP by the longest option body. */
  function Blocks(n: nat): (b: nat)
    ensures (b - 1) * MAX_OPT_LEN < n <= b * MAX_OPT_LEN || n == b == 0
  {
    (n + MAX_OPT_LEN - 1) / MAX_OPT_LEN
  }

  /** `d` as a row of options, all full but the last (section 2 of RFC 3397). */
  function Options(d: seq<u8>): (t: seq<u8>)
    ensures |t| == |d| + OPT_HEADER_LEN * Blocks(|d|)
  {
    if d == [] then []
    else if |d| <= MAX_OPT_LEN then [RFC3397_OPT_DOMAIN_SEARCH, |d|] + d
    else [RFC3397_OPT_DOMAIN_SEARCH, MAX_OPT_LEN] + d[..MAX_OPT_LEN] + Options(d[MAX_OPT_LEN..])
  }

  /** What a client reads: the bodies of the options, joined. */
  function Bodies(t: seq<u8>): (d: seq<u8>) {
    if |t| < OPT_HEADER_LEN || |t| < OPT_HEADER_LEN + t[1] then []
    else t[OPT_HEADER_LEN..OPT_HEADER_LEN + t[1]] + Bodies(t[OPT_HEADER_LEN + t[1]..])
  }

  lemma {:induction false} BodiesOfOptions(d: seq<u8>)
    ensures Bodies(Options(d)) == d
  {
    if d == [] {
    } else if |d| <= MAX_OPT_LEN {
      var t := Options(d);
      assert t[OPT_HEADER_LEN..OPT_HEADER_LEN + |d|] == d && t[OPT_HEADER_LEN + |d|..] == [];
      assert Bodies([]) == [];
    } else {
      var t := Options(d);
      assert t[OPT_HEADER_LEN..OPT_HEADER_LEN + MAX_OPT_LEN] == d[..MAX_OPT_LEN];
      assert t[OPT_HEADER_LEN + MAX_OPT_LEN..] == Options(d[MAX_OPT_LEN..]);
      BodiesOfOptions(d[MAX_OPT_LEN..]);
      assert d == d[..MAX_OPT_LEN] + d[MAX_OPT_LEN..];
    }
  }

  /** memmove inside one buffer. */
  method MemMove(a: array<u8>, dst: nat, src: nat, len: nat)
    requires dst + len <= a.Length && src + len <= a.Length
    modifies a
    ensures a[..] == old(a[..dst] + a[src..src + len] + a[dst + len..])
  {
    var s := a[src..src + len];
    for i := 0 to len
      invariant a[..dst] == old(a[..dst]) && a[dst + len..] == old(a[dst + len..])
      invariant a[dst..dst + i] == s[..i]
    {
      a[dst + i] := s[i];
    }
    assert a[..] == a[..dst] + a[dst..dst + len] + a[dst + len..];
  }

  lemma Moved(before: seq<u8>, moved: seq<u8>, start: nat, end: nat, dst: nat, n: nat)
    requires start < end && start + OPT_HEADER_LEN <= dst && dst + (end - start) + n <= |before|
    requires moved == before[..dst] + before[start..end] + before[dst + (end - start)..]
    ensures |moved| == |before| && moved[..start] == before[..start]
              && moved[dst..dst + (end - start)] == before[start..end]
    ensures moved[dst + (end - start)..dst + (end - start) + n] == before[dst + (end - start)..dst + (end - start) + n]
  {
  }

  lemma Prefixes(a: seq<u8>, d: seq<u8>, start: nat, end: nat)
    requires start <= end <= |a| && end <= |d| && a[..end] == d[..end]
    ensures a[start..end] == d[start..end] && a[..start] == d[..start]
  {
    assert a[start..end] == a[..end][start..] && d[start..end] == d[..end][start..];
    assert a[..start] == a[..end][..start] && d[..start] == d[..end][..start];
  }

  lemma Headed(moved: seq<u8>, after: seq<u8>, start: nat, dst: nat, len: nat, n: nat, code: u8, size: u8)
    requires start + OPT_HEADER_LEN <= dst && dst + len + n <= |moved|
               && after == moved[dst - 2 := code][dst - 1 := size]
    ensures after[..start] == moved[..start]
    ensures after[dst - 2..dst + len + n] == [code, size] + moved[dst..dst + len] + moved[dst + len..dst + len + n]
  {
  }

  /** Writes the two bytes of an option header in front of `dst`. */
  method Stamp(result: array<u8>, dst: nat, len: u8)
    requires OPT_HEADER_LEN <= dst <= result.Length
    modifies result
    ensures result[..] == old(result[..])[dst - 2 := RFC3397_OPT_DOMAIN_SEARCH][dst - 1 := len]
  {
    result[dst - 2] := RFC3397_OPT_DOMAIN_SEARCH;
    result[dst - 1] := len;
  }

  /** One turn of the loop: moves one block behind its option header. */
  method MoveBlock(result: array<u8>, start: nat, end: nat, dst: nat, ghost d: seq<u8>, ghost tail: seq<u8>)
    requires start < end <= start + MAX_OPT_LEN && start + OPT_HEADER_LEN <= dst
    requires end <= |d| && dst + (end - start) + |tail| <= result.Length
    requires result[..end] == d[..end] && result[dst + (end - start)..dst + (end - start) + |tail|] == tail
    modifies result
    ensures result[..start] == d[..start]
    ensures result[dst - OPT_HEADER_LEN..dst + (end - start) + |tail|]
            == [RFC3397_OPT_DOMAIN_SEARCH, end - start] + d[start..end] + tail
  {
    var len := end - start;
    ghost var before: seq<u8> := result[..];
    assert before[..end] == d[..end] && before[dst + len..dst + len + |tail|] == tail;
    MemMove(result, dst, start, len);
    ghost var moved: seq<u8> := result[..];
    Stamp(result, dst, len);
    BlockMoved(before, moved, result[..], start, end, dst, d, tail);
  }

  lemma BlockMoved(before: seq<u8>, moved: seq<u8>, after: seq<u8>, start: nat, end: nat, dst: nat, d: seq<u8>,
    tail: seq<u8>)
    requires start < end <= start + MAX_OPT_LEN && start + OPT_HEADER_LEN <= dst
    requires end <= |d| && end <= |before| && dst + (end - start) + |tail| <= |before|
    requires before[..end] == d[..end] && before[dst + (end - start)..dst + (end - start) + |tail|] == tail
    requires moved == before[..dst] + before[start..end] + before[dst + (end - start)..]
    requires after == moved[dst - 2 := RFC3397_OPT_DOMAIN_SEARCH][dst - 1 := end - start]
    ensures after[..start] == d[..start]
    ensures after[dst - OPT_HEADER_LEN..dst + (end - start) + |tail|]
            == [RFC3397_OPT_DOMAIN_SEARCH, end - start] + d[start..end] + tail
  {
    Prefixes(before, d, start, end);
    Moved(before, moved, start, end, dst, |tail|);
    Headed(moved, after, start, dst, end - start, |tail|, RFC3397_OPT_DOMAIN_SEARCH, end - start);
  }

  /**
   The bytes from `end` on have become options that begin at `at` and reach up to `memreq`; those before it are
   untouched.
   */
  ghost predicate SplitFrom(a: seq<u8>, d: seq<u8>, end: nat, at: nat, memreq: nat) {
    && end <= |d| && end <= |a| && at <= memreq <= |a| && at + |Options(d[end..])| == memreq
    && a[..end] == d[..end] && a[at..memreq] == Options(d[end..])
  }

  lemma NothingSplit(a: seq<u8>, d: seq<u8>, memreq: nat)
    requires |d| <= memreq <= |a| && a[..|d|] == d
    ensures SplitFrom(a, d, |d|, memreq, memreq)
  {
    NoOptions(d);
  }

  lemma AllSplit(a: seq<u8>, d: seq<u8>, memreq: nat)
    requires SplitFrom(a, d, 0, 0, memreq)
    ensures a[..memreq] == Options(d)
  {
    NoOptions(d);
  }

  /** One more block has become an option. */
  method SplitBlock(result: array<u8>, start: nat, end: nat, dst: nat, ghost d: seq<u8>, ghost memreq: nat)
    requires start < end <= start + MAX_OPT_LEN && start + OPT_HEADER_LEN <= dst
    requires end == |d| || end - start == MAX_OPT_LEN
    requires SplitFrom(result[..], d, end, dst + (end - start), memreq)
    modifies result
    ensures SplitFrom(result[..], d, start, dst - OPT_HEADER_LEN, memreq)
  {
    hide Options;
    OneMore(d, start, end);
    MoveBlock(result, start, end, dst, d, Options(d[end..]));
  }

  /**
   The end of translate_dnssearch: `result` holds `memreq` bytes and has room for the headers. Afterwards it
   holds the same bytes as a row of options.
   */
  method SplitOptions(result: array<u8>, memreq0: nat) returns (memreq: nat)
    requires memreq0 + OPT_HEADER_LEN * Blocks(memreq0) <= result.Length
    modifies result
    ensures memreq == memreq0 + OPT_HEADER_LEN * Blocks(memreq0)
    ensures result[..memreq] == Options(old(result[..memreq0]))
  {
    hide Options, Blocks, SplitFrom;
    ghost var d: seq<u8> := result[..memreq0];
    NothingSplit(result[..], d, memreq0 + OPT_HEADER_LEN * Blocks(memreq0));
    var blocks: int := Blocks(memreq0);
    var bsrc_end, bsrc_start := memreq0, (blocks - 1) * MAX_OPT_LEN;
    var bdst_start := bsrc_start + blocks * OPT_HEADER_LEN;
    memreq := memreq0 + blocks * OPT_HEADER_LEN;
    while blocks > 0
      invariant blocks >= 0 && bsrc_start == (blocks - 1) * MAX_OPT_LEN
                  && bdst_start == bsrc_start + blocks * OPT_HEADER_LEN
      invariant 0 <= bsrc_end <= memreq0 && (blocks > 0 ==> bsrc_start < bsrc_end <= bsrc_start + MAX_OPT_LEN)
      invariant bsrc_end == memreq0 || bsrc_end == blocks * MAX_OPT_LEN
      invariant blocks == 0 ==> bsrc_end == 0
      invariant SplitFrom(result[..], d, bsrc_end, bsrc_end + blocks * OPT_HEADER_LEN, memreq)
    {
      SplitBlock(result, bsrc_start, bsrc_end, bdst_start, d, memreq);
      bsrc_end := bsrc_start;
      bsrc_start := bsrc_start - MAX_OPT_LEN;
      bdst_start := bdst_start - (MAX_OPT_LEN + OPT_HEADER_LEN);
      blocks := blocks - 1;
    }
    AllSplit(result[..], d, memreq);
  }

  lemma NoOptions(d: seq<u8>)
    ensures Options(d[|d|..]) == [] && d[0..] == d
  {
  }

  lemma OneMore(d: seq<u8>, start: nat, end: nat)
    requires start < end <= |d| && end - start <= MAX_OPT_LEN && (end == |d| || end - start == MAX_OPT_LEN)
    ensures Options(d[start..]) == [RFC3397_OPT_DOMAIN_SEARCH, end - start] + d[start..end] + Options(d[end..])
  {
    assert d[start..end] == d[start..][..end - start] && d[end..] == d[start..][end - start..];
    if end == |d| {
      assert d[end..] == [] && d[start..end] == d[start..];
    }
  }

  // --------------------------------------------------------------------------------------- labels

  const DOT: u8 := 46

  datatype Option<T> = None | Some(value: T)

  /** The place of the first dot, or the length. */
  function Label(s: seq<u8>): (n: nat)
    ensures n <= |s| && DOT !in s[..n] && (n < |s| ==> s[n] == DOT)
  {
    if s == [] || s[0] == DOT then 0 else 1 + Label(s[1..])
  }

  lemma {:induction false} LabelUnique(s: seq<u8>, n: nat)
    requires n <= |s| && DOT !in s[..n] && (n < |s| ==> s[n] == DOT)
    ensures Label(s) == n
  {
    if n > 0 {
      assert s[0] in s[..n];
      assert s[1..][..n - 1] == s[..n][1..];
      LabelUnique(s[1..], n - 1);
    }
  }

  /**
   The labels of a dotted name, each with its length in front, and a zero at the end; `None` when one is empty or
   too long.
   */
  function Encoded(s: seq<u8>): (e: Option<seq<u8>>)
    decreases |s|
  {
    var n := Label(s);
    if n >= 64 then None
    else if n == |s| then Some(if n == 0 then [0] else [n] + s + [0])
    else if n == 0 then None
    else
      match Encoded(s[n + 1..])
      case None => None
      case Some(t) => Some([n] + s[..n] + t)
  }

  /** The dotted name that a row of labels stands for. */
  function Decoded(b: seq<u8>): (s: seq<u8>)
    decreases |b|
  {
    if b == [] || b[0] == 0 || |b| <= b[0] then []
    else
      var rest := Decoded(b[1 + b[0]..]);
      if rest == [] then b[1..1 + b[0]] else b[1..1 + b[0]] + [DOT] + rest
  }

  /** A name without the dot that may close it. */
  function Unclosed(s: seq<u8>): (r: seq<u8>) {
    if s != [] && s[|s| - 1] == DOT then s[..|s| - 1] else s
  }

  lemma UnclosedTail(a: seq<u8>, s: seq<u8>)
    ensures Unclosed(a + [DOT] + s) == if s == [] then a else a + [DOT] + Unclosed(s)
  {
    if s != [] {
      var t := a + [DOT] + s;
      assert t[|t| - 1] == s[|s| - 1];
      assert t[..|t| - 1] == a + [DOT] + s[..|s| - 1];
    } else {
      assert (a + [DOT] + [])[..|a|] == a;
    }
  }

  lemma DecodedStep(a: seq<u8>, t: seq<u8>)
    requires 0 < |a| < 64
    ensures Decoded([|a|] + a + t) == if Decoded(t) == [] then a else a + [DOT] + Decoded(t)
  {
    var b := [|a|] + a + t;
    assert b[1..1 + |a|] == a && b[1 + |a|..] == t;
  }

  /** A label that a dot ends. */
  lemma EncodedDot(text: seq<u8>, rest: seq<u8>)
    requires DOT !in text
    ensures |text| == 0 || |text| >= 64 ==> Encoded(text + [DOT] + rest).None?
    ensures 0 < |text| < 64 ==>
              var e := Encoded(rest);
              Encoded(text + [DOT] + rest) == if e.None? then None else Some([|text|] + text + e.value)
  {
    var s := text + [DOT] + rest;
    assert s[..|text|] == text && s[|text| + 1..] == rest;
    LabelUnique(s, |text|);
    hide Label;
  }

  /** The last label. */
  lemma EncodedLast(text: seq<u8>)
    requires DOT !in text
    ensures |text| >= 64 ==> Encoded(text).None?
    ensures |text| < 64 ==> Encoded(text) == Some(if text == [] then [0] else [|text|] + text + [0])
  {
    assert text[..|text|] == text;
    LabelUnique(text, |text|);
    hide Label;
  }

  /** Reading the labels gives the name back, up to a closing dot. */
  lemma {:induction false} LabelsRoundTrip(s: seq<u8>)
    requires Encoded(s).Some?
    ensures Decoded(Encoded(s).value) == Unclosed(s)
    ensures Encoded(s).value != [] && (Decoded(Encoded(s).value) == [] <==> s == [])
    decreases |s|
  {
    var n := Label(s);
    var text := s[..n];
    assert s[0..n] == text && s[0..] == s;
    hide Label, Encoded, Decoded, Unclosed;
    if n == |s| {
      LastDecoded(s);
    } else {
      var rest := s[n + 1..];
      DotSplit(s, 0, n);
      EncodedDot(text, rest);
      LabelsRoundTrip(rest);
      UnclosedTail(text, rest);
      DecodedStep(text, Encoded(rest).value);
    }
  }

  lemma LastDecoded(s: seq<u8>)
    requires DOT !in s && |s| < 64
    ensures Encoded(s).Some? && Decoded(Encoded(s).value) == s == Unclosed(s) && Encoded(s).value != []
  {
    EncodedLast(s);
    hide Encoded;
    if s != [] {
      DecodedStep(s, [0]);
      assert s[|s| - 1] in s;
    }
  }

  /** `whole` is what `done` and then `rest` make, if they make anything. */
  ghost predicate Continues(whole: Option<seq<u8>>, done: seq<u8>, rest: Option<seq<u8>>) {
    if rest.None? then whole.None? else whole == Some(done + rest.value)
  }

  /** The bytes `l` while the label that begins at `marker` is being copied and input up to `p` has been read. */
  ghost predicate InLabel(l: seq<u8>, input: seq<u8>, marker: nat, p: nat) {
    && marker <= p <= |input| && |input| + 2 <= |l|
    && DOT !in input[marker..p] && l[marker + 1..p + 1] == input[marker..p]
    && Continues(Encoded(input), l[..marker], Encoded(input[marker..]))
  }

  lemma StartLabel(l: seq<u8>, input: seq<u8>)
    requires |input| + 2 <= |l|
    ensures InLabel(l, input, 0, 0)
  {
    hide Encoded;
    assert input[0..] == input;
    if Encoded(input).Some? {
      assert l[..0] + Encoded(input).value == Encoded(input).value;
    }
  }

  lemma CopyChar(l: seq<u8>, input: seq<u8>, marker: nat, p: nat)
    requires InLabel(l, input, marker, p) && p < |input| && input[p] != DOT
    ensures InLabel(l[p + 1 := input[p]], input, marker, p + 1)
  {
    hide Encoded, Continues;
    var m := l[p + 1 := input[p]];
    assert m[..marker] == l[..marker] && m[marker + 1..p + 2] == l[marker + 1..p + 1] + [input[p]];
    assert input[marker..p + 1] == input[marker..p] + [input[p]];
  }

  lemma Continued(whole: Option<seq<u8>>, done: seq<u8>, text: seq<u8>, rest: Option<seq<u8>>)
    requires Continues(whole, done, if rest.None? then None else Some(text + rest.value))
    ensures Continues(whole, done + text, rest)
  {
    if rest.Some? {
      assert done + (text + rest.value) == done + text + rest.value;
    }
  }

  lemma DotSplit(input: seq<u8>, marker: nat, p: nat)
    requires marker <= p < |input|
    ensures input[marker..] == input[marker..p] + [input[p]] + input[p + 1..]
  {
  }

  lemma Stamped(l: seq<u8>, marker: nat, p: nat, n: u8)
    requires marker <= p < |l|
    ensures l[marker := n][..p + 1] == l[..marker] + ([n] + l[marker + 1..p + 1])
  {
  }

  lemma StampedEnd(l: seq<u8>, marker: nat, p: nat, n: u8)
    requires marker < p && p + 1 < |l|
    ensures l[marker := n][p + 1 := 0][..p + 2] == l[..marker] + ([n] + l[marker + 1..p + 1] + [0])
  {
  }

  lemma DotContinues(whole: Option<seq<u8>>, done: seq<u8>, text: seq<u8>, rest: seq<u8>)
    requires DOT !in text && Continues(whole, done, Encoded(text + [DOT] + rest))
    ensures |text| == 0 || |text| >= 64 ==> whole.None?
    ensures 0 < |text| < 64 ==> Continues(whole, done + ([|text|] + text), Encoded(rest))
  {
    hide Encoded;
    EncodedDot(text, rest);
    if 0 < |text| < 64 {
      Continued(whole, done, [|text|] + text, Encoded(rest));
    }
  }

  lemma LastContinues(whole: Option<seq<u8>>, done: seq<u8>, text: seq<u8>)
    requires DOT !in text && Continues(whole, done, Encoded(text))
    ensures |text| >= 64 ==> whole.None?
    ensures |text| < 64 ==> whole == Some(done + if text == [] then [0] else [|text|] + text + [0])
  {
    hide Encoded;
    EncodedLast(text);
  }

  lemma LabelEnded(l: seq<u8>, input: seq<u8>, marker: nat, p: nat)
    requires InLabel(l, input, marker, p) && p < |input| && input[p] == DOT
    ensures p == marker || p - marker >= 64 ==> Encoded(input).None?
    ensures marker < p < marker + 64 ==>
              Continues(Encoded(input), l[..marker] + ([p - marker] + l[marker + 1..p + 1]), Encoded(input[p + 1..]))
  {
    hide Encoded, Continues;
    DotSplit(input, marker, p);
    DotContinues(Encoded(input), l[..marker], input[marker..p], input[p + 1..]);
  }

  lemma EndLabel(l: seq<u8>, input: seq<u8>, marker: nat, p: nat)
    requires InLabel(l, input, marker, p) && p < |input| && input[p] == DOT && marker < p < marker + 64
    requires |input| + 2 <= |l|
    ensures InLabel(l[marker := p - marker], input, p + 1, p + 1)
  {
    hide Encoded, Continues, InLabel;
    LabelEnded(l, input, marker, p);
    Stamped(l, marker, p, p - marker);
    FreshLabel(l[marker := p - marker], input, p + 1);
  }

  lemma FreshLabel(l: seq<u8>, input: seq<u8>, p: nat)
    requires p <= |input| && |input| + 2 <= |l| && Continues(Encoded(input), l[..p], Encoded(input[p..]))
    ensures InLabel(l, input, p, p)
  {
    hide Encoded, Continues;
    assert input[p..p] == l[p + 1..p + 1] == [];
  }

  lemma LastText(l: seq<u8>, input: seq<u8>, marker: nat)
    requires InLabel(l, input, marker, |input|)
    ensures marker <= |input| && |input| + 1 <= |l| && marker <= |l|
    ensures DOT !in input[marker..] && Continues(Encoded(input), l[..marker], Encoded(input[marker..]))
    ensures l[marker + 1..|input| + 1] == input[marker..]
  {
    hide Encoded, Continues;
    assert input[marker..] == input[marker..|input|];
  }

  lemma EndName(l: seq<u8>, input: seq<u8>, marker: nat)
    requires InLabel(l, input, marker, |input|)
    ensures |input| - marker >= 64 ==> Encoded(input).None?
    ensures |input| - marker < 64 ==>
              Encoded(input) == Some(l[..marker] + if marker == |input| then [0]
                else [|input| - marker] + l[marker + 1..|input| + 1] + [0])
  {
    hide Encoded, Continues, InLabel;
    LastText(l, input, marker);
    LastContinues(Encoded(input), l[..marker], input[marker..]);
  }

  /**
   domain_mklabels: writes the labels of name `input` to the start of `labels` and returns how many bytes they
   take, or 0 for a name it does not accept. Names contain no zero byte.
   */
  method MkLabels(labels: array<u8>, input: seq<u8>) returns (len: nat)
    requires |input| + 2 <= labels.Length
    modifies labels
    ensures len == 0 <==> input == [] || Encoded(input).None?
    ensures len > 0 ==> len <= |input| + 2 && Some(labels[..len]) == Encoded(input)
    ensures labels[|input| + 2..] == old(labels[|input| + 2..])
  {
    hide Encoded, InLabel;
    if input == [] {
      return 0;
    }
    var marker, p := 0, 0;
    StartLabel(labels[..], input);
    while p < |input|
      invariant marker <= p <= |input| && InLabel(labels[..], input, marker, p)
      invariant labels[|input| + 2..] == old(labels[|input| + 2..])
    {
      ghost var l: seq<u8> := labels[..];
      if input[p] == DOT {
        LabelEnded(l, input, marker, p);
        if p - marker == 0 || p - marker >= 64 {
          return 0;
        }
        EndLabel(l, input, marker, p);
        labels[marker] := p - marker;
        assert labels[..] == l[marker := p - marker];
        marker := p + 1;
      } else {
        CopyChar(l, input, marker, p);
        labels[p + 1] := input[p];
        assert labels[..] == l[p + 1 := input[p]];
      }
      p := p + 1;
    }
    ghost var l: seq<u8> := labels[..];
    EndName(l, input, marker);
    if p - marker >= 64 {
      return 0;
    }
    labels[marker] := p - marker;
    len := p + 1;
    if p - marker != 0 {
      labels[len] := 0;
      len := len + 1;
      assert labels[..] == l[marker := p - marker][p + 1 := 0];
      StampedEnd(l, marker, p, p - marker);
    } else {
      assert labels[..] == l[marker := 0];
      Stamped(l, marker, p, 0);
      assert [0] + l[marker + 1..p + 1] == [0];
    }
    assert labels[..len] == labels[..][..len];
  }
}
