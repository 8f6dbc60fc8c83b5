/**
 Round-trip estimation and the retransmission timeout (tcp_xmit_timer, tcp_timers, tcp_setpersist),
 with the 16-bit fields of the control block, and the backoff that gives up on a silent peer.
 */
module Rtt {
  import opened SeqNum

  const TCPTV_MIN := 2         // ticks of half a second
  const TCPTV_REXMTMAX := 24
  const TCPTV_PERSMIN := 10
  const TCPTV_PERSMAX := 120
  const TCP_MAXRXTSHIFT := 12

  /** `t_srtt` (scaled by 8) and `t_rttvar` (scaled by 4), both `short`. */
  datatype Estimate = Estimate(srtt: int, rttvar: int)

  /** The estimate of a new control block. */
  const INITIAL := Estimate(0, 24)

  /** tcp_backoff. */
  function Backoff(shift: int): (f: int)
    requires 0 <= shift <= TCP_MAXRXTSHIFT
    ensures 1 <= f <= 64
  {
    [1, 2, 4, 8, 16, 32, 64, 64, 64, 64, 64, 64, 64][shift]
  }

  /** TCPT_RANGESET: the value is stored into a `short` first and clamped afterwards. */
  function RangeSet(value: int, lo: int, hi: int): (t: int)
    requires lo <= hi
    ensures lo <= t <= hi
  {
    var t := S16(value);
    if t < lo then lo else if t > hi then hi else t
  }

  /** TCP_REXMTVAL. */
  function RexmtVal(e: Estimate): int { e.srtt / 8 + e.rttvar }

  /** The argument of tcp_setpersist's range, before the backoff. */
  function PersistVal(e: Estimate): int { (e.srtt / 4 + e.rttvar) / 2 }

  /** The estimate after tcp_xmit_timer has seen a round trip of `rtt` ticks. */
  function Sampled(e: Estimate, rtt: int): Estimate {
    if e.srtt != 0 then
      var delta := S16(rtt - 1 - e.srtt / 8);
      var s := S16(e.srtt + delta);
      var dev := S16((if delta < 0 then S16(-delta) else delta) - e.rttvar / 4);
      var v := S16(e.rttvar + dev);
      Estimate(if s <= 0 then 1 else s, if v <= 0 then 1 else v)
    else
      Estimate(S16(rtt * 8), S16(rtt * 2))
  }

  /** The estimate after a retransmission timeout at backoff `shift`. */
  function TimedOut(e: Estimate, shift: int): Estimate {
    if shift > TCP_MAXRXTSHIFT / 4 then Estimate(0, S16(e.rttvar + e.srtt / 8)) else e
  }

  datatype Event = Sample(rtt: int) | Timeout(shift: int)

  function After(e: Estimate, ev: Event): Estimate {
    match ev
    case Sample(rtt) => Sampled(e, rtt)
    case Timeout(shift) => TimedOut(e, shift)
  }

  function Run(e: Estimate, evs: seq<Event>): Estimate {
    if evs == [] then e else After(Run(e, evs[..|evs| - 1]), evs[|evs| - 1])
  }

  /** The same smoothing in unbounded integers: what the fixed-point arithmetic is meant to compute. */
  function ExactAfter(e: Estimate, ev: Event): Estimate {
    match ev
    case Sample(rtt) =>
      if e.srtt != 0 then
        var delta := rtt - 1 - e.srtt / 8;
        Estimate(Max(1, e.srtt + delta), Max(1, e.rttvar + (if delta < 0 then -delta else delta) - e.rttvar / 4))
      else
        Estimate(rtt * 8, rtt * 2)
    case Timeout(shift) =>
      if shift > TCP_MAXRXTSHIFT / 4 then Estimate(0, e.rttvar + e.srtt / 8) else e
  }

  function ExactRun(e: Estimate, evs: seq<Event>): Estimate {
    if evs == [] then e else ExactAfter(ExactRun(e, evs[..|evs| - 1]), evs[|evs| - 1])
  }

  /** All samples of `evs` lie in 1..R ticks. */
  ghost predicate Within(evs: seq<Event>, R: int) {
    forall i :: 0 <= i < |evs| && evs[i].Sample? ==> 1 <= evs[i].rtt <= R
  }

  predicate Bounded(e: Estimate, R: int) {
    && 0 <= e.srtt <= 8 * R
    && 1 <= e.rttvar
    && (if e.srtt > 0 then e.rttvar <= 4 * R else e.rttvar <= 5 * R)
  }

  lemma StepIsExact(e: Estimate, ev: Event, R: int)
    requires 6 <= R <= 4095 && Bounded(e, R)
    requires ev.Sample? ==> 1 <= ev.rtt <= R
    ensures After(e, ev) == ExactAfter(e, ev)
  {
  }

  lemma StepStaysBounded(e: Estimate, ev: Event, R: int)
    requires 6 <= R && Bounded(e, R)
    requires ev.Sample? ==> 1 <= ev.rtt <= R
    ensures Bounded(ExactAfter(e, ev), R)
  {
  }

  /**
   As long as round trips stay within `R` ticks, no interleaving of samples and timeouts drives the estimate
   out of its bounds, and the 16-bit arithmetic never wraps: the fields equal the unbounded computation.
   */
  lemma {:induction false} EstimateBounded(evs: seq<Event>, R: int)
    requires 6 <= R <= 4095 && Within(evs, R)
    ensures Bounded(Run(INITIAL, evs), R) && 1 <= RexmtVal(Run(INITIAL, evs)) <= 5 * R
    ensures Run(INITIAL, evs) == ExactRun(INITIAL, evs)
  {
    if evs != [] {
      EstimateBounded(evs[..|evs| - 1], R);
      StepIsExact(Run(INITIAL, evs[..|evs| - 1]), evs[|evs| - 1], R);
      StepStaysBounded(Run(INITIAL, evs[..|evs| - 1]), evs[|evs| - 1], R);
    }
  }

  /** One sample of 4096 ticks already does not fit the field that is scaled by 8, so 4095 is the exact bound. */
  lemma EstimateExactIff(R: int)
    requires 1 <= R
    ensures (forall evs :: Within(evs, R) ==> Run(INITIAL, evs) == ExactRun(INITIAL, evs)) <==> R <= 4095
  {
    if R <= 4095 {
      forall evs | Within(evs, R)
        ensures Run(INITIAL, evs) == ExactRun(INITIAL, evs)
      {
        EstimateBounded(evs, Max(6, R));
      }
    } else {
      var evs := [Sample(4096)];
      RunOne(INITIAL, Sample(4096));
      assert Within(evs, R) && ExactRun(INITIAL, evs[..0]) == INITIAL;
    }
  }

  lemma RunOne(e: Estimate, ev: Event)
    ensures Run(e, [ev]) == After(e, ev)
  {
    assert [ev][..0] == [] && Run(e, []) == e;
  }

  lemma RunMore(e: Estimate, evs: seq<Event>, ev: Event)
    ensures Run(e, evs + [ev]) == After(Run(e, evs), ev)
  {
    assert (evs + [ev])[..|evs|] == evs;
  }

  /**
   A region of smoothed round trips `s` and variances `v` that samples of at most 145 ticks do not leave,
   as tight as the rounding of the code allows.
   */
  predicate Region(s: int, v: int) {
    && 7 <= s <= 1160 && 1 <= v <= s
    && 4 * v <= 3 * s + 180
    && 2 * v <= s + 234
    && 3 * v <= s + 583
    && 5 * v <= s + 1356
    && 10 * v <= s + 3380
    && 28 * v <= s + 10731
    && 10 * v <= 4888 - s
    && 7 * v <= 4571 - 2 * s
    && 145 * v <= 126730 - 73 * s
  }

  /** The three bounds that are the hardest to keep when a sample is as short as possible. */
  lemma Falls5(k: int, j: int, g: int, i: int)
    requires 0 <= j <= 7 && 0 <= i <= 3 && 0 <= k <= 145 && 0 <= g
    requires 10 * (4 * g + i) <= 8 * k + j + 3380 && 28 * (4 * g + i) <= 8 * k + j + 10731
    ensures 5 * (3 * g + i + k) <= 7 * k + j + 1356
  {
    if i == 0 { } else if i == 1 { } else if i == 2 { } else { }
  }

  lemma Falls28(k: int, j: int, g: int, i: int)
    requires 0 <= j <= 7 && 0 <= i <= 3 && 0 <= k <= 145 && 0 <= g
    requires 10 * (4 * g + i) <= 4888 - (8 * k + j) && 7 * (4 * g + i) <= 4571 - 2 * (8 * k + j)
    ensures 28 * (3 * g + i + k) <= 7 * k + j + 10731
  {
    if i == 0 { } else if i == 1 { } else if i == 2 { } else { }
  }

  lemma Falls7(k: int, j: int, g: int, i: int)
    requires 0 <= j <= 7 && 0 <= i <= 3 && 0 <= k <= 145 && 0 <= g
    requires 7 * (4 * g + i) <= 4571 - 2 * (8 * k + j) && 145 * (4 * g + i) <= 126730 - 73 * (8 * k + j)
    ensures 7 * (3 * g + i + k) <= 4571 - 2 * (7 * k + j)
  {
    if i == 0 { } else if i == 1 { } else if i == 2 { } else { }
  }

  /** The region after the shortest sample: `s` falls by `k`, the variance keeps three quarters and gains `k`. */
  lemma RegionFalls(s: int, v: int, k: int, f: int)
    requires Region(s, v) && 8 * k <= s <= 8 * k + 7 && 4 * (v - f) <= v <= 4 * (v - f) + 3
    ensures Region(s - k, f + k)
  {
    var j, g, i := s - 8 * k, v - f, v - 4 * (v - f);
    Falls5(k, j, g, i);
    Falls28(k, j, g, i);
    Falls7(k, j, g, i);
  }

  /** The region after the longest sample that is not below the average. */
  lemma RegionRises(s: int, v: int, k: int, f: int)
    requires Region(s, v) && 8 * k <= s <= 8 * k + 7 && 4 * (v - f) <= v <= 4 * (v - f) + 3 && k <= 144
    ensures Region(s + 144 - k, f + 144 - k)
  {
  }

  /** What samples of at most 145 ticks and timeouts can make of a new estimate. */
  predicate Attainable(e: Estimate) {
    Region(e.srtt, e.rttvar) || (e.srtt == 0 && 1 <= e.rttvar <= 511)
  }

  lemma FirstSample(e: Estimate, rtt: int)
    requires e.srtt == 0 && 1 <= rtt <= 145
    ensures Attainable(Sampled(e, rtt))
  {
  }

  lemma LessFall(s: int, f: int, k: int, d: int)
    requires Region(s - k, f + k) && 0 < d <= k && 1 <= f && s <= 1160
    ensures Region(s - d, f + d)
  {
  }

  lemma LessRise(s: int, v: int, f: int, k: int, d: int)
    requires Region(s, v) && Region(s + k, f + k) && 1 <= f <= v && 0 <= d <= k
    ensures Region(s + d, f + d)
  {
  }

  /** A sample between the shortest and the longest one has an effect between theirs. */
  lemma RegionFallsBy(s: int, v: int, k: int, f: int, d: int)
    requires Region(s, v) && 8 * k <= s <= 8 * k + 7 && 4 * (v - f) <= v <= 4 * (v - f) + 3 && 0 < d <= k
    ensures Region(s - d, f + d)
  {
    RegionFalls(s, v, k, f);
    assert 1 <= f && s <= 1160;
    hide Region;
    LessFall(s, f, k, d);
  }

  lemma RegionRisesBy(s: int, v: int, k: int, f: int, d: int)
    requires Region(s, v) && 8 * k <= s <= 8 * k + 7 && 4 * (v - f) <= v <= 4 * (v - f) + 3 && 0 <= d <= 144 - k
    ensures Region(s + d, f + d)
  {
    RegionRises(s, v, k, f);
    assert 1 <= f <= v;
    hide Region;
    LessRise(s, v, f, 144 - k, d);
  }

  /** The effect of a sample on an estimate in the region, with the two quotients named. */
  lemma SampledPlainly(s: int, v: int, rtt: int) returns (k: int, f: int, d: int)
    requires Region(s, v) && 1 <= rtt <= 145
    ensures 8 * k <= s <= 8 * k + 7 && 4 * (v - f) <= v <= 4 * (v - f) + 3 && -k <= d <= 144 - k
    ensures Sampled(Estimate(s, v), rtt) == Estimate(s + d, f + (if d < 0 then -d else d))
  {
    k, f, d := s / 8, v - v / 4, rtt - 1 - s / 8;
  }

  lemma SampleStaysInRegion(s: int, v: int, rtt: int)
    requires Region(s, v) && 1 <= rtt <= 145
    ensures Region(Sampled(Estimate(s, v), rtt).srtt, Sampled(Estimate(s, v), rtt).rttvar)
  {
    hide *;
    var k, f, d := SampledPlainly(s, v, rtt);
    if d < 0 {
      RegionFallsBy(s, v, k, f, -d);
      assert s - -d == s + d;
    } else {
      RegionRisesBy(s, v, k, f, d);
    }
  }

  lemma {:induction false} RunAttainable(evs: seq<Event>)
    requires Within(evs, 145)
    ensures Attainable(Run(INITIAL, evs))
  {
    if evs != [] {
      var n := |evs| - 1;
      RunAttainable(evs[..n]);
      var e := Run(INITIAL, evs[..n]);
      if evs[n].Sample? {
        if e.srtt == 0 {
          FirstSample(e, evs[n].rtt);
        } else {
          SampleStaysInRegion(e.srtt, e.rttvar, evs[n].rtt);
        }
      }
    }
  }

  lemma ProductBound(v: int, f: int, bound: int)
    requires 0 <= v <= bound && 0 <= f <= 64
    ensures 0 <= v * f <= bound * 64
  {
    assert v * f <= v * 64;
  }

  /** The timeouts that the stack computes from an estimate fit a `short`, at any backoff. */
  ghost predicate TimeoutsFit(e: Estimate) {
    forall shift :: 0 <= shift <= TCP_MAXRXTSHIFT ==>
      && S16(RexmtVal(e) * Backoff(shift)) == RexmtVal(e) * Backoff(shift)
      && S16(PersistVal(e) * Backoff(shift)) == PersistVal(e) * Backoff(shift)
  }

  lemma AttainableFits(e: Estimate)
    requires Attainable(e)
    ensures 1 <= RexmtVal(e) <= 511 && TimeoutsFit(e)
  {
    forall shift | 0 <= shift <= TCP_MAXRXTSHIFT
      ensures S16(RexmtVal(e) * Backoff(shift)) == RexmtVal(e) * Backoff(shift)
      ensures S16(PersistVal(e) * Backoff(shift)) == PersistVal(e) * Backoff(shift)
    {
      ProductBound(RexmtVal(e), Backoff(shift), 511);
      ProductBound(PersistVal(e), Backoff(shift), 511);
    }
  }

  /**
   Samples of 146, 3 and 1 ticks give a timeout of 513 ticks, which wraps at the sixth backoff and becomes the
   minimum.
   */
  lemma TimeoutWraps()
    ensures Within([Sample(146), Sample(3), Sample(1)], 146)
    ensures RexmtVal(Run(INITIAL, [Sample(146), Sample(3), Sample(1)])) == 513
    ensures RangeSet(513 * Backoff(6), TCPTV_MIN, TCPTV_REXMTMAX) == TCPTV_MIN
  {
    assert Sampled(INITIAL, 146) == Estimate(1168, 292);
    assert Sampled(Estimate(1168, 292), 3) == Estimate(1024, 363);
    assert Sampled(Estimate(1024, 363), 1) == Estimate(896, 401);
    hide Run, Sampled;
    RunOne(INITIAL, Sample(146));
    RunMore(INITIAL, [Sample(146)], Sample(3));
    RunMore(INITIAL, [Sample(146), Sample(3)], Sample(1));
    assert [Sample(146)] + [Sample(3)] == [Sample(146), Sample(3)];
    assert [Sample(146), Sample(3)] + [Sample(1)] == [Sample(146), Sample(3), Sample(1)];
  }

  /**
   No timeout computed from any interleaving of samples in 1..R and timeouts wraps, at any backoff, if and
   only if `R` is at most 145 ticks, which is 72 seconds.
   */
  lemma TimeoutsFitIff(R: int)
    requires 1 <= R
    ensures (forall evs :: Within(evs, R) ==> TimeoutsFit(Run(INITIAL, evs))) <==> R <= 145
  {
    if R <= 145 {
      forall evs | Within(evs, R)
        ensures TimeoutsFit(Run(INITIAL, evs))
      {
        assert Within(evs, 145);
        RunAttainable(evs);
        AttainableFits(Run(INITIAL, evs));
      }
    } else {
      TimeoutWraps();
      var evs := [Sample(146), Sample(3), Sample(1)];
      assert Within(evs, R) && S16(513 * Backoff(6)) != 513 * Backoff(6);
      assert !TimeoutsFit(Run(INITIAL, evs));
    }
  }

  // ------------------------------------------------------------------ giving up on a silent peer

  /** Segment size and backoff after one more retransmission timeout; `None` drops the connection. */
  datatype Patience = Alive(maxseg: int, shift: int) | Dropped

  function Expire(p: Patience): (q: Patience)
    requires p.Alive?
  {
    if p.shift + 1 > TCP_MAXRXTSHIFT then
      if p.maxseg / 2 < 32 then Dropped else Alive(p.maxseg / 2, 6)
    else
      Alive(p.maxseg, p.shift + 1)
  }

  predicate Reasonable(p: Patience) {
    p.Alive? ==> 0 < p.maxseg <= 32768 && 0 <= p.shift <= TCP_MAXRXTSHIFT
  }

  function Pow2(k: nat): (p: nat) {
    if k == 0 then 1 else 2 * Pow2(k - 1)
  }

  /** How often a segment size can be halved before it falls below 32. */
  function Halvings(maxseg: int): (h: nat)
    requires 0 < maxseg
    ensures 32 * Pow2(h) <= Max(maxseg, 32)
  {
    if maxseg / 2 < 32 then 0 else 1 + Halvings(maxseg / 2)
  }

  lemma {:induction false} Pow2Above(k: nat)
    requires k > 10
    ensures Pow2(k) > 1024
  {
    if k > 11 {
      Pow2Above(k - 1);
    } else {
      assert Pow2(11) == 2 * Pow2(10) == 4 * Pow2(9) == 8 * Pow2(8) == 16 * Pow2(7) == 32 * Pow2(6);
      assert Pow2(6) == 2 * Pow2(5) == 4 * Pow2(4) == 8 * Pow2(3) == 16 * Pow2(2) == 64;
    }
  }

  /** How many expiries are left before the connection is dropped. */
  function ExpiriesLeft(p: Patience): (n: nat)
    requires Reasonable(p)
  {
    if p.Dropped? then 0 else TCP_MAXRXTSHIFT + 1 - p.shift + 7 * Halvings(p.maxseg)
  }

  /** Each expiry lowers the pair (segment size, remaining backoff steps) lexicographically. */
  lemma ExpireDecreases(p: Patience)
    requires p.Alive? && Reasonable(p)
    ensures var q := Expire(p);
            && Reasonable(q)
            && ExpiriesLeft(q) == ExpiriesLeft(p) - 1
            && (q.Alive? ==>
              q.maxseg < p.maxseg || (q.maxseg == p.maxseg && TCP_MAXRXTSHIFT - q.shift < TCP_MAXRXTSHIFT - p.shift))
  {
  }

  function ExpireTimes(p: Patience, n: nat): Patience {
    if n == 0 then p else
      var q := ExpireTimes(p, n - 1);
      if q.Alive? then Expire(q) else q
  }

  /** A silent peer's connection dies at exactly the `ExpiriesLeft`-th expiry, after at most 83 of them. */
  lemma {:induction false} SilentPeerIsDropped(p: Patience, n: nat)
    requires p.Alive? && Reasonable(p)
    ensures Reasonable(ExpireTimes(p, n))
    ensures ExpireTimes(p, n).Dropped? <==> n >= ExpiriesLeft(p)
    ensures n <= ExpiriesLeft(p) ==> ExpiriesLeft(ExpireTimes(p, n)) == ExpiriesLeft(p) - n
    ensures 1 <= ExpiriesLeft(p) <= 83
  {
    if Halvings(p.maxseg) > 10 {
      Pow2Above(Halvings(p.maxseg));
    }
    if n > 0 {
      SilentPeerIsDropped(p, n - 1);
      var q := ExpireTimes(p, n - 1);
      if q.Alive? {
        ExpireDecreases(q);
      }
    }
  }
}
