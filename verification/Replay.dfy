/** The replay schedule: offsets from the first event, divided by the rate in floating point. */
module Replay {
  import opened Options
  import opened Words
  import opened FeedEvents

  /** The conversion to uint64_t, which drops the fraction; undefined, here None, when the whole
      part does not fit. */
  function Truncate(x: real): (r: Option<nat>) {
    if x <= -1.0 || x >= WORD as real then None
    else Some(if x < 0.0 then 0 else x.Floor)
  }

  /** `static_cast<uint64_t>(static_cast<double>(d) / rate)`, every operation rounded by rnd. A
      division by zero gives no number the conversion accepts. */
  function OffsetNs(d: nat, rate: real, rnd: real -> real): (r: Option<nat>) {
    if rate == 0.0 then None else Truncate(rnd(rnd(d as real) / rate))
  }

  function Target(startNs: nat, origin: nat, injectNs: nat, rate: real, rnd: real -> real): (r: Option<nat>) {
    var off := OffsetNs(Wrap(injectNs - origin), rate, rnd);
    if off.None? then None else Some(Wrap(startNs + off.value))
  }

  /** The callback arguments for a list of events, the time None where it is undefined. */
  function Schedule(evs: seq<FeedEvent>, rate: real, rnd: real -> real, startNs: nat)
    : (r: seq<(FeedEvent, Option<nat>)>)
    ensures |r| == |evs|
  {
    seq(|evs|, i requires 0 <= i < |evs| =>
      (evs[i], if i == 0 then Some(startNs) else Target(startNs, evs[0].injectNs, evs[i].injectNs, rate, rnd)))
  }

  lemma ScheduleAppend(evs: seq<FeedEvent>, ev: FeedEvent, rate: real, rnd: real -> real, startNs: nat)
    requires evs != []
    ensures Schedule(evs + [ev], rate, rnd, startNs)
            == Schedule(evs, rate, rnd, startNs) + [(ev, Target(startNs, evs[0].injectNs, ev.injectNs, rate, rnd))]
  {
  }

  lemma SchedulePrefix(evs: seq<FeedEvent>, all: seq<FeedEvent>, rate: real, rnd: real -> real, startNs: nat)
    requires evs <= all
    ensures Schedule(evs, rate, rnd, startNs) <= Schedule(all, rate, rnd, startNs)
  {
  }

  /** These calls are the schedule up to its first undefined time, or all of it. */
  ghost predicate Follows(calls: seq<(FeedEvent, nat)>, schedule: seq<(FeedEvent, Option<nat>)>, complete: bool) {
    && |calls| <= |schedule|
    && (forall i :: 0 <= i < |calls| ==> schedule[i] == (calls[i].0, Some(calls[i].1)))
    && (if complete then |calls| == |schedule| else |calls| < |schedule| && schedule[|calls|].1.None?)
  }

  lemma FollowsOn(calls: seq<(FeedEvent, nat)>, schedule: seq<(FeedEvent, Option<nat>)>, ev: FeedEvent, at: nat)
    requires Follows(calls, schedule, true)
    ensures Follows(calls + [(ev, at)], schedule + [(ev, Some(at))], true)
  {
  }

  lemma FollowsUpTo(calls: seq<(FeedEvent, nat)>, schedule: seq<(FeedEvent, Option<nat>)>, ev: FeedEvent,
                    all: seq<(FeedEvent, Option<nat>)>)
    requires Follows(calls, schedule, true) && schedule + [(ev, None)] <= all
    ensures Follows(calls, all, false)
  {
  }

  /** A rounding mode: order is kept and zero is exact. */
  ghost predicate Rounding(rnd: real -> real) {
    rnd(0.0) == 0.0 && forall x, y {:trigger rnd(x), rnd(y)} :: x <= y ==> rnd(x) <= rnd(y)
  }

  ghost predicate Ordered(evs: seq<FeedEvent>) {
    forall i, j :: 0 <= i <= j < |evs| ==> evs[i].injectNs <= evs[j].injectNs
  }

  /** The scaled offset of an event before it is truncated. */
  function Scaled(evs: seq<FeedEvent>, i: nat, rate: real, rnd: real -> real): (r: real)
    requires rate > 0.0 && i < |evs| && evs[0].injectNs <= evs[i].injectNs
  {
    rnd(rnd((evs[i].injectNs - evs[0].injectNs) as real) / rate)
  }

  /** No conversion is out of range and no target time wraps. */
  ghost predicate NoOverflow(evs: seq<FeedEvent>, rate: real, rnd: real -> real, startNs: nat)
    requires rate > 0.0 && Ordered(evs)
  {
    forall i {:trigger evs[i]} :: 0 <= i < |evs| ==>
      evs[i].injectNs < WORD && startNs as real + Scaled(evs, i, rate, rnd) < WORD as real
  }

  lemma DivideMonotone(a: real, b: real, rate: real)
    requires rate > 0.0 && a <= b
    ensures a / rate <= b / rate
  {
    assert b / rate - a / rate == (b - a) / rate;
  }

  lemma ScaledMonotone(evs: seq<FeedEvent>, i: nat, j: nat, rate: real, rnd: real -> real)
    requires Ordered(evs) && Rounding(rnd) && rate > 0.0 && i <= j < |evs|
    ensures 0.0 <= Scaled(evs, i, rate, rnd) <= Scaled(evs, j, rate, rnd)
  {
    var o := evs[0].injectNs;
    var x, y := (evs[i].injectNs - o) as real, (evs[j].injectNs - o) as real;
    assert rnd(0.0) <= rnd(x) <= rnd(y);
    DivideMonotone(0.0, rnd(x), rate);
    DivideMonotone(rnd(x), rnd(y), rate);
    assert rnd(0.0) <= rnd(rnd(x) / rate) <= rnd(rnd(y) / rate);
  }

  lemma TargetIs(evs: seq<FeedEvent>, i: nat, rate: real, rnd: real -> real, startNs: nat)
    requires Ordered(evs) && Rounding(rnd) && rate > 0.0 && NoOverflow(evs, rate, rnd, startNs) && i < |evs|
    ensures Target(startNs, evs[0].injectNs, evs[i].injectNs, rate, rnd) == Some(startNs + Scaled(evs, i, rate, rnd).Floor)
  {
    assert evs[i].injectNs < WORD;
    ScaledMonotone(evs, i, i, rate, rnd);
  }

  /** With injection times in order, a positive rate and no overflow, the target times are all
      defined and never decrease, whatever order-preserving rounding the floating-point operations use. */
  lemma ScheduleMonotone(evs: seq<FeedEvent>, rate: real, rnd: real -> real, startNs: nat, i: nat, j: nat)
    requires Ordered(evs) && Rounding(rnd) && rate > 0.0 && NoOverflow(evs, rate, rnd, startNs)
    requires i <= j < |evs|
    ensures var s := Schedule(evs, rate, rnd, startNs);
            s[i].1.Some? && s[j].1.Some? && startNs <= s[i].1.value <= s[j].1.value
  {
    TargetIs(evs, i, rate, rnd, startNs);
    TargetIs(evs, j, rate, rnd, startNs);
    ScaledMonotone(evs, i, j, rate, rnd);
    FloorMonotone(Scaled(evs, i, rate, rnd), Scaled(evs, j, rate, rnd));
  }

  lemma FloorMonotone(x: real, y: real)
    requires 0.0 <= x <= y
    ensures 0 <= x.Floor <= y.Floor
  {
  }

  const EXACT: nat := 0x20_0000_0000_0000

  /** Integers up to 2^53 are representable. */
  ghost predicate ExactIntegers(rnd: real -> real) {
    forall k: nat {:trigger rnd(k as real)} :: k <= EXACT ==> rnd(k as real) == k as real
  }

  /** At rate 1.0 and offsets up to 2^53 ns the gaps between target times are the original gaps. */
  lemma UnitRateIsExact(evs: seq<FeedEvent>, rnd: real -> real, startNs: nat, i: nat, j: nat)
    requires Ordered(evs) && ExactIntegers(rnd) && i <= j < |evs|
    requires evs[|evs| - 1].injectNs < WORD && evs[|evs| - 1].injectNs - evs[0].injectNs <= EXACT
    requires startNs + EXACT < WORD
    ensures var s := Schedule(evs, 1.0, rnd, startNs);
            && s[i].1 == Some(startNs + evs[i].injectNs - evs[0].injectNs) && s[j].1.Some?
            && s[j].1.value - s[i].1.value == evs[j].injectNs - evs[i].injectNs
  {
    UnitTarget(evs, rnd, startNs, i);
    UnitTarget(evs, rnd, startNs, j);
  }

  lemma UnitTarget(evs: seq<FeedEvent>, rnd: real -> real, startNs: nat, i: nat)
    requires Ordered(evs) && ExactIntegers(rnd) && i < |evs|
    requires evs[|evs| - 1].injectNs < WORD && evs[|evs| - 1].injectNs - evs[0].injectNs <= EXACT
    requires startNs + EXACT < WORD
    ensures Schedule(evs, 1.0, rnd, startNs)[i].1 == Some(startNs + evs[i].injectNs - evs[0].injectNs)
  {
    var d: nat := evs[i].injectNs - evs[0].injectNs;
    assert evs[i].injectNs <= evs[|evs| - 1].injectNs;
    assert Wrap(evs[i].injectNs - evs[0].injectNs) == d;
    assert rnd(d as real) == d as real;
    assert (d as real) / 1.0 == d as real;
    assert (d as real).Floor == d;
  }

  /** Is y within relative error u of x? */
  ghost predicate Close(x: real, y: real, u: real) {
    x - u * x <= y <= x + u * x
  }

  /** The numbers a floating-point format represents with full precision: zero and the normal
      range, from lo to hi. */
  predicate Normal(x: real, lo: real, hi: real) {
    x == 0.0 || lo <= x <= hi
  }

  /** Rounding with relative error at most u there; for doubles rounded to nearest u is 2^-53, lo
      is 2^-1022 and hi the largest double. */
  ghost predicate Accurate(rnd: real -> real, u: real, lo: real, hi: real) {
    forall x {:trigger rnd(x)} :: Normal(x, lo, hi) ==> Close(x, rnd(x), u)
  }

  /** Is the whole number within one, and twice the relative error u, of q? */
  ghost predicate NearOffset(q: real, off: nat, u: real) {
    q - (2.0 * u + u * u) * q - 1.0 < off as real <= q + (2.0 * u + u * u) * q
  }

  /** At any positive rate whose quotient is zero or in the normal range, the scheduled offset is
      the original offset divided by the rate, to within one nanosecond of truncation and twice
      the relative rounding error. */
  lemma OffsetIsAccurate(d: nat, rate: real, rnd: real -> real, u: real, lo: real, hi: real)
    requires rate > 0.0 && 0.0 <= u <= 1.0 && 0.0 < lo <= 1.0 && WORD as real <= hi && Accurate(rnd, u, lo, hi)
    requires d < WORD && Normal(rnd(d as real) / rate, lo, hi)
    requires rnd(rnd(d as real) / rate) < WORD as real
    ensures OffsetNs(d, rate, rnd).Some? && NearOffset(d as real / rate, OffsetNs(d, rate, rnd).value, u)
  {
    assert Normal(d as real, lo, hi);
    assert Close(d as real, rnd(d as real), u);
    SecondRounding(d as real, rnd(d as real), rate, rnd, u, lo, hi);
  }

  lemma SecondRounding(e: real, x: real, rate: real, rnd: real -> real, u: real, lo: real, hi: real)
    requires rate > 0.0 && 0.0 <= u <= 1.0 && 0.0 < lo && Accurate(rnd, u, lo, hi) && e >= 0.0 && Close(e, x, u)
    requires Normal(x / rate, lo, hi) && rnd(x / rate) < WORD as real
    ensures var off := Truncate(rnd(x / rate)); off.Some? && NearOffset(e / rate, off.value, u)
  {
    NotNegative(e, x, rate, u);
    assert Close(x / rate, rnd(x / rate), u);
    OffsetWithin(e, x, rnd(x / rate), rate, u);
  }

  lemma NotNegative(e: real, x: real, rate: real, u: real)
    requires rate > 0.0 && 0.0 <= u <= 1.0 && e >= 0.0 && Close(e, x, u)
    ensures 0.0 <= x / rate
  {
    TimesMonotone(e, u, 1.0);
    DivideMonotone(0.0, x, rate);
  }

  lemma OffsetWithin(e: real, x: real, y: real, rate: real, u: real)
    requires rate > 0.0 && 0.0 <= u <= 1.0 && e >= 0.0 && Close(e, x, u) && Close(x / rate, y, u)
    requires y < WORD as real
    ensures Truncate(y).Some? && NearOffset(e / rate, Truncate(y).value, u)
  {
    var q := e / rate;
    FirstRounding(e, x, rate, u);
    TwoRoundings(q, x / rate, y, u);
    FloorWithin(y, q - (2.0 * u + u * u) * q, q + (2.0 * u + u * u) * q);
  }

  lemma FloorWithin(y: real, lo: real, hi: real)
    requires 0.0 <= y < WORD as real && lo <= y <= hi
    ensures Truncate(y).Some? && lo - 1.0 < Truncate(y).value as real <= hi
  {
  }

  lemma FirstRounding(e: real, x: real, rate: real, u: real)
    requires rate > 0.0 && 0.0 <= u <= 1.0 && e >= 0.0 && Close(e, x, u)
    ensures 0.0 <= e / rate && 0.0 <= x / rate
    ensures Close(e / rate, x / rate, u)
  {
    TimesMonotone(e, u, 1.0);
    Divided(e, u * e, x, rate);
    TimesDivided(u, e, rate);
  }

  lemma TimesDivided(u: real, e: real, rate: real)
    requires rate > 0.0
    ensures (u * e) / rate == u * (e / rate)
  {
  }

  lemma Divided(e: real, f: real, x: real, rate: real)
    requires rate > 0.0 && 0.0 <= f <= e && e - f <= x <= e + f
    ensures 0.0 <= e / rate && 0.0 <= x / rate
    ensures e / rate - f / rate <= x / rate <= e / rate + f / rate
  {
    DivideMonotone(0.0, e, rate);
    DivideMonotone(0.0, x, rate);
    DivideMonotone(e, x + f, rate);
    DivideMonotone(x, e + f, rate);
    SumDivided(x, f, rate);
    SumDivided(e, f, rate);
  }

  lemma SumDivided(a: real, b: real, rate: real)
    requires rate > 0.0
    ensures (a + b) / rate == a / rate + b / rate
  {
  }

  lemma TwoRoundings(q: real, z: real, y: real, u: real)
    requires 0.0 <= u <= 1.0 && q >= 0.0 && z >= 0.0
    requires Close(q, z, u) && Close(z, y, u)
    ensures 0.0 <= y && q - (2.0 * u + u * u) * q <= y <= q + (2.0 * u + u * u) * q
  {
    var uq := u * q;
    var uuq := u * uq;
    assert (2.0 * u + u * u) * q == 2.0 * uq + uuq;
    assert uuq >= 0.0 by { TimesMonotone(q, 0.0, u); TimesMonotone(u, 0.0, uq); }
    UpperRounding(q, z, u, uq, uuq);
    LowerRounding(q, z, u, uq, uuq);
  }

  lemma UpperRounding(q: real, z: real, u: real, uq: real, uuq: real)
    requires u >= 0.0 && uq == u * q && uuq == u * uq && z <= q + uq
    ensures z + u * z <= q + 2.0 * uq + uuq
  {
    TimesMonotone(u, z, q + uq);
    assert u * (q + uq) == u * q + u * uq;
  }

  lemma LowerRounding(q: real, z: real, u: real, uq: real, uuq: real)
    requires 0.0 <= u <= 1.0 && uq == u * q && uuq == u * uq && q - uq <= z && z >= 0.0
    ensures z - u * z >= q - 2.0 * uq + uuq && z - u * z >= 0.0
  {
    var v := 1.0 - u;
    TimesMonotone(v, q - uq, z);
    TimesMonotone(v, 0.0, z);
    assert v * z == z - u * z;
    assert v * (q - uq) == (q - uq) - u * (q - uq);
    assert u * (q - uq) == u * q - u * uq;
  }

  lemma TimesMonotone(a: real, x: real, y: real)
    requires a >= 0.0 && x <= y
    ensures a * x <= a * y
  {
    assert a * (y - x) >= 0.0;
  }
}
