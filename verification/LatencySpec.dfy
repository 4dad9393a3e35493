// The memory controller of bw_lat_mem_ctrl.cc as a function of the windows of accesses
// it has seen.  Doubles are taken for reals.
module LatencySpec {
  import opened Common

  // A point of a curve: accesses per cycle, and cycles.
  datatype Point = Point(bandwidth: real, latency: real)

  type Curve = seq<Point>

  const CURVES: nat := 51
  const NO_LATENCY: real := 100000.0
  const CONVERGE_SPEED: real := 0.05

  // A curve falls in bandwidth from point to point.
  ghost predicate Falling(c: Curve) {
    && c != []
    && (forall i :: 0 <= i < |c| ==> c[i].bandwidth >= 0.0 && c[i].latency >= 0.0)
    && forall i, j :: 0 <= i < j < |c| ==> c[j].bandwidth < c[i].bandwidth
  }

  lemma FallingTail(c: Curve)
    requires Falling(c) && |c| > 1
    ensures Falling(c[1..])
  {
  }

  // What the constructor makes of the curve files.
  datatype Model = Model(curves: seq<Curve>, leadOff: real, maxBandwidth: real, maxLatency: real,
                         maxBandwidths: seq<real>, maxLatencies: seq<nat>)

  // The largest of 0 and the bandwidths, or the latencies, of a curve.
  ghost predicate TopBandwidth(x: real, c: Curve) {
    x >= 0.0 && (forall i :: 0 <= i < |c| ==> c[i].bandwidth <= x)
      && (x == 0.0 || exists i :: 0 <= i < |c| && c[i].bandwidth == x)
  }

  ghost predicate TopLatency(x: real, c: Curve) {
    x >= 0.0 && (forall i :: 0 <= i < |c| ==> c[i].latency <= x)
      && (x == 0.0 || exists i :: 0 <= i < |c| && c[i].latency == x)
  }

  // The least of NO_LATENCY and all latencies.
  ghost predicate Least(x: real, cs: seq<Curve>) {
    && x <= NO_LATENCY && (forall i, j :: 0 <= i < |cs| && 0 <= j < |cs[i]| ==> x <= cs[i][j].latency)
    && (x == NO_LATENCY || exists i, j :: 0 <= i < |cs| && 0 <= j < |cs[i]| && cs[i][j].latency == x)
  }

  ghost predicate Loaded(m: Model) {
    && |m.curves| == |m.maxBandwidths| == |m.maxLatencies| == CURVES
    && (forall i :: 0 <= i < CURVES ==> Falling(m.curves[i]))
    && Least(m.leadOff, m.curves) && m.leadOff >= 0.0
    && (forall i :: 0 <= i < CURVES ==>
      && TopBandwidth(m.maxBandwidths[i], m.curves[i])
      && m.maxBandwidths[i] <= m.maxBandwidth)
    && (forall i :: 0 <= i < CURVES ==>
          exists x :: TopLatency(x, m.curves[i]) && x <= m.maxLatency && m.maxLatencies[i] == x.Floor)
  }

  // (uint32_t) leadOffLatency
  function LeadOff(m: Model): (l: nat)
    requires m.leadOff >= 0.0
    ensures l as real <= m.leadOff < l as real + 1.0
  {
    m.leadOff.Floor
  }

  // ---------- a curve as a function ----------

  // The line through two points.
  function Line(p: Point, q: Point, x: real): real
    requires p.bandwidth < q.bandwidth
  {
    p.latency + (x - p.bandwidth) / (q.bandwidth - p.bandwidth) * (q.latency - p.latency)
  }

  // The latency at a bandwidth: that of the highest point above it, the line between
  // the two points around it, or the line through the last two below all of them.
  function At(c: Curve, x: real): real
    requires Falling(c)
  {
    if |c| == 1 || c[0].bandwidth < x then c[0].latency
    else if |c| == 2 || c[1].bandwidth < x then Line(c[1], c[0], x)
    else
      FallingTail(c);
      At(c[1..], x)
  }

  // Where the search loop stops.
  lemma {:induction false} AtIs(c: Curve, x: real, j: nat)
    requires Falling(c) && j < |c| && (forall k :: 0 <= k < j ==> c[k].bandwidth >= x)
    requires j == |c| - 1 || c[j].bandwidth < x
    ensures At(c, x) == if j == 0 then c[0].latency else Line(c[j], c[j - 1], x)
    decreases j
  {
    if j > 1 {
      FallingTail(c);
      assert c[1].bandwidth >= x;
      AtIs(c[1..], x, j - 1);
    }
  }

  lemma Share(a: real, d: real)
    requires d > 0.0
    ensures (a >= 0.0 ==> a / d >= 0.0) && (a <= 0.0 ==> a / d <= 0.0) && (a <= d ==> a / d <= 1.0)
      && (a == d ==> a / d == 1.0)
  {
    var t := a / d;
    assert t * d == a;
    if t > 1.0 {
      Scales(1.0, t, d);
    }
    if t < 0.0 {
      Scales(t, 0.0, d);
    }
  }

  lemma Scales(t: real, u: real, y: real)
    requires y >= 0.0
    ensures t <= u ==> t * y <= u * y
    ensures t < u && y > 0.0 ==> t * y < u * y
  {
    assert (u - t) * y == u * y - t * y;
  }

  lemma LineEnds(p: Point, q: Point)
    requires p.bandwidth < q.bandwidth
    ensures Line(p, q, p.bandwidth) == p.latency && Line(p, q, q.bandwidth) == q.latency
  {
    var d, y := q.bandwidth - p.bandwidth, q.latency - p.latency;
    Share(d, d);
    Share(0.0, d);
    assert Line(p, q, p.bandwidth) == p.latency + 0.0 * y;
    assert Line(p, q, q.bandwidth) == p.latency + 1.0 * y;
  }

  // Between its points a line stays between their latencies; where it rises it goes on
  // doing so.
  lemma LineBetween(p: Point, q: Point, x: real)
    requires p.bandwidth < q.bandwidth
    ensures p.bandwidth <= x <= q.bandwidth ==>
      (p.latency <= Line(p, q, x) <= q.latency || q.latency <= Line(p, q, x) <= p.latency)
    ensures p.latency <= q.latency && x <= p.bandwidth ==> Line(p, q, x) <= p.latency
    ensures p.latency <= q.latency && x <= q.bandwidth ==> Line(p, q, x) <= q.latency
  {
    var d, y := q.bandwidth - p.bandwidth, q.latency - p.latency;
    var t := (x - p.bandwidth) / d;
    assert Line(p, q, x) == p.latency + t * y;
    Share(x - p.bandwidth, d);
    if y >= 0.0 {
      Scales(t, 1.0, y);
      Scales(0.0, t, y);
      Scales(t, 0.0, y);
    } else {
      assert t * y == -(t * -y);
      Scales(t, 1.0, -y);
      Scales(0.0, t, -y);
    }
  }

  lemma LineRises(p: Point, q: Point, x: real, x': real)
    requires p.bandwidth < q.bandwidth && p.latency <= q.latency && x <= x'
    ensures Line(p, q, x) <= Line(p, q, x')
  {
    var d, y := q.bandwidth - p.bandwidth, q.latency - p.latency;
    var t, t' := (x - p.bandwidth) / d, (x' - p.bandwidth) / d;
    assert t' - t == (x' - x) / d;
    Share(x' - x, d);
    Scales(t, t', y);
  }

  // A point (x, y) on the line through two others, without a quotient.
  ghost predicate OnLine(y: real, p: Point, q: Point, x: real) {
    (y - p.latency) * (q.bandwidth - p.bandwidth) == (x - p.bandwidth) * (q.latency - p.latency)
  }

  lemma LineOn(p: Point, q: Point, x: real)
    requires p.bandwidth < q.bandwidth
    ensures OnLine(Line(p, q, x), p, q, x)
  {
    var a, d, l := x - p.bandwidth, q.bandwidth - p.bandwidth, q.latency - p.latency;
    var t := a / d;
    assert t * d == a;
    assert Line(p, q, x) - p.latency == t * l;
    assert t * l * d == t * d * l;
  }

  // j is the first point below the bandwidth, or the last point of all.
  ghost predicate NextPoint(c: Curve, x: real, j: nat) {
    && j < |c| && (forall k :: 0 <= k < j ==> c[k].bandwidth >= x)
    && (j == |c| - 1 || c[j].bandwidth < x)
  }

  // A curve as it is meant: above all its points it is level, otherwise the line through
  // the next point below and the one before it, below all points the last two.
  lemma {:induction false} AtOnLine(c: Curve, x: real, j: nat)
    requires Falling(c) && NextPoint(c, x, j)
    ensures if j == 0 then At(c, x) == c[0].latency else OnLine(At(c, x), c[j], c[j - 1], x)
  {
    hide OnLine;
    hide Line;
    AtIs(c, x, j);
    if j > 0 {
      LineOn(c[j], c[j - 1], x);
    }
  }

  // A curve goes through its points.
  lemma {:induction false} AtPoint(c: Curve, j: nat)
    requires Falling(c) && j < |c|
    ensures At(c, c[j].bandwidth) == c[j].latency
  {
    var x := c[j].bandwidth;
    if |c| > 1 {
      if j + 1 < |c| {
        AtIs(c, x, j + 1);
        LineEnds(c[j + 1], c[j]);
      } else {
        AtIs(c, x, j);
        LineEnds(c[j], c[j - 1]);
      }
    }
  }

  // Between two neighbouring points the latency lies between theirs.
  lemma {:induction false} AtBetween(c: Curve, x: real, j: nat)
    requires Falling(c) && 0 < j < |c| && c[j].bandwidth < x <= c[j - 1].bandwidth
    ensures OnLine(At(c, x), c[j], c[j - 1], x)
    ensures c[j].latency <= At(c, x) <= c[j - 1].latency || c[j - 1].latency <= At(c, x) <= c[j].latency
  {
    forall k | 0 <= k < j
      ensures c[k].bandwidth >= x
    {
      if k < j - 1 {
        assert c[j - 1].bandwidth < c[k].bandwidth;
      }
    }
    hide OnLine;
    AtIs(c, x, j);
    LineOn(c[j], c[j - 1], x);
    LineBetween(c[j], c[j - 1], x);
  }

  // Latencies that do not fall where bandwidth grows.
  ghost predicate Rising(c: Curve) {
    forall i, j :: 0 <= i < j < |c| ==> c[j].latency <= c[i].latency
  }

  lemma {:induction false} AtBelowTop(c: Curve, x: real)
    requires Falling(c) && Rising(c) && x <= c[0].bandwidth
    ensures At(c, x) <= c[0].latency
  {
    if |c| > 1 {
      if |c| == 2 || c[1].bandwidth < x {
        LineBetween(c[1], c[0], x);
      } else {
        FallingTail(c);
        AtBelowTop(c[1..], x);
      }
    }
  }

  // On such a curve more bandwidth never means less latency.
  lemma {:induction false} AtRises(c: Curve, x: real, x': real)
    requires Falling(c) && Rising(c) && x <= x'
    ensures At(c, x) <= At(c, x')
  {
    if |c| == 1 || c[0].bandwidth < x {
    } else if c[0].bandwidth < x' {
      AtBelowTop(c, x);
    } else if |c| == 2 || c[1].bandwidth < x {
      LineRises(c[1], c[0], x, x');
    } else {
      FallingTail(c);
      if c[1].bandwidth < x' {
        AtBelowTop(c[1..], x);
        LineBetween(c[1], c[0], x');
      } else {
        AtRises(c[1..], x, x');
      }
    }
  }

  // The last two points do not fall: below them the line stays below.
  ghost predicate LowEndRises(c: Curve) {
    |c| > 1 ==> c[|c| - 1].latency <= c[|c| - 2].latency
  }

  lemma {:induction false} AtBounded(c: Curve, x: real, top: real)
    requires Falling(c) && LowEndRises(c) && forall i :: 0 <= i < |c| ==> c[i].latency <= top
    ensures At(c, x) <= top
  {
    if |c| == 1 || c[0].bandwidth < x {
    } else if |c| == 2 || c[1].bandwidth < x {
      LineBetween(c[1], c[0], x);
    } else {
      FallingTail(c);
      AtBounded(c[1..], x, top);
    }
  }

  // ---------- one window ----------

  // A window of no cycles at all has an infinite bandwidth.
  datatype Measured = Finite(bandwidth: real) | Infinite

  datatype Estimate = Estimate(bandwidth: real, latency: real, overflow: real, answer: nat)

  // A PID-like step towards a value.
  function Settle(target: real, last: real): real {
    CONVERGE_SPEED * target + (1.0 - CONVERGE_SPEED) * last
  }

  // The curve for a share of reads: its number is the nearest even percentage, halved.
  function CurveIndex(readPercentage: real): int {
    (100.0 * readPercentage * 0.5 + 0.5).Floor
  }

  lemma IndexNearest(r: real)
    requires 0.0 <= r <= 1.0
    ensures 0 <= CurveIndex(r) < CURVES && -1.0 <= 100.0 * r - 2.0 * CurveIndex(r) as real <= 1.0
    ensures r == 0.0 ==> CurveIndex(r) == 0
    ensures r == 1.0 ==> CurveIndex(r) == CURVES - 1
  {
  }

  predicate Overloaded(m: Model, i: nat, w: Measured)
    requires i < |m.maxBandwidths|
  {
    w.Infinite? || m.maxBandwidths[i] * 0.985 < w.bandwidth
  }

  function Clamped(m: Model, latency: real): (a: nat)
    requires m.leadOff >= 0.0
    ensures a >= LeadOff(m) && (latency >= LeadOff(m) as real ==> a == latency.Floor)
  {
    if latency < LeadOff(m) as real then LeadOff(m) else latency.Floor
  }

  // The overflow factor on a curve's largest latency, and on one read off the curve.
  function Penalty(latency: real, f: real): real {
    (1.0 + f) * latency
  }

  function Charged(latency: real, f: real): real {
    latency + f * latency
  }

  // searchForLatencyOnCurve
  function Searched(m: Model, e: Estimate, w: Measured, i: nat): Estimate
    requires Loaded(m) && i < CURVES
  {
    if Overloaded(m, i, w) then
      var f := e.overflow + 0.02;
      var l := Settle(Penalty(m.maxLatencies[i] as real, f), e.latency);
      Estimate(Settle(m.maxBandwidths[i], e.bandwidth), l, f, Clamped(m, l))
    else
      var x := Settle(w.bandwidth, e.bandwidth);
      var l := Settle(Charged(At(m.curves[i], x), e.overflow), e.latency);
      Estimate(x, l, if e.overflow > 0.01 then e.overflow - 0.01 else e.overflow, Clamped(m, l))
  }

  // What every window keeps: the asserts of the search hold.
  ghost predicate InRange(m: Model, e: Estimate)
    requires m.leadOff >= 0.0
  {
    0.0 <= e.bandwidth <= m.maxBandwidth && e.overflow >= 0.0 && e.answer >= LeadOff(m)
  }

  function Fresh(m: Model): Estimate
    requires m.leadOff >= 0.0
  {
    Estimate(0.0, m.leadOff, 0.0, LeadOff(m))
  }

  lemma FreshInRange(m: Model)
    requires Loaded(m)
    ensures InRange(m, Fresh(m))
  {
    assert TopBandwidth(m.maxBandwidths[0], m.curves[0]) && m.maxBandwidths[0] <= m.maxBandwidth;
  }

  lemma SearchKeeps(m: Model, e: Estimate, w: Measured, i: nat)
    requires Loaded(m) && i < CURVES && InRange(m, e) && (w.Finite? ==> w.bandwidth >= 0.0)
    ensures InRange(m, Searched(m, e, w, i))
  {
    hide At;
    assert TopBandwidth(m.maxBandwidths[i], m.curves[i]) && m.maxBandwidths[i] <= m.maxBandwidth;
  }

  // ---------- windows of accesses ----------

  datatype Access = Access(cycle: Word, write: bool)

  // The controller's window size and clock.
  datatype Setting = Setting(window: nat, frequency: real)

  ghost predicate Sensible(s: Setting) {
    s.window > 0 && s.frequency > 0.0
  }

  function Reads(w: seq<Access>): (n: nat)
    ensures n <= |w|
  {
    if w == [] then 0 else Reads(w[..|w| - 1]) + if w[|w| - 1].write then 0 else 1
  }

  // Cycles from the first access to the last, in 64 bits.
  function Span(w: seq<Access>): nat
    requires w != []
  {
    (w[|w| - 1].cycle - w[0].cycle) % TWO_64
  }

  function BandwidthOf(frequency: real, count: nat, cycles: nat): Measured {
    if cycles == 0 then Infinite else Finite(frequency / 2.1 * count as real / cycles as real)
  }

  function ShareOfReads(w: seq<Access>): (r: real)
    requires w != []
    ensures 0.0 <= r <= 1.0
  {
    ShareRange(Reads(w), |w|);
    Reads(w) as real / |w| as real
  }

  lemma ShareRange(n: nat, d: nat)
    requires n <= d && d > 0
    ensures 0.0 <= n as real / d as real <= 1.0
  {
    Share(n as real, d as real);
  }

  lemma BandwidthSign(frequency: real, count: nat, cycles: nat)
    requires frequency > 0.0
    ensures var b := BandwidthOf(frequency, count, cycles); b.Finite? ==> b.bandwidth >= 0.0
  {
    if cycles > 0 {
      Scales(0.0, frequency / 2.1, count as real);
      Share(frequency / 2.1 * count as real, cycles as real);
    }
  }

  // What a full window makes of an estimate.
  function Window(m: Model, s: Setting, e: Estimate, w: seq<Access>): Estimate
    requires Loaded(m) && w != []
  {
    IndexNearest(ShareOfReads(w));
    Searched(m, e, BandwidthOf(s.frequency, |w|, Span(w)), CurveIndex(ShareOfReads(w)))
  }

  // The estimate after a trace, window by window.
  function Folded(m: Model, s: Setting, e: Estimate, trace: seq<Access>): Estimate
    requires Loaded(m) && s.window > 0
    decreases |trace|
  {
    if |trace| < s.window then e else Folded(m, s, Window(m, s, e, trace[..s.window]), trace[s.window..])
  }

  // The accesses of the unfinished window.
  function Open(s: Setting, trace: seq<Access>): (w: seq<Access>)
    requires s.window > 0
    ensures |w| < s.window
    decreases |trace|
  {
    if |trace| < s.window then trace else Open(s, trace[s.window..])
  }

  // One access more: it joins the open window, or closes it.
  lemma {:induction false} OneMore(m: Model, s: Setting, e: Estimate, trace: seq<Access>, a: Access)
    requires Loaded(m) && s.window > 0
    ensures var w := Open(s, trace) + [a];
      if |w| == s.window then
        Open(s, trace + [a]) == [] && Folded(m, s, e, trace + [a]) == Window(m, s, Folded(m, s, e, trace), w)
      else Open(s, trace + [a]) == w && Folded(m, s, e, trace + [a]) == Folded(m, s, e, trace)
    decreases |trace|
  {
    hide Window;
    if |trace| < s.window {
      if |trace| + 1 == s.window {
        assert (trace + [a])[..s.window] == trace + [a] && (trace + [a])[s.window..] == [];
      }
    } else {
      var n := s.window;
      assert (trace + [a])[..n] == trace[..n] && (trace + [a])[n..] == trace[n..] + [a];
      OneMore(m, s, Window(m, s, e, trace[..n]), trace[n..], a);
    }
  }

  // Over every trace the estimate stays in range: the bandwidth between 0 and the
  // curves' largest, the overflow factor not negative, the answer at least the
  // truncated lead-off latency.
  lemma {:induction false} TraceInRange(m: Model, s: Setting, e: Estimate, trace: seq<Access>)
    requires Loaded(m) && Sensible(s) && InRange(m, e)
    ensures InRange(m, Folded(m, s, e, trace))
    decreases |trace|
  {
    hide InRange;
    if |trace| >= s.window {
      var w := trace[..s.window];
      IndexNearest(ShareOfReads(w));
      BandwidthSign(s.frequency, |w|, Span(w));
      SearchKeeps(m, e, BandwidthOf(s.frequency, |w|, Span(w)), CurveIndex(ShareOfReads(w)));
      TraceInRange(m, s, Window(m, s, e, w), trace[s.window..]);
    }
  }

  // ---------- what a full window does ----------

  lemma {:induction false} ReadsAre(w: seq<Access>)
    ensures Reads(w) == |ReadsIn(w)|
  {
    if w != [] {
      var n := |w| - 1;
      ReadsAre(w[..n]);
      assert ReadsIn(w) == ReadsIn(w[..n]) + if w[n].write then {} else {n};
    }
  }

  // The places of the reads.
  function ReadsIn(w: seq<Access>): set<nat> {
    set i: nat | i < |w| && !w[i].write
  }

  // A window of reads alone uses the last curve, one of writes alone the first.
  lemma {:induction false} OneKind(w: seq<Access>)
    requires w != []
    ensures (forall i :: 0 <= i < |w| ==> !w[i].write) ==> CurveIndex(ShareOfReads(w)) == 50
    ensures (forall i :: 0 <= i < |w| ==> w[i].write) ==> CurveIndex(ShareOfReads(w)) == 0
  {
    AllReads(w, |w|);
    Share(|w| as real, |w| as real);
    Share(0.0, |w| as real);
  }

  lemma {:induction false} AllReads(w: seq<Access>, n: nat)
    requires n <= |w|
    ensures (forall i :: 0 <= i < |w| ==> !w[i].write) ==> Reads(w[..n]) == n
    ensures (forall i :: 0 <= i < |w| ==> w[i].write) ==> Reads(w[..n]) == 0
    ensures w[..|w|] == w
  {
    if n > 0 {
      AllReads(w, n - 1);
      assert w[..n][..n - 1] == w[..n - 1];
    }
  }

  // Accesses per cycle: at the curves' own 2.1 GHz, n accesses in n cycles are one.
  lemma {:induction false} BandwidthIs(frequency: real, count: nat, cycles: nat)
    requires cycles > 0
    ensures BandwidthOf(frequency, count, cycles).bandwidth * (cycles as real * 2.1) == frequency * count as real
    ensures BandwidthOf(2.1, cycles, cycles).bandwidth == 1.0
  {
    var x, d := frequency / 2.1 * count as real, cycles as real;
    assert x / d * d == x;
    assert x * 2.1 == frequency * count as real;
    assert BandwidthOf(frequency, count, cycles).bandwidth * (d * 2.1) == x / d * d * 2.1;
    Share(d, d);
  }

  // A twentieth of the way to a goal.
  predicate Nears(l: real, l': real, goal: real) {
    l' - goal == 0.95 * (l - goal)
  }

  lemma SettleNears(l: real, goal: real)
    ensures Nears(l, Settle(goal, l), goal)
  {
  }

  // What becomes of e on curve i when b accesses a cycle were measured.
  ghost predicate MovesOn(m: Model, e: Estimate, e': Estimate, i: nat, endless: bool, b: real)
    requires Loaded(m) && i < CURVES
  {
    if endless || 0.985 * m.maxBandwidths[i] < b then
      && e'.bandwidth == 0.05 * m.maxBandwidths[i] + 0.95 * e.bandwidth
      && e'.overflow == e.overflow + 0.02
      && Nears(e.latency, e'.latency, (1.0 + e'.overflow) * m.maxLatencies[i] as real)
    else
      && e'.bandwidth == 0.05 * b + 0.95 * e.bandwidth
      && e'.overflow == (if e.overflow > 0.01 then e.overflow - 0.01 else e.overflow)
      && Nears(e.latency, e'.latency, (1.0 + e.overflow) * At(m.curves[i], e'.bandwidth))
  }

  lemma {:induction false} SearchMoves(m: Model, e: Estimate, w: Measured, i: nat)
    requires Loaded(m) && i < CURVES
    ensures MovesOn(m, e, Searched(m, e, w, i), i, w.Infinite?, if w.Infinite? then 0.0 else w.bandwidth)
  {
    hide At;
    hide Falling;
    hide Least;
    hide TopBandwidth;
    hide TopLatency;
    hide Penalty;
    hide Charged;
    var e' := Searched(m, e, w, i);
    if Overloaded(m, i, w) {
      var y := m.maxLatencies[i] as real;
      Spread(y, e'.overflow);
      SettleNears(e.latency, Penalty(y, e'.overflow));
    } else {
      var y := At(m.curves[i], e'.bandwidth);
      Spread(y, e.overflow);
      SettleNears(e.latency, Charged(y, e.overflow));
    }
  }

  // Full window w moves e to e' on curve i: that of its share of reads, with the
  // bandwidth of its accesses over its cycles.
  ghost predicate MovesBy(m: Model, s: Setting, e: Estimate, w: seq<Access>, e': Estimate, i: nat)
    requires Loaded(m) && w != [] && i < CURVES
  {
    var share := Reads(w) as real / |w| as real;
    var cycles := (w[|w| - 1].cycle - w[0].cycle) % TWO_64;
    && i as real <= 50.0 * share + 0.5 < i as real + 1.0
    && if cycles == 0 then MovesOn(m, e, e', i, true, 0.0)
       else MovesOn(m, e, e', i, false, BandwidthOf(s.frequency, |w|, cycles).bandwidth)
  }

  ghost predicate Moves(m: Model, s: Setting, e: Estimate, w: seq<Access>, e': Estimate)
    requires Loaded(m) && w != []
  {
    exists i :: 0 <= i < CURVES && MovesBy(m, s, e, w, e', i)
  }

  lemma {:induction false} WindowMoves(m: Model, s: Setting, e: Estimate, w: seq<Access>)
    requires Loaded(m) && w != []
    ensures Moves(m, s, e, w, Window(m, s, e, w))
  {
    hide Searched;
    hide MovesOn;
    hide Loaded;
    hide Reads;
    var r := ShareOfReads(w);
    IndexNearest(r);
    var i: nat, b := CurveIndex(r), BandwidthOf(s.frequency, |w|, Span(w));
    SearchMoves(m, e, b, i);
    assert Window(m, s, e, w) == Searched(m, e, b, i);
    assert i as real <= 50.0 * r + 0.5 < i as real + 1.0;
    assert MovesBy(m, s, e, w, Window(m, s, e, w), i);
  }

  lemma Spread(y: real, f: real)
    ensures Charged(y, f) == Penalty(y, f) == (1.0 + f) * y
  {
  }

  // The estimate after a trace moves only where an access fills a window, and then as
  // that window says; and what is answered is the estimate without its fraction, or the
  // lead-off latency where that is more.
  lemma {:induction false} TraceMoves(m: Model, s: Setting, trace: seq<Access>, a: Access)
    requires Loaded(m) && s.window > 0
    ensures var e, e', w := Folded(m, s, Fresh(m), trace), Folded(m, s, Fresh(m), trace + [a]), Open(s, trace) + [a];
      && (if |w| == s.window then Moves(m, s, e, w, e') else e' == e)
      && e'.answer == if e'.latency < m.leadOff.Floor as real then m.leadOff.Floor else e'.latency.Floor
  {
    hide Moves;
    hide Window;
    OneMore(m, s, Fresh(m), trace, a);
    var e, w := Folded(m, s, Fresh(m), trace), Open(s, trace) + [a];
    if |w| == s.window {
      WindowMoves(m, s, e, w);
    }
    AnswerIs(m, s, Fresh(m), trace + [a]);
  }

  ghost predicate Answers(m: Model, e: Estimate)
    requires Loaded(m)
  {
    e.answer == if e.latency < m.leadOff.Floor as real then m.leadOff.Floor else e.latency.Floor
  }

  lemma {:induction false} AnswerIs(m: Model, s: Setting, e: Estimate, trace: seq<Access>)
    requires Loaded(m) && s.window > 0 && Answers(m, e)
    ensures Answers(m, Folded(m, s, e, trace))
    decreases |trace|
  {
    hide At;
    hide Falling;
    hide Least;
    hide TopBandwidth;
    hide TopLatency;
    if |trace| >= s.window {
      AnswerIs(m, s, Window(m, s, e, trace[..s.window]), trace[s.window..]);
    }
  }

  // ---------- the overflow factor ----------

  // How many of a trace's windows were overloaded.
  function Overloads(m: Model, s: Setting, trace: seq<Access>): nat
    requires Loaded(m) && s.window > 0
    decreases |trace|
  {
    if |trace| < s.window then 0
    else
      var w := trace[..s.window];
      IndexNearest(ShareOfReads(w));
      var more := Overloaded(m, CurveIndex(ShareOfReads(w)), BandwidthOf(s.frequency, |w|, Span(w)));
      (if more then 1 else 0) + Overloads(m, s, trace[s.window..])
  }

  // The factor is never more than two hundredths an overloaded window, and once a
  // window was overloaded it never is 0 again, however long the load stays low.
  lemma {:induction false} FactorRange(m: Model, s: Setting, e: Estimate, trace: seq<Access>)
    requires Loaded(m) && s.window > 0 && e.overflow >= 0.0
    ensures var f := Folded(m, s, e, trace).overflow;
      && 0.0 <= f <= e.overflow + 0.02 * Overloads(m, s, trace) as real
      && (e.overflow > 0.0 || Overloads(m, s, trace) > 0 ==> f > 0.0)
      && (e.overflow == 0.0 && Overloads(m, s, trace) == 0 ==> f == 0.0)
    decreases |trace|
  {
    hide At;
    hide Loaded;
    if |trace| >= s.window {
      FactorRange(m, s, Window(m, s, e, trace[..s.window]), trace[s.window..]);
    }
  }

  // ---------- how high latencies go ----------

  lemma Settled(target: real, last: real, top: real)
    requires target <= top && last <= top
    ensures Settle(target, last) <= top
  {
  }

  lemma ChargedBounded(y: real, f: real, g: real, top: real)
    requires y <= top && top >= 0.0 && 0.0 <= f <= g
    ensures Penalty(y, f) == Charged(y, f) <= Penalty(top, g)
  {
    assert y + f * y == (1.0 + f) * y;
    Scales(y, top, 1.0 + f);
    assert (1.0 + f) * y == y * (1.0 + f) && (1.0 + f) * top == top * (1.0 + f);
    Scales(1.0 + f, 1.0 + g, top);
  }

  lemma TopSign(m: Model, i: nat)
    requires Loaded(m) && i < CURVES
    ensures 0.0 <= m.maxLatencies[i] as real <= m.maxLatency
    ensures forall j :: 0 <= j < |m.curves[i]| ==> m.curves[i][j].latency <= m.maxLatency
  {
    var x :| TopLatency(x, m.curves[i]) && x <= m.maxLatency && m.maxLatencies[i] == x.Floor;
  }

  lemma SearchBounded(m: Model, e: Estimate, w: Measured, i: nat, g: real)
    requires Loaded(m) && i < CURVES && LowEndRises(m.curves[i]) && 0.0 <= e.overflow
    requires Searched(m, e, w, i).overflow <= g && e.overflow <= g && e.latency <= Penalty(m.maxLatency, g)
    requires m.leadOff <= Penalty(m.maxLatency, g)
    ensures Searched(m, e, w, i).latency <= Penalty(m.maxLatency, g)
    ensures Searched(m, e, w, i).answer as real <= Penalty(m.maxLatency, g)
  {
    hide At;
    hide Settle;
    hide Penalty;
    hide Charged;
    hide Least;
    hide TopBandwidth;
    hide TopLatency;
    var top := Penalty(m.maxLatency, g);
    TopSign(m, i);
    if Overloaded(m, i, w) {
      var f, l := e.overflow + 0.02, m.maxLatencies[i] as real;
      ChargedBounded(l, f, g, m.maxLatency);
      Settled(Penalty(l, f), e.latency, top);
    } else {
      var y := At(m.curves[i], Settle(w.bandwidth, e.bandwidth));
      AtBounded(m.curves[i], Settle(w.bandwidth, e.bandwidth), m.maxLatency);
      ChargedBounded(y, e.overflow, g, m.maxLatency);
      Settled(Charged(y, e.overflow), e.latency, top);
    }
  }

  lemma PenaltyUp(y: real, g: real)
    requires y >= 0.0 && g >= 0.0
    ensures y <= Penalty(y, g)
  {
    Scales(1.0, 1.0 + g, y);
  }

  lemma {:induction false} TraceBounded(m: Model, s: Setting, e: Estimate, trace: seq<Access>, g: real)
    requires Loaded(m) && s.window > 0 && e.overflow >= 0.0 && forall i :: 0 <= i < CURVES ==> LowEndRises(m.curves[i])
    requires e.overflow + 0.02 * Overloads(m, s, trace) as real <= g && e.latency <= Penalty(m.maxLatency, g)
    requires m.leadOff <= Penalty(m.maxLatency, g) && e.answer as real <= Penalty(m.maxLatency, g)
    ensures Folded(m, s, e, trace).latency <= Penalty(m.maxLatency, g)
    ensures Folded(m, s, e, trace).answer as real <= Penalty(m.maxLatency, g)
    decreases |trace|
  {
    hide At;
    hide Falling;
    hide Least;
    hide TopBandwidth;
    hide TopLatency;
    hide LowEndRises;
    if |trace| >= s.window {
      var w := trace[..s.window];
      IndexNearest(ShareOfReads(w));
      var b, i: nat := BandwidthOf(s.frequency, |w|, Span(w)), CurveIndex(ShareOfReads(w));
      assert Searched(m, e, b, i).overflow <= e.overflow + if Overloaded(m, i, b) then 0.02 else 0.0;
      SearchBounded(m, e, b, i, g);
      TraceBounded(m, s, Window(m, s, e, w), trace[s.window..], g);
    }
  }

  // From the start, latencies exceed the curves' largest by two hundredths for each
  // overloaded window at most, and not at all without one.
  lemma {:induction false} LatencyBounded(m: Model, s: Setting, trace: seq<Access>)
    requires Loaded(m) && s.window > 0 && forall i :: 0 <= i < CURVES ==> LowEndRises(m.curves[i])
    ensures var top, e := Penalty(m.maxLatency, 0.02 * Overloads(m, s, trace) as real), Folded(m, s, Fresh(m), trace);
      e.latency <= top && e.answer as real <= top
  {
    hide Penalty;
    var g := 0.02 * Overloads(m, s, trace) as real;
    TopSign(m, 0);
    assert m.leadOff <= m.curves[0][0].latency;
    PenaltyUp(m.maxLatency, g);
    TraceBounded(m, s, Fresh(m), trace, g);
  }

  // ---------- steady loads ----------

  function Pow(b: real, n: nat): real {
    if n == 0 then 1.0 else b * Pow(b, n - 1)
  }

  // n windows of one bandwidth on one curve.
  function Steady(m: Model, e: Estimate, w: Measured, i: nat, n: nat): Estimate
    requires Loaded(m) && i < CURVES
  {
    if n == 0 then e else Searched(m, Steady(m, e, w, i, n - 1), w, i)
  }

  lemma Closes(before: real, goal: real, p: real, d: real)
    requires before - goal == p * d
    ensures Settle(goal, before) - goal == (1.0 - CONVERGE_SPEED) * p * d
  {
    assert Settle(goal, before) - goal == (1.0 - CONVERGE_SPEED) * (before - goal);
  }

  // The estimated bandwidth closes in on what is measured, or on the curve's largest
  // under overload, by a twentieth of the difference each window.
  lemma {:induction false} SteadyCloses(m: Model, e: Estimate, w: Measured, i: nat, n: nat)
    requires Loaded(m) && i < CURVES
    ensures var goal := if Overloaded(m, i, w) then m.maxBandwidths[i] else w.bandwidth;
      Steady(m, e, w, i, n).bandwidth - goal == Pow(1.0 - CONVERGE_SPEED, n) * (e.bandwidth - goal)
  {
    hide Falling;
    hide Least;
    hide TopBandwidth;
    hide TopLatency;
    hide At;
    hide Settle;
    hide Penalty;
    hide Charged;
    if n > 0 {
      SteadyCloses(m, e, w, i, n - 1);
      var goal := if Overloaded(m, i, w) then m.maxBandwidths[i] else w.bandwidth;
      var before, p, d := Steady(m, e, w, i, n - 1).bandwidth, Pow(1.0 - CONVERGE_SPEED, n - 1), e.bandwidth - goal;
      Closes(before, goal, p, d);
    }
  }

  // The latency does the same, once the bandwidth has settled at what is measured and
  // no overload is left over: it closes in on the curve's latency there.
  lemma {:induction false} SteadyLatency(m: Model, e: Estimate, w: Measured, i: nat, n: nat)
    requires Loaded(m) && i < CURVES && w.Finite? && !Overloaded(m, i, w)
    requires e.overflow == 0.0 && e.bandwidth == w.bandwidth
    ensures var goal := At(m.curves[i], w.bandwidth);
      Steady(m, e, w, i, n).latency - goal == Pow(0.95, n) * (e.latency - goal)
    ensures Steady(m, e, w, i, n).bandwidth == w.bandwidth && Steady(m, e, w, i, n).overflow == 0.0
  {
    hide Falling;
    hide Least;
    hide TopBandwidth;
    hide TopLatency;
    hide Searched;
    hide At;
    if n > 0 {
      SteadyLatency(m, e, w, i, n - 1);
      var goal, before := At(m.curves[i], w.bandwidth), Steady(m, e, w, i, n - 1);
      SettledStep(m, before, w, i);
      Closes(before.latency, goal, Pow(0.95, n - 1), e.latency - goal);
    }
  }

  lemma SettledStep(m: Model, e: Estimate, w: Measured, i: nat)
    requires Loaded(m) && i < CURVES && w.Finite? && !Overloaded(m, i, w)
    requires e.overflow == 0.0 && e.bandwidth == w.bandwidth
    ensures var e' := Searched(m, e, w, i);
      e'.bandwidth == w.bandwidth && e'.overflow == 0.0 && e'.latency == Settle(At(m.curves[i], w.bandwidth), e.latency)
  {
    hide At;
    hide Falling;
    hide Charged;
    assert Settle(w.bandwidth, w.bandwidth) == w.bandwidth;
    Spread(At(m.curves[i], w.bandwidth), 0.0);
  }

  // On its way up it rises and never passes the curve.
  lemma {:induction false} SteadyRises(m: Model, e: Estimate, w: Measured, i: nat, n: nat)
    requires Loaded(m) && i < CURVES && w.Finite? && !Overloaded(m, i, w) && Rising(m.curves[i])
    requires e.overflow == 0.0 && e.bandwidth <= w.bandwidth && e.latency <= At(m.curves[i], e.bandwidth)
    ensures var now, next, c := Steady(m, e, w, i, n), Steady(m, e, w, i, n + 1), m.curves[i];
      && now.overflow == 0.0 && now.bandwidth <= next.bandwidth <= w.bandwidth
      && now.latency <= next.latency <= At(c, w.bandwidth) && now.latency <= At(c, now.bandwidth)
  {
    hide Least;
    hide TopBandwidth;
    hide TopLatency;
    hide At;
    hide Rising;
    if n > 0 {
      SteadyRises(m, e, w, i, n - 1);
    }
    var now, c := Steady(m, e, w, i, n), m.curves[i];
    if n > 0 {
      RiseStep(m, Steady(m, e, w, i, n - 1), w, i);
    }
    RiseStep(m, now, w, i);
  }

  lemma RiseStep(m: Model, e: Estimate, w: Measured, i: nat)
    requires Loaded(m) && i < CURVES && w.Finite? && !Overloaded(m, i, w) && Rising(m.curves[i])
    requires e.overflow == 0.0 && e.bandwidth <= w.bandwidth && e.latency <= At(m.curves[i], e.bandwidth)
    ensures var e', c := Searched(m, e, w, i), m.curves[i];
      && e'.overflow == 0.0 && e.bandwidth <= e'.bandwidth <= w.bandwidth
      && e.latency <= e'.latency <= At(c, e'.bandwidth) <= At(c, w.bandwidth)
  {
    hide Least;
    hide TopBandwidth;
    hide TopLatency;
    hide At;
    hide Rising;
    var c, x := m.curves[i], Settle(w.bandwidth, e.bandwidth);
    AtRises(c, e.bandwidth, x);
    AtRises(c, x, w.bandwidth);
    Spread(At(c, x), 0.0);
  }

  // n windows alike, as a trace.
  function Repeated(w: seq<Access>, n: nat): (t: seq<Access>)
    ensures |t| == n * |w|
  {
    if n == 0 then [] else w + Repeated(w, n - 1)
  }

  // Such a trace is a steady load.
  lemma {:induction false} SteadyTrace(m: Model, s: Setting, e: Estimate, w: seq<Access>, n: nat)
    requires Loaded(m) && s.window == |w| > 0
    ensures 0 <= CurveIndex(ShareOfReads(w)) < CURVES
    ensures Folded(m, s, e, Repeated(w, n)) ==
      Steady(m, e, BandwidthOf(s.frequency, |w|, Span(w)), CurveIndex(ShareOfReads(w)), n)
    decreases n
  {
    hide Searched;
    hide Loaded;
    IndexNearest(ShareOfReads(w));
    if n > 0 {
      var t := Repeated(w, n);
      assert t[..|w|] == w && t[|w|..] == Repeated(w, n - 1);
      SteadyTrace(m, s, Window(m, s, e, w), w, n - 1);
      SteadyShift(m, e, BandwidthOf(s.frequency, |w|, Span(w)), CurveIndex(ShareOfReads(w)), n - 1);
    }
  }

  lemma {:induction false} SteadyShift(m: Model, e: Estimate, w: Measured, i: nat, n: nat)
    requires Loaded(m) && i < CURVES
    ensures Steady(m, Searched(m, e, w, i), w, i, n) == Steady(m, e, w, i, n + 1)
  {
    hide Searched;
    hide Loaded;
    if n > 0 {
      SteadyShift(m, e, w, i, n - 1);
    }
  }
}
