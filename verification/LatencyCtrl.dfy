// The bandwidth and latency controller as the object bw_lat_mem_ctrl.cc updates on every
// access.
module LatencyCtrl {
  import opened Common
  import opened LatencySpec

  // Accesses per cycle of a point given in MB/s.
  function Scaled(p: Point): Point {
    p.(bandwidth := p.bandwidth / 64.0 / (2.1 * 1000.0))
  }

  lemma ScaledFalls(raw: Curve, c: Curve)
    requires Falling(raw) && |c| == |raw| && forall i :: 0 <= i < |raw| ==> c[i] == Scaled(raw[i])
    ensures Falling(c)
  {
    forall i, j | 0 <= i < j < |c|
      ensures c[j].bandwidth < c[i].bandwidth
    {
      assert raw[j].bandwidth < raw[i].bandwidth;
    }
  }

  // One curve file: its points, its largest bandwidth and latency, and the least latency
  // of all files so far.
  method LoadCurve(raw: Curve, leadOff: real, ghost before: seq<Curve>)
    returns (c: Curve, maxBandwidth: real, maxLatency: real, leadOff': real)
    requires Falling(raw) && Least(leadOff, before) && leadOff >= 0.0
    ensures Falling(c) && |c| == |raw| && forall i :: 0 <= i < |raw| ==> c[i] == Scaled(raw[i])
    ensures TopBandwidth(maxBandwidth, c) && TopLatency(maxLatency, c)
    ensures Least(leadOff', before + [c]) && leadOff' >= 0.0
  {
    c, maxBandwidth, maxLatency, leadOff' := [], 0.0, 0.0, leadOff;
    LeastStill(leadOff, before);
    for k := 0 to |raw|
      invariant |c| == k && forall i :: 0 <= i < k ==> c[i] == Scaled(raw[i])
      invariant TopBandwidth(maxBandwidth, c) && TopLatency(maxLatency, c)
      invariant Least(leadOff', before + [c]) && leadOff' >= 0.0
    {
      var p := Scaled(raw[k]);
      LeastMore(leadOff', before, c, p);
      TopMore(maxBandwidth, maxLatency, c, p);
      if leadOff' > p.latency {
        leadOff' := p.latency;
      }
      if maxLatency < p.latency {
        maxLatency := p.latency;
      }
      if maxBandwidth < p.bandwidth {
        maxBandwidth := p.bandwidth;
      }
      c := c + [p];
    }
    ScaledFalls(raw, c);
  }

  lemma LeastStill(x: real, before: seq<Curve>)
    requires Least(x, before)
    ensures Least(x, before + [[]])
  {
    var cs: seq<Curve> := before + [[]];
    if x != NO_LATENCY {
      var i, j :| 0 <= i < |before| && 0 <= j < |before[i]| && before[i][j].latency == x;
      assert cs[i][j].latency == x;
    }
  }

  lemma LeastMore(x: real, before: seq<Curve>, c: Curve, p: Point)
    requires Least(x, before + [c])
    ensures Least(if x > p.latency then p.latency else x, before + [c + [p]])
  {
    var cs: seq<Curve>, cs': seq<Curve> := before + [c], before + [c + [p]];
    var y := if x > p.latency then p.latency else x;
    forall i, j | 0 <= i < |cs'| && 0 <= j < |cs'[i]|
      ensures y <= cs'[i][j].latency
    {
      if i < |before| || j < |c| {
        assert cs'[i][j] == cs[i][j];
      }
    }
    if x > p.latency {
      assert cs'[|before|][|c|].latency == y;
    } else if x != NO_LATENCY {
      var i, j :| 0 <= i < |cs| && 0 <= j < |cs[i]| && cs[i][j].latency == x;
      assert cs'[i][j].latency == x;
    }
  }

  lemma TopMore(b: real, l: real, c: Curve, p: Point)
    requires TopBandwidth(b, c) && TopLatency(l, c)
    ensures TopBandwidth(if b < p.bandwidth then p.bandwidth else b, c + [p])
    ensures TopLatency(if l < p.latency then p.latency else l, c + [p])
  {
    var c' := c + [p];
    assert c'[|c|] == p;
    if b != 0.0 {
      var i :| 0 <= i < |c| && c[i].bandwidth == b;
      assert c'[i].bandwidth == b;
    }
    if l != 0.0 {
      var i :| 0 <= i < |c| && c[i].latency == l;
      assert c'[i].latency == l;
    }
  }

  // The loop of the constructor over the curve files.
  method LoadCurves(files: seq<Curve>) returns (m: Model)
    requires |files| == CURVES && forall i :: 0 <= i < |files| ==> Falling(files[i])
    ensures Loaded(m)
    ensures forall i :: 0 <= i < CURVES ==>
      |m.curves[i]| == |files[i]| && forall j :: 0 <= j < |files[i]| ==> m.curves[i][j] == Scaled(files[i][j])
  {
    hide Falling;
    hide Least;
    hide TopBandwidth;
    hide TopLatency;
    var curves, bandwidths, latencies := [], [], [];
    var leadOff, maxBandwidth, maxLatency := NO_LATENCY, 0.0, 0.0;
    assert Least(leadOff, []) by {
      NothingLeast();
    }
    ghost var tops: seq<real> := [];
    for i := 0 to CURVES
      invariant |curves| == |bandwidths| == |latencies| == |tops| == i && Least(leadOff, curves) && leadOff >= 0.0
      invariant forall k :: 0 <= k < i ==> Falling(curves[k]) && |curves[k]| == |files[k]|
      invariant forall k :: 0 <= k < i ==> forall j :: 0 <= j < |files[k]| ==> curves[k][j] == Scaled(files[k][j])
      invariant forall k :: 0 <= k < i ==> TopBandwidth(bandwidths[k], curves[k]) && bandwidths[k] <= maxBandwidth
      invariant forall k :: 0 <= k < i ==>
        && TopLatency(tops[k], curves[k]) && 0.0 <= tops[k] <= maxLatency
        && latencies[k] == tops[k].Floor
    {
      var c, b, l;
      c, b, l, leadOff := LoadCurve(files[i], leadOff, curves);
      TopsPositive(b, l, c);
      maxBandwidth := if maxBandwidth < b then b else maxBandwidth;
      maxLatency := if maxLatency < l then l else maxLatency;
      curves, bandwidths, latencies, tops := curves + [c], bandwidths + [b], latencies + [l.Floor], tops + [l];
    }
    m := Model(curves, leadOff, maxBandwidth, maxLatency, bandwidths, latencies);
    forall i | 0 <= i < CURVES
      ensures exists x :: TopLatency(x, m.curves[i]) && x <= m.maxLatency && m.maxLatencies[i] == x.Floor
    {
      assert TopLatency(tops[i], curves[i]);
    }
  }

  lemma NothingLeast()
    ensures Least(NO_LATENCY, [])
  {
  }

  lemma TopsPositive(b: real, l: real, c: Curve)
    requires TopBandwidth(b, c) && TopLatency(l, c)
    ensures b >= 0.0 && l >= 0.0
  {
  }

  // A latency in cycles of the simulated clock.
  function Delay(frequency: real, latency: nat): int {
    (frequency * latency as real / 2.1).Floor
  }

  // At the curves' own 2.1 GHz it is the latency itself.
  lemma DelayIs(frequency: real, latency: nat)
    requires frequency > 0.0
    ensures Delay(2.1, latency) == latency
    ensures var d := Delay(frequency, latency) as real; d * 2.1 <= frequency * latency as real < (d + 1.0) * 2.1
  {
  }

  class BwLatMemCtrl {
    const model: Model
    const curveWindowSize: nat
    const frequencyCPU: real
    var latency: nat
    var outputBW: real
    var lastEstimatedBandwidth: real
    var lastEstimatedLatency: real
    var overflowFactor: real
    var currentWindowAccessCount: nat
    var currentWindowAccessCountWr: nat
    var currentWindowAccessCountRd: nat
    var currentWindowStartCycle: Word
    var lastIntReadPercentage: nat
    ghost var trace: seq<LatencySpec.Access>

    ghost function Settings(): Setting {
      Setting(curveWindowSize, frequencyCPU)
    }

    // What the fields say the estimate is.
    ghost function Now(): Estimate
      reads this
    {
      Estimate(lastEstimatedBandwidth, lastEstimatedLatency, overflowFactor, latency)
    }

    // The object has seen its trace: the estimate is that of the full windows, and the
    // counters are those of the open one.
    ghost predicate Valid()
      reads this
    {
      && Loaded(model) && Sensible(Settings())
      && Now() == Folded(model, Settings(), Fresh(model), trace)
      && Counts(Open(Settings(), trace))
      && (|trace| >= curveWindowSize ==> outputBW == lastEstimatedBandwidth * 64.0 * 2.1)
    }

    ghost predicate Counts(w: seq<LatencySpec.Access>)
      reads this
    {
      && currentWindowAccessCount == |w| && currentWindowAccessCountRd == Reads(w)
        && currentWindowAccessCountWr == |w| - Reads(w)
      && (w != [] ==> currentWindowStartCycle == w[0].cycle)
    }

    constructor (files: seq<Curve>, window: nat, frequencyRate: real)
      requires |files| == CURVES && (forall i :: 0 <= i < |files| ==> Falling(files[i])) && window > 0
        && frequencyRate > 0.0
      ensures Valid() && trace == [] && curveWindowSize == window && frequencyCPU == frequencyRate
    {
      var m := LoadCurves(files);
      model, curveWindowSize, frequencyCPU := m, window, frequencyRate;
      currentWindowAccessCount, currentWindowAccessCountWr, currentWindowAccessCountRd := 0, 0, 0;
      currentWindowStartCycle, lastIntReadPercentage, outputBW := 0, 0, 0.0;
      lastEstimatedBandwidth, lastEstimatedLatency, overflowFactor := 0.0, m.leadOff, 0.0;
      latency := m.leadOff.Floor;
      trace := [];
    }

    // The loop of searchForLatencyOnCurve and the line it finds.
    method LatencyOn(c: Curve, bandwidth: real) returns (finalLatency: real)
      requires Falling(c)
      ensures finalLatency == At(c, bandwidth)
    {
      finalLatency := model.leadOff;
      var finalBW := 0.0;
      var j := 0;
      while j < |c|
        invariant 0 <= j <= |c| && forall k :: 0 <= k < j ==> c[k].bandwidth >= bandwidth
        invariant j == 0 ==> finalBW == 0.0
        invariant j > 0 ==> finalLatency == c[j - 1].latency
      {
        if finalBW == 0.0 {
          finalBW := c[j].bandwidth;
          finalLatency := c[j].latency;
        }
        if c[j].bandwidth >= bandwidth {
          finalBW := c[j].bandwidth;
          finalLatency := c[j].latency;
        } else {
          break;
        }
        j := j + 1;
      }
      if j == |c| {
        j := j - 1;
      }
      AtIs(c, bandwidth, j);
      if j != 0 {
        var x1, y1, x2, y2 := c[j].bandwidth, c[j].latency, c[j - 1].bandwidth, c[j - 1].latency;
        finalLatency := y1 + (bandwidth - x1) / (x2 - x1) * (y2 - y1);
      }
    }

    // searchForLatencyOnCurve
    method SearchForLatencyOnCurve(measuredBandwidth: Measured, readPercentage: real) returns (r: nat)
      requires Loaded(model) && 0.0 <= readPercentage <= 1.0 && overflowFactor >= 0.0
      modifies this`outputBW, this`lastEstimatedBandwidth, this`lastEstimatedLatency, this`overflowFactor,
        this`lastIntReadPercentage
      ensures 0 <= CurveIndex(readPercentage) < CURVES && lastIntReadPercentage == 2 * CurveIndex(readPercentage)
      ensures Estimate(lastEstimatedBandwidth, lastEstimatedLatency, overflowFactor, r) ==
        Searched(model, old(Now()), measuredBandwidth, CurveIndex(readPercentage))
      ensures outputBW == lastEstimatedBandwidth * 64.0 * 2.1
    {
      hide At;
      hide Least;
      hide TopBandwidth;
      hide TopLatency;
      hide Penalty;
      hide Charged;
      hide Settle;
      hide Falling;
      IndexNearest(readPercentage);
      var intReadPercentage := (100.0 * readPercentage * 0.5 + 0.5).Floor * 2;
      lastIntReadPercentage := intReadPercentage;
      assert 0 <= intReadPercentage <= 100 && intReadPercentage % 2 == 0;
      var curveDataIndex: nat := intReadPercentage / 2;
      assert curveDataIndex == CurveIndex(readPercentage);
      var leadOff: nat := model.leadOff.Floor;
      var finalLatency;
      if measuredBandwidth.Infinite? || model.maxBandwidths[curveDataIndex] * 0.985 < measuredBandwidth.bandwidth {
        var finalBW := Settle(model.maxBandwidths[curveDataIndex], lastEstimatedBandwidth);
        overflowFactor := overflowFactor + 0.02;
        finalLatency := Penalty(model.maxLatencies[curveDataIndex] as real, overflowFactor);
        finalLatency := Settle(finalLatency, lastEstimatedLatency);
        lastEstimatedBandwidth, lastEstimatedLatency := finalBW, finalLatency;
        outputBW := finalBW * 64.0 * 2.1;
        if finalLatency < leadOff as real {
          finalLatency := leadOff as real;
        }
      } else {
        var bandwidth := Settle(measuredBandwidth.bandwidth, lastEstimatedBandwidth);
        finalLatency := LatencyOn(model.curves[curveDataIndex], bandwidth);
        finalLatency := Charged(finalLatency, overflowFactor);
        finalLatency := Settle(finalLatency, lastEstimatedLatency);
        if overflowFactor > 0.01 {
          overflowFactor := overflowFactor - 0.01;
        }
        lastEstimatedBandwidth, lastEstimatedLatency := bandwidth, finalLatency;
        outputBW := bandwidth * 64.0 * 2.1;
        if finalLatency <= leadOff as real {
          finalLatency := leadOff as real;
        }
      }
      assert finalLatency >= leadOff as real;
      r := finalLatency.Floor;
    }

    // updateLatency
    method UpdateLatency(currentWindowEndCycle: Word, ghost w: seq<LatencySpec.Access>)
      requires Loaded(model) && overflowFactor >= 0.0 && w != [] && Counts(w)
        && w[|w| - 1].cycle == currentWindowEndCycle
      modifies this`outputBW, this`lastEstimatedBandwidth, this`lastEstimatedLatency, this`overflowFactor,
        this`lastIntReadPercentage,
        this`latency
      ensures Now() == Window(model, Settings(), old(Now()), w)
      ensures outputBW == lastEstimatedBandwidth * 64.0 * 2.1
    {
      hide Searched;
      hide Loaded;
      hide CurveIndex;
      var cycles := (currentWindowEndCycle - currentWindowStartCycle) % TWO_64;
      var bandwidth := BandwidthOf(frequencyCPU, currentWindowAccessCount, cycles);
      ShareRange(currentWindowAccessCountRd, currentWindowAccessCountRd + currentWindowAccessCountWr);
      var all := currentWindowAccessCountRd + currentWindowAccessCountWr;
      var readPercentage := currentWindowAccessCountRd as real / all as real;
      assert readPercentage == ShareOfReads(w);
      latency := SearchForLatencyOnCurve(bandwidth, readPercentage);
    }

    // access
    method Access(accessCycle: Word, isWrite: bool) returns (r: int)
      requires Valid()
      modifies this
      ensures Valid() && trace == old(trace) + [LatencySpec.Access(accessCycle, isWrite)]
      ensures currentWindowAccessCount == currentWindowAccessCountRd + currentWindowAccessCountWr < curveWindowSize
      ensures r == Delay(frequencyCPU, Folded(model, Settings(), Fresh(model), trace).answer)
      ensures r >= Delay(frequencyCPU, LeadOff(model))
    {
      hide Window;
      hide Loaded;
      hide Folded;
      hide Reads;
      hide Delay;
      ghost var a, w := LatencySpec.Access(accessCycle, isWrite), Open(Settings(), trace);
      OneMore(model, Settings(), Fresh(model), trace, a);
      StaysInRange(trace);
      if currentWindowAccessCount == 0 {
        currentWindowStartCycle := accessCycle;
      }
      currentWindowAccessCount := currentWindowAccessCount + 1;
      if isWrite {
        currentWindowAccessCountWr := currentWindowAccessCountWr + 1;
      } else {
        currentWindowAccessCountRd := currentWindowAccessCountRd + 1;
      }
      ReadsMore(w, a);
      assert Counts(w + [a]);
      if currentWindowAccessCount == curveWindowSize {
        UpdateLatency(accessCycle, w + [a]);
        currentWindowAccessCount, currentWindowAccessCountWr, currentWindowAccessCountRd := 0, 0, 0;
        ReadsNone();
      } else {
        FirstWindow(trace);
      }
      trace := trace + [a];
      StaysInRange(trace);
      r := Delay(frequencyCPU, latency);
      Dearer(frequencyCPU, LeadOff(model), latency);
    }

    lemma {:induction false} StaysInRange(t: seq<LatencySpec.Access>)
      requires Loaded(model) && Sensible(Settings())
      ensures InRange(model, Folded(model, Settings(), Fresh(model), t))
    {
      FreshInRange(model);
      TraceInRange(model, Settings(), Fresh(model), t);
    }

    // Before its first window is full, a trace is the open window.
    lemma {:induction false} FirstWindow(t: seq<LatencySpec.Access>)
      requires curveWindowSize > 0
      ensures |t| < curveWindowSize ==> Open(Settings(), t) == t
    {
    }

    // getBandwidth, once a window was full.
    method GetBandwidth() returns (b: real)
      requires Valid() && |trace| >= curveWindowSize
      ensures b == Folded(model, Settings(), Fresh(model), trace).bandwidth * 64.0 * 2.1
      ensures 0.0 <= b <= model.maxBandwidth * 64.0 * 2.1
    {
      StaysInRange(trace);
      b := outputBW;
    }
  }

  lemma {:induction false} ReadsMore(w: seq<LatencySpec.Access>, a: LatencySpec.Access)
    ensures Reads(w + [a]) == Reads(w) + if a.write then 0 else 1
  {
    assert (w + [a])[..|w|] == w;
  }

  lemma ReadsNone()
    ensures Reads([]) == 0
  {
  }

  lemma Dearer(frequency: real, a: nat, b: nat)
    requires frequency > 0.0 && a <= b
    ensures Delay(frequency, a) <= Delay(frequency, b)
  {
    Scales(a as real, b as real, frequency);
    assert a as real * frequency == frequency * a as real && b as real * frequency == frequency * b as real;
  }
}
