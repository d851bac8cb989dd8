/** Filling the density column over the gap grid: the two edge bins are replaced by
    window means, the density is interpolated linearly in the centre diameter from
    edge to edge, and the edge bins get their own values back. */
module GapInterpolation {
  import opened SizeBins
  import opened Tables

  /** The number of neighbouring labels averaged on each side of an edge bin. */
  const EdgeAverageWindow: nat := 3

  function Clamp(lo: int, x: int, hi: int): int
    requires lo <= hi
  {
    if x < lo then lo else if x > hi then hi else x
  }

  /** The densities of the label slice `loc[from : to]`: both bounds included, and
      clipped to the labels that exist. */
  function WindowDensities(rows: seq<Bin>, from: int, to: int): (r: seq<Measure>)
    ensures var lo, hi := Clamp(0, from, |rows|), Clamp(0, to + 1, |rows|);
      && |r| == (if lo < hi then hi - lo else 0)
      && forall k :: 0 <= k < |r| ==> r[k] == rows[lo + k].dndlogd
  {
    var lo, hi := Clamp(0, from, |rows|), Clamp(0, to + 1, |rows|);
    if lo < hi then Densities(rows[lo..hi]) else []
  }

  /** The number of values present in a column. */
  function KnownCount(ys: seq<Measure>): (c: nat)
    ensures c <= |ys|
    ensures c == 0 <==> forall k :: 0 <= k < |ys| ==> ys[k].Missing?
  {
    if ys == [] then 0
    else
      assert forall k :: 1 <= k < |ys| ==> ys[k] == ys[1..][k - 1];
      (if ys[0].Known? then 1 else 0) + KnownCount(ys[1..])
  }

  /** The sum of the values present in a column. */
  function KnownSum(ys: seq<Measure>): real {
    if ys == [] then 0.0
    else (if ys[0].Known? then ys[0].v else 0.0) + KnownSum(ys[1..])
  }

  /** `Series.mean()`: the mean of the values present, NaN when none is. */
  function MeanOfKnown(ys: seq<Measure>): (r: Measure)
    ensures r.Missing? <==> forall k :: 0 <= k < |ys| ==> ys[k].Missing?
  {
    var c := KnownCount(ys);
    if c == 0 then Missing else Known(KnownSum(ys) / c as real)
  }

  /** The mean lies within any bounds of the values present. */
  lemma MeanWithin(ys: seq<Measure>, lo: real, hi: real)
    requires forall k :: 0 <= k < |ys| && ys[k].Known? ==> lo <= ys[k].v <= hi
    requires MeanOfKnown(ys).Known?
    ensures lo <= MeanOfKnown(ys).v <= hi
  {
    var c := KnownCount(ys) as real;
    SumWithin(ys, lo, hi);
    QuotientWithin(KnownSum(ys), c, lo, hi);
  }

  lemma QuotientWithin(s: real, c: real, lo: real, hi: real)
    requires c > 0.0 && Bracketed(lo, hi, c, s)
    ensures lo <= s / c <= hi
  {
  }

  /** `s` is a sum of `c` values between `lo` and `hi`. */
  predicate Bracketed(lo: real, hi: real, c: real, s: real) {
    lo * c <= s <= hi * c
  }

  lemma {:induction false} SumWithin(ys: seq<Measure>, lo: real, hi: real)
    requires forall k :: 0 <= k < |ys| && ys[k].Known? ==> lo <= ys[k].v <= hi
    ensures Bracketed(lo, hi, KnownCount(ys) as real, KnownSum(ys))
  {
    if ys != [] {
      SumWithin(ys[1..], lo, hi);
      var c, s := KnownCount(ys[1..]) as real, KnownSum(ys[1..]);
      if ys[0].Known? {
        SumStep(lo, hi, c, s, ys[0].v, KnownCount(ys) as real, KnownSum(ys));
      } else {
        SameSum(lo, hi, c, s, KnownCount(ys) as real, KnownSum(ys));
      }
    } else {
      SameSum(lo, hi, 0.0, 0.0, KnownCount(ys) as real, KnownSum(ys));
    }
  }

  lemma SameSum(lo: real, hi: real, c: real, s: real, c': real, s': real)
    requires c == c' && s == s' && ((c == 0.0 && s == 0.0) || Bracketed(lo, hi, c, s))
    ensures Bracketed(lo, hi, c', s')
  {
  }

  lemma SumStep(lo: real, hi: real, c: real, s: real, v: real, c': real, s': real)
    requires Bracketed(lo, hi, c, s) && lo <= v <= hi && c' == c + 1.0 && s' == v + s
    ensures Bracketed(lo, hi, c', s')
  {
    assert lo * (c + 1.0) == lo * c + lo && hi * (c + 1.0) == hi * c + hi;
  }

  /** The last label before `k` whose value is present, or -1. */
  function PrevKnown(ys: seq<Measure>, k: nat): (p: int)
    requires k <= |ys|
    ensures -1 <= p < k
    ensures p >= 0 ==> ys[p].Known?
    ensures forall m :: p < m < k ==> ys[m].Missing?
  {
    if k == 0 then -1
    else if ys[k - 1].Known? then k - 1
    else PrevKnown(ys, k - 1)
  }

  /** The first label after `k` whose value is present, or `|ys|`. */
  function NextKnown(ys: seq<Measure>, k: nat): (q: nat)
    requires k < |ys|
    ensures k < q <= |ys|
    ensures q < |ys| ==> ys[q].Known?
    ensures forall m :: k < m < q ==> ys[m].Missing?
    decreases |ys| - k
  {
    if k + 1 == |ys| then |ys|
    else if ys[k + 1].Known? then k + 1
    else NextKnown(ys, k + 1)
  }

  /** The straight line through (x0, y0) and (x1, y1) evaluated at x; two knots at the
      same abscissa give the first one's value. */
  function Lerp(x0: real, y0: real, x1: real, y1: real, x: real): (r: real)
    ensures x1 != x0 ==> (r - y0) * (x1 - x0) == (x - x0) * (y1 - y0)
  {
    if x1 == x0 then y0 else y0 + (x - x0) * (y1 - y0) / (x1 - x0)
  }

  /** The line passes through both knots. */
  lemma LerpAtKnots(x0: real, y0: real, x1: real, y1: real)
    ensures Lerp(x0, y0, x1, y1, x0) == y0
    ensures x0 != x1 ==> Lerp(x0, y0, x1, y1, x1) == y1
  {
  }

  /** Between the knots the line stays between their values. */
  lemma LerpBetween(x0: real, y0: real, x1: real, y1: real, x: real)
    requires x0 <= x <= x1
    ensures y0 <= y1 ==> y0 <= Lerp(x0, y0, x1, y1, x) <= y1
    ensures y1 <= y0 ==> y1 <= Lerp(x0, y0, x1, y1, x) <= y0
  {
    if x0 != x1 {
      QuotientBetween(x - x0, y1 - y0, x1 - x0);
    }
  }

  /** A fraction a/d of the way, with 0 <= a <= d, scales a rise b to something between 0
      and b. */
  lemma QuotientBetween(a: real, b: real, d: real)
    requires 0.0 <= a <= d && d > 0.0
    ensures b >= 0.0 ==> 0.0 <= a * b / d <= b
    ensures b <= 0.0 ==> b <= a * b / d <= 0.0
  {
    var f := a / d;
    assert f * d == a;
    assert 0.0 <= f <= 1.0;
    assert a * b / d == f * b by {
      assert f * b * d == a * b;
    }
    if b >= 0.0 {
      assert (1.0 - f) * b >= 0.0;
    } else {
      assert (1.0 - f) * (-b) >= 0.0;
    }
  }

  /** `Series.interpolate(method='index')` at position k, the index being `xs`: a present
      value stays; a missing one before the first present value stays missing; one after
      the last present value takes that value; any other lies on the line between the
      present values around it. */
  function InterpolateAt(xs: seq<real>, ys: seq<Measure>, k: nat): (r: Measure)
    requires |xs| == |ys| && k < |ys|
    ensures ys[k].Known? ==> r == ys[k]
    ensures r.Missing? <==> forall m :: 0 <= m <= k ==> ys[m].Missing?
  {
    if ys[k].Known? then ys[k]
    else
      var p := PrevKnown(ys, k);
      if p < 0 then Missing
      else
        var q := NextKnown(ys, k);
        if q == |ys| then ys[p]
        else Known(Lerp(xs[p], ys[p].v, xs[q], ys[q].v, xs[k]))
  }

  /** Over an ascending index, an interpolated value lies between the present values
      around it, and a trailing one repeats the last present value. */
  lemma InterpolateBetweenNeighbours(xs: seq<real>, ys: seq<Measure>, k: nat)
    requires |xs| == |ys| && k < |ys| && ys[k].Missing?
    requires forall a, b :: 0 <= a < b < |xs| ==> xs[a] <= xs[b]
    requires PrevKnown(ys, k) >= 0
    ensures var p, q, r := PrevKnown(ys, k), NextKnown(ys, k), InterpolateAt(xs, ys, k);
      && r.Known?
      && (q == |ys| ==> r == ys[p])
      && (q < |ys| && ys[p].v <= ys[q].v ==> ys[p].v <= r.v <= ys[q].v)
      && (q < |ys| && ys[q].v <= ys[p].v ==> ys[q].v <= r.v <= ys[p].v)
  {
    var p, q := PrevKnown(ys, k), NextKnown(ys, k);
    if q < |ys| {
      LerpBetween(xs[p], ys[p].v, xs[q], ys[q].v, xs[k]);
    }
  }

  /** `interpolate(method='index')` over a whole column. */
  function InterpolateIndex(xs: seq<real>, ys: seq<Measure>): (r: seq<Measure>)
    requires |xs| == |ys|
    ensures |r| == |ys| && forall k :: 0 <= k < |ys| ==> r[k] == InterpolateAt(xs, ys, k)
  {
    seq(|ys|, k requires 0 <= k < |ys| => InterpolateAt(xs, ys, k))
  }

  /** The density column of the slice from edge `i` to edge `j`, its two ends replaced by
      the means of the windows below `i` and above `j`. */
  function AnchoredDensities(rows: seq<Bin>, i: nat, j: nat, window: nat): (r: seq<Measure>)
    requires i <= j < |rows|
    ensures |r| == j - i + 1
    ensures r[0] == (if i == j then MeanOfKnown(WindowDensities(rows, j, j + window))
                     else MeanOfKnown(WindowDensities(rows, i - window, i)))
    ensures r[j - i] == MeanOfKnown(WindowDensities(rows, j, j + window))
    ensures forall k :: 0 < k < j - i ==> r[k] == rows[i + k].dndlogd
  {
    var ys := Densities(rows[i..j + 1]);
    ys[0 := MeanOfKnown(WindowDensities(rows, i - window, i))]
      [j - i := MeanOfKnown(WindowDensities(rows, j, j + window))]
  }

  /** Rows strictly between `i` and `j` take their density from `ds`, which covers the
      slice from `i` to `j`; all other rows, and every other column, are unchanged. */
  function ReplaceInterior(rows: seq<Bin>, i: nat, j: nat, ds: seq<Measure>): (r: seq<Bin>)
    requires i <= j < |rows| && |ds| == j - i + 1
    ensures |r| == |rows|
    ensures forall k :: 0 <= k < |rows| ==> r[k] == rows[k].(dndlogd := r[k].dndlogd)
    ensures forall k :: 0 <= k < |rows| && (k <= i || j <= k) ==> r[k] == rows[k]
    ensures forall k :: i < k < j ==> r[k].dndlogd == ds[k - i]
  {
    seq(|rows|, k requires 0 <= k < |rows| => if i < k < j then rows[k].(dndlogd := ds[k - i]) else rows[k])
  }

  /** Rows strictly between edge `i` and edge `j` take the interpolated density of the
      anchored slice; all other rows, and every column but the density, are unchanged. */
  function FillInterior(rows: seq<Bin>, i: nat, j: nat, window: nat): (r: seq<Bin>)
    requires i <= j < |rows|
    ensures |r| == |rows|
    ensures forall k :: 0 <= k < |rows| ==> r[k] == rows[k].(dndlogd := r[k].dndlogd)
    ensures forall k :: 0 <= k < |rows| && (k <= i || j <= k) ==> r[k] == rows[k]
    ensures forall k :: i < k < j ==>
      r[k].dndlogd == InterpolateAt(Centres(rows[i..j + 1]), AnchoredDensities(rows, i, j, window), k - i)
  {
    var ds := InterpolateIndex(Centres(rows[i..j + 1]), AnchoredDensities(rows, i, j, window));
    ReplaceInterior(rows, i, j, ds)
  }

  /** The gap-filled distribution. The edges are the smps row with the largest upper edge
      and the aps row with the smallest lower edge (the first such label). An edge that
      does not exist, or an aps edge before the smps edge, is an error. */
  function GapFilled(rows: seq<Bin>, window: nat): (r: Result<seq<Bin>>)
    ensures r == Err(NoEdgeBin) <==> IdxMaxUpper(rows, Smps) < 0 || IdxMinLower(rows, Aps) < 0
    ensures r == Err(EmptyGapSlice) <==> 0 <= IdxMinLower(rows, Aps) < IdxMaxUpper(rows, Smps)
    ensures r.Ok? <==> 0 <= IdxMaxUpper(rows, Smps) <= IdxMinLower(rows, Aps)
    ensures r.Ok? ==> r.value == FillInterior(rows, IdxMaxUpper(rows, Smps), IdxMinLower(rows, Aps), window)
  {
    var i, j := IdxMaxUpper(rows, Smps), IdxMinLower(rows, Aps);
    if i < 0 || j < 0 then Err(NoEdgeBin)
    else if j < i then Err(EmptyGapSlice)
    else Ok(FillInterior(rows, i, j, window))
  }

  /** Replaces the density of the rows from `from` on by `ds`. */
  function WithDensities(rows: seq<Bin>, from: nat, ds: seq<Measure>): (r: seq<Bin>)
    requires from + |ds| <= |rows|
    ensures |r| == |rows|
    ensures forall k :: 0 <= k < |rows| ==>
      r[k] == if from <= k < from + |ds| then rows[k].(dndlogd := ds[k - from]) else rows[k]
  {
    seq(|rows|, k requires 0 <= k < |rows| =>
      if from <= k < from + |ds| then rows[k].(dndlogd := ds[k - from]) else rows[k])
  }

  /** interpolate_dndlogd_gap, step by step: save the edge densities, average the windows,
      write the averages into the two ends of the edge-to-edge slice, interpolate it, write
      the result back into a copy, then restore the two edge densities. */
  method InterpolateDndlogdGap(sdGapped: seq<Bin>, window: nat) returns (r: Result<seq<Bin>>)
    ensures r == GapFilled(sdGapped, window)
  {
    var i := IdxMaxUpper(sdGapped, Smps);
    var j := IdxMinLower(sdGapped, Aps);
    if i < 0 || j < 0 {
      return Err(NoEdgeBin);
    }
    var minEdge0 := sdGapped[i].dndlogd;
    var maxEdge0 := sdGapped[j].dndlogd;
    var minEdgeAvg := MeanOfKnown(WindowDensities(sdGapped, i - window, i));
    var maxEdgeAvg := MeanOfKnown(WindowDensities(sdGapped, j, j + window));
    if j < i {
      return Err(EmptyGapSlice);
    }
    var gapWithEdges := sdGapped[i..j + 1];
    gapWithEdges := gapWithEdges[0 := gapWithEdges[0].(dndlogd := minEdgeAvg)];
    gapWithEdges := gapWithEdges[j - i := gapWithEdges[j - i].(dndlogd := maxEdgeAvg)];
    AnchoredSlice(sdGapped, i, j, window, gapWithEdges);
    var interpolated := InterpolateIndex(Centres(gapWithEdges), Densities(gapWithEdges));
    var out := WithDensities(sdGapped, i, interpolated);
    out := out[i := out[i].(dndlogd := minEdge0)];
    out := out[j := out[j].(dndlogd := maxEdge0)];
    RestoredEdges(sdGapped, i, j, window, out);
    return Ok(out);
  }

  lemma RestoredEdges(rows: seq<Bin>, i: nat, j: nat, window: nat, out: seq<Bin>)
    requires i <= j < |rows|
    requires var ds := InterpolateIndex(Centres(rows[i..j + 1]), AnchoredDensities(rows, i, j, window));
      out == WithDensities(rows, i, ds)[i := WithDensities(rows, i, ds)[i].(dndlogd := rows[i].dndlogd)]
          [j := WithDensities(rows, i, ds)[j].(dndlogd := rows[j].dndlogd)]
    ensures out == FillInterior(rows, i, j, window)
  {
  }

  lemma AnchoredSlice(rows: seq<Bin>, i: nat, j: nat, window: nat, g: seq<Bin>)
    requires i <= j < |rows|
    requires var g0 := rows[i..j + 1][0 := rows[i].(dndlogd := MeanOfKnown(WindowDensities(rows, i - window, i)))];
      g == g0[j - i := g0[j - i].(dndlogd := MeanOfKnown(WindowDensities(rows, j, j + window)))]
    ensures Densities(g) == AnchoredDensities(rows, i, j, window)
    ensures Centres(g) == Centres(rows[i..j + 1])
  {
    AnchoredSliceDensities(rows, i, j, window, g);
    AnchoredSliceCentres(rows, i, j, g);
  }

  lemma AnchoredSliceDensities(rows: seq<Bin>, i: nat, j: nat, window: nat, g: seq<Bin>)
    requires i <= j < |rows|
    requires var g0 := rows[i..j + 1][0 := rows[i].(dndlogd := MeanOfKnown(WindowDensities(rows, i - window, i)))];
      g == g0[j - i := g0[j - i].(dndlogd := MeanOfKnown(WindowDensities(rows, j, j + window)))]
    ensures Densities(g) == AnchoredDensities(rows, i, j, window)
  {
    var d, a := Densities(g), AnchoredDensities(rows, i, j, window);
    assert forall k :: 0 <= k < |d| ==> d[k] == a[k];
  }

  lemma AnchoredSliceCentres(rows: seq<Bin>, i: nat, j: nat, g: seq<Bin>)
    requires i <= j < |rows| && |g| == j + 1 - i
    requires forall k :: 0 <= k < |g| ==> g[k].dpes == rows[i + k].dpes
    ensures Centres(g) == Centres(rows[i..j + 1])
  {
    var c, c' := Centres(g), Centres(rows[i..j + 1]);
    assert forall k :: 0 <= k < |c| ==> c[k] == c'[k];
  }

  /** When every row strictly between edges `i` and `j` lacks a density and both window
      means exist, each of those rows gets the straight line in `dpes` through the two
      anchors, so its density lies between the anchors. */
  lemma InteriorBetweenAnchors(rows: seq<Bin>, i: nat, j: nat, window: nat, k: nat)
    requires i < k < j < |rows| && SortedByDpes(rows)
    requires forall m :: i < m < j ==> rows[m].dndlogd.Missing?
    requires MeanOfKnown(WindowDensities(rows, i - window, i)).Known?
    requires MeanOfKnown(WindowDensities(rows, j, j + window)).Known?
    ensures var lo := MeanOfKnown(WindowDensities(rows, i - window, i)).v;
      var hi := MeanOfKnown(WindowDensities(rows, j, j + window)).v;
      var d := FillInterior(rows, i, j, window)[k].dndlogd;
      && d == Known(Lerp(rows[i].dpes, lo, rows[j].dpes, hi, rows[k].dpes))
      && (lo <= hi ==> lo <= d.v <= hi)
      && (hi <= lo ==> hi <= d.v <= lo)
  {
    assert rows[i].dpes <= rows[k].dpes <= rows[j].dpes;
    InteriorOnLine(rows, i, j, window, k);
  }

  lemma InteriorOnLine(rows: seq<Bin>, i: nat, j: nat, window: nat, k: nat)
    requires i < k < j < |rows| && rows[i].dpes <= rows[k].dpes <= rows[j].dpes
    requires forall m :: i < m < j ==> rows[m].dndlogd.Missing?
    requires MeanOfKnown(WindowDensities(rows, i - window, i)).Known?
    requires MeanOfKnown(WindowDensities(rows, j, j + window)).Known?
    ensures var lo := MeanOfKnown(WindowDensities(rows, i - window, i)).v;
      var hi := MeanOfKnown(WindowDensities(rows, j, j + window)).v;
      var d := FillInterior(rows, i, j, window)[k].dndlogd;
      && d == Known(Lerp(rows[i].dpes, lo, rows[j].dpes, hi, rows[k].dpes))
      && (lo <= hi ==> lo <= d.v <= hi)
      && (hi <= lo ==> hi <= d.v <= lo)
  {
    var lo := MeanOfKnown(WindowDensities(rows, i - window, i)).v;
    var hi := MeanOfKnown(WindowDensities(rows, j, j + window)).v;
    AnchoredLine(rows, i, j, window, k, lo, hi);
    FilledAt(rows, i, j, window, k);
    LerpBetween(rows[i].dpes, lo, rows[j].dpes, hi, rows[k].dpes);
  }

  /** With only the anchors `lo` and `hi` known, the interpolated slice at `k` is the line
      through them. */
  lemma AnchoredLine(rows: seq<Bin>, i: nat, j: nat, window: nat, k: nat, lo: real, hi: real)
    requires i < k < j < |rows|
    requires forall m :: i < m < j ==> rows[m].dndlogd.Missing?
    requires MeanOfKnown(WindowDensities(rows, i - window, i)) == Known(lo)
    requires MeanOfKnown(WindowDensities(rows, j, j + window)) == Known(hi)
    ensures InterpolateAt(Centres(rows[i..j + 1]), AnchoredDensities(rows, i, j, window), k - i)
      == Known(Lerp(rows[i].dpes, lo, rows[j].dpes, hi, rows[k].dpes))
  {
    var xs, ys := Centres(rows[i..j + 1]), AnchoredDensities(rows, i, j, window);
    assert ys[0] == Known(lo) && ys[j - i] == Known(hi);
    assert forall n :: 0 < n < j - i ==> ys[n] == rows[i + n].dndlogd;
    assert xs[0] == rows[i].dpes && xs[k - i] == rows[k].dpes && xs[j - i] == rows[j].dpes;
    InterpolateBetweenEnds(xs, ys, k - i, rows[i].dpes, lo, rows[j].dpes, hi, rows[k].dpes);
  }

  lemma FilledAt(rows: seq<Bin>, i: nat, j: nat, window: nat, k: nat)
    requires i < k < j < |rows|
    ensures FillInterior(rows, i, j, window)[k].dndlogd
      == InterpolateAt(Centres(rows[i..j + 1]), AnchoredDensities(rows, i, j, window), k - i)
  {
  }

  /** Inside a column whose only present values are its two ends, interpolation draws the
      line through the ends. */
  lemma InterpolateBetweenEnds(xs: seq<real>, ys: seq<Measure>, m: nat, x0: real, y0: real, x1: real, y1: real, x: real)
    requires |xs| == |ys| && 0 < m < |ys| - 1
    requires ys[0] == Known(y0) && ys[|ys| - 1] == Known(y1)
    requires xs[0] == x0 && xs[|ys| - 1] == x1 && xs[m] == x
    requires forall n :: 0 < n < |ys| - 1 ==> ys[n].Missing?
    ensures InterpolateAt(xs, ys, m) == Known(Lerp(x0, y0, x1, y1, x))
  {
    OnlyAnchorsKnown(ys, m);
  }

  /** In a column whose only present values are its two ends, the present values around
      an inner position are the two ends. */
  lemma OnlyAnchorsKnown(ys: seq<Measure>, m: nat)
    requires 0 < m < |ys| - 1
    requires ys[0].Known? && ys[|ys| - 1].Known?
    requires forall n :: 0 < n < |ys| - 1 ==> ys[n].Missing?
    ensures PrevKnown(ys, m) == 0 && NextKnown(ys, m) == |ys| - 1
  {
  }

  /** In rows sorted by centre, a row centred strictly between the smps edge's upper edge
      and the aps edge's lower edge lies strictly between the two edge labels, so the gap
      filling reaches it. */
  lemma GapRowsBetweenEdges(rows: seq<Bin>, k: nat)
    requires SortedByDpes(rows) && WellFormed(rows) && k < |rows|
    requires IdxMaxUpper(rows, Smps) >= 0 && IdxMinLower(rows, Aps) >= 0
    requires rows[IdxMaxUpper(rows, Smps)].upper < rows[k].dpes < rows[IdxMinLower(rows, Aps)].lower
    ensures IdxMaxUpper(rows, Smps) < k < IdxMinLower(rows, Aps)
  {
    var i, j := IdxMaxUpper(rows, Smps), IdxMinLower(rows, Aps);
    assert WellFormedBin(rows[i]) && WellFormedBin(rows[j]);
    SortedOrder(rows, i, k);
    SortedOrder(rows, k, j);
  }

  /** In rows sorted by centre, an smps edge whose upper edge lies below the aps edge's
      lower edge comes first, so the gap filling succeeds. */
  lemma EdgesInOrder(rows: seq<Bin>, window: nat)
    requires SortedByDpes(rows) && WellFormed(rows)
    requires IdxMaxUpper(rows, Smps) >= 0 && IdxMinLower(rows, Aps) >= 0
    requires rows[IdxMaxUpper(rows, Smps)].upper < rows[IdxMinLower(rows, Aps)].lower
    ensures IdxMaxUpper(rows, Smps) < IdxMinLower(rows, Aps)
    ensures GapFilled(rows, window).Ok?
  {
    var i, j := IdxMaxUpper(rows, Smps), IdxMinLower(rows, Aps);
    assert WellFormedBin(rows[i]) && WellFormedBin(rows[j]);
    SortedOrder(rows, i, j);
  }
}
