/** Bin edges from centres and channel resolution, the resolution of a distribution,
    and the grid of new bins that bridges a gap between the two instruments. */
module BinGeometry {
  import opened SizeBins
  import opened Tables

  /** Edges of the bin centred at `center` when there are `resolution` bins per decade:
      lower = 2c / (10^(1/res) + 1) and upper = 2c / (10^(-1/res) + 1). */
  function CalcBinBoundaries(axis: LogAxis, center: real, resolution: real): (r: (real, real))
    requires axis.Valid() && axis.Reciprocal() && center > 0.0 && resolution > 0.0
    ensures 0.0 < r.0 < center < r.1
    ensures r.1 == axis.exp10(1.0 / resolution) * r.0
  {
    var up := axis.exp10(1.0 / resolution);
    var down := axis.exp10(-1.0 / resolution);
    ReciprocalPowers(axis, 1.0 / resolution, -1.0 / resolution);
    EdgeArithmetic(center, up, down);
    (2.0 * center / (up + 1.0), 2.0 * center / (down + 1.0))
  }

  /** 10^t exceeds one for positive t, and 10^-t is its reciprocal. */
  lemma ReciprocalPowers(axis: LogAxis, t: real, u: real)
    requires axis.Valid() && axis.Reciprocal() && t > 0.0 && t + u == 0.0
    ensures axis.exp10(t) > 1.0 && axis.exp10(t) * axis.exp10(u) == 1.0
  {
    assert axis.exp10(t) > axis.exp10(0.0);
  }

  lemma EdgeArithmetic(center: real, up: real, down: real)
    requires center > 0.0 && up > 1.0 && up * down == 1.0
    ensures 0.0 < 2.0 * center / (up + 1.0) < center < 2.0 * center / (down + 1.0)
    ensures 2.0 * center / (down + 1.0) == up * (2.0 * center / (up + 1.0))
  {
    var lo := 2.0 * center / (up + 1.0);
    var hi := 2.0 * center / (down + 1.0);
    assert 0.0 < down < 1.0;
    QuotientBounds(2.0 * center, up + 1.0, center);
    QuotientBounds(2.0 * center, down + 1.0, center);
    assert lo * (up + 1.0) == 2.0 * center;
    assert hi * (down + 1.0) == 2.0 * center;
    calc {
      up * lo * (down + 1.0);
      lo * (up * down) + lo * up;
      lo * (up + 1.0);
    }
    Cancel(hi, up * lo, down + 1.0);
  }

  /** For `q = a / b` with `b` positive: `q * b == a`, and `q` lies below `c` exactly when
      `a` lies below `c * b`. */
  lemma QuotientBounds(a: real, b: real, c: real)
    requires a > 0.0 && b > 0.0
    ensures a / b > 0.0 && a / b * b == a
    ensures a / b < c <==> a < c * b
  {
  }

  lemma Cancel(x: real, y: real, b: real)
    requires b > 0.0 && x * b == y * b
    ensures x == y
  {
  }

  /** `n / (log10(hi) - log10(lo))`: bins per decade of `n` bins spanning `lo` to `hi`,
      not finite when the span is zero. */
  function BinsPerDecade(axis: LogAxis, n: nat, lo: real, hi: real): (r: Extended<real>)
    ensures r.Finite? <==> axis.Decades(lo, hi) != 0.0
    ensures r.Finite? ==> r.v * axis.Decades(lo, hi) == n as real
  {
    var d := axis.Decades(lo, hi);
    if d != 0.0 then Finite(n as real / d) else NotFinite
  }

  /** `len(data) / (log10(max(dpes)) - log10(min(dpes)))`: bins per decade of a
      distribution. It is infinite for a single diameter and NaN for no rows. */
  function ChannelResolution(axis: LogAxis, rows: seq<Bin>): (r: Extended<real>)
    ensures |rows| == 0 ==> r.NotFinite?
    ensures |rows| > 0 ==> r == BinsPerDecade(axis, |rows|, MinOf(Centres(rows)), MaxOf(Centres(rows)))
  {
    if |rows| == 0 then NotFinite
    else BinsPerDecade(axis, |rows|, MinOf(Centres(rows)), MaxOf(Centres(rows)))
  }

  /** The resolution of a distribution with positive centres is finite exactly when the
      centres are not all equal, and is then positive. */
  lemma ResolutionOfSpread(axis: LogAxis, rows: seq<Bin>)
    requires axis.Valid() && |rows| > 0 && forall k :: 0 <= k < |rows| ==> rows[k].dpes > 0.0
    ensures ChannelResolution(axis, rows).Finite? <==> MinOf(Centres(rows)) < MaxOf(Centres(rows))
    ensures ChannelResolution(axis, rows).Finite? ==> ChannelResolution(axis, rows).v > 0.0
  {
    var lo, hi := MinOf(Centres(rows)), MaxOf(Centres(rows));
    var k :| 0 <= k < |rows| && Centres(rows)[k] == lo;
    assert lo <= Centres(rows)[0] <= hi;
    SpreadPerDecade(axis, |rows|, lo, hi);
  }

  lemma SpreadPerDecade(axis: LogAxis, n: nat, lo: real, hi: real)
    requires axis.Valid() && n > 0 && 0.0 < lo <= hi
    ensures BinsPerDecade(axis, n, lo, hi).Finite? <==> lo < hi
    ensures BinsPerDecade(axis, n, lo, hi).Finite? ==> BinsPerDecade(axis, n, lo, hi).v > 0.0
  {
    if lo < hi {
      LogIncreasing(axis, lo, hi);
      PositiveQuotient(BinsPerDecade(axis, n, lo, hi).v, axis.Decades(lo, hi), n as real);
    }
  }

  lemma PositiveQuotient(v: real, d: real, n: real)
    requires d > 0.0 && n > 0.0 && v * d == n
    ensures v > 0.0
  {
  }

  /** `(res_smps + res_aps) // 2`: the bridge resolution, NaN once either is infinite. */
  function InterpolResolution(resSmps: Extended<real>, resAps: Extended<real>): (r: Extended<int>)
    ensures r.Finite? <==> resSmps.Finite? && resAps.Finite?
    ensures r.Finite? ==> r.v as real <= (resSmps.v + resAps.v) / 2.0 < r.v as real + 1.0
    ensures r.Finite? && resSmps.v > 0.0 && resAps.v > 0.0 ==> r.v >= 0
  {
    if resSmps.Finite? && resAps.Finite? then Finite(((resSmps.v + resAps.v) / 2.0).Floor)
    else NotFinite
  }

  /** Python's round(): the nearest integer, ties to the even one. */
  function RoundHalfEven(x: real): (n: int)
    ensures x - 0.5 <= n as real <= x + 0.5
    ensures (n as real - x == 0.5 || x - n as real == 0.5) ==> n % 2 == 0
  {
    var f := x.Floor;
    var d := x - f as real;
    if d < 0.5 then f
    else if d > 0.5 then f + 1
    else if f % 2 == 0 then f
    else f + 1
  }

  /** The number of bins of the gap grid. */
  function GapBinCount(axis: LogAxis, xStart: real, xEnd: real, res: int): (n: int)
    ensures res as real * axis.Decades(xStart, xEnd) - 0.5 <= n as real <= res as real * axis.Decades(xStart, xEnd) + 0.5
  {
    RoundHalfEven(res as real * axis.Decades(xStart, xEnd))
  }

  /** The left edge of bin `i` of an `n`-bin grid from `xStart` to `xEnd`:
      `np.logspace(log10(xStart), log10(xEnd), n, endpoint=False)[i]`. */
  function GridLower(axis: LogAxis, xStart: real, xEnd: real, n: nat, i: nat): (r: real)
    requires n > 0
    ensures axis.Valid() ==> r > 0.0
    ensures axis.Valid() && xStart > 0.0 && i == 0 ==> r == xStart
  {
    ZeroStep(axis.log10(xStart), axis.Decades(xStart, xEnd) / n as real);
    axis.exp10(axis.log10(xStart) + i as real * (axis.Decades(xStart, xEnd) / n as real))
  }

  /** The edges of a contiguous grid of bins from `xStart` to `xEnd`. */
  ghost predicate IsGapGrid(lowers: seq<real>, uppers: seq<real>, xStart: real, xEnd: real) {
    && |lowers| == |uppers| > 0
    && lowers[0] == xStart
    && uppers[|uppers| - 1] == xEnd
    && (forall i :: 0 <= i < |lowers| - 1 ==> uppers[i] == lowers[i + 1])
    && (forall i :: 0 <= i < |lowers| ==> 0.0 < lowers[i] < uppers[i])
  }

  /** Lower and upper edges of the bins spaced evenly in log scale between `xStart` and
      `xEnd`: the uppers are the lowers shifted by one with `xEnd` appended. */
  function BinBoundariesInInterval(axis: LogAxis, xStart: real, xEnd: real, res: Extended<int>)
    : (r: Result<(seq<real>, seq<real>)>)
    requires axis.Valid() && 0.0 < xStart < xEnd
    ensures res.NotFinite? ==> r == Err(NonFiniteBinCount)
    ensures res.Finite? ==> (r.Ok? <==> GapBinCount(axis, xStart, xEnd, res.v) > 0)
    ensures r.Err? ==> r.error == NonFiniteBinCount || r.error == NoGapBins
    ensures r.Ok? ==> |r.value.0| == GapBinCount(axis, xStart, xEnd, res.v)
    ensures r.Ok? ==> IsGapGrid(r.value.0, r.value.1, xStart, xEnd)
    ensures r.Ok? ==> forall i :: 0 <= i < |r.value.0| ==>
      axis.log10(r.value.1[i]) - axis.log10(r.value.0[i]) == axis.Decades(xStart, xEnd) / |r.value.0| as real
  {
    if res.NotFinite? then Err(NonFiniteBinCount)
    else
      var n := GapBinCount(axis, xStart, xEnd, res.v);
      if n <= 0 then Err(NoGapBins)
      else
        var lowers := seq(n, i requires 0 <= i < n => GridLower(axis, xStart, xEnd, n, i));
        var uppers := lowers[1..] + [xEnd];
        GridIsContiguous(axis, xStart, xEnd, n, lowers, uppers);
        GridEvenlySpaced(axis, xStart, xEnd, n, lowers, uppers);
        Ok((lowers, uppers))
  }

  lemma GridIsContiguous(axis: LogAxis, xStart: real, xEnd: real, n: nat, lowers: seq<real>, uppers: seq<real>)
    requires axis.Valid() && 0.0 < xStart < xEnd && n > 0
    requires |lowers| == n && forall i :: 0 <= i < n ==> lowers[i] == GridLower(axis, xStart, xEnd, n, i)
    requires uppers == lowers[1..] + [xEnd]
    ensures IsGapGrid(lowers, uppers, xStart, xEnd)
  {
    ZeroStep(axis.log10(xStart), axis.Decades(xStart, xEnd) / n as real);
    assert lowers[0] == xStart;
    forall i | 0 <= i < n
      ensures 0.0 < lowers[i] < uppers[i]
    {
      GridCell(axis, xStart, xEnd, n, i);
      if i < n - 1 {
        assert uppers[i] == lowers[i + 1];
      } else {
        assert uppers[i] == xEnd;
      }
    }
  }

  /** Every bin of the grid spans the same number of decades: `1/n` of the whole span. */
  lemma GridEvenlySpaced(axis: LogAxis, xStart: real, xEnd: real, n: nat, lowers: seq<real>, uppers: seq<real>)
    requires axis.Valid() && 0.0 < xStart < xEnd && n > 0
    requires |lowers| == n && forall i :: 0 <= i < n ==> lowers[i] == GridLower(axis, xStart, xEnd, n, i)
    requires uppers == lowers[1..] + [xEnd]
    ensures forall i :: 0 <= i < n ==>
      axis.log10(uppers[i]) - axis.log10(lowers[i]) == axis.Decades(xStart, xEnd) / n as real
  {
    forall i | 0 <= i < n
      ensures axis.log10(uppers[i]) - axis.log10(lowers[i]) == axis.Decades(xStart, xEnd) / n as real
    {
      if i < n - 1 {
        assert uppers[i] == lowers[i + 1];
        InnerCellWidth(axis, xStart, xEnd, n, i);
      } else {
        assert uppers[i] == xEnd;
        LastCellWidth(axis, xStart, xEnd, n);
      }
    }
  }

  /** A cell followed by another spans one step of the logarithm. */
  lemma InnerCellWidth(axis: LogAxis, xStart: real, xEnd: real, n: nat, i: nat)
    requires axis.Valid() && i + 1 < n
    ensures axis.log10(GridLower(axis, xStart, xEnd, n, i + 1)) - axis.log10(GridLower(axis, xStart, xEnd, n, i))
      == axis.Decades(xStart, xEnd) / n as real
  {
    var la, step := axis.log10(xStart), axis.Decades(xStart, xEnd) / n as real;
    LogOfExp(axis, la + i as real * step);
    LogOfExp(axis, la + (i + 1) as real * step);
    NextStep(i, step);
  }

  /** The last cell, which ends at `xEnd`, spans one step of the logarithm too. */
  lemma LastCellWidth(axis: LogAxis, xStart: real, xEnd: real, n: nat)
    requires axis.Valid() && n > 0
    ensures axis.log10(xEnd) - axis.log10(GridLower(axis, xStart, xEnd, n, n - 1))
      == axis.Decades(xStart, xEnd) / n as real
  {
    var la, d := axis.log10(xStart), axis.Decades(xStart, xEnd);
    LogOfExp(axis, la + (n - 1) as real * (d / n as real));
    LastStep(d, n);
  }

  /** The logarithm undoes the exponential. */
  lemma LogOfExp(axis: LogAxis, y: real)
    requires axis.Valid()
    ensures axis.log10(axis.exp10(y)) == y
  {
    var x := axis.exp10(y);
    assert x > 0.0;
    assert axis.exp10(axis.log10(x)) == x;
  }

  lemma NextStep(i: nat, step: real)
    ensures (i + 1) as real * step - i as real * step == step
  {
  }

  /** The last of `n` equal steps ends the span `d`. */
  lemma LastStep(d: real, n: nat)
    requires n > 0
    ensures d - (n - 1) as real * (d / n as real) == d / n as real
  {
    var step := d / n as real;
    assert n as real * step == d;
    assert (n - 1) as real * step == n as real * step - step;
  }

  /** The i-th grid edge is positive, below the next one and below the end of the grid. */
  lemma GridCell(axis: LogAxis, xStart: real, xEnd: real, n: nat, i: nat)
    requires axis.Valid() && 0.0 < xStart < xEnd && i < n
    ensures 0.0 < GridLower(axis, xStart, xEnd, n, i) < xEnd
    ensures i + 1 < n ==> GridLower(axis, xStart, xEnd, n, i) < GridLower(axis, xStart, xEnd, n, i + 1)
  {
    LogIncreasing(axis, xStart, xEnd);
    var la, d := axis.log10(xStart), axis.Decades(xStart, xEnd);
    GridStep(la, d, n, i);
    assert la + d == axis.log10(xEnd);
    ExpOrder(axis, la + i as real * (d / n as real), la + (i + 1) as real * (d / n as real), la + d, xEnd);
  }

  /** Three exponents with `a` below the other two, the last of which is the exponent of `x`. */
  lemma ExpOrder(axis: LogAxis, a: real, b: real, c: real, x: real)
    requires axis.Valid() && a < b && a < c && x > 0.0 && c == axis.log10(x)
    ensures 0.0 < axis.exp10(a) < x && axis.exp10(a) < axis.exp10(b)
  {
    assert axis.exp10(c) == x;
  }

  lemma ZeroStep(la: real, step: real)
    ensures la + 0 as real * step == la
  {
  }

  /** Consecutive exponents of the grid increase, and the last one stays below the end. */
  lemma GridStep(la: real, d: real, n: nat, i: nat)
    requires d > 0.0 && i < n
    ensures la + i as real * (d / n as real) < la + (i + 1) as real * (d / n as real)
    ensures la + i as real * (d / n as real) < la + d
  {
    var step := d / n as real;
    assert step > 0.0;
    assert (i + 1) as real * step == i as real * step + step;
    assert n as real * step == d;
    assert i as real * step < n as real * step;
  }

  /** The interpolated rows of the gap grid: centres are the arithmetic means of the edges;
      counts and densities are not known yet. */
  function GapBins(lowers: seq<real>, uppers: seq<real>): (r: seq<Bin>)
    requires |lowers| == |uppers|
    ensures |r| == |lowers|
    ensures forall k :: 0 <= k < |r| ==>
      r[k] == Bin((lowers[k] + uppers[k]) / 2.0, lowers[k], uppers[k], Missing, Missing, Interpolated)
  {
    seq(|lowers|, k requires 0 <= k < |lowers| =>
      Bin((lowers[k] + uppers[k]) / 2.0, lowers[k], uppers[k], Missing, Missing, Interpolated))
  }

  /** Every bin of a gap grid lies strictly inside the gap, encloses its centre, and the
      centres increase strictly. */
  lemma GapBinsInsideGap(lowers: seq<real>, uppers: seq<real>, xStart: real, xEnd: real)
    requires IsGapGrid(lowers, uppers, xStart, xEnd)
    ensures WellFormed(GapBins(lowers, uppers))
    ensures forall k :: 0 <= k < |lowers| ==>
      xStart <= lowers[k] && uppers[k] <= xEnd && xStart < GapBins(lowers, uppers)[k].dpes < xEnd
    ensures forall i, j :: 0 <= i < j < |lowers| ==> GapBins(lowers, uppers)[i].dpes < GapBins(lowers, uppers)[j].dpes
  {
    GridMonotone(lowers, uppers, xStart, xEnd);
  }

  lemma {:induction false} GridMonotone(lowers: seq<real>, uppers: seq<real>, xStart: real, xEnd: real)
    requires IsGapGrid(lowers, uppers, xStart, xEnd)
    ensures forall i, j :: 0 <= i < j < |lowers| ==> uppers[i] <= lowers[j]
    ensures forall k :: 0 <= k < |lowers| ==> xStart <= lowers[k] && uppers[k] <= xEnd
  {
    var n := |lowers|;
    forall i, j | 0 <= i < j < n ensures uppers[i] <= lowers[j] {
      GridChain(lowers, uppers, xStart, xEnd, i, j);
    }
    forall k | 0 <= k < n ensures xStart <= lowers[k] && uppers[k] <= xEnd {
      if k > 0 { assert uppers[0] <= lowers[k]; }
      if k < n - 1 { assert uppers[k] <= lowers[n - 1]; }
    }
  }

  lemma {:induction false} GridChain(lowers: seq<real>, uppers: seq<real>, xStart: real, xEnd: real, i: nat, j: nat)
    requires IsGapGrid(lowers, uppers, xStart, xEnd) && i < j < |lowers|
    ensures uppers[i] <= lowers[j]
    decreases j - i
  {
    if i + 1 < j {
      GridChain(lowers, uppers, xStart, xEnd, i + 1, j);
    }
  }
}
