/** combine_SMPS_APS_sd: tag both distributions, classify how their ranges meet, bridge a
    gap with interpolated bins or merge an overlap, then recompute the density of every bin
    the engine derived. */
module Combine {
  import opened SizeBins
  import opened Tables
  import opened BinGeometry
  import opened GapInterpolation
  import opened OverlapMerge
  import opened MergeProperties

  /** How the two ranges meet: they overlap, leave a gap, or (both false) touch. */
  datatype RangeFlags = RangeFlags(overlap: bool, gap: bool)

  /** The range classification, from the largest smps upper edge and the smallest aps lower
      edge; either maximum fails on an empty distribution. */
  function Classify(smps: seq<Bin>, aps: seq<Bin>): (r: Result<RangeFlags>)
    ensures r.Err? <==> |smps| == 0 || |aps| == 0
    ensures r.Err? ==> r.error == EmptyDistribution
    ensures r.Ok? ==> !(r.value.overlap && r.value.gap)
    ensures r.Ok? ==> (r.value.overlap <==>
      exists i, j :: 0 <= i < |smps| && 0 <= j < |aps| && smps[i].upper > aps[j].lower)
    ensures r.Ok? ==> (r.value.gap <==>
      forall i, j :: 0 <= i < |smps| && 0 <= j < |aps| ==> smps[i].upper < aps[j].lower)
  {
    if |smps| == 0 || |aps| == 0 then Err(EmptyDistribution)
    else
      var maxUpper, minLower := MaxOf(Uppers(smps)), MinOf(Lowers(aps));
      RangeWitnesses(smps, aps);
      Ok(RangeFlags(maxUpper > minLower, maxUpper < minLower))
  }

  lemma RangeWitnesses(smps: seq<Bin>, aps: seq<Bin>)
    requires |smps| > 0 && |aps| > 0
    ensures exists i, j :: (0 <= i < |smps| && 0 <= j < |aps|
      && smps[i].upper == MaxOf(Uppers(smps)) && aps[j].lower == MinOf(Lowers(aps)))
  {
    var i :| 0 <= i < |smps| && Uppers(smps)[i] == MaxOf(Uppers(smps));
    var j :| 0 <= j < |aps| && Lowers(aps)[j] == MinOf(Lowers(aps));
    assert smps[i].upper == MaxOf(Uppers(smps)) && aps[j].lower == MinOf(Lowers(aps));
  }

  /** A density times a width in decades; a missing density stays missing. */
  function Scale(d: Measure, w: real): (r: Measure)
    ensures r.Known? <==> d.Known?
  {
    if d.Known? then Known(d.v * w) else Missing
  }

  /** The count of every row recomputed from its density over its width in decades. */
  function DnFromDensity(axis: LogAxis, rows: seq<Bin>): (r: seq<Bin>)
    ensures |r| == |rows|
    ensures forall k :: 0 <= k < |rows| ==>
      r[k] == rows[k].(dn := Scale(rows[k].dndlogd, axis.Decades(rows[k].lower, rows[k].upper)))
  {
    seq(|rows|, k requires 0 <= k < |rows| =>
      rows[k].(dn := Scale(rows[k].dndlogd, axis.Decades(rows[k].lower, rows[k].upper))))
  }

  /** The density a count gives over a bin, by the external conversion `density`; a missing
      count gives a missing density. */
  function DensityOf(density: (real, real, real) -> real, b: Bin): (r: Measure)
    ensures r.Known? <==> b.dn.Known?
  {
    if b.dn.Known? then Known(density(b.dn.v, b.lower, b.upper)) else Missing
  }

  /** The final recompute: rows flagged neither smps nor aps take the density of their
      count; every other row, and every other column, is unchanged. */
  function RecomputeDensity(density: (real, real, real) -> real, rows: seq<Bin>): (r: seq<Bin>)
    ensures |r| == |rows|
    ensures forall k :: 0 <= k < |rows| && (rows[k].flag == Smps || rows[k].flag == Aps) ==> r[k] == rows[k]
    ensures forall k :: 0 <= k < |rows| && rows[k].flag != Smps && rows[k].flag != Aps ==>
      r[k] == rows[k].(dndlogd := DensityOf(density, rows[k]))
  {
    seq(|rows|, k requires 0 <= k < |rows| =>
      if rows[k].flag == Smps || rows[k].flag == Aps then rows[k]
      else rows[k].(dndlogd := DensityOf(density, rows[k])))
  }

  /** The edges of the gap grid, from the largest smps upper edge to the smallest aps lower
      edge, at the bridge resolution of the two instruments. */
  function GapGrid(axis: LogAxis, smps: seq<Bin>, aps: seq<Bin>): (r: Result<(seq<real>, seq<real>)>)
    requires axis.Valid() && WellFormed(smps) && WellFormed(aps) && |smps| > 0 && |aps| > 0
    requires MaxOf(Uppers(smps)) < MinOf(Lowers(aps))
    ensures r.Err? ==> r.error == NonFiniteBinCount || r.error == NoGapBins
    ensures r.Ok? ==> IsGapGrid(r.value.0, r.value.1, MaxOf(Uppers(smps)), MinOf(Lowers(aps)))
  {
    var xStart, xEnd := MaxOf(Uppers(smps)), MinOf(Lowers(aps));
    assert WellFormedBin(smps[0]);
    var res := InterpolResolution(ChannelResolution(axis, smps), ChannelResolution(axis, aps));
    BinBoundariesInInterval(axis, xStart, xEnd, res)
  }

  /** The distributions with the gap bins added, sorted by centre. */
  function GapTable(smps: seq<Bin>, aps: seq<Bin>, grid: (seq<real>, seq<real>)): (r: seq<Bin>)
    requires |grid.0| == |grid.1|
    ensures SortedByDpes(r)
    ensures multiset(r) == multiset(smps + aps + GapBins(grid.0, grid.1))
    ensures |r| == |smps| + |aps| + |grid.0|
  {
    SortByDpes(smps + aps + GapBins(grid.0, grid.1))
  }

  /** The gap path: the grid, the sorted table with the gap bins, the gap interpolation of
      the density and the counts recomputed from the densities. */
  function FillGap(axis: LogAxis, smps: seq<Bin>, aps: seq<Bin>): (r: Result<seq<Bin>>)
    requires axis.Valid() && WellFormed(smps) && WellFormed(aps) && |smps| > 0 && |aps| > 0
    requires MaxOf(Uppers(smps)) < MinOf(Lowers(aps))
    ensures GapGrid(axis, smps, aps).Err? ==> r == Err(GapGrid(axis, smps, aps).error)
    ensures r.Ok? ==>
      GapGrid(axis, smps, aps).Ok? && |r.value| == |smps| + |aps| + |GapGrid(axis, smps, aps).value.0|
  {
    var grid :- GapGrid(axis, smps, aps);
    var filled :- GapFilled(GapTable(smps, aps, grid), EdgeAverageWindow);
    Ok(DnFromDensity(axis, filled))
  }

  /** Every row is flagged `f`. */
  predicate Tagged(rows: seq<Bin>, f: Flag) {
    forall k :: 0 <= k < |rows| ==> rows[k].flag == f
  }

  /** Tagging changes nothing but the flag. */
  lemma TagKeepsEdges(rows: seq<Bin>, f: Flag)
    ensures Tagged(Tag(rows, f), f)
    ensures Uppers(Tag(rows, f)) == Uppers(rows) && Lowers(Tag(rows, f)) == Lowers(rows)
    ensures WellFormed(rows) ==> WellFormed(Tag(rows, f))
  {
    var t := Tag(rows, f);
    assert forall k :: 0 <= k < |rows| ==> Uppers(t)[k] == Uppers(rows)[k];
    assert forall k :: 0 <= k < |rows| ==> Lowers(t)[k] == Lowers(rows)[k];
  }

  lemma ConcatWellFormed(smps: seq<Bin>, aps: seq<Bin>)
    requires WellFormed(smps) && WellFormed(aps)
    ensures WellFormed(smps + aps)
  {
    var t := smps + aps;
    forall k | 0 <= k < |t| ensures WellFormedBin(t[k]) {
      if k < |smps| {
        assert t[k] == smps[k];
      } else {
        assert t[k] == aps[k - |smps|];
      }
    }
  }

  /** The combined distribution as the program computes it: both inputs are tagged first. */
  function Combined(axis: LogAxis, density: (real, real, real) -> real, smpsIn: seq<Bin>, apsIn: seq<Bin>,
                    mergeOverlap: bool, interpolateGap: bool): (r: Result<seq<Bin>>)
    requires axis.Valid() && WellFormed(smpsIn) && WellFormed(apsIn)
    ensures |smpsIn| == 0 || |apsIn| == 0 ==> r == Err(EmptyDistribution)
  {
    TagKeepsEdges(smpsIn, Smps);
    TagKeepsEdges(apsIn, Aps);
    CombineTagged(axis, density, Tag(smpsIn, Smps), Tag(apsIn, Aps), mergeOverlap, interpolateGap)
  }

  /** The combination of two tagged distributions: classify, fill a gap or merge an
      overlap when switched on, then recompute the derived densities. */
  function CombineTagged(axis: LogAxis, density: (real, real, real) -> real, smps: seq<Bin>, aps: seq<Bin>,
                         mergeOverlap: bool, interpolateGap: bool): (r: Result<seq<Bin>>)
    requires axis.Valid() && WellFormed(smps) && WellFormed(aps)
    ensures |smps| == 0 || |aps| == 0 ==> r == Err(EmptyDistribution)
    ensures r.Ok? ==> |r.value| <= |smps| + |aps| || (interpolateGap && MaxOf(Uppers(smps)) < MinOf(Lowers(aps)))
  {
    var flags :- Classify(smps, aps);
    ConcatWellFormed(smps, aps);
    var combined :- if interpolateGap && flags.gap then FillGap(axis, smps, aps) else Ok(smps + aps);
    var merged :- if mergeOverlap && flags.overlap then MergeOverlapSpec(combined) else Ok(combined);
    Ok(RecomputeDensity(density, merged))
  }

  /** The recompute changes nothing in rows that all come from the instruments. */
  lemma RecomputeInstrumentRows(density: (real, real, real) -> real, smps: seq<Bin>, aps: seq<Bin>)
    requires Tagged(smps, Smps) && Tagged(aps, Aps)
    ensures RecomputeDensity(density, smps + aps) == smps + aps
  {
    var t := smps + aps;
    forall k | 0 <= k < |t| ensures t[k].flag == Smps || t[k].flag == Aps {
      if k < |smps| {
        assert t[k] == smps[k];
      } else {
        assert t[k] == aps[k - |smps|];
      }
    }
  }

  /** When neither step runs, because the ranges touch or the step for their case is
      switched off, the result is the two tagged distributions one after the other, smps
      first, not sorted. */
  lemma PassThrough(axis: LogAxis, density: (real, real, real) -> real, smps: seq<Bin>, aps: seq<Bin>,
                    mergeOverlap: bool, interpolateGap: bool)
    requires axis.Valid() && WellFormed(smps) && WellFormed(aps) && Tagged(smps, Smps) && Tagged(aps, Aps)
    requires |smps| > 0 && |aps| > 0
    requires !(interpolateGap && MaxOf(Uppers(smps)) < MinOf(Lowers(aps)))
    requires !(mergeOverlap && MaxOf(Uppers(smps)) > MinOf(Lowers(aps)))
    ensures CombineTagged(axis, density, smps, aps, mergeOverlap, interpolateGap) == Ok(smps + aps)
  {
    RecomputeInstrumentRows(density, smps, aps);
  }

  /** Touching ranges run neither step, whatever the switches say. */
  lemma TouchingPassThrough(axis: LogAxis, density: (real, real, real) -> real, smps: seq<Bin>, aps: seq<Bin>,
                            mergeOverlap: bool, interpolateGap: bool)
    requires axis.Valid() && WellFormed(smps) && WellFormed(aps) && Tagged(smps, Smps) && Tagged(aps, Aps)
    requires |smps| > 0 && |aps| > 0 && MaxOf(Uppers(smps)) == MinOf(Lowers(aps))
    ensures Classify(smps, aps) == Ok(RangeFlags(false, false))
    ensures CombineTagged(axis, density, smps, aps, mergeOverlap, interpolateGap) == Ok(smps + aps)
  {
    PassThrough(axis, density, smps, aps, mergeOverlap, interpolateGap);
  }

  /** A row of the gap table is an smps row, an aps row or a gap bin. */
  lemma GapTableRow(smps: seq<Bin>, aps: seq<Bin>, grid: (seq<real>, seq<real>), b: Bin)
    requires |grid.0| == |grid.1| && b in GapTable(smps, aps, grid)
    ensures b in smps || b in aps || b in GapBins(grid.0, grid.1)
  {
    assert b in multiset(GapTable(smps, aps, grid));
    assert b in multiset(smps + aps + GapBins(grid.0, grid.1));
  }

  /** Every row of the gap table is well-formed. */
  lemma GapTableWellFormed(smps: seq<Bin>, aps: seq<Bin>, grid: (seq<real>, seq<real>), xStart: real, xEnd: real)
    requires WellFormed(smps) && WellFormed(aps) && IsGapGrid(grid.0, grid.1, xStart, xEnd)
    ensures WellFormed(GapTable(smps, aps, grid))
  {
    var table := GapTable(smps, aps, grid);
    GapBinsInsideGap(grid.0, grid.1, xStart, xEnd);
    forall n | 0 <= n < |table| ensures WellFormedBin(table[n]) {
      GapTableRow(smps, aps, grid, table[n]);
    }
  }

  /** An instrument row is somewhere in the gap table. */
  lemma InGapTable(smps: seq<Bin>, aps: seq<Bin>, grid: (seq<real>, seq<real>), b: Bin)
    requires |grid.0| == |grid.1| && (b in smps || b in aps)
    ensures b in GapTable(smps, aps, grid)
  {
    assert b in smps + aps + GapBins(grid.0, grid.1);
    assert b in multiset(smps + aps + GapBins(grid.0, grid.1));
    assert b in multiset(GapTable(smps, aps, grid));
  }

  /** The smps edge of the gap table ends where the smps range ends. */
  lemma SmpsEdgeOfTable(smps: seq<Bin>, aps: seq<Bin>, grid: (seq<real>, seq<real>))
    requires Tagged(smps, Smps) && Tagged(aps, Aps) && |grid.0| == |grid.1| && |smps| > 0
    ensures IdxMaxUpper(GapTable(smps, aps, grid), Smps) >= 0
    ensures GapTable(smps, aps, grid)[IdxMaxUpper(GapTable(smps, aps, grid), Smps)].upper <= MaxOf(Uppers(smps))
  {
    var table := GapTable(smps, aps, grid);
    assert smps[0] in smps;
    InGapTable(smps, aps, grid, smps[0]);
    var i := IdxMaxUpper(table, Smps);
    var b := table[i];
    GapTableRow(smps, aps, grid, b);
    if b in smps {
      var m :| 0 <= m < |smps| && smps[m] == b;
      assert Uppers(smps)[m] == b.upper;
    }
  }

  /** The aps edge of the gap table starts where the aps range starts. */
  lemma ApsEdgeOfTable(smps: seq<Bin>, aps: seq<Bin>, grid: (seq<real>, seq<real>))
    requires Tagged(smps, Smps) && Tagged(aps, Aps) && |grid.0| == |grid.1| && |aps| > 0
    ensures IdxMinLower(GapTable(smps, aps, grid), Aps) >= 0
    ensures MinOf(Lowers(aps)) <= GapTable(smps, aps, grid)[IdxMinLower(GapTable(smps, aps, grid), Aps)].lower
  {
    var table := GapTable(smps, aps, grid);
    assert aps[0] in aps;
    InGapTable(smps, aps, grid, aps[0]);
    var j := IdxMinLower(table, Aps);
    var b := table[j];
    GapTableRow(smps, aps, grid, b);
    if b in aps {
      var m :| 0 <= m < |aps| && aps[m] == b;
      assert Lowers(aps)[m] == b.lower;
    }
  }

  /** The gap interpolation of the gap table always succeeds: the smps edge comes before the
      aps edge. */
  lemma GapTableFills(smps: seq<Bin>, aps: seq<Bin>, grid: (seq<real>, seq<real>))
    requires WellFormed(smps) && WellFormed(aps) && Tagged(smps, Smps) && Tagged(aps, Aps)
    requires |smps| > 0 && |aps| > 0 && MaxOf(Uppers(smps)) < MinOf(Lowers(aps))
    requires IsGapGrid(grid.0, grid.1, MaxOf(Uppers(smps)), MinOf(Lowers(aps)))
    ensures var table := GapTable(smps, aps, grid);
      && WellFormed(table)
      && 0 <= IdxMaxUpper(table, Smps) < IdxMinLower(table, Aps)
      && GapFilled(table, EdgeAverageWindow).Ok?
  {
    var table := GapTable(smps, aps, grid);
    GapTableWellFormed(smps, aps, grid, MaxOf(Uppers(smps)), MinOf(Lowers(aps)));
    SmpsEdgeOfTable(smps, aps, grid);
    ApsEdgeOfTable(smps, aps, grid);
    EdgesInOrder(table, EdgeAverageWindow);
  }

  /** When the gap step runs, it fails only on the bin count of the gap grid. */
  lemma FillGapErrors(axis: LogAxis, smps: seq<Bin>, aps: seq<Bin>)
    requires axis.Valid() && WellFormed(smps) && WellFormed(aps) && Tagged(smps, Smps) && Tagged(aps, Aps)
    requires |smps| > 0 && |aps| > 0 && MaxOf(Uppers(smps)) < MinOf(Lowers(aps))
    ensures FillGap(axis, smps, aps).Ok? <==> GapGrid(axis, smps, aps).Ok?
    ensures FillGap(axis, smps, aps).Err? ==> FillGap(axis, smps, aps) == Err(GapGrid(axis, smps, aps).error)
  {
    var grid := GapGrid(axis, smps, aps);
    if grid.Ok? {
      GapTableFills(smps, aps, grid.value);
    }
  }

  /** Both instruments' rows are in the concatenation. */
  lemma ConcatHasBoth(smps: seq<Bin>, aps: seq<Bin>)
    requires Tagged(smps, Smps) && Tagged(aps, Aps) && |smps| > 0 && |aps| > 0
    ensures FlagRows(smps + aps, Smps) != [] && FlagRows(smps + aps, Aps) != []
  {
    var t := smps + aps;
    assert t[0].flag == Smps;
    assert t[|smps|].flag == Aps;
  }

  /** The combination fails only on an empty input, a gap grid without a finite positive
      bin count, or an ambiguous left edge in the overlap; it fails for want of data exactly
      when one input is empty. */
  lemma CombinedErrors(axis: LogAxis, density: (real, real, real) -> real, smps: seq<Bin>, aps: seq<Bin>,
                       mergeOverlap: bool, interpolateGap: bool)
    requires axis.Valid() && WellFormed(smps) && WellFormed(aps) && Tagged(smps, Smps) && Tagged(aps, Aps)
    ensures var r := CombineTagged(axis, density, smps, aps, mergeOverlap, interpolateGap);
      r.Err? ==> r.error in {EmptyDistribution, NonFiniteBinCount, NoGapBins, AmbiguousLeftEdge}
    ensures CombineTagged(axis, density, smps, aps, mergeOverlap, interpolateGap) == Err(EmptyDistribution)
      <==> |smps| == 0 || |aps| == 0
  {
    if |smps| > 0 && |aps| > 0 {
      if interpolateGap && MaxOf(Uppers(smps)) < MinOf(Lowers(aps)) {
        GapPathErrors(axis, density, smps, aps, mergeOverlap);
      } else if mergeOverlap && MaxOf(Uppers(smps)) > MinOf(Lowers(aps)) {
        MergePathErrors(axis, density, smps, aps, interpolateGap);
      }
    }
  }

  /** When the gap step runs, the combination fails only on the gap grid's bin count. */
  lemma GapPathErrors(axis: LogAxis, density: (real, real, real) -> real, smps: seq<Bin>, aps: seq<Bin>,
                      mergeOverlap: bool)
    requires axis.Valid() && WellFormed(smps) && WellFormed(aps) && Tagged(smps, Smps) && Tagged(aps, Aps)
    requires |smps| > 0 && |aps| > 0 && MaxOf(Uppers(smps)) < MinOf(Lowers(aps))
    ensures var r := CombineTagged(axis, density, smps, aps, mergeOverlap, true);
      r.Err? ==> r.error == NonFiniteBinCount || r.error == NoGapBins
  {
    FillGapErrors(axis, smps, aps);
  }

  /** When the merge step runs, the combination fails only on an ambiguous left edge. */
  lemma MergePathErrors(axis: LogAxis, density: (real, real, real) -> real, smps: seq<Bin>, aps: seq<Bin>,
                        interpolateGap: bool)
    requires axis.Valid() && WellFormed(smps) && WellFormed(aps) && Tagged(smps, Smps) && Tagged(aps, Aps)
    requires |smps| > 0 && |aps| > 0 && MaxOf(Uppers(smps)) > MinOf(Lowers(aps))
    ensures var r := CombineTagged(axis, density, smps, aps, true, interpolateGap);
      r.Err? ==> r.error == AmbiguousLeftEdge
  {
    ConcatWellFormed(smps, aps);
    ConcatHasBoth(smps, aps);
    MergeEmptyIff(smps + aps);
  }

  /** The external conversion from a count to a density undoes the count-from-density
      formula: a count over a bin, as a density, times the bin's width in decades is the
      count again. */
  ghost predicate InvertsCount(axis: LogAxis, density: (real, real, real) -> real) {
    forall n, l, u :: 0.0 < l < u ==> density(n, l, u) * axis.Decades(l, u) == n
  }

  /** A row whose count is its density times its width in decades. */
  predicate Consistent(axis: LogAxis, b: Bin) {
    b.dn == Scale(b.dndlogd, axis.Decades(b.lower, b.upper))
  }

  /** After the counts are recomputed from the densities, a conversion that inverts the
      count formula gives every row back its density: the final recompute changes nothing. */
  lemma RecomputeAfterCounts(axis: LogAxis, density: (real, real, real) -> real, rows: seq<Bin>)
    requires axis.Valid() && WellFormed(rows) && InvertsCount(axis, density)
    ensures RecomputeDensity(density, DnFromDensity(axis, rows)) == DnFromDensity(axis, rows)
    ensures forall k :: 0 <= k < |rows| ==> Consistent(axis, DnFromDensity(axis, rows)[k])
  {
    var d := DnFromDensity(axis, rows);
    forall k | 0 <= k < |rows| ensures DensityOf(density, d[k]) == d[k].dndlogd {
      DensityOfCount(axis, density, d[k]);
    }
  }

  lemma DensityOfCount(axis: LogAxis, density: (real, real, real) -> real, b: Bin)
    requires axis.Valid() && WellFormedBin(b) && InvertsCount(axis, density)
    requires Consistent(axis, b)
    ensures DensityOf(density, b) == b.dndlogd
  {
    if b.dndlogd.Known? {
      var w := axis.Decades(b.lower, b.upper);
      LogIncreasing(axis, b.lower, b.upper);
      var n := b.dn.v;
      assert n == b.dndlogd.v * w;
      assert 0.0 < b.lower < b.upper;
      var x := density(n, b.lower, b.upper);
      assert x * w == n;
      SameQuotient(x, b.dndlogd.v, w, n);
    }
  }

  /** Two reals that give the same product with a positive factor are equal. */
  lemma SameQuotient(x: real, y: real, w: real, n: real)
    requires w > 0.0 && x * w == n && y * w == n
    ensures x == y
  {
    Cancel(x, y, w);
  }

  /** On the gap path, the combination is the final recompute of the filled table; when the
      filling fails, so does the combination, with the same error. */
  lemma GapPathCombine(axis: LogAxis, density: (real, real, real) -> real, smps: seq<Bin>, aps: seq<Bin>,
                       mergeOverlap: bool)
    requires axis.Valid() && WellFormed(smps) && WellFormed(aps)
    requires |smps| > 0 && |aps| > 0 && MaxOf(Uppers(smps)) < MinOf(Lowers(aps))
    ensures FillGap(axis, smps, aps).Ok? ==>
      CombineTagged(axis, density, smps, aps, mergeOverlap, true) == Ok(RecomputeDensity(density, FillGap(axis, smps, aps).value))
    ensures FillGap(axis, smps, aps).Err? ==>
      CombineTagged(axis, density, smps, aps, mergeOverlap, true) == FillGap(axis, smps, aps)
  {
  }

  /** A successful fill is the interpolation of the sorted gap table between its smps edge
      `i` and its aps edge `j`, followed by the count recompute. */
  lemma FillGapParts(axis: LogAxis, smps: seq<Bin>, aps: seq<Bin>)
    returns (grid: (seq<real>, seq<real>), table: seq<Bin>, i: nat, j: nat)
    requires axis.Valid() && WellFormed(smps) && WellFormed(aps) && Tagged(smps, Smps) && Tagged(aps, Aps)
    requires |smps| > 0 && |aps| > 0 && MaxOf(Uppers(smps)) < MinOf(Lowers(aps))
    requires FillGap(axis, smps, aps).Ok?
    ensures GapGrid(axis, smps, aps) == Ok(grid)
    ensures |grid.0| == |grid.1| && IsGapGrid(grid.0, grid.1, MaxOf(Uppers(smps)), MinOf(Lowers(aps)))
    ensures table == GapTable(smps, aps, grid) && WellFormed(table)
    ensures i == IdxMaxUpper(table, Smps) && j == IdxMinLower(table, Aps) && i < j < |table|
    ensures FillGap(axis, smps, aps) == Ok(DnFromDensity(axis, FillInterior(table, i, j, EdgeAverageWindow)))
  {
    grid := GapGrid(axis, smps, aps).value;
    table := GapTable(smps, aps, grid);
    GapTableFills(smps, aps, grid);
    i, j := IdxMaxUpper(table, Smps), IdxMinLower(table, Aps);
  }

  /** The gap filling and the count recompute keep every bin well-formed. */
  lemma FilledWellFormed(axis: LogAxis, table: seq<Bin>, i: nat, j: nat)
    requires WellFormed(table) && i <= j < |table|
    ensures WellFormed(FillInterior(table, i, j, EdgeAverageWindow))
    ensures WellFormed(DnFromDensity(axis, FillInterior(table, i, j, EdgeAverageWindow)))
  {
    var f := FillInterior(table, i, j, EdgeAverageWindow);
    var d := DnFromDensity(axis, f);
    forall k | 0 <= k < |f| ensures WellFormedBin(f[k]) && WellFormedBin(d[k]) {
      assert WellFormedBin(table[k]);
    }
  }

  /** A gap bin of the gap table lies strictly inside the gap. */
  lemma GapRowInside(smps: seq<Bin>, aps: seq<Bin>, grid: (seq<real>, seq<real>), xStart: real, xEnd: real, k: nat)
    requires Tagged(smps, Smps) && Tagged(aps, Aps) && IsGapGrid(grid.0, grid.1, xStart, xEnd)
    requires k < |GapTable(smps, aps, grid)| && GapTable(smps, aps, grid)[k].flag == Interpolated
    ensures xStart < GapTable(smps, aps, grid)[k].dpes < xEnd
  {
    var b := GapTable(smps, aps, grid)[k];
    GapTableRow(smps, aps, grid, b);
    if b in GapBins(grid.0, grid.1) {
      var m :| 0 <= m < |grid.0| && GapBins(grid.0, grid.1)[m] == b;
      GapBinsInsideGap(grid.0, grid.1, xStart, xEnd);
    }
  }

  /** The rows of the gap path, before the final recompute, row by row. */
  lemma FilledRows(axis: LogAxis, table: seq<Bin>, i: nat, j: nat, k: nat)
    requires i <= j < |table| && k < |table|
    ensures var f := DnFromDensity(axis, FillInterior(table, i, j, EdgeAverageWindow))[k];
      && f.dpes == table[k].dpes && f.lower == table[k].lower && f.upper == table[k].upper
      && f.flag == table[k].flag && Consistent(axis, f)
      && ((k <= i || j <= k) ==> f.dndlogd == table[k].dndlogd)
      && (i < k < j ==> f.dndlogd == InterpolateAt(Centres(table[i..j + 1]), AnchoredDensities(table, i, j, EdgeAverageWindow), k - i))
  {
  }

  /** The result of the gap path, before it becomes the combination: the sorted gap table
      holds the input rows and one row per gap bin, and the recomputed fill keeps that table's
      bins and order, fills only between the two edges and leaves instrument densities as
      `FilledFrom` says. */
  lemma GapFillResult(axis: LogAxis, density: (real, real, real) -> real, smps: seq<Bin>, aps: seq<Bin>)
    returns (grid: (seq<real>, seq<real>), table: seq<Bin>, i: nat, j: nat)
    requires axis.Valid() && WellFormed(smps) && WellFormed(aps) && Tagged(smps, Smps) && Tagged(aps, Aps)
    requires |smps| > 0 && |aps| > 0 && MaxOf(Uppers(smps)) < MinOf(Lowers(aps))
    requires FillGap(axis, smps, aps).Ok?
    ensures GapGrid(axis, smps, aps) == Ok(grid) && table == GapTable(smps, aps, grid)
    ensures i == IdxMaxUpper(table, Smps) && j == IdxMinLower(table, Aps) && i < j < |table|
    ensures |table| == |smps| + |aps| + |grid.0|
    ensures FilledFrom(axis, table, i, j, MaxOf(Uppers(smps)), MinOf(Lowers(aps)),
                       RecomputeDensity(density, FillGap(axis, smps, aps).value))
  {
    grid, table, i, j := FillGapParts(axis, smps, aps);
    GapTableBounds(smps, aps, grid, table);
    FilledTable(axis, density, table, i, j, MaxOf(Uppers(smps)), MinOf(Lowers(aps)),
                RecomputeDensity(density, FillGap(axis, smps, aps).value));
  }

  /** The gap table holds every input row and gap bin; its smps edge ends at or below the gap's
      start, its aps edge starts at or above the gap's end, and its gap bins lie inside the gap. */
  lemma GapTableBounds(smps: seq<Bin>, aps: seq<Bin>, grid: (seq<real>, seq<real>), table: seq<Bin>)
    requires Tagged(smps, Smps) && Tagged(aps, Aps) && |smps| > 0 && |aps| > 0
    requires |grid.0| == |grid.1| && IsGapGrid(grid.0, grid.1, MaxOf(Uppers(smps)), MinOf(Lowers(aps)))
    requires table == GapTable(smps, aps, grid)
    ensures |table| == |smps| + |aps| + |grid.0|
    ensures IdxMaxUpper(table, Smps) >= 0 && table[IdxMaxUpper(table, Smps)].upper <= MaxOf(Uppers(smps))
    ensures IdxMinLower(table, Aps) >= 0 && MinOf(Lowers(aps)) <= table[IdxMinLower(table, Aps)].lower
    ensures forall k :: 0 <= k < |table| && table[k].flag == Interpolated ==>
              MaxOf(Uppers(smps)) < table[k].dpes < MinOf(Lowers(aps))
  {
    assert |multiset(table)| == |smps + aps + GapBins(grid.0, grid.1)|;
    SmpsEdgeOfTable(smps, aps, grid);
    ApsEdgeOfTable(smps, aps, grid);
    var xStart, xEnd := MaxOf(Uppers(smps)), MinOf(Lowers(aps));
    forall k | 0 <= k < |table| && table[k].flag == Interpolated ensures xStart < table[k].dpes < xEnd {
      GapRowInside(smps, aps, grid, xStart, xEnd, k);
    }
  }

  /** Two rows with the same centre, edges and flag. */
  predicate SameGeometry(b: Bin, c: Bin) {
    b.dpes == c.dpes && b.lower == c.lower && b.upper == c.upper && b.flag == c.flag
  }

  /** `r` is the gap path's result on the sorted `table` with smps edge `i` and aps edge `j`, for
      the gap from `xStart` to `xEnd`: row for row the same bins in the same order, sorted and
      well-formed; the gap bins lie between the two edges and inside the gap; every instrument
      row's count agrees with its density, and the density of an instrument row is kept unless
      it was missing and the row lies strictly between the edges. */
  ghost predicate FilledFrom(axis: LogAxis, table: seq<Bin>, i: nat, j: nat, xStart: real, xEnd: real, r: seq<Bin>) {
    && |r| == |table| && SortedByDpes(r) && WellFormed(r)
    && (forall k :: 0 <= k < |r| ==> SameGeometry(r[k], table[k]))
    && (forall k :: 0 <= k < |r| && table[k].flag == Interpolated ==> i < k < j && xStart < r[k].dpes < xEnd)
    && (forall k :: 0 <= k < |r| && (table[k].flag == Smps || table[k].flag == Aps) ==>
          Consistent(axis, r[k])
          && ((k <= i || j <= k || table[k].dndlogd.Known?) ==> r[k].dndlogd == table[k].dndlogd))
  }

  /** The gap path on a sorted table whose gap bins lie strictly between the smps edge's
      upper edge and the aps edge's lower edge. */
  lemma FilledTable(axis: LogAxis, density: (real, real, real) -> real, table: seq<Bin>, i: nat, j: nat,
                    xStart: real, xEnd: real, r: seq<Bin>)
    requires SortedByDpes(table) && WellFormed(table)
    requires i == IdxMaxUpper(table, Smps) && j == IdxMinLower(table, Aps) && i < j < |table|
    requires table[i].upper <= xStart && xEnd <= table[j].lower
    requires forall k :: 0 <= k < |table| && table[k].flag == Interpolated ==> xStart < table[k].dpes < xEnd
    requires r == RecomputeDensity(density, DnFromDensity(axis, FillInterior(table, i, j, EdgeAverageWindow)))
    ensures FilledFrom(axis, table, i, j, xStart, xEnd, r)
  {
    forall k | 0 <= k < |r|
      ensures SameGeometry(r[k], table[k]) && WellFormedBin(r[k])
      ensures table[k].flag == Interpolated ==> i < k < j && xStart < r[k].dpes < xEnd
      ensures (table[k].flag == Smps || table[k].flag == Aps) ==>
        Consistent(axis, r[k]) && ((k <= i || j <= k || table[k].dndlogd.Known?) ==> r[k].dndlogd == table[k].dndlogd)
    {
      FilledRow(axis, density, table, i, j, k);
      if table[k].flag == Interpolated {
        GapRowsBetweenEdges(table, k);
      }
    }
    SameGeometrySorted(table, r);
  }

  lemma SameGeometrySorted(table: seq<Bin>, r: seq<Bin>)
    requires SortedByDpes(table) && |r| == |table|
    requires forall k :: 0 <= k < |r| ==> SameGeometry(r[k], table[k])
    ensures SortedByDpes(r)
  {
    forall a, b | 0 <= a < b < |r| ensures r[a].dpes <= r[b].dpes {
      assert SameGeometry(r[a], table[a]) && SameGeometry(r[b], table[b]);
    }
  }

  /** One row of the gap path after the final recompute. */
  lemma FilledRow(axis: LogAxis, density: (real, real, real) -> real, table: seq<Bin>, i: nat, j: nat, k: nat)
    requires WellFormed(table) && i < j < |table| && k < |table|
    ensures var r := RecomputeDensity(density, DnFromDensity(axis, FillInterior(table, i, j, EdgeAverageWindow)));
      && |r| == |table| && SameGeometry(r[k], table[k]) && WellFormedBin(r[k])
      && ((table[k].flag == Smps || table[k].flag == Aps) ==>
            Consistent(axis, r[k])
            && ((k <= i || j <= k || table[k].dndlogd.Known?) ==> r[k].dndlogd == table[k].dndlogd))
  {
    FilledRows(axis, table, i, j, k);
    assert WellFormedBin(table[k]);
    if i < k < j && table[k].dndlogd.Known? {
      assert AnchoredDensities(table, i, j, EdgeAverageWindow)[k - i] == table[k].dndlogd;
    }
  }

  /** With a conversion that inverts the count formula, the final recompute changes nothing
      on the gap path, and every row's count is its density times its width in decades. */
  lemma GapPathRecomputeIdle(axis: LogAxis, density: (real, real, real) -> real, smps: seq<Bin>, aps: seq<Bin>,
                             mergeOverlap: bool)
    requires axis.Valid() && WellFormed(smps) && WellFormed(aps) && Tagged(smps, Smps) && Tagged(aps, Aps)
    requires |smps| > 0 && |aps| > 0 && MaxOf(Uppers(smps)) < MinOf(Lowers(aps))
    requires InvertsCount(axis, density)
    ensures CombineTagged(axis, density, smps, aps, mergeOverlap, true) == FillGap(axis, smps, aps)
    ensures var g := FillGap(axis, smps, aps);
      g.Ok? ==> forall k :: 0 <= k < |g.value| ==> Consistent(axis, g.value[k])
  {
    GapPathCombine(axis, density, smps, aps, mergeOverlap);
    if FillGap(axis, smps, aps).Ok? {
      var grid, table, i, j := FillGapParts(axis, smps, aps);
      FilledWellFormed(axis, table, i, j);
      RecomputeAfterCounts(axis, density, FillInterior(table, i, j, EdgeAverageWindow));
    }
  }

  /** A row of the gap table flagged `interpolated` is a gap bin, which has no density yet. */
  lemma GapRowMissing(smps: seq<Bin>, aps: seq<Bin>, grid: (seq<real>, seq<real>), table: seq<Bin>, m: nat)
    requires Tagged(smps, Smps) && Tagged(aps, Aps) && |grid.0| == |grid.1|
    requires table == GapTable(smps, aps, grid) && m < |table| && table[m].flag == Interpolated
    ensures table[m].dndlogd.Missing?
  {
    GapTableRow(smps, aps, grid, table[m]);
    assert table[m] !in smps && table[m] !in aps;
    var g := GapBins(grid.0, grid.1);
    var n :| 0 <= n < |g| && g[n] == table[m];
  }

  /** With only gap bins between the two edges, every inner row of the filled table lies on
      the straight line in `dpes` between the two smoothed anchors. */
  lemma FilledLine(axis: LogAxis, table: seq<Bin>, i: nat, j: nat, k: nat, f: seq<Bin>)
    requires SortedByDpes(table) && i < k < j < |table|
    requires forall m :: i < m < j ==> table[m].dndlogd.Missing?
    requires MeanOfKnown(WindowDensities(table, i - EdgeAverageWindow, i)).Known?
    requires MeanOfKnown(WindowDensities(table, j, j + EdgeAverageWindow)).Known?
    requires f == DnFromDensity(axis, FillInterior(table, i, j, EdgeAverageWindow))
    ensures var lo := MeanOfKnown(WindowDensities(table, i - EdgeAverageWindow, i)).v;
      var hi := MeanOfKnown(WindowDensities(table, j, j + EdgeAverageWindow)).v;
      && |f| == |table|
      && f[k].dndlogd == Known(Lerp(table[i].dpes, lo, table[j].dpes, hi, table[k].dpes))
      && (lo <= hi ==> lo <= f[k].dndlogd.v <= hi)
      && (hi <= lo ==> hi <= f[k].dndlogd.v <= lo)
  {
    InteriorBetweenAnchors(table, i, j, EdgeAverageWindow, k);
  }

  /** The gap path end to end: when only gap bins lie between the two edges and the density
      conversion inverts the count formula, every gap bin of the combined result carries the
      straight line in `dpes` between the two smoothed anchors, so its density lies between
      them. */
  lemma GapInteriorOnLine(axis: LogAxis, density: (real, real, real) -> real, smps: seq<Bin>, aps: seq<Bin>,
                          mergeOverlap: bool, table: seq<Bin>, i: nat, j: nat, k: nat)
    requires axis.Valid() && WellFormed(smps) && WellFormed(aps) && Tagged(smps, Smps) && Tagged(aps, Aps)
    requires |smps| > 0 && |aps| > 0 && MaxOf(Uppers(smps)) < MinOf(Lowers(aps))
    requires InvertsCount(axis, density)
    requires GapGrid(axis, smps, aps).Ok? && table == GapTable(smps, aps, GapGrid(axis, smps, aps).value)
    requires i == IdxMaxUpper(table, Smps) && j == IdxMinLower(table, Aps) && i < k < j < |table|
    requires forall m :: i < m < j ==> table[m].flag == Interpolated
    requires MeanOfKnown(WindowDensities(table, i - EdgeAverageWindow, i)).Known?
    requires MeanOfKnown(WindowDensities(table, j, j + EdgeAverageWindow)).Known?
    ensures var r := CombineTagged(axis, density, smps, aps, mergeOverlap, true);
      var lo := MeanOfKnown(WindowDensities(table, i - EdgeAverageWindow, i)).v;
      var hi := MeanOfKnown(WindowDensities(table, j, j + EdgeAverageWindow)).v;
      && r.Ok? && |r.value| == |table|
      && r.value[k].dndlogd == Known(Lerp(table[i].dpes, lo, table[j].dpes, hi, table[k].dpes))
      && (lo <= hi ==> lo <= r.value[k].dndlogd.v <= hi)
      && (hi <= lo ==> hi <= r.value[k].dndlogd.v <= lo)
  {
    var grid := GapGrid(axis, smps, aps).value;
    forall m | i < m < j ensures table[m].dndlogd.Missing? {
      GapRowMissing(smps, aps, grid, table, m);
    }
    FillGapErrors(axis, smps, aps);
    GapPathRecomputeIdle(axis, density, smps, aps, mergeOverlap);
    var grid', table', i', j' := FillGapParts(axis, smps, aps);
    FilledLine(axis, table, i, j, k, FillGap(axis, smps, aps).value);
  }

  /** The recompute leaves instrument rows where they are and as they are. */
  lemma RecomputeRow(density: (real, real, real) -> real, rows: seq<Bin>, b: Bin)
    ensures (b.flag == Smps || b.flag == Aps) ==> (b in RecomputeDensity(density, rows) <==> b in rows)
    ensures b in RecomputeDensity(density, rows) ==> exists k :: 0 <= k < |rows| && SameGeometry(b, rows[k])
  {
    var r := RecomputeDensity(density, rows);
    if b in r {
      var k :| 0 <= k < |r| && r[k] == b;
      assert SameGeometry(b, rows[k]);
    }
    if b in rows && (b.flag == Smps || b.flag == Aps) {
      var k :| 0 <= k < |rows| && rows[k] == b;
      assert r[k] == b;
    }
  }

  /** When the merge step runs and succeeds, the result is the merged distribution with the
      derived densities recomputed. */
  lemma MergePathParts(axis: LogAxis, density: (real, real, real) -> real, smps: seq<Bin>, aps: seq<Bin>,
                       interpolateGap: bool)
    requires axis.Valid() && WellFormed(smps) && WellFormed(aps)
    requires |smps| > 0 && |aps| > 0 && MaxOf(Uppers(smps)) > MinOf(Lowers(aps))
    requires CombineTagged(axis, density, smps, aps, true, interpolateGap).Ok?
    ensures WellFormed(smps + aps) && MergeOverlapSpec(smps + aps).Ok?
    ensures CombineTagged(axis, density, smps, aps, true, interpolateGap).value
      == RecomputeDensity(density, MergeOverlapSpec(smps + aps).value)
  {
    ConcatWellFormed(smps, aps);
  }

  /** The result of the merge path: sorted by centre and well-formed; its smps and aps rows
      are rows of the inputs, unchanged, and no smps row reaches into an aps row; every
      other row is `merged`, with the density of its count. Smps rows below the aps range
      and aps rows that no smps row intersects are all still there. */
  lemma MergePathResult(axis: LogAxis, density: (real, real, real) -> real, smps: seq<Bin>, aps: seq<Bin>,
                        interpolateGap: bool)
    requires axis.Valid() && WellFormed(smps) && WellFormed(aps) && Tagged(smps, Smps) && Tagged(aps, Aps)
    requires |smps| > 0 && |aps| > 0 && MaxOf(Uppers(smps)) > MinOf(Lowers(aps))
    requires CombineTagged(axis, density, smps, aps, true, interpolateGap).Ok?
    ensures var r := CombineTagged(axis, density, smps, aps, true, interpolateGap).value;
      && SortedByDpes(r) && WellFormed(r)
      && (forall b :: b in r && b.flag != Merged ==> (b.flag == Smps || b.flag == Aps) && b in smps + aps)
      && (forall b :: b in r && b.flag == Merged ==> b.dndlogd == DensityOf(density, b))
      && (forall b, c :: b in r && c in r && b.flag == Smps && c.flag == Aps ==> b.upper <= c.lower)
      && (forall b :: b in smps && b.upper <= MinOf(Lowers(aps)) ==> b in r)
      && (forall c :: c in aps && (forall b :: b in smps ==> !Intersect(b, c)) ==> c in r)
  {
    MergePathParts(axis, density, smps, aps, interpolateGap);
    ConcatFlags(smps, aps);
    MergeResultShape(density, smps + aps);
    MergeResultRows(density, smps + aps);
    MergeKeepsOutside(density, smps, aps);
  }

  /** The concatenation's rows are flagged smps or aps. */
  lemma ConcatFlags(smps: seq<Bin>, aps: seq<Bin>)
    requires Tagged(smps, Smps) && Tagged(aps, Aps)
    ensures forall k :: 0 <= k < |smps + aps| ==> (smps + aps)[k].flag == Smps || (smps + aps)[k].flag == Aps
  {
    var t := smps + aps;
    forall k | 0 <= k < |t| ensures t[k].flag == Smps || t[k].flag == Aps {
      if k < |smps| {
        assert t[k] == smps[k];
      } else {
        assert t[k] == aps[k - |smps|];
      }
    }
  }

  /** The merge path's result is sorted and well-formed, with the flags of the merge. */
  lemma MergeResultShape(density: (real, real, real) -> real, t: seq<Bin>)
    requires WellFormed(t) && MergeOverlapSpec(t).Ok?
    requires forall k :: 0 <= k < |t| ==> t[k].flag == Smps || t[k].flag == Aps
    ensures var r := RecomputeDensity(density, MergeOverlapSpec(t).value);
      && SortedByDpes(r) && WellFormed(r)
  {
    MergedWellFormed(t);
    RecomputeShape(density, MergeOverlapSpec(t).value);
  }

  /** The recompute keeps order and well-formedness. */
  lemma RecomputeShape(density: (real, real, real) -> real, rows: seq<Bin>)
    requires SortedByDpes(rows) && WellFormed(rows)
    ensures SortedByDpes(RecomputeDensity(density, rows)) && WellFormed(RecomputeDensity(density, rows))
  {
    var r := RecomputeDensity(density, rows);
    forall k | 0 <= k < |r| ensures SameGeometry(r[k], rows[k]) && WellFormedBin(r[k]) {
      assert WellFormedBin(rows[k]);
    }
    SameGeometrySorted(rows, r);
  }

  /** Each row of the merge path's result is an input row, unchanged, or a `merged` row with
      the density of its count; no smps row of it reaches into an aps row of it. */
  lemma MergeResultRows(density: (real, real, real) -> real, t: seq<Bin>)
    requires WellFormed(t) && MergeOverlapSpec(t).Ok?
    requires forall k :: 0 <= k < |t| ==> t[k].flag == Smps || t[k].flag == Aps
    ensures var r := RecomputeDensity(density, MergeOverlapSpec(t).value);
      && (forall b :: b in r && b.flag != Merged ==> (b.flag == Smps || b.flag == Aps) && b in t)
      && (forall b :: b in r && b.flag == Merged ==> b.dndlogd == DensityOf(density, b))
      && (forall b, c :: b in r && c in r && b.flag == Smps && c.flag == Aps ==> b.upper <= c.lower)
  {
    var m := MergeOverlapSpec(t).value;
    var r := RecomputeDensity(density, m);
    forall b | b in r ensures b.flag != Merged ==> (b.flag == Smps || b.flag == Aps) && b in t
      ensures b.flag == Merged ==> b.dndlogd == DensityOf(density, b)
    {
      MergeResultRow(density, t, b);
    }
    forall b, c | b in r && c in r && b.flag == Smps && c.flag == Aps ensures b.upper <= c.lower {
      RecomputeRow(density, m, b);
      RecomputeRow(density, m, c);
      OverlapResolved(t, b, c);
    }
  }

  lemma MergeResultRow(density: (real, real, real) -> real, t: seq<Bin>, b: Bin)
    requires WellFormed(t) && MergeOverlapSpec(t).Ok?
    requires forall k :: 0 <= k < |t| ==> t[k].flag == Smps || t[k].flag == Aps
    requires b in RecomputeDensity(density, MergeOverlapSpec(t).value)
    ensures b.flag != Merged ==> (b.flag == Smps || b.flag == Aps) && b in t
    ensures b.flag == Merged ==> b.dndlogd == DensityOf(density, b)
  {
    var m := MergeOverlapSpec(t).value;
    var k := RecomputedAt(density, m, b);
    var j := MergedRowOrigin(t, m[k]);
    RecomputedOrigin(density, t, j, m[k], b);
  }

  /** A recomputed row whose unrecomputed row `x` is the input row `t[j]` or a `merged` row. */
  lemma RecomputedOrigin(density: (real, real, real) -> real, t: seq<Bin>, j: nat, x: Bin, b: Bin)
    requires j < |t| && (t[j].flag == Smps || t[j].flag == Aps)
    requires x == t[j] || x.flag == Merged
    requires (x.flag == Smps || x.flag == Aps) ==> b == x
    requires (x.flag != Smps && x.flag != Aps) ==> b == x.(dndlogd := DensityOf(density, x))
    ensures b.flag != Merged ==> (b.flag == Smps || b.flag == Aps) && b in t
    ensures b.flag == Merged ==> b.dndlogd == DensityOf(density, b)
  {
  }

  /** A row of the recomputed rows, at its position. */
  lemma RecomputedAt(density: (real, real, real) -> real, rows: seq<Bin>, b: Bin) returns (k: nat)
    requires b in RecomputeDensity(density, rows)
    ensures k < |rows| && RecomputeDensity(density, rows)[k] == b
    ensures (rows[k].flag == Smps || rows[k].flag == Aps) ==> b == rows[k]
    ensures (rows[k].flag != Smps && rows[k].flag != Aps) ==> b == rows[k].(dndlogd := DensityOf(density, rows[k]))
  {
    var r := RecomputeDensity(density, rows);
    k :| 0 <= k < |r| && r[k] == b;
  }

  /** Rows outside the overlap survive the merge path. */
  lemma MergeKeepsOutside(density: (real, real, real) -> real, smps: seq<Bin>, aps: seq<Bin>)
    requires WellFormed(smps) && WellFormed(aps) && Tagged(smps, Smps) && Tagged(aps, Aps)
    requires |smps| > 0 && |aps| > 0
    requires WellFormed(smps + aps) && MergeOverlapSpec(smps + aps).Ok?
    ensures var r := RecomputeDensity(density, MergeOverlapSpec(smps + aps).value);
      && (forall b :: b in smps && b.upper <= MinOf(Lowers(aps)) ==> b in r)
      && (forall c :: c in aps && (forall b :: b in smps ==> !Intersect(b, c)) ==> c in r)
  {
    forall b | b in smps && b.upper <= MinOf(Lowers(aps))
      ensures b in RecomputeDensity(density, MergeOverlapSpec(smps + aps).value)
    {
      var k :| 0 <= k < |smps| && smps[k] == b;
      LowSmpsKept(density, smps, aps, k);
    }
    forall c | c in aps && (forall b :: b in smps ==> !Intersect(b, c))
      ensures c in RecomputeDensity(density, MergeOverlapSpec(smps + aps).value)
    {
      var k :| 0 <= k < |aps| && aps[k] == c;
      UntouchedApsSurvives(density, smps, aps, k);
    }
  }

  lemma LowSmpsKept(density: (real, real, real) -> real, smps: seq<Bin>, aps: seq<Bin>, k: nat)
    requires WellFormed(smps) && WellFormed(aps) && Tagged(smps, Smps) && Tagged(aps, Aps)
    requires |smps| > 0 && |aps| > 0
    requires WellFormed(smps + aps) && MergeOverlapSpec(smps + aps).Ok?
    requires k < |smps| && smps[k].upper <= MinOf(Lowers(aps))
    ensures smps[k] in RecomputeDensity(density, MergeOverlapSpec(smps + aps).value)
  {
    var t := smps + aps;
    assert t[k] == smps[k];
    ApsLowerOfConcat(smps, aps);
    OutsideOverlapKept(t, k);
    RecomputeRow(density, MergeOverlapSpec(t).value, smps[k]);
  }

  lemma UntouchedApsSurvives(density: (real, real, real) -> real, smps: seq<Bin>, aps: seq<Bin>, k: nat)
    requires WellFormed(smps) && WellFormed(aps) && Tagged(smps, Smps) && Tagged(aps, Aps)
    requires WellFormed(smps + aps) && MergeOverlapSpec(smps + aps).Ok?
    requires k < |aps| && forall b :: b in smps ==> !Intersect(b, aps[k])
    ensures aps[k] in RecomputeDensity(density, MergeOverlapSpec(smps + aps).value)
  {
    UntouchedApsMerged(smps, aps, k, smps + aps);
    RecomputeRow(density, MergeOverlapSpec(smps + aps).value, aps[k]);
  }

  /** The merge keeps an aps row that no smps row intersects. */
  lemma UntouchedApsMerged(smps: seq<Bin>, aps: seq<Bin>, k: nat, t: seq<Bin>)
    requires t == smps + aps && Tagged(aps, Aps) && WellFormed(t) && MergeOverlapSpec(t).Ok?
    requires k < |aps| && forall b :: b in smps ==> !Intersect(b, aps[k])
    ensures aps[k] in MergeOverlapSpec(t).value
  {
    ConcatUntouched(smps, aps, k, t);
    UntouchedApsKept(t, |smps| + k, aps[k]);
  }

  /** An aps row that no smps row intersects, at its label in the concatenation. */
  lemma ConcatUntouched(smps: seq<Bin>, aps: seq<Bin>, k: nat, t: seq<Bin>)
    requires t == smps + aps
    requires Tagged(aps, Aps) && k < |aps| && forall b :: b in smps ==> !Intersect(b, aps[k])
    ensures var n := |smps| + k;
      && n < |t| && t[n] == aps[k]
      && forall m :: 0 <= m < |t| && t[m].flag == Smps ==> !Intersect(t[m], t[n])
  {
    var n := |smps| + k;
    forall m | 0 <= m < |t| && t[m].flag == Smps ensures !Intersect(t[m], t[n]) {
      ConcatSmpsRow(smps, aps, m);
      assert smps[m] in smps;
    }
  }

  /** In the concatenation, no aps row starts below the aps input's smallest lower edge. */
  lemma ApsLowerOfConcat(smps: seq<Bin>, aps: seq<Bin>)
    requires Tagged(smps, Smps) && Tagged(aps, Aps) && |smps| > 0 && |aps| > 0
    ensures FlagRows(smps + aps, Aps) != [] && MinOf(Lowers(aps)) <= MinLowerOf(smps + aps, Aps)
  {
    ConcatHasBoth(smps, aps);
    var k := LowestApsRow(smps + aps);
    var a := ConcatApsRow(smps, aps, k);
    assert Lowers(aps)[a] == aps[a].lower;
  }

  /** An smps row of the concatenation is a row of the smps input. */
  lemma ConcatSmpsRow(smps: seq<Bin>, aps: seq<Bin>, m: nat)
    requires Tagged(aps, Aps) && m < |smps + aps| && (smps + aps)[m].flag == Smps
    ensures m < |smps| && (smps + aps)[m] == smps[m]
  {
  }

  /** An aps row of the concatenation is a row of the aps input. */
  lemma ConcatApsRow(smps: seq<Bin>, aps: seq<Bin>, k: nat) returns (a: nat)
    requires Tagged(smps, Smps) && k < |smps + aps| && (smps + aps)[k].flag == Aps
    ensures a < |aps| && a == k - |smps| && (smps + aps)[k] == aps[a]
  {
    a := k - |smps|;
  }

  /** A size distribution held by the caller, whose rows the program changes in place. */
  class Frame {
    var rows: seq<Bin>

    constructor (rows0: seq<Bin>)
      ensures rows == rows0
    {
      rows := rows0;
    }
  }

  /** combine_SMPS_APS_sd as the program runs it: the caller's two frames are tagged in
      place, then the combined distribution is built step by step. */
  method CombineSmpsApsSd(axis: LogAxis, density: (real, real, real) -> real, sdAps: Frame, sdSmps: Frame,
                          mergeOverlap: bool, interpolateGap: bool) returns (r: Result<seq<Bin>>)
    requires sdAps != sdSmps
    requires axis.Valid() && WellFormed(sdAps.rows) && WellFormed(sdSmps.rows)
    modifies sdAps, sdSmps
    ensures sdAps.rows == Tag(old(sdAps.rows), Aps) && sdSmps.rows == Tag(old(sdSmps.rows), Smps)
    ensures r == Combined(axis, density, old(sdSmps.rows), old(sdAps.rows), mergeOverlap, interpolateGap)
  {
    ghost var smpsIn, apsIn := sdSmps.rows, sdAps.rows;
    TagKeepsEdges(smpsIn, Smps);
    TagKeepsEdges(apsIn, Aps);
    sdAps.rows := Tag(sdAps.rows, Aps);
    sdSmps.rows := Tag(sdSmps.rows, Smps);
    var sdCombined := sdSmps.rows + sdAps.rows;
    if |sdSmps.rows| == 0 || |sdAps.rows| == 0 {
      return Err(EmptyDistribution);
    }
    var flagOverlap := MaxOf(Uppers(sdSmps.rows)) > MinOf(Lowers(sdAps.rows));
    var flagGap := MaxOf(Uppers(sdSmps.rows)) < MinOf(Lowers(sdAps.rows));
    if interpolateGap && flagGap {
      var bounds := GapGrid(axis, sdSmps.rows, sdAps.rows);
      if bounds.Err? {
        return Err(bounds.error);
      }
      sdCombined := GapTable(sdSmps.rows, sdAps.rows, bounds.value);
      var filled := InterpolateDndlogdGap(sdCombined, EdgeAverageWindow);
      if filled.Err? {
        return Err(filled.error);
      }
      sdCombined := DnFromDensity(axis, filled.value);
    }
    if mergeOverlap && flagOverlap {
      var merged := MergeOverlap(sdCombined);
      if merged.Err? {
        return Err(merged.error);
      }
      sdCombined := merged.value;
    }
    return Ok(RecomputeDensity(density, sdCombined));
  }
}
