/** Merging the overlap of the two instruments: every smps bin that reaches into the aps
    range is folded into the one or two aps bins it touches, by one of three rules
    (left edge, contained, straddle). Then all those smps bins are dropped and the rows
    are sorted by centre. */
module OverlapMerge {
  import opened SizeBins
  import opened Tables

  /** What a merge writes into an aps row: new edges, centre and count. */
  datatype Update = Update(lower: real, upper: real, dpes: real, dn: Measure)

  /** Writes an update into a row, which becomes `merged`; its density is left alone. */
  function Apply(b: Bin, u: Update): (r: Bin)
    ensures r.dndlogd == b.dndlogd && r.flag == Merged
    ensures r.lower == u.lower && r.upper == u.upper && r.dpes == u.dpes && r.dn == u.dn
  {
    Bin(u.dpes, u.lower, u.upper, u.dn, b.dndlogd, Merged)
  }

  /** A later update of the same row replaces an earlier one completely. */
  lemma LaterUpdateWins(b: Bin, u1: Update, u2: Update)
    ensures Apply(Apply(b, u1), u2) == Apply(b, u2)
  {
  }

  /** The left-edge count: the smps part outside the aps bin, the aps part outside the smps
      bin, and the mean of the two instruments' shares of the overlap. */
  function LeftEdgeDn(s: Measure, a: Measure, ws: real, wa: real, smpsOnly: real, ov: real, apsOnly: real): (r: Measure)
    requires ws > 0.0 && wa > 0.0
    ensures r.Known? <==> s.Known? && a.Known?
  {
    if s.Known? && a.Known? then
      Known(s.v * (smpsOnly / ws) + a.v * (apsOnly / wa) + (0.5 * s.v * ov / ws + 0.5 * a.v * ov / wa))
    else Missing
  }

  /** The contained count: the aps part outside the smps bin plus the mean of the aps share
      of the smps bin and the smps count. */
  function ContainedDn(s: Measure, a: Measure, ws: real, wa: real): (r: Measure)
    requires wa > 0.0
    ensures r.Known? <==> s.Known? && a.Known?
  {
    if s.Known? && a.Known? then Known(a.v * (wa - ws) / wa + (a.v * (ws / wa) + s.v) / 2.0)
    else Missing
  }

  /** The straddle count of one of the two aps bins: its part outside the smps bin plus the
      mean of the two instruments' shares of the overlap. */
  function StraddleDn(s: Measure, a: Measure, ws: real, wa: real, apsOnly: real, ov: real): (r: Measure)
    requires ws > 0.0 && wa > 0.0
    ensures r.Known? <==> s.Known? && a.Known?
  {
    if s.Known? && a.Known? then Known(a.v * (apsOnly / wa) + (a.v * (ov / wa) + s.v * (ov / ws)) / 2.0)
    else Missing
  }

  /** The smps bin reaches below every aps bin and into `ab`: the merged bin runs from the
      smps lower edge to the aps upper edge, centred at their arithmetic mean. */
  function LeftEdgeUpdate(sb: Bin, ab: Bin): (u: Update)
    requires WellFormedBin(sb) && WellFormedBin(ab)
    ensures u.lower == sb.lower && u.upper == ab.upper && u.dpes == (sb.lower + ab.upper) / 2.0
  {
    var smpsOnly, ov, apsOnly := ab.lower - sb.lower, sb.upper - ab.lower, ab.upper - sb.upper;
    Update(sb.lower, ab.upper, (sb.lower + ab.upper) / 2.0,
      LeftEdgeDn(sb.dn, ab.dn, Width(sb), Width(ab), smpsOnly, ov, apsOnly))
  }

  /** The smps bin lies inside `ab`, which keeps its edges and centre. */
  function ContainedUpdate(sb: Bin, ab: Bin): (u: Update)
    requires WellFormedBin(sb) && WellFormedBin(ab)
    ensures u.lower == ab.lower && u.upper == ab.upper && u.dpes == ab.dpes
  {
    Update(ab.lower, ab.upper, ab.dpes, ContainedDn(sb.dn, ab.dn, Width(sb), Width(ab)))
  }

  /** The smps bin straddles the upper edge of `ab`, the first of two aps bins. */
  function StraddleFirstUpdate(sb: Bin, ab: Bin): (u: Update)
    requires WellFormedBin(sb) && WellFormedBin(ab)
    ensures u.lower == ab.lower && u.upper == ab.upper && u.dpes == ab.dpes
  {
    var apsOnly, ov := sb.lower - ab.lower, ab.upper - sb.lower;
    Update(ab.lower, ab.upper, ab.dpes, StraddleDn(sb.dn, ab.dn, Width(sb), Width(ab), apsOnly, ov))
  }

  /** The smps bin straddles the lower edge of `ab`, the second of two aps bins. */
  function StraddleSecondUpdate(sb: Bin, ab: Bin): (u: Update)
    requires WellFormedBin(sb) && WellFormedBin(ab)
    ensures u.lower == ab.lower && u.upper == ab.upper && u.dpes == ab.dpes
  {
    var apsOnly, ov := ab.upper - sb.upper, sb.upper - ab.lower;
    Update(ab.lower, ab.upper, ab.dpes, StraddleDn(sb.dn, ab.dn, Width(sb), Width(ab), apsOnly, ov))
  }

  /** Counts that come from one density `d` per unit of diameter: each rule gives the
      merged bin the count of that density over the merged bin's width. */
  lemma LeftEdgeKeepsDensity(sb: Bin, ab: Bin, d: real)
    requires WellFormedBin(sb) && WellFormedBin(ab)
    requires sb.dn == Known(d * Width(sb)) && ab.dn == Known(d * Width(ab))
    ensures LeftEdgeUpdate(sb, ab).dn == Known(d * (ab.upper - sb.lower))
  {
    var ws, wa := Width(sb), Width(ab);
    var smpsOnly, ov, apsOnly := ab.lower - sb.lower, sb.upper - ab.lower, ab.upper - sb.upper;
    ShareOfWidth(d, ws, smpsOnly);
    ShareOfWidth(d, wa, apsOnly);
    HalfShares(d, ws, wa, ov);
    assert smpsOnly + apsOnly + ov == ab.upper - sb.lower;
    assert d * smpsOnly + d * apsOnly + d * ov == d * (ab.upper - sb.lower);
  }

  lemma ContainedKeepsDensity(sb: Bin, ab: Bin, d: real)
    requires WellFormedBin(sb) && WellFormedBin(ab)
    requires sb.dn == Known(d * Width(sb)) && ab.dn == Known(d * Width(ab))
    ensures ContainedUpdate(sb, ab).dn == ab.dn
  {
    var ws, wa := Width(sb), Width(ab);
    ShareOfWidth(d, wa, wa - ws);
    assert d * wa * (wa - ws) / wa == d * wa * ((wa - ws) / wa);
    ShareOfWidth(d, wa, ws);
    assert (d * ws + d * ws) / 2.0 == d * ws;
    assert d * (wa - ws) + d * ws == d * wa;
  }

  lemma StraddleFirstKeepsDensity(sb: Bin, ab: Bin, d: real)
    requires WellFormedBin(sb) && WellFormedBin(ab)
    requires sb.dn == Known(d * Width(sb)) && ab.dn == Known(d * Width(ab))
    ensures StraddleFirstUpdate(sb, ab).dn == ab.dn
  {
    StraddleShares(d, Width(sb), Width(ab), sb.lower - ab.lower, ab.upper - sb.lower);
  }

  lemma StraddleSecondKeepsDensity(sb: Bin, ab: Bin, d: real)
    requires WellFormedBin(sb) && WellFormedBin(ab)
    requires sb.dn == Known(d * Width(sb)) && ab.dn == Known(d * Width(ab))
    ensures StraddleSecondUpdate(sb, ab).dn == ab.dn
  {
    StraddleShares(d, Width(sb), Width(ab), ab.upper - sb.upper, sb.upper - ab.lower);
  }

  lemma StraddleShares(d: real, ws: real, wa: real, apsOnly: real, ov: real)
    requires ws > 0.0 && wa > 0.0 && apsOnly + ov == wa
    ensures StraddleDn(Known(d * ws), Known(d * wa), ws, wa, apsOnly, ov) == Known(d * wa)
  {
    ShareOfWidth(d, wa, apsOnly);
    ShareOfWidth(d, wa, ov);
    ShareOfWidth(d, ws, ov);
    assert (d * ov + d * ov) / 2.0 == d * ov;
    assert d * apsOnly + d * ov == d * wa;
  }

  /** The share of a count `d * w` that falls on a part `p` of the width `w`. */
  lemma ShareOfWidth(d: real, w: real, p: real)
    requires w > 0.0
    ensures d * w * (p / w) == d * p
  {
    assert d * w * (p / w) == d * p * (w / w);
  }

  lemma HalfShares(d: real, ws: real, wa: real, ov: real)
    requires ws > 0.0 && wa > 0.0
    ensures 0.5 * (d * ws) * ov / ws + 0.5 * (d * wa) * ov / wa == d * ov
  {
    assert 0.5 * (d * ws) * ov / ws == 0.5 * d * ov * (ws / ws);
    assert 0.5 * (d * wa) * ov / wa == 0.5 * d * ov * (wa / wa);
  }

  /** Non-negative counts give a non-negative merged count, provided the smps bin starts
      below the aps bin, reaches into it and ends inside it. */
  lemma LeftEdgeNonNegative(sb: Bin, ab: Bin)
    requires WellFormedBin(sb) && WellFormedBin(ab)
    requires sb.dn.Known? && ab.dn.Known? && sb.dn.v >= 0.0 && ab.dn.v >= 0.0
    requires sb.lower <= ab.lower < sb.upper <= ab.upper
    ensures LeftEdgeUpdate(sb, ab).dn.Known? && LeftEdgeUpdate(sb, ab).dn.v >= 0.0
  {
    LeftEdgeParts(sb.dn.v, ab.dn.v, Width(sb), Width(ab), ab.lower - sb.lower, sb.upper - ab.lower, ab.upper - sb.upper);
  }

  lemma LeftEdgeParts(s: real, a: real, ws: real, wa: real, smpsOnly: real, ov: real, apsOnly: real)
    requires s >= 0.0 && a >= 0.0 && ws > 0.0 && wa > 0.0
    requires smpsOnly >= 0.0 && ov >= 0.0 && apsOnly >= 0.0
    ensures LeftEdgeDn(Known(s), Known(a), ws, wa, smpsOnly, ov, apsOnly).v >= 0.0
  {
    NonNegativeShare(s, smpsOnly, ws);
    NonNegativeShare(a, apsOnly, wa);
    NonNegativeShare(0.5 * s, ov, ws);
    NonNegativeShare(0.5 * a, ov, wa);
    assert 0.5 * s * ov / ws == 0.5 * s * (ov / ws);
    assert 0.5 * a * ov / wa == 0.5 * a * (ov / wa);
  }

  /** Non-negative counts give a non-negative merged count when the smps bin is no wider
      than the aps bin. */
  lemma ContainedNonNegative(sb: Bin, ab: Bin)
    requires WellFormedBin(sb) && WellFormedBin(ab)
    requires sb.dn.Known? && ab.dn.Known? && sb.dn.v >= 0.0 && ab.dn.v >= 0.0
    requires Width(sb) <= Width(ab)
    ensures ContainedUpdate(sb, ab).dn.Known? && ContainedUpdate(sb, ab).dn.v >= 0.0
  {
    var s, a, ws, wa := sb.dn.v, ab.dn.v, Width(sb), Width(ab);
    NonNegativeShare(a, wa - ws, wa);
    NonNegativeShare(a, ws, wa);
    assert a * (wa - ws) / wa == a * ((wa - ws) / wa);
  }

  /** Non-negative counts give a non-negative merged count when the overlap lies inside
      the aps bin. */
  lemma StraddleNonNegative(sb: Bin, ab: Bin, apsOnly: real, ov: real)
    requires WellFormedBin(sb) && WellFormedBin(ab)
    requires sb.dn.Known? && ab.dn.Known? && sb.dn.v >= 0.0 && ab.dn.v >= 0.0
    requires apsOnly >= 0.0 && ov >= 0.0
    ensures var r := StraddleDn(sb.dn, ab.dn, Width(sb), Width(ab), apsOnly, ov); r.Known? && r.v >= 0.0
  {
    var s, a, ws, wa := sb.dn.v, ab.dn.v, Width(sb), Width(ab);
    NonNegativeShare(a, apsOnly, wa);
    NonNegativeShare(a, ov, wa);
    NonNegativeShare(s, ov, ws);
  }

  lemma NonNegativeShare(c: real, p: real, w: real)
    requires c >= 0.0 && p >= 0.0 && w > 0.0
    ensures c * (p / w) >= 0.0
  {
  }

  /** The labelled rows all have positive widths and labels inside a table of n rows. */
  predicate Labelled(a: seq<(nat, Bin)>, n: nat) {
    forall x :: x in a ==> x.0 < n && WellFormedBin(x.1)
  }

  /** The smallest lower edge of labelled rows bounds each of them. */
  lemma MinLowerBounds(a: seq<(nat, Bin)>, x: (nat, Bin))
    requires |a| > 0 && x in a
    ensures MinOf(Lowers(BinsOf(a))) <= x.1.lower
  {
    var k :| 0 <= k < |a| && a[k] == x;
    assert Lowers(BinsOf(a))[k] == x.1.lower;
  }

  /** Writes the update `u` into the row labelled `x.0`. */
  function WriteRow(t: seq<Bin>, x: (nat, Bin), u: Update): (r: seq<Bin>)
    requires x.0 < |t|
    ensures |r| == |t| && r[x.0] == Apply(t[x.0], u)
    ensures forall k :: 0 <= k < |t| && k != x.0 ==> r[k] == t[k]
  {
    t[x.0 := Apply(t[x.0], u)]
  }

  /** One pass of the merge loop for the smps bin `sb`, computed from the snapshot `A` of
      overlapping aps rows and written into the table `t`. */
  function MergeStep(t: seq<Bin>, A: seq<(nat, Bin)>, sb: Bin): (r: Result<seq<Bin>>)
    requires Labelled(A, |t|) && WellFormedBin(sb)
    ensures r.Err? ==> r.error == EmptyDistribution || r.error == AmbiguousLeftEdge
    ensures r == Err(EmptyDistribution) <==> A == []
    ensures r.Err? <==> A == [] || (sb.lower < MinOf(Lowers(BinsOf(A))) && |LeftEdgeCandidates(A, sb)| != 1)
    ensures r.Ok? ==> |r.value| == |t|
    ensures r.Ok? ==> forall k :: 0 <= k < |t| ==>
      r.value[k] == t[k] || (k in Labels(A) && r.value[k].flag == Merged && r.value[k].dndlogd == t[k].dndlogd)
  {
    if A == [] then Err(EmptyDistribution)
    else if sb.lower < MinOf(Lowers(BinsOf(A))) then LeftEdgeStep(t, A, sb)
    else if sb.lower > MinOf(Lowers(BinsOf(A))) && sb.upper < MaxOf(Uppers(BinsOf(A))) then
      Ok(InnerStep(t, A, sb))
    else Ok(t)
  }

  /** The smps bin starts below every overlapping aps bin: exactly one aps bin may begin
      below its upper edge, and that one absorbs it. */
  function LeftEdgeStep(t: seq<Bin>, A: seq<(nat, Bin)>, sb: Bin): (r: Result<seq<Bin>>)
    requires Labelled(A, |t|) && WellFormedBin(sb)
    ensures r.Err? <==> |LeftEdgeCandidates(A, sb)| != 1
    ensures r.Err? ==> r.error == AmbiguousLeftEdge
    ensures r.Ok? ==> |r.value| == |t|
    ensures r.Ok? ==> var x := LeftEdgeCandidates(A, sb)[0];
      && r.value[x.0] == Apply(t[x.0], LeftEdgeUpdate(sb, x.1))
      && forall k :: 0 <= k < |t| && k != x.0 ==> r.value[k] == t[k]
    ensures r.Ok? ==> forall k :: 0 <= k < |t| ==>
      r.value[k] == t[k] || (k in Labels(A) && r.value[k].flag == Merged && r.value[k].dndlogd == t[k].dndlogd)
  {
    var c := LeftEdgeCandidates(A, sb);
    if |c| != 1 then Err(AmbiguousLeftEdge)
    else
      assert c[0] in A;
      Ok(WriteRow(t, c[0], LeftEdgeUpdate(sb, c[0].1)))
  }

  /** The smps bin lies inside the overlapping aps range: one intersecting aps bin takes the
      contained rule, two take the straddle rule, any other number leaves the table alone. */
  function InnerStep(t: seq<Bin>, A: seq<(nat, Bin)>, sb: Bin): (r: seq<Bin>)
    requires Labelled(A, |t|) && WellFormedBin(sb)
    ensures |r| == |t|
    ensures var c := IntersectingCandidates(A, sb); |c| != 1 && |c| != 2 ==> r == t
    ensures var c := IntersectingCandidates(A, sb); |c| == 1 ==>
      assert c[0] in A; r == WriteRow(t, c[0], ContainedUpdate(sb, c[0].1))
    ensures var c := IntersectingCandidates(A, sb); |c| == 2 ==>
      assert c[0] in A && c[1] in A;
      r == WriteRow(WriteRow(t, c[0], StraddleFirstUpdate(sb, c[0].1)), c[1], StraddleSecondUpdate(sb, c[1].1))
    ensures forall k :: 0 <= k < |t| ==>
      r[k] == t[k] || (k in Labels(A) && r[k].flag == Merged && r[k].dndlogd == t[k].dndlogd)
  {
    var c := IntersectingCandidates(A, sb);
    if |c| == 1 then
      assert c[0] in A;
      WriteRow(t, c[0], ContainedUpdate(sb, c[0].1))
    else if |c| == 2 then
      assert c[0] in A && c[1] in A;
      var t1 := WriteRow(t, c[0], StraddleFirstUpdate(sb, c[0].1));
      WriteRow(t1, c[1], StraddleSecondUpdate(sb, c[1].1))
    else t
  }

  /** The aps rows whose lower edge lies below the smps bin's upper edge. */
  function LeftEdgeCandidates(A: seq<(nat, Bin)>, sb: Bin): (c: seq<(nat, Bin)>)
    ensures forall x :: x in c <==> x in A && sb.upper > x.1.lower
    ensures Increasing(A) ==> Increasing(c)
  {
    FilterPairs(A, (x: (nat, Bin)) => sb.upper > x.1.lower)
  }

  /** The aps rows that intersect the smps bin. */
  function IntersectingCandidates(A: seq<(nat, Bin)>, sb: Bin): (c: seq<(nat, Bin)>)
    ensures forall x :: x in c <==> x in A && sb.lower < x.1.upper && sb.upper > x.1.lower
    ensures Increasing(A) ==> Increasing(c)
  {
    FilterPairs(A, (x: (nat, Bin)) => sb.lower < x.1.upper && sb.upper > x.1.lower)
  }

  /** The merge loop: the smps bins of `S`, in order, each merged into `t`. */
  function MergeAll(t: seq<Bin>, A: seq<(nat, Bin)>, S: seq<(nat, Bin)>): (r: Result<seq<Bin>>)
    requires Labelled(A, |t|) && Labelled(S, |t|)
    ensures r.Err? ==> r.error == EmptyDistribution || r.error == AmbiguousLeftEdge
    ensures r.Ok? ==> |r.value| == |t|
    decreases |S|
  {
    if S == [] then Ok(t)
    else
      assert S[0] in S;
      var t' :- MergeStep(t, A, S[0].1);
      assert forall x :: x in S[1..] ==> x in S;
      MergeAll(t', A, S[1..])
  }

  /** After the merge loop each row is either as it was or a `merged` row at the label of
      an overlapping aps row, with its density untouched. */
  lemma {:induction false} MergeAllFrame(t: seq<Bin>, A: seq<(nat, Bin)>, S: seq<(nat, Bin)>)
    requires Labelled(A, |t|) && Labelled(S, |t|) && MergeAll(t, A, S).Ok?
    ensures forall k :: 0 <= k < |t| ==>
      var r := MergeAll(t, A, S).value;
      r[k] == t[k] || (k in Labels(A) && r[k].flag == Merged && r[k].dndlogd == t[k].dndlogd)
    decreases |S|
  {
    if S != [] {
      assert S[0] in S;
      var t' := MergeStep(t, A, S[0].1).value;
      assert forall x :: x in S[1..] ==> x in S;
      MergeAllFrame(t', A, S[1..]);
    }
  }

  /** The rows flagged `f`, with their labels. */
  function FlagRows(t: seq<Bin>, f: Flag): (r: seq<(nat, Bin)>)
    ensures forall x :: x in r <==> x.0 < |t| && x.1 == t[x.0] && x.1.flag == f
    ensures r == [] <==> forall k :: 0 <= k < |t| ==> t[k].flag != f
    ensures Increasing(r)
  {
    var r := Select(t, (b: Bin) => b.flag == f);
    assert r != [] ==> r[0] in r;
    assert forall k :: 0 <= k < |t| && t[k].flag == f ==> (k, t[k]) in r;
    r
  }

  /** `max(rows[rows.flag == f].dpes_upper)`. */
  function MaxUpperOf(t: seq<Bin>, f: Flag): (m: real)
    requires FlagRows(t, f) != []
    ensures forall k :: 0 <= k < |t| && t[k].flag == f ==> t[k].upper <= m
    ensures exists k :: 0 <= k < |t| && t[k].flag == f && t[k].upper == m
  {
    var a := FlagRows(t, f);
    var m := MaxOf(Uppers(BinsOf(a)));
    assert forall k :: 0 <= k < |t| && t[k].flag == f ==> t[k].upper <= m by {
      forall k | 0 <= k < |t| && t[k].flag == f ensures t[k].upper <= m {
        var n :| 0 <= n < |a| && a[n] == (k, t[k]);
        assert Uppers(BinsOf(a))[n] == t[k].upper;
      }
    }
    var n :| 0 <= n < |a| && Uppers(BinsOf(a))[n] == m;
    assert a[n] in a;
    m
  }

  /** `min(rows[rows.flag == f].dpes_lower)`. */
  function MinLowerOf(t: seq<Bin>, f: Flag): (m: real)
    requires FlagRows(t, f) != []
    ensures forall k :: 0 <= k < |t| && t[k].flag == f ==> m <= t[k].lower
    ensures exists k :: 0 <= k < |t| && t[k].flag == f && t[k].lower == m
  {
    var a := FlagRows(t, f);
    var m := MinOf(Lowers(BinsOf(a)));
    assert forall k :: 0 <= k < |t| && t[k].flag == f ==> m <= t[k].lower by {
      forall k | 0 <= k < |t| && t[k].flag == f ensures m <= t[k].lower {
        var n :| 0 <= n < |a| && a[n] == (k, t[k]);
        assert Lowers(BinsOf(a))[n] == t[k].lower;
      }
    }
    var n :| 0 <= n < |a| && Lowers(BinsOf(a))[n] == m;
    assert a[n] in a;
    m
  }

  /** The snapshot of overlapping aps rows: aps rows starting below the largest smps
      upper edge. */
  function OverlapAps(t: seq<Bin>): (r: seq<(nat, Bin)>)
    requires FlagRows(t, Smps) != []
    ensures forall x :: x in r <==>
      x.0 < |t| && x.1 == t[x.0] && x.1.flag == Aps && x.1.lower < MaxUpperOf(t, Smps)
    ensures Increasing(r)
  {
    var maxSmpsUpper := MaxUpperOf(t, Smps);
    Select(t, (b: Bin) => b.flag == Aps && b.lower < maxSmpsUpper)
  }

  /** The overlapping smps rows: smps rows ending above the smallest aps lower edge. */
  function OverlapSmps(t: seq<Bin>): (r: seq<(nat, Bin)>)
    requires FlagRows(t, Aps) != []
    ensures forall x :: x in r <==>
      x.0 < |t| && x.1 == t[x.0] && x.1.flag == Smps && x.1.upper > MinLowerOf(t, Aps)
    ensures Increasing(r)
  {
    var minApsLower := MinLowerOf(t, Aps);
    Select(t, (b: Bin) => b.flag == Smps && b.upper > minApsLower)
  }

  /** Selected rows of a well-formed table are labelled within it. */
  lemma SelectionLabelled(t: seq<Bin>, a: seq<(nat, Bin)>)
    requires WellFormed(t)
    requires forall x :: x in a ==> x.0 < |t| && x.1 == t[x.0]
    ensures Labelled(a, |t|)
  {
  }

  /** The label of a selected row is among the selection's labels exactly when it is selected. */
  lemma LabelSelected(a: seq<(nat, Bin)>, t: seq<Bin>, k: nat)
    requires k < |t| && forall x :: x in a ==> x.0 < |t| && x.1 == t[x.0]
    ensures k in Labels(a) <==> (k, t[k]) in a
  {
  }

  /** The merged distribution as the program computes it: after the loop over the
      overlapping smps rows, those rows are dropped and the rest is sorted by centre. */
  function MergeOverlapSpec(t: seq<Bin>): (r: Result<seq<Bin>>)
    requires WellFormed(t)
    ensures r.Err? ==> r.error == EmptyDistribution || r.error == AmbiguousLeftEdge
  {
    if FlagRows(t, Smps) == [] || FlagRows(t, Aps) == [] then Err(EmptyDistribution)
    else
      var A, S := OverlapAps(t), OverlapSmps(t);
      SelectionLabelled(t, A);
      SelectionLabelled(t, S);
      var merged :- MergeAll(t, A, S);
      Ok(SortByDpes(Drop(merged, Labels(S))))
  }

  /** The labels of labelled rows, in order. */
  function LabelList(a: seq<(nat, Bin)>): (r: seq<nat>)
    ensures |r| == |a| && forall k :: 0 <= k < |a| ==> r[k] == a[k].0
  {
    seq(|a|, k requires 0 <= k < |a| => a[k].0)
  }

  /** One pass of the merge loop as the program runs it: pick the rule by where the smps bin
      lies, then write the merged aps rows field by field. */
  method MergeSmpsBin(combined: seq<Bin>, apsOverlap: seq<(nat, Bin)>, smpsBin: Bin) returns (r: Result<seq<Bin>>)
    requires Labelled(apsOverlap, |combined|) && WellFormedBin(smpsBin)
    ensures r == MergeStep(combined, apsOverlap, smpsBin)
  {
    if |apsOverlap| == 0 {
      return Err(EmptyDistribution);
    }
    var t := combined;
    if smpsBin.lower < MinOf(Lowers(BinsOf(apsOverlap))) {
      var apsBin := LeftEdgeCandidates(apsOverlap, smpsBin);
      if |apsBin| != 1 {
        return Err(AmbiguousLeftEdge);
      }
      assert apsBin[0] in apsOverlap;
      t := WriteRow(t, apsBin[0], LeftEdgeUpdate(smpsBin, apsBin[0].1));
    } else if smpsBin.lower > MinOf(Lowers(BinsOf(apsOverlap))) && smpsBin.upper < MaxOf(Uppers(BinsOf(apsOverlap))) {
      var apsBins := IntersectingCandidates(apsOverlap, smpsBin);
      if |apsBins| == 1 {
        assert apsBins[0] in apsOverlap;
        t := WriteRow(t, apsBins[0], ContainedUpdate(smpsBin, apsBins[0].1));
      } else if |apsBins| == 2 {
        assert apsBins[0] in apsOverlap && apsBins[1] in apsOverlap;
        t := WriteRow(t, apsBins[0], StraddleFirstUpdate(smpsBin, apsBins[0].1));
        t := WriteRow(t, apsBins[1], StraddleSecondUpdate(smpsBin, apsBins[1].1));
      }
    }
    return Ok(t);
  }

  /** The merge loop takes one smps bin at a time. */
  lemma MergeAllFirst(t: seq<Bin>, A: seq<(nat, Bin)>, S: seq<(nat, Bin)>, t': seq<Bin>)
    requires Labelled(A, |t|) && Labelled(S, |t|) && S != []
    requires MergeStep(t, A, S[0].1) == Ok(t')
    ensures Labelled(S[1..], |t'|)
    ensures MergeAll(t, A, S) == MergeAll(t', A, S[1..])
  {
    assert S[0] in S;
    assert forall x :: x in S[1..] ==> x in S;
  }

  lemma MergeAllFails(t: seq<Bin>, A: seq<(nat, Bin)>, S: seq<(nat, Bin)>)
    requires Labelled(A, |t|) && Labelled(S, |t|) && S != []
    requires MergeStep(t, A, S[0].1).Err?
    ensures MergeAll(t, A, S) == Err(MergeStep(t, A, S[0].1).error)
  {
    assert S[0] in S;
  }

  /** The labels of a list, as a set. */
  function LabelSet(l: seq<nat>): (r: set<nat>)
    ensures forall m :: m in r <==> m in l
  {
    set m | m in l
  }

  /** The set of a label list is the label set. */
  lemma LabelListSet(a: seq<(nat, Bin)>)
    ensures LabelSet(LabelList(a)) == Labels(a)
  {
    var l := LabelList(a);
    forall m ensures m in l <==> m in Labels(a) {
      if m in l {
        var n :| 0 <= n < |l| && l[n] == m;
        assert a[n] in a;
      }
      if m in Labels(a) {
        var x :| x in a && x.0 == m;
        var n :| 0 <= n < |a| && a[n] == x;
        assert l[n] == m;
      }
    }
  }

  lemma LabelledSuffix(S: seq<(nat, Bin)>, s: nat, n: nat)
    requires Labelled(S, n) && s <= |S|
    ensures Labelled(S[s..], n)
  {
    assert forall x :: x in S[s..] ==> x in S;
  }

  lemma LabelListSnoc(a: seq<(nat, Bin)>, s: nat)
    requires s < |a|
    ensures LabelList(a[..s + 1]) == LabelList(a[..s]) + [a[s].0]
  {
    assert forall k :: 0 <= k < s ==> a[..s + 1][k] == a[..s][k];
  }

  /** The merged distribution once the loop has produced `merged`. */
  lemma MergeOverlapSpecOk(t: seq<Bin>, merged: seq<Bin>)
    requires WellFormed(t) && FlagRows(t, Smps) != [] && FlagRows(t, Aps) != []
    requires Labelled(OverlapAps(t), |t|) && Labelled(OverlapSmps(t), |t|)
    requires MergeAll(t, OverlapAps(t), OverlapSmps(t)) == Ok(merged)
    ensures MergeOverlapSpec(t) == Ok(SortByDpes(Drop(merged, Labels(OverlapSmps(t)))))
  {
  }

  lemma MergeOverlapSpecErr(t: seq<Bin>, e: Error)
    requires WellFormed(t) && FlagRows(t, Smps) != [] && FlagRows(t, Aps) != []
    requires Labelled(OverlapAps(t), |t|) && Labelled(OverlapSmps(t), |t|)
    requires MergeAll(t, OverlapAps(t), OverlapSmps(t)) == Err(e)
    ensures MergeOverlapSpec(t) == Err(e)
  {
  }

  /** The merge loop as the program runs it: each overlapping smps row in turn is merged
      into the table and its label collected. */
  method MergeLoop(sdCombined: seq<Bin>, apsOverlap: seq<(nat, Bin)>, smpsOverlap: seq<(nat, Bin)>)
    returns (r: Result<seq<Bin>>, mergedIndices: seq<nat>)
    requires Labelled(apsOverlap, |sdCombined|) && Labelled(smpsOverlap, |sdCombined|)
    ensures r == MergeAll(sdCombined, apsOverlap, smpsOverlap)
    ensures r.Ok? ==> mergedIndices == LabelList(smpsOverlap)
  {
    var combined := sdCombined;
    mergedIndices := [];
    var s := 0;
    while s < |smpsOverlap|
      invariant s <= |smpsOverlap| && |combined| == |sdCombined|
      invariant mergedIndices == LabelList(smpsOverlap[..s])
      invariant MergeAll(sdCombined, apsOverlap, smpsOverlap) == MergeAll(combined, apsOverlap, smpsOverlap[s..])
    {
      LabelledSuffix(smpsOverlap, s, |sdCombined|);
      ghost var rest := smpsOverlap[s..];
      assert rest[0] == smpsOverlap[s] && rest[1..] == smpsOverlap[s + 1..];
      var step := MergeSmpsBin(combined, apsOverlap, smpsOverlap[s].1);
      if step.Err? {
        MergeAllFails(combined, apsOverlap, rest);
        return Err(step.error), mergedIndices;
      }
      MergeAllFirst(combined, apsOverlap, rest, step.value);
      LabelListSnoc(smpsOverlap, s);
      combined := step.value;
      mergedIndices := mergedIndices + [smpsOverlap[s].0];
      s := s + 1;
    }
    assert smpsOverlap[s..] == [] && smpsOverlap[..s] == smpsOverlap;
    return Ok(combined), mergedIndices;
  }

  /** The overlap merge as the program runs it: select the two overlapping sets, run the
      merge loop, then drop the collected smps labels and sort by centre. */
  method MergeOverlap(sdCombined: seq<Bin>) returns (r: Result<seq<Bin>>)
    requires WellFormed(sdCombined)
    ensures r == MergeOverlapSpec(sdCombined)
  {
    if FlagRows(sdCombined, Smps) == [] || FlagRows(sdCombined, Aps) == [] {
      return Err(EmptyDistribution);
    }
    var apsOverlap := OverlapAps(sdCombined);
    var smpsOverlap := OverlapSmps(sdCombined);
    SelectionLabelled(sdCombined, apsOverlap);
    SelectionLabelled(sdCombined, smpsOverlap);
    var merged, mergedIndices := MergeLoop(sdCombined, apsOverlap, smpsOverlap);
    if merged.Err? {
      MergeOverlapSpecErr(sdCombined, merged.error);
      return Err(merged.error);
    }
    LabelListSet(smpsOverlap);
    MergeOverlapSpecOk(sdCombined, merged.value);
    var remaining := Drop(merged.value, LabelSet(mergedIndices));
    return Ok(SortByDpes(remaining));
  }
}
