/** What the overlap merge guarantees about the distribution it returns. */
module MergeProperties {
  import opened SizeBins
  import opened Tables
  import opened OverlapMerge

  /** An update that describes a well-formed bin. */
  predicate WellFormedUpdate(u: Update) {
    0.0 < u.lower < u.dpes < u.upper
  }

  lemma WriteRowWellFormed(t: seq<Bin>, x: (nat, Bin), u: Update)
    requires x.0 < |t| && WellFormed(t) && WellFormedUpdate(u)
    ensures WellFormed(WriteRow(t, x, u))
  {
    assert WellFormedBin(Apply(t[x.0], u));
  }

  /** One pass of the merge loop leaves every bin well-formed. */
  lemma MergeStepWellFormed(t: seq<Bin>, A: seq<(nat, Bin)>, sb: Bin)
    requires Labelled(A, |t|) && WellFormedBin(sb) && WellFormed(t)
    requires MergeStep(t, A, sb).Ok?
    ensures WellFormed(MergeStep(t, A, sb).value)
  {
    var r := MergeStep(t, A, sb).value;
    if sb.lower < MinOf(Lowers(BinsOf(A))) {
      var x := LeftEdgeCandidates(A, sb)[0];
      assert x in LeftEdgeCandidates(A, sb);
      MinLowerBounds(A, x);
      var u := LeftEdgeUpdate(sb, x.1);
      assert WellFormedUpdate(u);
      assert r[x.0] == Apply(t[x.0], u);
      assert WellFormedBin(r[x.0]);
    } else if sb.lower > MinOf(Lowers(BinsOf(A))) && sb.upper < MaxOf(Uppers(BinsOf(A))) {
      var c := IntersectingCandidates(A, sb);
      if |c| == 1 {
        assert c[0] in c;
        WriteRowWellFormed(t, c[0], ContainedUpdate(sb, c[0].1));
      } else if |c| == 2 {
        assert c[0] in c && c[1] in c;
        var t1 := WriteRow(t, c[0], StraddleFirstUpdate(sb, c[0].1));
        WriteRowWellFormed(t, c[0], StraddleFirstUpdate(sb, c[0].1));
        WriteRowWellFormed(t1, c[1], StraddleSecondUpdate(sb, c[1].1));
      }
    }
  }

  /** The merge loop leaves every bin well-formed. */
  lemma {:induction false} MergeAllWellFormed(t: seq<Bin>, A: seq<(nat, Bin)>, S: seq<(nat, Bin)>)
    requires Labelled(A, |t|) && Labelled(S, |t|) && WellFormed(t) && MergeAll(t, A, S).Ok?
    ensures WellFormed(MergeAll(t, A, S).value)
    decreases |S|
  {
    if S != [] {
      assert S[0] in S;
      MergeStepWellFormed(t, A, S[0].1);
      var t' := MergeStep(t, A, S[0].1).value;
      MergeAllFirst(t, A, S, t');
      MergeAllWellFormed(t', A, S[1..]);
    }
  }

  /** With overlapping aps rows to merge into, the loop never fails for want of them. */
  lemma {:induction false} MergeAllNotEmpty(t: seq<Bin>, A: seq<(nat, Bin)>, S: seq<(nat, Bin)>)
    requires Labelled(A, |t|) && Labelled(S, |t|) && A != []
    ensures MergeAll(t, A, S) != Err(EmptyDistribution)
    decreases |S|
  {
    if S != [] {
      assert S[0] in S;
      var step := MergeStep(t, A, S[0].1);
      if step.Ok? {
        MergeAllFirst(t, A, S, step.value);
        MergeAllNotEmpty(step.value, A, S[1..]);
      } else {
        MergeAllFails(t, A, S);
      }
    }
  }

  /** An smps row that reaches into the aps range meets the aps row with the smallest lower
      edge, which therefore overlaps the smps range. */
  lemma OverlapApsNotEmpty(t: seq<Bin>)
    requires FlagRows(t, Smps) != [] && FlagRows(t, Aps) != [] && OverlapSmps(t) != []
    ensures OverlapAps(t) != []
  {
    var x := OverlapSmps(t)[0];
    assert x in OverlapSmps(t);
    var k := LowestApsRow(t);
    assert x.0 < |t| && t[x.0].flag == Smps && t[x.0].upper > t[k].lower;
    assert t[x.0].upper <= MaxUpperOf(t, Smps);
    assert (k, t[k]) in OverlapAps(t);
  }

  /** The label of an aps row with the smallest lower edge. */
  lemma LowestApsRow(t: seq<Bin>) returns (k: nat)
    requires FlagRows(t, Aps) != []
    ensures k < |t| && t[k].flag == Aps && t[k].lower == MinLowerOf(t, Aps)
  {
    k :| 0 <= k < |t| && t[k].flag == Aps && t[k].lower == MinLowerOf(t, Aps);
  }

  /** A successful merge is the sorted remainder of the merge loop's table. */
  lemma MergedParts(t: seq<Bin>)
    requires WellFormed(t) && MergeOverlapSpec(t).Ok?
    ensures FlagRows(t, Smps) != [] && FlagRows(t, Aps) != []
    ensures Labelled(OverlapAps(t), |t|) && Labelled(OverlapSmps(t), |t|)
    ensures MergeAll(t, OverlapAps(t), OverlapSmps(t)).Ok?
    ensures MergeOverlapSpec(t).value ==
      SortByDpes(Drop(MergeAll(t, OverlapAps(t), OverlapSmps(t)).value, Labels(OverlapSmps(t))))
  {
    SelectionLabelled(t, OverlapAps(t));
    SelectionLabelled(t, OverlapSmps(t));
  }

  /** The merge returns one row per input row that is not an overlapping smps row: the
      loop keeps the length of the table and the drop removes exactly those labels. */
  lemma MergedRowCount(t: seq<Bin>)
    requires WellFormed(t) && MergeOverlapSpec(t).Ok?
    ensures |MergeOverlapSpec(t).value| + |Labels(OverlapSmps(t))| == |t|
  {
    MergedParts(t);
    var S := OverlapSmps(t);
    DroppedLabels(MergeAll(t, OverlapAps(t), S).value, S, |t|);
  }

  /** Dropping labels that all name rows of the table drops exactly that many rows. */
  lemma DroppedLabels(merged: seq<Bin>, S: seq<(nat, Bin)>, n: nat)
    requires Labelled(S, n) && |merged| == n
    ensures |SortByDpes(Drop(merged, Labels(S)))| + |Labels(S)| == n
  {
    assert DroppedBelow(n, Labels(S)) == Labels(S);
  }

  /** The merge fails for want of data exactly when one instrument has no rows; any other
      failure is the ambiguous left edge. */
  lemma MergeEmptyIff(t: seq<Bin>)
    requires WellFormed(t)
    ensures MergeOverlapSpec(t) == Err(EmptyDistribution) <==>
      FlagRows(t, Smps) == [] || FlagRows(t, Aps) == []
  {
    if FlagRows(t, Smps) != [] && FlagRows(t, Aps) != [] {
      OverlapLoopNotEmpty(t);
    }
  }

  lemma OverlapLoopNotEmpty(t: seq<Bin>)
    requires WellFormed(t) && FlagRows(t, Smps) != [] && FlagRows(t, Aps) != []
    ensures Labelled(OverlapAps(t), |t|) && Labelled(OverlapSmps(t), |t|)
    ensures MergeAll(t, OverlapAps(t), OverlapSmps(t)) != Err(EmptyDistribution)
  {
    var A, S := OverlapAps(t), OverlapSmps(t);
    SelectionLabelled(t, A);
    SelectionLabelled(t, S);
    if S == [] {
      assert MergeAll(t, A, S) == Ok(t);
    } else {
      OverlapApsNotEmpty(t);
      MergeAllNotEmpty(t, A, S);
    }
  }

  /** The merged distribution is sorted by centre and its bins are well-formed. */
  lemma MergedWellFormed(t: seq<Bin>)
    requires WellFormed(t) && MergeOverlapSpec(t).Ok?
    ensures SortedByDpes(MergeOverlapSpec(t).value)
    ensures WellFormed(MergeOverlapSpec(t).value)
  {
    MergedParts(t);
    var A, S := OverlapAps(t), OverlapSmps(t);
    var merged := MergeAll(t, A, S).value;
    MergeAllWellFormed(t, A, S);
    var d := Drop(merged, Labels(S));
    var r := MergeOverlapSpec(t).value;
    forall n | 0 <= n < |r| ensures WellFormedBin(r[n]) {
      InPermutation(r, d, r[n]);
      assert r[n] in d;
    }
  }

  /** Every row of the merged distribution comes from an input row that was not an
      overlapping smps row: it is that row unchanged, or that row was an overlapping aps row
      and is now `merged`, with its density kept. */
  lemma MergedRowOrigin(t: seq<Bin>, b: Bin) returns (k: nat)
    requires WellFormed(t) && MergeOverlapSpec(t).Ok? && b in MergeOverlapSpec(t).value
    ensures k < |t| && (k, t[k]) !in OverlapSmps(t)
    ensures b == t[k] || ((k, t[k]) in OverlapAps(t) && b.flag == Merged && b.dndlogd == t[k].dndlogd)
  {
    MergedParts(t);
    var A, S := OverlapAps(t), OverlapSmps(t);
    var merged := MergeAll(t, A, S).value;
    InPermutation(MergeOverlapSpec(t).value, Drop(merged, Labels(S)), b);
    k :| 0 <= k < |merged| && k !in Labels(S) && merged[k] == b;
    MergeAllFrame(t, A, S);
    LabelSelected(S, t, k);
    LabelSelected(A, t, k);
  }

  /** A row of the merged distribution that is not `merged` is a row of the input. */
  lemma UnmergedRowsKept(t: seq<Bin>, b: Bin)
    requires WellFormed(t) && MergeOverlapSpec(t).Ok? && b in MergeOverlapSpec(t).value
    requires b.flag != Merged
    ensures b in t
  {
    var k := MergedRowOrigin(t, b);
  }

  /** No smps row left in the merged distribution reaches into any aps row of the input. */
  lemma SmpsBelowAps(t: seq<Bin>, b: Bin, m: nat)
    requires WellFormed(t) && MergeOverlapSpec(t).Ok? && b in MergeOverlapSpec(t).value
    requires b.flag == Smps && m < |t| && t[m].flag == Aps
    ensures b.upper <= t[m].lower
  {
    var k := MergedRowOrigin(t, b);
    MergedParts(t);
    assert b == t[k];
    assert !(t[k].upper > MinLowerOf(t, Aps));
  }

  /** The overlap is resolved: in the merged distribution no smps row reaches into an aps row. */
  lemma OverlapResolved(t: seq<Bin>, b: Bin, c: Bin)
    requires WellFormed(t) && MergeOverlapSpec(t).Ok?
    requires b in MergeOverlapSpec(t).value && c in MergeOverlapSpec(t).value
    requires b.flag == Smps && c.flag == Aps
    ensures b.upper <= c.lower
  {
    UnmergedRowsKept(t, c);
    var m :| 0 <= m < |t| && t[m] == c;
    SmpsBelowAps(t, b, m);
  }

  /** Rows outside the overlap pass through the merge unchanged: interpolated and merged
      rows, aps rows starting at or above every smps row's upper edge, and smps rows ending
      at or below every aps row's lower edge. */
  lemma OutsideOverlapKept(t: seq<Bin>, k: nat)
    requires WellFormed(t) && MergeOverlapSpec(t).Ok? && k < |t|
    requires FlagRows(t, Smps) != [] && FlagRows(t, Aps) != []
    requires || t[k].flag == Interpolated || t[k].flag == Merged
             || (t[k].flag == Aps && t[k].lower >= MaxUpperOf(t, Smps))
             || (t[k].flag == Smps && t[k].upper <= MinLowerOf(t, Aps))
    ensures t[k] in MergeOverlapSpec(t).value
  {
    MergedParts(t);
    var A, S := OverlapAps(t), OverlapSmps(t);
    var merged := MergeAll(t, A, S).value;
    LabelSelected(S, t, k);
    LabelSelected(A, t, k);
    MergeAllFrame(t, A, S);
    assert merged[k] == t[k];
    var d := Drop(merged, Labels(S));
    assert t[k] in d;
    InPermutation(MergeOverlapSpec(t).value, d, t[k]);
  }

  /** Two bins intersect when each starts below the other's upper edge. */
  predicate Intersect(sb: Bin, ab: Bin) {
    sb.lower < ab.upper && sb.upper > ab.lower
  }

  /** A row that one pass of the merge loop changes is an overlapping aps row that the smps
      bin intersects. */
  lemma MergeStepTouches(t: seq<Bin>, A: seq<(nat, Bin)>, sb: Bin, k: nat)
    requires Labelled(A, |t|) && WellFormedBin(sb) && MergeStep(t, A, sb).Ok?
    requires k < |t| && MergeStep(t, A, sb).value[k] != t[k]
    ensures exists x :: x in A && x.0 == k && Intersect(sb, x.1)
  {
    if sb.lower < MinOf(Lowers(BinsOf(A))) {
      LeftEdgeTouches(t, A, sb, k);
    } else {
      InnerTouches(t, A, sb, k);
    }
  }

  lemma LeftEdgeTouches(t: seq<Bin>, A: seq<(nat, Bin)>, sb: Bin, k: nat)
    requires Labelled(A, |t|) && WellFormedBin(sb) && A != [] && sb.lower < MinOf(Lowers(BinsOf(A)))
    requires LeftEdgeStep(t, A, sb).Ok? && k < |t| && LeftEdgeStep(t, A, sb).value[k] != t[k]
    ensures exists x :: x in A && x.0 == k && Intersect(sb, x.1)
  {
    var x := LeftEdgeCandidates(A, sb)[0];
    assert x in LeftEdgeCandidates(A, sb);
    MinLowerBounds(A, x);
    assert x.0 == k && Intersect(sb, x.1);
  }

  lemma InnerTouches(t: seq<Bin>, A: seq<(nat, Bin)>, sb: Bin, k: nat)
    requires Labelled(A, |t|) && WellFormedBin(sb)
    requires k < |t| && InnerStep(t, A, sb)[k] != t[k]
    ensures exists x :: x in A && x.0 == k && Intersect(sb, x.1)
  {
    var c := IntersectingCandidates(A, sb);
    assert c[0] in c;
    if |c| == 2 {
      assert c[1] in c;
    }
  }

  /** A row that the merge loop changes is an overlapping aps row that one of the
      overlapping smps bins intersects. */
  lemma {:induction false} MergeAllTouches(t: seq<Bin>, A: seq<(nat, Bin)>, S: seq<(nat, Bin)>, k: nat)
    requires Labelled(A, |t|) && Labelled(S, |t|) && MergeAll(t, A, S).Ok?
    requires k < |t| && MergeAll(t, A, S).value[k] != t[k]
    ensures exists x, y :: x in A && y in S && x.0 == k && Intersect(y.1, x.1)
    decreases |S|
  {
    assert S != [];
    assert S[0] in S;
    var t' := MergeStep(t, A, S[0].1).value;
    MergeAllFirst(t, A, S, t');
    if t'[k] != t[k] {
      MergeStepTouches(t, A, S[0].1, k);
    } else {
      MergeAllTouches(t', A, S[1..], k);
      var x, y :| x in A && y in S[1..] && x.0 == k && Intersect(y.1, x.1);
      assert y in S;
    }
  }

  /** An aps row that no smps row intersects keeps all its fields through the merge. */
  lemma UntouchedApsKept(t: seq<Bin>, k: nat, c: Bin)
    requires WellFormed(t) && MergeOverlapSpec(t).Ok? && k < |t| && c == t[k] && c.flag == Aps
    requires forall m :: 0 <= m < |t| && t[m].flag == Smps ==> !Intersect(t[m], t[k])
    ensures c in MergeOverlapSpec(t).value
  {
    MergedParts(t);
    var A, S := OverlapAps(t), OverlapSmps(t);
    var merged := MergeAll(t, A, S).value;
    if merged[k] != t[k] {
      MergeAllTouches(t, A, S, k);
    }
    LabelSelected(S, t, k);
    var d := Drop(merged, Labels(S));
    assert t[k] in d;
    InPermutation(MergeOverlapSpec(t).value, d, t[k]);
  }
}
