/** The column operations of pandas that the engine relies on, over rows of bins:
    maximum and minimum of a column, boolean-mask selection that keeps row labels,
    dropping rows by label, idxmax/idxmin, and sorting by the centre diameter.
    A row's label is its position, as after `reset_index(drop=True)`. */
module Tables {
  import opened SizeBins

  function Lowers(rows: seq<Bin>): (r: seq<real>)
    ensures |r| == |rows| && forall k :: 0 <= k < |rows| ==> r[k] == rows[k].lower
  {
    seq(|rows|, k requires 0 <= k < |rows| => rows[k].lower)
  }

  function Uppers(rows: seq<Bin>): (r: seq<real>)
    ensures |r| == |rows| && forall k :: 0 <= k < |rows| ==> r[k] == rows[k].upper
  {
    seq(|rows|, k requires 0 <= k < |rows| => rows[k].upper)
  }

  function Centres(rows: seq<Bin>): (r: seq<real>)
    ensures |r| == |rows| && forall k :: 0 <= k < |rows| ==> r[k] == rows[k].dpes
  {
    seq(|rows|, k requires 0 <= k < |rows| => rows[k].dpes)
  }

  function Densities(rows: seq<Bin>): (r: seq<Measure>)
    ensures |r| == |rows| && forall k :: 0 <= k < |rows| ==> r[k] == rows[k].dndlogd
  {
    seq(|rows|, k requires 0 <= k < |rows| => rows[k].dndlogd)
  }

  /** The largest value of a non-empty column. */
  function MaxOf(xs: seq<real>): (m: real)
    requires |xs| > 0
    ensures exists k :: 0 <= k < |xs| && xs[k] == m
    ensures forall k :: 0 <= k < |xs| ==> xs[k] <= m
  {
    if |xs| == 1 then xs[0]
    else
      var t := MaxOf(xs[1..]);
      assert forall k :: 1 <= k < |xs| ==> xs[k] == xs[1..][k - 1];
      if xs[0] >= t then xs[0] else t
  }

  /** The smallest value of a non-empty column. */
  function MinOf(xs: seq<real>): (m: real)
    requires |xs| > 0
    ensures exists k :: 0 <= k < |xs| && xs[k] == m
    ensures forall k :: 0 <= k < |xs| ==> m <= xs[k]
  {
    if |xs| == 1 then xs[0]
    else
      var t := MinOf(xs[1..]);
      assert forall k :: 1 <= k < |xs| ==> xs[k] == xs[1..][k - 1];
      if xs[0] <= t then xs[0] else t
  }

  /** Rows paired with their labels. */
  function Enumerate(rows: seq<Bin>): (r: seq<(nat, Bin)>)
    ensures |r| == |rows|
    ensures forall k :: 0 <= k < |rows| ==> r[k] == (k, rows[k])
  {
    seq(|rows|, k requires 0 <= k < |rows| => (k, rows[k]))
  }

  /** The bins of labelled rows, in order. */
  function BinsOf(a: seq<(nat, Bin)>): (r: seq<Bin>)
    ensures |r| == |a| && forall k :: 0 <= k < |a| ==> r[k] == a[k].1
  {
    seq(|a|, k requires 0 <= k < |a| => a[k].1)
  }

  /** The labels increase strictly along `a`, so no label, and no row, occurs twice. */
  predicate Increasing(a: seq<(nat, Bin)>) {
    forall m, m' :: 0 <= m < m' < |a| ==> a[m].0 < a[m'].0
  }

  /** Boolean-mask selection: the labelled rows that satisfy `q`, in their order. */
  function FilterPairs(a: seq<(nat, Bin)>, q: ((nat, Bin)) -> bool): (r: seq<(nat, Bin)>)
    ensures |r| <= |a|
    ensures forall x :: x in r <==> x in a && q(x)
    ensures Increasing(a) ==> Increasing(r)
  {
    if a == [] then []
    else
      var rest := FilterPairs(a[1..], q);
      assert forall x :: x in a <==> x == a[0] || x in a[1..];
      if q(a[0]) then
        assert Increasing(a) ==> forall m :: 0 <= m < |rest| ==> a[0].0 < rest[m].0 by {
          if Increasing(a) {
            forall m | 0 <= m < |rest| ensures a[0].0 < rest[m].0 {
              assert rest[m] in a[1..];
              var k :| 0 <= k < |a[1..]| && a[1..][k] == rest[m];
              assert a[k + 1] == rest[m];
            }
          }
        }
        [a[0]] + rest
      else rest
  }

  /** `rows[mask]` with the mask `p`: the selected rows keep their labels and their order. */
  function Select(rows: seq<Bin>, p: Bin -> bool): (r: seq<(nat, Bin)>)
    ensures forall x :: x in r <==> x.0 < |rows| && x.1 == rows[x.0] && p(x.1)
    ensures Increasing(r)
  {
    var e := Enumerate(rows);
    var r := FilterPairs(e, (x: (nat, Bin)) => p(x.1));
    assert forall x: (nat, Bin) :: x in e <==> x.0 < |rows| && x.1 == rows[x.0] by {
      forall x: (nat, Bin) | x.0 < |rows| && x.1 == rows[x.0] ensures x in e {
        assert e[x.0] == x;
      }
    }
    r
  }

  /** Two selections in label order with the same members are the same sequence: order and
      membership together determine a mask selection. */
  lemma {:induction false} IncreasingUnique(a: seq<(nat, Bin)>, b: seq<(nat, Bin)>)
    requires Increasing(a) && Increasing(b)
    requires forall x :: x in a <==> x in b
    ensures a == b
    decreases |a|
  {
    if a != [] || b != [] {
      assert a != [] && b != [] by {
        if a != [] {
          assert a[0] in a;
        }
        if b != [] {
          assert b[0] in b;
        }
      }
      SameHead(a, b);
      SameTailMembers(a, b);
      IncreasingTail(a);
      IncreasingTail(b);
      IncreasingUnique(a[1..], b[1..]);
      assert a == [a[0]] + a[1..] && b == [b[0]] + b[1..];
    }
  }

  /** The first element of a non-empty selection in label order is the one with the
      smallest label, so two such selections with the same members start alike. */
  lemma SameHead(a: seq<(nat, Bin)>, b: seq<(nat, Bin)>)
    requires Increasing(a) && Increasing(b) && |a| > 0 && |b| > 0
    requires forall x :: x in a <==> x in b
    ensures a[0] == b[0]
  {
    assert a[0] in a && b[0] in b;
    var i :| 0 <= i < |a| && a[i] == b[0];
    var j :| 0 <= j < |b| && b[j] == a[0];
    assert a[0].0 <= a[i].0 && b[0].0 <= b[j].0;
  }

  /** Past a common first element, two selections in label order have the same members. */
  lemma SameTailMembers(a: seq<(nat, Bin)>, b: seq<(nat, Bin)>)
    requires Increasing(a) && Increasing(b) && |a| > 0 && |b| > 0 && a[0] == b[0]
    requires forall x :: x in a <==> x in b
    ensures forall x :: x in a[1..] <==> x in b[1..]
  {
    forall x | x in a[1..] ensures x in b[1..] {
      LaterInTail(a, b, x);
    }
    forall x | x in b[1..] ensures x in a[1..] {
      LaterInTail(b, a, x);
    }
  }

  lemma LaterInTail(a: seq<(nat, Bin)>, b: seq<(nat, Bin)>, x: (nat, Bin))
    requires Increasing(a) && Increasing(b) && |a| > 0 && |b| > 0 && a[0] == b[0]
    requires x in a[1..] && x in b
    ensures x in b[1..]
  {
    var k :| 0 <= k < |a[1..]| && a[1..][k] == x;
    assert a[k + 1] == x;
    var l :| 0 <= l < |b| && b[l] == x;
    assert l != 0;
    assert b[1..][l - 1] == x;
  }

  lemma IncreasingTail(a: seq<(nat, Bin)>)
    requires Increasing(a) && |a| > 0
    ensures Increasing(a[1..])
  {
    forall m, m' | 0 <= m < m' < |a| - 1 ensures a[1..][m].0 < a[1..][m'].0 {
      assert a[1..][m] == a[m + 1] && a[1..][m'] == a[m' + 1];
    }
  }

  /** The labels of labelled rows. */
  function Labels(a: seq<(nat, Bin)>): (r: set<nat>)
    ensures forall k :: k in r <==> exists x :: x in a && x.0 == k
  {
    set x | x in a :: x.0
  }

  /** The labels below `n` that are not in `d`, in increasing order. */
  function Kept(n: nat, d: set<nat>): (r: seq<nat>)
    ensures forall m :: 0 <= m < |r| ==> r[m] < n && r[m] !in d
    ensures forall m, m' :: 0 <= m < m' < |r| ==> r[m] < r[m']
    ensures forall k :: 0 <= k < n && k !in d ==> k in r
  {
    if n == 0 then []
    else if n - 1 in d then Kept(n - 1, d)
    else Kept(n - 1, d) + [n - 1]
  }

  /** The labels below `n` that are in `d`. */
  function DroppedBelow(n: nat, d: set<nat>): (r: set<nat>)
    ensures forall k :: k in r <==> k < n && k in d
  {
    if n == 0 then {}
    else if n - 1 in d then DroppedBelow(n - 1, d) + {n - 1}
    else DroppedBelow(n - 1, d)
  }

  /** Every label below `n` is either kept or dropped. */
  lemma {:induction false} KeptCount(n: nat, d: set<nat>)
    ensures |Kept(n, d)| + |DroppedBelow(n, d)| == n
  {
    if n > 0 {
      KeptCount(n - 1, d);
      if n - 1 in d {
        assert n - 1 !in DroppedBelow(n - 1, d);
      }
    }
  }

  /** `r` holds the rows at the labels `Kept(|rows|, d)`, in that order. */
  predicate PicksKept(rows: seq<Bin>, d: set<nat>, r: seq<Bin>) {
    && |r| == |Kept(|rows|, d)|
    && forall m :: 0 <= m < |r| ==> r[m] == rows[Kept(|rows|, d)[m]]
  }

  /** Appending the last row, unless its label is dropped, extends the picked rows. */
  lemma PicksKeptStep(rows: seq<Bin>, d: set<nat>, rest: seq<Bin>)
    requires |rows| > 0 && PicksKept(rows[..|rows| - 1], d, rest)
    ensures PicksKept(rows, d, if |rows| - 1 in d then rest else rest + [rows[|rows| - 1]])
  {
    var last := |rows| - 1;
    var ks := Kept(last, d);
    assert forall m :: 0 <= m < |rest| ==> rest[m] == rows[ks[m]];
    if last !in d {
      assert Kept(|rows|, d) == ks + [last];
    }
  }

  /** The picked rows are exactly the rows whose label is not dropped. */
  lemma PicksKeptMembers(rows: seq<Bin>, d: set<nat>, r: seq<Bin>)
    requires PicksKept(rows, d, r)
    ensures forall b :: b in r <==> exists k :: 0 <= k < |rows| && k !in d && rows[k] == b
  {
    var ks := Kept(|rows|, d);
    forall b | b in r ensures exists k :: 0 <= k < |rows| && k !in d && rows[k] == b {
      var m :| 0 <= m < |r| && r[m] == b;
      assert rows[ks[m]] == b;
    }
    forall k | 0 <= k < |rows| && k !in d ensures rows[k] in r {
      var m :| 0 <= m < |ks| && ks[m] == k;
      assert r[m] == rows[k];
    }
  }

  /** `drop(labels)`: the rows whose label is not in `d`, each once and in their order. */
  function Drop(rows: seq<Bin>, d: set<nat>): (r: seq<Bin>)
    ensures |r| == |Kept(|rows|, d)| && |r| + |DroppedBelow(|rows|, d)| == |rows|
    ensures forall m :: 0 <= m < |r| ==> r[m] == rows[Kept(|rows|, d)[m]]
    ensures forall b :: b in r <==> exists k :: 0 <= k < |rows| && k !in d && rows[k] == b
  {
    KeptCount(|rows|, d);
    if rows == [] then []
    else
      var last := |rows| - 1;
      var rest := Drop(rows[..last], d);
      var r := if last in d then rest else rest + [rows[last]];
      PicksKeptStep(rows, d, rest);
      PicksKeptMembers(rows, d, r);
      r
  }

  /** The first label, among the rows flagged `f` in rows[..n], at which `key` is largest,
      or -1 when no such row exists. This is idxmax (and, for a negated key, idxmin). */
  function FirstBest(rows: seq<Bin>, f: Flag, key: Bin -> real, n: nat): (k: int)
    requires n <= |rows|
    ensures -1 <= k < n
    ensures k == -1 <==> forall m :: 0 <= m < n ==> rows[m].flag != f
    ensures k >= 0 ==> rows[k].flag == f
    ensures k >= 0 ==> forall m :: 0 <= m < n && rows[m].flag == f ==> key(rows[m]) <= key(rows[k])
    ensures k >= 0 ==> forall m :: 0 <= m < k && rows[m].flag == f ==> key(rows[m]) < key(rows[k])
  {
    if n == 0 then -1
    else
      var k := FirstBest(rows, f, key, n - 1);
      if rows[n - 1].flag == f && (k == -1 || key(rows[n - 1]) > key(rows[k])) then n - 1 else k
  }

  /** `rows[rows.flag == f].dpes_upper.idxmax()`, or -1 when no row is flagged `f`. */
  function IdxMaxUpper(rows: seq<Bin>, f: Flag): (k: int)
    ensures -1 <= k < |rows|
    ensures k == -1 <==> forall m :: 0 <= m < |rows| ==> rows[m].flag != f
    ensures k >= 0 ==> rows[k].flag == f
    ensures k >= 0 ==> forall m :: 0 <= m < |rows| && rows[m].flag == f ==> rows[m].upper <= rows[k].upper
    ensures k >= 0 ==> forall m :: 0 <= m < k && rows[m].flag == f ==> rows[m].upper < rows[k].upper
  {
    FirstBest(rows, f, (b: Bin) => b.upper, |rows|)
  }

  /** `rows[rows.flag == f].dpes_lower.idxmin()`, or -1 when no row is flagged `f`. */
  function IdxMinLower(rows: seq<Bin>, f: Flag): (k: int)
    ensures -1 <= k < |rows|
    ensures k == -1 <==> forall m :: 0 <= m < |rows| ==> rows[m].flag != f
    ensures k >= 0 ==> rows[k].flag == f
    ensures k >= 0 ==> forall m :: 0 <= m < |rows| && rows[m].flag == f ==> rows[k].lower <= rows[m].lower
    ensures k >= 0 ==> forall m :: 0 <= m < k && rows[m].flag == f ==> rows[k].lower < rows[m].lower
  {
    var k := FirstBest(rows, f, (b: Bin) => -b.lower, |rows|);
    k
  }

  ghost predicate SortedByDpes(rows: seq<Bin>) {
    forall i, j :: 0 <= i < j < |rows| ==> rows[i].dpes <= rows[j].dpes
  }

  /** Inserts `b` into rows sorted by centre diameter. */
  function Insert(b: Bin, rows: seq<Bin>): (r: seq<Bin>)
    requires SortedByDpes(rows)
    ensures SortedByDpes(r)
    ensures multiset(r) == multiset(rows) + multiset{b}
    ensures |r| == |rows| + 1
    ensures r[0] == b || (rows != [] && r[0] == rows[0])
  {
    if rows == [] || b.dpes <= rows[0].dpes then [b] + rows
    else
      var rest := Insert(b, rows[1..]);
      assert rows == [rows[0]] + rows[1..];
      [rows[0]] + rest
  }

  /** `sort_values('dpes')`: the rows rearranged in ascending order of centre diameter. */
  function SortByDpes(rows: seq<Bin>): (r: seq<Bin>)
    ensures SortedByDpes(r)
    ensures multiset(r) == multiset(rows)
    ensures |r| == |rows|
  {
    if rows == [] then []
    else
      assert rows == [rows[0]] + rows[1..];
      Insert(rows[0], SortByDpes(rows[1..]))
  }

  /** In rows sorted by centre, a row with a smaller centre comes first. */
  lemma SortedOrder(rows: seq<Bin>, i: nat, j: nat)
    requires SortedByDpes(rows) && i < |rows| && j < |rows|
    requires rows[i].dpes < rows[j].dpes
    ensures i < j
  {
  }

  /** A row of a rearrangement is a row of the original. */
  lemma InPermutation(r: seq<Bin>, rows: seq<Bin>, b: Bin)
    requires multiset(r) == multiset(rows)
    ensures b in r <==> b in rows
  {
    assert b in r <==> b in multiset(r);
    assert b in rows <==> b in multiset(rows);
  }
}
