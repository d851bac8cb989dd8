/** The data model of a binned particle-size distribution: one row per size bin,
    as the rows of the data frames that the combination engine works on. */
module SizeBins {

  /** A cell of a numeric column. pandas marks an absent value as NaN; here that is `Missing`. */
  datatype Measure = Missing | Known(v: real)

  /** The `flag` column: which instrument a row came from, or how the engine derived it. */
  datatype Flag = Smps | Aps | Interpolated | Merged

  /** One size bin: the centre diameter `dpes`, its lower and upper edge, the particle
      count `dn` and the normalised density `dndlogd`. */
  datatype Bin = Bin(dpes: real, lower: real, upper: real, dn: Measure, dndlogd: Measure, flag: Flag)

  /** The ways a combination can fail; each is an exception the program raises. */
  datatype Error =
    | EmptyDistribution   // max()/min() of an empty column
    | NonFiniteBinCount   // round() of a NaN bin count (a resolution was infinite)
    | NoGapBins           // the gap grid would have no bins: the frame's columns differ in length
    | NoEdgeBin           // idxmax()/idxmin() over no rows
    | EmptyGapSlice       // iloc[0] on an empty label slice
    | AmbiguousLeftEdge   // the assertion that exactly one coarse bin takes the left-edge bin

  datatype Result<T> = Ok(value: T) | Err(error: Error) {
    predicate IsFailure() { Err? }
    function PropagateFailure<U>(): Result<U> requires Err? { Err(error) }
    function Extract(): T requires Ok? { value }
  }

  /** A floating-point value that may have become infinite or NaN. */
  datatype Extended<T> = Finite(v: T) | NotFinite

  /** The decimal logarithm and its inverse, `10**y`, as parameters of the model.
      Valid() lists what the model relies on about them. */
  datatype LogAxis = LogAxis(log10: real -> real, exp10: real -> real) {
    ghost predicate Valid() {
      && (forall y :: exp10(y) > 0.0)
      && (forall y, z :: y < z ==> exp10(y) < exp10(z))
      && exp10(0.0) == 1.0
      && (forall x :: x > 0.0 ==> exp10(log10(x)) == x)
    }

    /** 10^-y is the reciprocal of 10^y. Kept apart from Valid() because only the bin-edge
        formula needs it. */
    ghost predicate Reciprocal() {
      forall y, z :: y + z == 0.0 ==> exp10(y) * exp10(z) == 1.0
    }

    /** The decades between two diameters. */
    function Decades(from: real, to: real): (r: real)
      ensures Valid() && 0.0 < from < to ==> r > 0.0
    {
      assert Valid() && 0.0 < from < to ==> exp10(log10(from)) == from && exp10(log10(to)) == to;
      log10(to) - log10(from)
    }
  }

  /** log10 is strictly increasing on the positive reals. */
  lemma LogIncreasing(axis: LogAxis, x: real, y: real)
    requires axis.Valid() && 0.0 < x < y
    ensures axis.log10(x) < axis.log10(y)
  {
    assert axis.exp10(axis.log10(x)) == x && axis.exp10(axis.log10(y)) == y;
  }

  function Width(b: Bin): real {
    b.upper - b.lower
  }

  /** A bin's edges are positive and enclose its centre. */
  predicate WellFormedBin(b: Bin) {
    0.0 < b.lower < b.dpes < b.upper
  }

  predicate WellFormed(rows: seq<Bin>) {
    forall k :: 0 <= k < |rows| ==> WellFormedBin(rows[k])
  }

  /** Overwrites the `flag` column of every row. */
  function Tag(rows: seq<Bin>, f: Flag): (r: seq<Bin>)
    ensures |r| == |rows|
    ensures forall k :: 0 <= k < |rows| ==> r[k] == rows[k].(flag := f)
  {
    seq(|rows|, k requires 0 <= k < |rows| => rows[k].(flag := f))
  }
}
