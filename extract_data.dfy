/** The row filter and column projection of `extract_data` in rmsd_plot.py.

    The file is parsed by `numpy.genfromtxt` into a rectangular table of
    floats in which an `NA` token (or any token that is not a number) is NaN.
    `genfromtxt` then squeezes away every dimension of length one: an empty
    file, a single line or a single column comes back with fewer than two
    dimensions, on which the row filter fails.
    Here the parser's output is a `Table` whose fields are `Option`s: `None`
    stands for NaN and the values themselves stay opaque. The script keeps
    the rows without a NaN field (a boolean mask over the rows) and builds
    its data frame from column 0 (`frames`) and column 1 (`RMSD`). */
module DataExtraction {
  import opened Wrappers

  /** What `genfromtxt` parses from a file of `|rows|` lines of `width`
      fields each, before squeezing. */
  datatype Table<T> = Table(width: nat, rows: seq<seq<Option<T>>>)

  /** `genfromtxt` only ever returns a rectangular array. */
  predicate Rectangular<T>(t: Table<T>) {
    forall i :: 0 <= i < |t.rows| ==> |t.rows[i]| == t.width
  }

  /** One row of the resulting data frame: its `frames` and `RMSD` cells. */
  datatype Sample<T> = Sample(frame: T, rmsd: T)

  /** `numpy.isnan(data).any(axis=1)` raises `AxisError` when the squeezed
      array has fewer than two dimensions. */
  datatype ExtractError = NotTwoDimensional

  /** The parsed table survives the squeeze with both dimensions: at least
      two lines and at least two fields per line. */
  predicate TwoDimensional<T>(t: Table<T>) {
    |t.rows| >= 2 && t.width >= 2
  }

  /** A row without a missing (NaN) field. */
  predicate Complete<T>(row: seq<Option<T>>) {
    forall i :: 0 <= i < |row| ==> row[i].Some?
  }

  /** `~numpy.isnan(data).any(axis=1)`: one flag per row, set when the row is
      complete. */
  function RowMask<T>(rows: seq<seq<Option<T>>>): (mask: seq<bool>)
    ensures |mask| == |rows|
    ensures forall i :: 0 <= i < |rows| ==> (mask[i] <==> Complete(rows[i]))
  {
    if rows == [] then []
    else RowMask(rows[..|rows| - 1]) + [Complete(rows[|rows| - 1])]
  }

  /** Boolean-mask indexing `xs[mask]`: the entries whose flag is set, in
      their original order. */
  function Select<X>(xs: seq<X>, mask: seq<bool>): (r: seq<X>)
    requires |mask| == |xs|
    ensures |r| <= |xs|
    ensures |r| == |TruePositions(mask)|
    ensures forall k :: 0 <= k < |r| ==> r[k] == xs[TruePositions(mask)[k]]
  {
    if xs == [] then []
    else
      var n := |xs| - 1;
      Select(xs[..n], mask[..n]) + (if mask[n] then [xs[n]] else [])
  }

  /** The indices of the set flags, in increasing order (`numpy.flatnonzero`);
      a reference for what `Select` keeps. */
  function TruePositions(mask: seq<bool>): (pos: seq<nat>)
    ensures forall k :: 0 <= k < |pos| ==> pos[k] < |mask| && mask[pos[k]]
    ensures forall k, l :: 0 <= k < l < |pos| ==> pos[k] < pos[l]
    ensures forall i :: 0 <= i < |mask| && mask[i] ==> i in pos
  {
    if mask == [] then []
    else
      var n := |mask| - 1;
      TruePositions(mask[..n]) + (if mask[n] then [n] else [])
  }

  /** The number of set flags. */
  function CountTrue(mask: seq<bool>): nat {
    if mask == [] then 0
    else CountTrue(mask[..|mask| - 1]) + (if mask[|mask| - 1] then 1 else 0)
  }

  /** The number of rows with a missing field. */
  function CountIncomplete<T>(rows: seq<seq<Option<T>>>): nat {
    if rows == [] then 0
    else CountIncomplete(rows[..|rows| - 1]) + (if Complete(rows[|rows| - 1]) then 0 else 1)
  }

  /** Each set flag has its own position. */
  lemma {:induction false} PositionsCountTrue(mask: seq<bool>)
    ensures |TruePositions(mask)| == CountTrue(mask)
  {
    if mask != [] {
      PositionsCountTrue(mask[..|mask| - 1]);
    }
  }

  /** Every row is either kept or counted as incomplete. */
  lemma {:induction false} MaskCountsCompleteRows<T>(rows: seq<seq<Option<T>>>)
    ensures CountTrue(RowMask(rows)) + CountIncomplete(rows) == |rows|
  {
    if rows != [] {
      var n := |rows| - 1;
      MaskCountsCompleteRows(rows[..n]);
      assert RowMask(rows)[..n] == RowMask(rows[..n]);
    }
  }

  /** The pair of a complete row: column 0 and column 1. */
  function SampleOf<T>(row: seq<Option<T>>): Sample<T>
    requires |row| >= 2 && Complete(row)
  {
    Sample(row[0].value, row[1].value)
  }

  /** The indices of the complete rows, in increasing order. */
  function CompleteRowIndices<T>(rows: seq<seq<Option<T>>>): seq<nat> {
    TruePositions(RowMask(rows))
  }

  /** `extract_data` from the parsed table on: drop the rows with a missing
      field, then project columns 0 and 1. */
  function ExtractData<T>(t: Table<T>): (r: Result<seq<Sample<T>>, ExtractError>)
    requires Rectangular(t)
    ensures r.Err? <==> !TwoDimensional(t)
    ensures r.Ok? ==> |r.value| <= |t.rows|
  {
    var mask := RowMask(t.rows);
    var kept := Select(t.rows, mask);
    if !TwoDimensional(t) then Err(NotTwoDimensional)
    else
      Ok(seq(|kept|, k requires 0 <= k < |kept| => SampleOf(kept[k])))
  }

  /** The data frame holds one pair per complete row, in the order of the
      rows, each pair taken from columns 0 and 1 of its row; no complete row
      is dropped. */
  lemma ExtractDataKeepsCompleteRows<T>(t: Table<T>)
    requires Rectangular(t) && TwoDimensional(t)
    ensures var idx := CompleteRowIndices(t.rows);
      && ExtractData(t).Ok?
      && |ExtractData(t).value| == |idx|
      && (forall k :: 0 <= k < |idx| ==>
            && idx[k] < |t.rows|
            && Complete(t.rows[idx[k]])
            && ExtractData(t).value[k] == SampleOf(t.rows[idx[k]]))
      && (forall k, l :: 0 <= k < l < |idx| ==> idx[k] < idx[l])
      && (forall i :: 0 <= i < |t.rows| ==> (i in idx <==> Complete(t.rows[i])))
  {
  }

  /** The count logged by the script: the number of rows less those with a
      missing field. */
  lemma ExtractedCount<T>(t: Table<T>)
    requires Rectangular(t) && TwoDimensional(t)
    ensures |ExtractData(t).value| + CountIncomplete(t.rows) == |t.rows|
  {
    PositionsCountTrue(RowMask(t.rows));
    MaskCountsCompleteRows(t.rows);
  }

  /** When every row has a missing field the data frame is empty. */
  lemma AllRowsIncompleteGiveEmpty<T>(t: Table<T>)
    requires Rectangular(t) && TwoDimensional(t)
    requires forall i :: 0 <= i < |t.rows| ==> !Complete(t.rows[i])
    ensures ExtractData(t) == Ok([])
  {
    AllIncompleteCounted(t.rows);
    ExtractedCount(t);
  }

  lemma {:induction false} AllIncompleteCounted<T>(rows: seq<seq<Option<T>>>)
    requires forall i :: 0 <= i < |rows| ==> !Complete(rows[i])
    ensures CountIncomplete(rows) == |rows|
  {
    if rows != [] {
      AllIncompleteCounted(rows[..|rows| - 1]);
    }
  }

  /** When no row has a missing field every row is kept, in place. */
  lemma AllRowsCompleteKeepAll<T>(t: Table<T>)
    requires Rectangular(t) && TwoDimensional(t)
    requires forall i :: 0 <= i < |t.rows| ==> Complete(t.rows[i])
    ensures |ExtractData(t).value| == |t.rows|
    ensures forall k :: 0 <= k < |t.rows| ==> ExtractData(t).value[k] == SampleOf(t.rows[k])
  {
    ExtractDataKeepsCompleteRows(t);
    AllTruePositions(RowMask(t.rows));
  }

  lemma {:induction false} AllTruePositions(mask: seq<bool>)
    requires forall i :: 0 <= i < |mask| ==> mask[i]
    ensures |TruePositions(mask)| == |mask|
    ensures forall k :: 0 <= k < |mask| ==> TruePositions(mask)[k] == k
  {
    if mask != [] {
      AllTruePositions(mask[..|mask| - 1]);
    }
  }

  lemma ExamplePositions()
    ensures TruePositions([true, false, true]) == [0, 2]
  {
    assert [true, false, true][..2] == [true, false];
    assert [true, false][..1] == [true];
    assert [true][..0] == [];
    assert TruePositions([true]) == [0];
  }

  /** Lines `0 0.5`, `1 NA`, `2 1.2` give the pairs (0, 0.5) and (2, 1.2). */
  lemma MissingValueExample()
    ensures ExtractData(Table(2, [[Some(0.0), Some(0.5)], [Some(1.0), None], [Some(2.0), Some(1.2)]]))
            == Ok([Sample(0.0, 0.5), Sample(2.0, 1.2)])
  {
    var t := Table(2, [[Some(0.0), Some(0.5)], [Some(1.0), None], [Some(2.0), Some(1.2)]]);
    assert t.rows[1][1] == None;
    assert RowMask(t.rows) == [true, false, true];
    ExamplePositions();
    ExtractDataKeepsCompleteRows(t);
    var ds := ExtractData(t).value;
    assert |ds| == 2 && ds[0] == Sample(0.0, 0.5) && ds[1] == Sample(2.0, 1.2);
    assert ds == [Sample(0.0, 0.5), Sample(2.0, 1.2)];
  }
}
