/**
  `df[slice_labels]`: boolean-mask row selection. Keeps the rows whose label
  is true, in their original order; the input table is a value and is left
  as it was.
 */
module RowMask {

  /** The rows whose mask entry is true, in order. */
  function Apply<T>(rows: seq<T>, mask: seq<bool>): (r: seq<T>)
    requires |mask| == |rows|
    ensures |r| <= |rows|
    ensures forall x :: x in r ==> x in rows
  {
    if |rows| == 0 then []
    else
      var n := |rows| - 1;
      Apply(rows[..n], mask[..n]) + (if mask[n] then [rows[n]] else [])
  }

  /** The indices of the true entries of a mask, in increasing order. */
  function Kept(mask: seq<bool>): (r: seq<nat>)
    ensures forall j :: 0 <= j < |r| ==> r[j] < |mask| && mask[r[j]]
    ensures forall j, j' :: 0 <= j < j' < |r| ==> r[j] < r[j']
    ensures forall i :: 0 <= i < |mask| && mask[i] ==> i in r
  {
    if |mask| == 0 then []
    else
      var n := |mask| - 1;
      Kept(mask[..n]) + (if mask[n] then [n] else [])
  }

  /** Apply yields exactly the rows at the kept indices, in their order. */
  lemma {:induction false} ApplyPicksKept<T>(rows: seq<T>, mask: seq<bool>)
    requires |mask| == |rows|
    ensures |Apply(rows, mask)| == |Kept(mask)|
    ensures forall j :: 0 <= j < |Kept(mask)| ==> Apply(rows, mask)[j] == rows[Kept(mask)[j]]
  {
    if |rows| > 0 {
      var n := |rows| - 1;
      ApplyPicksKept(rows[..n], mask[..n]);
    }
  }

  /** A row value is selected iff it sits at some index the mask marks. */
  lemma ApplyContains<T>(rows: seq<T>, mask: seq<bool>, x: T)
    requires |mask| == |rows|
    ensures x in Apply(rows, mask) <==> exists i :: 0 <= i < |rows| && mask[i] && rows[i] == x
  {
    ApplyPicksKept(rows, mask);
    var r, k := Apply(rows, mask), Kept(mask);
    if x in r {
      var j :| 0 <= j < |r| && r[j] == x;
      assert mask[k[j]] && rows[k[j]] == x;
    }
    if i :| 0 <= i < |rows| && mask[i] && rows[i] == x {
      var j :| 0 <= j < |k| && k[j] == i;
      assert r[j] == x;
    }
  }

  /** An all-true mask keeps the table unchanged, order included. */
  lemma {:induction false} ApplyAllTrue<T>(rows: seq<T>, mask: seq<bool>)
    requires |mask| == |rows|
    requires forall i :: 0 <= i < |mask| ==> mask[i]
    ensures Apply(rows, mask) == rows
  {
    if |rows| > 0 {
      var n := |rows| - 1;
      ApplyAllTrue(rows[..n], mask[..n]);
      assert rows[..n] + [rows[n]] == rows;
    }
  }

  /** An all-false mask keeps nothing. */
  lemma {:induction false} ApplyNoneTrue<T>(rows: seq<T>, mask: seq<bool>)
    requires |mask| == |rows|
    requires forall i :: 0 <= i < |mask| ==> !mask[i]
    ensures Apply(rows, mask) == []
  {
    if |rows| > 0 {
      var n := |rows| - 1;
      ApplyNoneTrue(rows[..n], mask[..n]);
    }
  }

  /** A mask that marks no row the other leaves unmarked keeps no more rows. */
  lemma {:induction false} FewerMarksFewerRows<T>(rows: seq<T>, m: seq<bool>, m': seq<bool>)
    requires |m| == |rows| && |m'| == |rows|
    requires forall i :: 0 <= i < |rows| && m'[i] ==> m[i]
    ensures |Apply(rows, m')| <= |Apply(rows, m)|
  {
    if |rows| > 0 {
      var n := |rows| - 1;
      FewerMarksFewerRows(rows[..n], m[..n], m'[..n]);
    }
  }
}
