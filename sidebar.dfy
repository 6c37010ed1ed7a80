/**
  The default values of the sidebar widgets: the multiselects start empty
  and the age slider starts at the observed minimum and maximum age.
 */
module Sidebar {
  import opened Wrappers
  import opened Survey
  import opened SliceMembership

  /** `df['Age'].min()`: the smallest present age; None when every age is missing. */
  function MinAge(rows: seq<Row>): (r: Option<int>)
    ensures r.None? <==> forall i :: 0 <= i < |rows| ==> rows[i].age.None?
    ensures r.Some? ==> exists i :: 0 <= i < |rows| && rows[i].age == r
    ensures r.Some? ==> forall i :: 0 <= i < |rows| && rows[i].age.Some? ==> r.value <= rows[i].age.value
  {
    if |rows| == 0 then None
    else
      var n := |rows| - 1;
      var rest := MinAge(rows[..n]);
      var last := rows[n].age;
      if last.None? then rest
      else if rest.None? || last.value < rest.value then last
      else rest
  }

  /** `df['Age'].max()`: the largest present age; None when every age is missing. */
  function MaxAge(rows: seq<Row>): (r: Option<int>)
    ensures r.None? <==> forall i :: 0 <= i < |rows| ==> rows[i].age.None?
    ensures r.Some? ==> exists i :: 0 <= i < |rows| && rows[i].age == r
    ensures r.Some? ==> forall i :: 0 <= i < |rows| && rows[i].age.Some? ==> rows[i].age.value <= r.value
  {
    if |rows| == 0 then None
    else
      var n := |rows| - 1;
      var rest := MaxAge(rows[..n]);
      var last := rows[n].age;
      if last.None? then rest
      else if rest.None? || last.value > rest.value then last
      else rest
  }

  /**
    The selection the page passes before the user touches any widget: four
    empty lists and the slider's initial pair (observed min age, observed
    max age). None when no age is present, where `int(NaN)` raises.
   */
  function UntouchedSelection(rows: seq<Row>): (r: Option<Selection>)
    ensures r.Some? <==> exists i :: 0 <= i < |rows| && rows[i].age.Some?
    ensures r.Some? ==> AgeRangeIndexable(r.value)
  {
    match (MinAge(rows), MaxAge(rows))
    case (Some(lo), Some(hi)) => Some(Selection([], [], [], [], Some([lo, hi])))
    case _ => None
  }
}
