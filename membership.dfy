/**
  get_slice_membership: which rows of the survey table belong to the slice
  chosen in the sidebar. The membership vector is built the way the source
  builds it (all true, then one `&=` per active filter); its meaning is the
  per-row predicate InSlice.
 */
module SliceMembership {
  import opened Wrappers
  import opened Survey

  /**
    The keyword arguments of get_slice_membership. The four lists are the
    multiselect values; `ageRange` is `age_range`, which may be None, the
    default empty list, or the slider's pair.
   */
  datatype Selection = Selection(
    schoolTypes: seq<string>,
    grades: seq<string>,
    sexes: seq<string>,
    outreachChannels: seq<string>,
    ageRange: Option<seq<int>>)

  /** The IndexError raised by `age_range[0]` or `age_range[1]`. */
  datatype SliceError = AgeRangeIndexError

  /** The four categorical filters, in the order the source applies them. */
  datatype Filter = SchoolTypes | Grades | Sexes | OutreachChannels

  /** The list of accepted values a filter was given. */
  function Selected(sel: Selection, f: Filter): seq<string> {
    match f
    case SchoolTypes => sel.schoolTypes
    case Grades => sel.grades
    case Sexes => sel.sexes
    case OutreachChannels => sel.outreachChannels
  }

  /** The same selection with one filter's list replaced. */
  function WithSelected(sel: Selection, f: Filter, values: seq<string>): (r: Selection)
    ensures Selected(r, f) == values
    ensures forall g :: g != f ==> Selected(r, g) == Selected(sel, g)
    ensures r.ageRange == sel.ageRange
  {
    match f
    case SchoolTypes => sel.(schoolTypes := values)
    case Grades => sel.(grades := values)
    case Sexes => sel.(sexes := values)
    case OutreachChannels => sel.(outreachChannels := values)
  }

  /**
    The column a filter's list is tested against. The sex filter reads
    `school_level`, not `Gender`.
   */
  function TestedColumn(f: Filter): Column {
    match f
    case SchoolTypes => SchoolType
    case Grades => Grade
    case Sexes => SchoolLevel
    case OutreachChannels => OutreachChannel
  }

  /** `isin` on one cell: a missing cell matches no selected string. */
  predicate IsInCell(v: Option<string>, values: seq<string>) {
    v.Some? && v.value in values
  }

  /** An empty list accepts every cell; a non-empty one only the listed values. */
  predicate Accepts(values: seq<string>, v: Option<string>) {
    |values| == 0 || IsInCell(v, values)
  }

  predicate Passes(row: Row, sel: Selection, f: Filter) {
    Accepts(Selected(sel, f), Cell(row, TestedColumn(f)))
  }

  /** `age_range` can be indexed at 0 and 1 whenever it is not None. */
  predicate AgeRangeIndexable(sel: Selection) {
    sel.ageRange.None? || |sel.ageRange.value| >= 2
  }

  /** Both bounds inclusive; a missing age fails both comparisons. */
  predicate InAgeRange(age: Option<int>, lo: int, hi: int) {
    age.Some? && lo <= age.value && age.value <= hi
  }

  predicate PassesAge(row: Row, sel: Selection)
    requires AgeRangeIndexable(sel)
  {
    sel.ageRange.Some? ==> InAgeRange(row.age, sel.ageRange.value[0], sel.ageRange.value[1])
  }

  /** The four categorical filters together. */
  predicate PassesLists(row: Row, sel: Selection) {
    Passes(row, sel, SchoolTypes) && Passes(row, sel, Grades) &&
    Passes(row, sel, Sexes) && Passes(row, sel, OutreachChannels)
  }

  /** A row is in the slice iff it meets every active criterion. */
  predicate InSlice(row: Row, sel: Selection)
    requires AgeRangeIndexable(sel)
  {
    PassesLists(row, sel) && PassesAge(row, sel)
  }

  /** The membership vector the source should return: one entry per row. */
  function Labels(rows: seq<Row>, sel: Selection): (r: seq<bool>)
    requires AgeRangeIndexable(sel)
    ensures |r| == |rows|
  {
    seq(|rows|, i requires 0 <= i < |rows| => InSlice(rows[i], sel))
  }

  /** `series.isin(values)`. */
  function IsIn(column: seq<Option<string>>, values: seq<string>): (r: seq<bool>)
    ensures |r| == |column|
  {
    seq(|column|, i requires 0 <= i < |column| => IsInCell(column[i], values))
  }

  /** `df['Age'] >= lo`: a comparison with NaN is false. */
  function AtLeast(ages: seq<Option<int>>, lo: int): (r: seq<bool>)
    ensures |r| == |ages|
  {
    seq(|ages|, i requires 0 <= i < |ages| => ages[i].Some? && ages[i].value >= lo)
  }

  /** `df['Age'] <= hi`. */
  function AtMost(ages: seq<Option<int>>, hi: int): (r: seq<bool>)
    ensures |r| == |ages|
  {
    seq(|ages|, i requires 0 <= i < |ages| => ages[i].Some? && ages[i].value <= hi)
  }

  /** `labels &= test`, element by element, in place. */
  method AndAssign(labels: array<bool>, test: seq<bool>)
    requires labels.Length == |test|
    modifies labels
    ensures forall k :: 0 <= k < labels.Length ==> labels[k] == (old(labels[k]) && test[k])
  {
    var i := 0;
    while i < labels.Length
      invariant 0 <= i <= labels.Length
      invariant forall k :: 0 <= k < i ==> labels[k] == (old(labels[k]) && test[k])
      invariant forall k :: i <= k < labels.Length ==> labels[k] == old(labels[k])
    {
      labels[i] := labels[i] && test[i];
      i := i + 1;
    }
  }

  /** `if values: labels &= df[c].isin(values)`. */
  method AndIsIn(labels: array<bool>, rows: seq<Row>, c: Column, values: seq<string>)
    requires labels.Length == |rows|
    modifies labels
    ensures forall k :: 0 <= k < |rows| ==> labels[k] == (old(labels[k]) && Accepts(values, Cell(rows[k], c)))
  {
    if |values| > 0 {
      AndAssign(labels, IsIn(ColumnOf(rows, c), values));
    }
  }

  /**
    get_slice_membership. Fails exactly when `age_range` is given but has
    fewer than two elements; otherwise returns one label per row, true iff
    the row is in the slice.
   */
  method GetSliceMembership(rows: seq<Row>, sel: Selection) returns (r: Result<seq<bool>, SliceError>)
    ensures r.Failure? <==> !AgeRangeIndexable(sel)
    ensures r.Success? ==> AgeRangeIndexable(sel) && r.value == Labels(rows, sel)
  {
    var n := |rows|;
    var labels := new bool[n];
    var i := 0;
    while i < n
      invariant 0 <= i <= n
      invariant forall k :: 0 <= k < i ==> labels[k]
    {
      labels[i] := true;
      i := i + 1;
    }

    AndIsIn(labels, rows, SchoolType, sel.schoolTypes);
    AndIsIn(labels, rows, Grade, sel.grades);
    AndIsIn(labels, rows, SchoolLevel, sel.sexes);
    AndIsIn(labels, rows, OutreachChannel, sel.outreachChannels);
    assert forall k :: 0 <= k < n ==> labels[k] == PassesLists(rows[k], sel);

    if sel.ageRange.Some? {
      var bounds := sel.ageRange.value;
      if |bounds| < 1 {
        return Failure(AgeRangeIndexError);
      }
      AndAssign(labels, AtLeast(AgeColumn(rows), bounds[0]));
      if |bounds| < 2 {
        return Failure(AgeRangeIndexError);
      }
      AndAssign(labels, AtMost(AgeColumn(rows), bounds[1]));
    }
    r := Success(labels[..]);
  }
}
