/**
  Properties of the slice: what the membership vector and the masked table
  promise for every table and every sidebar selection.
 */
module SliceProperties {
  import opened Wrappers
  import opened Survey
  import opened SliceMembership
  import opened RowMask
  import opened Sidebar

  /** The slice as the page shows it: the table masked by its labels. */
  function Slice(rows: seq<Row>, sel: Selection): seq<Row>
    requires AgeRangeIndexable(sel)
  {
    Apply(rows, Labels(rows, sel))
  }

  /** Every criterion except the categorical filter f. */
  predicate PassesOthers(row: Row, sel: Selection, f: Filter)
    requires AgeRangeIndexable(sel)
  {
    (forall g :: g != f ==> Passes(row, sel, g)) && PassesAge(row, sel)
  }

  /** The slice holds exactly the table's rows that meet every active criterion, and no more rows than the table. */
  lemma SliceIsMatchingRows(rows: seq<Row>, sel: Selection, x: Row)
    requires AgeRangeIndexable(sel)
    ensures |Slice(rows, sel)| <= |rows|
    ensures x in Slice(rows, sel) <==> x in rows && InSlice(x, sel)
  {
    ApplyContains(rows, Labels(rows, sel), x);
  }

  /**
    An empty list is inert: with it, membership is decided by the other
    criteria alone, and a row whose cell is missing is not dropped for it.
   */
  lemma EmptyListIsInert(rows: seq<Row>, sel: Selection, f: Filter)
    requires AgeRangeIndexable(sel)
    ensures AgeRangeIndexable(WithSelected(sel, f, []))
    ensures forall i :: 0 <= i < |rows| ==>
      (Labels(rows, WithSelected(sel, f, []))[i] <==> PassesOthers(rows[i], sel, f))
  {
    var cleared := WithSelected(sel, f, []);
    forall i | 0 <= i < |rows|
      ensures Labels(rows, cleared)[i] <==> PassesOthers(rows[i], sel, f)
    {
      assert Labels(rows, cleared)[i] == InSlice(rows[i], cleared);
      assert PassesAge(rows[i], cleared) == PassesAge(rows[i], sel);
      forall g ensures Passes(rows[i], cleared, g) == (g == f || Passes(rows[i], sel, g)) {
      }
    }
  }

  /**
    Giving an inert filter values, or removing values from a non-empty
    list while keeping at least one, never adds a row to the slice.
   */
  lemma RestrictingListNeverAdds(rows: seq<Row>, sel: Selection, f: Filter, values: seq<string>)
    requires AgeRangeIndexable(sel)
    requires |values| > 0
    requires |Selected(sel, f)| == 0 || forall v :: v in values ==> v in Selected(sel, f)
    ensures AgeRangeIndexable(WithSelected(sel, f, values))
    ensures forall i :: 0 <= i < |rows| && Labels(rows, WithSelected(sel, f, values))[i] ==> Labels(rows, sel)[i]
    ensures |Slice(rows, WithSelected(sel, f, values))| <= |Slice(rows, sel)|
  {
    var narrow := WithSelected(sel, f, values);
    forall i | 0 <= i < |rows| && Labels(rows, narrow)[i]
      ensures Labels(rows, sel)[i]
    {
      assert InSlice(rows[i], narrow);
      assert PassesAge(rows[i], narrow) == PassesAge(rows[i], sel);
      forall g ensures Passes(rows[i], sel, g) {
        assert Passes(rows[i], narrow, g);
      }
    }
    FewerMarksFewerRows(rows, Labels(rows, sel), Labels(rows, narrow));
  }

  /** Narrowing the age range never adds a row to the slice. */
  lemma NarrowingAgeRangeNeverAdds(rows: seq<Row>, sel: Selection, lo: int, hi: int)
    requires sel.ageRange.Some? && |sel.ageRange.value| >= 2
    requires sel.ageRange.value[0] <= lo && hi <= sel.ageRange.value[1]
    ensures forall i :: 0 <= i < |rows| && Labels(rows, sel.(ageRange := Some([lo, hi])))[i] ==> Labels(rows, sel)[i]
    ensures |Slice(rows, sel.(ageRange := Some([lo, hi])))| <= |Slice(rows, sel)|
  {
    var narrow := sel.(ageRange := Some([lo, hi]));
    FewerMarksFewerRows(rows, Labels(rows, sel), Labels(rows, narrow));
  }

  /**
    Passing an age range where there was none never adds a row to the
    slice: the age counterpart of giving an inert list values.
   */
  lemma AddingAgeRangeNeverAdds(rows: seq<Row>, sel: Selection, bounds: seq<int>)
    requires sel.ageRange.None?
    requires |bounds| >= 2
    ensures forall i :: 0 <= i < |rows| && Labels(rows, sel.(ageRange := Some(bounds)))[i] ==> Labels(rows, sel)[i]
    ensures |Slice(rows, sel.(ageRange := Some(bounds)))| <= |Slice(rows, sel)|
  {
    FewerMarksFewerRows(rows, Labels(rows, sel), Labels(rows, sel.(ageRange := Some(bounds))));
  }

  /** With the lower bound above the upper one, the slice is empty. */
  lemma InvertedAgeRangeEmptiesSlice(rows: seq<Row>, sel: Selection)
    requires sel.ageRange.Some? && |sel.ageRange.value| >= 2
    requires sel.ageRange.value[0] > sel.ageRange.value[1]
    ensures Slice(rows, sel) == []
  {
    ApplyNoneTrue(rows, Labels(rows, sel));
  }

  /**
    Both age bounds are inclusive: a row that passes the lists is kept at
    age lo and at age hi, and dropped at lo - 1, at hi + 1 and with no age.
   */
  lemma AgeBoundsInclusive(row: Row, sel: Selection)
    requires sel.ageRange.Some? && |sel.ageRange.value| >= 2
    requires sel.ageRange.value[0] <= sel.ageRange.value[1]
    requires PassesLists(row, sel)
    ensures row.age == Some(sel.ageRange.value[0]) ==> InSlice(row, sel)
    ensures row.age == Some(sel.ageRange.value[1]) ==> InSlice(row, sel)
    ensures row.age == Some(sel.ageRange.value[0] - 1) ==> !InSlice(row, sel)
    ensures row.age == Some(sel.ageRange.value[1] + 1) ==> !InSlice(row, sel)
    ensures row.age.None? ==> !InSlice(row, sel)
  {
  }

  /**
    With the sidebar untouched, every row with a present age is in the
    slice, and a table whose ages are all present is shown unchanged.
   */
  lemma UntouchedFiltersKeepAgedRows(rows: seq<Row>)
    requires exists i :: 0 <= i < |rows| && rows[i].age.Some?
    ensures UntouchedSelection(rows).Some?
    ensures forall i :: 0 <= i < |rows| ==>
      Labels(rows, UntouchedSelection(rows).value)[i] == rows[i].age.Some?
    ensures (forall i :: 0 <= i < |rows| ==> rows[i].age.Some?) ==>
      Slice(rows, UntouchedSelection(rows).value) == rows
  {
    var sel := UntouchedSelection(rows).value;
    var labels := Labels(rows, sel);
    forall i | 0 <= i < |rows| ensures labels[i] == rows[i].age.Some? {
      assert InSlice(rows[i], sel) == PassesAge(rows[i], sel);
    }
    if forall i :: 0 <= i < |rows| ==> rows[i].age.Some? {
      ApplyAllTrue(rows, labels);
    }
  }

  /** The table with each row's Gender cell replaced. */
  function WithGenders(rows: seq<Row>, genders: seq<Option<string>>): seq<Row>
    requires |genders| == |rows|
  {
    seq(|rows|, i requires 0 <= i < |rows| => rows[i].(gender := genders[i]))
  }

  /** A row's Gender cell never affects its membership. */
  lemma GenderNeverAffectsMembership(rows: seq<Row>, sel: Selection, genders: seq<Option<string>>)
    requires AgeRangeIndexable(sel)
    requires |genders| == |rows|
    ensures Labels(WithGenders(rows, genders), sel) == Labels(rows, sel)
  {
    var other := WithGenders(rows, genders);
    forall i | 0 <= i < |rows| ensures InSlice(other[i], sel) == InSlice(rows[i], sel) {
      forall g ensures Passes(other[i], sel, g) == Passes(rows[i], sel, g) {
        assert Cell(other[i], TestedColumn(g)) == Cell(rows[i], TestedColumn(g));
      }
    }
  }

  /**
    The sex filter tests school_level: when no row's school_level is among
    the selected values, the slice is empty, whatever the rows' Gender.
   */
  lemma SexFilterReadsSchoolLevel(rows: seq<Row>, sel: Selection)
    requires AgeRangeIndexable(sel)
    requires |sel.sexes| > 0
    requires forall i :: 0 <= i < |rows| ==> !IsInCell(rows[i].schoolLevel, sel.sexes)
    ensures Slice(rows, sel) == []
  {
    ApplyNoneTrue(rows, Labels(rows, sel));
  }

  /**
    An illustration of SexFilterReadsSchoolLevel on one row:
    a student whose Gender is the selected "Female" is still dropped,
    because the value is looked up in school_level.
   */
  lemma SexFilterDropsMatchingGender()
    ensures
      var row := Row(Some("Public"), Some("9"), Some("Female"), Some("High School"), Some("Friend"), Some(15));
      var sel := Selection([], [], ["Female"], [], Some([14, 18]));
      Labels([row], sel) == [false] && Slice([row], sel) == []
  {
    var row := Row(Some("Public"), Some("9"), Some("Female"), Some("High School"), Some("Friend"), Some(15));
    var sel := Selection([], [], ["Female"], [], Some([14, 18]));
    assert !Passes(row, sel, Sexes);
    assert Labels([row], sel) == [false];
  }
}
