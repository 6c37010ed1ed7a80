/**
  The survey table the dashboard loads from its CSV file: an ordered
  sequence of rows, each holding the columns the slice filter reads.
 */
module Survey {
  import opened Wrappers

  /**
    One survey response. Every cell may be missing (NaN in the data frame).
    `gender` is the column the "Sex" widget takes its options from;
    `schoolLevel` is the column the sex filter actually tests.
   */
  datatype Row = Row(
    schoolType: Option<string>,       // "Do you attend public or private school?"
    grade: Option<string>,            // "Grade"
    gender: Option<string>,           // "Gender"
    schoolLevel: Option<string>,      // "school_level"
    outreachChannel: Option<string>,  // "How did you hear about the camp?"
    age: Option<int>)                 // "Age"

  /** The categorical columns, as named by `df['...']` in the source. */
  datatype Column = SchoolType | Grade | Gender | SchoolLevel | OutreachChannel

  /** The value of one categorical cell. */
  function Cell(row: Row, c: Column): (r: Option<string>)
    ensures c == Gender ==> r == row.gender
    ensures c == SchoolLevel ==> r == row.schoolLevel
  {
    match c
    case SchoolType => row.schoolType
    case Grade => row.grade
    case Gender => row.gender
    case SchoolLevel => row.schoolLevel
    case OutreachChannel => row.outreachChannel
  }

  /** `df[c]`: one categorical column, aligned with the rows. */
  function ColumnOf(rows: seq<Row>, c: Column): (r: seq<Option<string>>)
    ensures |r| == |rows|
  {
    seq(|rows|, i requires 0 <= i < |rows| => Cell(rows[i], c))
  }

  /** `df['Age']`, aligned with the rows. */
  function AgeColumn(rows: seq<Row>): (r: seq<Option<int>>)
    ensures |r| == |rows|
  {
    seq(|rows|, i requires 0 <= i < |rows| => rows[i].age)
  }
}
