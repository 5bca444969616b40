/**
 * Rows as pandas hands them around: `pd.json_normalize` turns each fetched JSON
 * object into a record whose nested fields are named with dots ("main.temp"),
 * and a column one record lacks reads as NaN in that record.
 */
module Frame {

  /** A floating-point cell, carried as its IEEE-754 bit pattern; nothing computes with it. */
  datatype Float = Float(bits: bv64)

  /** One cell. `Null` stands for Python's None, NaN and NaT alike. */
  datatype Value =
    | Null
    | Int(i: int)
    | Real(f: Float)
    | Text(s: string)
    | Timestamp(seconds: int)  // a naive datetime, in seconds after 1970-01-01 00:00:00

  /** One row of a data frame, by column name. */
  type Record = map<string, Value>

  /** `column in df.columns`: some record of the frame carries the column. */
  predicate HasColumn(frame: seq<Record>, column: string) {
    exists i :: 0 <= i < |frame| && column in frame[i]
  }

  /** `row[column]` once the frame has the column: missing cells read as Null. */
  function Cell(row: Record, column: string): Value {
    if column in row then row[column] else Null
  }

  /** The names of `names` that no record of `frame` carries, in order: the columns `df[names]` would report missing. */
  function AbsentColumns(frame: seq<Record>, names: seq<string>): (r: seq<string>)
    ensures r == [] <==> forall c :: c in names ==> HasColumn(frame, c)
  {
    if names == [] then []
    else (if HasColumn(frame, names[0]) then [] else [names[0]]) + AbsentColumns(frame, names[1..])
  }

  /** The absent columns are exactly the requested names the frame does not carry. */
  lemma {:induction false} AbsentColumnsMembers(frame: seq<Record>, names: seq<string>)
    ensures forall c :: c in AbsentColumns(frame, names) <==> c in names && !HasColumn(frame, c)
  {
    if names != [] {
      AbsentColumnsMembers(frame, names[1..]);
      assert names == [names[0]] + names[1..];
    }
  }
}
