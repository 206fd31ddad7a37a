/** The in-memory table the dashboard works on (a pandas DataFrame in the
    program): an ordered list of named columns of equal length, each tagged
    numeric or text by the loader. */
module Tables {
  import opened Wrappers

  /** One cell: the missing marker (NaN/None), a number, or a piece of text. */
  datatype Cell = Missing | Num(x: real) | Text(s: string)

  /** The dtype tag of a column, as inferred by the spreadsheet loader. */
  datatype Kind = Numeric | Textual

  datatype Column = Column(name: string, kind: Kind, cells: seq<Cell>)

  datatype Table = Table(rows: nat, cols: seq<Column>)

  /** The column names, in table order (`df.columns`). */
  function Names(t: Table): (r: seq<string>)
    ensures |r| == |t.cols|
    ensures forall j :: 0 <= j < |t.cols| ==> r[j] == t.cols[j].name
  {
    seq(|t.cols|, j requires 0 <= j < |t.cols| => t.cols[j].name)
  }

  /** A numeric column holds numbers and missing markers only. */
  predicate NumericCells(c: Column) {
    c.kind == Numeric ==> forall i :: 0 <= i < |c.cells| ==> !c.cells[i].Text?
  }

  /** Every column has `rows` cells, numeric columns hold no text, and no
      two columns share a name. */
  predicate WellFormed(t: Table) {
    && (forall j :: 0 <= j < |t.cols| ==> |t.cols[j].cells| == t.rows && NumericCells(t.cols[j]))
    && (forall j, k :: 0 <= j < k < |t.cols| ==> t.cols[j].name != t.cols[k].name)
  }

  /** Number of missing cells in one column (one entry of `df.isnull().sum()`). */
  function MissingIn(s: seq<Cell>): (r: nat)
    ensures r <= |s|
    ensures r == 0 <==> forall i :: 0 <= i < |s| ==> !s[i].Missing?
  {
    if |s| == 0 then 0
    else (if s[0].Missing? then 1 else 0) + MissingIn(s[1..])
  }

  /** Total number of missing cells (`df.isnull().sum().sum()`). */
  function NullCount(cols: seq<Column>): (r: nat)
    ensures r == 0 <==> forall j :: 0 <= j < |cols| ==> MissingIn(cols[j].cells) == 0
  {
    if |cols| == 0 then 0
    else MissingIn(cols[0].cells) + NullCount(cols[1..])
  }

  /** Whether some cell of the table is missing. */
  predicate HasMissing(t: Table) {
    exists j, i :: 0 <= j < |t.cols| && 0 <= i < |t.cols[j].cells| && t.cols[j].cells[i].Missing?
  }

  /** The null count is positive exactly when some cell is missing: the test
      on which the null handler decides to offer a fill. */
  lemma NullCountPositive(t: Table)
    ensures NullCount(t.cols) > 0 <==> HasMissing(t)
  {
    if HasMissing(t) {
      var j, i :| 0 <= j < |t.cols| && 0 <= i < |t.cols[j].cells| && t.cols[j].cells[i].Missing?;
      assert MissingIn(t.cols[j].cells) != 0;
    }
  }

  /** Position of the column called `name`, if any. */
  function IndexOf(names: seq<string>, name: string): (r: Option<nat>)
    ensures r.Some? ==> r.value < |names| && names[r.value] == name
    ensures r.Some? ==> forall k :: 0 <= k < r.value ==> names[k] != name
    ensures r.None? <==> name !in names
  {
    if |names| == 0 then None
    else if names[0] == name then Some(0)
    else match IndexOf(names[1..], name)
      case Some(k) => Some(k + 1)
      case None => None
  }
}
