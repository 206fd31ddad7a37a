/** The data half of `create_visualizations` (app.py:83-105): the working
    copy with its `Total` column, the count prompt, the top-N rows and the
    subplot grid. The charts themselves are not modelled. */
module Ranking {
  import opened Wrappers
  import opened Tables
  import Text

  /** A cell's contribution to a row sum: pandas' `sum` skips missing
      values. */
  function CellValue(c: Cell): real {
    if c.Num? then c.x else 0.0
  }

  /** The column called `name`, provided it is numeric. */
  function NumericColumn(t: Table, name: string): (r: Option<Column>)
    ensures r.Some? ==> r.value in t.cols && r.value.name == name && r.value.kind == Numeric
    ensures WellFormed(t) ==>
      (r.None? <==> forall j :: 0 <= j < |t.cols| && t.cols[j].name == name ==> t.cols[j].kind == Textual)
  {
    match IndexOf(Names(t), name)
    case Some(j) => if t.cols[j].kind == Numeric then Some(t.cols[j]) else None
    case None => None
  }

  /** Every listed column is a numeric column of the table. */
  predicate AllNumeric(t: Table, values: seq<string>) {
    forall k :: 0 <= k < |values| ==> NumericColumn(t, values[k]).Some?
  }

  /** The reference row total: row `i` summed over the listed columns, one
      term per list entry, so a column listed twice counts twice. */
  function RowSum(t: Table, values: seq<string>, i: nat): real
    requires WellFormed(t) && i < t.rows && AllNumeric(t, values)
  {
    if |values| == 0 then 0.0
    else RowSum(t, values[..|values| - 1], i) + CellValue(NumericColumn(t, values[|values| - 1]).value.cells[i])
  }

  /** `df[value_cols].sum(axis=1)`, computed column by column as pandas adds
      whole columns. Each entry equals the row-wise reference sum; the result
      is absent when a listed column is not numeric: pandas raises here, or,
      for a column of strings, at `nlargest` on the resulting total. */
  function Totals(t: Table, values: seq<string>): (r: Option<seq<real>>)
    requires WellFormed(t)
    ensures r.Some? <==> AllNumeric(t, values)
    ensures r.Some? ==> |r.value| == t.rows && forall i :: 0 <= i < t.rows ==> r.value[i] == RowSum(t, values, i)
  {
    if |values| == 0 then Some(seq(t.rows, i => 0.0))
    else
      var init := values[..|values| - 1];
      assert forall k :: 0 <= k < |init| ==> init[k] == values[k];
      assert AllNumeric(t, values) <==>
        AllNumeric(t, init) && NumericColumn(t, values[|values| - 1]).Some?;
      match Totals(t, init)
      case None => None
      case Some(acc) =>
        match NumericColumn(t, values[|values| - 1])
        case None => None
        case Some(c) =>
          assert |c.cells| == t.rows;
          Some(seq(t.rows, i requires 0 <= i < t.rows => acc[i] + CellValue(c.cells[i])))
  }

  /** The `Total` column holding `totals`. */
  function TotalColumn(totals: seq<real>): (c: Column)
    ensures c.name == "Total" && c.kind == Numeric && |c.cells| == |totals|
    ensures NumericCells(c)
    ensures forall i :: 0 <= i < |totals| ==> c.cells[i] == Num(totals[i])
  {
    Column("Total", Numeric, seq(|totals|, i requires 0 <= i < |totals| => Num(totals[i])))
  }

  /** The working copy with `Total` assigned: an existing `Total` column is
      overwritten in place, otherwise the column is appended. The table the
      caller holds is a value and is never changed; every other column of
      the copy is the caller's column. */
  function WithTotal(t: Table, totals: seq<real>): (r: Table)
    requires |totals| == t.rows
    ensures r.rows == t.rows
    ensures |r.cols| == |t.cols| + (if "Total" in Names(t) then 0 else 1)
    ensures forall j :: 0 <= j < |t.cols| && t.cols[j].name != "Total" ==> r.cols[j] == t.cols[j]
    ensures IndexOf(Names(r), "Total").Some?
    ensures r.cols[IndexOf(Names(r), "Total").value] == TotalColumn(totals)
  {
    match IndexOf(Names(t), "Total")
    case Some(j) =>
      var r := t.(cols := t.cols[j := TotalColumn(totals)]);
      assert Names(r) == Names(t);
      r
    case None =>
      var r := t.(cols := t.cols + [TotalColumn(totals)]);
      assert Names(r) == Names(t) + ["Total"];
      assert forall k :: 0 <= k < |t.cols| ==> Names(r)[k] == Names(t)[k];
      r
  }

  /** The working copy of a well-formed table is well-formed. */
  lemma WithTotalWellFormed(t: Table, totals: seq<real>)
    requires |totals| == t.rows
    ensures WellFormed(t) ==> WellFormed(WithTotal(t, totals))
  {
    if WellFormed(t) {
      var r := WithTotal(t, totals);
      var j := IndexOf(Names(r), "Total").value;
      forall a, b | 0 <= a < b < |r.cols|
        ensures r.cols[a].name != r.cols[b].name
      {
        if b == j || a == j {
          var other := if a == j then b else a;
          if other < |t.cols| {
            assert Names(t)[other] == t.cols[other].name;
          }
        }
      }
    }
  }

  /** The count prompt, `int(input(...) or 4)` with 4 on a ValueError: a
      blank line and an unparsable line both give 4, any other line its
      integer value, negative ones included. */
  function ReadCount(line: string): (n: int)
    ensures line == "" ==> n == 4
    ensures Text.ParseInt(line).None? ==> n == 4
    ensures line != "" && Text.ParseInt(line).Some? ==> n == Text.ParseInt(line).value
  {
    if line == "" then 4 else Text.ParseInt(line).GetOr(4)
  }

  /** Typing a number back gives that number when it is within `int()`'s
      digit limit, and the default 4 when it is longer. */
  lemma ReadCountShow(n: int)
    ensures ReadCount(Text.Show(n)) == if Text.WithinDigitLimit(n) then n else 4
  {
    Text.ParseShow(n);
  }

  /** How many rows `nlargest(n, 'Total')` keeps: `n` capped by the row
      count, and none for `n <= 0`. */
  function KeepCount(n: int, rows: nat): (k: nat)
    ensures k <= rows && (n >= 0 ==> k <= n)
    ensures n <= 0 ==> k == 0
    ensures n > 0 ==> k == rows || k == n
  {
    if n <= 0 then 0 else if n < rows then n else rows
  }

  /** Position of a largest total among the candidate rows `pool`; the first
      one on a tie. */
  method MaxPosition(totals: seq<real>, pool: seq<nat>) returns (p: nat)
    requires |pool| > 0
    requires forall b :: 0 <= b < |pool| ==> pool[b] < |totals|
    ensures p < |pool|
    ensures forall b :: 0 <= b < |pool| ==> totals[pool[b]] <= totals[pool[p]]
  {
    p := 0;
    var q := 1;
    while q < |pool|
      invariant p < q <= |pool|
      invariant forall b :: 0 <= b < q ==> totals[pool[b]] <= totals[pool[p]]
    {
      if totals[pool[q]] > totals[pool[p]] {
        p := q;
      }
      q := q + 1;
    }
  }

  /** Every position is a row index. */
  ghost predicate InRange(n: nat, xs: seq<nat>) {
    forall a :: 0 <= a < |xs| ==> xs[a] < n
  }

  /** No row is listed twice in `top`, twice in `pool`, or in both. */
  ghost predicate Apart(top: seq<nat>, pool: seq<nat>) {
    && (forall a, b :: 0 <= a < b < |top| ==> top[a] != top[b])
    && (forall a, b :: 0 <= a < |top| && 0 <= b < |pool| ==> top[a] != pool[b])
    && (forall a, b :: 0 <= a < b < |pool| ==> pool[a] != pool[b])
  }

  /** `top` is in descending order of total and beats every pooled row. */
  ghost predicate Ahead(totals: seq<real>, top: seq<nat>, pool: seq<nat>)
    requires InRange(|totals|, top) && InRange(|totals|, pool)
  {
    && (forall a, b :: 0 <= a < b < |top| ==> totals[top[a]] >= totals[top[b]])
    && (forall a, b :: 0 <= a < |top| && 0 <= b < |pool| ==> totals[top[a]] >= totals[pool[b]])
  }

  /** The state of the selection: `top` holds the rows picked so far, in
      descending order of total, `pool` the rows not yet picked; together
      they hold every row exactly once, and no row in the pool beats a row
      already picked. */
  ghost predicate Picking(totals: seq<real>, top: seq<nat>, pool: seq<nat>) {
    && |top| + |pool| == |totals|
    && InRange(|totals|, top) && InRange(|totals|, pool)
    && Apart(top, pool)
    && (forall j :: 0 <= j < |totals| ==> j in top || j in pool)
    && Ahead(totals, top, pool)
  }

  /** `pool` with position `p` removed, described position by position. */
  lemma RemoveAt(pool: seq<nat>, p: nat)
    requires p < |pool|
    ensures |pool[..p] + pool[p + 1..]| == |pool| - 1
    ensures forall b :: 0 <= b < |pool| - 1 ==>
      (pool[..p] + pool[p + 1..])[b] == (if b < p then pool[b] else pool[b + 1])
  {
  }

  lemma PickCovers(n: nat, top: seq<nat>, pool: seq<nat>, p: nat)
    requires p < |pool|
    requires forall j :: 0 <= j < n ==> j in top || j in pool
    ensures forall j :: 0 <= j < n ==> j in top + [pool[p]] || j in pool[..p] + pool[p + 1..]
  {
    var pool' := pool[..p] + pool[p + 1..];
    RemoveAt(pool, p);
    forall j | 0 <= j < n
      ensures j in top + [pool[p]] || j in pool'
    {
      if j !in top {
        var b :| 0 <= b < |pool| && pool[b] == j;
        if b < p {
          assert pool'[b] == j;
        } else if b > p {
          assert pool'[b - 1] == j;
        }
      }
    }
  }

  lemma PickApart(top: seq<nat>, pool: seq<nat>, p: nat)
    requires p < |pool| && Apart(top, pool)
    ensures Apart(top + [pool[p]], pool[..p] + pool[p + 1..])
  {
    var top' := top + [pool[p]];
    var pool' := pool[..p] + pool[p + 1..];
    RemoveAt(pool, p);
    forall a, b | 0 <= a < |top'| && 0 <= b < |pool'|
      ensures top'[a] != pool'[b]
    {
      var c := if b < p then b else b + 1;
      assert pool'[b] == pool[c];
    }
    forall a, b | 0 <= a < b < |pool'|
      ensures pool'[a] != pool'[b]
    {
      var c := if a < p then a else a + 1;
      var d := if b < p then b else b + 1;
      assert pool'[a] == pool[c] && pool'[b] == pool[d];
    }
  }

  lemma PickAhead(totals: seq<real>, top: seq<nat>, pool: seq<nat>, p: nat)
    requires p < |pool| && InRange(|totals|, top) && InRange(|totals|, pool)
    requires Ahead(totals, top, pool)
    requires forall b :: 0 <= b < |pool| ==> totals[pool[b]] <= totals[pool[p]]
    ensures InRange(|totals|, top + [pool[p]]) && InRange(|totals|, pool[..p] + pool[p + 1..])
    ensures Ahead(totals, top + [pool[p]], pool[..p] + pool[p + 1..])
  {
    var top' := top + [pool[p]];
    var pool' := pool[..p] + pool[p + 1..];
    RemoveAt(pool, p);
    forall a, b | 0 <= a < b < |top'|
      ensures totals[top'[a]] >= totals[top'[b]]
    {
      if b == |top| {
        assert top'[b] == pool[p];
      }
    }
    forall a, b | 0 <= a < |top'| && 0 <= b < |pool'|
      ensures totals[top'[a]] >= totals[pool'[b]]
    {
      var c := if b < p then b else b + 1;
      assert pool'[b] == pool[c];
    }
  }

  /** Moving a largest pooled row to the end of `top` keeps the selection
      state. */
  lemma PickLargest(totals: seq<real>, top: seq<nat>, pool: seq<nat>, p: nat)
    requires Picking(totals, top, pool)
    requires p < |pool|
    requires forall b :: 0 <= b < |pool| ==> totals[pool[b]] <= totals[pool[p]]
    ensures Picking(totals, top + [pool[p]], pool[..p] + pool[p + 1..])
  {
    RemoveAt(pool, p);
    PickCovers(|totals|, top, pool, p);
    PickApart(top, pool, p);
    PickAhead(totals, top, pool, p);
  }

  /** `nlargest(n, 'Total')` as row positions: `KeepCount(n, rows)` distinct
      rows, in descending order of total, and no row left out has a larger
      total than a row kept. */
  method TopN(totals: seq<real>, n: int) returns (top: seq<nat>)
    ensures |top| == KeepCount(n, |totals|)
    ensures forall a :: 0 <= a < |top| ==> top[a] < |totals|
    ensures forall a, b :: 0 <= a < b < |top| ==> top[a] != top[b]
    ensures forall a, b :: 0 <= a < b < |top| ==> totals[top[a]] >= totals[top[b]]
    ensures forall a, j :: 0 <= a < |top| && 0 <= j < |totals| && j !in top ==> totals[top[a]] >= totals[j]
  {
    var k := KeepCount(n, |totals|);
    top := [];
    var pool: seq<nat> := seq(|totals|, j requires 0 <= j < |totals| => j);
    forall j | 0 <= j < |totals|
      ensures j in pool
    {
      assert pool[j] == j;
    }
    while |top| < k
      invariant |top| <= k
      invariant Picking(totals, top, pool)
    {
      var p := MaxPosition(totals, pool);
      PickLargest(totals, top, pool, p);
      top := top + [pool[p]];
      pool := pool[..p] + pool[p + 1..];
    }
    forall a, j | 0 <= a < |top| && 0 <= j < |totals| && j !in top
      ensures totals[top[a]] >= totals[j]
    {
      var b :| 0 <= b < |pool| && pool[b] == j;
      assert totals[top[a]] >= totals[pool[b]];
    }
  }

  /** Rows of the subplot grid, `(n + 1) // 2` with Python's floor division
      (Dafny's `/` by a positive divisor floors too): two columns of that
      many rows give at least `n` slots and at most one spare. */
  function SubplotRows(n: int): (rows: int)
    ensures n <= 2 * rows <= n + 1
  {
    (n + 1) / 2
  }

  /** For a positive count every kept row gets its own subplot slot. */
  lemma SubplotSlots(n: int, rowCount: nat)
    requires n >= 1
    ensures SubplotRows(n) >= 1
    ensures KeepCount(n, rowCount) <= 2 * SubplotRows(n)
  {
  }

  /** Typing a number with whitespace that `int()` skips around it gives the
      number within the digit limit, and the default 4 beyond it. */
  lemma ReadCountPadded(a: string, n: int, b: string)
    requires forall k :: 0 <= k < |a| ==> Text.IntSpace(a[k])
    requires forall k :: 0 <= k < |b| ==> Text.IntSpace(b[k])
    ensures ReadCount(a + Text.Show(n) + b) == if Text.WithinDigitLimit(n) then n else 4
  {
    Text.ParsePadded(a, n, b);
    assert |Text.Show(n)| > 0 by {
      if n < 0 { assert Text.Show(n) == "-" + Text.ShowNat(-n); }
    }
    assert |a + Text.Show(n) + b| > 0;
  }

  /** Whitespace around the count is ignored, except the separators
      U+001C-U+001F, which make `int()` raise and so give the default. */
  lemma ReadCountSpaces()
    ensures ReadCount(" 5\n") == 5
    ensures ReadCount("\U{1C}5") == 4
  {
    Text.ParseIntSpaces();
  }

  /** What the visualization step computes before drawing. */
  datatype Ranked = Ranked(work: Table, n: int, top: seq<nat>)

  /** The data half of `create_visualizations`: the working copy with its
      `Total` column, the count read from `countLine`, and the top rows of
      the copy by total. `None` stands for the uncaught error, at the row
      sum (app.py:86) or at `nlargest` (app.py:92), of a
      non-numeric value column. */
  method Rank(t: Table, values: seq<string>, countLine: string) returns (r: Option<Ranked>)
    requires WellFormed(t)
    ensures r.Some? <==> AllNumeric(t, values)
    ensures r.Some? ==> r.value.n == ReadCount(countLine)
    ensures r.Some? ==> r.value.work == WithTotal(t, Totals(t, values).value)
    ensures r.Some? ==> r.value.work.rows == t.rows && WellFormed(r.value.work)
    ensures r.Some? ==> |r.value.top| == KeepCount(r.value.n, t.rows)
    ensures r.Some? ==> forall a :: 0 <= a < |r.value.top| ==> r.value.top[a] < t.rows
    ensures r.Some? ==> forall a, b :: 0 <= a < b < |r.value.top| ==> r.value.top[a] != r.value.top[b]
    ensures r.Some? ==> forall a, b :: 0 <= a < b < |r.value.top| ==>
      RowSum(t, values, r.value.top[a]) >= RowSum(t, values, r.value.top[b])
    ensures r.Some? ==> forall a, j :: 0 <= a < |r.value.top| && 0 <= j < t.rows && j !in r.value.top ==>
      RowSum(t, values, r.value.top[a]) >= RowSum(t, values, j)
  {
    var totals := Totals(t, values);
    if totals.None? {
      return None;
    }
    var tot := totals.value;
    var work := WithTotal(t, tot);
    WithTotalWellFormed(t, tot);
    var n := ReadCount(countLine);
    var top := TopN(tot, n);
    r := Some(Ranked(work, n, top));
  }

  /** A three-row table: regions A, B, C with quarterly figures Q1 and Q2. */
  function ExampleTable(): (t: Table)
    ensures WellFormed(t)
  {
    Table(3, [
      Column("Region", Textual, [Text("A"), Text("B"), Text("C")]),
      Column("Q1", Numeric, [Num(10.0), Num(5.0), Num(100.0)]),
      Column("Q2", Numeric, [Num(20.0), Num(5.0), Num(1.0)])])
  }

  /** Q1 and Q2 are the example's numeric columns. */
  lemma ExampleColumns()
    ensures NumericColumn(ExampleTable(), "Q1") == Some(ExampleTable().cols[1])
    ensures NumericColumn(ExampleTable(), "Q2") == Some(ExampleTable().cols[2])
  {
    var t := ExampleTable();
    assert Names(t) == ["Region", "Q1", "Q2"];
    assert Names(t)[1..] == ["Q1", "Q2"];
    assert Names(t)[1..][1..] == ["Q2"];
  }

  /** Row `i` of the example summed over Q1 and Q2. */
  lemma ExampleRowSum(i: nat)
    requires i < 3
    requires AllNumeric(ExampleTable(), ["Q1", "Q2"])
    ensures RowSum(ExampleTable(), ["Q1", "Q2"], i) == [30.0, 10.0, 101.0][i]
  {
    var t := ExampleTable();
    ExampleColumns();
    assert ["Q1", "Q2"][..1] == ["Q1"];
    assert ["Q1"][..0] == [];
    assert RowSum(t, ["Q1"], i) == CellValue(t.cols[1].cells[i]);
  }

  /** Summing Q1 and Q2 gives the totals 30, 10 and 101. */
  lemma ExampleTotals()
    ensures Totals(ExampleTable(), ["Q1", "Q2"]) == Some([30.0, 10.0, 101.0])
  {
    var t := ExampleTable();
    ExampleColumns();
    assert AllNumeric(t, ["Q1", "Q2"]);
    var r := Totals(t, ["Q1", "Q2"]).value;
    forall i | 0 <= i < 3
      ensures r[i] == [30.0, 10.0, 101.0][i]
    {
      ExampleRowSum(i);
    }
    assert r == [30.0, 10.0, 101.0];
  }

  /** Any answer meeting the contract of `TopN` for the totals 30, 10, 101 and
      a count of 2 is rows C then A. */
  lemma ExampleTopTwo(top: seq<nat>)
    requires |top| == KeepCount(2, 3)
    requires forall a :: 0 <= a < |top| ==> top[a] < 3
    requires forall a, b :: 0 <= a < b < |top| ==> top[a] != top[b]
    requires forall a, b :: 0 <= a < b < |top| ==> [30.0, 10.0, 101.0][top[a]] >= [30.0, 10.0, 101.0][top[b]]
    requires forall a, j :: 0 <= a < |top| && 0 <= j < 3 && j !in top ==>
      [30.0, 10.0, 101.0][top[a]] >= [30.0, 10.0, 101.0][j]
    ensures top == [2, 0]
  {
    var totals := [30.0, 10.0, 101.0];
    var x, y := top[0], top[1];
    assert top == [x, y];
    assert totals[x] >= totals[y];
    assert totals[x] >= totals[2] || 2 in top;
    assert totals[y] >= totals[0] || 0 in top;
  }
}
