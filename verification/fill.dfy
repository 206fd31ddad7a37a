/** The null handler (`handle_nulls`, app.py:18-45): five strategies that
    rewrite the missing cells of a table, and the prompt logic that decides
    whether one of them is applied. */
module Fill {
  import opened Wrappers
  import opened Tables
  import Stats
  import Text

  /** Replaces every missing cell by `v`; present cells are kept
      (`Series.fillna(v)`). */
  function FillWith(s: seq<Cell>, v: Cell): (r: seq<Cell>)
    ensures |r| == |s|
    ensures forall i :: 0 <= i < |s| ==> r[i] == (if s[i].Missing? then v else s[i])
  {
    if |s| == 0 then [] else [if s[0].Missing? then v else s[0]] + FillWith(s[1..], v)
  }

  /** The last present cell of `s`, or `Missing` when every cell is missing. */
  function LastPresent(s: seq<Cell>): (r: Cell)
    ensures r.Missing? <==> forall k :: 0 <= k < |s| ==> s[k].Missing?
    ensures r.Missing? || r in s
  {
    if |s| == 0 then Missing
    else if !s[|s| - 1].Missing? then s[|s| - 1]
    else LastPresent(s[..|s| - 1])
  }

  /** The first present cell of `s`, or `Missing` when every cell is missing. */
  function FirstPresent(s: seq<Cell>): (r: Cell)
    ensures r.Missing? <==> forall k :: 0 <= k < |s| ==> s[k].Missing?
    ensures r.Missing? || r in s
  {
    if |s| == 0 then Missing
    else if !s[0].Missing? then s[0]
    else FirstPresent(s[1..])
  }

  /** `LastPresent` picks the nearest present cell: the present cell after
      which only missing cells follow. */
  lemma {:induction false} LastPresentNearest(s: seq<Cell>, k: nat)
    requires k < |s| && !s[k].Missing?
    requires forall m :: k < m < |s| ==> s[m].Missing?
    ensures LastPresent(s) == s[k]
  {
    if k < |s| - 1 {
      LastPresentNearest(s[..|s| - 1], k);
    }
  }

  /** `FirstPresent` picks the nearest present cell: the present cell before
      which only missing cells come. */
  lemma {:induction false} FirstPresentNearest(s: seq<Cell>, k: nat)
    requires k < |s| && !s[k].Missing?
    requires forall m :: 0 <= m < k ==> s[m].Missing?
    ensures FirstPresent(s) == s[k]
  {
    if k > 0 {
      FirstPresentNearest(s[1..], k - 1);
    }
  }

  /** The last present cell of a concatenation comes from the right part
      unless that part is entirely missing. */
  lemma {:induction false} LastPresentAppend(a: seq<Cell>, b: seq<Cell>)
    ensures LastPresent(a + b) == if LastPresent(b).Missing? then LastPresent(a) else LastPresent(b)
  {
    if |b| == 0 {
      assert a + b == a;
    } else {
      assert (a + b)[..|a + b| - 1] == a + b[..|b| - 1];
      LastPresentAppend(a, b[..|b| - 1]);
    }
  }

  /** Forward fill with a cell carried in from above the slice. */
  function ForwardFillFrom(s: seq<Cell>, carry: Cell): (r: seq<Cell>)
    ensures |r| == |s|
    ensures forall i :: 0 <= i < |s| ==>
      r[i] == (if LastPresent(s[..i + 1]).Missing? then carry else LastPresent(s[..i + 1]))
  {
    if |s| == 0 then []
    else
      var h := if s[0].Missing? then carry else s[0];
      var rest := ForwardFillFrom(s[1..], h);
      var r := [h] + rest;
      forall i | 0 <= i < |s|
        ensures r[i] == (if LastPresent(s[..i + 1]).Missing? then carry else LastPresent(s[..i + 1]))
      {
        if i == 0 {
          assert s[..1] == [] + [s[0]];
          assert s[..1][..0] == [];
        } else {
          assert s[..i + 1] == [s[0]] + s[1..][..i];
          LastPresentAppend([s[0]], s[1..][..i]);
          assert [s[0]][..0] == [];
        }
      }
      r
  }

  /** Forward fill (`ffill`): each cell becomes the last present cell at or
      above it. */
  function ForwardFill(s: seq<Cell>): (r: seq<Cell>)
    ensures |r| == |s|
    ensures forall i :: 0 <= i < |s| ==> r[i] == LastPresent(s[..i + 1])
  {
    ForwardFillFrom(s, Missing)
  }

  /** Forward fill cell by cell: a present cell is kept; a missing cell takes
      the nearest earlier present value of its column; a missing cell with no
      present cell above it stays missing; nothing new is introduced. */
  lemma ForwardFillSpec(s: seq<Cell>)
    ensures forall i :: 0 <= i < |s| && !s[i].Missing? ==> ForwardFill(s)[i] == s[i]
    ensures forall i :: 0 <= i < |s| && s[i].Missing? ==> ForwardFill(s)[i] == LastPresent(s[..i])
    ensures forall i :: 0 <= i < |s| ==> (ForwardFill(s)[i].Missing? <==> forall k :: 0 <= k <= i ==> s[k].Missing?)
    ensures forall i :: 0 <= i < |s| ==> ForwardFill(s)[i].Missing? || ForwardFill(s)[i] in s
  {
    var r := ForwardFill(s);
    forall i | 0 <= i < |s|
      ensures !s[i].Missing? ==> r[i] == s[i]
      ensures s[i].Missing? ==> r[i] == LastPresent(s[..i])
      ensures r[i].Missing? <==> forall k :: 0 <= k <= i ==> s[k].Missing?
      ensures r[i].Missing? || r[i] in s
    {
      assert s[..i + 1] == s[..i] + [s[i]];
      LastPresentAppend(s[..i], [s[i]]);
      assert [s[i]][..0] == [];
      assert forall k :: 0 <= k <= i ==> s[k] == s[..i + 1][k];
      var c := r[i];
      assert c.Missing? || c in s[..i + 1];
    }
  }

  /** Backward fill (`bfill`): each cell becomes the first present cell at or
      below it. */
  function BackwardFill(s: seq<Cell>): (r: seq<Cell>)
    ensures |r| == |s|
    ensures forall i :: 0 <= i < |s| ==> r[i] == FirstPresent(s[i..])
  {
    if |s| == 0 then []
    else
      var rest := BackwardFill(s[1..]);
      var h := if !s[0].Missing? then s[0] else if |rest| > 0 then rest[0] else Missing;
      var r := [h] + rest;
      forall i | 0 <= i < |s|
        ensures r[i] == FirstPresent(s[i..])
      {
        if i == 0 {
          if |rest| > 0 {
            assert s[1..][0..] == s[1..];
            assert s[0..][1..] == s[1..];
          }
        } else {
          assert s[1..][i - 1..] == s[i..];
        }
      }
      r
  }

  /** Backward fill cell by cell: a present cell is kept; a missing cell takes
      the nearest later present value of its column; a missing cell with no
      present cell below it stays missing; nothing new is introduced. */
  lemma BackwardFillSpec(s: seq<Cell>)
    ensures forall i :: 0 <= i < |s| && !s[i].Missing? ==> BackwardFill(s)[i] == s[i]
    ensures forall i :: 0 <= i < |s| - 1 && s[i].Missing? ==> BackwardFill(s)[i] == FirstPresent(s[i + 1..])
    ensures forall i :: 0 <= i < |s| ==> (BackwardFill(s)[i].Missing? <==> forall k :: i <= k < |s| ==> s[k].Missing?)
    ensures forall i :: 0 <= i < |s| ==> BackwardFill(s)[i].Missing? || BackwardFill(s)[i] in s
  {
    var r := BackwardFill(s);
    forall i | 0 <= i < |s|
      ensures !s[i].Missing? ==> r[i] == s[i]
      ensures i < |s| - 1 && s[i].Missing? ==> r[i] == FirstPresent(s[i + 1..])
      ensures r[i].Missing? <==> forall k :: i <= k < |s| ==> s[k].Missing?
      ensures r[i].Missing? || r[i] in s
    {
      assert s[i..][0] == s[i];
      assert s[i..][1..] == s[i + 1..];
      assert forall k :: i <= k < |s| ==> s[k] == s[i..][k - i];
      var c := r[i];
      assert c.Missing? || c in s[i..];
    }
  }

  /** Filling forward twice is filling forward once: after one pass every
      missing cell has no present cell above it. */
  lemma {:induction false} ForwardFillFromIdempotent(s: seq<Cell>, carry: Cell)
    ensures ForwardFillFrom(ForwardFillFrom(s, carry), carry) == ForwardFillFrom(s, carry)
  {
    if |s| > 0 {
      var h := if s[0].Missing? then carry else s[0];
      var r := ForwardFillFrom(s, carry);
      var rest := ForwardFillFrom(s[1..], h);
      assert r == [h] + rest;
      ForwardFillFromIdempotent(s[1..], h);
      assert r[1..] == rest;
      var h' := if r[0].Missing? then carry else r[0];
      assert h' == h;
    }
  }

  lemma ForwardFillIdempotent(s: seq<Cell>)
    ensures ForwardFill(ForwardFill(s)) == ForwardFill(s)
  {
    ForwardFillFromIdempotent(s, Missing);
  }

  function Reverse(s: seq<Cell>): seq<Cell> {
    seq(|s|, i requires 0 <= i < |s| => s[|s| - 1 - i])
  }

  lemma {:induction false} LastPresentReverse(s: seq<Cell>)
    ensures LastPresent(Reverse(s)) == FirstPresent(s)
  {
    if |s| > 0 {
      var r := Reverse(s);
      assert r[..|r| - 1] == Reverse(s[1..]);
      LastPresentReverse(s[1..]);
    }
  }

  lemma ReverseSuffix(s: seq<Cell>, i: nat)
    requires i < |s|
    ensures Reverse(s)[..|s| - i] == Reverse(s[i..])
  {
    var a := Reverse(s)[..|s| - i];
    var b := Reverse(s[i..]);
    assert |a| == |b|;
    forall k | 0 <= k < |s| - i
      ensures a[k] == b[k]
    {
      assert s[i..][|s| - i - 1 - k] == s[|s| - 1 - k];
    }
  }

  lemma MirrorAt(s: seq<Cell>, i: nat)
    requires i < |s|
    ensures BackwardFill(s)[i] == Reverse(ForwardFill(Reverse(s)))[i]
  {
    var rs := Reverse(s);
    var f := ForwardFill(rs);
    var j := |s| - 1 - i;
    assert Reverse(f)[i] == f[j];
    assert f[j] == LastPresent(rs[..j + 1]);
    ReverseSuffix(s, i);
    LastPresentReverse(s[i..]);
  }

  /** Backward fill is the mirror image of forward fill: reverse the
      column, fill forward, reverse back. */
  lemma BackwardFillMirror(s: seq<Cell>)
    ensures BackwardFill(s) == Reverse(ForwardFill(Reverse(s)))
  {
    forall i | 0 <= i < |s|
      ensures BackwardFill(s)[i] == Reverse(ForwardFill(Reverse(s)))[i]
    {
      MirrorAt(s, i);
    }
  }

  lemma ReverseReverse(s: seq<Cell>)
    ensures Reverse(Reverse(s)) == s
  {
  }

  /** Filling backward twice is filling backward once. */
  lemma BackwardFillIdempotent(s: seq<Cell>)
    ensures BackwardFill(BackwardFill(s)) == BackwardFill(s)
  {
    var f := ForwardFill(Reverse(s));
    BackwardFillMirror(s);
    BackwardFillMirror(Reverse(f));
    ReverseReverse(f);
    ForwardFillIdempotent(Reverse(s));
  }

  /** The numbers present in a column, in row order (what pandas aggregates
      with `skipna`). */
  function Present(s: seq<Cell>): (r: seq<real>)
    ensures |r| == 0 <==> forall i :: 0 <= i < |s| ==> !s[i].Num?
    ensures forall k :: 0 <= k < |r| ==> Num(r[k]) in s
  {
    if |s| == 0 then []
    else if s[0].Num? then [s[0].x] + Present(s[1..])
    else Present(s[1..])
  }

  /** The five fill methods offered by the prompt. */
  datatype Strategy = ZeroFill | MeanFill | MedianFill | ForwardFillMethod | BackwardFillMethod

  /** The fill value the mean or median strategy computes for a column:
      none for a text column or for a numeric column without present
      numbers (pandas yields NaN there, and filling with NaN changes
      nothing). */
  function Aggregate(c: Column, median: bool): Option<real> {
    var vals := Present(c.cells);
    if c.kind == Textual || |vals| == 0 then None
    else if median then Some(Stats.Median(vals))
    else Some(Stats.Mean(vals))
  }

  function FillColumn(c: Column, m: Strategy): Column {
    match m
    case ZeroFill => c.(cells := FillWith(c.cells, Num(0.0)))
    case MeanFill =>
      (match Aggregate(c, false)
       case Some(v) => c.(cells := FillWith(c.cells, Num(v)))
       case None => c)
    case MedianFill =>
      (match Aggregate(c, true)
       case Some(v) => c.(cells := FillWith(c.cells, Num(v)))
       case None => c)
    case ForwardFillMethod => c.(cells := ForwardFill(c.cells))
    case BackwardFillMethod => c.(cells := BackwardFill(c.cells))
  }

  /** Applies one strategy to every column. The shape, the names and the
      kinds are kept, and every strategy only ever rewrites missing cells. */
  function FillTable(t: Table, m: Strategy): (r: Table)
    ensures r.rows == t.rows && |r.cols| == |t.cols|
    ensures forall j :: 0 <= j < |t.cols| ==>
      && r.cols[j].name == t.cols[j].name
      && r.cols[j].kind == t.cols[j].kind
      && |r.cols[j].cells| == |t.cols[j].cells|
    ensures forall j, i :: 0 <= j < |t.cols| && 0 <= i < |t.cols[j].cells| && !t.cols[j].cells[i].Missing? ==>
      r.cols[j].cells[i] == t.cols[j].cells[i]
  {
    Table(t.rows, seq(|t.cols|, j requires 0 <= j < |t.cols| => FillColumn(t.cols[j], m)))
  }

  /** Zero fill (method `0`): afterwards no cell is missing, every missing
      cell holds 0 and every present cell is unchanged. */
  lemma ZeroFillSpec(t: Table)
    ensures !HasMissing(FillTable(t, ZeroFill))
    ensures forall j, i :: 0 <= j < |t.cols| && 0 <= i < |t.cols[j].cells| && t.cols[j].cells[i].Missing? ==>
      FillTable(t, ZeroFill).cols[j].cells[i] == Num(0.0)
  {
  }

  /** Mean and median fill (methods `1` and `2`): a text column is left
      alone, a numeric column with no present number stays as it is, and in
      any other numeric column each missing cell takes the column's mean
      (median) over its present numbers. */
  lemma AggregateFillSpec(t: Table, median: bool)
    ensures var r := FillTable(t, if median then MedianFill else MeanFill);
      forall j :: 0 <= j < |t.cols| ==>
        && (t.cols[j].kind == Textual ==> r.cols[j] == t.cols[j])
        && (|Present(t.cols[j].cells)| == 0 ==> r.cols[j] == t.cols[j])
        && (t.cols[j].kind == Numeric && |Present(t.cols[j].cells)| > 0 ==>
              forall i :: 0 <= i < |t.cols[j].cells| && t.cols[j].cells[i].Missing? ==>
                r.cols[j].cells[i] == Num(if median then Stats.Median(Present(t.cols[j].cells))
                                          else Stats.Mean(Present(t.cols[j].cells))))
  {
  }

  /** Applying forward fill (method `3`) to a table twice is applying it
      once. */
  lemma ForwardFillTableIdempotent(t: Table)
    ensures FillTable(FillTable(t, ForwardFillMethod), ForwardFillMethod) == FillTable(t, ForwardFillMethod)
  {
    var f := FillTable(t, ForwardFillMethod);
    var ff := FillTable(f, ForwardFillMethod);
    forall j | 0 <= j < |t.cols|
      ensures ff.cols[j] == f.cols[j]
    {
      ForwardFillIdempotent(t.cols[j].cells);
    }
  }

  lemma BackwardFillColumnIdempotent(c: Column)
    ensures FillColumn(FillColumn(c, BackwardFillMethod), BackwardFillMethod) == FillColumn(c, BackwardFillMethod)
  {
    BackwardFillIdempotent(c.cells);
  }

  /** Applying backward fill (method `4`) to a table twice is applying it
      once. */
  lemma BackwardFillTableIdempotent(t: Table)
    ensures FillTable(FillTable(t, BackwardFillMethod), BackwardFillMethod) == FillTable(t, BackwardFillMethod)
  {
    var b := FillTable(t, BackwardFillMethod);
    var bb := FillTable(b, BackwardFillMethod);
    forall j | 0 <= j < |t.cols|
      ensures bb.cols[j] == b.cols[j]
    {
      BackwardFillColumnIdempotent(t.cols[j]);
    }
    assert bb.cols == b.cols;
  }

  /** No strategy writes text into a numeric column. */
  lemma FillColumnNumeric(c: Column, m: Strategy)
    requires NumericCells(c)
    ensures NumericCells(FillColumn(c, m))
  {
    var s := c.cells;
    if m.ForwardFillMethod? {
      ForwardFillSpec(s);
    } else if m.BackwardFillMethod? {
      BackwardFillSpec(s);
    }
  }

  /** Every strategy keeps a well-formed table well-formed: no text is ever
      written into a numeric column. */
  lemma FillPreservesWellFormed(t: Table, m: Strategy)
    ensures WellFormed(t) ==> WellFormed(FillTable(t, m))
  {
    if WellFormed(t) {
      var r := FillTable(t, m);
      forall j | 0 <= j < |r.cols|
        ensures NumericCells(r.cols[j])
      {
        FillColumnNumeric(t.cols[j], m);
      }
    }
  }

  /** On a table without missing cells every strategy changes nothing. */
  lemma FillWithoutMissing(t: Table, m: Strategy)
    requires !HasMissing(t)
    ensures FillTable(t, m) == t
  {
    var r := FillTable(t, m);
    forall j | 0 <= j < |t.cols|
      ensures r.cols[j] == t.cols[j]
    {
    }
  }

  /** The fill-method answer, compared as typed (it is not stripped). */
  function ParseMethod(answer: string): (r: Option<Strategy>)
    ensures r.Some? <==> answer in ["0", "1", "2", "3", "4"]
    ensures answer == "0" ==> r == Some(ZeroFill)
    ensures answer == "1" ==> r == Some(MeanFill)
    ensures answer == "2" ==> r == Some(MedianFill)
    ensures answer == "3" ==> r == Some(ForwardFillMethod)
    ensures answer == "4" ==> r == Some(BackwardFillMethod)
  {
    if answer == "0" then Some(ZeroFill)
    else if answer == "1" then Some(MeanFill)
    else if answer == "2" then Some(MedianFill)
    else if answer == "3" then Some(ForwardFillMethod)
    else if answer == "4" then Some(BackwardFillMethod)
    else None
  }

  /** `handle_nulls`: when the table has a missing cell, the answer to the
      yes/no prompt lower-cases to "yes" and the method is one of `0`-`4`,
      the chosen strategy is applied unless the fill raised an error; in
      every other case the table comes back unchanged. `raised` stands for
      an exception thrown inside the library fill call. */
  function HandleNulls(t: Table, answer: string, methodAnswer: string, raised: bool): (r: Table)
    ensures NullCount(t.cols) == 0 ==> r == t
    ensures !Text.IsYes(answer) ==> r == t
    ensures ParseMethod(methodAnswer).None? ==> r == t
    ensures raised ==> r == t
    ensures NullCount(t.cols) > 0 && Text.IsYes(answer) && ParseMethod(methodAnswer).Some? && !raised ==>
      r == FillTable(t, ParseMethod(methodAnswer).value)
    ensures WellFormed(t) ==> WellFormed(r)
  {
    if NullCount(t.cols) > 0 && Text.IsYes(answer) then
      match ParseMethod(methodAnswer)
      case Some(m) =>
        if raised then t
        else
          FillPreservesWellFormed(t, m);
          FillTable(t, m)
      case None => t
    else t
  }
}
