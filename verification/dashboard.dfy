/** The menu loop of `main` (app.py:148-188) as a state machine over the
    session: no table yet, or a table and the path it was loaded from. Each
    turn's answers are parameters; the loader, whose own retry loop returns a
    table whenever it returns, is represented by the table and path it
    returns. */
module Dashboard {
  import opened Tables
  import Text
  import Fill
  import Ranking
  import Selector
  import opened Wrappers

  datatype Session = NoTable | Loaded(table: Table, path: string)

  /** What a menu turn leads to: the next session, the Exit choice, the
      process ending on an uncaught error, or the answers running out while
      the column selector is still prompting. Two errors escape every `try`:
      `describe()` on a table without columns (app.py:59) and a
      non-numeric value column, at the row sum (app.py:86) or at `nlargest`
      (app.py:92). */
  datatype Outcome = Continue(session: Session) | Exit | Crash | OutOfInput

  /** The answers read during one turn: the menu choice, what option 1's
      loader returns, option 2's two null-handling answers and whether the
      fill call raised, and the lines option 3's column selector reads. */
  datatype Turn = Turn(
    choice: string,
    loadTable: Table, loadPath: string,
    fillAnswer: string, fillMethod: string, fillRaised: bool,
    selectLines: seq<string>)

  /** The loaded table, if any, is well-formed. */
  predicate Valid(s: Session) {
    s.Loaded? ==> WellFormed(s.table)
  }

  /** The identifier and value columns `select_columns` returns for `t`. */
  function SelectionOf(t: Table, turn: Turn): Option<Selector.Selection> {
    Selector.SelectColumns(Names(t), turn.selectLines)
  }

  /** Some value column of the selection names a text column of `t`. */
  predicate SelectsTextColumn(t: Table, values: seq<string>) {
    exists k, j :: 0 <= k < |values| && 0 <= j < |t.cols| && t.cols[j].name == values[k] && t.cols[j].kind == Textual
  }

  /** One pass through the menu, given the menu answer after `strip()`. */
  function Step(s: Session, choice: string, turn: Turn): (r: Outcome)
    requires Valid(s) && WellFormed(turn.loadTable)
    ensures choice == "1" ==> r == Continue(Loaded(turn.loadTable, turn.loadPath))
    ensures choice in ["2", "3"] && s.NoTable? ==> r == Continue(s)
    ensures choice == "2" && s.Loaded? && |s.table.cols| > 0 ==>
      r == Continue(Loaded(Fill.HandleNulls(s.table, turn.fillAnswer, turn.fillMethod, turn.fillRaised), s.path))
    ensures choice == "3" ==> r == Continue(s) || r == Crash || r == OutOfInput
    ensures choice == "3" && s.Loaded? ==> (r == OutOfInput <==> SelectionOf(s.table, turn).None?)
    ensures choice == "4" ==> r == Exit
    ensures choice !in ["1", "2", "3", "4"] ==> r == Continue(s)
    ensures r.Crash? <==>
      (s.Loaded? && choice == "2" && |s.table.cols| == 0) ||
      (s.Loaded? && choice == "3" && SelectionOf(s.table, turn).Some? &&
       !Ranking.AllNumeric(s.table, SelectionOf(s.table, turn).value.values))
    ensures r.Continue? ==> Valid(r.session)
    ensures r.Continue? && s.Loaded? ==> r.session.Loaded?
  {
    if choice == "1" then Continue(Loaded(turn.loadTable, turn.loadPath))
    else if choice == "2" then
      match s
      case Loaded(t, p) =>
        if |t.cols| == 0 then Crash
        else Continue(Loaded(Fill.HandleNulls(t, turn.fillAnswer, turn.fillMethod, turn.fillRaised), p))
      case NoTable => Continue(s)
    else if choice == "3" then
      match s
      case Loaded(t, _) =>
        (match SelectionOf(t, turn)
         case None => OutOfInput
         case Some(sel) => if Ranking.Totals(t, sel.values).None? then Crash else Continue(s))
      case NoTable => Continue(s)
    else if choice == "4" then Exit
    else Continue(s)
  }

  /** Option 3 crashes only on a selection the selector accepted, and then
      because one of its value columns is a text column. */
  lemma {:induction false} VisualizationCrash(s: Session, turn: Turn)
    requires Valid(s) && WellFormed(turn.loadTable)
    requires Step(s, "3", turn).Crash?
    ensures s.Loaded? && SelectionOf(s.table, turn).Some?
    ensures SelectsTextColumn(s.table, SelectionOf(s.table, turn).value.values)
  {
    var t := s.table;
    var values := SelectionOf(t, turn).value.values;
    var k :| 0 <= k < |values| && Ranking.NumericColumn(t, values[k]).None?;
    assert values[k] in Names(t);
    var j :| 0 <= j < |Names(t)| && Names(t)[j] == values[k];
    assert t.cols[j].name == values[k];
  }

  /** Runs turns until Exit, a crash, or the end of the answers. */
  function Run(s: Session, turns: seq<Turn>): (r: Outcome)
    requires Valid(s)
    requires forall k :: 0 <= k < |turns| ==> WellFormed(turns[k].loadTable)
    ensures r.Continue? ==> Valid(r.session)
    ensures s.Loaded? && r.Continue? ==> r.session.Loaded?
    decreases |turns|
  {
    if |turns| == 0 then Continue(s)
    else
      var rest := turns[1..];
      assert forall k :: 0 <= k < |rest| ==> rest[k] == turns[k + 1];
      match Step(s, Text.Strip(turns[0].choice), turns[0])
      case Continue(next) => Run(next, rest)
      case Exit => Exit
      case Crash => Crash
      case OutOfInput => OutOfInput
  }

  /** Only option 1 changes the path, and only options 1 and 2 change the
      table: across any run without them the session stays as it was. */
  lemma {:induction false} RunWithoutLoadOrAnalysis(s: Session, turns: seq<Turn>)
    requires Valid(s)
    requires forall k :: 0 <= k < |turns| ==> WellFormed(turns[k].loadTable)
    requires forall k :: 0 <= k < |turns| ==> Text.Strip(turns[k].choice) !in ["1", "2"]
    ensures Run(s, turns).Continue? ==> Run(s, turns).session == s
  {
    if |turns| > 0 {
      RunWithoutLoadOrAnalysis(s, turns[1..]);
    }
  }

  /** Option 1 is the only way to get a table: without it an empty session
      stays empty. */
  lemma {:induction false} RunStaysEmpty(s: Session, turns: seq<Turn>)
    requires Valid(s)
    requires forall k :: 0 <= k < |turns| ==> WellFormed(turns[k].loadTable)
    requires forall k :: 0 <= k < |turns| ==> Text.Strip(turns[k].choice) != "1"
    ensures s.NoTable? && Run(s, turns).Continue? ==> Run(s, turns).session.NoTable?
  {
    if |turns| > 0 {
      RunStaysEmpty(s, turns[1..]);
    }
  }

  /** Option 4 ends the run whatever follows it. */
  lemma ExitStops(s: Session, turns: seq<Turn>)
    requires Valid(s)
    requires forall k :: 0 <= k < |turns| ==> WellFormed(turns[k].loadTable)
    requires |turns| > 0 && Text.Strip(turns[0].choice) == "4"
    ensures Run(s, turns) == Exit
  {
  }
}
