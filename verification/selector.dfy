/** Column selection (`select_columns`, app.py:64-81): the identifier
    prompt, the comma-separated value-column prompt, and the retry loops
    around them, over a stream of input lines. */
module Selector {
  import opened Wrappers
  import Text

  /** One answer to the identifier prompt: accepted when the stripped line
      is a column name. */
  function AcceptId(names: seq<string>, line: string): (r: Option<string>)
    ensures r.Some? <==> Text.Strip(line) in names
    ensures r.Some? ==> r.value == Text.Strip(line) && r.value in names
  {
    var id := Text.Strip(line);
    if id in names then Some(id) else None
  }

  /** Every token stripped, in order. */
  function StripAll(tokens: seq<string>): (r: seq<string>)
    ensures |r| == |tokens|
    ensures forall k :: 0 <= k < |tokens| ==> r[k] == Text.Strip(tokens[k])
  {
    if |tokens| == 0 then [] else [Text.Strip(tokens[0])] + StripAll(tokens[1..])
  }

  /** `a` is `b` with some elements deleted: same order, nothing added. */
  predicate Subsequence(a: seq<string>, b: seq<string>)
    decreases |b|
  {
    if |a| == 0 then true
    else if |b| == 0 then false
    else if a[0] == b[0] then Subsequence(a[1..], b[1..])
    else Subsequence(a, b[1..])
  }

  /** Putting an element in front of the longer sequence keeps a
      subsequence a subsequence. */
  lemma {:induction false} SubsequenceSkip(a: seq<string>, b: seq<string>, x: string)
    requires Subsequence(a, b)
    ensures Subsequence(a, [x] + b)
    decreases |b|, 1
  {
    assert ([x] + b)[1..] == b;
    if |a| > 0 && a[0] == x {
      SubsequenceDropHead(a, b);
    }
  }

  /** Dropping the first element of a subsequence keeps it a subsequence. */
  lemma {:induction false} SubsequenceDropHead(a: seq<string>, b: seq<string>)
    requires |a| > 0 && Subsequence(a, b)
    ensures Subsequence(a[1..], b)
    decreases |b|, 0
  {
    assert [b[0]] + b[1..] == b;
    if a[0] == b[0] {
      SubsequenceSkip(a[1..], b[1..], b[0]);
    } else {
      SubsequenceDropHead(a, b[1..]);
      SubsequenceSkip(a[1..], b[1..], b[0]);
    }
  }

  /** The list comprehension of app.py:77: the stripped tokens that name a
      column. */
  function KeepColumns(tokens: seq<string>, names: seq<string>): (r: seq<string>)
    ensures forall k :: 0 <= k < |r| ==> r[k] in names
  {
    if |tokens| == 0 then []
    else
      var tok := Text.Strip(tokens[0]);
      if tok in names then [tok] + KeepColumns(tokens[1..], names)
      else KeepColumns(tokens[1..], names)
  }

  /** The kept tokens appear in the order the user typed them. */
  lemma {:induction false} KeepColumnsOrder(tokens: seq<string>, names: seq<string>)
    ensures Subsequence(KeepColumns(tokens, names), StripAll(tokens))
  {
    if |tokens| > 0 {
      var tok := Text.Strip(tokens[0]);
      var rest := KeepColumns(tokens[1..], names);
      KeepColumnsOrder(tokens[1..], names);
      assert StripAll(tokens) == [tok] + StripAll(tokens[1..]);
      if tok in names {
        assert ([tok] + rest)[1..] == rest;
      } else {
        SubsequenceSkip(rest, StripAll(tokens[1..]), tok);
      }
    }
  }

  /** Each column name occurs among the kept tokens exactly as often as among
      the stripped tokens (duplicates are kept, nothing that names a column
      is dropped), and nothing else occurs at all. */
  lemma {:induction false} KeepColumnsCounts(tokens: seq<string>, names: seq<string>, x: string)
    ensures multiset(KeepColumns(tokens, names))[x] == if x in names then multiset(StripAll(tokens))[x] else 0
  {
    if |tokens| > 0 {
      KeepColumnsCounts(tokens[1..], names, x);
      assert StripAll(tokens) == [Text.Strip(tokens[0])] + StripAll(tokens[1..]);
    }
  }

  /** No token, once stripped, names a column. */
  predicate NoColumnToken(tokens: seq<string>, names: seq<string>) {
    forall k :: 0 <= k < |tokens| ==> Text.Strip(tokens[k]) !in names
  }

  /** Nothing is kept exactly when no stripped token names a column. */
  lemma {:induction false} KeepColumnsEmpty(tokens: seq<string>, names: seq<string>)
    ensures |KeepColumns(tokens, names)| == 0 <==> NoColumnToken(tokens, names)
  {
    if |tokens| > 0 {
      KeepColumnsEmpty(tokens[1..], names);
      assert forall k :: 1 <= k < |tokens| ==> tokens[k] == tokens[1..][k - 1];
    }
  }

  /** One answer to the value-column prompt: the line is split on commas and
      the tokens naming a column are kept; an answer that keeps nothing is
      rejected. */
  function AcceptValues(names: seq<string>, line: string): (r: Option<seq<string>>)
    ensures r.Some? ==> |r.value| > 0 && forall k :: 0 <= k < |r.value| ==> r.value[k] in names
  {
    var kept := KeepColumns(Text.Split(line, ','), names);
    if |kept| == 0 then None else Some(kept)
  }

  /** A value answer is rejected exactly when none of its comma-separated
      tokens, once stripped, names a column. */
  lemma AcceptValuesRejects(names: seq<string>, line: string)
    ensures AcceptValues(names, line).None? <==> NoColumnToken(Text.Split(line, ','), names)
  {
    var tokens := Text.Split(line, ',');
    KeepColumnsEmpty(tokens, names);
    assert AcceptValues(names, line).None? <==> |KeepColumns(tokens, names)| == 0;
  }

  /** What the selector returns: the identifier column, the value columns, and
      the positions in the input of the two lines that were accepted. */
  datatype Selection = Selection(id: string, values: seq<string>, idLine: nat, valuesLine: nat)

  /** The identifier prompt's retry loop (app.py:69-72), reading from
      position `from`: the position of the first accepted line, or the end of
      the input. */
  function FirstAcceptedId(names: seq<string>, lines: seq<string>, from: nat): (i: nat)
    requires from <= |lines|
    ensures from <= i <= |lines|
    ensures i < |lines| ==> AcceptId(names, lines[i]).Some?
    ensures forall k :: from <= k < i ==> AcceptId(names, lines[k]).None?
    decreases |lines| - from
  {
    if from == |lines| || AcceptId(names, lines[from]).Some? then from
    else FirstAcceptedId(names, lines, from + 1)
  }

  /** The value prompt's retry loop (app.py:74-80), reading from position
      `from`: the position of the first accepted line, or the end of the
      input. */
  function FirstAcceptedValues(names: seq<string>, lines: seq<string>, from: nat): (j: nat)
    requires from <= |lines|
    ensures from <= j <= |lines|
    ensures j < |lines| ==> AcceptValues(names, lines[j]).Some?
    ensures forall k :: from <= k < j ==> AcceptValues(names, lines[k]).None?
    decreases |lines| - from
  {
    if from == |lines| || AcceptValues(names, lines[from]).Some? then from
    else FirstAcceptedValues(names, lines, from + 1)
  }

  /** `select_columns` over a stream of answers: the identifier prompt
      repeats until a line is accepted, then the value prompt repeats until a
      line is accepted. The result is built from the first acceptable line
      for each prompt, every line before it having been rejected. `None`
      means the stream ran out while the program would still be prompting. */
  function SelectColumns(names: seq<string>, lines: seq<string>): (r: Option<Selection>)
    ensures r.Some? ==> r.value.id in names && |r.value.values| > 0
    ensures r.Some? ==> forall k :: 0 <= k < |r.value.values| ==> r.value.values[k] in names
    ensures r.Some? ==>
      && r.value.idLine < r.value.valuesLine < |lines|
      && AcceptId(names, lines[r.value.idLine]) == Some(r.value.id)
      && (forall k :: 0 <= k < r.value.idLine ==> AcceptId(names, lines[k]).None?)
      && AcceptValues(names, lines[r.value.valuesLine]) == Some(r.value.values)
      && (forall k :: r.value.idLine < k < r.value.valuesLine ==> AcceptValues(names, lines[k]).None?)
    ensures r.None? ==>
      || (forall k :: 0 <= k < |lines| ==> AcceptId(names, lines[k]).None?)
      || (exists i :: 0 <= i < |lines| && AcceptId(names, lines[i]).Some?
            && (forall k :: 0 <= k < i ==> AcceptId(names, lines[k]).None?)
            && (forall k :: i < k < |lines| ==> AcceptValues(names, lines[k]).None?))
  {
    var i := FirstAcceptedId(names, lines, 0);
    if i == |lines| then None
    else
      var j := FirstAcceptedValues(names, lines, i + 1);
      if j == |lines| then None
      else Some(Selection(AcceptId(names, lines[i]).value, AcceptValues(names, lines[j]).value, i, j))
  }
}
