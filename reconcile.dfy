/** Reconciliation of one procedure file: read the server's definition,
    compare it with the substituted local lines, and decide whether to create
    the procedure, update it, or report it missing, equal or failed. */
module Reconcile {
  import opened Wrappers
  import opened Text
  import opened Rewrite
  import opened Compare
  import opened Substitution

  /** Line separator of the statement sent to the server. */
  const CrLf: string := "\r\n"

  /** The statement `UpdateDatabase` executes: the lines joined with CR LF,
      every `create` in any case replaced by `alter`, so none is left. */
  function UpdateStatement(lines: seq<string>): (r: string)
    ensures !Occurs(r, "create", true)
  {
    KeywordsSeparated();
    NoOccurrenceRemains(Join(lines, CrLf), "create", "alter", true);
    ReplaceAll(Join(lines, CrLf), "create", "alter", true)
  }

  /** The statement `InsertDatabase` executes: the lines joined with CR LF,
      every `alter` in any case replaced by `create`, so none is left. */
  function InsertStatement(lines: seq<string>): (r: string)
    ensures !Occurs(r, "alter", true)
  {
    KeywordsSeparated();
    NoOccurrenceRemains(Join(lines, CrLf), "alter", "create", true);
    ReplaceAll(Join(lines, CrLf), "alter", "create", true)
  }

  /** What checking one file does. A statement is written to the server only
      in `Created` and `Updated`. */
  datatype Outcome =
    | Created(statement: string)
    | Missing
    | Passed
    | Updated(statement: string)
    | Failed(report: seq<Mismatch>)

  /** The boolean `CheckOneFile` returns. */
  predicate Succeeded(o: Outcome)
  {
    !o.Missing? && !o.Failed?
  }

  /** The decision of `CheckOneFile`, given the substituted local lines and
      the server's lines (`None` when the procedure could not be read). */
  function Reconcile(left: seq<string>, remote: Option<seq<string>>, maxErrors: int,
                     create: bool, update: bool): Outcome
  {
    if remote.None? then
      if create then Created(InsertStatement(left)) else Missing
    else
      var report := Report(left, remote.value, maxErrors);
      if |report| == 0 then Passed
      else if update then Updated(UpdateStatement(left))
      else Failed(report)
  }

  /** The server's lines with line terminators stripped, or `None`. */
  function FetchedLines(rows: Option<seq<string>>): Option<seq<string>>
  {
    match rows
    case None => None
    case Some(rs) => Some(seq(|rs|, i requires 0 <= i < |rs| => StripLineEnd(rs[i])))
  }

  /** The row loop of `ReadProcedure`: `rows` is what the server answered to
      `sp_helptext`, `None` when it raised a programming error. */
  method ReadProcedure(rows: Option<seq<string>>) returns (sp: Option<seq<string>>)
    ensures sp.None? <==> rows.None?
    ensures rows.Some? ==>
      && |sp.value| == |rows.value|
      && forall i :: 0 <= i < |rows.value| ==> sp.value[i] == StripLineEnd(rows.value[i])
    ensures sp == FetchedLines(rows)
  {
    if rows.None? {
      return None;
    }
    var lines: seq<string> := [];
    for i := 0 to |rows.value|
      invariant |lines| == i
      invariant forall k :: 0 <= k < i ==> lines[k] == StripLineEnd(rows.value[k])
    {
      lines := lines + [StripLineEnd(rows.value[i])];
    }
    assert lines == FetchedLines(rows).value;
    sp := Some(lines);
  }

  /** One file end to end: substitute the server's variables into the file's
      lines, read the procedure, compare and decide. */
  method CheckOneFile(fileLines: seq<string>, vars: seq<(string, string)>, rows: Option<seq<string>>,
                      maxErrors: int, create: bool, update: bool)
    returns (outcome: Outcome, ok: bool)
    ensures outcome == Reconcile(SubstituteLines(fileLines, vars), FetchedLines(rows), maxErrors, create, update)
    ensures ok == Succeeded(outcome)
  {
    var text := new string[|fileLines|](i requires 0 <= i < |fileLines| => fileLines[i]);
    assert text[..] == fileLines;
    var left := ReplaceVars(text, vars);
    var right := ReadProcedure(rows);
    if right.None? {
      if create {
        outcome := Created(InsertStatement(left[..]));
      } else {
        outcome := Missing;
      }
    } else {
      var result := CompareFileToDatabase(left[..], right.value, maxErrors);
      if |result| == 0 {
        outcome := Passed;
      } else if update {
        outcome := Updated(UpdateStatement(left[..]));
      } else {
        outcome := Failed(result);
      }
    }
    ok := Succeeded(outcome);
  }

  /** The decision table, stated against the meaning of the comparison: with a
      cap of at least one, the file passes exactly when the server holds an
      equivalent definition. */
  lemma {:induction false} ReconcileDecisionTable(left: seq<string>, remote: Option<seq<string>>, maxErrors: int,
                               create: bool, update: bool)
    requires maxErrors >= 1
    ensures var o := Reconcile(left, remote, maxErrors, create, update);
      && (o.Created? <==> remote.None? && create)
      && (o.Missing? <==> remote.None? && !create)
      && (o.Passed? <==> remote.Some? && Equivalent(left, remote.value))
      && (o.Updated? <==> remote.Some? && !Equivalent(left, remote.value) && update)
      && (o.Failed? <==> remote.Some? && !Equivalent(left, remote.value) && !update)
      && (o.Created? ==> o.statement == InsertStatement(left))
      && (o.Updated? ==> o.statement == UpdateStatement(left))
      && (o.Failed? ==> o.report == Report(left, remote.value, maxErrors) && o.report != [])
      && (Succeeded(o) <==> if remote.None? then create else Equivalent(left, remote.value) || update)
  {
    if remote.Some? {
      ReportEmptyIffEquivalent(left, remote.value, maxErrors);
    }
  }

  /** With a cap of zero or less no line is compared: a file whose line count
      matches the server's passes whatever its content. */
  lemma {:induction false} ReconcileWithoutCap(left: seq<string>, remote: Option<seq<string>>, maxErrors: int,
                                               create: bool, update: bool)
    requires maxErrors <= 0
    ensures var o := Reconcile(left, remote, maxErrors, create, update);
      && (o.Passed? <==> remote.Some? && |left| == |remote.value|)
      && (o.Updated? <==> remote.Some? && |left| != |remote.value| && update)
      && (o.Failed? <==> remote.Some? && |left| != |remote.value| && !update)
  {
    if remote.Some? {
      ReportWithoutCap(left, remote.value, maxErrors);
    }
  }

  /** Neither keyword can be formed by the other one and its neighbours. */
  lemma KeywordsSeparated()
    ensures Separated("create", "alter", true)
    ensures Separated("alter", "create", true)
  {
    var c, a := "create", "alter";
    forall i | 0 <= i < |a|
      ensures Clash(a[i..], c, true)
    {
      assert KeyChar(a[i..][0], true) != KeyChar(c[0], true);
    }
    forall i | 0 <= i < |c|
      ensures Clash(c[i..], a, true)
    {
      if i == 3 {
        assert KeyChar(c[i..][1], true) != KeyChar(a[1], true);
      } else {
        assert KeyChar(c[i..][0], true) != KeyChar(a[0], true);
      }
    }
  }

  function RewriteEach(lines: seq<string>, p: string, q: string): seq<string>
    requires p != []
  {
    seq(|lines|, i requires 0 <= i < |lines| => ReplaceAll(lines[i], p, q, true))
  }

  /** A keyword cannot span a line break, so rewriting the joined text is
      rewriting each line: the line structure is kept. */
  lemma {:induction false} RewriteJoined(lines: seq<string>, p: string, q: string)
    requires p != [] && Outside('\r', p, true) && Outside('\n', p, true)
    ensures ReplaceAll(Join(lines, CrLf), p, q, true) == Join(RewriteEach(lines, p, q), CrLf)
    decreases |lines|
  {
    var each := RewriteEach(lines, p, q);
    if |lines| == 0 {
      ReplaceAllShort("", p, q, true);
    } else if |lines| > 1 {
      var rest := Join(lines[1..], CrLf);
      RewriteJoined(lines[1..], p, q);
      assert RewriteEach(lines[1..], p, q) == each[1..];
      assert Join(lines, CrLf) == lines[0] + (['\r'] + (['\n'] + rest));
      ReplaceAllAround(lines[0], '\r', ['\n'] + rest, p, q, true);
      AroundEmpty('\n', rest, p, q, true);
    }
  }

  lemma KeywordsAvoidLineBreaks()
    ensures Outside('\r', "create", true) && Outside('\n', "create", true)
    ensures Outside('\r', "alter", true) && Outside('\n', "alter", true)
  {
  }

  /** The update statement is the join of the lines each rewritten on its own,
      and lines without a `create` are passed through unchanged. */
  lemma {:induction false} UpdateStatementByLine(lines: seq<string>)
    ensures UpdateStatement(lines) == Join(RewriteEach(lines, "create", "alter"), CrLf)
    ensures forall i :: 0 <= i < |lines| && !Occurs(lines[i], "create", true) ==>
      RewriteEach(lines, "create", "alter")[i] == lines[i]
  {
    KeywordsAvoidLineBreaks();
    RewriteJoined(lines, "create", "alter");
    forall i | 0 <= i < |lines| && !Occurs(lines[i], "create", true)
      ensures RewriteEach(lines, "create", "alter")[i] == lines[i]
    {
      ReplaceAllNoOccurrence(lines[i], "create", "alter", true);
    }
  }

  /** The insert statement is the join of the lines each rewritten on its own,
      and lines without an `alter` are passed through unchanged. */
  lemma {:induction false} InsertStatementByLine(lines: seq<string>)
    ensures InsertStatement(lines) == Join(RewriteEach(lines, "alter", "create"), CrLf)
    ensures forall i :: 0 <= i < |lines| && !Occurs(lines[i], "alter", true) ==>
      RewriteEach(lines, "alter", "create")[i] == lines[i]
  {
    KeywordsAvoidLineBreaks();
    RewriteJoined(lines, "alter", "create");
    forall i | 0 <= i < |lines| && !Occurs(lines[i], "alter", true)
      ensures RewriteEach(lines, "alter", "create")[i] == lines[i]
    {
      ReplaceAllNoOccurrence(lines[i], "alter", "create", true);
    }
  }
}
