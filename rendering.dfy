/**
 * The rendering pass of `PPTXRendering` over paragraphs and tables:
 * every paragraph's runs are merged (`_merge_placeholder_runs`) and then
 * each run is rendered on its own (`_render_run`); a table is expanded
 * (`_prepare_table`) and then every cell's text frame is rendered.
 *
 * Evaluating a run's text as a Jinja template against the model is an
 * oracle `eval`: it either yields the output or fails with an undefined
 * name or a syntax error.  Failures never stop the pass: they leave the
 * run's text as it was and append one diagnostic to `messages`
 * (`message_raw`).
 */
module Rendering {
  import opened Wrappers
  import opened Text
  import opened Merge
  import opened Directive
  import opened Tables

  /** What rendering a run's text as a template gives. */
  datatype Outcome =
    | Rendered(text: string)
    | UndefinedFailure(className: string, message: string)
    | SyntaxFailure(className: string, message: string)

  /** The advice appended to a syntax error's diagnostic. */
  const SyntaxHint: string := "you should re-write the whole {{}} tag"

  /** A run's text after rendering: the output, or the text itself on failure. */
  function RenderedText(eval: string -> Outcome, t: string): (out: string)
    ensures eval(t).Rendered? ==> out == eval(t).text
    ensures !eval(t).Rendered? ==> out == t
  {
    match eval(t)
    case Rendered(out) => out
    case _ => t
  }

  /**
   * The diagnostics rendering one run appends: none on success, else one
   * line "class: message", followed for a syntax error by a line feed
   * and the advice to re-write the tag.
   */
  function RunDiagnostics(eval: string -> Outcome, t: string): (d: seq<string>)
    ensures eval(t).Rendered? <==> d == []
    ensures !eval(t).Rendered? ==> |d| == 1 && eval(t).className + ": " <= d[0]
    ensures eval(t).SyntaxFailure? ==>
      |d[0]| > |SyntaxHint| && d[0][|d[0]| - |SyntaxHint| - 1..] == "\n" + SyntaxHint
  {
    match eval(t)
    case Rendered(_) => []
    case UndefinedFailure(name, message) => [name + ": " + message]
    case SyntaxFailure(name, message) => [name + ": " + message + "\n" + SyntaxHint]
  }

  /** The runs after rendering each one on its own. */
  function RenderedRuns(eval: string -> Outcome, runs: seq<string>): (r: seq<string>)
    ensures |r| == |runs|
    ensures forall k :: 0 <= k < |r| ==> r[k] == RenderedText(eval, runs[k])
    decreases |runs|
  {
    if runs == [] then []
    else RenderedRuns(eval, runs[..|runs| - 1]) + [RenderedText(eval, runs[|runs| - 1])]
  }

  /** The diagnostics of the runs, in run order. */
  function RunsDiagnostics(eval: string -> Outcome, runs: seq<string>): (d: seq<string>)
    ensures |d| <= |runs|
    decreases |runs|
  {
    if runs == [] then []
    else RunsDiagnostics(eval, runs[..|runs| - 1]) + RunDiagnostics(eval, runs[|runs| - 1])
  }

  /** The diagnostics of consecutive runs are those of each part, in order. */
  lemma {:induction false} RunsDiagnosticsAppend(eval: string -> Outcome, a: seq<string>, b: seq<string>)
    ensures RunsDiagnostics(eval, a + b) == RunsDiagnostics(eval, a) + RunsDiagnostics(eval, b)
    decreases |b|
  {
    if b == [] {
      assert a + b == a;
    } else {
      var b', last := b[..|b| - 1], b[|b| - 1];
      assert (a + b)[..|a + b| - 1] == a + b';
      assert (a + b)[|a + b| - 1] == last;
      RunsDiagnosticsAppend(eval, a, b');
      assert RunsDiagnostics(eval, a + b) == RunsDiagnostics(eval, a + b') + RunDiagnostics(eval, last);
      assert RunsDiagnostics(eval, b) == RunsDiagnostics(eval, b') + RunDiagnostics(eval, last);
    }
  }

  /** No diagnostic is recorded exactly when every run renders. */
  lemma {:induction false} RunsDiagnosticsEmpty(eval: string -> Outcome, runs: seq<string>)
    ensures RunsDiagnostics(eval, runs) == [] <==> forall k :: 0 <= k < |runs| ==> eval(runs[k]).Rendered?
    decreases |runs|
  {
    if runs != [] {
      var init := runs[..|runs| - 1];
      RunsDiagnosticsEmpty(eval, init);
      assert forall k :: 0 <= k < |init| ==> init[k] == runs[k];
    }
  }

  /** A paragraph after `_render_paragraph`: merged, then rendered run by run. */
  function RenderedParagraph(eval: string -> Outcome, p: Paragraph): (r: Paragraph)
    ensures |r| == |p|
  {
    RenderedRuns(eval, Merged(p))
  }

  function ParagraphDiagnostics(eval: string -> Outcome, p: Paragraph): (d: seq<string>)
    ensures |d| <= |p|
  {
    RunsDiagnostics(eval, Merged(p))
  }

  /** Without an opening token in any run, the merge changes nothing. */
  lemma PlainParagraphRendersRunByRun(eval: string -> Outcome, p: Paragraph)
    requires forall k :: 0 <= k < |p| ==> !Contains(p[k], Open)
    ensures RenderedParagraph(eval, p) == RenderedRuns(eval, p)
    ensures ParagraphDiagnostics(eval, p) == RunsDiagnostics(eval, p)
  {
    MergedWithoutOpen(p);
  }

  /** The paragraphs of a text frame after rendering each one. */
  function RenderedFrame(eval: string -> Outcome, frame: seq<Paragraph>): (r: seq<Paragraph>)
    ensures |r| == |frame|
    ensures forall k :: 0 <= k < |r| ==> r[k] == RenderedParagraph(eval, frame[k])
    decreases |frame|
  {
    if frame == [] then []
    else RenderedFrame(eval, frame[..|frame| - 1]) + [RenderedParagraph(eval, frame[|frame| - 1])]
  }

  function FrameDiagnostics(eval: string -> Outcome, frame: seq<Paragraph>): seq<string>
    decreases |frame|
  {
    if frame == [] then []
    else FrameDiagnostics(eval, frame[..|frame| - 1]) + ParagraphDiagnostics(eval, frame[|frame| - 1])
  }

  /** Rendering a frame records no message exactly when no paragraph records one. */
  lemma FrameDiagnosticsEmpty(eval: string -> Outcome, frame: seq<Paragraph>)
    ensures FrameDiagnostics(eval, frame) == [] <==> forall k :: 0 <= k < |frame| ==> ParagraphDiagnostics(eval, frame[k]) == []
  {
    if forall k :: 0 <= k < |frame| ==> ParagraphDiagnostics(eval, frame[k]) == [] {
      FrameDiagnosticsClean(eval, frame);
    } else {
      var k :| 0 <= k < |frame| && ParagraphDiagnostics(eval, frame[k]) != [];
      FrameDiagnosticsNoisy(eval, frame, k);
    }
  }

  lemma {:induction false} FrameDiagnosticsClean(eval: string -> Outcome, frame: seq<Paragraph>)
    requires forall k :: 0 <= k < |frame| ==> ParagraphDiagnostics(eval, frame[k]) == []
    ensures FrameDiagnostics(eval, frame) == []
    decreases |frame|
  {
    if frame != [] {
      var init := frame[..|frame| - 1];
      assert forall k :: 0 <= k < |init| ==> init[k] == frame[k];
      FrameDiagnosticsClean(eval, init);
    }
  }

  lemma {:induction false} FrameDiagnosticsNoisy(eval: string -> Outcome, frame: seq<Paragraph>, k: nat)
    requires k < |frame| && ParagraphDiagnostics(eval, frame[k]) != []
    ensures FrameDiagnostics(eval, frame) != []
    decreases |frame|
  {
    var init := frame[..|frame| - 1];
    var last := ParagraphDiagnostics(eval, frame[|frame| - 1]);
    assert |FrameDiagnostics(eval, frame)| == |FrameDiagnostics(eval, init)| + |last|;
    if k < |init| {
      assert init[k] == frame[k];
      FrameDiagnosticsNoisy(eval, init, k);
    } else {
      assert last != [];
    }
  }

  /** The cells of a row after rendering each cell's text frame. */
  function RenderedRow(eval: string -> Outcome, row: Row): (r: Row)
    ensures |r| == |row|
    ensures forall c :: 0 <= c < |r| ==> r[c] == RenderedFrame(eval, row[c])
    decreases |row|
  {
    if row == [] then []
    else RenderedRow(eval, row[..|row| - 1]) + [RenderedFrame(eval, row[|row| - 1])]
  }

  function RowDiagnostics(eval: string -> Outcome, row: Row): seq<string>
    decreases |row|
  {
    if row == [] then []
    else RowDiagnostics(eval, row[..|row| - 1]) + FrameDiagnostics(eval, row[|row| - 1])
  }

  /** Rendering a row records no message exactly when no cell records one. */
  lemma RowDiagnosticsEmpty(eval: string -> Outcome, row: Row)
    ensures RowDiagnostics(eval, row) == [] <==> forall k :: 0 <= k < |row| ==> FrameDiagnostics(eval, row[k]) == []
  {
    if forall k :: 0 <= k < |row| ==> FrameDiagnostics(eval, row[k]) == [] {
      RowDiagnosticsClean(eval, row);
    } else {
      var k :| 0 <= k < |row| && FrameDiagnostics(eval, row[k]) != [];
      RowDiagnosticsNoisy(eval, row, k);
    }
  }

  lemma {:induction false} RowDiagnosticsClean(eval: string -> Outcome, row: Row)
    requires forall k :: 0 <= k < |row| ==> FrameDiagnostics(eval, row[k]) == []
    ensures RowDiagnostics(eval, row) == []
    decreases |row|
  {
    if row != [] {
      var init := row[..|row| - 1];
      assert forall k :: 0 <= k < |init| ==> init[k] == row[k];
      RowDiagnosticsClean(eval, init);
    }
  }

  lemma {:induction false} RowDiagnosticsNoisy(eval: string -> Outcome, row: Row, k: nat)
    requires k < |row| && FrameDiagnostics(eval, row[k]) != []
    ensures RowDiagnostics(eval, row) != []
    decreases |row|
  {
    var init := row[..|row| - 1];
    var last := FrameDiagnostics(eval, row[|row| - 1]);
    assert |RowDiagnostics(eval, row)| == |RowDiagnostics(eval, init)| + |last|;
    if k < |init| {
      assert init[k] == row[k];
      RowDiagnosticsNoisy(eval, init, k);
    } else {
      assert last != [];
    }
  }

  /** The rows of a table after rendering every cell, in row-major order. */
  function RenderedRows(eval: string -> Outcome, rows: seq<Row>): (r: seq<Row>)
    ensures |r| == |rows|
    ensures forall k :: 0 <= k < |r| ==> r[k] == RenderedRow(eval, rows[k])
    decreases |rows|
  {
    if rows == [] then []
    else RenderedRows(eval, rows[..|rows| - 1]) + [RenderedRow(eval, rows[|rows| - 1])]
  }

  function RowsDiagnostics(eval: string -> Outcome, rows: seq<Row>): seq<string>
    decreases |rows|
  {
    if rows == [] then []
    else RowsDiagnostics(eval, rows[..|rows| - 1]) + RowDiagnostics(eval, rows[|rows| - 1])
  }

  /** Rendering a list of rows records no message exactly when no row records one. */
  lemma RowsDiagnosticsEmpty(eval: string -> Outcome, rows: seq<Row>)
    ensures RowsDiagnostics(eval, rows) == [] <==> forall k :: 0 <= k < |rows| ==> RowDiagnostics(eval, rows[k]) == []
  {
    if forall k :: 0 <= k < |rows| ==> RowDiagnostics(eval, rows[k]) == [] {
      RowsDiagnosticsClean(eval, rows);
    } else {
      var k :| 0 <= k < |rows| && RowDiagnostics(eval, rows[k]) != [];
      RowsDiagnosticsNoisy(eval, rows, k);
    }
  }

  lemma {:induction false} RowsDiagnosticsClean(eval: string -> Outcome, rows: seq<Row>)
    requires forall k :: 0 <= k < |rows| ==> RowDiagnostics(eval, rows[k]) == []
    ensures RowsDiagnostics(eval, rows) == []
    decreases |rows|
  {
    if rows != [] {
      var init := rows[..|rows| - 1];
      assert forall k :: 0 <= k < |init| ==> init[k] == rows[k];
      RowsDiagnosticsClean(eval, init);
    }
  }

  lemma {:induction false} RowsDiagnosticsNoisy(eval: string -> Outcome, rows: seq<Row>, k: nat)
    requires k < |rows| && RowDiagnostics(eval, rows[k]) != []
    ensures RowsDiagnostics(eval, rows) != []
    decreases |rows|
  {
    var init := rows[..|rows| - 1];
    var last := RowDiagnostics(eval, rows[|rows| - 1]);
    assert |RowsDiagnostics(eval, rows)| == |RowsDiagnostics(eval, init)| + |last|;
    if k < |init| {
      assert init[k] == rows[k];
      RowsDiagnosticsNoisy(eval, init, k);
    } else {
      assert last != [];
    }
  }

  /**
   * A generated row renders run by run: every placeholder stays in its
   * own run through the merge, so each run of column c becomes the
   * rendering of `{{ key[rowIndex][c] }}`, and the row keeps its shape.
   */
  lemma GeneratedRowRendering(eval: string -> Outcome, template: Row, key: string, rowIndex: nat)
    ensures SameShape(RenderedRow(eval, FilledRow(template, key, rowIndex)), template)
    ensures forall c, p, x :: 0 <= c < |template| && 0 <= p < |template[c]| && 0 <= x < |template[c][p]| ==>
      RenderedRow(eval, FilledRow(template, key, rowIndex))[c][p][x] ==
        RenderedText(eval, Placeholder(key, rowIndex, c))
  {
    var filled := FilledRow(template, key, rowIndex);
    var r := RenderedRow(eval, filled);
    forall c | 0 <= c < |template|
      ensures |r[c]| == |template[c]|
      ensures forall p :: 0 <= p < |template[c]| ==>
        (|r[c][p]| == |template[c][p]| &&
         forall x :: 0 <= x < |template[c][p]| ==> r[c][p][x] == RenderedText(eval, Placeholder(key, rowIndex, c)))
    {
      var ph := Placeholder(key, rowIndex, c);
      forall p | 0 <= p < |template[c]|
        ensures |r[c][p]| == |template[c][p]|
        ensures forall x :: 0 <= x < |template[c][p]| ==> r[c][p][x] == RenderedText(eval, ph)
      {
        var q := FilledParagraph(template[c][p], ph);
        assert filled[c][p] == q;
        MergedKeepsDelimitedRuns(q);
        assert r[c][p] == RenderedRuns(eval, q);
      }
    }
  }

  lemma RunsStep(eval: string -> Outcome, runs: seq<string>, k: nat)
    requires k < |runs|
    ensures RenderedRuns(eval, runs[..k + 1]) == RenderedRuns(eval, runs[..k]) + [RenderedText(eval, runs[k])]
    ensures RunsDiagnostics(eval, runs[..k + 1]) == RunsDiagnostics(eval, runs[..k]) + RunDiagnostics(eval, runs[k])
  {
    assert runs[..k + 1][..k] == runs[..k];
  }

  lemma FrameStep(eval: string -> Outcome, frame: seq<Paragraph>, k: nat)
    requires k < |frame|
    ensures RenderedFrame(eval, frame[..k + 1]) == RenderedFrame(eval, frame[..k]) + [RenderedParagraph(eval, frame[k])]
    ensures FrameDiagnostics(eval, frame[..k + 1]) == FrameDiagnostics(eval, frame[..k]) + ParagraphDiagnostics(eval, frame[k])
  {
    assert frame[..k + 1][..k] == frame[..k];
  }

  lemma RowStep(eval: string -> Outcome, row: Row, c: nat)
    requires c < |row|
    ensures RenderedRow(eval, row[..c + 1]) == RenderedRow(eval, row[..c]) + [RenderedFrame(eval, row[c])]
    ensures RowDiagnostics(eval, row[..c + 1]) == RowDiagnostics(eval, row[..c]) + FrameDiagnostics(eval, row[c])
  {
    assert row[..c + 1][..c] == row[..c];
  }

  lemma RowsStep(eval: string -> Outcome, rows: seq<Row>, r: nat)
    requires r < |rows|
    ensures RenderedRows(eval, rows[..r + 1]) == RenderedRows(eval, rows[..r]) + [RenderedRow(eval, rows[r])]
    ensures RowsDiagnostics(eval, rows[..r + 1]) == RowsDiagnostics(eval, rows[..r]) + RowDiagnostics(eval, rows[r])
  {
    assert rows[..r + 1][..r] == rows[..r];
  }

  /** Replacing the first unprocessed element extends the processed prefix. */
  lemma ReplaceNext<T>(done: seq<T>, all: seq<T>, x: T)
    requires |done| < |all|
    ensures (done + all[|done|..])[|done| := x] == done + [x] + all[|done| + 1..]
  {
  }

  /** The renderer's state: the evaluator, the model and the diagnostics so far. */
  class Renderer {
    const eval: string -> Outcome
    const model: map<string, seq<seq<string>>>
    var messages: seq<string>

    constructor (eval: string -> Outcome, model: map<string, seq<seq<string>>>)
      ensures this.eval == eval && this.model == model && messages == []
    {
      this.eval := eval;
      this.model := model;
      messages := [];
    }

    /** `_render_run`: renders run k, or records why it could not. */
    method RenderRun(runs: array<string>, k: nat)
      requires k < runs.Length
      modifies this, runs
      ensures runs[..] == old(runs[..])[k := RenderedText(eval, old(runs[k]))]
      ensures messages == old(messages) + RunDiagnostics(eval, old(runs[k]))
    {
      match eval(runs[k])
      case Rendered(out) =>
        runs[k] := out;
      case UndefinedFailure(name, message) =>
        messages := messages + [name + ": " + message];
      case SyntaxFailure(name, message) =>
        messages := messages + [name + ": " + message + "\n" + SyntaxHint];
    }

    /** `_render_paragraph`: merges the runs, then renders each in turn. */
    method RenderParagraph(runs: array<string>)
      modifies this, runs
      ensures runs[..] == RenderedParagraph(eval, old(runs[..]))
      ensures messages == old(messages) + ParagraphDiagnostics(eval, old(runs[..]))
    {
      MergePlaceholderRuns(runs);
      ghost var merged := runs[..];
      var k := 0;
      while k < runs.Length
        invariant k <= runs.Length == |merged|
        invariant runs[..] == RenderedRuns(eval, merged[..k]) + merged[k..]
        invariant messages == old(messages) + RunsDiagnostics(eval, merged[..k])
      {
        RunsStep(eval, merged, k);
        AppendAssoc(old(messages), RunsDiagnostics(eval, merged[..k]), RunDiagnostics(eval, merged[k]));
        ReplaceNext(RenderedRuns(eval, merged[..k]), merged, RenderedText(eval, merged[k]));
        RenderRun(runs, k);
        k := k + 1;
      }
      assert merged[..k] == merged;
    }

    /** Renders a paragraph given by its run texts, working on its runs in place. */
    method RenderRunsOf(p: Paragraph) returns (rendered: Paragraph)
      modifies this
      ensures rendered == RenderedParagraph(eval, p)
      ensures messages == old(messages) + ParagraphDiagnostics(eval, p)
    {
      var runs := new string[|p|](x requires 0 <= x < |p| => p[x]);
      assert runs[..] == p;
      RenderParagraph(runs);
      rendered := runs[..];
    }

    /** `_render_text_frame`: renders each paragraph of a text frame in turn. */
    method RenderTextFrame(frame: seq<Paragraph>) returns (rendered: seq<Paragraph>)
      modifies this
      ensures rendered == RenderedFrame(eval, frame)
      ensures messages == old(messages) + FrameDiagnostics(eval, frame)
    {
      rendered := [];
      var k := 0;
      while k < |frame|
        invariant k <= |frame|
        invariant rendered == RenderedFrame(eval, frame[..k])
        invariant messages == old(messages) + FrameDiagnostics(eval, frame[..k])
      {
        FrameStep(eval, frame, k);
        AppendAssoc(old(messages), FrameDiagnostics(eval, frame[..k]), ParagraphDiagnostics(eval, frame[k]));
        var p := RenderRunsOf(frame[k]);
        rendered := rendered + [p];
        k := k + 1;
      }
      assert frame[..k] == frame;
    }

    /** Renders the text frame of every cell of one row, in column order. */
    method RenderCells(row: Row) returns (rendered: Row)
      modifies this
      ensures rendered == RenderedRow(eval, row)
      ensures messages == old(messages) + RowDiagnostics(eval, row)
    {
      rendered := [];
      var c := 0;
      while c < |row|
        invariant c <= |row|
        invariant rendered == RenderedRow(eval, row[..c])
        invariant messages == old(messages) + RowDiagnostics(eval, row[..c])
      {
        RowStep(eval, row, c);
        AppendAssoc(old(messages), RowDiagnostics(eval, row[..c]), FrameDiagnostics(eval, row[c]));
        var cell := RenderTextFrame(row[c]);
        rendered := rendered + [cell];
        c := c + 1;
      }
      assert row[..c] == row;
    }

    /** `_prepare_table`: expands the table when its first cell holds a directive. */
    method PrepareTable(table: Table)
      requires PrepareDefined(table.rows, model)
      modifies table
      ensures table.rows == Prepared(old(table.rows), model)
    {
      ghost var orig := table.rows;
      var first := FirstCell(table.rows);
      if first.Some? {
        var matches := FindDirective(CellText(first.value));
        if matches.Some? {
          var key := Strip(matches.value);
          assert TableKey(orig) == Some(key);
          RemoveRow(table, 0);
          assert table.rows == orig[1..];
          if key in model && |model[key]| > 0 {
            HasTemplate(orig, model, key);
            AppendRows(table, key, |model[key]|);
            RemoveRow(table, 1);
            PreparedExpands(orig, model, key);
          } else {
            PreparedWithoutData(orig, model, key);
          }
        } else {
          PreparedWithoutDirective(orig, model);
        }
      } else {
        PreparedWithoutDirective(orig, model);
      }
    }

    /** `_render_table`: expands the table, then renders every cell. */
    method RenderTable(table: Table)
      requires PrepareDefined(table.rows, model)
      modifies this, table
      ensures table.rows == RenderedRows(eval, Prepared(old(table.rows), model))
      ensures messages == old(messages) + RowsDiagnostics(eval, Prepared(old(table.rows), model))
    {
      PrepareTable(table);
      ghost var prepared := table.rows;
      var r := 0;
      while r < |table.rows|
        invariant r <= |prepared|
        invariant table.rows == RenderedRows(eval, prepared[..r]) + prepared[r..]
        invariant messages == old(messages) + RowsDiagnostics(eval, prepared[..r])
      {
        RowsStep(eval, prepared, r);
        AppendAssoc(old(messages), RowsDiagnostics(eval, prepared[..r]), RowDiagnostics(eval, prepared[r]));
        var row := RenderCells(table.rows[r]);
        ReplaceNext(RenderedRows(eval, prepared[..r]), prepared, row);
        table.rows := table.rows[r := row];
        r := r + 1;
      }
      assert prepared[..r] == prepared;
    }
  }
}
