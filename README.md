# template-pptx-jinja rendering engine in Dafny

This project models the core of `PPTXRendering` in `template_pptx_jinja/render.py`. The engine
fills Jinja placeholders in a PowerPoint deck. The model covers its three pieces of logic:

- **The run merger** (`_merge_placeholder_runs`). An editor may split one `{{ … }}` placeholder
  over several formatted runs of a paragraph. The merger scans the runs from left to right. It
  gathers each split placeholder into the run where it opens and empties the runs it absorbed.
  The model is a method over `array<string>` (the paragraph's runs, updated in place). It is
  proved against `Merge.Merged`, a recursive definition of the merged runs. The lemmas about
  `Merged` prove that the number of runs and the concatenated text are kept, that merging is
  idempotent, and which inputs are left unchanged.
- **Table expansion** (`table_data_pattern`, `_prepare_table`, `_add_row`, `_remove_row`).
  - The directive pattern `\{\{\s*table\s*:\s*([^}\s]+)\s*\}\}` is an explicit parser,
    `Directive.MatchAt`.
  - The parser is proved equivalent to a declarative reading of the pattern,
    `Directive.DirectiveAt`.
  - `Directive.FindDirective` returns the key of the leftmost match, as `findall(...)[0]` does.
  - The table is a class whose `rows` the operations replace. A row is a value, so
    `copy.deepcopy` is a value copy.
  - `Renderer.PrepareTable` is proved against `Tables.Prepared`. Lemmas about `Prepared` give
    the row count, the position of every row and the content of every generated row.
- **Rendering and the error protocol** (`_render_run`, `_render_paragraph`,
  `_render_text_frame`, `_render_table`, `_render_cell`).
  - Jinja is an oracle `eval: string -> Outcome` fixed when the renderer is built. It returns
    either the output or one of the two caught failures: `UndefinedError` or
    `TemplateSyntaxError`.
  - A failure leaves the run's text alone and appends exactly one diagnostic to
    `messages` (`message_raw`).
  - Each rendering method states its new text and its new `messages` through a specification
    function. Messages from earlier calls are kept as they were, and new ones are appended in
    document order.

Files: `wrappers.dfy` (Option), `text.dfy` (substring test, run concatenation),
`merge.dfy`, `directive.dfy`, `tables.dfy` and `rendering.dfy`.

Two points where the code does something a reader might not expect:

- The row at index 1 is removed only when the binding is truthy (render.py:113-116). With an
  absent or empty binding, only row 0 goes.
- The removal of row 1 always finds at least two rows. The failure comes earlier: `_add_row`
  copies the last row of a table that became empty, which happens when a one-row table has a
  directive and a non-empty binding. `Tables.PrepareDefined` excludes exactly that case, as a
  precondition of `PrepareTable` and `RenderTable`.

Consequences of the code, proved as stated:

- Only the first cell in row-major order is examined, because the `break` at render.py:117 is
  unconditional (`Tables.DirectiveFromFirstCellOnly`).
- The row removed at render.py:116 is whatever sits at index 1 after the appends
  (`Tables.PreparedLayout`):
  - With three or more rows, it is the original row 2.
  - With exactly two rows, it is the first generated row. The raw template row stays, and
    generated rows 1..N-1 follow it.

## Model

| member | source | states |
|---|---|---|
| Text.Contains | template_pptx_jinja/render.py:71-79 | Python's `in` on strings: the empty token occurs in every text, and a text shorter than the token never holds it |
| Text.ContainsIffOccurs | template_pptx_jinja/render.py:71 | the `in` test used by the merger holds exactly when the token occurs at some position of the text |
| Text.Concat | template_pptx_jinja/render.py:73-77 | the `merged` buffer: the texts of the absorbed runs joined in order (split by `Text.ConcatAppend`, empty as `Text.ConcatEmpty` says) |
| Text.ConcatAppend | template_pptx_jinja/render.py:77 | the text of consecutive runs is the text of the first part followed by that of the second |
| Text.ConcatEmpty | template_pptx_jinja/render.py:77 | the buffer stays empty exactly when every run appended to it is empty |
| Merge.FirstClose | template_pptx_jinja/render.py:74-79 | the search for the closing run returns the first count of runs, from `start` on, whose accumulated text holds `}}`, or reports that none does |
| Merge.CloseAt | template_pptx_jinja/render.py:73-79 | starting from the opening run alone, the absorption stops at the least number of runs whose concatenation holds `}}`; none means the whole rest never closes |
| Merge.Merged | template_pptx_jinja/render.py:62-91 | the merged runs; as many runs as before |
| Merge.MergedConcat | template_pptx_jinja/render.py:67-91 | merging keeps the concatenation of all run texts |
| Merge.MergeStep | template_pptx_jinja/render.py:73-86 | when run 0 opens and m is the first count that closes, run 0 becomes the concatenation of runs 0..m-1, runs 1..m-1 become empty and the scan resumes at run m |
| Merge.MergedWithoutOpen | template_pptx_jinja/render.py:69-71 | if no run contains `{{`, no run changes |
| Merge.MergedSkipsPlainPrefix | template_pptx_jinja/render.py:90-91 | runs without `{{` before the first opening run are passed over unchanged |
| Merge.MergedUnclosed | template_pptx_jinja/render.py:87-89 | if the opening run and all later runs together never contain `}}`, the scan stops and leaves them unchanged |
| Merge.MergedFixedPoint | template_pptx_jinja/render.py:71-86 | a run holding both tokens, followed by empty runs, is kept and the empty runs are passed over |
| Merge.MergedKeepsDelimitedRuns | template_pptx_jinja/render.py:71-86 | runs that each hold both `{{` and `}}` are left as they are |
| Merge.MergedIdempotent | template_pptx_jinja/render.py:69-91 | merging merged runs changes nothing |
| Merge.AbsorbUntilClose | template_pptx_jinja/render.py:73-78 | the inner loop returns the concatenation of runs i..j-1, where j is the first end whose text closes, or the end of the runs when none does |
| Merge.BlankRuns | template_pptx_jinja/render.py:83-84 | runs from..to-1 become empty and all other runs are unchanged |
| Merge.MergeOpenRun | template_pptx_jinja/render.py:71-89 | on a close at j, run i holds the concatenation of runs i..j-1 and runs i+1..j-1 are empty, runs from j on untouched; otherwise nothing changes and no close exists |
| Merge.MergePlaceholderRuns | template_pptx_jinja/render.py:62-91 | the runs after the in-place scan are `Merged` of the runs before it |
| Directive.IsSpace | template_pptx_jinja/render.py:13 | the characters Python's `\s` treats as white space, the same set `str.strip()` removes at line 111: tab through carriage return, U+001C to U+001F, space, U+0085, U+00A0, U+1680, U+2000 to U+200A, U+2028, U+2029, U+202F, U+205F and U+3000 |
| Directive.IsKeyChar | template_pptx_jinja/render.py:13 | a character of the key class `[^}\s]`: neither white space nor `}` |
| Directive.IsKey | template_pptx_jinja/render.py:13 | a key captured by the group `([^}\s]+)`: one or more key characters |
| Directive.DirectiveAt | template_pptx_jinja/render.py:13 | the declarative reading of the pattern: at position i the text reads `{{`, white space, `table`, white space, `:`, white space, the key, white space, `}}` |
| Directive.SkipSpaces | template_pptx_jinja/render.py:13 | each `\s*` consumes the maximal run of white space |
| Directive.SkipKey | template_pptx_jinja/render.py:13 | the key group `[^}\s]+` consumes the maximal run of key characters |
| Directive.MatchAt | template_pptx_jinja/render.py:13 | a key the parser captures is non-empty and holds neither white space nor `}` |
| Directive.MatchAtSound | template_pptx_jinja/render.py:13 | every key the parser returns at a position is a match of the pattern there |
| Directive.MatchAtComplete | template_pptx_jinja/render.py:13 | every match of the pattern at a position is found by the parser with the same key, so no backtracking is needed |
| Directive.MatchAtNone | template_pptx_jinja/render.py:13 | the parser fails at a position exactly when the pattern matches there with no key |
| Directive.LeftmostMatch | template_pptx_jinja/render.py:109 | returns the first position where the parser succeeds, or none when it fails everywhere |
| Directive.FindDirective | template_pptx_jinja/render.py:109-111 | a key found in a cell's text is non-empty and holds neither white space nor `}` |
| Directive.FindDirectiveLeftmost | template_pptx_jinja/render.py:109-111 | the key returned is that of a match starting where no earlier match starts, and conversely |
| Directive.FindDirectiveNone | template_pptx_jinja/render.py:109-110 | nothing is found exactly when the pattern matches nowhere in the text |
| Directive.Strip | template_pptx_jinja/render.py:111 | `strip()` never lengthens the text and leaves no white space at either end |
| Directive.StripTrims | template_pptx_jinja/render.py:111 | `strip()` removes leading and trailing white space and nothing else: the result is the infix `s[a..b]` with only white space before `a` and after `b` |
| Directive.StripBounds | template_pptx_jinja/render.py:111 | gives the bounds `a` and `b` of the infix that `strip()` keeps |
| Directive.StripKey | template_pptx_jinja/render.py:111 | stripping a captured key changes nothing |
| Tables.Decimal | template_pptx_jinja/render.py:146 | the row and column indices are written as non-empty decimal digits, and a leading `0` occurs only in `"0"`, the text of index 0 |
| Tables.DecimalRoundTrip | template_pptx_jinja/render.py:146 | reading the written digits back gives the index |
| Tables.Placeholder | template_pptx_jinja/render.py:146 | the generated expression starts with `{{ ` and ends with ` }}`, so it holds both tokens |
| Tables.FilledParagraph | template_pptx_jinja/render.py:145-146 | every run of the paragraph holds the given text; the run count is kept |
| Tables.FilledCell | template_pptx_jinja/render.py:144-146 | every paragraph of the cell is filled; the paragraph count is kept |
| Tables.FilledRow | template_pptx_jinja/render.py:140-148 | the copied row keeps its cell count, and cell c is filled with `{{ key[i][c] }}` |
| Tables.FilledRowShape | template_pptx_jinja/render.py:140-148 | a generated row has the template's shape, and each run of column c holds the placeholder for column c |
| Tables.FilledRowRefill | template_pptx_jinja/render.py:140 | filling a copy of an earlier generated row gives the same row as filling the template |
| Tables.Appended | template_pptx_jinja/render.py:113-115 | one generated row per bound row, the k-th for index k |
| Tables.AppendedStep | template_pptx_jinja/render.py:114-115 | copying the current last row for index i extends the generated rows by the row for index i |
| Tables.RemoveAt | template_pptx_jinja/render.py:151-153 | removing a row keeps the rows before it and shifts the later rows down by one |
| Tables.FirstFilledRow | template_pptx_jinja/render.py:108 | finds the first row that has a cell |
| Tables.FirstCell | template_pptx_jinja/render.py:108 | there is no first cell exactly when no row has a cell; otherwise it is cell 0 of a row that has cells, and every row before that one is empty |
| Tables.FirstCellRowMajor | template_pptx_jinja/render.py:108 | the first cell is cell 0 of the first row that has cells |
| Tables.TableKey | template_pptx_jinja/render.py:108-111 | a key is found only in a table with rows, and the stripped key is non-empty, with no white space and no `}` |
| Tables.CellText | template_pptx_jinja/render.py:109 | `cell.text`: an empty cell has empty text, and otherwise the text begins with the first paragraph's runs |
| Tables.BoundRows | template_pptx_jinja/render.py:113 | the binding `self.model.get(key)` is truthy exactly when the key is bound to a non-empty list |
| Tables.PrepareDefined | template_pptx_jinja/render.py:112-140 | the expansion is defined unless the first cell holds a directive with a truthy binding and the table has a single row, so that `_add_row` finds no row to copy |
| Tables.DirectiveFromFirstCellOnly | template_pptx_jinja/render.py:108-117 | two tables with the same first cell get the same directive key, whatever their other cells hold |
| Tables.Prepared | template_pptx_jinja/render.py:107-117 | the rows after `_prepare_table`; the lemmas below state their count, their layout and the generated rows |
| Tables.HasTemplate | template_pptx_jinja/render.py:113-115 | when the expansion is defined and the binding is truthy, the table has a row left after row 0 goes, for `_add_row` to copy |
| Tables.PreparedRowCount | template_pptx_jinja/render.py:107-117 | rows afterwards: unchanged without a directive, original − 1 for an absent or empty binding, original − 2 + N for N bound rows |
| Tables.PreparedWithoutDirective | template_pptx_jinja/render.py:108-110 | a table whose first cell holds no directive is left unchanged |
| Tables.PreparedWithoutData | template_pptx_jinja/render.py:111-113 | an absent or empty binding removes row 0 and nothing else |
| Tables.PreparedExpands | template_pptx_jinja/render.py:111-116 | a non-empty binding removes row 0, appends copies of the last row and removes the row then at index 1 |
| Tables.PreparedLayout | template_pptx_jinja/render.py:111-116 | row 1 stays first; with three or more rows, rows 3.. follow and the N generated rows come last; with two rows, the first generated row is the one removed |
| Tables.RemoveRow | template_pptx_jinja/render.py:151-153 | removes the row at an existing index |
| Tables.FillParagraph | template_pptx_jinja/render.py:145-146 | the loop over the runs sets every run to the text |
| Tables.FillCell | template_pptx_jinja/render.py:144-146 | the loop over paragraphs fills each one |
| Tables.AddRow | template_pptx_jinja/render.py:139-148 | appends a filled copy of the current last row for the given index |
| Tables.AppendRows | template_pptx_jinja/render.py:114-115 | the `enumerate` loop appends the n generated rows, the copy for index i made from the row last appended |
| Rendering.RunDiagnostics | template_pptx_jinja/render.py:126-134 | no diagnostic on success; otherwise exactly one, starting with the error's class name and `: `, and for a syntax error ending in a line feed and the advice to re-write the tag |
| Rendering.RenderedText | template_pptx_jinja/render.py:123-136 | a run that renders takes the output; on either caught failure the run keeps its text |
| Rendering.RenderedRuns | template_pptx_jinja/render.py:97-98 | each run is rendered on its own: run k becomes the rendering of run k |
| Rendering.RunsDiagnostics | template_pptx_jinja/render.py:97-98 | the messages of a run list are those of its runs in order: at most one per run |
| Rendering.RunsDiagnosticsAppend | template_pptx_jinja/render.py:97-98 | the diagnostics of consecutive runs are those of the first runs followed by those of the rest |
| Rendering.RunsDiagnosticsEmpty | template_pptx_jinja/render.py:122-136 | no diagnostic is recorded exactly when every run renders |
| Rendering.RenderedParagraph | template_pptx_jinja/render.py:93-98 | rendering a paragraph (merge, then render each run) keeps its run count |
| Rendering.ParagraphDiagnostics | template_pptx_jinja/render.py:93-98 | a paragraph records the messages of its merged runs: at most one per run |
| Rendering.PlainParagraphRendersRunByRun | template_pptx_jinja/render.py:93-98 | without `{{` in any run, the paragraph renders run by run as it stands |
| Rendering.RenderedFrame | template_pptx_jinja/render.py:59-61 | each paragraph of a text frame is rendered on its own |
| Rendering.FrameDiagnostics | template_pptx_jinja/render.py:59-61 | the messages of a frame are those of its paragraphs in order |
| Rendering.FrameDiagnosticsEmpty | template_pptx_jinja/render.py:59-61 | a frame records no message exactly when none of its paragraphs records one |
| Rendering.RenderedRow | template_pptx_jinja/render.py:104-105 | each cell's text frame is rendered on its own |
| Rendering.RowDiagnostics | template_pptx_jinja/render.py:104-120 | the messages of a row are those of its cells' frames in column order |
| Rendering.RowDiagnosticsEmpty | template_pptx_jinja/render.py:104-120 | a row records no message exactly when none of its cells records one |
| Rendering.RenderedRows | template_pptx_jinja/render.py:104-105 | each row of the table is rendered on its own |
| Rendering.RowsDiagnostics | template_pptx_jinja/render.py:104-105 | the messages of a table are those of its rows in row-major order |
| Rendering.RowsDiagnosticsEmpty | template_pptx_jinja/render.py:104-105 | rendering a table records no message exactly when none of its rows records one |
| Rendering.GeneratedRowRendering | template_pptx_jinja/render.py:102-105 | a generated row keeps its shape through rendering, and each run of column c becomes the rendering of `{{ key[i][c] }}` |
| Rendering.Renderer.constructor | template_pptx_jinja/render.py:15-29 | the renderer starts with the given evaluator and model, and with no messages |
| Rendering.Renderer.RenderRun | template_pptx_jinja/render.py:122-136 | run k takes the rendered text, or keeps its text on failure; the run's diagnostics are appended after the earlier messages |
| Rendering.Renderer.RenderParagraph | template_pptx_jinja/render.py:93-98 | the runs become the merged runs, each rendered; the messages gain the diagnostics of the merged runs in order |
| Rendering.Renderer.RenderRunsOf | template_pptx_jinja/render.py:60-61 | renders one paragraph given by its run texts |
| Rendering.Renderer.RenderTextFrame | template_pptx_jinja/render.py:59-61 | the paragraphs are rendered in order, with their diagnostics appended in order |
| Rendering.Renderer.RenderCells | template_pptx_jinja/render.py:104-105 | the cells of a row are rendered in column order (`_render_cell` renders a cell's text frame) |
| Rendering.Renderer.PrepareTable | template_pptx_jinja/render.py:107-117 | the rows become `Prepared` of the rows before, and no message is recorded |
| Rendering.Renderer.RenderTable | template_pptx_jinja/render.py:102-105 | the table is prepared first, then every cell of the prepared rows is rendered in row-major order, with diagnostics in that order |

## Left out

- Opening and saving the deck and returning the joined messages (render.py:31-37): file I/O through python-pptx. The final `"\n".join` of the messages is not modelled. The model stops at the `messages` list.
- Slide and shape traversal and the `current_slide`/`current_shape` bookkeeping (render.py:26-27, 39-50): thin loops over library objects. The model starts at text frames and tables.
- Picture replacement (render.py:52-57): it depends on the `pictures` module and on image hashing. That module is not part of this model.
- Jinja itself (render.py:21-24, 124-125): evaluation is the oracle `eval`. Exceptions other than `UndefinedError` and `TemplateSyntaxError` are not modelled. The message text of a failure is whatever the oracle returns.
- The python-pptx XML (`_tbl`, `tr_lst`, `tc_lst`, `_Cell`): tables, rows, cells and paragraphs are value sequences. Run formatting, which the merger keeps on blanked runs, has no counterpart. A run whose text is `None` is not modelled, since python-pptx runs always have text.
- Tables.CellText: the text of a cell joins the paragraphs' run texts with line feeds. Line-break and field elements inside a paragraph are not modelled.
- Tables.BoundRows: a binding is modelled as absent or as a sequence of rows, and it counts as truthy when non-empty. Truthy bindings that are not sequences (a string iterated character by character, a mapping) are not covered.
- Rendering.Renderer.PrepareTable: a one-row table with a directive and a non-empty binding raises `IndexError` in `_add_row`. This is excluded by the precondition `PrepareDefined` rather than modelled as a failure.
- Rendering.Renderer.RenderTable: the source renders each cell in place while iterating. The model renders the cells of a row, then stores the row. Nothing reads the table in between, so the result is the same.
- Merge.MergePlaceholderRuns: the source leaves the scan with `break` when a placeholder never closes. The model returns from the method at that point, and the effect is the same.
