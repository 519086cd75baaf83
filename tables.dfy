/**
 * Tables and the row expansion driven by a `{{ table : key }}` directive
 * (`PPTXRendering._prepare_table`, `_add_row` and `_remove_row`).
 *
 * A table is a sequence of rows, a row a sequence of cells, a cell a
 * sequence of paragraphs and a paragraph a sequence of run texts.  The
 * table object itself is a class whose row list the operations replace;
 * a row copied with `copy.deepcopy` is simply a row value.
 */
module Tables {
  import opened Wrappers
  import opened Text
  import opened Directive

  type Paragraph = seq<string>
  type Cell = seq<Paragraph>
  type Row = seq<Cell>

  /** The table whose rows the expansion removes and appends. */
  class Table {
    var rows: seq<Row>

    constructor (rows: seq<Row>)
      ensures this.rows == rows
    {
      this.rows := rows;
    }
  }

  predicate IsDigit(c: char)
  {
    '0' <= c <= '9'
  }

  function DigitChar(d: nat): char
    requires d < 10
  {
    (48 + d) as char
  }

  /** Python's `str(n)` for a non-negative int: decimal digits, no leading zero. */
  function Decimal(n: nat): (s: string)
    ensures |s| > 0
    ensures forall k :: 0 <= k < |s| ==> IsDigit(s[k])
    ensures s[0] == '0' ==> n == 0 && s == "0"
    decreases n
  {
    if n < 10 then [DigitChar(n)] else Decimal(n / 10) + [DigitChar(n % 10)]
  }

  function DigitValue(c: char): nat
    requires IsDigit(c)
  {
    c as int - '0' as int
  }

  /** The number a string of decimal digits denotes. */
  function DecimalValue(s: string): nat
    requires forall k :: 0 <= k < |s| ==> IsDigit(s[k])
    decreases |s|
  {
    if s == [] then 0 else 10 * DecimalValue(s[..|s| - 1]) + DigitValue(s[|s| - 1])
  }

  /** Reading back the digits of a row or column index gives the index. */
  lemma {:induction false} DecimalRoundTrip(n: nat)
    ensures DecimalValue(Decimal(n)) == n
    decreases n
  {
    if n >= 10 {
      DecimalRoundTrip(n / 10);
      var s := Decimal(n);
      assert s[..|s| - 1] == Decimal(n / 10);
    }
  }

  /**
   * The expression `{{ key[row][col] }}` written into every run of column
   * col of the generated row `row`.  It holds both delimiters, so merging
   * the runs of a generated paragraph leaves each run as it is.
   */
  function Placeholder(key: string, row: nat, col: nat): (t: string)
    ensures |t| >= 4 && t[..3] == "{{ " && t[|t| - 3..] == " }}"
    ensures Contains(t, Open) && Contains(t, Close)
  {
    var front := "{{ " + key + "[" + Decimal(row) + "][" + Decimal(col) + "]";
    var t := front + " }}";
    assert t[..2] == Open;
    assert Contains(t, Open);
    assert Contains("}}", Close);
    ContainsAppendLeft(" ", "}}", Close);
    assert " " + "}}" == " }}";
    ContainsAppendLeft(front, " }}", Close);
    t
  }

  /** A paragraph whose runs all hold `text`, with as many runs as p. */
  function FilledParagraph(p: Paragraph, text: string): (r: Paragraph)
    ensures |r| == |p|
    ensures forall x :: 0 <= x < |r| ==> r[x] == text
    decreases |p|
  {
    if p == [] then [] else FilledParagraph(p[..|p| - 1], text) + [text]
  }

  /** A cell shaped like `cell` whose runs all hold `text`. */
  function FilledCell(cell: Cell, text: string): (r: Cell)
    ensures |r| == |cell|
    ensures forall x :: 0 <= x < |r| ==> r[x] == FilledParagraph(cell[x], text)
    decreases |cell|
  {
    if cell == [] then [] else FilledCell(cell[..|cell| - 1], text) + [FilledParagraph(cell[|cell| - 1], text)]
  }

  /**
   * The row `_add_row` appends for binding row `rowIndex`: shaped like
   * `template`, every run of column c holding `{{ key[rowIndex][c] }}`.
   */
  function FilledRow(template: Row, key: string, rowIndex: nat): (r: Row)
    ensures |r| == |template|
    ensures forall c :: 0 <= c < |r| ==> r[c] == FilledCell(template[c], Placeholder(key, rowIndex, c))
    decreases |template|
  {
    if template == [] then []
    else
      var c := |template| - 1;
      FilledRow(template[..c], key, rowIndex) + [FilledCell(template[c], Placeholder(key, rowIndex, c))]
  }

  /** The two rows have the same cells, paragraphs per cell and runs per paragraph. */
  predicate SameShape(a: Row, b: Row)
  {
    |a| == |b| &&
    forall c :: 0 <= c < |a| ==>
      (|a[c]| == |b[c]| && forall p :: 0 <= p < |a[c]| ==> |a[c][p]| == |b[c][p]|)
  }

  /**
   * A generated row keeps the template's shape, and every run of column c
   * holds the placeholder for that column.
   */
  lemma FilledRowShape(template: Row, key: string, rowIndex: nat)
    ensures SameShape(FilledRow(template, key, rowIndex), template)
    ensures forall c, p, x :: 0 <= c < |template| && 0 <= p < |template[c]| && 0 <= x < |template[c][p]| ==>
      FilledRow(template, key, rowIndex)[c][p][x] == Placeholder(key, rowIndex, c)
  {
    var r := FilledRow(template, key, rowIndex);
    forall c | 0 <= c < |template|
      ensures |r[c]| == |template[c]|
      ensures forall p :: 0 <= p < |template[c]| ==> |r[c][p]| == |template[c][p]|
    {
      assert r[c] == FilledCell(template[c], Placeholder(key, rowIndex, c));
    }
  }

  lemma FilledParagraphRefill(p: Paragraph, a: string, b: string)
    ensures FilledParagraph(FilledParagraph(p, a), b) == FilledParagraph(p, b)
  {
  }

  lemma FilledCellRefill(cell: Cell, a: string, b: string)
    ensures FilledCell(FilledCell(cell, a), b) == FilledCell(cell, b)
  {
    forall x | 0 <= x < |cell|
      ensures FilledCell(FilledCell(cell, a), b)[x] == FilledCell(cell, b)[x]
    {
      FilledParagraphRefill(cell[x], a, b);
    }
  }

  /**
   * Filling a generated row again gives the row the template itself would
   * give: copying the current last row is as good as copying the template.
   */
  lemma FilledRowRefill(template: Row, key: string, a: nat, b: nat)
    ensures FilledRow(FilledRow(template, key, a), key, b) == FilledRow(template, key, b)
  {
    var once := FilledRow(template, key, a);
    forall c | 0 <= c < |template|
      ensures FilledRow(once, key, b)[c] == FilledRow(template, key, b)[c]
    {
      FilledCellRefill(template[c], Placeholder(key, a, c), Placeholder(key, b, c));
    }
  }

  /** The generated rows for binding rows 0 .. n-1, in order. */
  function Appended(template: Row, key: string, n: nat): (r: seq<Row>)
    ensures |r| == n
    ensures forall k :: 0 <= k < n ==> r[k] == FilledRow(template, key, k)
    decreases n
  {
    if n == 0 then [] else Appended(template, key, n - 1) + [FilledRow(template, key, n - 1)]
  }

  /**
   * Appending a copy of the current last row for binding row i extends
   * the generated rows by one, whether the last row is still the template
   * or an earlier copy.
   */
  lemma AppendedStep(rest: seq<Row>, key: string, i: nat)
    requires |rest| > 0
    ensures var rows := rest + Appended(rest[|rest| - 1], key, i);
      rows + [FilledRow(rows[|rows| - 1], key, i)] == rest + Appended(rest[|rest| - 1], key, i + 1)
  {
    var template := rest[|rest| - 1];
    var gen := Appended(template, key, i);
    var next := FilledRow(template, key, i);
    LastRowRefilled(rest, key, i);
    assert Appended(template, key, i + 1) == gen + [next];
    assert (rest + gen) + [next] == rest + (gen + [next]);
  }

  /** Refilling the last row of the grown table gives the next generated row. */
  lemma LastRowRefilled(rest: seq<Row>, key: string, i: nat)
    requires |rest| > 0
    ensures var rows := rest + Appended(rest[|rest| - 1], key, i);
      FilledRow(rows[|rows| - 1], key, i) == FilledRow(rest[|rest| - 1], key, i)
  {
    var template := rest[|rest| - 1];
    var rows := rest + Appended(template, key, i);
    if i > 0 {
      assert rows[|rows| - 1] == FilledRow(template, key, i - 1);
      FilledRowRefill(template, key, i - 1, i);
    }
  }

  /** The rows without the one at `index`. */
  function RemoveAt(rows: seq<Row>, index: nat): (r: seq<Row>)
    requires index < |rows|
    ensures |r| == |rows| - 1
    ensures forall k :: 0 <= k < index ==> r[k] == rows[k]
    ensures forall k :: index <= k < |r| ==> r[k] == rows[k + 1]
  {
    rows[..index] + rows[index + 1..]
  }

  /** The index of the first row, at or after `from`, that has a cell. */
  function FirstFilledRow(rows: seq<Row>, from: nat): (r: Option<nat>)
    requires from <= |rows|
    ensures r.Some? ==> from <= r.value < |rows| && rows[r.value] != []
    ensures r.Some? ==> forall q :: from <= q < r.value ==> rows[q] == []
    ensures r.None? ==> forall q :: from <= q < |rows| ==> rows[q] == []
    decreases |rows| - from
  {
    if from == |rows| then None
    else if rows[from] != [] then Some(from)
    else FirstFilledRow(rows, from + 1)
  }

  /** The first cell in row-major order (`table.iter_cells()`), if any. */
  function FirstCell(rows: seq<Row>): (r: Option<Cell>)
    ensures r.None? <==> forall q :: 0 <= q < |rows| ==> rows[q] == []
    ensures r.Some? ==> exists k ::
      (0 <= k < |rows| && rows[k] != [] && r.value == rows[k][0] && forall q :: 0 <= q < k ==> rows[q] == [])
  {
    match FirstFilledRow(rows, 0)
    case None => None
    case Some(k) => Some(rows[k][0])
  }

  /** The first cell is that of the first row that has cells, in row-major order. */
  lemma FirstCellRowMajor(rows: seq<Row>, r: nat)
    requires r < |rows| && rows[r] != []
    requires forall q :: 0 <= q < r ==> rows[q] == []
    ensures FirstCell(rows) == Some(rows[r][0])
  {
  }

  /** A cell's text: its paragraphs' texts joined by line feeds. */
  function CellText(cell: Cell): (r: string)
    ensures cell == [] ==> r == ""
    ensures cell != [] ==> Concat(cell[0]) <= r
    decreases |cell|
  {
    if cell == [] then ""
    else if |cell| == 1 then Concat(cell[0])
    else CellText(cell[..|cell| - 1]) + "\n" + Concat(cell[|cell| - 1])
  }

  /** The stripped key of the directive in the table's first cell, if any. */
  function TableKey(rows: seq<Row>): (r: Option<string>)
    ensures r.Some? ==> |rows| > 0 && IsKey(r.value)
  {
    match FirstCell(rows)
    case None => None
    case Some(cell) =>
      match FindDirective(CellText(cell))
      case None => None
      case Some(key) => StripKey(key); Some(Strip(key))
  }

  /** Only the first cell decides whether, and with which key, a table expands. */
  lemma DirectiveFromFirstCellOnly(rows: seq<Row>, other: seq<Row>)
    requires FirstCell(rows) == FirstCell(other)
    ensures TableKey(rows) == TableKey(other)
  {
  }

  /** The number of rows bound to `key`; an absent key binds none. */
  function BoundRows(model: map<string, seq<seq<string>>>, key: string): (n: nat)
    ensures n > 0 <==> key in model && model[key] != []
  {
    if key in model then |model[key]| else 0
  }

  /**
   * The expansion does not fail: when rows are to be appended, a row must
   * remain after row 0 is removed, for `_add_row` to copy.
   */
  predicate PrepareDefined(rows: seq<Row>, model: map<string, seq<seq<string>>>)
  {
    match TableKey(rows)
    case None => true
    case Some(key) => BoundRows(model, key) > 0 ==> |rows| >= 2
  }

  /**
   * The rows after `_prepare_table`: without a directive in the first
   * cell, unchanged; otherwise row 0 goes, and when the key is bound to N
   * > 0 rows, N copies of the last row are appended and the row then at
   * index 1 goes.
   */
  function Prepared(rows: seq<Row>, model: map<string, seq<seq<string>>>): seq<Row>
    requires PrepareDefined(rows, model)
  {
    match TableKey(rows)
    case None => rows
    case Some(key) =>
      var rest := rows[1..];
      var n := BoundRows(model, key);
      if n == 0 then rest
      else RemoveAt(rest + Appended(rest[|rest| - 1], key, n), 1)
  }

  /**
   * The number of rows after the expansion: unchanged without a directive,
   * one fewer for an absent or empty binding, and two fewer plus one per
   * bound row otherwise.
   */
  lemma PreparedRowCount(rows: seq<Row>, model: map<string, seq<seq<string>>>)
    requires PrepareDefined(rows, model)
    ensures TableKey(rows).None? ==> |Prepared(rows, model)| == |rows|
    ensures TableKey(rows).Some? && BoundRows(model, TableKey(rows).value) == 0 ==>
      |Prepared(rows, model)| == |rows| - 1
    ensures TableKey(rows).Some? && BoundRows(model, TableKey(rows).value) > 0 ==>
      |Prepared(rows, model)| == |rows| - 2 + BoundRows(model, TableKey(rows).value)
  {
  }

  /** Removing index 1 from the remaining rows followed by the generated ones. */
  lemma RemoveSecond(rest: seq<Row>, gen: seq<Row>)
    requires |rest| >= 1 && |gen| >= 1
    ensures |rest| >= 2 ==> RemoveAt(rest + gen, 1) == [rest[0]] + rest[2..] + gen
    ensures |rest| == 1 ==> RemoveAt(rest + gen, 1) == [rest[0]] + gen[1..]
  {
    assert (rest + gen)[..1] == [rest[0]];
    if |rest| >= 2 {
      assert (rest + gen)[2..] == rest[2..] + gen;
    } else {
      assert (rest + gen)[2..] == gen[1..];
    }
  }

  /** Without a directive in the first cell, the table is left as it is. */
  lemma PreparedWithoutDirective(rows: seq<Row>, model: map<string, seq<seq<string>>>)
    requires TableKey(rows).None?
    ensures PrepareDefined(rows, model) && Prepared(rows, model) == rows
  {
  }

  /** An absent or empty binding removes the directive row and nothing else. */
  lemma PreparedWithoutData(rows: seq<Row>, model: map<string, seq<seq<string>>>, key: string)
    requires TableKey(rows) == Some(key) && BoundRows(model, key) == 0
    ensures PrepareDefined(rows, model) && Prepared(rows, model) == rows[1..]
  {
  }

  /** A directive bound to data needs the row after the directive's as a template. */
  lemma HasTemplate(rows: seq<Row>, model: map<string, seq<seq<string>>>, key: string)
    requires PrepareDefined(rows, model) && TableKey(rows) == Some(key) && BoundRows(model, key) > 0
    ensures |rows| >= 2
  {
  }

  /** Dropping the first of two or more rows keeps the last row last. */
  lemma LastOfTail(rows: seq<Row>)
    requires |rows| >= 2
    ensures rows[1..][|rows| - 2] == rows[|rows| - 1]
  {
  }

  /** A non-empty binding: row 0 goes, the copies are appended, and row 1 goes. */
  lemma PreparedExpands(rows: seq<Row>, model: map<string, seq<seq<string>>>, key: string)
    requires PrepareDefined(rows, model) && TableKey(rows) == Some(key) && BoundRows(model, key) > 0
    ensures |rows| >= 2
    ensures Prepared(rows, model) == RemoveAt(rows[1..] + Appended(rows[|rows| - 1], key, BoundRows(model, key)), 1)
  {
    assert |rows| >= 2 by { HasTemplate(rows, model, key); }
    var rest, n := rows[1..], BoundRows(model, key);
    LastOfTail(rows);
    assert Prepared(rows, model) == RemoveAt(rest + Appended(rest[|rest| - 1], key, n), 1);
  }

  /**
   * Where each row ends up when the key is bound to n > 0 rows.  Row 1
   * stays first.  With at least three rows, rows 3 onwards follow and the
   * n generated rows come last (row 2 is the one removed); with exactly
   * two rows, the first generated row is the one removed.  The generated
   * rows copy the table's last row.
   */
  lemma PreparedLayout(rows: seq<Row>, model: map<string, seq<seq<string>>>, key: string)
    requires PrepareDefined(rows, model) && TableKey(rows) == Some(key) && BoundRows(model, key) > 0
    ensures |rows| >= 3 ==>
      Prepared(rows, model) == [rows[1]] + rows[3..] + Appended(rows[|rows| - 1], key, BoundRows(model, key))
    ensures |rows| == 2 ==>
      Prepared(rows, model) == [rows[1]] + Appended(rows[1], key, BoundRows(model, key))[1..]
  {
    var rest := rows[1..];
    var gen := Appended(rows[|rows| - 1], key, BoundRows(model, key));
    PreparedExpands(rows, model, key);
    if |rows| >= 3 {
      assert rest[2..] == rows[3..];
    }
    RemoveSecond(rest, gen);
  }

  /** Row `index` of the table goes (`_remove_row`); the index must exist. */
  method RemoveRow(table: Table, index: nat)
    requires index < |table.rows|
    modifies table
    ensures table.rows == RemoveAt(old(table.rows), index)
  {
    table.rows := table.rows[..index] + table.rows[index + 1..];
  }

  /** Sets every run of a paragraph to `text`. */
  method FillParagraph(p: Paragraph, text: string) returns (out: Paragraph)
    ensures out == FilledParagraph(p, text)
  {
    out := p;
    var x := 0;
    while x < |out|
      invariant x <= |out| == |p|
      invariant forall y :: 0 <= y < x ==> out[y] == text
    {
      out := out[x := text];
      x := x + 1;
    }
  }

  /** Sets every run of every paragraph of a cell to `text`. */
  method FillCell(cell: Cell, text: string) returns (out: Cell)
    ensures out == FilledCell(cell, text)
  {
    out := cell;
    var p := 0;
    while p < |out|
      invariant p <= |out| == |cell|
      invariant forall y :: 0 <= y < p ==> out[y] == FilledParagraph(cell[y], text)
      invariant forall y :: p <= y < |out| ==> out[y] == cell[y]
    {
      var filled := FillParagraph(out[p], text);
      out := out[p := filled];
      p := p + 1;
    }
  }

  /**
   * `_add_row`: appends a copy of the current last row in which every run
   * of column c holds `{{ key[rowIndex][c] }}`.
   */
  method AddRow(table: Table, rowIndex: nat, key: string)
    requires |table.rows| > 0
    modifies table
    ensures table.rows == old(table.rows) + [FilledRow(old(table.rows[|table.rows| - 1]), key, rowIndex)]
  {
    ghost var before := table.rows;
    var template := table.rows[|table.rows| - 1];
    var newRow := template;
    var c := 0;
    while c < |newRow|
      invariant c <= |newRow| == |template|
      invariant table.rows == before
      invariant forall y :: 0 <= y < c ==> newRow[y] == FilledCell(template[y], Placeholder(key, rowIndex, y))
      invariant forall y :: c <= y < |newRow| ==> newRow[y] == template[y]
    {
      var filled := FillCell(newRow[c], Placeholder(key, rowIndex, c));
      newRow := newRow[c := filled];
      c := c + 1;
    }
    assert newRow == FilledRow(template, key, rowIndex);
    table.rows := table.rows + [newRow];
  }

  /** The `add_row` loop of the expansion: n copies of the last row, filled for rows 0 to n-1. */
  method AppendRows(table: Table, key: string, n: nat)
    requires |table.rows| > 0
    modifies table
    ensures table.rows == old(table.rows) + Appended(old(table.rows[|table.rows| - 1]), key, n)
  {
    ghost var rest := table.rows;
    var i := 0;
    while i < n
      invariant i <= n
      invariant table.rows == rest + Appended(rest[|rest| - 1], key, i)
    {
      AppendedStep(rest, key, i);
      AddRow(table, i, key);
      i := i + 1;
    }
  }
}
