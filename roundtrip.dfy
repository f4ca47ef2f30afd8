// csv_writer is the inverse of csvparser: what the writer produces for a
// sequence of rows, the decoder turns back into the same rows.
module RoundTrip {
  import opened CsvBase
  import opened CsvParser
  import opened CsvWriter

  /** The writer's text for the cells after the first of a row. */
  function RestText(qchar: char, sep: char, smartQuote: bool, cells: seq<Option<string>>): string {
    if cells == [] then []
    else [sep] + FieldText(qchar, sep, smartQuote, cells[0]) + RestText(qchar, sep, smartQuote, cells[1..])
  }

  /** The writer's text for one row: its fields joined by the separator,
      then one newline. */
  function RowText(qchar: char, sep: char, smartQuote: bool, cells: seq<Option<string>>): string {
    (if cells == [] then []
     else FieldText(qchar, sep, smartQuote, cells[0]) + RestText(qchar, sep, smartQuote, cells[1..]))
    + ['\n']
  }

  function RowsText(qchar: char, sep: char, smartQuote: bool, rows: seq<seq<Option<string>>>): string {
    if rows == [] then []
    else RowText(qchar, sep, smartQuote, rows[0]) + RowsText(qchar, sep, smartQuote, rows[1..])
  }

  /** The one row the decoder cannot give back: a row of exactly one absent
      cell is written as a bare newline, which decodes as a row of no cells. */
  function Canonical(cells: seq<Option<string>>): seq<Option<string>> {
    if cells == [None] then [] else cells
  }

  function CanonicalRows(rows: seq<seq<Option<string>>>): (r: seq<seq<Option<string>>>)
    ensures |r| == |rows|
  {
    if rows == [] then [] else [Canonical(rows[0])] + CanonicalRows(rows[1..])
  }

  /** A cell that the writer's text for it lets the decoder recover: every
      cell when quoting always; in smart mode an unquoted cell must be
      non-empty and must not start with a space, since the decoder reads an
      empty field as absent and skips leading spaces. */
  predicate Recoverable(qchar: char, sep: char, smartQuote: bool, c: Option<string>) {
    || c.None?
    || !smartQuote
    || Dangerous(qchar, sep, c.value)
    || (c.value != [] && c.value[0] != ' ')
  }

  // ---------------------------------------------------------------------
  // The writer's side: the text of a sequence of rows.

  lemma {:induction false} RenderCells(qchar: char, sep: char, smartQuote: bool, cells: seq<Option<string>>, t: seq<SinkEvent>)
    ensures Render(qchar, sep, smartQuote, false, CellEvents(cells) + t)
         == RestText(qchar, sep, smartQuote, cells) + Render(qchar, sep, smartQuote, false, t)
    decreases |cells|
  {
    if cells == [] {
      assert CellEvents(cells) + t == t;
    } else {
      assert CellEvents(cells) + t == [Cell(cells[0])] + (CellEvents(cells[1..]) + t);
      RenderCons(qchar, sep, smartQuote, false, Cell(cells[0]), CellEvents(cells[1..]) + t);
      RenderCells(qchar, sep, smartQuote, cells[1..], t);
    }
  }

  /** What the writer emits for begin_row, the row's cells and end_row. */
  lemma RenderRow(qchar: char, sep: char, smartQuote: bool, first: bool, cells: seq<Option<string>>, t: seq<SinkEvent>)
    ensures Render(qchar, sep, smartQuote, first, RowTrace(cells) + t)
         == RowText(qchar, sep, smartQuote, cells) + Render(qchar, sep, smartQuote, cells == [], t)
  {
    var v := CellEvents(cells) + ([EndRow] + t);
    Assoc4([BeginRow], CellEvents(cells), [EndRow], t);
    assert RowTrace(cells) + t == [BeginRow] + v;
    RenderCons(qchar, sep, smartQuote, first, BeginRow, v);
    assert Render(qchar, sep, smartQuote, first, RowTrace(cells) + t) == Render(qchar, sep, smartQuote, true, v);
    if cells == [] {
      assert v == [EndRow] + t;
      RenderCons(qchar, sep, smartQuote, true, EndRow, t);
      assert RowText(qchar, sep, smartQuote, cells) == ['\n'];
    } else {
      RowBody(qchar, sep, smartQuote, cells, t);
    }
  }

  /** The cells and end_row of a row that has cells. */
  lemma RowBody(qchar: char, sep: char, smartQuote: bool, cells: seq<Option<string>>, t: seq<SinkEvent>)
    requires cells != []
    ensures Render(qchar, sep, smartQuote, true, CellEvents(cells) + ([EndRow] + t))
         == RowText(qchar, sep, smartQuote, cells) + Render(qchar, sep, smartQuote, false, t)
  {
    var w := [EndRow] + t;
    var x := FieldText(qchar, sep, smartQuote, cells[0]);
    var r := RestText(qchar, sep, smartQuote, cells[1..]);
    var z := Render(qchar, sep, smartQuote, false, t);
    var tail := CellEvents(cells[1..]) + w;
    assert CellEvents(cells) == [Cell(cells[0])] + CellEvents(cells[1..]);
    Assoc3([Cell(cells[0])], CellEvents(cells[1..]), w);
    RenderCons(qchar, sep, smartQuote, true, Cell(cells[0]), tail);
    RenderCells(qchar, sep, smartQuote, cells[1..], w);
    RenderCons(qchar, sep, smartQuote, false, EndRow, t);
    assert [] + x == x;
    Assoc4(x, r, ['\n'], z);
  }

  lemma {:induction false} RenderRows(qchar: char, sep: char, smartQuote: bool, first: bool, rows: seq<seq<Option<string>>>)
    ensures Render(qchar, sep, smartQuote, first, RowsTrace(rows)) == RowsText(qchar, sep, smartQuote, rows)
    decreases |rows|
  {
    if rows != [] {
      RenderRow(qchar, sep, smartQuote, first, rows[0], RowsTrace(rows[1..]));
      RenderRows(qchar, sep, smartQuote, rows[0] == [], rows[1..]);
    }
  }

  // ---------------------------------------------------------------------
  // The decoder's side.

  /** Decoding an escaped body inside a quoted field appends the original
      body: the decoder undoes exactly the writer's quote doubling. */
  lemma {:induction false} QuotedBody(qchar: char, sep: char, m: Machine, w: string)
    requires m.state == ReadQuoted
    ensures Run(qchar, sep, m, Escape(qchar, w)) == Outcome(m.(cell := m.cell + w), false, |Escape(qchar, w)|)
    decreases |w|
  {
    if w == [] {
      assert m.cell + w == m.cell;
    } else {
      var m1 := m.(cell := m.cell + [w[0]]);
      QuotedBody(qchar, sep, m1, w[1..]);
      if w[0] == qchar {
        DoubledQuote(qchar, sep, m);
        RunAppend(qchar, sep, m, [qchar, qchar], Escape(qchar, w[1..]));
      } else {
        RunCons(qchar, sep, m, w[0], Escape(qchar, w[1..]));
      }
      assert m.cell + [w[0]] + w[1..] == m.cell + w;
    }
  }

  /** Decoding one field's text after a separator (or at the start of a
      row) leaves exactly that field pending and emits nothing yet. */
  lemma FieldRun(qchar: char, sep: char, smartQuote: bool, o: seq<SinkEvent>, c: Option<string>)
    requires qchar != sep && qchar != '\n' && sep != '\n'
    requires Recoverable(qchar, sep, smartQuote, c)
    ensures var r := Run(qchar, sep, Machine(ReadSkipPre, [], o), FieldText(qchar, sep, smartQuote, c));
      !r.err && r.m.out == o && Pending(r.m) == Some(c)
  {
    match c
    case None =>
    case Some(w) =>
      if smartQuote && !Dangerous(qchar, sep, w) {
        assert Plain(qchar, sep, w) by {
          forall i | 0 <= i < |w| ensures w[i] != qchar && w[i] != sep && w[i] != '\n' {
            assert !Special(qchar, sep, w[i]);
          }
        }
        UnquotedToken(qchar, sep, o, w);
      } else {
        QuotedFieldRun(qchar, sep, o, w);
      }
  }

  /** A quoted field: opening quote, escaped body, closing quote. */
  lemma QuotedFieldRun(qchar: char, sep: char, o: seq<SinkEvent>, w: string)
    ensures var r := Run(qchar, sep, Machine(ReadSkipPre, [], o), [qchar] + Escape(qchar, w) + [qchar]);
      !r.err && r.m.out == o && Pending(r.m) == Some(Some(w))
  {
    var m := Machine(ReadSkipPre, [], o);
    var e := Escape(qchar, w);
    var m1 := Machine(ReadQuoted, [], o);
    Assoc3([qchar], e, [qchar]);
    RunCons(qchar, sep, m, qchar, e + [qchar]);
    RunAppend(qchar, sep, m1, e, [qchar]);
    QuotedBody(qchar, sep, m1, w);
    RunCons(qchar, sep, m1.(cell := w), qchar, []);
    assert [qchar] + [] == [qchar];
    assert [] + w == w;
  }

  /** A field's text followed by a separator or a newline: the field is
      handed to the sink, and the row ends on a newline. */
  lemma FieldEnds(qchar: char, sep: char, smartQuote: bool, o: seq<SinkEvent>, c: Option<string>, b: char, y: string)
    requires qchar != sep && qchar != '\n' && sep != '\n'
    requires Recoverable(qchar, sep, smartQuote, c)
    requires b == sep || b == '\n'
    ensures var x := FieldText(qchar, sep, smartQuote, c);
      var r := Run(qchar, sep, Machine(ReadSkipPre, [], o), x + ([b] + y));
      && (b == sep ==> r == Shift(Run(qchar, sep, Machine(ReadSkipPre, [], o + [Cell(c)]), y), |x| + 1))
      && (b == '\n' ==> r == Shift(Run(qchar, sep, Machine(Start, [], o + [Cell(c), EndRow]), y), |x| + 1))
  {
    var m := Machine(ReadSkipPre, [], o);
    var x := FieldText(qchar, sep, smartQuote, c);
    FieldRun(qchar, sep, smartQuote, o, c);
    var m1 := Run(qchar, sep, m, x).m;
    RunAppend(qchar, sep, m, x, [b] + y);
    RunCons(qchar, sep, m1, b, y);
    Terminate(m1, b);
  }

  /** The last field of a row: its text and the newline close the row. */
  lemma LastField(qchar: char, sep: char, smartQuote: bool, o: seq<SinkEvent>, cells: seq<Option<string>>)
    requires qchar != sep && qchar != '\n' && sep != '\n'
    requires |cells| == 1 && Recoverable(qchar, sep, smartQuote, cells[0])
    ensures var text := FieldText(qchar, sep, smartQuote, cells[0]) + RestText(qchar, sep, smartQuote, cells[1..]) + ['\n'];
      Run(qchar, sep, Machine(ReadSkipPre, [], o), text)
        == Outcome(Machine(Start, [], o + CellEvents(cells) + [EndRow]), false, |text|)
  {
    var x := FieldText(qchar, sep, smartQuote, cells[0]);
    assert RestText(qchar, sep, smartQuote, cells[1..]) == [];
    assert x + [] + ['\n'] == x + (['\n'] + []);
    FieldEnds(qchar, sep, smartQuote, o, cells[0], '\n', []);
    assert CellEvents(cells) == [Cell(cells[0])];
    assert o + [Cell(cells[0]), EndRow] == o + CellEvents(cells) + [EndRow];
  }

  /** A field that is not the last of its row: its text and the separator
      hand it to the sink and leave the decoder in ReadSkipPre. */
  lemma InnerField(qchar: char, sep: char, smartQuote: bool, o: seq<SinkEvent>, cells: seq<Option<string>>)
    requires qchar != sep && qchar != '\n' && sep != '\n'
    requires |cells| >= 2 && Recoverable(qchar, sep, smartQuote, cells[0])
    ensures var x := FieldText(qchar, sep, smartQuote, cells[0]);
      var y := FieldText(qchar, sep, smartQuote, cells[1..][0]) + RestText(qchar, sep, smartQuote, cells[1..][1..]) + ['\n'];
      var text := x + RestText(qchar, sep, smartQuote, cells[1..]) + ['\n'];
      && Run(qchar, sep, Machine(ReadSkipPre, [], o), text)
           == Shift(Run(qchar, sep, Machine(ReadSkipPre, [], o + [Cell(cells[0])]), y), |x| + 1)
      && |text| == |x| + 1 + |y|
  {
    var tail := cells[1..];
    var x := FieldText(qchar, sep, smartQuote, cells[0]);
    var y := FieldText(qchar, sep, smartQuote, tail[0]) + RestText(qchar, sep, smartQuote, tail[1..]) + ['\n'];
    var f := FieldText(qchar, sep, smartQuote, tail[0]);
    var g := RestText(qchar, sep, smartQuote, tail[1..]);
    assert RestText(qchar, sep, smartQuote, tail) == [sep] + f + g;
    Regroup(x, sep, f, g);
    FieldEnds(qchar, sep, smartQuote, o, cells[0], sep, y);
  }

  /** An outcome shifted past one handed-over cell, whose rest finishes the
      row, finishes the row with that cell in front. */
  lemma JoinRuns(r: Outcome, rest: Outcome, o: seq<SinkEvent>, c: Option<string>, ev: seq<SinkEvent>, n: nat, k: nat)
    requires k <= n
    requires r == Shift(rest, k)
    requires rest == Outcome(Machine(Start, [], o + [Cell(c)] + ev + [EndRow]), false, n - k)
    ensures r == Outcome(Machine(Start, [], o + ([Cell(c)] + ev) + [EndRow]), false, n)
  {
    assert o + [Cell(c)] + ev == o + ([Cell(c)] + ev);
  }

  lemma Regroup(x: string, sep: char, f: string, g: string)
    ensures x + ([sep] + f + g) + ['\n'] == x + ([sep] + (f + g + ['\n']))
  {
  }

  /** Decoding the fields of a row from ReadSkipPre, then its newline,
      emits one cell per field and ends the row. */
  lemma {:induction false} CellsRun(qchar: char, sep: char, smartQuote: bool, o: seq<SinkEvent>, cells: seq<Option<string>>)
    requires qchar != sep && qchar != '\n' && sep != '\n'
    requires cells != []
    requires forall j :: 0 <= j < |cells| ==> Recoverable(qchar, sep, smartQuote, cells[j])
    ensures var text := FieldText(qchar, sep, smartQuote, cells[0]) + RestText(qchar, sep, smartQuote, cells[1..]) + ['\n'];
      Run(qchar, sep, Machine(ReadSkipPre, [], o), text)
        == Outcome(Machine(Start, [], o + CellEvents(cells) + [EndRow]), false, |text|)
    decreases |cells|
  {
    if |cells| == 1 {
      LastField(qchar, sep, smartQuote, o, cells);
    } else {
      var tail := cells[1..];
      var x := FieldText(qchar, sep, smartQuote, cells[0]);
      var y := FieldText(qchar, sep, smartQuote, tail[0]) + RestText(qchar, sep, smartQuote, tail[1..]) + ['\n'];
      InnerField(qchar, sep, smartQuote, o, cells);
      CellsRun(qchar, sep, smartQuote, o + [Cell(cells[0])], tail);
      var text := x + RestText(qchar, sep, smartQuote, tail) + ['\n'];
      JoinRuns(Run(qchar, sep, Machine(ReadSkipPre, [], o), text), Run(qchar, sep, Machine(ReadSkipPre, [], o + [Cell(cells[0])]), y),
               o, cells[0], CellEvents(tail), |text|, |x| + 1);
      assert CellEvents(cells) == [Cell(cells[0])] + CellEvents(tail);
    }  }

  /** From Start, a byte other than a newline first opens the row, after
      which Start acts as ReadSkipPre. */
  lemma StartBegins(qchar: char, sep: char, o: seq<SinkEvent>, input: string)
    requires input != [] && !Classify(qchar, sep, input[0]).Enewline?
    ensures Run(qchar, sep, Machine(Start, [], o), input) == Run(qchar, sep, Machine(ReadSkipPre, [], o + [BeginRow]), input)
  {
    StartAsSkipPre(Machine(Start, [], o), Classify(qchar, sep, input[0]));
  }

  /** The first byte of the text of a row that is neither empty nor a single
      absent cell is not a newline. */
  lemma RowTextHead(qchar: char, sep: char, smartQuote: bool, cells: seq<Option<string>>)
    requires qchar != sep && qchar != '\n' && sep != '\n'
    requires cells != [] && cells != [None]
    requires Recoverable(qchar, sep, smartQuote, cells[0])
    ensures var text := RowText(qchar, sep, smartQuote, cells);
      text != [] && text[0] != '\n'
  {
    var x := FieldText(qchar, sep, smartQuote, cells[0]);
    var rest := RestText(qchar, sep, smartQuote, cells[1..]);
    var text := RowText(qchar, sep, smartQuote, cells);
    assert text == x + rest + ['\n'];
    match cells[0]
    case None =>
      assert |cells| > 1;
      assert x == [];
      assert rest[0] == sep;
      assert text[0] == sep;
    case Some(w) =>
      if smartQuote && !Dangerous(qchar, sep, w) {
        assert x == w && x[0] == w[0];
        assert !Special(qchar, sep, w[0]);
      } else {
        assert x[0] == qchar;
      }
  }

  /** A row of no cells, or of one absent cell, is a bare newline. */
  lemma EmptyRowRun(qchar: char, sep: char, smartQuote: bool, o: seq<SinkEvent>, cells: seq<Option<string>>)
    requires qchar != sep && qchar != '\n' && sep != '\n'
    requires cells == [] || cells == [None]
    ensures var text := RowText(qchar, sep, smartQuote, cells);
      Run(qchar, sep, Machine(Start, [], o), text) == Outcome(Machine(Start, [], o + RowTrace([])), false, |text|)
  {
    assert RowText(qchar, sep, smartQuote, cells) == ['\n'];
    StartAsSkipPre(Machine(Start, [], o), Enewline('\n'));
    assert RowTrace([]) == [BeginRow, EndRow];
  }

  lemma FullRowRun(qchar: char, sep: char, smartQuote: bool, o: seq<SinkEvent>, cells: seq<Option<string>>)
    requires qchar != sep && qchar != '\n' && sep != '\n'
    requires cells != [] && cells != [None]
    requires forall j :: 0 <= j < |cells| ==> Recoverable(qchar, sep, smartQuote, cells[j])
    ensures var text := RowText(qchar, sep, smartQuote, cells);
      Run(qchar, sep, Machine(Start, [], o), text) == Outcome(Machine(Start, [], o + RowTrace(cells)), false, |text|)
  {
    var text := RowText(qchar, sep, smartQuote, cells);
    assert text == FieldText(qchar, sep, smartQuote, cells[0]) + RestText(qchar, sep, smartQuote, cells[1..]) + ['\n'];
    RowTextHead(qchar, sep, smartQuote, cells);
    StartBegins(qchar, sep, o, text);
    CellsRun(qchar, sep, smartQuote, o + [BeginRow], cells);
    AppendAssoc(o, [BeginRow], CellEvents(cells), [EndRow]);
  }

  /** Decoding one row of the writer's text from Start emits that row
      (the single-absent-cell row as an empty row) and returns to Start. */
  lemma RowRun(qchar: char, sep: char, smartQuote: bool, o: seq<SinkEvent>, cells: seq<Option<string>>)
    requires qchar != sep && qchar != '\n' && sep != '\n'
    requires forall j :: 0 <= j < |cells| ==> Recoverable(qchar, sep, smartQuote, cells[j])
    ensures var text := RowText(qchar, sep, smartQuote, cells);
      Run(qchar, sep, Machine(Start, [], o), text)
        == Outcome(Machine(Start, [], o + RowTrace(Canonical(cells))), false, |text|)
  {
    if cells == [] || cells == [None] {
      EmptyRowRun(qchar, sep, smartQuote, o, cells);
    } else {
      FullRowRun(qchar, sep, smartQuote, o, cells);
    }
  }

  lemma {:induction false} RowsRun(qchar: char, sep: char, smartQuote: bool, o: seq<SinkEvent>, rows: seq<seq<Option<string>>>)
    requires qchar != sep && qchar != '\n' && sep != '\n'
    requires forall i, j :: 0 <= i < |rows| && 0 <= j < |rows[i]| ==> Recoverable(qchar, sep, smartQuote, rows[i][j])
    ensures var text := RowsText(qchar, sep, smartQuote, rows);
      Run(qchar, sep, Machine(Start, [], o), text)
        == Outcome(Machine(Start, [], o + RowsTrace(CanonicalRows(rows))), false, |text|)
    decreases |rows|
  {
    if rows == [] {
      assert o + [] == o;
    } else {
      var x := RowText(qchar, sep, smartQuote, rows[0]);
      var o' := o + RowTrace(Canonical(rows[0]));
      RowRun(qchar, sep, smartQuote, o, rows[0]);
      RunAppend(qchar, sep, Machine(Start, [], o), x, RowsText(qchar, sep, smartQuote, rows[1..]));
      RowsRun(qchar, sep, smartQuote, o', rows[1..]);
      var cr := CanonicalRows(rows);
      assert cr[0] == Canonical(rows[0]) && cr[1..] == CanonicalRows(rows[1..]);
      assert RowsTrace(cr) == RowTrace(cr[0]) + RowsTrace(cr[1..]);
      Assoc3(o, RowTrace(cr[0]), RowsTrace(cr[1..]));
    }
  }

  /** Round trip: decoding (with the same quote char and separator, distinct
      and neither a newline) what the writer writes for a sequence of rows
      succeeds, consumes everything, ends on a row boundary, and gives back
      the same rows, absent cells as absent and present cells byte for byte;
      a row of exactly one absent cell comes back as a row of no cells. In
      smart mode this needs every present cell to be Recoverable. */
  lemma WriteThenParse(qchar: char, sep: char, smartQuote: bool, rows: seq<seq<Option<string>>>)
    requires qchar != sep && qchar != '\n' && sep != '\n'
    requires forall i, j :: 0 <= i < |rows| && 0 <= j < |rows[i]| ==> Recoverable(qchar, sep, smartQuote, rows[i][j])
    ensures var text := Render(qchar, sep, smartQuote, true, RowsTrace(rows));
      Decode(qchar, sep, text) == Outcome(Machine(Start, [], RowsTrace(CanonicalRows(rows))), false, |text|)
  {
    RenderRows(qchar, sep, smartQuote, true, rows);
    RowsRun(qchar, sep, smartQuote, [], rows);
    assert [] + RowsTrace(CanonicalRows(rows)) == RowsTrace(CanonicalRows(rows));
  }

  /** With quoting always on (the writer's default), the round trip holds for
      any cells, including ones holding quote chars, separators, spaces and
      newlines. */
  lemma QuotedRoundTrip(qchar: char, sep: char, rows: seq<seq<Option<string>>>)
    requires qchar != sep && qchar != '\n' && sep != '\n'
    ensures var text := Render(qchar, sep, false, true, RowsTrace(rows));
      Decode(qchar, sep, text) == Outcome(Machine(Start, [], RowsTrace(CanonicalRows(rows))), false, |text|)
  {
    WriteThenParse(qchar, sep, false, rows);
  }

  /** Why smart mode needs Recoverable: it writes a present empty cell
      exactly as it writes an absent one, and writes a cell with leading
      spaces unquoted, so that the decoder drops them. */
  lemma SmartQuoteLosses(qchar: char, sep: char, o: seq<SinkEvent>, n: nat, t: string)
    requires qchar != sep && ' ' != qchar && ' ' != sep
    requires Plain(qchar, sep, t) && t != [] && t[0] != ' '
    ensures FieldText(qchar, sep, true, Some([])) == FieldText(qchar, sep, true, None)
    ensures var text := FieldText(qchar, sep, true, Some(Spaces(n) + t)) + [sep];
      Run(qchar, sep, Machine(ReadSkipPre, [], o), text)
        == Outcome(Machine(ReadSkipPre, [], o + [Cell(Some(t))]), false, |text|)
  {
    var w := Spaces(n) + t;
    assert !Dangerous(qchar, sep, w) by {
      forall i | 0 <= i < |w| ensures !Special(qchar, sep, w[i]) {
        if i >= n {
          assert w[i] == t[i - n];
        }
      }
    }
    UnquotedField(qchar, sep, o, n, t);
  }
}
