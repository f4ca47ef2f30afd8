// The event-sink contract shared by the decoder, the writer and the table
// builder (csvbase.h): begin_row, cell(buf, len) and end_row. A sink is
// modelled by the trace of calls it receives.
module CsvBase {

  datatype Option<T> = None | Some(value: T) {
    function GetOr(default: T): T {
      match this
      case Some(v) => v
      case None => default
    }
  }

  /** One call on a csv_builder. `Cell(None)` is `cell(NULL, 0)`, the absent
      cell; `Cell(Some(s))` is a present cell whose bytes are `s` (possibly empty). */
  datatype SinkEvent = BeginRow | Cell(data: Option<string>) | EndRow

  /** The `cell` calls for a row's cells, in order. */
  function CellEvents(cells: seq<Option<string>>): (t: seq<SinkEvent>)
    ensures |t| == |cells|
    ensures forall i :: 0 <= i < |cells| ==> t[i] == Cell(cells[i])
  {
    if cells == [] then [] else [Cell(cells[0])] + CellEvents(cells[1..])
  }

  /** The calls a producer makes for one complete row. */
  function RowTrace(cells: seq<Option<string>>): seq<SinkEvent> {
    [BeginRow] + CellEvents(cells) + [EndRow]
  }

  /** The calls for a sequence of complete rows. */
  function RowsTrace(rows: seq<seq<Option<string>>>): seq<SinkEvent> {
    if rows == [] then [] else RowTrace(rows[0]) + RowsTrace(rows[1..])
  }

  /** Shape of a trace: `Some(open)` when it is a run of complete rows
      (BeginRow Cell* EndRow), followed, if `open`, by one unfinished row
      (BeginRow Cell*); `None` when it is not of that form. */
  function Shape(t: seq<SinkEvent>): Option<bool> {
    if t == [] then Some(false)
    else
      match Shape(t[..|t| - 1])
      case None => None
      case Some(open) =>
        match t[|t| - 1]
        case BeginRow => if open then None else Some(true)
        case Cell(_) => if open then Some(true) else None
        case EndRow => if open then Some(false) else None
  }

  lemma ShapeSnoc(t: seq<SinkEvent>, e: SinkEvent)
    ensures Shape(t + [e]) == (
      match Shape(t)
      case None => None
      case Some(open) =>
        match e
        case BeginRow => if open then None else Some(true)
        case Cell(_) => if open then Some(true) else None
        case EndRow => if open then Some(false) else None)
  {
    assert (t + [e])[..|t + [e]| - 1] == t;
  }

  /** After a run of complete rows, the shape is that of what follows. */
  lemma {:induction false} ShapeAppend(a: seq<SinkEvent>, b: seq<SinkEvent>)
    requires Shape(a) == Some(false)
    ensures Shape(a + b) == Shape(b)
    decreases |b|
  {
    if b == [] {
      assert a + b == a;
    } else {
      var init, e := b[..|b| - 1], b[|b| - 1];
      assert b == init + [e];
      assert a + b == (a + init) + [e];
      ShapeAppend(a, init);
      ShapeSnoc(a + init, e);
      ShapeSnoc(init, e);
    }
  }

  /** begin_row and any number of cells leave one row open. */
  lemma {:induction false} OpenRowShape(cells: seq<Option<string>>)
    ensures Shape([BeginRow] + CellEvents(cells)) == Some(true)
    decreases |cells|
  {
    if cells == [] {
      ShapeSnoc([], BeginRow);
      assert [BeginRow] + CellEvents(cells) == [] + [BeginRow];
    } else {
      var init := cells[..|cells| - 1];
      assert CellEvents(cells) == CellEvents(init) + [Cell(cells[|cells| - 1])];
      assert [BeginRow] + CellEvents(cells) == ([BeginRow] + CellEvents(init)) + [Cell(cells[|cells| - 1])];
      OpenRowShape(init);
      ShapeSnoc([BeginRow] + CellEvents(init), Cell(cells[|cells| - 1]));
    }
  }

  /** A producer's rows are complete rows. */
  lemma {:induction false} RowsShape(rows: seq<seq<Option<string>>>)
    ensures Shape(RowsTrace(rows)) == Some(false)
    decreases |rows|
  {
    if rows != [] {
      RowShape(rows[0]);
      RowsShape(rows[1..]);
      ShapeAppend(RowTrace(rows[0]), RowsTrace(rows[1..]));
    }
  }

  lemma RowShape(cells: seq<Option<string>>)
    ensures Shape(RowTrace(cells)) == Some(false)
  {
    OpenRowShape(cells);
    ShapeSnoc([BeginRow] + CellEvents(cells), EndRow);
  }

  // Regrouping of concatenations, kept in small lemmas so that the proofs
  // using them do not search for it.

  lemma Assoc3<T>(a: seq<T>, b: seq<T>, c: seq<T>)
    ensures a + b + c == a + (b + c)
  {
  }

  lemma Assoc4<T>(a: seq<T>, b: seq<T>, c: seq<T>, d: seq<T>)
    ensures a + b + c + d == a + (b + (c + d))
  {
  }

  lemma AppendAssoc<T>(o: seq<T>, a: seq<T>, b: seq<T>, c: seq<T>)
    ensures o + a + b + c == o + (a + b + c)
  {
  }
}
