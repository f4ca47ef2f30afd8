// The in-memory table of simplecsv.cpp: Row (a sparse map from column index
// to text), Table (rows and column names), the IBuild operations that
// reshape a table, Table/Row::write, and the builder that fills a table from
// csv_builder calls.
module SimpleCsv {
  import opened CsvBase
  import opened NoCase

  /** What insertRow returns: the row, or the invalid_argument exception. */
  datatype Result<T> = Ok(value: T) | InvalidArgument

  /** The cells of a row that are stored: column index to text. */
  type Columns = map<nat, string>

  // -------------------------------------------------------------------
  // Row contents

  lemma {:induction false} MaxExists(s: set<nat>)
    requires s != {}
    ensures exists m :: m in s && forall k :: k in s ==> k <= m
    decreases |s|
  {
    var x :| x in s;
    var rest := s - {x};
    forall k | k in s && k != x ensures k in rest {
    }
    if rest == {} {
      assert forall k :: k in s ==> k <= x;
    } else {
      MaxExists(rest);
      var m :| m in rest && forall k :: k in rest ==> k <= m;
      if x > m {
        assert forall k :: k in s ==> k <= x;
      } else {
        assert m in s && forall k :: k in s ==> k <= m;
      }
    }
  }

  /** The largest key of a non-empty map: std::map's last element. */
  function LastKey(cols: Columns): (m: nat)
    requires cols != map[]
    ensures m in cols && forall k :: k in cols ==> k <= m
  {
    assert cols.Keys != {} by {
      var k :| k in cols;
      assert k in cols.Keys;
    }
    MaxExists(cols.Keys);
    var m :| m in cols.Keys && forall k :: k in cols.Keys ==> k <= m;
    m
  }

  /** Row::size: one past the last stored column, 0 for an empty row. Every
      stored column is below it and the one just below it is stored, so gaps
      count towards the size but trailing absent cells do not exist. */
  function Width(cols: Columns): (n: nat)
    ensures forall k :: k in cols ==> k < n
    ensures n == 0 <==> cols == map[]
    ensures n > 0 ==> n - 1 in cols
  {
    if cols == map[] then 0 else LastKey(cols) + 1
  }

  /** Row::operator[](int): the stored text, or `None` for the empty_value
      sentinel (a negative index, one past the size, or a gap). */
  function Lookup(cols: Columns, cidx: int): (r: Option<string>)
    ensures r.Some? <==> cidx >= 0 && cidx in cols
    ensures r.Some? ==> r.value == cols[cidx]
  {
    if cidx < 0 || cidx >= Width(cols) then None
    else if cidx in cols then Some(cols[cidx])
    else None
  }

  /** The cells Row::write hands to the sink: one per column below the size,
      absent exactly at the gaps; the last one, if any, is present. */
  function CellsOf(cols: Columns): (r: seq<Option<string>>)
    ensures |r| == Width(cols)
    ensures forall i :: 0 <= i < |r| ==> r[i] == Lookup(cols, i)
    ensures r != [] ==> r[|r| - 1].Some?
  {
    seq(Width(cols), i requires 0 <= i < Width(cols) => Lookup(cols, i))
  }

  /** The argument of Row::set: a text, or the `del` sentinel. */
  datatype SetArg = Put(text: string) | Del

  /** Row::set as coded: with `del` the column is erased and then, like any
      other call, a Value is inserted, which std::map::insert does only when
      the key is absent; the inserted value is the sentinel's own text, "".
      So a stored column is never overwritten, and `del` leaves "" behind. */
  function SetColumns(cols: Columns, cidx: nat, v: SetArg): (r: Columns)
    ensures cidx in r
    ensures forall k :: k != cidx ==> (k in r <==> k in cols)
    ensures forall k :: k != cidx && k in cols ==> r[k] == cols[k]
    ensures v.Put? ==> r[cidx] == (if cidx in cols then cols[cidx] else v.text)
    ensures v.Del? ==> r[cidx] == ""
  {
    var c := if v.Del? then cols - {cidx} else cols;
    if cidx in c then c else c[cidx := if v.Del? then "" else v.text]
  }

  /** Row::set as evidently intended for `del`: the column is removed. */
  function SetIntended(cols: Columns, cidx: nat, v: SetArg): (r: Columns)
    ensures v.Put? ==> r == SetColumns(cols, cidx, v)
    ensures v.Del? ==> Lookup(r, cidx) == None
    ensures forall k :: k != cidx ==> (k in r <==> k in cols)
    ensures forall k :: k != cidx && k in cols ==> r[k] == cols[k]
  {
    if v.Del? then cols - {cidx} else SetColumns(cols, cidx, v)
  }

  /** Setting `del` on a stored column keeps the column, now holding "", so
      it is still written as a present (empty) cell. */
  lemma SetDelKeepsColumn()
    ensures var cols := SetColumns(map[0 := "x"], 0, Del);
      Lookup(cols, 0) == Some("") && Width(cols) == 1
    ensures var cols := SetIntended(map[0 := "x"], 0, Del);
      Lookup(cols, 0) == None && Width(cols) == 0
  {
    var cols := SetColumns(map[0 := "x"], 0, Del);
    assert cols == map[0 := ""];
    assert SetIntended(map[0 := "x"], 0, Del) == map[];
  }

  // -------------------------------------------------------------------
  // Column names

  /** Table::find_column: the index stored with a name that lt_nocase_str
      treats as equal to `name`, or -1. Equal names are kept in insertion
      order within the multimap. The C++ standard lets find return any of
      them; libstdc++ and libc++ implement find as a lower_bound and so
      return the first one inserted, the lowest such index, as here. */
  function FindColumn(names: seq<string>, name: string): (r: int)
    ensures -1 <= r < |names|
    ensures r == -1 <==> forall j :: 0 <= j < |names| ==> !SameName(names[j], name)
    ensures r >= 0 ==> SameName(names[r], name) && forall j :: 0 <= j < r ==> !SameName(names[j], name)
    decreases |names|
  {
    if names == [] then -1
    else if SameName(names[0], name) then 0
    else
      var r := FindColumn(names[1..], name);
      if r == -1 then -1 else r + 1
  }

  /** Lookup by name compares names case-insensitively. */
  lemma FindColumnUpper(names: seq<string>, name: string)
    ensures FindColumn(names, name) == -1 <==> forall j :: 0 <= j < |names| ==> Upper(names[j]) != Upper(name)
    ensures FindColumn(names, name) >= 0 ==> Upper(names[FindColumn(names, name)]) == Upper(name)
  {
    forall j | 0 <= j < |names| ensures SameName(names[j], name) <==> Upper(names[j]) == Upper(name) {
      SameNameUpper(names[j], name);
    }
  }

  /** Row::operator[](const char *): the column of the first name equal to
      `key` up to case; `None` (empty_value) when there is none. */
  function LookupName(names: seq<string>, cols: Columns, key: string): (r: Option<string>)
    ensures (forall j :: 0 <= j < |names| ==> !SameName(names[j], key)) ==> r.None?
    ensures r.Some? ==> exists j :: 0 <= j < |names| && SameName(names[j], key) && j in cols && r.value == cols[j]
    ensures forall j :: 0 <= j < |names| && SameName(names[j], key) && (forall i :: 0 <= i < j ==> !SameName(names[i], key))
              ==> r == Lookup(cols, j)
  {
    Lookup(cols, FindColumn(names, key))
  }

  // -------------------------------------------------------------------
  // What a table writes

  function Present(texts: seq<string>): (r: seq<Option<string>>)
    ensures |r| == |texts| && forall i :: 0 <= i < |texts| ==> r[i] == Some(texts[i])
  {
    seq(|texts|, i requires 0 <= i < |texts| => Some(texts[i]))
  }

  function TableCells(contents: seq<Columns>): (r: seq<seq<Option<string>>>)
    ensures |r| == |contents| && forall i :: 0 <= i < |contents| ==> r[i] == CellsOf(contents[i])
  {
    seq(|contents|, i requires 0 <= i < |contents| => CellsOf(contents[i]))
  }

  /** RowsTrace of a prefix grown by one row. */
  lemma RowsTracePrefix(rows: seq<seq<Option<string>>>, i: nat)
    requires i < |rows|
    ensures RowsTrace(rows[..i + 1]) == RowsTrace(rows[..i]) + RowTrace(rows[i])
  {
    RowsTraceSnoc(rows[..i], rows[i]);
    assert rows[..i + 1] == rows[..i] + [rows[i]];
  }

  /** Table::write, with the header row holding every column name. Whatever
      the table holds, the sink sees only complete rows. */
  function TableTrace(names: seq<string>, contents: seq<Columns>, withHeader: bool): (t: seq<SinkEvent>)
    ensures Shape(t) == Some(false)
  {
    var rows := RowsTrace(TableCells(contents));
    RowsShape(TableCells(contents));
    RowShape(Present(names));
    ShapeAppend(RowTrace(Present(names)), rows);
    assert [] + rows == rows;
    (if withHeader then RowTrace(Present(names)) else []) + rows
  }

  /** The header row as coded: its length is the number of rows (size()),
      not the number of column names, so it indexes columnnames only within
      bounds when there are at least as many names as rows. */
  function HeaderAsCoded(names: seq<string>, rowCount: nat): (t: seq<SinkEvent>)
    requires rowCount <= |names|
    ensures |t| == rowCount + 2
  {
    RowTrace(Present(names[..rowCount]))
  }

  /** With two column names and one row the coded header drops the second
      name. */
  lemma HeaderTruncated()
    ensures HeaderAsCoded(["a", "b"], 1) == [BeginRow, Cell(Some("a")), EndRow]
    ensures RowTrace(Present(["a", "b"])) == [BeginRow, Cell(Some("a")), Cell(Some("b")), EndRow]
  {
    assert ["a", "b"][..1] == ["a"];
    assert Present(["a"]) == [Some("a")];
    assert Present(["a", "b"]) == [Some("a"), Some("b")];
    assert CellEvents([Some("a")]) == [Cell(Some("a"))];
    assert CellEvents([Some("a"), Some("b")]) == [Cell(Some("a")), Cell(Some("b"))];
  }

  lemma {:induction false} RowsTraceSnoc(rows: seq<seq<Option<string>>>, r: seq<Option<string>>)
    ensures RowsTrace(rows + [r]) == RowsTrace(rows) + RowTrace(r)
    decreases |rows|
  {
    if rows == [] {
      assert rows + [r] == [r];
      assert [r][1..] == [];
      assert RowTrace(r) + [] == RowTrace(r);
    } else {
      assert (rows + [r])[0] == rows[0];
      assert (rows + [r])[1..] == rows[1..] + [r];
      RowsTraceSnoc(rows[1..], r);
      Assoc3(RowTrace(rows[0]), RowsTrace(rows[1..]), RowTrace(r));
    }
  }

  lemma CellEventsSnoc(cells: seq<Option<string>>, i: nat)
    requires i < |cells|
    ensures CellEvents(cells[..i + 1]) == CellEvents(cells[..i]) + [Cell(cells[i])]
  {
  }

  // -------------------------------------------------------------------
  // The builder, as a function of the calls it receives

  /** The builder's state together with the table it fills: the rows'
      columns, the column names, whether `row` is set, `cidx`, `as_header`
      and the header cells collected so far. */
  datatype BuildState = BuildState(
    rows: seq<Columns>, names: seq<string>,
    open: bool, cidx: int, asHeader: bool, header: seq<string>)

  /** A fresh builder on an empty table. */
  function Fresh(firstIsHeader: bool): BuildState {
    BuildState([], [], false, -1, firstIsHeader, [])
  }

  /** A set `row` is always the table's last row and `cidx` is then a
      column index. */
  predicate WellFormed(s: BuildState) {
    s.open ==> |s.rows| > 0 && s.cidx >= 0
  }

  /** One call on the builder; `None` when `cell` arrives in data mode with
      no row begun, where the source's assert(row) fails. */
  function BuildStep(s: BuildState, e: SinkEvent): (r: Option<BuildState>)
    requires WellFormed(s)
    ensures r.None? <==> e.Cell? && !s.asHeader && !s.open
    ensures r.Some? ==> WellFormed(r.value)
  {
    match e
    case BeginRow =>
      if s.asHeader then Some(s.(open := false))
      else Some(s.(rows := s.rows + [map[]], open := true, cidx := 0))
    case Cell(data) =>
      if s.asHeader then Some(s.(header := s.header + [data.GetOr([])]))
      else if !s.open then None
      else
        var n := |s.rows|;
        Some(s.(rows := s.rows[..n - 1] + [SetColumns(s.rows[n - 1], s.cidx, Put(data.GetOr([])))],
                cidx := s.cidx + 1))
    case EndRow =>
      if s.asHeader then Some(s.(names := s.header, header := [], asHeader := false))
      else Some(s)
  }

  /** The builder after a sequence of calls; `None` if one of them fails. */
  function Build(s: BuildState, t: seq<SinkEvent>): (r: Option<BuildState>)
    requires WellFormed(s)
    ensures r.Some? ==> WellFormed(r.value)
    decreases |t|
  {
    if t == [] then Some(s)
    else
      match BuildStep(s, t[0])
      case None => None
      case Some(s') => Build(s', t[1..])
  }

  lemma {:induction false} BuildAppend(s: BuildState, a: seq<SinkEvent>, b: seq<SinkEvent>)
    requires WellFormed(s)
    ensures Build(s, a + b) == match Build(s, a) case None => None case Some(s') => Build(s', b)
    decreases |a|
  {
    if a == [] {
      assert a + b == b;
    } else {
      assert (a + b)[0] == a[0] && (a + b)[1..] == a[1..] + b;
      match BuildStep(s, a[0])
      case None =>
      case Some(s') => BuildAppend(s', a[1..], b);
    }
  }

  /** The columns of a row built from these cells: every cell stored, an
      absent one as "". */
  function Fill(cells: seq<Option<string>>): (r: Columns)
    ensures forall k: nat :: k in r <==> k < |cells|
    ensures forall k: nat :: k < |cells| ==> r[k] == cells[k].GetOr([])
  {
    map k: nat | k < |cells| :: cells[k].GetOr([])
  }

  /** The cells of a row in data mode are stored at 0, 1, 2, ... */
  lemma {:induction false} BuildCells(s: BuildState, cells: seq<Option<string>>)
    requires WellFormed(s) && s.open && !s.asHeader
    requires s.rows[|s.rows| - 1] == map[] && s.cidx == 0
    ensures Build(s, CellEvents(cells))
         == Some(s.(rows := s.rows[..|s.rows| - 1] + [Fill(cells)], cidx := |cells|))
    decreases |cells|
  {
    var n := |s.rows|;
    if cells == [] {
      assert s.rows[..n - 1] + [Fill(cells)] == s.rows;
    } else {
      var init := cells[..|cells| - 1];
      var x := cells[|cells| - 1];
      CellEventsSnoc(cells, |cells| - 1);
      assert cells[..|cells|] == cells;
      BuildCells(s, init);
      BuildAppend(s, CellEvents(init), [Cell(x)]);
      StoreNext(s, cells);
    }
  }

  /** The last cell of a data row whose other cells are already stored. */
  lemma StoreNext(s: BuildState, cells: seq<Option<string>>)
    requires |s.rows| > 0 && s.open && !s.asHeader && cells != []
    requires WellFormed(s.(rows := s.rows[..|s.rows| - 1] + [Fill(cells[..|cells| - 1])], cidx := |cells| - 1))
    ensures var n := |s.rows|;
      var s1 := s.(rows := s.rows[..n - 1] + [Fill(cells[..|cells| - 1])], cidx := |cells| - 1);
      Build(s1, [Cell(cells[|cells| - 1])]) == Some(s.(rows := s.rows[..n - 1] + [Fill(cells)], cidx := |cells|))
  {
    var n := |s.rows|;
    var s1 := s.(rows := s.rows[..n - 1] + [Fill(cells[..|cells| - 1])], cidx := |cells| - 1);
    assert s1.rows[..n - 1] == s.rows[..n - 1];
    FillSnoc(cells);
    BuildOne(s1, Cell(cells[|cells| - 1]));
  }

  lemma BuildOne(s: BuildState, e: SinkEvent)
    requires WellFormed(s)
    ensures Build(s, [e]) == BuildStep(s, e)
  {
    assert [e][1..] == [];
  }

  /** Storing the next cell at the next column extends a filled row. */
  lemma FillSnoc(cells: seq<Option<string>>)
    requires cells != []
    ensures var init := cells[..|cells| - 1];
      SetColumns(Fill(init), |init|, Put(cells[|cells| - 1].GetOr([]))) == Fill(cells)
  {
  }

  /** A data row adds one table row holding its cells. */
  lemma BuildDataRow(s: BuildState, cells: seq<Option<string>>)
    requires WellFormed(s) && !s.asHeader
    ensures Build(s, RowTrace(cells))
         == Some(s.(rows := s.rows + [Fill(cells)], open := true, cidx := |cells|))
  {
    var s1 := s.(rows := s.rows + [map[]], open := true, cidx := 0);
    assert RowTrace(cells) == [BeginRow] + (CellEvents(cells) + [EndRow]);
    BuildAppend(s1, CellEvents(cells), [EndRow]);
    BuildCells(s1, cells);
    assert (s.rows + [map[]])[..|s.rows|] == s.rows;
  }

  /** A header row, in header mode, becomes the column names. */
  lemma {:induction false} BuildHeaderCells(s: BuildState, cells: seq<Option<string>>)
    requires WellFormed(s) && s.asHeader
    ensures Build(s, CellEvents(cells)) == Some(s.(header := s.header + Texts(cells)))
    decreases |cells|
  {
    if cells == [] {
      assert s.header + [] == s.header;
    } else {
      var init := cells[..|cells| - 1];
      var x := cells[|cells| - 1];
      CellEventsSnoc(cells, |cells| - 1);
      assert cells[..|cells|] == cells;
      BuildHeaderCells(s, init);
      BuildAppend(s, CellEvents(init), [Cell(x)]);
      BuildOne(s.(header := s.header + Texts(init)), Cell(x));
      TextsSnoc(cells);
      Assoc3(s.header, Texts(init), [x.GetOr([])]);
    }
  }

  /** The texts of cells as the builder stores them: an absent cell
      (`std::string(NULL, 0)`) is the empty string. */
  function Texts(cells: seq<Option<string>>): (r: seq<string>)
    ensures |r| == |cells| && forall i :: 0 <= i < |cells| ==> r[i] == cells[i].GetOr([])
  {
    seq(|cells|, i requires 0 <= i < |cells| => cells[i].GetOr([]))
  }

  lemma TextsSnoc(cells: seq<Option<string>>)
    requires cells != []
    ensures Texts(cells) == Texts(cells[..|cells| - 1]) + [cells[|cells| - 1].GetOr([])]
  {
  }

  lemma BuildHeaderRow(s: BuildState, cells: seq<Option<string>>)
    requires WellFormed(s) && s.asHeader && s.header == []
    ensures Build(s, RowTrace(cells))
         == Some(s.(open := false, asHeader := false, header := [],
                    names := Texts(cells)))
  {
    var s1 := s.(open := false);
    assert RowTrace(cells) == [BeginRow] + (CellEvents(cells) + [EndRow]);
    BuildAppend(s1, CellEvents(cells), [EndRow]);
    BuildHeaderCells(s1, cells);
    assert [] + Texts(cells) == Texts(cells);
  }

  function FillAll(rows: seq<seq<Option<string>>>): (r: seq<Columns>)
    ensures |r| == |rows| && forall i :: 0 <= i < |rows| ==> r[i] == Fill(rows[i])
  {
    seq(|rows|, i requires 0 <= i < |rows| => Fill(rows[i]))
  }

  lemma {:induction false} BuildDataRows(s: BuildState, rows: seq<seq<Option<string>>>)
    requires WellFormed(s) && !s.asHeader
    ensures var r := Build(s, RowsTrace(rows));
      r.Some? && r.value.rows == s.rows + FillAll(rows) && r.value.names == s.names
      && WellFormed(r.value) && !r.value.asHeader
    decreases |rows|
  {
    if rows == [] {
      assert s.rows + FillAll(rows) == s.rows;
    } else {
      var head := Fill(rows[0]);
      BuildAppend(s, RowTrace(rows[0]), RowsTrace(rows[1..]));
      BuildDataRow(s, rows[0]);
      var s1 := s.(rows := s.rows + [head], open := true, cidx := |rows[0]|);
      BuildDataRows(s1, rows[1..]);
      FillAllCons(rows);
      Assoc3(s.rows, [head], FillAll(rows[1..]));
    }
  }

  lemma FillAllCons(rows: seq<seq<Option<string>>>)
    requires rows != []
    ensures FillAll(rows) == [Fill(rows[0])] + FillAll(rows[1..])
  {
    var r := [Fill(rows[0])] + FillAll(rows[1..]);
    assert forall i :: 0 <= i < |rows| ==> r[i] == Fill(rows[i]) by {
      forall i | 0 <= i < |rows| ensures r[i] == Fill(rows[i]) {
        if i > 0 {
          assert r[i] == FillAll(rows[1..])[i - 1];
        }
      }
    }
  }

  /** builder: a fresh builder fed complete rows makes a table of one row per
      row, each cell stored (an absent one as ""); with first_is_header the
      first row becomes the column names instead. */
  lemma BuildTable(firstIsHeader: bool, rows: seq<seq<Option<string>>>)
    requires firstIsHeader ==> rows != []
    ensures var r := Build(Fresh(firstIsHeader), RowsTrace(rows));
      r.Some? && !r.value.asHeader
      && (!firstIsHeader ==> r.value.rows == FillAll(rows) && r.value.names == [])
      && (firstIsHeader ==>
            r.value.rows == FillAll(rows[1..])
            && r.value.names == Texts(rows[0]))
  {
    var s := Fresh(firstIsHeader);
    if firstIsHeader {
      BuildAppend(s, RowTrace(rows[0]), RowsTrace(rows[1..]));
      BuildHeaderRow(s, rows[0]);
      var names := Texts(rows[0]);
      var s1 := s.(open := false, asHeader := false, header := [], names := names);
      BuildDataRows(s1, rows[1..]);
      assert [] + FillAll(rows[1..]) == FillAll(rows[1..]);
    } else {
      BuildDataRows(s, rows);
      assert [] + FillAll(rows) == FillAll(rows);
    }
  }

  /** Writing a row built from cells gives the cells back, absent ones as
      present and empty. */
  lemma CellsOfFill(cells: seq<Option<string>>)
    ensures CellsOf(Fill(cells)) == seq(|cells|, i requires 0 <= i < |cells| => Some(cells[i].GetOr([])))
  {
    var cols := Fill(cells);
    var n := Width(cols);
    if cells == [] {
      assert cols == map[];
    } else {
      assert |cells| - 1 in cols;
      assert n == |cells|;
    }
  }

  /** Writing a table with its header and building a table from that with
      first_is_header gives back the same column names and, for each row,
      its columns with the gaps stored as "". */
  lemma WriteThenBuild(names: seq<string>, contents: seq<Columns>)
    ensures var r := Build(Fresh(true), TableTrace(names, contents, true));
      r.Some? && r.value.names == names && r.value.rows == FillAll(TableCells(contents))
  {
    var rows := [Present(names)] + TableCells(contents);
    assert rows[0] == Present(names) && rows[1..] == TableCells(contents);
    assert RowsTrace(rows) == TableTrace(names, contents, true);
    BuildTable(true, rows);
  }

  /** A row whose columns have no gaps comes back unchanged. */
  lemma DenseRowRoundTrip(cols: Columns)
    requires forall k :: k < Width(cols) ==> k in cols
    ensures Fill(CellsOf(cols)) == cols
  {
    var n := Width(cols);
    forall k | k in cols ensures k in Fill(CellsOf(cols)) && Fill(CellsOf(cols))[k] == cols[k] {
      assert k < n;
    }
  }

  // -------------------------------------------------------------------
  // The classes

  /** SimpleCSV::Row. Its back reference to the table is not kept. */
  class Row {
    var ridx: int
    var columns: Columns

    constructor (ridx: int)
      ensures this.ridx == ridx && columns == map[]
    {
      this.ridx := ridx;
      columns := map[];
    }

    /** Row::set. */
    method Set(cidx: nat, v: SetArg)
      modifies this
      ensures columns == SetColumns(old(columns), cidx, v) && ridx == old(ridx)
    {
      if v.Del? {
        columns := columns - {cidx};
      }
      if cidx !in columns {
        columns := columns[cidx := if v.Del? then [] else v.text];
      }
    }

    /** Row::write: begin_row, one cell per column below size() (NULL for
      the empty_value sentinel), end_row. */
    method Write() returns (t: seq<SinkEvent>)
      ensures t == RowTrace(CellsOf(columns))
    {
      var cells := CellsOf(columns);
      t := [SinkEvent.BeginRow];
      var clen := Width(columns);
      var i := 0;
      while i < clen
        invariant 0 <= i <= clen
        invariant t == [SinkEvent.BeginRow] + CellEvents(cells[..i])
      {
        CellEventsSnoc(cells, i);
        t := t + [SinkEvent.Cell(Lookup(columns, i))];
        i := i + 1;
      }
      assert cells[..i] == cells;
      t := t + [SinkEvent.EndRow];
    }
  }

  ghost function ColumnsOf(rs: seq<Row>): (c: seq<Columns>)
    reads rs
    ensures |c| == |rs| && forall i :: 0 <= i < |rs| ==> c[i] == rs[i].columns
  {
    seq(|rs|, i requires 0 <= i < |rs| reads rs => rs[i].columns)
  }

  /** A sequence that differs from another only in its last element. */
  lemma ReplaceLast(before: seq<Columns>, after: seq<Columns>, x: Columns)
    requires |after| == |before| > 0 && after[|after| - 1] == x
    requires forall j :: 0 <= j < |before| - 1 ==> after[j] == before[j]
    ensures after == before[..|before| - 1] + [x]
  {
  }

  function Empties(n: nat): (r: seq<Columns>)
    ensures |r| == n && forall i :: 0 <= i < n ==> r[i] == map[]
  {
    seq(n, _ => map[])
  }

  /** SimpleCSV::Table with its IBuild operations. The multimap rev_column
      is the name index over `columnNames`; FindColumn reads it. */
  class Table {
    var rows: seq<Row>
    var columnNames: seq<string>

    /** Every row knows its own index; in particular no row is held twice. */
    ghost predicate Valid()
      reads this, rows
    {
      forall i :: 0 <= i < |rows| ==> rows[i].ridx == i
    }

    ghost function Contents(): seq<Columns>
      reads this, rows
    {
      ColumnsOf(rows)
    }

    constructor ()
      ensures rows == [] && columnNames == [] && Valid()
    {
      rows := [];
      columnNames := [];
    }

    /** Table::operator[]: `None` stands for the empty_row sentinel. */
    function At(ridx: int): (r: Option<Row>)
      reads this
      ensures r.Some? <==> 0 <= ridx < |rows|
      ensures r.Some? ==> r.value == rows[ridx]
    {
      if ridx < 0 || ridx >= |rows| then None else Some(rows[ridx])
    }

    /** IBuild::newRow: append an empty row. */
    method NewRow() returns (r: Row)
      requires Valid()
      modifies this
      ensures Valid() && fresh(r) && r.columns == map[]
      ensures rows == old(rows) + [r] && columnNames == old(columnNames)
      ensures Contents() == old(Contents()) + [map[]]
    {
      r := new Row(|rows|);
      rows := rows + [r];
    }

    /** IBuild::insertRow: a negative index throws; an index inside the table
      inserts an empty row there and renumbers the rows after it; any other
      index appends empty rows up to and including it. The row at the index
      is returned. */
    method InsertRow(at: int) returns (res: Result<Row>)
      requires Valid()
      modifies this, rows
      ensures Valid() && columnNames == old(columnNames)
      ensures at < 0 ==> res == InvalidArgument && rows == old(rows) && Contents() == old(Contents())
      ensures 0 <= at < |old(rows)| ==>
        && res.Ok? && fresh(res.value)
        && rows == old(rows)[..at] + [res.value] + old(rows)[at..]
        && Contents() == old(Contents())[..at] + [map[]] + old(Contents())[at..]
      ensures at >= |old(rows)| ==>
        && res.Ok? && |rows| == at + 1 && res.value == rows[at]
        && rows[..|old(rows)|] == old(rows)
        && (forall i :: |old(rows)| <= i < |rows| ==> fresh(rows[i]))
        && Contents() == old(Contents()) + Empties(at + 1 - |old(rows)|)
    {
      if at < 0 {
        return InvalidArgument;
      }
      if at < |rows| {
        var r := InsertInside(at);
        return Ok(r);
      }
      var r := AppendUpTo(at);
      return Ok(r);
    }

    method InsertInside(at: nat) returns (r: Row)
      requires Valid() && at < |rows|
      modifies this, rows
      ensures Valid() && columnNames == old(columnNames) && fresh(r)
      ensures rows == old(rows)[..at] + [r] + old(rows)[at..]
      ensures Contents() == old(Contents())[..at] + [map[]] + old(Contents())[at..]
    {
      ghost var before := Contents();
      ghost var after := before[..at] + [map[]] + before[at..];
      r := new Row(at);
      rows := rows[..at] + [r] + rows[at..];
      assert forall j :: 0 <= j < |rows| ==> rows[j].columns == after[j];
      assert forall p, q :: 0 <= p < q < |rows| ==> rows[p] != rows[q] by {
        forall p, q | 0 <= p < q < |rows| ensures rows[p] != rows[q] {
          if p != at && q != at {
            assert rows[p].ridx != rows[q].ridx;
          }
        }
      }
      Renumber(at + 1, 1);
    }

    /** The "fix Row::ridx" loops of insertRow and deleteRow: add `delta` to
      the index of every row from `from` on. */
    method Renumber(from: nat, delta: int)
      requires from <= |rows|
      requires forall p, q :: 0 <= p < q < |rows| ==> rows[p] != rows[q]
      requires forall j :: 0 <= j < from ==> rows[j].ridx == j
      requires forall j :: from <= j < |rows| ==> rows[j].ridx == j - delta
      modifies rows
      ensures Valid()
      ensures forall j :: 0 <= j < |rows| ==> rows[j].columns == old(rows[j].columns)
    {
      var i := from;
      while i < |rows|
        invariant from <= i <= |rows|
        invariant forall j :: 0 <= j < i ==> rows[j].ridx == j
        invariant forall j :: i <= j < |rows| ==> rows[j].ridx == j - delta
        invariant forall j :: 0 <= j < |rows| ==> rows[j].columns == old(rows[j].columns)
      {
        rows[i].ridx := rows[i].ridx + delta;
        i := i + 1;
      }
    }

    method AppendUpTo(at: nat) returns (r: Row)
      requires Valid() && at >= |rows|
      modifies this
      ensures Valid() && columnNames == old(columnNames)
      ensures |rows| == at + 1 && r == rows[at] && rows[..|old(rows)|] == old(rows)
      ensures forall i :: |old(rows)| <= i < |rows| ==> fresh(rows[i])
      ensures Contents() == old(Contents()) + Empties(at + 1 - |old(rows)|)
    {
      ghost var n0 := |rows|;
      ghost var before := Contents();
      var i := |rows|;
      while i <= at
        invariant n0 <= i <= at + 1 && |rows| == i
        invariant rows[..n0] == old(rows)
        invariant forall j :: n0 <= j < i ==> fresh(rows[j])
        invariant forall j :: 0 <= j < i ==> rows[j].ridx == j
        invariant forall j :: 0 <= j < i ==> rows[j].columns == (before + Empties(i - n0))[j]
        invariant columnNames == old(columnNames)
      {
        var row := new Row(i);
        rows := rows + [row];
        i := i + 1;
      }
      r := rows[at];
    }

    /** IBuild::deleteRow: an index outside the table does nothing; otherwise
      the row is removed and the rows after it are renumbered. */
    method DeleteRow(ridx: int)
      requires Valid()
      modifies this, rows
      ensures Valid() && columnNames == old(columnNames)
      ensures !(0 <= ridx < |old(rows)|) ==> rows == old(rows) && Contents() == old(Contents())
      ensures 0 <= ridx < |old(rows)| ==>
        && rows == old(rows)[..ridx] + old(rows)[ridx + 1..]
        && Contents() == old(Contents())[..ridx] + old(Contents())[ridx + 1..]
    {
      if ridx < 0 || ridx >= |rows| {
        return;
      }
      ghost var before := Contents();
      ghost var after := before[..ridx] + before[ridx + 1..];
      assert forall p, q :: 0 <= p < q < |rows| ==> rows[p] != rows[q] by {
        forall p, q | 0 <= p < q < |rows| ensures rows[p] != rows[q] {
          assert rows[p].ridx != rows[q].ridx;
        }
      }
      rows := rows[..ridx] + rows[ridx + 1..];
      assert forall j :: 0 <= j < |rows| ==> rows[j].columns == after[j];
      Renumber(ridx, -1);
    }

    /** IBuild::setHeader: the column names become `names`, in order. */
    method SetHeader(names: seq<string>)
      modifies this
      ensures columnNames == names && rows == old(rows)
    {
      columnNames := [];
      var i := 0;
      while i < |names|
        invariant 0 <= i <= |names|
        invariant columnNames == names[..i] && rows == old(rows)
      {
        columnNames := columnNames + [names[i]];
        i := i + 1;
      }
    }

    /** Table::write, with the header row holding every column name. */
    method Write(withHeader: bool) returns (t: seq<SinkEvent>)
      requires Valid()
      ensures t == TableTrace(columnNames, Contents(), withHeader)
    {
      t := [];
      if withHeader {
        t := WriteHeader();
      }
      var body := WriteRows();
      t := t + body;
    }

    /** The header part of Table::write: one cell per column name. */
    method WriteHeader() returns (t: seq<SinkEvent>)
      ensures t == RowTrace(Present(columnNames))
    {
      var names := Present(columnNames);
      t := [SinkEvent.BeginRow];
      var i := 0;
      while i < |columnNames|
        invariant 0 <= i <= |columnNames|
        invariant t == [SinkEvent.BeginRow] + CellEvents(names[..i])
      {
        CellEventsSnoc(names, i);
        t := t + [SinkEvent.Cell(Some(columnNames[i]))];
        i := i + 1;
      }
      assert names[..i] == names;
      t := t + [SinkEvent.EndRow];
    }

    /** The row part of Table::write: every row, in order. */
    method WriteRows() returns (t: seq<SinkEvent>)
      ensures t == RowsTrace(TableCells(Contents()))
    {
      ghost var cells := TableCells(Contents());
      t := [];
      var i := 0;
      while i < |rows|
        invariant 0 <= i <= |rows|
        invariant t == RowsTrace(cells[..i])
      {
        var rt := rows[i].Write();
        assert rt == RowTrace(cells[i]) by {
          assert Contents()[i] == rows[i].columns;
        }
        RowsTracePrefix(cells, i);
        t := t + rt;
        i := i + 1;
      }
      assert cells[..i] == cells;
    }
  }

  /** SimpleCSV::builder. */
  class Builder {
    const result: Table
    var row: Row?
    var cidx: int
    var asHeader: bool
    var header: seq<string>

    /** `row`, when set, is the result's last row. */
    ghost predicate Valid()
      reads this, result, result.rows
    {
      && result.Valid()
      && (row != null ==> |result.rows| > 0 && row == result.rows[|result.rows| - 1] && cidx >= 0
                          && forall j :: 0 <= j < |result.rows| - 1 ==> result.rows[j] != row)
    }

    /** The builder and its table as a BuildState. */
    ghost function Abs(): BuildState
      reads this, result, result.rows
    {
      BuildState(result.Contents(), result.columnNames, row != null, cidx, asHeader, header)
    }

    constructor (result: Table, firstIsHeader: bool := false)
      requires result.Valid()
      ensures this.result == result && Valid()
      ensures Abs() == BuildState(result.Contents(), result.columnNames, false, -1, firstIsHeader, [])
    {
      this.result := result;
      row := null;
      cidx := -1;
      asHeader := firstIsHeader;
      header := [];
    }

    method BeginRow()
      requires Valid()
      modifies this, result
      ensures Valid() && WellFormed(old(Abs()))
      ensures BuildStep(old(Abs()), SinkEvent.BeginRow) == Some(Abs())
    {
      if asHeader {
        row := null;
        return;
      }
      row := result.NewRow();
      cidx := 0;
    }

    /** `cell`: a header cell is collected; a data cell is stored at the next
      column of the current row, an absent one as "". */
    method Cell(data: Option<string>)
      requires Valid() && (asHeader || row != null)
      modifies this, row
      ensures Valid() && WellFormed(old(Abs()))
      ensures BuildStep(old(Abs()), SinkEvent.Cell(data)) == Some(Abs())
    {
      if asHeader {
        header := header + [data.GetOr([])];
        return;
      }
      StoreCell(data.GetOr([]));
    }

    /** The data branch of `cell`: row->set(cidx++, text). Only the last row
      of the table changes. */
    method StoreCell(text: string)
      requires Valid() && row != null && !asHeader
      modifies this, row
      ensures Valid()
      ensures var s := old(Abs()); var n := |s.rows|;
        Abs() == s.(rows := s.rows[..n - 1] + [SetColumns(s.rows[n - 1], s.cidx, Put(text))], cidx := s.cidx + 1)
    {
      ghost var before := result.Contents();
      var r := row;
      r.Set(cidx, Put(text));
      cidx := cidx + 1;
      ghost var after := result.Contents();
      forall j | 0 <= j < |before| - 1 ensures after[j] == before[j] {
        assert result.rows[j] != r;
      }
      ReplaceLast(before, after, r.columns);
    }

    /** `end_row`: a header row sets the column names and ends header mode. */
    method EndRow()
      requires Valid()
      modifies this, result
      ensures Valid() && WellFormed(old(Abs()))
      ensures BuildStep(old(Abs()), SinkEvent.EndRow) == Some(Abs())
    {
      if asHeader {
        result.SetHeader(header);
        header := [];
        asHeader := false;
      }
    }
  }
}
