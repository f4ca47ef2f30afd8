# cppcsv core in Dafny

This project models the core of cppcsv, a small C++ CSV library. The
format is close to RFC 4180. Rows end with LF only. The quote character and
the separator are configurable, and spaces are handled leniently. The model
has four parts.

- **The streaming decoder** (`csvparser.cpp`, module `CsvParser`).
  - `Classify` turns each byte into one of the five events.
  - `Step` is the `Trans::on` transition table over the seven reading
    states and `ReadError`. It includes the C++ overload fallback to the
    `Echar` handler.
  - The sink (`csv_builder`) is the trace of `BeginRow`, `Cell` and
    `EndRow` calls it receives (module `CsvBase`). An absent cell,
    `cell(NULL,0)`, is `Cell(None)`.
  - `Run`/`Decode` specify one call of `csvparser::operator()`.
  - The imperative side is the `Trans` class, whose `cell` buffer and sink
    trace are updated in place, and `Parser.Parse`, the driver loop. The loop
    is proved equal to `Decode`.
- **The writer** (`csvwriter.h`, module `CsvWriter`).
  - `Writer` is `csv_writer`, with its `first` flag and an output string
    standing in for the `Output` functor.
  - Its quoting loop is proved against `Escape`.
  - Its whole output for a sequence of sink calls is `Render`.
  - Module `RoundTrip` proves that the decoder inverts the writer.
- **The table** (`simplecsv.cpp`, module `SimpleCsv`).
  - `Row` is a sparse map from column index to text.
  - `Table` holds its rows and column names. Its `Valid` invariant is
    `rows[i].ridx == i`.
  - The `IBuild` operations are `NewRow`, `InsertRow`, `DeleteRow` and
    `SetHeader`.
  - `Table::write` and `Row::write` produce sink traces.
  - `Builder` turns sink calls into a table. Every builder method is proved
    to be one step of the pure `BuildStep` machine. Lemmas about `Build`
    then give the table built from whole rows, including from a table's own
    written trace.
- **The case-insensitive order** (`nocase.h`, module `NoCase`).
  - `Less` is `lt_nocase_str`: lexicographic order on upper-cased bytes in
    the classic locale.
  - It is proved to be a strict weak order whose equivalence is equality
    of the upper-cased strings.

Where the description of the library and its code disagree, the model
follows the code:

- Unquoted cells keep their trailing spaces: held-back spaces are appended
  before the cell is emitted.
- There is no end-of-input flush. A final row without `\n` emits neither its
  pending cell nor `end_row` (`NoFinalFlush`).
- Inside quotes, spaces and newlines fall back to the `Echar` handler and
  are kept. So a cell holding a newline survives the round trip.
- A quote after a closing quote and spaces is the "char after endquote"
  error.
- An error transition returns before the state is assigned, so the state
  never becomes `ReadError`.
- `insertRow` inside the table inserts; it does not replace.

## Model

| member | source | states |
|---|---|---|
| CsvParser.Classify | csvparser.cpp:180-192 | each byte is exactly one event, by priority: quote char, then separator, then space, then newline, else other (so a tab is "other" unless it is the separator) |
| CsvParser.Step | csvparser.cpp:59-111 | a transition fails exactly on the error edges, and never yields ReadError. The error edges are: right after a closing quote, a byte other than quote char, separator, space or newline; after a closing quote and spaces, a quote char or any byte other than separator, newline or space; a quote char in or after an unquoted token |
| CsvParser.StepInv | csvparser.cpp:63-123 | every transition keeps the invariant: the buffer is empty in Start and ReadSkipPre, held bytes are spaces, and the sink has seen complete rows plus one open row exactly when not in Start |
| CsvParser.Add | csvparser.cpp:114 | `add` appends exactly one byte to the cell buffer, keeping what it held; state and sink calls are untouched |
| CsvParser.NextCell | csvparser.cpp:115-123 | `next_cell` makes exactly one `cell` call, absent iff there is no content and otherwise carrying the buffer, then clears the buffer |
| CsvParser.Emit | csvparser.cpp:63-111 | a `begin_row` or `end_row` in a transition is exactly one more sink call, with buffer and state untouched |
| CsvParser.Run | csvparser.cpp:180-206 | the loop stops within the input, and on success after all of it |
| CsvParser.RunCons | csvparser.cpp:180-206 | one iteration of the loop: the first byte either fails, stopping the call on it with nothing changed, or moves the machine on and the loop continues one byte further |
| CsvParser.RunAppend | csvparser.cpp:180-206 | running over a + b is running over a, then, unless that failed, over b |
| CsvParser.RunInv | csvparser.cpp:180-206 | every machine the loop reaches keeps the invariant |
| CsvParser.RunStops | csvparser.cpp:193-204 | on error the call stops on the offending byte, whose transition fails, with the machine as the bytes before it left it, so no cell is emitted for the partial field |
| CsvParser.Decode | csvparser.cpp:176-207 | a call stops within its input, and after all of it when no error occurs; it never ends in ReadError, and its sink calls are complete rows plus one open row exactly when it ends outside Start |
| CsvParser.DecodeFacts | csvparser.cpp:176-207 | a whole call ends in a valid machine whose sink trace is complete rows plus an open row iff it ends outside Start, and stops as described above |
| CsvParser.BackToStart | csvparser.cpp:63-109 | a successful run ends in Start only if its last byte is a newline |
| CsvParser.NoFinalFlush | csvparser.cpp:176-207 | input not ending in a newline either fails or leaves its last row open; the bytes after its last separator or newline make no sink call except the begin_row of a row they open, so no end_row is made and the pending cell is never emitted |
| CsvParser.QuietStep | csvparser.cpp:63-111 | a successful transition on a byte that is neither separator nor newline makes no sink call except begin_row from Start, and leaves Start |
| CsvParser.QuietRun | csvparser.cpp:176-207 | a run over bytes none of which is a separator or newline adds at most the begin_row of the row it opens, and no cell or end_row |
| CsvParser.LastBreak | csvparser.cpp:176-207 | the position just after the last separator or newline of the input, or 0 when it has none |
| CsvParser.RunOutIndependent | csvparser.cpp:59-123 | the sink calls made so far never influence a transition |
| CsvParser.StepOutIndependent | csvparser.cpp:59-111 | one transition appends the same sink calls whatever calls came before |
| CsvParser.ChunksOnRowBoundary | csvparser.cpp:176-179 | each call starts fresh; splitting input at a row boundary into two calls gives the same sink calls as one call |
| CsvParser.Terminate | csvparser.cpp:75-109 | a separator emits exactly the pending cell (absent for an empty field) and waits for the next field; a newline emits it and ends the row |
| CsvParser.StartAsSkipPre | csvparser.cpp:63-79 | in Start, a byte other than newline calls begin_row and then acts as in ReadSkipPre; a bare newline gives begin_row, end_row and no cell |
| CsvParser.QuotedLiteral | csvparser.cpp:81-85 | inside quotes every byte but the quote char (separator, space and newline included) is appended literally |
| CsvParser.DoubledQuote | csvparser.cpp:81-87 | a doubled quote char inside quotes appends exactly one quote char and stays quoted |
| CsvParser.ClosingQuote | csvparser.cpp:87-91 | a single quote char followed by separator or newline emits a present cell (even when empty); followed by a space it waits in ReadQuotedSkipPost; any other byte is an error at that byte |
| CsvParser.UnquotedByte | csvparser.cpp:99-109 | inside an unquoted token a byte other than quote char, separator and newline extends the token and calls nothing on the sink |
| CsvParser.UnquotedRun | csvparser.cpp:99-109 | in an unquoted token, plain bytes and spaces extend the token; held-back spaces are never lost |
| CsvParser.UnquotedToken | csvparser.cpp:79-109 | a token that starts with a non-space byte and holds no quote char, separator or newline is read whole as one pending unquoted field, with no sink call |
| CsvParser.UnquotedField | csvparser.cpp:75-109 | an unquoted field has its leading spaces skipped and is emitted from its first non-space byte up to the separator, trailing spaces included |
| CsvParser.SkipSpaces | csvparser.cpp:78 | spaces before a field are skipped without touching the buffer |
| CsvParser.Trans.constructor | csvparser.cpp:60 | the cell buffer starts empty and no sink call has been made |
| CsvParser.Trans.Add | csvparser.cpp:114 | appends one byte to the cell buffer |
| CsvParser.Trans.NextCell | csvparser.cpp:115-123 | hands the buffer, or NULL when there is no content, to the sink and clears the buffer |
| CsvParser.Trans.Emit | csvparser.cpp:63-111 | a begin_row or end_row call on the sink, leaving the buffer as it is |
| CsvParser.Trans.On | csvparser.cpp:59-111 | the imperative transition agrees with Step: same result, new state, buffer and sink calls; on failure nothing changes |
| CsvParser.Parser.constructor | csvparser.h:8-11 | quote char and separator default to '"' and ',' |
| CsvParser.Parser.Parse | csvparser.cpp:176-207 | the loop returns exactly Decode's error flag, stop position and sink calls |
| CsvWriter.Escape | csvwriter.h:40-53 | the quoted body is never shorter than the cell; QuotedBody shows the decoder undoes it |
| CsvWriter.EscapeAppend | csvwriter.h:42-51 | escaping works byte by byte: the escape of a concatenation is the concatenation of escapes |
| CsvWriter.EscapeNoQuote | csvwriter.h:42-51 | a cell without quote chars is written unchanged inside the quotes |
| CsvWriter.ChunkStep | csvwriter.h:42-51 | one iteration of the chunk loop keeps "written output plus the pending chunk is the escaped prefix" |
| CsvWriter.FieldTextShape | csvwriter.h:34-54 | a present cell is written verbatim, holding no quote char, separator or newline, exactly when smart mode is on and need_quote is false; otherwise it is written between two quote chars around a body at least as long as the cell |
| CsvWriter.RenderEndsRow | csvwriter.h:25-58 | the output of calls that end with end_row ends with a newline |
| CsvWriter.RenderCons | csvwriter.h:25-58 | the output for a call followed by others is that call's text, given `first`, then the output of the others from the `first` the call leaves |
| CsvWriter.RenderAppend | csvwriter.h:25-58 | the output for consecutive calls is the concatenation of each call's output, with `first` carried across |
| CsvWriter.Writer.constructor | csvwriter.h:13-17 | quote char, separator and smart_quote default to '"', ',' and false; `first` starts true |
| CsvWriter.Writer.BeginRow | csvwriter.h:25-27 | sets `first` and writes nothing: the begin_row step of Render |
| CsvWriter.Writer.Cell | csvwriter.h:28-55 | one separator before every cell but the first of a row, then nothing for an absent cell, the bytes verbatim in smart mode when need_quote is false, else quote, escaped body, quote; this is the cell step of Render, after which `first` is false |
| CsvWriter.Writer.OutputField | csvwriter.h:34-54 | the field text after the separator, as in Cell |
| CsvWriter.Writer.Output | csvwriter.h:72 | the output functor appends its chunk |
| CsvWriter.Writer.OutputEscaped | csvwriter.h:40-53 | the chunk loop writes every quote char twice and every other byte once, in order |
| CsvWriter.Writer.EndRow | csvwriter.h:56-58 | writes exactly one newline and leaves `first` alone: the end_row step of Render |
| CsvWriter.Writer.NeedQuote | csvwriter.h:60-69 | true iff the cell contains the quote char, the separator or a newline |
| RoundTrip.RenderCells | csvwriter.h:28-33 | every cell after the first of a row is preceded by exactly one separator |
| RoundTrip.RenderRow | csvwriter.h:25-58 | a row is written as its fields joined by the separator, then one newline |
| RoundTrip.RowBody | csvwriter.h:28-58 | the cells and end_row of a row with cells are written as the fields joined by the separator, then one newline, and leave `first` false |
| RoundTrip.RenderRows | csvwriter.h:25-58 | rows are written one after another |
| RoundTrip.QuotedBody | csvparser.cpp:81-87 | decoding the escaped body of a quoted field appends the original body |
| RoundTrip.FieldRun | csvparser.cpp:64-109 | decoding one written field leaves exactly that cell pending and emits nothing |
| RoundTrip.QuotedFieldRun | csvparser.cpp:74-87 | a field written between quote chars with its body escaped decodes to exactly that cell, left pending |
| RoundTrip.FieldEnds | csvparser.cpp:75-109 | a written field followed by a separator or newline is handed to the sink, and the newline ends the row |
| RoundTrip.LastField | csvparser.cpp:75-109 | the last field and the newline close the row |
| RoundTrip.InnerField | csvparser.cpp:75-109 | a field followed by a separator is emitted, leaving the decoder ready for the next field |
| RoundTrip.CellsRun | csvparser.cpp:75-109 | the written fields of a row decode to one cell per field, then end_row |
| RoundTrip.StartBegins | csvparser.cpp:64-68 | a row opens with begin_row on its first byte |
| RoundTrip.RowTextHead | csvwriter.h:28-55 | a written row other than an empty row or a single absent cell does not start with a newline |
| RoundTrip.EmptyRowRun | csvparser.cpp:66 | a row of no cells or of one absent cell is written as a bare newline and decodes as an empty row |
| RoundTrip.FullRowRun | csvparser.cpp:64-109 | any other written row decodes to the same cells |
| RoundTrip.RowRun | csvparser.cpp:64-109 | one written row decodes to itself, the single-absent-cell row as an empty row |
| RoundTrip.RowsRun | csvparser.cpp:176-206 | written rows decode to the same rows and end on a row boundary |
| RoundTrip.WriteThenParse | csvwriter.h:25-58 | decoding the writer's output with the same distinct quote char and separator (neither a newline) succeeds, consumes everything and gives back every row; in smart mode when the cells are Recoverable |
| RoundTrip.QuotedRoundTrip | csvwriter.h:13 | with the default smart_quote off, the round trip holds for all cells, including quotes, separators, spaces and newlines |
| RoundTrip.SmartQuoteLosses | csvwriter.h:37-38 | in smart mode an empty cell is written exactly like an absent one, and leading spaces of an unquoted cell are lost on decoding |
| NoCase.ToUpper | nocase.h:12-13 | classic-locale toupper changes exactly 'a'..'z', to 'A'..'Z' at the same offset |
| NoCase.Upper | nocase.h:12-13 | upper-cases byte by byte, same length |
| NoCase.LtChar | nocase.h:12-14 | the byte order compares upper-cased bytes: bytes equal up to case are never less, and an upper-case letter is less than a lower-case one iff its lower-case form is |
| NoCase.Less | nocase.h:21-25 | a string is less only than a non-empty string, and only when its first byte upper-cased is not above the other's |
| NoCase.ToUpperIdempotent | nocase.h:12-13 | upper-casing twice is upper-casing once |
| NoCase.LessUpper | nocase.h:21-25 | the order depends only on the upper-cased strings |
| NoCase.LessFromDecided | nocase.h:21-25 | a first differing position in favour of x makes x less |
| NoCase.DecidedFromLess | nocase.h:21-25 | if x is less, some position decides it |
| NoCase.LessWitness | nocase.h:21-25 | x is less iff, at the first position where the upper-cased bytes differ, x's is smaller, or x is a proper prefix up to case |
| NoCase.LessIrreflexive | nocase.h:21-25 | no string is less than itself |
| NoCase.LessTransitive | nocase.h:21-25 | less is transitive |
| NoCase.SameNameUpper | nocase.h:21-25 | two names are equivalent (neither less) iff they are equal up to ASCII letter case |
| NoCase.PrefixLess | nocase.h:21-25 | a proper case-insensitive prefix is less than the longer string |
| SimpleCsv.LastKey | simplecsv.cpp:79 | the map's last key is its largest |
| SimpleCsv.MaxExists | simplecsv.cpp:79 | a non-empty set of column indices has a largest one |
| SimpleCsv.Width | simplecsv.cpp:76-84 | size() is 0 for an empty row, else one past the largest stored column, which is stored |
| SimpleCsv.Lookup | simplecsv.cpp:62-73 | operator[](int) gives the stored text exactly for a stored non-negative index, else the empty sentinel |
| SimpleCsv.CellsOf | simplecsv.cpp:108-122 | the cells a row writes: exactly size() of them, absent at the gaps, the last one present |
| SimpleCsv.SetColumns | simplecsv.cpp:86-93 | set stores the index; other columns unchanged; an existing value is not overwritten; `del` leaves "" |
| SimpleCsv.SetIntended | simplecsv.cpp:86-93 | set with `del` removing the column, otherwise as coded |
| SimpleCsv.SetDelKeepsColumn | simplecsv.cpp:88-92 | `del` on a stored column keeps it, holding "", while the intended version removes it |
| SimpleCsv.FindColumn | simplecsv.cpp:165-172 | -1 iff no column name matches case-insensitively; otherwise the index of a matching name, the first one |
| SimpleCsv.FindColumnUpper | simplecsv.cpp:165-172 | matching is equality of the upper-cased names |
| SimpleCsv.LookupName | simplecsv.cpp:53-60 | lookup by key gives the empty sentinel when no name matches, and otherwise the cell of the first matching column |
| SimpleCsv.Present | simplecsv.cpp:258-261 | every header name is written as a present cell |
| SimpleCsv.TableCells | simplecsv.cpp:265-268 | the rows' cells in index order |
| SimpleCsv.HeaderAsCoded | simplecsv.cpp:255-263 | the header row as coded has as many cells as the table has rows |
| SimpleCsv.HeaderTruncated | simplecsv.cpp:257-261 | with two names and one row the coded header drops the second name |
| SimpleCsv.RowsTraceSnoc | simplecsv.cpp:265-268 | writing one more row appends its trace |
| SimpleCsv.RowsTracePrefix | simplecsv.cpp:265-268 | the loop over rows: writing the first i + 1 rows is writing the first i, then row i |
| SimpleCsv.CellEventsSnoc | simplecsv.cpp:112-120 | writing one more cell appends its call |
| SimpleCsv.BuildStep | simplecsv.cpp:284-314 | a builder call fails exactly when a data cell arrives with no row begun (the assert), and keeps the builder well formed |
| SimpleCsv.Build | simplecsv.cpp:284-314 | a sequence of builder calls keeps it well formed |
| SimpleCsv.BuildAppend | simplecsv.cpp:284-314 | building from a + b is building from a, then from b |
| SimpleCsv.Fill | simplecsv.cpp:295-304 | a built row stores every cell at 0, 1, 2, ..., an absent one as "" |
| SimpleCsv.FillSnoc | simplecsv.cpp:303 | set(cidx++, text) extends the filled row by one column |
| SimpleCsv.BuildOne | simplecsv.cpp:284-314 | building from one call is one step |
| SimpleCsv.BuildCells | simplecsv.cpp:295-304 | data cells are stored at 0, 1, 2, ... in call order |
| SimpleCsv.StoreNext | simplecsv.cpp:302-303 | the next cell of a data row is stored at the next column, completing the filled row |
| SimpleCsv.BuildDataRow | simplecsv.cpp:284-304 | a data row appends one table row holding its cells |
| SimpleCsv.BuildHeaderCells | simplecsv.cpp:297-300 | in header mode cells are collected, absent ones as "" |
| SimpleCsv.Texts | simplecsv.cpp:297-303 | the text stored for each cell, in order, "" for an absent one |
| SimpleCsv.TextsSnoc | simplecsv.cpp:297-300 | one more header cell appends its text |
| SimpleCsv.BuildHeaderRow | simplecsv.cpp:284-314 | the first row in header mode becomes the column names, header mode ends and no data row is created |
| SimpleCsv.FillAll | simplecsv.cpp:284-304 | the rows built from data rows, in order |
| SimpleCsv.FillAllCons | simplecsv.cpp:284-304 | the first data row becomes the first built row, followed by the rows built from the rest |
| SimpleCsv.BuildDataRows | simplecsv.cpp:284-314 | data rows each become one table row, in order |
| SimpleCsv.BuildTable | simplecsv.cpp:275-314 | a fresh builder fed whole rows makes one table row per row, or with first_is_header takes the first row as the names |
| SimpleCsv.CellsOfFill | simplecsv.cpp:108-122 | a built row writes its cells back, absent ones as present and empty |
| SimpleCsv.WriteThenBuild | simplecsv.cpp:253-314 | building from a table's written trace with its header gives back its names and, per row, its columns with the gaps as "" |
| SimpleCsv.DenseRowRoundTrip | simplecsv.cpp:108-122 | a row without gaps comes back unchanged |
| SimpleCsv.ColumnsOf | simplecsv.h:94 | the rows' columns, in order |
| SimpleCsv.Empties | simplecsv.cpp:212-214 | the columns of n fresh rows |
| SimpleCsv.Row.constructor | simplecsv.cpp:40-43 | a new row has its index and no columns |
| SimpleCsv.Row.Set | simplecsv.cpp:86-93 | the row's columns become SetColumns of the old ones; its index is unchanged |
| SimpleCsv.Row.Write | simplecsv.cpp:108-122 | begin_row, exactly size() cells (absent at the gaps), end_row |
| SimpleCsv.Table.constructor | simplecsv.h:66 | an empty table is valid |
| SimpleCsv.Table.At | simplecsv.cpp:136-142 | the row at an index inside the table, else the empty-row sentinel |
| SimpleCsv.Table.NewRow | simplecsv.cpp:177-181 | appends one fresh empty row with index equal to the old row count; the index invariant holds |
| SimpleCsv.Table.InsertRow | simplecsv.cpp:184-217 | negative index: invalid_argument and no change; inside: a fresh empty row inserted there, later rows shifted; beyond: empty rows appended up to the index, the last returned; the index invariant holds |
| SimpleCsv.Table.InsertInside | simplecsv.cpp:189-209 | inserts a fresh empty row at the index and renumbers the rest |
| SimpleCsv.Table.Renumber | simplecsv.cpp:204-208 | the fix-up loop restores rows[i].ridx == i without touching any row's columns |
| SimpleCsv.Table.AppendUpTo | simplecsv.cpp:210-216 | appends fresh empty rows until the index is the last one |
| SimpleCsv.Table.DeleteRow | simplecsv.cpp:220-235 | out of range: no change; otherwise that row is removed, later rows shifted down, size drops by one; the index invariant holds |
| SimpleCsv.Table.SetHeader | simplecsv.cpp:239-250 | the column names become the given names, in order; rows unchanged |
| SimpleCsv.TableTrace | simplecsv.cpp:253-269 | the trace `Table::write` makes is well formed: complete rows, none left open |
| SimpleCsv.Table.Write | simplecsv.cpp:253-269 | the optional header row with every name, then every row's trace in index order |
| SimpleCsv.Table.WriteHeader | simplecsv.cpp:255-263 | begin_row, one present cell per column name, end_row |
| SimpleCsv.Table.WriteRows | simplecsv.cpp:265-268 | every row's trace, in index order |
| SimpleCsv.Builder.constructor | simplecsv.cpp:275-281 | no row, cidx -1, header mode as asked |
| SimpleCsv.Builder.BeginRow | simplecsv.cpp:284-292 | one BuildStep on begin_row: in data mode a new row is appended and cidx reset |
| SimpleCsv.Builder.Cell | simplecsv.cpp:295-304 | one BuildStep on cell |
| SimpleCsv.Builder.StoreCell | simplecsv.cpp:302-303 | stores the text at cidx in the last row, then increments cidx; no other row changes |
| SimpleCsv.Builder.EndRow | simplecsv.cpp:307-314 | one BuildStep on end_row: a header row becomes the column names and header mode ends |

## Left out

- Input and output: `tst_csv.cpp`, every `dump()`, the `printf` in `Row::operator[](const char *)`, and the `Output` functor's effect, which is modelled as appending to a string.
- The `std::string` overload of `csvparser::operator()` is not modelled separately; it is `Decode` on the string's bytes.
- The `errmsg` diagnostic (csvparser.cpp:199), which is not declared in csvparser.h. An error transition never stores `ReadError`, so only the boolean result and the stop position are modelled.
- `Value::asInt` (it calls `atoi`) and `Value::asCString`, which are foreign library calls; a cell is its text.
- Heap management: `new`/`delete`, destructors, the `Value` leaked when `set` hits an existing key, and the back references to parent row and table. The pointer-identity sentinels `empty_row`, `empty_value` and `del` become `Option` and `SetArg`.
- The multimap `rev_column` is not a separate structure. `FindColumn` searches `columnNames` for the first equivalent name. For duplicate names the C++ standard lets `multimap::find` return any equivalent element; libstdc++ and libc++ implement it as a `lower_bound`, which returns the first one inserted, i.e. the lowest index.
- Exceptions other than `invalid_argument` (allocation failure in `insertRow`) are not modelled.
- Locales other than the classic one, and the signedness of `char`: bytes are compared by code point, which matches unsigned bytes and the ASCII range.
- `std::string(NULL, 0)` in `builder::cell` is taken to be the empty string.
- SimpleCsv.Row.Set: the index is a natural number. A negative `int` index, which the source converts to a large `unsigned` key, is not modelled.
- SimpleCsv.Table.Write: it writes the header row with every column name, the evidently intended behaviour (see Findings). The code as written is `HeaderAsCoded`, which requires no more rows than names, since past that point the code reads beyond `columnnames`.
- SimpleCsv.Table.WriteHeader: it writes one header cell per column name, the evidently intended behaviour; the loop as coded runs `size()` (row count) times, which `HeaderAsCoded` models (see Findings).
- SimpleCsv.Builder.Cell: it requires a row to be begun in data mode, as the source's `assert(row)` does. The pure `BuildStep` models that case as a failure (`None`).

## Findings

| source | as written | input that shows it | evidently intended | confidence | as-written member | corrected member |
|---|---|---|---|---|---|---|
| simplecsv.cpp:257-261 | the header loop of `Table::write(out, true)` runs `size()` times, the number of rows, not the number of column names | names ["a","b"] and one row: the header row holds only "a"; with more rows than names it reads past `columnnames` | one header cell per column name | high (not executed) | SimpleCsv.HeaderAsCoded, SimpleCsv.HeaderTruncated | SimpleCsv.Table.WriteHeader, SimpleCsv.Table.Write, SimpleCsv.WriteThenBuild |
| simplecsv.cpp:88-92 | `set(cidx, del)` erases the column and then, like any call, inserts a Value holding the sentinel's text "" | a row {0: "x"}, then set(0, del): column 0 still exists, holds "", size() stays 1 and write emits a present empty cell | the column is removed | medium (not executed) | SimpleCsv.SetColumns, SimpleCsv.SetDelKeepsColumn | SimpleCsv.SetIntended |
