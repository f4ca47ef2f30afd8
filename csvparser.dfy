// The streaming CSV decoder of csvparser.cpp: byte classification, the
// csvFSM state machine (the Trans::on overloads) and the driver loop of
// csvparser::operator().
module CsvParser {
  import opened CsvBase

  /** The csvFSM states (csvparser.cpp:18-39). `ReadUnquotedWhitespace`
      carries the spaces it holds back; `ReadError` carries its diagnostic. */
  datatype State =
    | Start
    | ReadSkipPre
    | ReadQuoted
    | ReadQuotedCheckEscape
    | ReadQuotedSkipPost
    | ReadUnquoted
    | ReadUnquotedWhitespace(held: string)
    | ReadError(reason: string)

  /** The events; each carries the byte it was made from. In the source the
      four special events derive from `Echar`, which is the fallback overload. */
  datatype Ev =
    | Eqchar(value: char)
    | Esep(value: char)
    | Ewhitespace(value: char)
    | Enewline(value: char)
    | Echar(value: char)

  /** Classification of one input byte, in the priority order of the driver
      loop: quote char, then separator, then space, then newline, else other. */
  function Classify(qchar: char, sep: char, c: char): (e: Ev)
    ensures e.value == c
    ensures e.Eqchar? <==> c == qchar
    ensures e.Esep? <==> c == sep && c != qchar
    ensures e.Ewhitespace? <==> c == ' ' && c != qchar && c != sep
    ensures e.Enewline? <==> c == '\n' && c != qchar && c != sep
    ensures e.Echar? <==> c != qchar && c != sep && c != ' ' && c != '\n'
  {
    if c == qchar then Eqchar(c)
    else if c == sep then Esep(c)
    else if c == ' ' then Ewhitespace(c)
    else if c == '\n' then Enewline(c)
    else Echar(c)
  }

  /** Everything a transition reads or writes: the state variant `self`, the
      `cell` buffer of Trans, and the calls made so far on the sink. */
  datatype Machine = Machine(state: State, cell: string, out: seq<SinkEvent>)

  /** `add`: append one byte to the cell buffer. */
  function Add(m: Machine, b: char): (r: Machine)
    ensures r.state == m.state && r.out == m.out
    ensures |r.cell| == |m.cell| + 1 && r.cell[..|m.cell|] == m.cell && r.cell[|m.cell|] == b
  {
    m.(cell := m.cell + [b])
  }

  /** `next_cell(has_content)`: hand the buffer (or NULL) to the sink, then clear it. */
  function NextCell(m: Machine, hasContent: bool): (r: Machine)
    ensures r.state == m.state && r.cell == []
    ensures |r.out| == |m.out| + 1 && r.out[..|m.out|] == m.out && r.out[|m.out|].Cell?
    ensures r.out[|m.out|].data.Some? <==> hasContent
    ensures hasContent ==> r.out[|m.out|].data.value == m.cell
  {
    Machine(m.state, [], m.out + [Cell(if hasContent then Some(m.cell) else None)])
  }

  /** A call on the sink other than `cell`. */
  function Emit(m: Machine, e: SinkEvent): (r: Machine)
    ensures r.state == m.state && r.cell == m.cell
    ensures |r.out| == |m.out| + 1 && r.out[..|m.out|] == m.out && r.out[|m.out|] == e
  {
    m.(out := m.out + [e])
  }

  function Goto(m: Machine, s: State): Option<Machine> {
    Some(m.(state := s))
  }

  /** The state/event pairs whose transition fails: the four error edges of
      the table plus the sticky ReadError state. In each of them a more
      specific overload is missing and the fallback `Echar` one returns false. */
  predicate IsError(s: State, e: Ev) {
    match s
    case ReadQuotedCheckEscape => e.Echar?
    case ReadQuotedSkipPost => e.Eqchar? || e.Echar?
    case ReadUnquoted => e.Eqchar?
    case ReadUnquotedWhitespace(_) => e.Eqchar?
    case ReadError(_) => true
    case _ => false
  }

  /** One transition, `Trans::on` chosen by overload resolution: `None` when
      the transition returns false. An error transition returns before
      `self=Snew` runs, so the machine is then left exactly as it was. Where a
      state has no overload for an event, the `Echar` one is taken. */
  function Step(m: Machine, e: Ev): (r: Option<Machine>)
    ensures r.None? <==> IsError(m.state, e)
    ensures r.Some? ==> !r.value.state.ReadError?
  {
    match m.state
    case Start =>
      (match e
       case Eqchar(_) => Goto(Emit(m, BeginRow), ReadQuoted)
       case Esep(_) => Goto(NextCell(Emit(m, BeginRow), false), ReadSkipPre)
       case Enewline(_) => Goto(Emit(Emit(m, BeginRow), EndRow), Start)
       case Ewhitespace(_) => Goto(Emit(m, BeginRow), ReadSkipPre)
       case Echar(b) => Goto(Add(Emit(m, BeginRow), b), ReadUnquoted))
    case ReadSkipPre =>
      (match e
       case Eqchar(_) => Goto(m, ReadQuoted)
       case Esep(_) => Goto(NextCell(m, false), ReadSkipPre)
       case Enewline(_) => Goto(Emit(NextCell(m, false), EndRow), Start)
       case Ewhitespace(_) => Goto(m, ReadSkipPre)
       case Echar(b) => Goto(Add(m, b), ReadUnquoted))
    case ReadQuoted =>
      (match e
       case Eqchar(_) => Goto(m, ReadQuotedCheckEscape)
       // Esep has its own overload; newline and space fall back to Echar,
       // which appends the same way.
       case _ => Goto(Add(m, e.value), ReadQuoted))
    case ReadQuotedCheckEscape =>
      (match e
       case Eqchar(b) => Goto(Add(m, b), ReadQuoted)
       case Esep(_) => Goto(NextCell(m, true), ReadSkipPre)
       case Enewline(_) => Goto(Emit(NextCell(m, true), EndRow), Start)
       case Ewhitespace(_) => Goto(m, ReadQuotedSkipPost)
       case Echar(_) => None)   // "char after possible endquote"
    case ReadQuotedSkipPost =>
      (match e
       case Esep(_) => Goto(NextCell(m, true), ReadSkipPre)
       case Enewline(_) => Goto(Emit(NextCell(m, true), EndRow), Start)
       case Ewhitespace(_) => Goto(m, ReadQuotedSkipPost)
       case _ => None)          // "char after endquote", also for a quote
    case ReadUnquoted =>
      (match e
       case Eqchar(_) => None   // "unexpected quote in unquoted string"
       case Esep(_) => Goto(NextCell(m, true), ReadSkipPre)
       case Enewline(_) => Goto(Emit(NextCell(m, true), EndRow), Start)
       case Ewhitespace(b) => Goto(m, ReadUnquotedWhitespace([b]))
       case Echar(b) => Goto(Add(m, b), ReadUnquoted))
    case ReadUnquotedWhitespace(held) =>
      (match e
       case Eqchar(_) => None   // "unexpected quote after unquoted string"
       case Esep(_) => Goto(NextCell(m.(cell := m.cell + held), true), ReadSkipPre)
       case Enewline(_) => Goto(Emit(NextCell(m.(cell := m.cell + held), true), EndRow), Start)
       case Ewhitespace(b) => Goto(m, ReadUnquotedWhitespace(held + [b]))
       case Echar(b) => Goto(Add(m.(cell := m.cell + held), b), ReadUnquoted))
    case ReadError(_) => None
  }

  /** What every machine reachable from a fresh call satisfies: it is never in
      ReadError; the cell buffer is empty in Start and ReadSkipPre; an
      unquoted token is never empty; held-back bytes are spaces; and the sink
      has seen complete rows, plus one open row exactly when not in Start. */
  ghost predicate Inv(m: Machine) {
    && !m.state.ReadError?
    && (m.state.Start? || m.state.ReadSkipPre? ==> m.cell == [])
    && (m.state.ReadUnquoted? || m.state.ReadUnquotedWhitespace? ==> m.cell != [])
    && (m.state.ReadUnquotedWhitespace? ==>
          m.state.held != [] && forall i :: 0 <= i < |m.state.held| ==> m.state.held[i] == ' ')
    && Shape(m.out) == Some(!m.state.Start?)
  }

  lemma StepInv(qchar: char, sep: char, m: Machine, c: char)
    requires Inv(m)
    requires Step(m, Classify(qchar, sep, c)).Some?
    ensures Inv(Step(m, Classify(qchar, sep, c)).value)
  {
    var o := m.out;
    var e := Classify(qchar, sep, c);
    match m.state
    case Start =>
      ShapeSnoc(o, BeginRow);
      ShapeSnoc(o + [BeginRow], EndRow);
      ShapeSnoc(o + [BeginRow], Cell(None));
    case ReadSkipPre =>
      ShapeSnoc(o, Cell(None));
      ShapeSnoc(o + [Cell(None)], EndRow);
    case ReadQuoted =>
    case ReadQuotedCheckEscape =>
      ShapeSnoc(o, Cell(Some(m.cell)));
      ShapeSnoc(o + [Cell(Some(m.cell))], EndRow);
    case ReadQuotedSkipPost =>
      ShapeSnoc(o, Cell(Some(m.cell)));
      ShapeSnoc(o + [Cell(Some(m.cell))], EndRow);
    case ReadUnquoted =>
      ShapeSnoc(o, Cell(Some(m.cell)));
      ShapeSnoc(o + [Cell(Some(m.cell))], EndRow);
    case ReadUnquotedWhitespace(held) =>
      ShapeSnoc(o, Cell(Some(m.cell + held)));
      ShapeSnoc(o + [Cell(Some(m.cell + held))], EndRow);
      if e.Ewhitespace? {
        var h := held + [c];
        assert forall i :: 0 <= i < |h| ==> h[i] == ' ';
      }
    case ReadError(_) =>
  }

  /** Result of a call: the machine when it stopped, whether it stopped on an
      error (the `true` that operator() returns), and how many bytes `buf`
      was advanced. */
  datatype Outcome = Outcome(m: Machine, err: bool, stop: nat)

  function Shift(r: Outcome, k: nat): Outcome {
    r.(stop := r.stop + k)
  }

  /** The driver loop from machine `m` over `input`. */
  function Run(qchar: char, sep: char, m: Machine, input: string): (r: Outcome)
    ensures r.stop <= |input|
    ensures !r.err ==> r.stop == |input|
    decreases |input|
  {
    if input == [] then Outcome(m, false, 0)
    else
      match Step(m, Classify(qchar, sep, input[0]))
      case None => Outcome(m, true, 0)
      case Some(m') => Shift(Run(qchar, sep, m', input[1..]), 1)
  }

  /** One call of csvparser::operator(): state and buffer are fresh locals.
      The call stops within its input, after all of it on success; its state
      is never ReadError, and the sink has seen complete rows, plus one open
      row exactly when the call ends outside Start. */
  function Decode(qchar: char, sep: char, input: string): (r: Outcome)
    ensures r.stop <= |input| && (!r.err ==> r.stop == |input|)
    ensures !r.m.state.ReadError? && Shape(r.m.out) == Some(!r.m.state.Start?)
  {
    RunInv(qchar, sep, Machine(Start, [], []), input);
    Run(qchar, sep, Machine(Start, [], []), input)
  }

  lemma RunCons(qchar: char, sep: char, m: Machine, c: char, rest: string)
    ensures Run(qchar, sep, m, [c] + rest) ==
      match Step(m, Classify(qchar, sep, c))
      case None => Outcome(m, true, 0)
      case Some(m') => Shift(Run(qchar, sep, m', rest), 1)
  {
    assert ([c] + rest)[0] == c;
    assert ([c] + rest)[1..] == rest;
  }

  /** Running over `a + b` runs over `a` and then, unless that failed, over `b`. */
  lemma {:induction false} RunAppend(qchar: char, sep: char, m: Machine, a: string, b: string)
    ensures var ra := Run(qchar, sep, m, a);
      Run(qchar, sep, m, a + b) == if ra.err then ra else Shift(Run(qchar, sep, ra.m, b), |a|)
    decreases |a|
  {
    if a == [] {
      assert a + b == b;
    } else {
      assert a + b == [a[0]] + (a[1..] + b);
      assert a == [a[0]] + a[1..];
      RunCons(qchar, sep, m, a[0], a[1..] + b);
      RunCons(qchar, sep, m, a[0], a[1..]);
      match Step(m, Classify(qchar, sep, a[0]))
      case None =>
      case Some(m') =>
        RunAppend(qchar, sep, m', a[1..], b);
    }
  }

  /** Every machine the loop reaches from a valid one is valid. */
  lemma {:induction false} RunInv(qchar: char, sep: char, m: Machine, input: string)
    requires Inv(m)
    ensures Inv(Run(qchar, sep, m, input).m)
    decreases |input|
  {
    if input != [] {
      match Step(m, Classify(qchar, sep, input[0]))
      case None =>
      case Some(m') =>
        StepInv(qchar, sep, m, input[0]);
        RunInv(qchar, sep, m', input[1..]);
    }
  }

  /** Where a call stops: on success after the whole input; on error at the
      offending byte, whose transition fails, with the machine (state, buffer
      and sink calls) exactly as the bytes before it left it. In particular
      the state never becomes ReadError and no cell is emitted for the
      partial field. */
  lemma {:induction false} RunStops(qchar: char, sep: char, m: Machine, input: string)
    ensures var r := Run(qchar, sep, m, input);
      && Run(qchar, sep, m, input[..r.stop]) == Outcome(r.m, false, r.stop)
      && (r.err ==> r.stop < |input| && IsError(r.m.state, Classify(qchar, sep, input[r.stop])))
    decreases |input|
  {
    var r := Run(qchar, sep, m, input);
    if input == [] {
    } else {
      assert input == [input[0]] + input[1..];
      match Step(m, Classify(qchar, sep, input[0]))
      case None =>
        assert input[..r.stop] == [];
      case Some(m') =>
        RunStops(qchar, sep, m', input[1..]);
        var r' := Run(qchar, sep, m', input[1..]);
        assert input[..r.stop] == [input[0]] + input[1..][..r'.stop];
        RunCons(qchar, sep, m, input[0], input[1..][..r'.stop]);
    }
  }

  /** What a whole call guarantees: a valid final machine (hence never
      ReadError, and a sink trace of complete rows plus one unfinished row
      exactly when the call ends outside Start: there is no end-of-input
      flush), and the stop position described by RunStops. */
  lemma DecodeFacts(qchar: char, sep: char, input: string)
    ensures var r := Decode(qchar, sep, input);
      && Inv(r.m)
      && Shape(r.m.out) == Some(!r.m.state.Start?)
      && (!r.err ==> r.stop == |input|)
      && (r.err ==> r.stop < |input| && IsError(r.m.state, Classify(qchar, sep, input[r.stop])))
      && Decode(qchar, sep, input[..r.stop]) == Outcome(r.m, false, r.stop)
  {
    RunInv(qchar, sep, Machine(Start, [], []), input);
    RunStops(qchar, sep, Machine(Start, [], []), input);
  }

  /** Only a newline brings the machine back to Start. */
  lemma {:induction false} BackToStart(qchar: char, sep: char, m: Machine, input: string)
    requires input != []
    requires var r := Run(qchar, sep, m, input); !r.err && r.m.state == Start
    ensures Classify(qchar, sep, input[|input| - 1]).Enewline?
    decreases |input|
  {
    match Step(m, Classify(qchar, sep, input[0]))
    case None =>
    case Some(m') =>
      if |input| > 1 {
        BackToStart(qchar, sep, m', input[1..]);
        assert input[1..][|input| - 2] == input[|input| - 1];
      }
  }

  /** No end-of-input flush: a call whose input does not end with a newline
      either fails or leaves its last row open, with `end_row` not called and
      the pending field not handed to the sink. The bytes after the last
      separator or newline make no sink call except the begin_row of a row
      they open. */
  lemma NoFinalFlush(qchar: char, sep: char, input: string)
    requires input != [] && !Classify(qchar, sep, input[|input| - 1]).Enewline?
    ensures var r := Decode(qchar, sep, input);
      r.err || (!r.m.state.Start? && Shape(r.m.out) == Some(true))
    ensures var r := Decode(qchar, sep, input);
      var p := Decode(qchar, sep, input[..LastBreak(qchar, sep, input)]);
      !r.err ==> !p.err && r.m.out == p.m.out + (if p.m.state.Start? then [BeginRow] else [])
  {
    DecodeFacts(qchar, sep, input);
    var m0 := Machine(Start, [], []);
    var r := Decode(qchar, sep, input);
    if !r.err && r.m.state.Start? {
      BackToStart(qchar, sep, m0, input);
    }
    var k := LastBreak(qchar, sep, input);
    var a, b := input[..k], input[k..];
    assert input == a + b;
    RunAppend(qchar, sep, m0, a, b);
    var p := Decode(qchar, sep, a);
    if !r.err {
      QuietRun(qchar, sep, p.m, b);
    }
  }

  /** No byte of `t` is a separator or a newline event. */
  predicate Quiet(qchar: char, sep: char, t: string) {
    forall i :: 0 <= i < |t| ==> !Classify(qchar, sep, t[i]).Esep? && !Classify(qchar, sep, t[i]).Enewline?
  }

  /** One past the last byte of `s` that is a separator or newline event;
      0 when there is none. */
  function LastBreak(qchar: char, sep: char, s: string): (k: nat)
    ensures k <= |s| && Quiet(qchar, sep, s[k..])
    ensures k > 0 ==> Classify(qchar, sep, s[k - 1]).Esep? || Classify(qchar, sep, s[k - 1]).Enewline?
    decreases |s|
  {
    if s == [] then 0
    else if Classify(qchar, sep, s[|s| - 1]).Esep? || Classify(qchar, sep, s[|s| - 1]).Enewline? then |s|
    else
      var k := LastBreak(qchar, sep, s[..|s| - 1]);
      assert s[k..] == s[..|s| - 1][k..] + [s[|s| - 1]];
      k
  }

  /** A byte that is neither a separator nor a newline event hands nothing to
      the sink: it at most opens a row, only from Start, and never returns
      to Start. */
  lemma QuietStep(qchar: char, sep: char, m: Machine, c: char)
    requires !Classify(qchar, sep, c).Esep? && !Classify(qchar, sep, c).Enewline?
    requires Step(m, Classify(qchar, sep, c)).Some?
    ensures var n := Step(m, Classify(qchar, sep, c)).value;
      n.out == m.out + (if m.state.Start? then [BeginRow] else []) && !n.state.Start?
  {
    assert m.out + [] == m.out;
  }

  lemma {:induction false} QuietRun(qchar: char, sep: char, m: Machine, t: string)
    requires Quiet(qchar, sep, t)
    ensures var r := Run(qchar, sep, m, t);
      && r.m.out == m.out + (if m.state.Start? && !r.m.state.Start? then [BeginRow] else [])
      && (!m.state.Start? ==> !r.m.state.Start?)
      && (!r.err && t != [] ==> !r.m.state.Start?)
    decreases |t|
  {
    assert m.out + [] == m.out;
    if t != [] {
      match Step(m, Classify(qchar, sep, t[0]))
      case None =>
      case Some(n) =>
        QuietStep(qchar, sep, m, t[0]);
        assert Quiet(qchar, sep, t[1..]) by {
          forall i | 0 <= i < |t[1..]| ensures t[1..][i] == t[i + 1] { }
        }
        QuietRun(qchar, sep, n, t[1..]);
        assert n.out + [] == n.out;
    }
  }

  /** The sink calls made so far never influence a transition. */
  lemma {:induction false} RunOutIndependent(qchar: char, sep: char, s: State, c: string, o1: seq<SinkEvent>, o2: seq<SinkEvent>, input: string)
    ensures var r := Run(qchar, sep, Machine(s, c, o2), input);
      Run(qchar, sep, Machine(s, c, o1 + o2), input) == r.(m := r.m.(out := o1 + r.m.out))
    decreases |input|
  {
    if input != [] {
      var e := Classify(qchar, sep, input[0]);
      StepOutIndependent(s, c, o1, o2, e);
      match Step(Machine(s, c, o2), e)
      case None =>
      case Some(n2) =>
        RunOutIndependent(qchar, sep, n2.state, n2.cell, o1, n2.out, input[1..]);
    }
  }

  /** The same for one transition. */
  lemma StepOutIndependent(s: State, c: string, o1: seq<SinkEvent>, o2: seq<SinkEvent>, e: Ev)
    ensures var r := Step(Machine(s, c, o2), e);
      Step(Machine(s, c, o1 + o2), e) == if r.None? then None else Some(r.value.(out := o1 + r.value.out))
  {
    // each transition appends the same calls to both traces
    assert forall x: seq<SinkEvent>, y: SinkEvent :: (o1 + x) + [y] == o1 + (x + [y]);
  }

  /** Calls are independent: each starts in Start with an empty buffer. When
      a chunk ends on a row boundary (the call finishes in Start), decoding
      the chunk and then the rest in a second call gives the same sink calls
      as decoding both at once. */
  lemma ChunksOnRowBoundary(qchar: char, sep: char, a: string, b: string)
    requires var ra := Decode(qchar, sep, a); !ra.err && ra.m.state == Start
    ensures var ra := Decode(qchar, sep, a);
      var rb := Decode(qchar, sep, b);
      var r := Decode(qchar, sep, a + b);
      r.err == rb.err && r.stop == |a| + rb.stop && r.m.out == ra.m.out + rb.m.out
  {
    var ra := Decode(qchar, sep, a);
    RunAppend(qchar, sep, Machine(Start, [], []), a, b);
    RunInv(qchar, sep, Machine(Start, [], []), a);
    assert ra.m == Machine(Start, [], ra.m.out);
    RunOutIndependent(qchar, sep, Start, [], ra.m.out, [], b);
    assert ra.m.out + [] == ra.m.out;
  }

  // ---------------------------------------------------------------------
  // Field-level behaviour of the machine.

  /** The cell that a separator or newline would emit now, if any. */
  function Pending(m: Machine): Option<Option<string>> {
    match m.state
    case ReadSkipPre => Some(None)
    case ReadQuotedCheckEscape => Some(Some(m.cell))
    case ReadQuotedSkipPost => Some(Some(m.cell))
    case ReadUnquoted => Some(Some(m.cell))
    case ReadUnquotedWhitespace(held) => Some(Some(m.cell + held))
    case _ => None
  }

  /** A separator after a field emits exactly its pending cell and waits for
      the next field; a newline emits it and ends the row. A separator or
      newline with no field content emits the absent cell. */
  lemma Terminate(m: Machine, b: char)
    requires Pending(m).Some?
    ensures Step(m, Esep(b)) == Some(Machine(ReadSkipPre, [], m.out + [Cell(Pending(m).value)]))
    ensures Step(m, Enewline(b)) == Some(Machine(Start, [], m.out + [Cell(Pending(m).value), EndRow]))
  {
    assert m.out + [Cell(Pending(m).value)] + [EndRow] == m.out + [Cell(Pending(m).value), EndRow];
  }

  /** In Start, every event but a newline behaves as `begin_row` followed by
      the same event in ReadSkipPre; a newline gives `begin_row`, `end_row`
      and no cell at all. */
  lemma StartAsSkipPre(m: Machine, e: Ev)
    requires m.state == Start && m.cell == []
    ensures !e.Enewline? ==> Step(m, e) == Step(Machine(ReadSkipPre, [], m.out + [BeginRow]), e)
    ensures e.Enewline? ==> Step(m, e) == Some(Machine(Start, [], m.out + [BeginRow, EndRow]))
  {
    assert m.out + [BeginRow] + [EndRow] == m.out + [BeginRow, EndRow];
  }

  /** Inside a quoted field every byte except the quote char, including the
      separator, spaces and newlines, is appended literally. */
  lemma {:induction false} QuotedLiteral(qchar: char, sep: char, m: Machine, w: string)
    requires m.state == ReadQuoted
    requires forall i :: 0 <= i < |w| ==> w[i] != qchar
    ensures Run(qchar, sep, m, w) == Outcome(m.(cell := m.cell + w), false, |w|)
    decreases |w|
  {
    if w != [] {
      assert w == [w[0]] + w[1..];
      RunCons(qchar, sep, m, w[0], w[1..]);
      QuotedLiteral(qchar, sep, Add(m, w[0]), w[1..]);
      assert m.cell + [w[0]] + w[1..] == m.cell + w;
    }
  }

  /** A doubled quote char inside a quoted field appends one quote char and
      stays inside the field (rule 7 of section 2 of RFC 4180). */
  lemma DoubledQuote(qchar: char, sep: char, m: Machine)
    requires m.state == ReadQuoted
    ensures Run(qchar, sep, m, [qchar, qchar]) == Outcome(m.(cell := m.cell + [qchar]), false, 2)
  {
    RunCons(qchar, sep, m, qchar, [qchar]);
    RunCons(qchar, sep, m.(state := ReadQuotedCheckEscape), qchar, []);
  }

  /** A single quote char ends a quoted field when a separator, a newline or
      a space follows; the field is then emitted as a present cell (even when
      empty). Any other byte after it is an error at that byte. */
  lemma ClosingQuote(qchar: char, sep: char, m: Machine, x: char)
    requires m.state == ReadQuoted && x != qchar
    ensures var r := Run(qchar, sep, m, [qchar, x]);
      && (x == sep ==> r == Outcome(Machine(ReadSkipPre, [], m.out + [Cell(Some(m.cell))]), false, 2))
      && (x == '\n' && x != sep ==>
            r == Outcome(Machine(Start, [], m.out + [Cell(Some(m.cell)), EndRow]), false, 2))
      && (x == ' ' && x != sep ==> r == Outcome(m.(state := ReadQuotedSkipPost), false, 2))
      && (x != sep && x != '\n' && x != ' ' ==>
            r == Outcome(m.(state := ReadQuotedCheckEscape), true, 1))
  {
    var m1 := m.(state := ReadQuotedCheckEscape);
    RunCons(qchar, sep, m, qchar, [x]);
    RunCons(qchar, sep, m1, x, []);
    Terminate(m1, x);
  }

  /** The token held so far by an unquoted field: its buffer plus any
      spaces held back. */
  function Token(m: Machine): string {
    if m.state.ReadUnquotedWhitespace? then m.cell + m.state.held else m.cell
  }

  predicate Plain(qchar: char, sep: char, t: string) {
    forall i :: 0 <= i < |t| ==> t[i] != qchar && t[i] != sep && t[i] != '\n'
  }

  /** Inside an unquoted token, bytes other than quote, separator and newline
      extend the token; spaces are held back but never lost, so interior
      and trailing spaces are kept. */
  lemma {:induction false} UnquotedRun(qchar: char, sep: char, m: Machine, t: string)
    requires m.state.ReadUnquoted? || m.state.ReadUnquotedWhitespace?
    requires Plain(qchar, sep, t)
    ensures var r := Run(qchar, sep, m, t);
      && !r.err && r.m.out == m.out
      && (r.m.state.ReadUnquoted? || r.m.state.ReadUnquotedWhitespace?)
      && Token(r.m) == Token(m) + t
    decreases |t|
  {
    if t == [] {
      assert Token(m) + t == Token(m);
    } else {
      assert t == [t[0]] + t[1..];
      RunCons(qchar, sep, m, t[0], t[1..]);
      UnquotedByte(qchar, sep, m, t[0]);
      var m' := Step(m, Classify(qchar, sep, t[0])).value;
      assert Plain(qchar, sep, t[1..]) by {
        forall i | 0 <= i < |t[1..]| ensures t[1..][i] == t[i + 1] { }
      }
      UnquotedRun(qchar, sep, m', t[1..]);
      Assoc3(Token(m), [t[0]], t[1..]);
    }
  }

  /** One byte of an unquoted token. */
  lemma UnquotedByte(qchar: char, sep: char, m: Machine, c: char)
    requires m.state.ReadUnquoted? || m.state.ReadUnquotedWhitespace?
    requires c != qchar && c != sep && c != '\n'
    ensures var r := Step(m, Classify(qchar, sep, c));
      && r.Some? && r.value.out == m.out
      && (r.value.state.ReadUnquoted? || r.value.state.ReadUnquotedWhitespace?)
      && Token(r.value) == Token(m) + [c]
  {
    if m.state.ReadUnquotedWhitespace? {
      Assoc3(m.cell, m.state.held, [c]);
    }
  }

  /** A token that starts with a byte other than a space and holds no quote
      char, separator or newline is read as one unquoted field, left pending
      whole. */
  lemma UnquotedToken(qchar: char, sep: char, o: seq<SinkEvent>, t: string)
    requires Plain(qchar, sep, t) && t != [] && t[0] != ' '
    ensures var r := Run(qchar, sep, Machine(ReadSkipPre, [], o), t);
      !r.err && r.m.out == o && Pending(r.m) == Some(Some(t))
  {
    var m := Machine(ReadSkipPre, [], o);
    var m1 := Machine(ReadUnquoted, [t[0]], o);
    assert t == [t[0]] + t[1..];
    RunCons(qchar, sep, m, t[0], t[1..]);
    assert Classify(qchar, sep, t[0]) == Echar(t[0]);
    assert [] + [t[0]] == [t[0]];
    assert Step(m, Echar(t[0])) == Some(m1);
    assert Token(m1) == [t[0]];
    UnquotedRun(qchar, sep, m1, t[1..]);
  }

  /** An unquoted field: leading spaces are skipped, the token from its first
      non-space byte up to the separator is emitted, trailing spaces included. */
  lemma UnquotedField(qchar: char, sep: char, o: seq<SinkEvent>, lead: nat, t: string)
    requires qchar != sep && ' ' != qchar && ' ' != sep
    requires Plain(qchar, sep, t) && t != [] && t[0] != ' '
    ensures Run(qchar, sep, Machine(ReadSkipPre, [], o), Spaces(lead) + t + [sep])
         == Outcome(Machine(ReadSkipPre, [], o + [Cell(Some(t))]), false, lead + |t| + 1)
  {
    var m := Machine(ReadSkipPre, [], o);
    var spaces: string := Spaces(lead);
    SkipSpaces(qchar, sep, o, lead);
    Assoc3(spaces, t, [sep]);
    RunAppend(qchar, sep, m, spaces, t + [sep]);
    RunAppend(qchar, sep, m, t, [sep]);
    UnquotedToken(qchar, sep, o, t);
    var m2 := Run(qchar, sep, m, t).m;
    Terminate(m2, sep);
    RunCons(qchar, sep, m2, sep, []);
    assert [sep] + [] == [sep];
  }

  function Spaces(n: nat): (r: string)
    ensures |r| == n && forall i :: 0 <= i < n ==> r[i] == ' '
  {
    if n == 0 then [] else [' '] + Spaces(n - 1)
  }

  /** Spaces before a field are skipped without touching the buffer. */
  lemma {:induction false} SkipSpaces(qchar: char, sep: char, o: seq<SinkEvent>, n: nat)
    requires ' ' != qchar && ' ' != sep
    ensures Run(qchar, sep, Machine(ReadSkipPre, [], o), Spaces(n)) == Outcome(Machine(ReadSkipPre, [], o), false, n)
  {
    if n > 0 {
      RunCons(qchar, sep, Machine(ReadSkipPre, [], o), ' ', Spaces(n - 1));
      SkipSpaces(qchar, sep, o, n - 1);
    }
  }

  // ---------------------------------------------------------------------
  // The driver: csvparser::operator() with Trans holding the cell buffer.

  /** The transition object of one call: its `cell` buffer and the calls it
      has made on the sink. */
  class Trans {
    var cell: string
    var out: seq<SinkEvent>

    constructor ()
      ensures cell == [] && out == []
    {
      cell := [];
      out := [];
    }

    method Add(b: char)
      modifies this
      ensures cell == old(cell) + [b] && out == old(out)
    {
      cell := cell + [b];
    }

    /** `next_cell`; without content the buffer must already be empty (the
        source asserts it) and NULL is passed. */
    method NextCell(hasContent: bool)
      requires hasContent || cell == []
      modifies this
      ensures out == old(out) + [Cell(if hasContent then Some(old(cell)) else None)]
      ensures cell == []
    {
      if hasContent {
        out := out + [Cell(Some(cell))];
      } else {
        out := out + [Cell(None)];
      }
      cell := [];
    }

    method Emit(e: SinkEvent)
      modifies this
      ensures out == old(out) + [e] && cell == old(cell)
    {
      out := out + [e];
    }

    /** `Trans::on` for the current state and event: `ok` is its return
        value and `next` the state variant afterwards. */
    method On(state: State, e: Ev) returns (ok: bool, next: State)
      requires state.Start? || state.ReadSkipPre? ==> cell == []
      modifies this
      ensures var r := Step(Machine(state, old(cell), old(out)), e);
        && ok == r.Some?
        && (ok ==> Machine(next, cell, out) == r.value)
        && (!ok ==> next == state && cell == old(cell) && out == old(out))
    {
      ok, next := true, state;
      match state {
        case Start =>
          Emit(BeginRow);
          match e {
            case Eqchar(_) => next := ReadQuoted;
            case Esep(_) => NextCell(false); next := ReadSkipPre;
            case Enewline(_) => Emit(EndRow);
            case Ewhitespace(_) => next := ReadSkipPre;
            case Echar(b) => Add(b); next := ReadUnquoted;
          }
        case ReadSkipPre =>
          match e {
            case Eqchar(_) => next := ReadQuoted;
            case Esep(_) => NextCell(false);
            case Enewline(_) => NextCell(false); Emit(EndRow); next := Start;
            case Ewhitespace(_) =>
            case Echar(b) => Add(b); next := ReadUnquoted;
          }
        case ReadQuoted =>
          match e {
            case Eqchar(_) => next := ReadQuotedCheckEscape;
            case _ => Add(e.value);
          }
        case ReadQuotedCheckEscape =>
          match e {
            case Eqchar(b) => Add(b); next := ReadQuoted;
            case Esep(_) => NextCell(true); next := ReadSkipPre;
            case Enewline(_) => NextCell(true); Emit(EndRow); next := Start;
            case Ewhitespace(_) => next := ReadQuotedSkipPost;
            case Echar(_) => ok := false;
          }
        case ReadQuotedSkipPost =>
          match e {
            case Esep(_) => NextCell(true); next := ReadSkipPre;
            case Enewline(_) => NextCell(true); Emit(EndRow); next := Start;
            case Ewhitespace(_) =>
            case _ => ok := false;
          }
        case ReadUnquoted =>
          match e {
            case Eqchar(_) => ok := false;
            case Esep(_) => NextCell(true); next := ReadSkipPre;
            case Enewline(_) => NextCell(true); Emit(EndRow); next := Start;
            case Ewhitespace(b) => next := ReadUnquotedWhitespace([b]);
            case Echar(b) => Add(b);
          }
        case ReadUnquotedWhitespace(held) =>
          match e {
            case Eqchar(_) => ok := false;
            case Esep(_) => cell := cell + held; NextCell(true); next := ReadSkipPre;
            case Enewline(_) => cell := cell + held; NextCell(true); Emit(EndRow); next := Start;
            case Ewhitespace(b) => next := ReadUnquotedWhitespace(held + [b]);
            case Echar(b) => cell := cell + held; Add(b); next := ReadUnquoted;
          }
        case ReadError(_) =>
          ok := false;
      }
    }
  }

  /** csvparser: the sink is represented by the calls each call makes on it. */
  class Parser {
    const qchar: char
    const sep: char

    constructor (qchar: char := '"', sep: char := ',')
      ensures this.qchar == qchar && this.sep == sep
    {
      this.qchar := qchar;
      this.sep := sep;
    }

    /** csvparser::operator(): returns true on error, with `stop` the number
        of bytes `buf` was advanced (it is left on the offending byte), and
        the calls made on the sink during this call. */
    method Parse(input: string) returns (err: bool, stop: nat, events: seq<SinkEvent>)
      ensures Decode(qchar, sep, input) == Outcome(Decode(qchar, sep, input).m, err, stop)
      ensures events == Decode(qchar, sep, input).m.out
    {
      var state := Start;
      var trans := new Trans();
      var pos := 0;
      while pos < |input|
        invariant 0 <= pos <= |input|
        invariant Inv(Machine(state, trans.cell, trans.out))
        invariant Decode(qchar, sep, input) == Shift(Run(qchar, sep, Machine(state, trans.cell, trans.out), input[pos..]), pos)
      {
        var m := Machine(state, trans.cell, trans.out);
        var e := Classify(qchar, sep, input[pos]);
        assert input[pos..] == [input[pos]] + input[pos + 1..];
        RunCons(qchar, sep, m, input[pos], input[pos + 1..]);
        var run;
        run, state := trans.On(state, e);
        if !run {
          return true, pos, trans.out;
        }
        StepInv(qchar, sep, m, input[pos]);
        pos := pos + 1;
      }
      return false, pos, trans.out;
    }
  }
}
