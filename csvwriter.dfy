// The encoder of csvwriter.h: csv_writer turns sink calls back into CSV
// text. The `Output` functor is modelled as appending to a string.
module CsvWriter {
  import opened CsvBase

  /** A byte the decoder treats specially inside a field. */
  predicate Special(qchar: char, sep: char, c: char) {
    c == qchar || c == sep || c == '\n'
  }

  /** The condition under which need_quote returns true. */
  predicate Dangerous(qchar: char, sep: char, w: string) {
    exists i :: 0 <= i < |w| && Special(qchar, sep, w[i])
  }

  /** The body of a quoted field: every quote char written twice, every
      other byte once, in order. */
  function Escape(qchar: char, w: string): (r: string)
    ensures |r| >= |w|
  {
    if w == [] then []
    else (if w[0] == qchar then [qchar, qchar] else [w[0]]) + Escape(qchar, w[1..])
  }

  lemma {:induction false} EscapeAppend(qchar: char, a: string, b: string)
    ensures Escape(qchar, a + b) == Escape(qchar, a) + Escape(qchar, b)
    decreases |a|
  {
    if a == [] {
      assert a + b == b;
    } else {
      assert (a + b)[0] == a[0];
      assert (a + b)[1..] == a[1..] + b;
      EscapeAppend(qchar, a[1..], b);
    }
  }

  /** One iteration of the chunk loop keeps "what is written plus the
      pending chunk is the escaped prefix". */
  lemma ChunkStep(qchar: char, written: string, buf: string, start: nat, pos: nat, before: string)
    requires start <= pos < |buf|
    requires written + buf[start..pos] == before + Escape(qchar, buf[..pos])
    ensures buf[pos] == qchar ==>
      (written + buf[start..pos + 1]) + buf[pos..pos + 1] == before + Escape(qchar, buf[..pos + 1])
    ensures buf[pos] != qchar ==>
      written + buf[start..pos + 1] == before + Escape(qchar, buf[..pos + 1])
  {
    EscapeAppend(qchar, buf[..pos], [buf[pos]]);
    assert buf[..pos + 1] == buf[..pos] + [buf[pos]];
    assert buf[start..pos + 1] == buf[start..pos] + [buf[pos]];
    assert buf[pos..pos + 1] == [buf[pos]];
    if buf[pos] == qchar {
      assert Escape(qchar, [buf[pos]]) == [qchar, qchar];
      calc {
        (written + buf[start..pos + 1]) + buf[pos..pos + 1];
        (written + buf[start..pos]) + [qchar, qchar];
      }
    } else {
      assert Escape(qchar, [buf[pos]]) == [buf[pos]];
      calc {
        written + buf[start..pos + 1];
        (written + buf[start..pos]) + [buf[pos]];
        before + Escape(qchar, buf[..pos]) + Escape(qchar, [buf[pos]]);
      }
    }
  }

  /** A field without quote chars is its own escaped body. */
  lemma {:induction false} EscapeNoQuote(qchar: char, w: string)
    requires forall i :: 0 <= i < |w| ==> w[i] != qchar
    ensures Escape(qchar, w) == w
    decreases |w|
  {
    if w != [] {
      EscapeNoQuote(qchar, w[1..]);
      assert [w[0]] + w[1..] == w;
    }
  }

  /** What `cell` writes after the separator, if any: nothing for an absent
      cell; the bytes verbatim in smart mode when need_quote is false;
      otherwise quote char, escaped body, quote char. */
  function FieldText(qchar: char, sep: char, smartQuote: bool, c: Option<string>): string {
    match c
    case None => []
    case Some(w) =>
      if smartQuote && !Dangerous(qchar, sep, w) then w
      else [qchar] + Escape(qchar, w) + [qchar]
  }

  /** A present cell is written either verbatim, and then holds no byte the
      decoder treats specially, or between two quote chars around a body
      at least as long as the cell. */
  lemma FieldTextShape(qchar: char, sep: char, smartQuote: bool, w: string)
    ensures var r := FieldText(qchar, sep, smartQuote, Some(w));
      && (smartQuote && !Dangerous(qchar, sep, w) ==> r == w && forall i :: 0 <= i < |r| ==> !Special(qchar, sep, r[i]))
      && (!(smartQuote && !Dangerous(qchar, sep, w)) ==> |r| >= |w| + 2 && r[0] == qchar && r[|r| - 1] == qchar)
  {
  }

  /** The writer's output for one call, given its `first` flag. */
  function CallText(qchar: char, sep: char, smartQuote: bool, first: bool, e: SinkEvent): string {
    match e
    case BeginRow => []
    case Cell(c) => (if first then [] else [sep]) + FieldText(qchar, sep, smartQuote, c)
    case EndRow => ['\n']
  }

  /** The writer's `first` flag after one call. */
  function FirstNext(first: bool, e: SinkEvent): bool {
    match e
    case BeginRow => true
    case Cell(_) => false
    case EndRow => first
  }

  /** The writer's output for a sequence of sink calls, starting with the
      given value of its `first` flag. */
  function Render(qchar: char, sep: char, smartQuote: bool, first: bool, t: seq<SinkEvent>): string
    decreases |t|
  {
    if t == [] then []
    else CallText(qchar, sep, smartQuote, first, t[0]) + Render(qchar, sep, smartQuote, FirstNext(first, t[0]), t[1..])
  }

  /** Render unfolded by one call. */
  lemma RenderCons(qchar: char, sep: char, smartQuote: bool, first: bool, e: SinkEvent, t: seq<SinkEvent>)
    ensures Render(qchar, sep, smartQuote, first, [e] + t)
         == CallText(qchar, sep, smartQuote, first, e) + Render(qchar, sep, smartQuote, FirstNext(first, e), t)
  {
    assert ([e] + t)[0] == e && ([e] + t)[1..] == t;
  }

  /** csv_writer. */
  class Writer {
    const qchar: char
    const sep: char
    const smartQuote: bool
    var first: bool
    var out: string

    constructor (qchar: char := '"', sep: char := ',', smartQuote: bool := false)
      ensures this.qchar == qchar && this.sep == sep && this.smartQuote == smartQuote
      ensures first && out == []
    {
      this.qchar := qchar;
      this.sep := sep;
      this.smartQuote := smartQuote;
      first := true;
      out := [];
    }

    method BeginRow()
      modifies this
      ensures first && out == old(out)
      ensures first == FirstNext(old(first), SinkEvent.BeginRow)
      ensures out == old(out) + CallText(qchar, sep, smartQuote, old(first), SinkEvent.BeginRow)
    {
      first := true;
    }

    /** `cell`: one separator before every cell but the first of a row, then
        the field text. */
    method Cell(data: Option<string>)
      modifies this
      ensures !first
      ensures out == old(out) + (if old(first) then [] else [sep]) + FieldText(qchar, sep, smartQuote, data)
      ensures first == FirstNext(old(first), SinkEvent.Cell(data))
      ensures out == old(out) + CallText(qchar, sep, smartQuote, old(first), SinkEvent.Cell(data))
    {
      ghost var text := FieldText(qchar, sep, smartQuote, data);
      assert CallText(qchar, sep, smartQuote, first, SinkEvent.Cell(data)) == (if first then [] else [sep]) + text;
      if !first {
        Output([sep]);
      } else {
        first := false;
      }
      OutputField(data);
    }

    /** The part of `cell` after the separator. */
    method OutputField(data: Option<string>)
      modifies this
      ensures out == old(out) + FieldText(qchar, sep, smartQuote, data) && first == old(first)
    {
      if data.Some? {
        var buf := data.value;
        var need := NeedQuote(buf);
        if smartQuote && !need {
          Output(buf);
        } else {
          Output([qchar]);
          OutputEscaped(buf);
          Output([qchar]);
        }
      }
    }

    /** The `out` functor: append a chunk to the output. */
    method Output(chunk: string)
      modifies this
      ensures out == old(out) + chunk && first == old(first)
    {
      out := out + chunk;
    }

    /** The chunk loop of `cell` for a quoted field: it writes up to and
        including each quote char and starts the next chunk at that same quote
        char, so every quote char goes out twice. */
    method OutputEscaped(buf: string)
      modifies this
      ensures out == old(out) + Escape(qchar, buf) && first == old(first)
    {
      var start, pos := 0, 0;
      while pos < |buf|
        invariant first == old(first)
        invariant start <= pos <= |buf|
        invariant out + buf[start..pos] == old(out) + Escape(qchar, buf[..pos])
      {
        ChunkStep(qchar, out, buf, start, pos, old(out));
        if buf[pos] == qchar {
          Output(buf[start..pos + 1]);
          start := pos;
        }
        pos := pos + 1;
      }
      assert buf[..pos] == buf;
      Output(buf[start..pos]);
    }

    /** `end_row`: exactly one newline. */
    method EndRow()
      modifies this
      ensures first == old(first) && out == old(out) + ['\n']
      ensures first == FirstNext(old(first), SinkEvent.EndRow)
      ensures out == old(out) + CallText(qchar, sep, smartQuote, old(first), SinkEvent.EndRow)
    {
      Output(['\n']);
    }

    /** need_quote: whether the field holds the quote char, the separator or
        a newline. */
    method NeedQuote(w: string) returns (need: bool)
      ensures need <==> Dangerous(qchar, sep, w)
    {
      var i := 0;
      while i < |w|
        invariant 0 <= i <= |w|
        invariant forall j :: 0 <= j < i ==> !Special(qchar, sep, w[j])
      {
        if w[i] == qchar || w[i] == sep || w[i] == '\n' {
          return true;
        }
        i := i + 1;
      }
      return false;
    }
  }

  /** The writer's output for consecutive calls is the concatenation of the
      outputs of each, with `first` carried across. */
  lemma {:induction false} RenderAppend(qchar: char, sep: char, smartQuote: bool, first: bool, a: seq<SinkEvent>, b: seq<SinkEvent>)
    ensures Render(qchar, sep, smartQuote, first, a + b)
         == Render(qchar, sep, smartQuote, first, a) + Render(qchar, sep, smartQuote, FirstAfter(first, a), b)
    decreases |a|
  {
    if a == [] {
      assert a + b == b;
    } else {
      var e, rest := a[0], a[1..];
      var f := FirstNext(first, e);
      assert a == [e] + rest;
      assert a + b == [e] + (rest + b);
      RenderCons(qchar, sep, smartQuote, first, e, rest + b);
      RenderCons(qchar, sep, smartQuote, first, e, rest);
      RenderAppend(qchar, sep, smartQuote, f, rest, b);
      assert FirstAfter(first, a) == FirstAfter(f, rest);
      Assoc3(CallText(qchar, sep, smartQuote, first, e), Render(qchar, sep, smartQuote, f, rest),
            Render(qchar, sep, smartQuote, FirstAfter(f, rest), b));
    }
  }

  /** Calls that end with end_row leave output ending in a newline. */
  lemma RenderEndsRow(qchar: char, sep: char, smartQuote: bool, first: bool, t: seq<SinkEvent>)
    ensures t != [] && t[|t| - 1].EndRow? ==>
      var r := Render(qchar, sep, smartQuote, first, t);
      r != [] && r[|r| - 1] == '\n'
  {
    if t != [] && t[|t| - 1].EndRow? {
      var a, e := t[..|t| - 1], t[|t| - 1];
      assert t == a + [e];
      RenderAppend(qchar, sep, smartQuote, first, a, [e]);
      RenderCons(qchar, sep, smartQuote, FirstAfter(first, a), e, []);
    }
  }

  /** The writer's `first` flag after a sequence of calls. */
  function FirstAfter(first: bool, t: seq<SinkEvent>): bool
    decreases |t|
  {
    if t == [] then first else FirstAfter(FirstNext(first, t[0]), t[1..])
  }
}
