/** Parse, the entry point: a scanner over the whole input, the header
    check, then data rows until the row decoder reports the end of the data
    or an error, then the check that no token is left. The result is all or
    nothing: any error comes with no rows. */
module Document {
  import opened Tokenizer
  import opened Fields
  import opened Decoders
  import opened Header
  import opened Rows

  /** The position an error message prints: the line and the column range
      columnEnd - tokenSize .. columnEnd. */
  datatype Span = Span(line: int, from: int, to: int)

  /** The errors Parse returns. A row error also quotes the scanner's
      current text, trimmed; the trailing-tokens error quotes it as it is. */
  datatype ParseError =
    | HeaderError(fault: HeaderFault, at: Span)
    | RowError(cause: FieldError, at: Span, token: string)
    | TrailingTokens(at: Span, token: string)

  /** What Parse returns: the rows, and an error or none. */
  datatype Parsed = Parsed(rows: seq<DataRow>, err: Option<ParseError>)

  /** The span the three counters describe. */
  function SpanOf(p: Counters): Span
  {
    Span(p.line, p.columnEnd - p.tokenSize, p.columnEnd)
  }

  /** The span once the scanner has delivered c tokens of data: the line is
      one more than the newlines consumed so far, and the range ends one
      past the bytes consumed on that line. */
  function SpanAt(data: string, c: nat): (sp: Span)
    ensures sp.line == 1 + Occurrences(data[..Offset(data, c)], '\n')
    ensures sp.to == 1 + Offset(data, c) - LineStart(data[..Offset(data, c)])
  {
    var p := data[..Offset(data, c)];
    TrackLine(p);
    TrackColumn(p);
    SpanOf(Track(p))
  }

  /** The span once the ';' closing a token has been consumed, the token
      being the bytes of a after its last ';'. The column range starts at
      columnEnd - tokenSize, which is 1 or more exactly when the token holds
      no newline: tokenSize counts the token's bytes across newlines while
      columnEnd restarts at each, so a token spanning a line break, as the
      first field of each row does after ";\r\n", starts at column 0 or
      below. */
  lemma TokenSpanFrom(a: string)
    ensures var sp, start := SpanOf(Track(a + ";")), |a| - SinceSemi(a);
      sp.from == 1 + |a| - LineStart(a) - SinceSemi(a) &&
      (sp.from >= 1 <==> forall i :: start <= i < |a| ==> a[i] != '\n')
  {
    assert (a + ";")[..|a|] == a;
    TrackColumn(a);
    LineStartLast(a);
    if LineStart(a) > |a| - SinceSemi(a) {
      assert a[LineStart(a) - 1] == '\n';
    }
  }

  // ---------------------------------------------------------------------
  // Parse as values

  /** The rows decoded from cursor c on, in order, with the error that
      stopped them (none when the data simply ended) and the cursor left
      behind. */
  datatype RowRun = RowRun(rows: seq<DataRow>, failure: Option<FieldError>, cursor: nat)

  /** The row loop of Parse from cursor c, with the fields read by read. */
  function RowsFrom(read: Reader, toks: seq<string>, c: nat): (run: RowRun)
    requires WellTyped(read) && Separable(read) && c <= |toks|
    ensures c <= run.cursor <= |toks|
    decreases |toks| - c
  {
    var st := RowAt(read, toks, c);
    RowProgress(read, toks, c);
    match st.outcome
    case NoRow => RowRun([], None, st.cursor)
    case Failed(e) => RowRun([], Some(e), st.cursor)
    case Row(row) =>
      var rest := RowsFrom(read, toks, st.cursor);
      RowRun([row] + rest.rows, rest.failure, rest.cursor)
  }

  /** Parse of the input data, with the fields read by read: a refused
      header, a row error, a token left after the data, or the rows. */
  function ParseSpec(read: Reader, data: string): (r: Parsed)
    requires WellTyped(read) && Separable(read)
    ensures r.err.Some? ==> r.rows == []
  {
    var toks := Tokens(data);
    match HeaderCheck(toks)
    case Rejected(fault, c) => Parsed([], Some(HeaderError(fault, SpanAt(data, c))))
    case Accepted =>
      HeaderAccepted(toks);
      var run := RowsFrom(read, toks, |Expected|);
      if run.failure.Some? then
        Parsed([], Some(RowError(run.failure.value, SpanAt(data, run.cursor), Trim(TextAt(toks, run.cursor)))))
      else if run.cursor < |toks| then
        Parsed([], Some(TrailingTokens(SpanAt(data, |toks|), toks[|toks| - 1])))
      else
        Parsed(run.rows, None)
  }

  // ---------------------------------------------------------------------
  // Parse

  /** One step of the row loop: the run from cursor c is the row
      decoder's outcome there, followed, after a row, by the run from the
      cursor the decoder left. */
  lemma RowsFromStep(read: Reader, toks: seq<string>, c: nat, st: RowStep)
    requires WellTyped(read) && Separable(read) && c <= |toks| && st == RowAt(read, toks, c)
    ensures st.cursor <= |toks| && (st.outcome.Row? ==> c < st.cursor)
    ensures st.outcome.NoRow? ==> RowsFrom(read, toks, c) == RowRun([], None, st.cursor)
    ensures st.outcome.Failed? ==> RowsFrom(read, toks, c) == RowRun([], Some(st.outcome.error), st.cursor)
    ensures st.outcome.Row? ==> var rest := RowsFrom(read, toks, st.cursor);
      RowsFrom(read, toks, c) == RowRun([st.outcome.row] + rest.rows, rest.failure, rest.cursor)
  {
    RowProgress(read, toks, c);
  }

  /** The row loop's invariant after a row: the run so far is the rows
      collected, now including this one, followed by the run from the
      cursor the row decoder left. */
  lemma RowsGo(read: Reader, toks: seq<string>, c: nat, st: RowStep, before: seq<DataRow>, after: seq<DataRow>, run: RowRun)
    requires WellTyped(read) && Separable(read) && c <= |toks| && st == RowAt(read, toks, c) && st.outcome.Row?
    requires after == before + [st.outcome.row]
    requires var here := RowsFrom(read, toks, c); run == RowRun(before + here.rows, here.failure, here.cursor)
    ensures c < st.cursor <= |toks|
    ensures var rest := RowsFrom(read, toks, st.cursor); run == RowRun(after + rest.rows, rest.failure, rest.cursor)
  {
    var here, rest := RowsFrom(read, toks, c), RowsFrom(read, toks, st.cursor);
    assert c < st.cursor <= |toks| && here == RowRun([st.outcome.row] + rest.rows, rest.failure, rest.cursor) by {
      RowsFromStep(read, toks, c, st);
    }
    ConcatAssoc(before, [st.outcome.row], rest.rows);
  }

  lemma ConcatAssoc<T>(a: seq<T>, b: seq<T>, c: seq<T>)
    ensures a + (b + c) == (a + b) + c
  {
  }

  /** The row loop's end: no row at the cursor, or a failing one, ends
      the run with the rows collected so far. */
  lemma RowsStop(read: Reader, toks: seq<string>, c: nat, st: RowStep, rows: seq<DataRow>, failure: Option<FieldError>, run: RowRun)
    requires WellTyped(read) && Separable(read) && c <= |toks| && st == RowAt(read, toks, c) && !st.outcome.Row?
    requires failure == if st.outcome.Failed? then Some(st.outcome.error) else None
    requires var here := RowsFrom(read, toks, c); run == RowRun(rows + here.rows, here.failure, here.cursor)
    ensures run == RowRun(rows, failure, st.cursor)
  {
    RowsFromStep(read, toks, c, st);
    assert rows + [] == rows;
  }

  /** The row loop of Parse: rows appended one by one until the row
      decoder reports the end of the data or an error. */
  method ParseRows(s: Scanner, lib: Builtins) returns (rows: seq<DataRow>, failure: Option<FieldError>)
    requires s.Valid()
    modifies s
    ensures s.Valid()
    ensures RowsFrom(FieldReader(lib), s.Toks(), old(s.idx)) == RowRun(rows, failure, s.idx)
  {
    ghost var read, toks := FieldReader(lib), s.Toks();
    ghost var run := RowsFrom(read, toks, s.idx);
    rows := [];
    while true
      invariant s.Valid() && s.Toks() == toks
      invariant var rest := RowsFrom(read, toks, s.idx);
        run == RowRun(rows + rest.rows, rest.failure, rest.cursor)
      decreases |toks| - s.idx
    {
      ghost var c := s.idx;
      var outcome := ParseDataRow(s, lib);
      ghost var st := RowStep(outcome, s.idx);
      match outcome {
        case Failed(e) =>
          failure := Some(e);
          RowsStop(read, toks, c, st, rows, failure, run);
          return;
        case NoRow =>
          failure := None;
          RowsStop(read, toks, c, st, rows, failure, run);
          return;
        case Row(row) =>
          ghost var before := rows;
          rows := rows + [row];
          RowsGo(read, toks, c, st, before, rows, run);
      }
    }
  }

  /** The scanner drained: Scan until it reports no more tokens. */
  method Drain(s: Scanner)
    requires s.Valid()
    modifies s
    ensures s.Valid() && s.idx == |s.Toks()|
  {
    var more := s.Scan();
    while more
      invariant s.Valid()
      invariant !more ==> s.idx == |s.Toks()|
      decreases (if more then 1 else 0) + |s.Toks()| - s.idx
    {
      more := s.Scan();
    }
  }

  /** Parse: the header, then the rows, then one more Scan; if it delivers
      a token, the scanner is drained and the last token and the final
      counters are reported. */
  method Parse(input: string, lib: Builtins) returns (rows: seq<DataRow>, err: Option<ParseError>)
    ensures ParseSpec(FieldReader(lib), input) == Parsed(rows, err)
  {
    var s := new Scanner(input);
    rows := [];
    var fault := ParseHeader(s);
    if fault.Some? {
      return rows, Some(HeaderError(fault.value, SpanOf(s.Position())));
    }
    ghost var toks := s.Toks();
    assert toks == Tokens(input) && HeaderCheck(toks) == Accepted;
    HeaderAccepted(toks);
    var failure;
    rows, failure := ParseRows(s, lib);
    ghost var run := RowsFrom(FieldReader(lib), toks, |Expected|);
    assert run == RowRun(rows, failure, s.idx);
    if failure.Some? {
      return [], Some(RowError(failure.value, SpanOf(s.Position()), Trim(s.text)));
    }
    var more := s.Scan();
    if more {
      Drain(s);
      OffsetEnd(input);
      return [], Some(TrailingTokens(SpanOf(s.Position()), s.text));
    }
    assert run.cursor == |toks|;
    err := None;
  }

  // ---------------------------------------------------------------------
  // Properties of Parse

  /** Rows of tokens laid end to end. */
  function Flatten(blocks: seq<seq<string>>): seq<string>
  {
    if blocks == [] then [] else blocks[0] + Flatten(blocks[1..])
  }

  /** Blocks of twenty texts each, every text accepted by its field's
      decoder. */
  ghost predicate GoodRows(read: Reader, blocks: seq<seq<string>>)
  {
    (forall i :: 0 <= i < |blocks| ==> |blocks[i]| == FieldCount) &&
    forall i, k :: 0 <= i < |blocks| && 0 <= k < FieldCount ==> read(k, blocks[i][k]).Ok?
  }

  /** A run that decodes the good blocks into its first rows and then
      goes on as the run tail: the same later rows, failure and final
      cursor. */
  ghost predicate RowsThen(read: Reader, blocks: seq<seq<string>>, run: RowRun, tail: RowRun)
    requires GoodRows(read, blocks)
  {
    run.failure == tail.failure && run.cursor == tail.cursor &&
    |run.rows| == |blocks| + |tail.rows| && run.rows[|blocks|..] == tail.rows &&
    RowsOf(read, blocks, run.rows[..|blocks|])
  }

  /** The rows decoded from the blocks, field by field and in order. */
  ghost predicate RowsOf(read: Reader, blocks: seq<seq<string>>, rows: seq<DataRow>)
    requires GoodRows(read, blocks)
  {
    |rows| == |blocks| &&
    forall i, k :: 0 <= i < |blocks| && 0 <= k < FieldCount ==> read(k, blocks[i][k]) == Ok(FieldsOf(rows[i])[k])
  }

  /** The last block of rows laid end to end comes last. */
  lemma {:induction false} FlattenSnoc(blocks: seq<seq<string>>)
    requires |blocks| > 0
    ensures Flatten(blocks) == Flatten(blocks[..|blocks| - 1]) + blocks[|blocks| - 1]
    decreases |blocks|
  {
    var n := |blocks|;
    if n == 1 {
      assert Flatten(blocks[..0]) == [];
    } else {
      var init := blocks[..n - 1];
      FlattenSnoc(blocks[1..]);
      assert blocks[1..][..n - 2] == init[1..];
      assert Flatten(init) == blocks[0] + Flatten(init[1..]);
      ConcatAssoc(blocks[0], Flatten(init[1..]), blocks[n - 1]);
    }
  }

  /** One block of good tokens ahead of cursor b: the row decoder reads a
      row from exactly those twenty tokens. */
  lemma BlockRow(read: Reader, toks: seq<string>, b: nat, w: seq<string>)
    requires WellTyped(read) && 1 <= b && b + FieldCount <= |toks| && toks[b - 1..b - 1 + FieldCount] == w
    requires forall k :: 0 <= k < FieldCount ==> read(k, w[k]).Ok?
    ensures var st := RowAt(read, toks, b);
      st.outcome.Row? && st.cursor == b + FieldCount &&
      forall k :: 0 <= k < FieldCount ==> read(k, w[k]) == Ok(FieldsOf(st.outcome.row)[k])
  {
    RowTokensAhead(toks, b);
    RowFromTokens(read, toks, b);
  }

  /** The rows of blocks are the first block's row and then the rows of
      the others; what follows them is left as it is. */
  lemma RowsOfPrepend(read: Reader, blocks: seq<seq<string>>, row: DataRow, rows: seq<DataRow>)
    requires GoodRows(read, blocks) && |blocks| > 0 && GoodRows(read, blocks[1..])
    requires |blocks| - 1 <= |rows| && RowsOf(read, blocks[1..], rows[..|blocks| - 1])
    requires forall k :: 0 <= k < FieldCount ==> read(k, blocks[0][k]) == Ok(FieldsOf(row)[k])
    ensures RowsOf(read, blocks, ([row] + rows)[..|blocks|])
    ensures ([row] + rows)[|blocks|..] == rows[|blocks| - 1..]
  {
    var all := ([row] + rows)[..|blocks|];
    forall i, k | 0 <= i < |blocks| && 0 <= k < FieldCount
      ensures read(k, blocks[i][k]) == Ok(FieldsOf(all[i])[k])
    {
      if i > 0 {
        assert blocks[i] == blocks[1..][i - 1];
        assert all[i] == rows[..|blocks| - 1][i - 1];
      }
    }
  }

  /** The tokens from cursor b on, split after the first block. */
  lemma FirstBlock(toks: seq<string>, b: nat, blocks: seq<seq<string>>, rest: seq<string>)
    requires |blocks| > 0 && |blocks[0]| == FieldCount && |rest| >= 1
    requires 1 <= b <= |toks| + 1 && toks[b - 1..] == Flatten(blocks) + rest
    ensures b + FieldCount <= |toks| && toks[b - 1..b - 1 + FieldCount] == blocks[0]
    ensures toks[b + FieldCount - 1..] == Flatten(blocks[1..]) + rest
  {
    var w, f, u := blocks[0], Flatten(blocks[1..]), toks[b - 1..];
    ConcatAssoc(w, f, rest);
    assert u == w + (f + rest);
    assert toks[b - 1..b - 1 + FieldCount] == u[..FieldCount];
    assert toks[b + FieldCount - 1..] == u[FieldCount..];
  }

  /** The rows of good blocks followed by a tail, assembled from the first
      block's row and the run after it. */
  lemma RowsOfJoin(read: Reader, blocks: seq<seq<string>>, row: DataRow, run: RowRun, mid: RowRun, tail: RowRun)
    requires GoodRows(read, blocks) && |blocks| > 0 && GoodRows(read, blocks[1..])
    requires forall k :: 0 <= k < FieldCount ==> read(k, blocks[0][k]) == Ok(FieldsOf(row)[k])
    requires RowsThen(read, blocks[1..], mid, tail)
    requires run == RowRun([row] + mid.rows, mid.failure, mid.cursor)
    ensures RowsThen(read, blocks, run, tail)
  {
    RowsOfPrepend(read, blocks, row, mid.rows);
  }

  /** From cursor b on, rows of good tokens and then the tokens rest: the
      row loop decodes one row per block, in order, each field from its own
      token, and then goes on as it does from the first token of rest. */
  lemma {:induction false} RowsOfBlocks(read: Reader, toks: seq<string>, b: nat, blocks: seq<seq<string>>, rest: seq<string>)
    requires WellTyped(read) && Separable(read) && GoodRows(read, blocks)
    requires 1 <= b <= |toks| + 1 && toks[b - 1..] == Flatten(blocks) + rest && |rest| >= 1
    ensures RowsThen(read, blocks, RowsFrom(read, toks, b), RowsFrom(read, toks, |toks| + 1 - |rest|))
    decreases |blocks|
  {
    var run, tail := RowsFrom(read, toks, b), RowsFrom(read, toks, |toks| + 1 - |rest|);
    if blocks == [] {
      assert b == |toks| + 1 - |rest| by {
        assert Flatten(blocks) == [];
        assert toks[b - 1..] == rest;
      }
      assert run.rows[..0] == [] && run.rows[0..] == run.rows;
    } else {
      var w := blocks[0];
      FirstBlock(toks, b, blocks, rest);
      assert GoodRows(read, blocks[1..]);
      var mid := RowsFrom(read, toks, b + FieldCount);
      RowsOfBlocks(read, toks, b + FieldCount, blocks[1..], rest);
      var st := RowAt(read, toks, b);
      assert st.outcome.Row? && run == RowRun([st.outcome.row] + mid.rows, mid.failure, mid.cursor) &&
        forall k :: 0 <= k < FieldCount ==> read(k, w[k]) == Ok(FieldsOf(st.outcome.row)[k]) by {
        BlockRow(read, toks, b, w);
        RowsFromStep(read, toks, b, st);
      }
      RowsOfJoin(read, blocks, st.outcome.row, run, mid, tail);
    }
  }

  /** Once every token is out, the span is the one the counters hold at
      the end of the input. */
  lemma TrailingSpan(data: string)
    ensures SpanAt(data, |Tokens(data)|) == SpanOf(Track(data))
  {
    OffsetEnd(data);
    assert data[..|data|] == data;
  }

  /** Parse of an input whose header is accepted, as the row loop leaves
      it: a row error, the trailing-tokens error at the end of the input,
      or the rows. */
  lemma ParseAccepted(read: Reader, data: string)
    requires WellTyped(read) && Separable(read) && HeaderCheck(Tokens(data)) == Accepted
    ensures |Tokens(data)| >= |Expected|
    ensures var toks := Tokens(data); var run := RowsFrom(read, toks, |Expected|);
      ParseSpec(read, data) ==
        if run.failure.Some? then
          Parsed([], Some(RowError(run.failure.value, SpanAt(data, run.cursor), Trim(TextAt(toks, run.cursor)))))
        else if run.cursor < |toks| then
          Parsed([], Some(TrailingTokens(SpanOf(Track(data)), toks[|toks| - 1])))
        else
          Parsed(run.rows, None)
  {
    HeaderAccepted(Tokens(data));
    TrailingSpan(data);
  }

  /** A document of tokens: the captions, rows of good tokens, and after
      them a text that is not a date-time and at most one more token. Parse
      returns one row per block, in order, each field decoded from its own
      token. With two or more tokens after that text, Parse refuses the
      document and quotes the input's last token, untrimmed, at the final
      counters. */
  lemma DocumentTokens(read: Reader, data: string, blocks: seq<seq<string>>, rest: seq<string>)
    requires WellTyped(read) && Separable(read) && GoodRows(read, blocks)
    requires Tokens(data) == Captions + Flatten(blocks) + rest
    requires |rest| >= 1 && read(0, rest[0]).Err?
    ensures |rest| <= 2 ==> ParseSpec(read, data).err == None && RowsOf(read, blocks, ParseSpec(read, data).rows)
    ensures |rest| > 2 ==> ParseSpec(read, data) == Parsed([], Some(TrailingTokens(SpanOf(Track(data)), Tokens(data)[|Tokens(data)| - 1])))
  {
    var ts := Tokens(data);
    assert ts == Captions + (Flatten(blocks) + rest);
    HeaderThen(ts, Flatten(blocks) + rest);
    RowsOfBlocks(read, ts, |Expected|, blocks, rest);
    var run, e := RowsFrom(read, ts, |Expected|), |ts| + 1 - |rest|;
    assert RowsFrom(read, ts, e) == RowRun([], None, Next(ts, e)) by {
      assert TextAt(ts, e) == rest[0];
    }
    assert run.rows == run.rows[..|blocks|];
    ParseAccepted(read, data);
  }

  /** The last twenty tokens of the input, all good: the row decoder reads
      them as one row, each field from its own token, and leaves the cursor
      on the last token. */
  lemma LastRow(read: Reader, toks: seq<string>, w: seq<string>, e: nat)
    requires WellTyped(read) && |toks| >= FieldCount && toks[|toks| - FieldCount..] == w
    requires forall k :: 0 <= k < FieldCount ==> read(k, w[k]).Ok?
    requires e == |toks| + 1 - FieldCount
    ensures var st := RowAt(read, toks, e);
      st.outcome.Row? && st.cursor == |toks| &&
      forall k :: 0 <= k < FieldCount ==> read(k, w[k]) == Ok(FieldsOf(st.outcome.row)[k])
  {
    assert RowTokens(toks, e) == w by {
      RowTokensAhead(toks, e);
      assert toks[e - 1..e - 1 + FieldCount] == toks[|toks| - FieldCount..];
    }
    assert FirstFailure(read, w, 0) == FieldCount;
    RowFromTokens(read, toks, e);
  }

  /** Once every token is out, a last token that is not a date-time ends
      the data: the row loop stops there with no row and no error. */
  lemma DataEnd(read: Reader, toks: seq<string>)
    requires WellTyped(read) && Separable(read) && |toks| > 0 && read(0, toks[|toks| - 1]).Err?
    ensures RowsFrom(read, toks, |toks|) == RowRun([], None, |toks|)
  {
    assert TextAt(toks, |toks|) == toks[|toks| - 1];
    RowsFromStep(read, toks, |toks|, RowAt(read, toks, |toks|));
  }

  /** The last row of a document that ends on its last field, and the end
      of the data right after it, where the row decoder reads the last
      token again as a date-time. */
  lemma LastBlock(read: Reader, toks: seq<string>, w: seq<string>, e: nat)
    requires WellTyped(read) && Separable(read) && |toks| >= FieldCount && toks[|toks| - FieldCount..] == w
    requires forall k :: 0 <= k < FieldCount ==> read(k, w[k]).Ok?
    requires read(0, toks[|toks| - 1]).Err? && e == |toks| + 1 - FieldCount
    ensures var run := RowsFrom(read, toks, e);
      run.failure == None && run.cursor == |toks| && |run.rows| == 1 &&
      forall k :: 0 <= k < FieldCount ==> read(k, w[k]) == Ok(FieldsOf(run.rows[0])[k])
  {
    var st := RowAt(read, toks, e);
    LastRow(read, toks, w, e);
    DataEnd(read, toks);
    RowsFromStep(read, toks, e, st);
    assert RowsFrom(read, toks, e).rows == [st.outcome.row];
  }

  /** The captions and then at least one more token: the header is
      accepted, and the row loop starts on the first token after it. */
  lemma HeaderThen(ts: seq<string>, body: seq<string>)
    requires ts == Captions + body && body != []
    ensures HeaderCheck(ts) == Accepted && ts[|Expected| - 1..] == body
  {
    assert ts[..|Captions|] == Captions;
    HeaderAccepted(ts);
  }

  /** The rows of all blocks but the last, then the last block's row. */
  lemma RowsOfSnoc(read: Reader, blocks: seq<seq<string>>, rows: seq<DataRow>, row: DataRow)
    requires GoodRows(read, blocks) && |blocks| > 0 && GoodRows(read, blocks[..|blocks| - 1])
    requires |rows| == |blocks| && rows[|blocks| - 1] == row
    requires RowsOf(read, blocks[..|blocks| - 1], rows[..|blocks| - 1])
    requires forall k :: 0 <= k < FieldCount ==> read(k, blocks[|blocks| - 1][k]) == Ok(FieldsOf(row)[k])
    ensures RowsOf(read, blocks, rows)
  {
    var n := |blocks|;
    forall i, k | 0 <= i < n - 1 && 0 <= k < FieldCount
      ensures read(k, blocks[i][k]) == Ok(FieldsOf(rows[i])[k])
    {
      assert blocks[i] == blocks[..n - 1][i] && rows[i] == rows[..n - 1][i];
    }
  }

  /** A document whose last token is the final field of its last row, with
      no ';' after it, as in a file that ends on its last screening code:
      when that code is not a date-time, Parse returns one row per block,
      in order, each field decoded from its own token. The row decoder
      reads the final token a second time, as the next row's date-time,
      and that refusal ends the data. */
  lemma DocumentEnd(read: Reader, data: string, blocks: seq<seq<string>>)
    requires WellTyped(read) && Separable(read) && GoodRows(read, blocks) && |blocks| > 0
    requires Tokens(data) == Captions + Flatten(blocks)
    requires read(0, Tokens(data)[|Tokens(data)| - 1]).Err?
    ensures ParseSpec(read, data).err == None && RowsOf(read, blocks, ParseSpec(read, data).rows)
  {
    var ts, n := Tokens(data), |blocks|;
    var init, w := blocks[..n - 1], blocks[n - 1];
    assert GoodRows(read, init);
    FlattenSnoc(blocks);
    assert ts == Captions + (Flatten(init) + w);
    HeaderThen(ts, Flatten(init) + w);
    var e := |ts| + 1 - FieldCount;
    RowsOfBlocks(read, ts, |Expected|, init, w);
    assert ts[|ts| - FieldCount..] == w;
    LastBlock(read, ts, w, e);
    var run, tail := RowsFrom(read, ts, |Expected|), RowsFrom(read, ts, e);
    assert run.rows[n - 1] == tail.rows[0] by {
      assert run.rows[n - 1..] == tail.rows;
    }
    RowsOfSnoc(read, blocks, run.rows, tail.rows[0]);
    ParseAccepted(read, data);
  }

  /** The first field of a row of texts that fails, when the fields
      before i decode and field i does not, is field i. */
  lemma FirstFailureAt(read: Reader, w: seq<string>, i: nat)
    requires |w| == FieldCount && i < FieldCount
    requires (forall k :: 0 <= k < i ==> read(k, w[k]).Ok?) && read(i, w[i]).Err?
    ensures FirstFailure(read, w, 0) == i
  {
    var f := FirstFailure(read, w, 0);
  }

  /** A row of twenty texts ahead of cursor b that fails at field i: the
      row loop stops there with that field's error, on the failing token or
      just past it. */
  lemma FailingRow(read: Reader, toks: seq<string>, b: nat, bad: seq<string>, i: nat)
    requires WellTyped(read) && Separable(read)
    requires 1 <= b && b - 1 + FieldCount <= |toks| && toks[b - 1..b - 1 + FieldCount] == bad
    requires 0 < i < FieldCount && (forall k :: 0 <= k < i ==> read(k, bad[k]).Ok?) && read(i, bad[i]).Err?
    ensures RowsFrom(read, toks, b) == RowRun([], Some(read(i, bad[i]).error), Advance(toks, b + i, Kind(i), false))
    ensures TextAt(toks, b + i) == bad[i]
  {
    RowTokensAhead(toks, b);
    RowFromTokens(read, toks, b);
    FirstFailureAt(read, bad, i);
  }

  /** The row loop over good rows followed by a row that fails at field
      i: it stops with that field's error, at a cursor whose text is the
      failing token for the decoders that stay put and the token after it
      for those that have already moved on. */
  lemma FailureAfterRows(read: Reader, ts: seq<string>, blocks: seq<seq<string>>, more: seq<string>, i: nat)
    requires WellTyped(read) && Separable(read) && GoodRows(read, blocks)
    requires |ts| >= |Captions| && ts[|Captions|..] == Flatten(blocks) + more && |more| >= FieldCount
    requires 0 < i < FieldCount && (forall k :: 0 <= k < i ==> read(k, more[k]).Ok?) && read(i, more[i]).Err?
    ensures var run := RowsFrom(read, ts, |Expected|);
      run.failure == Some(read(i, more[i]).error) && run.cursor <= |ts| &&
      (!AlwaysScans(Kind(i)) ==> TextAt(ts, run.cursor) == more[i]) &&
      (AlwaysScans(Kind(i)) && i + 1 < |more| ==> TextAt(ts, run.cursor) == more[i + 1]) &&
      (AlwaysScans(Kind(i)) && i + 1 == |more| ==> TextAt(ts, run.cursor) == more[i])
  {
    var e := |ts| + 1 - |more|;
    var run, tail := RowsFrom(read, ts, |Expected|), RowsFrom(read, ts, e);
    assert run.failure == tail.failure && run.cursor == tail.cursor by {
      RowsOfBlocks(read, ts, |Expected|, blocks, more);
    }
    TokensBehind(ts, |Captions|, Flatten(blocks), more, e);
    FailingTail(read, ts, more, e, i);
  }

  /** The row loop from cursor e, where the tokens more begin and their
      first row fails at field i. */
  lemma FailingTail(read: Reader, ts: seq<string>, more: seq<string>, e: nat, i: nat)
    requires WellTyped(read) && Separable(read)
    requires 1 <= e && e - 1 + FieldCount <= |ts| && ts[e - 1..] == more
    requires ts[e - 1..e - 1 + FieldCount] == more[..FieldCount]
    requires 0 < i < FieldCount && (forall k :: 0 <= k < i ==> read(k, more[k]).Ok?) && read(i, more[i]).Err?
    ensures var tail := RowsFrom(read, ts, e);
      tail.failure == Some(read(i, more[i]).error) && tail.cursor <= |ts| &&
      (!AlwaysScans(Kind(i)) ==> TextAt(ts, tail.cursor) == more[i]) &&
      (AlwaysScans(Kind(i)) && i + 1 < |more| ==> TextAt(ts, tail.cursor) == more[i + 1]) &&
      (AlwaysScans(Kind(i)) && i + 1 == |more| ==> TextAt(ts, tail.cursor) == more[i])
  {
    var tail := RowsFrom(read, ts, e);
    var bad := more[..FieldCount];
    assert tail == RowRun([], Some(read(i, more[i]).error), Advance(ts, e + i, Kind(i), false)) &&
      TextAt(ts, e + i) == more[i] by {
      FailingRow(read, ts, e, bad, i);
    }
    if !AlwaysScans(Kind(i)) {
      assert tail.cursor == e + i;
    } else if i + 1 < |more| {
      assert tail.cursor == e + i + 1 && TextAt(ts, e + i + 1) == ts[e + i];
      assert ts[e + i] == ts[e - 1..][i + 1];
    } else {
      assert tail.cursor == e + i;
    }
  }

  /** Tokens ending in more: e is the cursor of more's first token, and
      its first row of texts stands there. */
  lemma TokensBehind(ts: seq<string>, n: nat, f: seq<string>, more: seq<string>, e: int)
    requires n <= |ts| && ts[n..] == f + more && e == |ts| + 1 - |more| && |more| >= FieldCount
    ensures 1 <= e && e - 1 + FieldCount <= |ts| && ts[e - 1..] == more
    ensures ts[e - 1..e - 1 + FieldCount] == more[..FieldCount]
  {
    assert ts[e - 1..] == ts[n..][|f|..];
    assert ts[e - 1..e - 1 + FieldCount] == ts[e - 1..][..FieldCount];
  }

  /** A row that fails at field i after good rows: Parse returns no rows
      and that field's error. The date, number and required-string
      decoders stay on the offending token, so the error quotes it,
      trimmed; the enumeration decoders have already moved on, so the
      error quotes the token after it, or the offending token again when
      it is the last one. */
  lemma RowFailure(read: Reader, data: string, blocks: seq<seq<string>>, bad: seq<string>, rest: seq<string>, i: nat)
    requires WellTyped(read) && Separable(read) && GoodRows(read, blocks)
    requires Tokens(data) == Captions + Flatten(blocks) + (bad + rest) && |bad| == FieldCount
    requires 0 < i < FieldCount && (forall k :: 0 <= k < i ==> read(k, bad[k]).Ok?) && read(i, bad[i]).Err?
    ensures var r := ParseSpec(read, data);
      r.rows == [] && r.err.Some? && r.err.value.RowError? && r.err.value.cause == read(i, bad[i]).error &&
      (!AlwaysScans(Kind(i)) ==> r.err.value.token == Trim(bad[i])) &&
      (AlwaysScans(Kind(i)) && i + 1 < |bad + rest| ==> r.err.value.token == Trim((bad + rest)[i + 1])) &&
      (AlwaysScans(Kind(i)) && i + 1 == |bad + rest| ==> r.err.value.token == Trim(bad[i]))
  {
    var ts, more := Tokens(data), bad + rest;
    assert HeaderCheck(ts) == Accepted && ts[|Captions|..] == Flatten(blocks) + more by {
      assert ts[..|Captions|] == Captions;
      HeaderAccepted(ts);
    }
    assert forall k :: 0 <= k <= i ==> more[k] == bad[k];
    FailureAfterRows(read, ts, blocks, more, i);
    ParseAccepted(read, data);
  }

  /** A document laid out as the grammar comment draws it, with ENDLINE
      and no ';' between a row's screening code and the next row's
      date-time: the two fall into one token, which the screening decoder
      refuses. Parse returns no rows and that field's error, quoting the
      token after it when there is one. */
  lemma GrammarLayout(lib: Builtins, data: string, row: seq<string>, v: ScreeningResult, brk: string, next: string, rest: seq<string>)
    requires |row| == FieldCount - 1 && forall k :: 0 <= k < FieldCount - 1 ==> DecodeField(lib, Kind(k), row[k]).Ok?
    requires AllCut(brk) && next != [] && !IsCut(next[0])
    requires Tokens(data) == Captions + row + [ScreeningCode(v) + brk + next] + rest
    ensures var r := ParseSpec(FieldReader(lib), data);
      r.rows == [] && r.err.Some? && r.err.value.RowError? &&
      r.err.value.cause == BadScreeningResult(ScreeningCode(v) + brk + next) &&
      (rest != [] ==> r.err.value.token == Trim(rest[0]))
  {
    var read := FieldReader(lib);
    var bad := row + [ScreeningCode(v) + brk + next];
    CodeRunsOn(v, brk, next);
    assert forall k :: 0 <= k < FieldCount - 1 ==> read(k, bad[k]).Ok? by {
      assert forall k :: 0 <= k < FieldCount - 1 ==> bad[k] == row[k];
    }
    assert read(FieldCount - 1, bad[FieldCount - 1]).error == BadScreeningResult(bad[FieldCount - 1]);
    assert Tokens(data) == Captions + Flatten([]) + (bad + rest);
    RowFailure(read, data, [], bad, rest, FieldCount - 1);
    if rest != [] {
      assert (bad + rest)[FieldCount] == rest[0];
    }
  }

  /** Parse refuses the header, with no rows, exactly when the input does
      not start with the twenty captions followed by a further token. */
  lemma HeaderRefused(read: Reader, data: string)
    requires WellTyped(read) && Separable(read)
    ensures var r, toks := ParseSpec(read, data), Tokens(data);
      (r.err.Some? && r.err.value.HeaderError?) <==> !(|toks| > |Captions| && toks[..|Captions|] == Captions)
  {
    HeaderAccepted(Tokens(data));
  }

  /** An empty input is refused at once: its only token, the empty one,
      stands where the first caption should be, on line 1 at column 1. */
  lemma EmptyInput(read: Reader)
    requires WellTyped(read) && Separable(read)
    ensures ParseSpec(read, "") == Parsed([], Some(HeaderError(Mismatch("", "Date of measurement"), Span(1, 1, 1))))
  {
    assert Tokens("") == [""];
    assert HeaderFrom([""], Expected, 1) == Rejected(Mismatch("", "Date of measurement"), 1);
    assert HeaderCheck([""]) == Rejected(Mismatch("", "Date of measurement"), 1);
    assert Offset("", 1) == 0;
  }
}
