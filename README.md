# Vision-screening export parser, modelled in Dafny

The `parser` package reads the semicolon-separated export of a vision
screening device. A document is a header of twenty fixed column captions,
then data rows of twenty fields each. Each row holds a measurement
date-time, a primary key, names, a date of birth, ten numeric optical
measurements, a laterality tag (`Monocular`) and a screening verdict
(`ScreeningResult`). `Parse` returns every row in order, or no rows and
one error: a refused header, a field that does not decode, or tokens left
over after the data. Each error is positioned by the `line` / `columnEnd` /
`tokenSize` counters that the split closure keeps.

The model follows the source file by file.

- `tokenizer.dfy` (module `Tokenizer`) covers the split closure and the
  `bufio.Scanner` it drives.
  - `Tokens` gives the tokens of a fully buffered input.
  - `Track` gives the three counters after a prefix of the input.
  - `Offset` gives the bytes consumed after n tokens.
  - The class `Scanner` keeps the closure's counters as fields. Its
    `Split` method is the closure's byte loop, proved against `Track` and
    `SemiIndex`. `Scan` is proved to deliver `Tokens(data)` one at a time.
- `fields.dfy` (module `Fields`) covers the value types and the text-level
  part of every decoder: `trim`, the full-date layout, the two enumerations
  with their `String` methods, and the error each decoder reports.
- `decoders.dfy` (module `Decoders`) holds the seven decoders as methods on
  the scanner. Each advances the cursor exactly as the source does.
  `DecodeField` and `Advance` describe the same step as values.
- `header.dfy` (module `Header`) covers `parseHeader` and the list it walks.
- `rows.dfy` (module `Rows`) covers `parseDataRow` and the `DataRow`
  record. `RowAt` states the row decoder on values, over any field reader.
  The row loop ends because no text is both a date of birth and a
  monocular code (`Separable`, required by `Rows.RowProgress` and
  `Document.RowsFrom`). Otherwise the row decoder could build a row from
  the final token alone, without moving, and the loop would not end. The decoders of `parseDataRow` meet this
  (`Rows.DateNotMonocular`).
- `document.dfy` (module `Document`) covers `Parse`: header, row loop and
  trailing-token check.
  - `ParseSpec` is the whole of `Parse` as a function of the input.
  - The method `Parse` is proved equal to `ParseSpec`.
  - The lemmas describe `ParseSpec` on documents of good rows, on a failing
    row, on a refused header and on the empty input.

`time.Parse` with the RFC 3339 layout and `strconv.ParseFloat` are library
routines. They arrive as the two functions of the `Builtins` parameter,
whose results are the opaque types `Instant` and `Float`. The full-date
layout `2006-01-02` is modelled concretely: four, two and two digits, month
1 to 12, and day up to the month's length with Gregorian leap years.

Text is a byte string: each `char` holds one byte, so `°` is the two chars
`\U{C2}\U{B0}`, and the counters count bytes as the source does.

### Where the model follows the code rather than the format description

- **Truncated last row.** A last row cut short still decodes if its
  remaining fields accept the final token. After the final token,
  `Scan` returns false and leaves the text alone, so every later field
  reads that same token again. The format description calls a row that
  runs out of tokens an error. `Rows.TruncatedRow` shows such a row.
- **End of data.** Any first field that is not a date-time ends the data,
  whether or not the input is exhausted. `s.Err()` is nil for a fully
  buffered input.
- **Tokens after the data.** The token that ends the data is consumed by
  `parseDateTime`, which always calls `Scan`. The following `s.Scan()`
  then looks one token further. So when at most one token follows the
  terminating token, the document is accepted and that token is ignored.
  Only two or more trailing tokens raise the trailing-tokens error.
  `Document.DocumentTokens` states both cases. A document that ends on
  its last screening code, with no ';' after it, is accepted too: the
  next row decoder reads that code again as a date-time, and the refusal
  ends the data (`Document.DocumentEnd`).
- **Enumeration errors.** The two enumeration decoders call `Scan` before
  they check the token. A row error raised by them therefore reports the
  token after the offending one, unless the offending token is the last
  one. `Scan` then returns false and keeps its text, so the error quotes
  the offending token itself. `Document.RowFailure` states which token
  each kind of decoder reports.
- **Error columns.** `tokenSize` counts a token's bytes across newlines,
  but `columnEnd` restarts at each newline. When a token spans a line
  break, the start column `columnEnd - tokenSize` is 0 or negative. The
  first field of each row after `;\r\n` is such a token.
  `Document.TokenSpanFrom` states when the start stays at 1 or more.
- **Row breaks.** The grammar comment ends a data row with its screening
  code and `ENDLINE`, with no ';' in between. The split closure cuts only
  at ';', so that code and the next row's date-time fall into one token,
  such as `0\r\n2020-…`. `trim` removes blanks only at a token's edges,
  so the line break stays inside and the screening decoder refuses the
  token. A document laid out exactly as the grammar shows is therefore
  refused at its first row's screening field whenever a second row
  follows (`Fields.CodeRunsOn`, `Document.GrammarLayout`). Only rows that
  end with ';' before the line break parse, and those are the documents
  `Document.DocumentTokens` and `Document.RowsOfBlocks` describe.
- **Header.** The header check compares untrimmed texts. The first of them
  is the empty text the scanner holds before its first `Scan`.

### Definitions the contracts are stated in

- `Tokenizer.Tokens`: the tokens the split closure delivers from a fully
  buffered input (parser/parser.go:426-442).
- `Tokenizer.Track`: the `line`, `columnEnd` and `tokenSize` counters
  after a prefix of the input (parser/parser.go:423-436).
- `Fields.Trim`: `trim` (parser/parser.go:153-155).
- `Fields.DateString`: `Date.String` (parser/parser.go:18-20).
- `Fields.MonocularName` and `Fields.ScreeningName`: the `String` methods
  of the two enumerations (parser/parser.go:22-62).
- `Header.HeaderCheck`: the verdict of `parseHeader` on a token list
  (parser/parser.go:157-192).
- `Rows.Kind`: the decoder `parseDataRow` calls for each field, in grammar
  order (parser/parser.go:273-394).

## Model

| member | source | states |
|---|---|---|
| Tokenizer.SemiIndexFirst | parser/parser.go:427-431 | the split closure cuts at the first ';': no ';' comes before the cut, and the cut is a ';' unless it is the end of the chunk |
| Tokenizer.TokensNoSemi | parser/parser.go:426-442 | no delivered token contains a ';' |
| Tokenizer.JoinTokens | parser/parser.go:426-442 | the tokens joined with ';' give back the input byte for byte, so no byte is lost or duplicated |
| Tokenizer.TokensJoin | parser/parser.go:426-442 | splitting a ';'-join of ';'-free tokens returns exactly those tokens |
| Tokenizer.TokenCount | parser/parser.go:426-442 | the scanner delivers one token more than the input has ';', the final remainder included even when empty |
| Tokenizer.TrackLine | parser/parser.go:423-433 | `line` is one plus the number of newlines consumed |
| Tokenizer.TrackColumn | parser/parser.go:424-434 | `columnEnd` is one plus the number of bytes consumed since the last newline |
| Tokenizer.TrackTokenSize | parser/parser.go:425-435 | `tokenSize` is one plus the length of the last ';'-terminated token, or 0 when a newline followed it or no ';' came yet |
| Tokenizer.LineMonotone | parser/parser.go:432-433 | the line counter never decreases as more bytes are consumed |
| Tokenizer.SinceSemiLast | parser/parser.go:427-431 | the index of a ';' within its chunk counts the bytes since the previous ';' |
| Tokenizer.LineStartLast | parser/parser.go:432-435 | the column restarts just after the last newline, and no newline follows that point |
| Tokenizer.OffsetTokens | parser/parser.go:426-442 | after n tokens the unconsumed input splits into exactly the remaining tokens |
| Tokenizer.OffsetBoundary | parser/parser.go:431 | before the final token, the consumed bytes end with the ';' that closed the last token |
| Tokenizer.NextToken | parser/parser.go:426-442 | the next token is the bytes from the current offset up to the next ';'; it is the final one exactly when no ';' remains, and the offset moves past it and its ';' |
| Tokenizer.OffsetEnd | parser/parser.go:438-441 | once every token is delivered, every byte has been consumed |
| Tokenizer.TrackByte | parser/parser.go:428-436 | one loop step of the closure updates the counters as `Track` of a prefix one byte longer |
| Tokenizer.ScanStep | parser/parser.go:426-442 | one split result moves the scanner from n to n + 1 delivered tokens, with the text, offset and counters of that state, and the line counter does not go back |
| Tokenizer.Scanner.constructor | parser/parser.go:421-425 | a new scanner has delivered nothing, its text is empty, and the counters start at line 1, column 1, token size 0 |
| Tokenizer.Scanner.Split | parser/parser.go:426-442 | the closure returns the bytes before the first ';' with advance past it, or the whole chunk as the final token; the counters become `Track` of the input up to that point |
| Tokenizer.Scanner.Scan | parser/parser.go:421-442 | `Scan` delivers the next of `Tokens(data)` and returns true, or returns false with nothing changed once the final token is out; the scanner invariant is kept and the line never decreases |
| Fields.TrimShape | parser/parser.go:153-155 | `trim` keeps the infix between the longest prefix and the longest suffix of space, CR and LF bytes |
| Fields.TrimEmpty | parser/parser.go:153-155 | `trim` gives the empty text exactly when every byte is a space, CR or LF |
| Fields.TrimIdempotent | parser/parser.go:153-155 | trimming twice is trimming once |
| Fields.DateTimeOf | parser/parser.go:194-198 | the date-time decoder succeeds exactly when `time.Parse` accepts the trimmed text, and otherwise reports the RFC 3339 layout and the trimmed text |
| Fields.NumberOf | parser/parser.go:214-222 | the number decoder succeeds exactly when `strconv.ParseFloat` accepts the trimmed text, and otherwise reports the trimmed text |
| Fields.RequiredOf | parser/parser.go:224-231 | the required-string decoder returns the untrimmed token exactly when it is not all blanks, and otherwise reports the field's name |
| Fields.DateOf | parser/parser.go:200-212 | a decoded date of birth is a valid calendar date; a failure reports the layout and the trimmed text |
| Fields.DateRoundTrip | parser/parser.go:200-212 | every valid date spelled YYYY-MM-DD decodes back to itself |
| Fields.DateSpelling | parser/parser.go:200-212 | a decoded date determines its trimmed text: the layout admits one spelling per date |
| Fields.DateStringPadded | parser/parser.go:18-20 | `Date.String` equals the wire spelling when year, month and day need no zero padding |
| Fields.DateStringShort | parser/parser.go:18-20 | whenever padding would be needed (a year below 1000, a one-digit month or a one-digit day), `Date.String` does not decode as a full-date; with `DateStringPadded` this settles exactly when `String` inverts the decoder |
| Fields.MonocularOf | parser/parser.go:239-252 | the monocular switch accepts exactly the trimmed codes 1, 2 and 3, maps each to its tag, and otherwise reports the raw token |
| Fields.ScreeningResultOf | parser/parser.go:254-267 | the screening switch accepts exactly the trimmed codes 0, 1 and 2, maps each to its verdict, and otherwise reports the raw token |
| Fields.EnumRoundTrip | parser/parser.go:239-267 | each tag's wire code decodes back to that tag, also with blanks around it |
| Fields.TrimPadded | parser/parser.go:153-155 | trimming removes exactly the blanks put around any non-empty text whose first and last bytes are not blanks |
| Fields.TrimRightKeeps | parser/parser.go:153-155 | trimming keeps every byte up to the last byte that is not a blank |
| Fields.CodeRunsOn | parser/parser.go:254-267 | a screening code followed by a line break and a non-blank byte, with no ';' between, is refused, and the error quotes the whole token |
| Fields.NamesDistinct | parser/parser.go:22-62 | the `String` names and the iota values of each enumeration tell its constants apart |
| Fields.NamesNotCodes | parser/parser.go:22-62 | what `Monocular.String` and `ScreeningResult.String` print is refused by the decoders, with or without blanks around it |
| Decoders.DecodeField | parser/parser.go:194-267 | for each kind of field: the decoded value has that field's type, an optional string is the raw token, a required string succeeds exactly when not blank, and an enum succeeds exactly on its codes |
| Decoders.Advance | parser/parser.go:194-267 | a decoder moves the cursor by one token on success and, for the date-time, optional and enumeration decoders, also on failure; otherwise it stays |
| Decoders.ParseDateTime | parser/parser.go:194-198 | `parseDateTime` returns `DateTimeOf` of the current text and always calls `Scan` |
| Decoders.ParseDate | parser/parser.go:200-212 | `parseDate` returns `DateOf` of the current text and calls `Scan` only on success |
| Decoders.ParseNumber | parser/parser.go:214-222 | `parseNumber` returns `NumberOf` of the current text and calls `Scan` only on success |
| Decoders.ParseUTF8 | parser/parser.go:224-231 | `parseUTF8` returns the raw text unless it trims to nothing, and calls `Scan` only on success |
| Decoders.ParseOptionalUTF8 | parser/parser.go:233-237 | `parseOptionalUTF8` returns the raw text and always calls `Scan` |
| Decoders.ParseMonocular | parser/parser.go:239-252 | `parseMonocular` calls `Scan` first, then returns `MonocularOf` of the text it took |
| Decoders.ParseScreeningResult | parser/parser.go:254-267 | `parseScreeningResult` calls `Scan` first, then returns `ScreeningResultOf` of the text it took |
| Header.HeaderFrom | parser/parser.go:181-190 | a refusal of the header names an entry of the expected list at or after the one it started from |
| Header.ParseHeader | parser/parser.go:157-192 | `parseHeader` returns no error exactly when `HeaderCheck` accepts the tokens, leaving 21 tokens delivered; otherwise it returns the fault at the cursor `HeaderCheck` names |
| Header.HeaderFromAccepts | parser/parser.go:181-191 | the walk from entry j is accepted exactly when every later expected text matches and a token is left to spare |
| Header.HeaderAccepted | parser/parser.go:157-192 | the header is accepted exactly when the first twenty tokens are the captions, untrimmed, and a twenty-first token exists |
| Header.HeaderFromRejected | parser/parser.go:181-190 | a refusal names the first entry that went wrong, with every earlier entry matched |
| Header.HeaderRejected | parser/parser.go:183-189 | a mismatch quotes the token as it is and the caption it should have been, after matching captions; running out of tokens means the input is a prefix of the captions, possibly all twenty with nothing after them |
| Rows.AssembleFields | parser/parser.go:396-417 | building the `DataRow` from the decoded fields and reading its fields back are inverse: every field lands in its own member |
| Rows.FieldReader | parser/parser.go:273-394 | the decoders `parseDataRow` calls, in grammar order, produce well-typed values, and no text is both a date and a monocular code |
| Rows.FieldsFrom | parser/parser.go:282-394 | decoding the fields from j on yields twenty well-typed values extending those already decoded, or stops at a field at or after j; the cursor only moves forward |
| Rows.RowAt | parser/parser.go:269-280 | the row decoder yields no row exactly when the first field is not a date-time, and then moves one token on |
| Rows.FirstFailure | parser/parser.go:282-394 | the row stops at the first field whose text does not decode |
| Rows.ParseField | parser/parser.go:273-394 | each field's decoder call gives `DecodeField` of the current text and advances the cursor as `Advance` says |
| Rows.ParseDataRow | parser/parser.go:269-418 | `parseDataRow` returns the outcome of `RowAt` at its starting cursor and leaves the cursor `RowAt` gives |
| Rows.FieldsFromTokens | parser/parser.go:282-394 | the first field whose text does not decode stops the row with its error; otherwise every later value is its text's decoding |
| Rows.RowFromTokens | parser/parser.go:269-418 | the row decoder against the twenty texts its fields read: no row, the first failing field's error with the cursor that decoder leaves, or the row whose fields decode those texts |
| Rows.RowTokensAhead | parser/parser.go:269-418 | with a whole row of tokens ahead, the fields read the next twenty tokens in order and the row ends just after them |
| Rows.StuckFields | parser/parser.go:194-267 | after the final token every remaining field reads that same token and the cursor stays put |
| Rows.DateNotMonocular | parser/parser.go:200-252 | no text decodes both as a date and as a monocular code |
| Rows.RowProgress | parser/parser.go:451-460 | every row the decoder delivers moves the cursor forward within the tokens, so the row loop ends |
| Rows.ShortRow | parser/parser.go:269-418 | a row whose eighth field is the last token decodes when every later field accepts that token, and the cursor stays on it |
| Rows.TruncatedRow | parser/parser.go:269-418 | a last row cut short after its contact field, with final token "1", decodes to contact "1", ten numbers that are `strconv.ParseFloat`'s reading of "1", eye OD and verdict REFER |
| Document.SpanAt | parser/parser.go:446-455 | the reported line is one plus the newlines consumed, and the column range ends one past the bytes consumed on that line |
| Document.TokenSpanFrom | parser/parser.go:427-435 | after the ';' that closes a token, the span starts at `columnEnd - tokenSize`, one plus the bytes on the current line minus the token's length; it is 1 or more exactly when the token holds no newline |
| Document.RowsFrom | parser/parser.go:451-460 | the row loop ends within the tokens, never before its starting cursor |
| Document.ParseSpec | parser/parser.go:420-471 | `Parse` is all or nothing: an error comes with no rows |
| Document.RowsFromStep | parser/parser.go:451-460 | one iteration of the row loop: stop with no error, stop with the row's error, or append the row and go on from the cursor it left |
| Document.RowsGo | parser/parser.go:456-459 | appending a row keeps the loop invariant: rows collected so far, then the run from the new cursor |
| Document.RowsStop | parser/parser.go:452-458 | a failing row or the end of the data leaves exactly the rows collected so far |
| Document.ParseRows | parser/parser.go:451-460 | the row loop collects exactly the rows of `RowsFrom` and stops with its failure at its cursor |
| Document.Drain | parser/parser.go:464-466 | scanning until `Scan` fails leaves every token delivered |
| Document.Parse | parser/parser.go:420-471 | `Parse` returns exactly `ParseSpec` of its input |
| Document.BlockRow | parser/parser.go:269-418 | twenty good tokens ahead of the cursor decode to one row whose fields are their decodings, consuming exactly them |
| Document.RowsOfPrepend | parser/parser.go:459 | the rows of blocks are the first block's row followed by the rows of the others |
| Document.RowsOfBlocks | parser/parser.go:451-460 | over rows of good tokens followed by other tokens, the loop decodes one row per block, in order, field by field, then continues as it would from the first other token |
| Document.TrailingSpan | parser/parser.go:462-467 | once every token is out, the span reported is that of the counters at the end of the input |
| Document.ParseAccepted | parser/parser.go:451-470 | with an accepted header, `Parse` returns the row error at its cursor, or the trailing-tokens error at the end of the input, or the rows |
| Document.DocumentTokens | parser/parser.go:420-471 | captions, good rows and then a non-date-time token followed by at most one token parse to one row per block in order; with two or more tokens after it, Parse refuses and quotes the last token at the final counters |
| Document.DocumentEnd | parser/parser.go:420-471 | captions and good rows, with the last row's last field as the final token (no ';' after it) and that token not a date-time: Parse returns one row per block, in order, each field decoded from its own token, and no error |
| Document.FirstFailureAt | parser/parser.go:282-394 | when the fields before i decode and field i does not, the first failing field is i |
| Document.FailingRow | parser/parser.go:452-455 | a row failing at field i stops the loop with that field's error, on the failing token or just past it |
| Document.FailureAfterRows | parser/parser.go:452-455 | good rows followed by a row failing at field i: the loop stops with that error, on the failing token for decoders that stay put and on the next token for those that scan first, or the failing token again when it is the last |
| Document.FailingTail | parser/parser.go:452-455 | a run starting at a row that fails at field i stops with that error at the cursor its decoder leaves |
| Document.RowFailure | parser/parser.go:452-455 | a failing row makes `Parse` return no rows and the field's error; the quoted token is the offending one, trimmed, or, for the enumeration decoders, the token after it, or the offending one again when it is the last token |
| Document.GrammarLayout | parser/parser.go:420-471 | a document whose first row's screening code runs on into the line break and the next row's date-time, as the grammar comment draws it, gets no rows and that field's error, quoting the token after it when there is one |
| Document.HeaderRefused | parser/parser.go:446-449 | `Parse` refuses the header exactly when the input does not start with the twenty captions followed by a further token |
| Document.EmptyInput | parser/parser.go:446-449 | the empty input is refused at once: the empty text stands where "Date of measurement" should be, on line 1 at columns 1-1 |

## Left out

- Error message text is not modelled. Errors are datatypes carrying what
  each message quotes: the fault, the span, and the token. This leaves out
  the `fmt.Errorf` formatting, including the trailing-tokens message that
  passes four arguments to five verbs and spells "reamin".
- `Parse` takes the whole input as a byte string, and no reader error
  occurs. Two things follow.
  - `s.Err()` is always nil, so the branch of `parseDataRow` that returns
    the first field's error (parser/parser.go:279) is never taken.
  - bufio's buffering is not modelled: the model's split closure always
    sees every unconsumed byte. The real `bufio.Scanner` hands the closure
    only what it has read so far: one read of at most 4096 bytes at first.
    It asks for more only once that chunk is used up. The closure returns
    the rest of a chunk that has no ';' as the final token, even when the
    input is not at its end. So any input longer than the first read, or
    delivered in short reads, is cut at the edge of the buffered bytes,
    unless that edge falls just after a ';'. The partial text becomes the
    final token and the rest of the input is never read. When that text
    falls on a row's first field, the document is accepted with the rows
    before it and the rest is dropped. The model does not capture this.
- The `Printf` of each remaining token before the trailing-tokens error
  writes to standard output. It is not modelled; only the scanning is.
- `time.Parse` (RFC 3339) and `strconv.ParseFloat` are opaque functions.
  Time zones, float rounding and their error details are not modelled.
  `Rows.TruncatedRow` assumes that "1" parses as a float and that
  `time.Parse` accepts the row's first token, trimmed.
- `DataRow.String` is left out. It prints all twenty fields, but the
  float `%v` and `time.Format` it relies on are opaque here, and its
  output is not meant to be parsed back: the enumeration names it prints
  are not wire codes (`Fields.NamesNotCodes`). `Date.String` is modelled
  as `DateString`. `Monocular.String` and
  `ScreeningResult.String` are modelled as `MonocularName` and
  `ScreeningName`. Their "NOT KNOWN" default cannot arise, because the
  enumerations are datatypes with exactly the three constants the decoders
  produce.
- Rows.ParseDataRow: the twenty straight-line decoder calls are modelled
  as a loop over the grammar, calling `ParseField` with the kind of each
  field (`Rows.Kind`). Calls, order, stop on first error and returned
  values are the same as the source's.
- The grammar comment's `ENDLINE` between rows plays no part in the code.
  A newline is just a byte of a token, and `trim` removes it only at the
  token's edges, so the model has no rows-by-lines structure. A line
  break inside a token stays there (see "Row breaks" above).
- `server/server.go` and `cmd/main.go` are not part of this model: they
  only call `Parse` and present its result.
