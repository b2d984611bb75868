/** The row decoder: twenty fields in the order of the data grammar, each
    read by its decoder from the scanner's current text. A row whose first
    field is not a date-time is not a row at all but the end of the data;
    a failure in any later field is the row's error. */
module Rows {
  import opened Tokenizer
  import opened Fields
  import opened Decoders

  /** One screening record. */
  datatype DataRow = DataRow(
    dateOfMeasurement: Instant,
    primaryKey: string,
    familyName: string,
    firstName: string,
    dateOfBirth: Date,
    id: string,
    location: string,
    contact: string,
    sphereOd: Float,
    cylinderOd: Float,
    axisOd: Float,
    pupilSizeOd: Float,
    sphereOs: Float,
    cylinderOs: Float,
    axisOs: Float,
    pupilSizeOs: Float,
    gazeAsymmetryOs: Float,
    pupilDistance: Float,
    monocular: Monocular,
    screeningResult: ScreeningResult)

  /** The number of fields in a row. */
  const FieldCount := 20

  /** The decoder of field j of a row, in the order the row decoder reads
      them: the measurement date-time, the primary key, family and first
      name, the date of birth, ID, location and contact (all read with the
      optional-string decoder), ten numbers, the monocular tag and, from
      field 19 on, the screening result. */
  function Kind(j: nat): FieldKind
  {
    if j == 0 then DateTimeField
    else if j == 1 then RequiredField("primary key")
    else if j == 4 then DateField
    else if j < 8 then OptionalField
    else if j < 18 then NumberField
    else if j == 18 then MonocularField
    else ScreeningField
  }

  /** Decoded values that fit the grammar field by field. */
  predicate FitsGrammar(vs: seq<FieldValue>)
  {
    |vs| == FieldCount && forall i :: 0 <= i < |vs| ==> Typed(Kind(i), vs[i])
  }

  /** The record built from its decoded fields. */
  function Assemble(vs: seq<FieldValue>): DataRow
    requires FitsGrammar(vs)
  {
    assert Typed(Kind(4), vs[4]);
    DataRow(vs[0].instant, vs[1].text, vs[2].text, vs[3].text, vs[4].date, vs[5].text, vs[6].text,
      vs[7].text, vs[8].number, vs[9].number, vs[10].number, vs[11].number, vs[12].number,
      vs[13].number, vs[14].number, vs[15].number, vs[16].number, vs[17].number, vs[18].eye,
      vs[19].verdict)
  }

  /** The fields of a record, in grammar order. */
  function FieldsOf(r: DataRow): seq<FieldValue>
  {
    [Stamp(r.dateOfMeasurement), Text(r.primaryKey), Text(r.familyName), Text(r.firstName),
     Day(r.dateOfBirth), Text(r.id), Text(r.location), Text(r.contact), Number(r.sphereOd),
     Number(r.cylinderOd), Number(r.axisOd), Number(r.pupilSizeOd), Number(r.sphereOs),
     Number(r.cylinderOs), Number(r.axisOs), Number(r.pupilSizeOs), Number(r.gazeAsymmetryOs),
     Number(r.pupilDistance), Eye(r.monocular), Verdict(r.screeningResult)]
  }

  /** Every field of the record lands in its own member, in grammar order:
      assembling the decoded fields and reading them back are inverse. */
  lemma AssembleFields(vs: seq<FieldValue>)
    requires FitsGrammar(vs)
    ensures FieldsOf(Assemble(vs)) == vs
  {
    forall i | 0 <= i < |vs|
      ensures FieldsOf(Assemble(vs))[i] == vs[i]
    {
      assert Typed(Kind(i), vs[i]);
    }
  }

  // ---------------------------------------------------------------------
  // The row decoder as values

  /** How a row's fields are read: field j's decoder applied to a text. The
      row decoder's properties that do not depend on what the decoders
      accept are stated for any reader. */
  type Reader = (nat, string) -> Result<FieldValue, FieldError>

  /** Every value the reader produces has its field's shape. */
  ghost predicate WellTyped(read: Reader)
  {
    forall j: nat, t: string :: j < FieldCount && read(j, t).Ok? ==> Typed(Kind(j), read(j, t).value)
  }

  /** No text is accepted both as the date of birth and as the monocular
      tag. */
  ghost predicate Separable(read: Reader)
  {
    forall t: string :: !(read(4, t).Ok? && read(18, t).Ok?)
  }

  /** The decoders parseDataRow calls. */
  function FieldReader(lib: Builtins): (read: Reader)
    ensures WellTyped(read) && Separable(read)
    ensures forall j: nat, t: string :: read(j, t) == DecodeField(lib, Kind(j), t)
  {
    DateNotMonocular(lib);
    (j: nat, t: string) => DecodeField(lib, Kind(j), t)
  }

  /** Decoding fields j.. of a row: all of them, with the cursor after the
      last, or the first error, the field that raised it and the cursor the
      failing decoder left behind. */
  datatype Decoding = Decoded(values: seq<FieldValue>, cursor: nat) | Stopped(error: FieldError, field: nat, cursor: nat)

  /** The first j fields of the grammar, decoded. */
  predicate FitsPrefix(acc: seq<FieldValue>, j: nat)
  {
    j <= FieldCount && |acc| == j && forall i :: 0 <= i < j ==> Typed(Kind(i), acc[i])
  }

  /** Fields j.. of the grammar read from cursor c on, the first j fields
      having been decoded to acc. */
  function FieldsFrom(read: Reader, toks: seq<string>, j: nat, c: nat, acc: seq<FieldValue>): (d: Decoding)
    requires WellTyped(read) && FitsPrefix(acc, j)
    ensures c <= d.cursor && (c <= |toks| ==> d.cursor <= |toks|)
    ensures d.Decoded? ==> FitsGrammar(d.values) && d.values[..j] == acc
    ensures d.Stopped? ==> j <= d.field < FieldCount
    decreases FieldCount - j
  {
    if j == FieldCount then
      assert acc[..j] == acc;
      Decoded(acc, c)
    else
      match read(j, TextAt(toks, c))
      case Err(e) => Stopped(e, j, Advance(toks, c, Kind(j), false))
      case Ok(v) =>
        var d := FieldsFrom(read, toks, j + 1, Next(toks, c), acc + [v]);
        assert d.Decoded? ==> d.values[..j] == d.values[..j + 1][..j];
        d
  }

  /** What parseDataRow returns: no row (the end of the data), a row, or
      an error. */
  datatype RowOutcome = NoRow | Row(row: DataRow) | Failed(error: FieldError)

  /** The outcome of the row decoder together with the cursor it leaves. */
  datatype RowStep = RowStep(outcome: RowOutcome, cursor: nat)

  /** The row outcome that decoding the fields after the first ends in. */
  function Finish(d: Decoding): RowStep
    requires d.Decoded? ==> FitsGrammar(d.values)
  {
    match d
    case Decoded(vs, c) => RowStep(Row(Assemble(vs)), c)
    case Stopped(e, _, c) => RowStep(Failed(e), c)
  }

  /** The row decoder at cursor c. */
  function RowAt(read: Reader, toks: seq<string>, c: nat): (st: RowStep)
    requires WellTyped(read)
    ensures c <= |toks| ==> st.cursor <= |toks|
    ensures st.outcome.NoRow? <==> read(0, TextAt(toks, c)).Err?
    ensures st.outcome.NoRow? ==> st.cursor == Next(toks, c)
    ensures st.cursor >= Next(toks, c)
  {
    match read(0, TextAt(toks, c))
    case Err(_) => RowStep(NoRow, Next(toks, c))
    case Ok(v) => Finish(FieldsFrom(read, toks, 1, Next(toks, c), [v]))
  }

  // ---------------------------------------------------------------------
  // The row decoder

  /** The decoder parseDataRow calls for a field of kind k. */
  method ParseField(s: Scanner, lib: Builtins, k: FieldKind) returns (r: Result<FieldValue, FieldError>)
    requires s.Valid()
    modifies s
    ensures s.Valid() && s.idx == Advance(s.Toks(), old(s.idx), k, r.Ok?)
    ensures r == DecodeField(lib, k, old(s.text))
  {
    match k
    case DateTimeField =>
      var x := ParseDateTime(s, lib);
      r := if x.Ok? then Ok(Stamp(x.value)) else Err(x.error);
    case RequiredField(name) =>
      var x := ParseUTF8(s, name);
      r := if x.Ok? then Ok(Text(x.value)) else Err(x.error);
    case OptionalField =>
      var x := ParseOptionalUTF8(s);
      r := Ok(Text(x));
    case DateField =>
      var x := ParseDate(s);
      r := if x.Ok? then Ok(Day(x.value)) else Err(x.error);
    case NumberField =>
      var x := ParseNumber(s, lib);
      r := if x.Ok? then Ok(Number(x.value)) else Err(x.error);
    case MonocularField =>
      var x := ParseMonocular(s);
      r := if x.Ok? then Ok(Eye(x.value)) else Err(x.error);
    case ScreeningField =>
      var x := ParseScreeningResult(s);
      r := if x.Ok? then Ok(Verdict(x.value)) else Err(x.error);
  }

  /** parseDataRow: the twenty decoders in grammar order, stopping at the
      first error. The scanner never reports a read error here, so a first
      field that is not a date-time always ends the data. */
  method ParseDataRow(s: Scanner, lib: Builtins) returns (outcome: RowOutcome)
    requires s.Valid()
    modifies s
    ensures s.Valid()
    ensures RowAt(FieldReader(lib), s.Toks(), old(s.idx)) == RowStep(outcome, s.idx)
  {
    ghost var read, toks, c0 := FieldReader(lib), s.Toks(), s.idx;
    var first := ParseField(s, lib, Kind(0));
    if first.Err? {
      return NoRow;
    }
    var values := [first.value];
    for j := 1 to FieldCount
      invariant s.Valid() && s.Toks() == toks && FitsPrefix(values, j)
      invariant RowAt(read, toks, c0) == Finish(FieldsFrom(read, toks, j, s.idx, values))
    {
      var field := ParseField(s, lib, Kind(j));
      if field.Err? {
        return Failed(field.error);
      }
      values := values + [field.value];
    }
    return Row(Assemble(values));
  }

  // ---------------------------------------------------------------------
  // The row decoder over a whole row of tokens

  /** The cursor field k of a row that starts at cursor b is read at, when
      every field before it decoded: one token further per field, until the
      scanner has delivered its last token and stays there. */
  function FieldCursor(toks: seq<string>, b: nat, k: nat): nat
  {
    if b + k <= |toks| then b + k else |toks|
  }

  /** The texts the twenty fields of a row starting at cursor b read, when
      every field before each of them decoded. */
  function RowTokens(toks: seq<string>, b: nat): (w: seq<string>)
    ensures |w| == FieldCount
  {
    seq(FieldCount, (k: int) requires 0 <= k => TextAt(toks, FieldCursor(toks, b, k)))
  }

  /** The first field at or after j whose token does not decode, or
      FieldCount when every one does. */
  function FirstFailure(read: Reader, w: seq<string>, j: nat): (i: nat)
    requires |w| == FieldCount && j <= FieldCount
    ensures j <= i <= FieldCount
    ensures forall k :: j <= k < i ==> read(k, w[k]).Ok?
    ensures i < FieldCount ==> read(i, w[i]).Err?
    decreases FieldCount - j
  {
    if j == FieldCount || read(j, w[j]).Err? then j
    else FirstFailure(read, w, j + 1)
  }

  /** Fields j.. of a row that starts at cursor b: the first field whose
      text does not decode stops the row, and otherwise every later value
      is its text's decoding. */
  lemma {:induction false} FieldsFromTokens(read: Reader, toks: seq<string>, b: nat, j: nat, acc: seq<FieldValue>)
    requires WellTyped(read) && 1 <= b <= |toks| && FitsPrefix(acc, j)
    ensures var w := RowTokens(toks, b);
      var d, i := FieldsFrom(read, toks, j, FieldCursor(toks, b, j), acc), FirstFailure(read, w, j);
      if i < FieldCount then
        d == Stopped(read(i, w[i]).error, i, Advance(toks, FieldCursor(toks, b, i), Kind(i), false))
      else
        d.Decoded? && d.cursor == FieldCursor(toks, b, FieldCount) &&
        forall k :: j <= k < FieldCount ==> read(k, w[k]) == Ok(d.values[k])
    decreases FieldCount - j
  {
    if j < FieldCount {
      var w := RowTokens(toks, b);
      assert Next(toks, FieldCursor(toks, b, j)) == FieldCursor(toks, b, j + 1);
      match read(j, w[j])
      case Err(e) =>
        assert FirstFailure(read, w, j) == j;
      case Ok(v) =>
        assert FirstFailure(read, w, j) == FirstFailure(read, w, j + 1);
        FieldsFromTokens(read, toks, b, j + 1, acc + [v]);
        var d := FieldsFrom(read, toks, j + 1, FieldCursor(toks, b, j + 1), acc + [v]);
        if d.Decoded? {
          assert d.values[j] == d.values[..j + 1][j];
        }
    }
  }

  /** The row decoder at cursor b, stated against the texts its fields
      read: no row when the first is not a date-time, the first failing
      field's error, or the row whose fields are the decodings of the twenty
      texts. With a whole row of tokens ahead those are the next twenty
      tokens and the row consumes exactly them; nearer the end, the fields
      after the last token read it again. */
  lemma RowFromTokens(read: Reader, toks: seq<string>, b: nat)
    requires WellTyped(read) && 1 <= b <= |toks|
    ensures var w := RowTokens(toks, b);
      var st, i := RowAt(read, toks, b), FirstFailure(read, w, 0);
      (i == 0 ==> st == RowStep(NoRow, Next(toks, b))) &&
      (0 < i < FieldCount ==>
        st == RowStep(Failed(read(i, w[i]).error), Advance(toks, FieldCursor(toks, b, i), Kind(i), false))) &&
      (i == FieldCount ==>
        st.outcome.Row? && st.cursor == FieldCursor(toks, b, FieldCount) &&
        forall k :: 0 <= k < FieldCount ==> read(k, w[k]) == Ok(FieldsOf(st.outcome.row)[k]))
  {
    var w := RowTokens(toks, b);
    assert w[0] == TextAt(toks, b);
    match read(0, w[0])
    case Err(_) =>
    case Ok(v) =>
      assert Next(toks, b) == FieldCursor(toks, b, 1);
      FieldsFromTokens(read, toks, b, 1, [v]);
      var d := FieldsFrom(read, toks, 1, FieldCursor(toks, b, 1), [v]);
      if d.Decoded? {
        AssembleFields(d.values);
        assert d.values[0] == d.values[..1][0];
      }
  }

  /** With a whole row of tokens ahead, the fields read the next twenty
      tokens in order, and when a token follows them the row ends on it. */
  lemma RowTokensAhead(toks: seq<string>, b: nat)
    requires 1 <= b && b - 1 + FieldCount <= |toks|
    ensures RowTokens(toks, b) == toks[b - 1 .. b - 1 + FieldCount]
    ensures b + FieldCount <= |toks| ==> FieldCursor(toks, b, FieldCount) == b + FieldCount
  {
  }

  // ---------------------------------------------------------------------
  // The row decoder once every token is out

  /** Once the scanner has delivered its last token, Scan leaves the text
      alone: every remaining field reads that same final text, the cursor
      stays put, a decoded row holds each field's reading of that text,
      and a stop names a field that refuses it. */
  lemma {:induction false} StuckFields(read: Reader, toks: seq<string>, j: nat, c: nat, acc: seq<FieldValue>)
    requires WellTyped(read) && |toks| <= c && FitsPrefix(acc, j)
    ensures var d, t := FieldsFrom(read, toks, j, c, acc), TextAt(toks, c);
      d.cursor == c &&
      (d.Decoded? ==> forall k :: j <= k < FieldCount ==> read(k, t) == Ok(d.values[k])) &&
      (d.Stopped? ==> read(d.field, t).Err?)
    decreases FieldCount - j
  {
    var t := TextAt(toks, c);
    if j < FieldCount {
      match read(j, t)
      case Err(e) =>
      case Ok(v) =>
        StuckFields(read, toks, j + 1, c, acc + [v]);
        var d := FieldsFrom(read, toks, j + 1, c, acc + [v]);
        assert FieldsFrom(read, toks, j, c, acc) == d by {
          assert Next(toks, c) == c;
        }
        if d.Decoded? {
          assert d.values[j] == v by {
            assert d.values[j] == d.values[..j + 1][j];
          }
        }
    }
  }

  /** No text is both a date and a monocular tag, so the row decoder cannot
      produce a row from one text read twenty times. */
  lemma DateNotMonocular(lib: Builtins)
    ensures forall t :: DecodeField(lib, DateField, t).Ok? ==> DecodeField(lib, MonocularField, t).Err?
  {
    forall t | DecodeField(lib, DateField, t).Ok?
      ensures DecodeField(lib, MonocularField, t).Err?
    {
      var d := DecodeField(lib, DateField, t).value.date;
      assert |Trim(t)| == |IsoDate(d)| == 10;
    }
  }

  /** Each row the decoder delivers moves the cursor forward and stays
      within the tokens, so a document has finitely many rows. */
  lemma RowProgress(read: Reader, toks: seq<string>, c: nat)
    requires WellTyped(read) && Separable(read) && c <= |toks|
    ensures var st := RowAt(read, toks, c);
      st.cursor <= |toks| && (st.outcome.Row? ==> c < st.cursor)
  {
    if c == |toks| {
      match read(0, TextAt(toks, c))
      case Err(_) =>
      case Ok(v) =>
        StuckFields(read, toks, 1, c, [v]);
        assert !(read(4, TextAt(toks, c)).Ok? && read(18, TextAt(toks, c)).Ok?);
    }
  }

  /** A row whose eighth field is the last token: the fields from the
      contact on all read that token, so the row decodes when each of them
      accepts it, and the cursor stays on it. */
  lemma {:induction false} ShortRow(read: Reader, toks: seq<string>, b: nat, last: string)
    requires WellTyped(read) && 1 <= b && b + 7 == |toks| && last == toks[|toks| - 1]
    requires forall k :: 0 <= k < 7 ==> read(k, RowTokens(toks, b)[k]).Ok?
    requires forall k :: 7 <= k < FieldCount ==> read(k, last).Ok?
    ensures var st := RowAt(read, toks, b);
      st.outcome.Row? && st.cursor == |toks| &&
      forall k :: 7 <= k < FieldCount ==> read(k, last) == Ok(FieldsOf(st.outcome.row)[k])
  {
    var w := RowTokens(toks, b);
    forall k | 7 <= k < FieldCount
      ensures w[k] == last
    {
      assert FieldCursor(toks, b, k) == |toks|;
    }
    RowFromTokens(read, toks, b);
  }

  /** What the fields from the contact on make of the text "1", one being
      strconv.ParseFloat's reading of it. */
  function OneReading(k: nat, one: Float): Result<FieldValue, FieldError>
  {
    if k == 7 then Ok(Text("1"))
    else if k < 18 then Ok(Number(one))
    else if k == 18 then Ok(Eye(OD))
    else Ok(Verdict(REFER))
  }

  /** A row whose fields from the contact on are the readings of "1". */
  lemma OneFields(row: DataRow, one: Float)
    requires forall k :: 7 <= k < FieldCount ==> OneReading(k, one) == Ok(FieldsOf(row)[k])
    ensures row.contact == "1" && (forall k :: 8 <= k < 18 ==> FieldsOf(row)[k] == Number(one)) &&
      row.monocular == OD && row.screeningResult == REFER
  {
    var vs := FieldsOf(row);
    assert OneReading(7, one) == Ok(vs[7]) && OneReading(18, one) == Ok(vs[18]) && OneReading(19, one) == Ok(vs[19]);
  }

  /** A row cut short after its contact field, over any reader that reads
      the final "1" as the decoders of parseDataRow do. */
  lemma TruncatedRowWith(read: Reader, toks: seq<string>, b: nat, one: Float)
    requires WellTyped(read) && 1 <= b && b + 7 == |toks| && toks[|toks| - 1] == "1"
    requires forall k :: 0 <= k < 7 ==> read(k, RowTokens(toks, b)[k]).Ok?
    requires forall k :: 7 <= k < FieldCount ==> read(k, "1") == OneReading(k, one)
    ensures var st := RowAt(read, toks, b);
      st.outcome.Row? && st.cursor == |toks| && st.outcome.row.contact == "1" &&
      (forall k :: 8 <= k < 18 ==> FieldsOf(st.outcome.row)[k] == Number(one)) &&
      st.outcome.row.monocular == OD && st.outcome.row.screeningResult == REFER
  {
    ShortRow(read, toks, b, "1");
    var row := RowAt(read, toks, b).outcome.row;
    assert forall k :: 7 <= k < FieldCount ==> OneReading(k, one) == Ok(FieldsOf(row)[k]);
    OneFields(row, one);
  }

  /** A last row cut short after its contact field still decodes when its
      final token is "1": the scanner keeps re-reading that token, so the
      contact is "1", all ten numbers are strconv.ParseFloat's reading of
      "1", the eye is OD and the screening result REFER, and the cursor
      stays on the last token. */
  lemma TruncatedRow(lib: Builtins, toks: seq<string>, b: nat)
    requires 1 <= b && b + 7 == |toks| && toks[|toks| - 1] == "1" && lib.parseFloat("1").Some?
    requires forall k :: 0 <= k < 7 ==> FieldReader(lib)(k, RowTokens(toks, b)[k]).Ok?
    ensures var st, one := RowAt(FieldReader(lib), toks, b), lib.parseFloat("1").value;
      st.outcome.Row? && st.cursor == |toks| && st.outcome.row.contact == "1" &&
      (forall k :: 8 <= k < 18 ==> FieldsOf(st.outcome.row)[k] == Number(one)) &&
      st.outcome.row.monocular == OD && st.outcome.row.screeningResult == REFER
  {
    var one := lib.parseFloat("1").value;
    assert forall k :: 7 <= k < FieldCount ==> FieldReader(lib)(k, "1") == OneReading(k, one) by {
      assert Trim("1") == "1";
    }
    TruncatedRowWith(FieldReader(lib), toks, b, one);
  }
}
