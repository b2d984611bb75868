/** The field decoders of the data grammar, each reading the scanner's
    current text and then advancing it, or not, as the source does: the
    date-time, optional-string and enumeration decoders always call Scan,
    the date, number and required-string decoders only when they succeed.
    Next to them, the value-level description of one field that the row
    decoder is specified with: its kind, its decoded value and the cursor
    move it makes. */
module Decoders {
  import opened Tokenizer
  import opened Fields

  // ---------------------------------------------------------------------
  // The kinds of field and their values

  /** What a field of the data grammar holds. A required string carries the
      name its error message quotes. */
  datatype FieldKind =
    | DateTimeField
    | RequiredField(name: string)
    | OptionalField
    | DateField
    | NumberField
    | MonocularField
    | ScreeningField

  /** One decoded field. */
  datatype FieldValue =
    | Stamp(instant: Instant)
    | Text(text: string)
    | Day(date: Date)
    | Number(number: Float)
    | Eye(eye: Monocular)
    | Verdict(verdict: ScreeningResult)

  /** A value of the shape a field of kind k produces. */
  predicate Typed(k: FieldKind, v: FieldValue)
  {
    match k
    case DateTimeField => v.Stamp?
    case RequiredField(_) => v.Text?
    case OptionalField => v.Text?
    case DateField => v.Day? && ValidDate(v.date)
    case NumberField => v.Number?
    case MonocularField => v.Eye?
    case ScreeningField => v.Verdict?
  }

  /** The decoders that call Scan whether or not they succeed. */
  predicate AlwaysScans(k: FieldKind)
  {
    k == DateTimeField || k == OptionalField || k == MonocularField || k == ScreeningField
  }

  /** The decoder of kind k applied to the text t. */
  function DecodeField(lib: Builtins, k: FieldKind, t: string): (r: Result<FieldValue, FieldError>)
    ensures r.Ok? ==> Typed(k, r.value)
    ensures k == OptionalField ==> r == Ok(Text(t))
    ensures k.RequiredField? ==> (r.Ok? <==> !AllCut(t)) && (r.Ok? ==> r.value == Text(t))
    ensures k == MonocularField ==> (r.Ok? <==> Trim(t) in {"1", "2", "3"})
    ensures k == ScreeningField ==> (r.Ok? <==> Trim(t) in {"0", "1", "2"})
    ensures k == DateField && r.Ok? ==> IsoDate(r.value.date) == Trim(t)
  {
    match k
    case DateTimeField =>
      (match DateTimeOf(lib, t) case Ok(i) => Ok(Stamp(i)) case Err(e) => Err(e))
    case RequiredField(name) =>
      (match RequiredOf(t, name) case Ok(x) => Ok(Text(x)) case Err(e) => Err(e))
    case OptionalField => Ok(Text(t))
    case DateField =>
      (match DateOf(t) case Ok(d) => DateSpelling(t); Ok(Day(d)) case Err(e) => Err(e))
    case NumberField =>
      (match NumberOf(lib, t) case Ok(f) => Ok(Number(f)) case Err(e) => Err(e))
    case MonocularField =>
      (match MonocularOf(t) case Ok(m) => Ok(Eye(m)) case Err(e) => Err(e))
    case ScreeningField =>
      (match ScreeningResultOf(t) case Ok(v) => Ok(Verdict(v)) case Err(e) => Err(e))
  }

  /** The scanner cursor after a decoder of kind k ran at cursor c and
      succeeded (ok) or not. */
  function Advance(toks: seq<string>, c: nat, k: FieldKind, ok: bool): (c': nat)
    ensures c' == c || c' == Next(toks, c)
    ensures ok || AlwaysScans(k) ==> c' == Next(toks, c)
    ensures !ok && !AlwaysScans(k) ==> c' == c
  {
    if ok || AlwaysScans(k) then Next(toks, c) else c
  }

  // ---------------------------------------------------------------------
  // The decoders

  /** parseDateTime: time.Parse(RFC 3339) of the trimmed text, then Scan. */
  method ParseDateTime(s: Scanner, lib: Builtins) returns (r: Result<Instant, FieldError>)
    requires s.Valid()
    modifies s
    ensures s.Valid() && s.idx == Next(s.Toks(), old(s.idx))
    ensures r == DateTimeOf(lib, old(s.text))
  {
    r := DateTimeOf(lib, s.text);
    var _ := s.Scan();
  }

  /** parseDate: the full-date layout applied to the trimmed text; Scan only
      when it parses. */
  method ParseDate(s: Scanner) returns (r: Result<Date, FieldError>)
    requires s.Valid()
    modifies s
    ensures s.Valid() && s.idx == Advance(s.Toks(), old(s.idx), DateField, r.Ok?)
    ensures r == DateOf(old(s.text))
  {
    r := DateOf(s.text);
    if r.Err? {
      return;
    }
    var _ := s.Scan();
  }

  /** parseNumber: strconv.ParseFloat of the trimmed text; Scan only when it
      parses. */
  method ParseNumber(s: Scanner, lib: Builtins) returns (r: Result<Float, FieldError>)
    requires s.Valid()
    modifies s
    ensures s.Valid() && s.idx == Advance(s.Toks(), old(s.idx), NumberField, r.Ok?)
    ensures r == NumberOf(lib, old(s.text))
  {
    var t := s.text;
    r := NumberOf(lib, t);
    if r.Err? {
      return;
    }
    var _ := s.Scan();
  }

  /** parseUTF8: the raw text unless it trims to nothing; Scan only on
      success. */
  method ParseUTF8(s: Scanner, name: string) returns (r: Result<string, FieldError>)
    requires s.Valid()
    modifies s
    ensures s.Valid() && s.idx == Advance(s.Toks(), old(s.idx), RequiredField(name), r.Ok?)
    ensures r == RequiredOf(old(s.text), name)
  {
    var t := s.text;
    if Trim(t) == "" {
      TrimEmpty(t);
      return Err(MissingValue(name));
    }
    TrimEmpty(t);
    var _ := s.Scan();
    return Ok(t);
  }

  /** parseOptionalUTF8: the raw text, always, then Scan. */
  method ParseOptionalUTF8(s: Scanner) returns (r: string)
    requires s.Valid()
    modifies s
    ensures s.Valid() && s.idx == Next(s.Toks(), old(s.idx))
    ensures r == old(s.text)
  {
    var t := s.text;
    var _ := s.Scan();
    return t;
  }

  /** parseMonocular: takes the text, calls Scan, then switches on the
      trimmed text. */
  method ParseMonocular(s: Scanner) returns (r: Result<Monocular, FieldError>)
    requires s.Valid()
    modifies s
    ensures s.Valid() && s.idx == Next(s.Toks(), old(s.idx))
    ensures r == MonocularOf(old(s.text))
  {
    var t := s.text;
    var _ := s.Scan();
    var u := Trim(t);
    if u == "1" {
      r := Ok(OD);
    } else if u == "2" {
      r := Ok(OS);
    } else if u == "3" {
      r := Ok(BINOCULAR);
    } else {
      r := Err(BadMonocular(t));
    }
  }

  /** parseScreeningResult: takes the text, calls Scan, then switches on the
      trimmed text. */
  method ParseScreeningResult(s: Scanner) returns (r: Result<ScreeningResult, FieldError>)
    requires s.Valid()
    modifies s
    ensures s.Valid() && s.idx == Next(s.Toks(), old(s.idx))
    ensures r == ScreeningResultOf(old(s.text))
  {
    var t := s.text;
    var _ := s.Scan();
    var u := Trim(t);
    if u == "0" {
      r := Ok(PASS);
    } else if u == "1" {
      r := Ok(REFER);
    } else if u == "2" {
      r := Ok(REFER_OR_TRY_AGAIN);
    } else {
      r := Err(BadScreeningResult(t));
    }
  }
}
