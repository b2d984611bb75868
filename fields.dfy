/** The value types of a screening record and the pure, text-to-value part
    of each field decoder: trim, the full-date layout, the two enumerations
    and their String methods, and the error each decoder reports. The
    date-time and float conversions are library routines whose internals
    are not modelled: they arrive as the two functions of Builtins. */
module Fields {

  datatype Option<T> = None | Some(value: T)

  datatype Result<T, E> = Ok(value: T) | Err(error: E)

  // ---------------------------------------------------------------------
  // trim

  /** The cutset of trim: space, carriage return and line feed. */
  predicate IsCut(c: char)
  {
    c == ' ' || c == '\r' || c == '\n'
  }

  predicate AllCut(s: string)
  {
    forall i :: 0 <= i < |s| ==> IsCut(s[i])
  }

  function TrimLeft(t: string): (r: string)
    ensures |r| <= |t|
  {
    if t != [] && IsCut(t[0]) then TrimLeft(t[1..]) else t
  }

  function TrimRight(t: string): (r: string)
    ensures |r| <= |t|
  {
    if t != [] && IsCut(t[|t| - 1]) then TrimRight(t[..|t| - 1]) else t
  }

  /** strings.Trim(t, " \r\n"). */
  function Trim(t: string): string
  {
    TrimRight(TrimLeft(t))
  }

  /** TrimLeft drops the longest prefix made of cutset bytes. */
  lemma {:induction false} TrimLeftShape(t: string)
    ensures var r := TrimLeft(t);
      r == t[|t| - |r|..] && AllCut(t[..|t| - |r|]) && (r == [] || !IsCut(r[0]))
    decreases |t|
  {
    if t != [] && IsCut(t[0]) {
      TrimLeftShape(t[1..]);
      var r := TrimLeft(t);
      assert t[..|t| - |r|] == [t[0]] + t[1..][..|t| - 1 - |r|];
    }
  }

  /** TrimRight drops the longest suffix made of cutset bytes. */
  lemma {:induction false} TrimRightShape(t: string)
    ensures var r := TrimRight(t);
      r == t[..|r|] && AllCut(t[|r|..]) && (r == [] || !IsCut(r[|r| - 1]))
    decreases |t|
  {
    if t != [] && IsCut(t[|t| - 1]) {
      TrimRightShape(t[..|t| - 1]);
      var r := TrimRight(t);
      assert t[|r|..] == t[..|t| - 1][|r|..] + [t[|t| - 1]];
    }
  }

  /** trim keeps the infix of t between the longest cutset prefix and the
      longest cutset suffix: what is dropped is all cutset bytes, and what
      is kept neither starts nor ends with one. */
  lemma TrimShape(t: string)
    ensures var r := Trim(t); var a := |t| - |TrimLeft(t)|;
      a + |r| <= |t| && r == t[a..a + |r|] &&
      AllCut(t[..a]) && AllCut(t[a + |r|..]) &&
      (r == [] || (!IsCut(r[0]) && !IsCut(r[|r| - 1])))
  {
    var l := TrimLeft(t);
    TrimLeftShape(t);
    TrimRightShape(l);
    var r := Trim(t);
    var a := |t| - |l|;
    assert l[|r|..] == t[a + |r|..];
    if r != [] {
      assert r[0] == l[0];
    }
  }

  /** trim yields the empty text exactly when every byte is in the cutset. */
  lemma TrimEmpty(t: string)
    ensures Trim(t) == [] <==> AllCut(t)
  {
    TrimShape(t);
    var a := |t| - |TrimLeft(t)|;
    if Trim(t) == [] {
      assert t == t[..a] + t[a..];
      assert forall i :: 0 <= i < |t| ==> IsCut(t[i]) by {
        forall i | 0 <= i < |t| ensures IsCut(t[i]) {
          if i < a {
            assert t[..a][i] == t[i];
          } else {
            assert t[a..][i - a] == t[i];
          }
        }
      }
    }
  }

  /** Trimming twice is trimming once. */
  lemma TrimIdempotent(t: string)
    ensures Trim(Trim(t)) == Trim(t)
  {
    var r := Trim(t);
    TrimShape(t);
    if r != [] {
      assert TrimLeft(r) == r;
      assert TrimRight(r) == r;
    }
  }

  // ---------------------------------------------------------------------
  // Errors and the library routines

  /** The errors a field decoder returns: time.Parse's *ParseError (layout
      and value), strconv.ParseFloat's *NumError (the value), the missing
      required value (its field name), and the two enum errors, each of which
      quotes the raw, untrimmed token. */
  datatype FieldError =
    | TimeError(layout: string, value: string)
    | NumberError(value: string)
    | MissingValue(name: string)
    | BadMonocular(token: string)
    | BadScreeningResult(token: string)

  /** A time.Time. */
  type Instant(==)

  /** A float64. */
  type Float(==)

  /** time.Parse with the RFC 3339 layout, and strconv.ParseFloat with bit
      size 64, each giving None where the library returns an error. */
  datatype Builtins = Builtins(rfc3339: string -> Option<Instant>, parseFloat: string -> Option<Float>)

  const RFC3339Layout := "2006-01-02T15:04:05Z07:00"

  const DateLayout := "2006-01-02"

  /** The date-time decoder's conversion: time.Parse of the trimmed text. */
  function DateTimeOf(lib: Builtins, t: string): (r: Result<Instant, FieldError>)
    ensures r.Ok? <==> lib.rfc3339(Trim(t)).Some?
    ensures r.Ok? ==> lib.rfc3339(Trim(t)) == Some(r.value)
    ensures r.Err? ==> r.error == TimeError(RFC3339Layout, Trim(t))
  {
    match lib.rfc3339(Trim(t))
    case Some(v) => Ok(v)
    case None => Err(TimeError(RFC3339Layout, Trim(t)))
  }

  /** The number decoder's conversion: strconv.ParseFloat of the trimmed text. */
  function NumberOf(lib: Builtins, t: string): (r: Result<Float, FieldError>)
    ensures r.Ok? <==> lib.parseFloat(Trim(t)).Some?
    ensures r.Ok? ==> lib.parseFloat(Trim(t)) == Some(r.value)
    ensures r.Err? ==> r.error == NumberError(Trim(t))
  {
    match lib.parseFloat(Trim(t))
    case Some(v) => Ok(v)
    case None => Err(NumberError(Trim(t)))
  }

  /** The required-string decoder: the raw token, unless trimming leaves
      nothing. */
  function RequiredOf(t: string, name: string): (r: Result<string, FieldError>)
    ensures r.Ok? <==> !AllCut(t)
    ensures r.Ok? ==> r.value == t
    ensures r.Err? ==> r.error == MissingValue(name)
  {
    TrimEmpty(t);
    if Trim(t) == "" then Err(MissingValue(name)) else Ok(t)
  }

  // ---------------------------------------------------------------------
  // Full-date (section 5.6 of RFC 3339, day limits of section 5.7)

  /** The Date struct: year, month and day. */
  datatype Date = Date(year: int, month: int, day: int)

  predicate IsDigit(c: char)
  {
    '0' <= c <= '9'
  }

  function DigitValue(c: char): int
  {
    c as int - '0' as int
  }

  function DigitChar(n: int): char
    requires 0 <= n < 10
  {
    (n + '0' as int) as char
  }

  predicate IsLeap(year: int)
  {
    year % 4 == 0 && (year % 100 != 0 || year % 400 == 0)
  }

  /** Days in a month of the Gregorian calendar, February by leap year. */
  function DaysIn(month: int, year: int): int
  {
    if month == 2 then (if IsLeap(year) then 29 else 28)
    else if month == 4 || month == 6 || month == 9 || month == 11 then 30
    else 31
  }

  /** The shape of layout "2006-01-02": four digits, '-', two digits, '-',
      two digits, nothing more. */
  predicate DateShape(u: string)
  {
    |u| == 10 && u[4] == '-' && u[7] == '-' &&
    IsDigit(u[0]) && IsDigit(u[1]) && IsDigit(u[2]) && IsDigit(u[3]) &&
    IsDigit(u[5]) && IsDigit(u[6]) && IsDigit(u[8]) && IsDigit(u[9])
  }

  function YearOf(u: string): int
    requires DateShape(u)
  {
    1000 * DigitValue(u[0]) + 100 * DigitValue(u[1]) + 10 * DigitValue(u[2]) + DigitValue(u[3])
  }

  function MonthOf(u: string): int
    requires DateShape(u)
  {
    10 * DigitValue(u[5]) + DigitValue(u[6])
  }

  function DayOf(u: string): int
    requires DateShape(u)
  {
    10 * DigitValue(u[8]) + DigitValue(u[9])
  }

  /** A date that the full-date layout can spell. */
  predicate ValidDate(d: Date)
  {
    0 <= d.year <= 9999 && 1 <= d.month <= 12 && 1 <= d.day <= DaysIn(d.month, d.year)
  }

  /** The date decoder's conversion: time.Parse(DateLayout) of the trimmed
      text, kept as year, month and day. */
  function DateOf(t: string): (r: Result<Date, FieldError>)
    ensures r.Ok? ==> ValidDate(r.value)
    ensures r.Err? ==> r.error == TimeError(DateLayout, Trim(t))
  {
    var u := Trim(t);
    if DateShape(u) && 1 <= MonthOf(u) <= 12 && 1 <= DayOf(u) <= DaysIn(MonthOf(u), YearOf(u))
    then Ok(Date(YearOf(u), MonthOf(u), DayOf(u)))
    else Err(TimeError(DateLayout, u))
  }

  /** The wire spelling of a date: zero-padded YYYY-MM-DD. */
  function IsoDate(d: Date): (u: string)
    requires ValidDate(d)
  {
    [DigitChar(d.year / 1000), DigitChar(d.year / 100 % 10), DigitChar(d.year / 10 % 10), DigitChar(d.year % 10),
     '-', DigitChar(d.month / 10), DigitChar(d.month % 10),
     '-', DigitChar(d.day / 10), DigitChar(d.day % 10)]
  }

  lemma DigitCharValue(n: int)
    requires 0 <= n < 10
    ensures IsDigit(DigitChar(n)) && DigitValue(DigitChar(n)) == n
  {
  }

  /** Splitting a number below 10000 into its four decimal digits. */
  lemma FourDigits(y: int)
    requires 0 <= y <= 9999
    ensures y == 1000 * (y / 1000) + 100 * (y / 100 % 10) + 10 * (y / 10 % 10) + y % 10
    ensures 0 <= y / 1000 < 10
  {
    var a, b, c := y / 10, y / 100, y / 1000;
    assert a / 10 == b && b / 10 == c;
    assert y == 10 * a + y % 10 && a == 10 * b + a % 10 && b == 10 * c + b % 10;
  }

  lemma DivideBy(q: int, r: int, k: int)
    requires k == 10 || k == 100 || k == 1000
    requires 0 <= r < k
    ensures (k * q + r) / k == q && (k * q + r) % k == r
  {
  }

  /** Four decimal digits make one number, and give themselves back. */
  lemma FromFourDigits(a: int, b: int, c: int, e: int)
    requires 0 <= a < 10 && 0 <= b < 10 && 0 <= c < 10 && 0 <= e < 10
    ensures var y := 1000 * a + 100 * b + 10 * c + e;
      y / 1000 == a && y / 100 % 10 == b && y / 10 % 10 == c && y % 10 == e
  {
    DivideBy(a, 100 * b + 10 * c + e, 1000);
    DivideBy(10 * a + b, 10 * c + e, 100);
    DivideBy(a, b, 10);
    DivideBy(100 * a + 10 * b + c, e, 10);
    DivideBy(10 * a + b, c, 10);
  }

  /** Every date the layout can spell decodes back to itself. */
  lemma DateRoundTrip(d: Date)
    requires ValidDate(d)
    ensures DateOf(IsoDate(d)) == Ok(d)
  {
    var u := IsoDate(d);
    FourDigits(d.year);
    DigitCharValue(d.year / 1000);
    DigitCharValue(d.year / 100 % 10);
    DigitCharValue(d.year / 10 % 10);
    DigitCharValue(d.year % 10);
    DigitCharValue(d.month / 10);
    DigitCharValue(d.month % 10);
    DigitCharValue(d.day / 10);
    DigitCharValue(d.day % 10);
    assert TrimLeft(u) == u;
    assert TrimRight(u) == u;
    assert DateShape(u);
    assert YearOf(u) == d.year;
  }

  /** A decoded date determines the trimmed text it came from: the layout
      admits exactly one spelling per date. */
  lemma DateSpelling(t: string)
    requires DateOf(t).Ok?
    ensures IsoDate(DateOf(t).value) == Trim(t)
  {
    var u := Trim(t);
    var d := DateOf(t).value;
    FromFourDigits(DigitValue(u[0]), DigitValue(u[1]), DigitValue(u[2]), DigitValue(u[3]));
    FromFourDigits(0, 0, DigitValue(u[5]), DigitValue(u[6]));
    FromFourDigits(0, 0, DigitValue(u[8]), DigitValue(u[9]));
    var v := IsoDate(d);
    forall i | 0 <= i < 10
      ensures v[i] == u[i]
    {
    }
  }

  /** Decimal spelling of a natural number, as %d prints it. */
  function NatText(n: nat): (s: string)
    ensures 1 <= |s|
    decreases n
  {
    if n < 10 then [DigitChar(n)] else NatText(n / 10) + [DigitChar(n % 10)]
  }

  function IntText(n: int): string
  {
    if n < 0 then "-" + NatText(-n) else NatText(n)
  }

  /** Date.String: "%d-%d-%d", without zero padding. */
  function DateString(d: Date): string
  {
    IntText(d.year) + "-" + IntText(d.month) + "-" + IntText(d.day)
  }

  lemma NatTextTwoDigits(n: nat)
    requires 10 <= n < 100
    ensures NatText(n) == [DigitChar(n / 10), DigitChar(n % 10)]
  {
  }

  lemma NatTextFourDigits(n: nat)
    requires 1000 <= n < 10000
    ensures NatText(n) == [DigitChar(n / 1000), DigitChar(n / 100 % 10), DigitChar(n / 10 % 10), DigitChar(n % 10)]
  {
    var a, b, c := n / 10, n / 100, n / 1000;
    assert a / 10 == b && b / 10 == c;
    assert NatText(c) == [DigitChar(c)];
    assert NatText(b) == NatText(c) + [DigitChar(b % 10)];
    assert NatText(a) == NatText(b) + [DigitChar(a % 10)];
    assert NatText(n) == NatText(a) + [DigitChar(n % 10)];
  }

  /** Date.String agrees with the wire spelling only when no padding is
      needed: four-digit years, two-digit months and days. */
  lemma DateStringPadded(d: Date)
    requires ValidDate(d) && 1000 <= d.year && 10 <= d.month && 10 <= d.day
    ensures DateString(d) == IsoDate(d)
  {
    NatTextFourDigits(d.year);
    NatTextTwoDigits(d.month);
    NatTextTwoDigits(d.day);
  }

  /** Date.String does not decode as a full-date whenever padding would
      be needed: a year below 1000, a one-digit month or a one-digit day. */
  lemma DateStringShort(d: Date)
    requires ValidDate(d) && !(1000 <= d.year && 10 <= d.month && 10 <= d.day)
    ensures DateOf(DateString(d)).Err?
  {
    var s, y, mo, da := DateString(d), NatText(d.year), NatText(d.month), NatText(d.day);
    assert s == y + "-" + mo + "-" + da;
    NatTextDigits(d.year);
    NatTextDigits(d.day);
    NatTextLength(d.year);
    NatTextLength(d.month);
    NatTextLength(d.day);
    assert Trim(s) == s by {
      assert s[0] == y[0] && s[|s| - 1] == da[|da| - 1];
      TrimPadded("", s, "");
      assert "" + s + "" == s;
    }
    assert !DateShape(s) by {
      if d.year < 1000 {
        assert s[|y|] == '-';
      } else if d.month < 10 {
        assert s[6] == '-';
      } else {
        assert |s| == 9;
      }
    }
  }

  lemma {:induction false} NatTextDigits(n: nat)
    ensures forall i :: 0 <= i < |NatText(n)| ==> IsDigit(NatText(n)[i])
    decreases n
  {
    if n >= 10 {
      NatTextDigits(n / 10);
    }
  }

  /** %d spells a number below 10 with one digit, below 100 with two and
      below 1000 with at most three, and one of four digits with four. */
  lemma {:induction false} NatTextLength(n: nat)
    ensures n < 10 ==> |NatText(n)| == 1
    ensures 10 <= n < 100 ==> |NatText(n)| == 2
    ensures n < 1000 ==> |NatText(n)| <= 3
    ensures 1000 <= n < 10000 ==> |NatText(n)| == 4
    decreases n
  {
    if n >= 10 {
      NatTextLength(n / 10);
    }
  }

  // ---------------------------------------------------------------------
  // Enumerations

  /** Monocular: which eye a measurement applies to. */
  datatype Monocular = OD | OS | BINOCULAR

  /** The iota constant behind each tag. */
  function MonocularValue(m: Monocular): int
  {
    match m
    case OD => 0
    case OS => 1
    case BINOCULAR => 2
  }

  /** Monocular.String. */
  function MonocularName(m: Monocular): string
  {
    match m
    case OD => "OD"
    case OS => "OS"
    case BINOCULAR => "BINOCULAR"
  }

  /** The wire code of each tag. */
  function MonocularCode(m: Monocular): string
  {
    match m
    case OD => "1"
    case OS => "2"
    case BINOCULAR => "3"
  }

  /** The monocular decoder's switch on the trimmed token. */
  function MonocularOf(t: string): (r: Result<Monocular, FieldError>)
    ensures r.Ok? <==> Trim(t) in {"1", "2", "3"}
    ensures r.Ok? ==> MonocularCode(r.value) == Trim(t)
    ensures r.Err? ==> r.error == BadMonocular(t)
  {
    var u := Trim(t);
    if u == "1" then Ok(OD)
    else if u == "2" then Ok(OS)
    else if u == "3" then Ok(BINOCULAR)
    else Err(BadMonocular(t))
  }

  /** ScreeningResult: the verdict of one screening. */
  datatype ScreeningResult = PASS | REFER | REFER_OR_TRY_AGAIN

  /** The iota constant behind each verdict. */
  function ScreeningValue(r: ScreeningResult): int
  {
    match r
    case PASS => 0
    case REFER => 1
    case REFER_OR_TRY_AGAIN => 2
  }

  /** ScreeningResult.String. */
  function ScreeningName(r: ScreeningResult): string
  {
    match r
    case PASS => "PASS"
    case REFER => "REFER"
    case REFER_OR_TRY_AGAIN => "REFER_OR_TRY_AGAIN"
  }

  /** The wire code of each verdict. */
  function ScreeningCode(r: ScreeningResult): string
  {
    match r
    case PASS => "0"
    case REFER => "1"
    case REFER_OR_TRY_AGAIN => "2"
  }

  /** The screening-result decoder's switch on the trimmed token. */
  function ScreeningResultOf(t: string): (r: Result<ScreeningResult, FieldError>)
    ensures r.Ok? <==> Trim(t) in {"0", "1", "2"}
    ensures r.Ok? ==> ScreeningCode(r.value) == Trim(t)
    ensures r.Err? ==> r.error == BadScreeningResult(t)
  {
    var u := Trim(t);
    if u == "0" then Ok(PASS)
    else if u == "1" then Ok(REFER)
    else if u == "2" then Ok(REFER_OR_TRY_AGAIN)
    else Err(BadScreeningResult(t))
  }

  /** Each wire code decodes to its own tag, also with surrounding blanks. */
  lemma EnumRoundTrip(m: Monocular, r: ScreeningResult, pre: string, post: string)
    requires AllCut(pre) && AllCut(post)
    ensures MonocularOf(pre + MonocularCode(m) + post) == Ok(m)
    ensures ScreeningResultOf(pre + ScreeningCode(r) + post) == Ok(r)
  {
    TrimPadded(pre, MonocularCode(m), post);
    TrimPadded(pre, ScreeningCode(r), post);
  }

  lemma {:induction false} TrimLeftPadded(pre: string, s: string)
    requires AllCut(pre) && s != [] && !IsCut(s[0])
    ensures TrimLeft(pre + s) == s
    decreases |pre|
  {
    if pre == [] {
      assert pre + s == s;
    } else {
      assert (pre + s)[1..] == pre[1..] + s;
      TrimLeftPadded(pre[1..], s);
    }
  }

  lemma {:induction false} TrimRightPadded(s: string, post: string)
    requires AllCut(post) && s != [] && !IsCut(s[|s| - 1])
    ensures TrimRight(s + post) == s
    decreases |post|
  {
    if post == [] {
      assert s + post == s;
    } else {
      var p := post[..|post| - 1];
      assert (s + post)[..|s + post| - 1] == s + p;
      TrimRightPadded(s, p);
    }
  }

  /** Trimming removes the blanks put around a text that neither starts
      nor ends with one. */
  lemma TrimPadded(pre: string, c: string, post: string)
    requires AllCut(pre) && AllCut(post) && c != [] && !IsCut(c[0]) && !IsCut(c[|c| - 1])
    ensures Trim(pre + c + post) == c
  {
    assert pre + c + post == pre + (c + post);
    TrimLeftPadded(pre, c + post);
    TrimRightPadded(c, post);
  }

  /** A screening code run on into a line break and the next row's first
      byte, with no ';' between them, is one token. trim removes blanks
      only at a token's edges, so the line break stays inside and the
      decoder refuses the token. */
  lemma CodeRunsOn(r: ScreeningResult, brk: string, next: string)
    requires AllCut(brk) && next != [] && !IsCut(next[0])
    ensures var t := ScreeningCode(r) + brk + next;
      ScreeningResultOf(t) == Err(BadScreeningResult(t))
  {
    var t := ScreeningCode(r) + brk + next;
    assert "" + t == t;
    TrimLeftPadded("", t);
    assert t[1 + |brk|] == next[0];
    TrimRightKeeps(t, 1 + |brk|);
  }

  /** TrimRight keeps every byte up to the last one outside the cutset. */
  lemma {:induction false} TrimRightKeeps(t: string, i: nat)
    requires i < |t| && !IsCut(t[i])
    ensures |TrimRight(t)| > i
    decreases |t|
  {
    if IsCut(t[|t| - 1]) {
      assert t[..|t| - 1][i] == t[i];
      TrimRightKeeps(t[..|t| - 1], i);
    }
  }

  /** The String methods and the iota values tell the constants apart. */
  lemma NamesDistinct(m1: Monocular, m2: Monocular, r1: ScreeningResult, r2: ScreeningResult)
    ensures MonocularName(m1) == MonocularName(m2) <==> m1 == m2
    ensures ScreeningName(r1) == ScreeningName(r2) <==> r1 == r2
    ensures MonocularValue(m1) == MonocularValue(m2) <==> m1 == m2
    ensures ScreeningValue(r1) == ScreeningValue(r2) <==> r1 == r2
  {
  }

  /** The String names are not wire codes: what Monocular.String and
      ScreeningResult.String print does not decode, blanks or not, so
      DataRow.String's output cannot be read back. */
  lemma NamesNotCodes(m: Monocular, r: ScreeningResult, pre: string, post: string)
    requires AllCut(pre) && AllCut(post)
    ensures MonocularOf(pre + MonocularName(m) + post).Err?
    ensures ScreeningResultOf(pre + ScreeningName(r) + post).Err?
  {
    TrimPadded(pre, MonocularName(m), post);
    TrimPadded(pre, ScreeningName(r), post);
  }
}
