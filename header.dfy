/** The header check: the first twenty tokens must be the twenty column
    captions of version 1 of the export, byte for byte and untrimmed, and a
    further token must follow them. The check walks a list of 21 expected
    texts whose first entry is "", the scanner's text before its first
    Scan. */
module Header {
  import opened Tokenizer
  import opened Fields

  /** The column captions. The degree sign is the two bytes of its UTF-8
      encoding, and the OS cylinder caption has no blank before '['. */
  const Captions: seq<string> := [
    "Date of measurement",
    "Primary key",
    "Family name",
    "First name",
    "Date of birth",
    "ID",
    "Location",
    "Contact",
    "Sphere [dpt] OD",
    "Cylinder [dpt] OD",
    "Axis [\U{C2}\U{B0}] OD",
    "Pupil size [mm] OD",
    "Sphere [dpt] OS",
    "Cylinder[dpt] OS",
    "Axis [\U{C2}\U{B0}] OS",
    "Pupil size [mm] OS",
    "Gaze asymmetry [\U{C2}\U{B0}] OS",
    "Pupil distance [mm]",
    "Monocular {1=OD, 2=OS, 3=Binocular}",
    "Screening result {0=Pass, 1=Refer, 2=Refer or try again}"
  ]

  /** The list parseHeader walks: "" and then the captions. */
  const Expected: seq<string> := [""] + Captions

  /** Why the header was refused: a text that differs from the expected
      one (quoted in that order by the message), or no token left to scan
      after a matching one. */
  datatype HeaderFault = Mismatch(actual: string, expected: string) | CannotContinue

  /** The header check's result, and when it fails the scanner cursor it
      fails at. */
  datatype HeaderOutcome = Accepted | Rejected(fault: HeaderFault, cursor: nat)

  /** The header check from entry j on, over tokens toks and the list of
      expected texts: at entry j the scanner has delivered j tokens. */
  function HeaderFrom(toks: seq<string>, expected: seq<string>, j: nat): (r: HeaderOutcome)
    requires j <= |expected|
    ensures r.Rejected? ==> j <= r.cursor < |expected|
    decreases |expected| - j
  {
    if j == |expected| then Accepted
    else if TextAt(toks, j) != expected[j] then Rejected(Mismatch(TextAt(toks, j), expected[j]), j)
    else if j >= |toks| then Rejected(CannotContinue, j)
    else HeaderFrom(toks, expected, j + 1)
  }

  /** The header check of a whole token sequence. */
  function HeaderCheck(toks: seq<string>): HeaderOutcome
  {
    HeaderFrom(toks, Expected, 0)
  }

  /** parseHeader, on a scanner that has not scanned yet. On success the
      scanner has delivered the twenty captions and one more token. */
  method ParseHeader(s: Scanner) returns (err: Option<HeaderFault>)
    requires s.Valid() && s.idx == 0
    modifies s
    ensures s.Valid()
    ensures err.None? ==> HeaderCheck(s.Toks()) == Accepted && s.idx == |Expected|
    ensures err.Some? ==> HeaderCheck(s.Toks()) == Rejected(err.value, s.idx)
  {
    var expected := Expected;
    for j := 0 to |expected|
      invariant s.Valid() && s.idx == j
      invariant HeaderCheck(s.Toks()) == HeaderFrom(s.Toks(), expected, j)
    {
      if s.text != expected[j] {
        return Some(Mismatch(s.text, expected[j]));
      }
      var more := s.Scan();
      if !more {
        return Some(CannotContinue);
      }
    }
    return None;
  }

  /** The expected entries from j on all match, with a token to spare. */
  lemma {:induction false} HeaderFromAccepts(toks: seq<string>, expected: seq<string>, j: nat)
    requires j <= |expected|
    ensures HeaderFrom(toks, expected, j) == Accepted <==>
      (j == |expected| || |toks| >= |expected|) &&
      forall i :: j <= i < |expected| ==> TextAt(toks, i) == expected[i]
    decreases |expected| - j
  {
    if j < |expected| {
      HeaderFromAccepts(toks, expected, j + 1);
    }
  }

  /** The header is accepted exactly when the first twenty tokens are the
      captions, untrimmed, and a twenty-first token exists. */
  lemma HeaderAccepted(toks: seq<string>)
    ensures HeaderCheck(toks) == Accepted <==> |toks| > |Captions| && toks[..|Captions|] == Captions
  {
    HeaderFromAccepts(toks, Expected, 0);
    if |toks| > |Captions| && toks[..|Captions|] == Captions {
      forall i | 0 <= i < |Expected|
        ensures TextAt(toks, i) == Expected[i]
      {
        if i > 0 {
          assert toks[..|Captions|][i - 1] == Captions[i - 1];
        }
      }
    }
    if HeaderCheck(toks) == Accepted {
      forall i | 0 <= i < |Captions|
        ensures toks[i] == Captions[i]
      {
        assert TextAt(toks, i + 1) == Expected[i + 1];
      }
    }
  }

  /** A refusal names the first entry that went wrong: every expected text
      before it matched. A mismatch quotes the token as it is and the text it
      should have been; running out of tokens happens only after a matching
      final token. */
  lemma {:induction false} HeaderFromRejected(toks: seq<string>, expected: seq<string>, j: nat)
    requires j <= |expected| && |expected| > 0 && expected[0] == "" && |toks| >= 1
    requires forall i :: 0 <= i < j ==> i < |toks| && TextAt(toks, i) == expected[i]
    ensures match HeaderFrom(toks, expected, j)
      case Accepted => true
      case Rejected(Mismatch(a, e), c) =>
        1 <= c <= |toks| && a == toks[c - 1] && e == expected[c] && a != e &&
        forall i :: 1 <= i < c ==> toks[i - 1] == expected[i]
      case Rejected(CannotContinue, c) =>
        1 <= c == |toks| < |expected| && forall i :: 1 <= i <= c ==> toks[i - 1] == expected[i]
    decreases |expected| - j
  {
    if j < |expected| {
      if j > 0 {
        assert j - 1 < |toks| && TextAt(toks, j - 1) == expected[j - 1];
      }
      if TextAt(toks, j) != expected[j] {
        forall i | 1 <= i < j
          ensures i - 1 < |toks| && toks[i - 1] == expected[i]
        {
          assert i < |toks| && TextAt(toks, i) == expected[i];
        }
      } else if j >= |toks| {
        forall i | 1 <= i <= j
          ensures i - 1 < |toks| && toks[i - 1] == expected[i]
        {
          if i < j {
            assert i < |toks| && TextAt(toks, i) == expected[i];
          }
        }
      } else {
        HeaderFromRejected(toks, expected, j + 1);
      }
    }
  }

  /** Entries 1 to c of the expected list matched by the first c tokens
      means those tokens are the first c captions. */
  lemma CaptionsPrefix(toks: seq<string>, expected: seq<string>, captions: seq<string>, c: nat)
    requires expected == [""] + captions && c <= |toks| && c <= |captions|
    requires forall i :: 1 <= i <= c ==> toks[i - 1] == expected[i]
    ensures toks[..c] == captions[..c]
  {
    forall i | 0 <= i < c
      ensures toks[i] == captions[i]
    {
      assert toks[i] == expected[i + 1];
    }
  }

  /** A refused header: a mismatch at cursor c quotes token c - 1 as it is
      and caption c - 1, all captions before it having matched; running out
      of tokens means the input is a prefix of the captions, possibly all
      twenty with nothing after them. */
  lemma HeaderRejected(toks: seq<string>)
    requires |toks| >= 1
    ensures match HeaderCheck(toks)
      case Accepted => true
      case Rejected(Mismatch(a, e), c) =>
        1 <= c <= |Captions| && c <= |toks| && a == toks[c - 1] && e == Captions[c - 1] && a != e &&
        toks[..c - 1] == Captions[..c - 1]
      case Rejected(CannotContinue, c) =>
        c == |toks| <= |Captions| && toks == Captions[..c]
  {
    HeaderFromRejected(toks, Expected, 0);
    match HeaderCheck(toks)
    case Accepted =>
    case Rejected(Mismatch(_, _), c) =>
      CaptionsPrefix(toks, Expected, Captions, c - 1);
    case Rejected(CannotContinue, c) =>
      CaptionsPrefix(toks, Expected, Captions, c);
      assert toks == toks[..c];
  }
}
