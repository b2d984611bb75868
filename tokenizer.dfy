/** The semicolon tokenizer of the screening-export parser: the split
    function that Parse hands to its bufio.Scanner, the three position
    counters that split function updates as it goes, and the scanner cursor
    that the header validator and every field decoder advance.

    Text is a byte string: each char holds one byte of the input (so the
    UTF-8 degree sign is the two chars \U{C2}\U{B0}), and the counters count
    bytes as the source does. The input is modelled as fully buffered: the
    split function always sees every byte not yet consumed. */
module Tokenizer {

  /** Index of the first ';' in s, or |s| when s holds none. */
  function SemiIndex(s: string): (k: nat)
    ensures k <= |s|
  {
    if s == [] || s[0] == ';' then 0 else 1 + SemiIndex(s[1..])
  }

  /** SemiIndex finds the first ';': none comes before it, and it is one
      unless it is the end of s. */
  lemma {:induction false} SemiIndexFirst(s: string)
    ensures var k := SemiIndex(s);
      (forall i :: 0 <= i < k ==> s[i] != ';') && (k < |s| ==> s[k] == ';')
    decreases |s|
  {
    if s != [] && s[0] != ';' {
      SemiIndexFirst(s[1..]);
    }
  }

  /** Up to the first ';', a byte is that ';' exactly when it is at
      SemiIndex. */
  lemma SemiAt(s: string, i: nat)
    requires i <= SemiIndex(s) && i < |s|
    ensures s[i] == ';' <==> SemiIndex(s) == i
  {
    SemiIndexFirst(s);
  }

  /** The tokens the scanner delivers for a fully buffered input: the bytes
      before each ';', then whatever follows the last ';' as one final token,
      which may be empty. */
  function Tokens(s: string): (ts: seq<string>)
    ensures |ts| >= 1
    decreases |s|
  {
    var k := SemiIndex(s);
    if k == |s| then [s] else [s[..k]] + Tokens(s[k + 1..])
  }

  /** No token holds a ';'. */
  lemma {:induction false} TokensNoSemi(s: string)
    ensures forall i :: 0 <= i < |Tokens(s)| ==> ';' !in Tokens(s)[i]
    decreases |s|
  {
    var k := SemiIndex(s);
    SemiIndexFirst(s);
    if k < |s| {
      TokensNoSemi(s[k + 1..]);
    }
  }

  /** The tokens glued back together with ';' between neighbours. */
  function Join(ts: seq<string>): string
  {
    if ts == [] then "" else if |ts| == 1 then ts[0] else ts[0] + ";" + Join(ts[1..])
  }

  /** Number of occurrences of byte c in s. */
  function Occurrences(s: string, c: char): nat
  {
    if s == [] then 0 else Occurrences(s[..|s| - 1], c) + (if s[|s| - 1] == c then 1 else 0)
  }

  lemma {:induction false} OccurrencesAppend(a: string, b: string, c: char)
    ensures Occurrences(a + b, c) == Occurrences(a, c) + Occurrences(b, c)
    decreases |b|
  {
    if b != [] {
      assert (a + b)[..|a + b| - 1] == a + b[..|b| - 1];
      OccurrencesAppend(a, b[..|b| - 1], c);
    } else {
      assert a + b == a;
    }
  }

  /** Joining the tokens with ';' gives back the input exactly. */
  lemma {:induction false} JoinTokens(s: string)
    ensures Join(Tokens(s)) == s
    decreases |s|
  {
    var k := SemiIndex(s);
    SemiIndexFirst(s);
    if k < |s| {
      JoinTokens(s[k + 1..]);
      assert s == s[..k] + ";" + s[k + 1..];
    }
  }

  /** Splitting a join of ';'-free tokens gives back those tokens. */
  lemma {:induction false} TokensJoin(ts: seq<string>)
    requires |ts| >= 1
    requires forall i :: 0 <= i < |ts| ==> ';' !in ts[i]
    ensures Tokens(Join(ts)) == ts
    decreases |ts|
  {
    var s := Join(ts);
    var k := SemiIndex(s);
    SemiIndexFirst(s);
    if |ts| > 1 {
      var rest := Join(ts[1..]);
      assert s == ts[0] + ";" + rest;
      assert s[|ts[0]|] == ';';
      assert k == |ts[0]|;
      assert s[..k] == ts[0];
      assert s[k + 1..] == rest;
      TokensJoin(ts[1..]);
    }
  }

  /** The scanner delivers one token more than there are ';' in the input. */
  lemma {:induction false} TokenCount(s: string)
    ensures |Tokens(s)| == Occurrences(s, ';') + 1
    decreases |s|
  {
    var k := SemiIndex(s);
    SemiIndexFirst(s);
    if k == |s| {
      NoOccurrences(s, ';');
    } else {
      TokenCount(s[k + 1..]);
      assert s == s[..k] + [';'] + s[k + 1..];
      OccurrencesAppend(s[..k] + [';'], s[k + 1..], ';');
      OccurrencesAppend(s[..k], [';'], ';');
      assert ([] + [';'])[..0] == [];
      NoOccurrences(s[..k], ';');
    }
  }

  lemma {:induction false} NoOccurrences(s: string, c: char)
    requires forall i :: 0 <= i < |s| ==> s[i] != c
    ensures Occurrences(s, c) == 0
    decreases |s|
  {
    if s != [] {
      NoOccurrences(s[..|s| - 1], c);
    }
  }

  // ---------------------------------------------------------------------
  // Position counters

  /** line, columnEnd and tokenSize, the three variables the split closure
      captures and updates. */
  datatype Counters = Counters(line: int, columnEnd: int, tokenSize: int)

  /** Number of bytes of p after its last ';' (all of p when it has none):
      the length of the token being scanned. */
  function SinceSemi(p: string): (r: nat)
    ensures r <= |p|
  {
    if p == [] || p[|p| - 1] == ';' then 0 else 1 + SinceSemi(p[..|p| - 1])
  }

  /** SinceSemi counts the bytes after the last ';': none of them is a ';'
      and the byte before them is one. */
  lemma {:induction false} SinceSemiLast(p: string)
    ensures var r := SinceSemi(p);
      (forall i :: |p| - r <= i < |p| ==> p[i] != ';') && (r < |p| ==> p[|p| - r - 1] == ';')
    decreases |p|
  {
    if p != [] && p[|p| - 1] != ';' {
      SinceSemiLast(p[..|p| - 1]);
    }
  }

  /** The counters once the split function has examined the bytes p, one at
      a time, each split call starting right after a ';': every byte moves
      columnEnd on; a ';' records the length of its token plus one in
      tokenSize; a '\n' moves line on and resets columnEnd and tokenSize. */
  function Track(p: string): Counters
    decreases |p|
  {
    if p == [] then Counters(1, 1, 0)
    else
      var q := p[..|p| - 1];
      var c := Track(q);
      if p[|p| - 1] == ';' then Counters(c.line, c.columnEnd + 1, SinceSemi(q) + 1)
      else if p[|p| - 1] == '\n' then Counters(c.line + 1, 1, 0)
      else Counters(c.line, c.columnEnd + 1, c.tokenSize)
  }

  /** Index just after the last '\n' of p, or 0 when p has none. */
  function LineStart(p: string): (r: nat)
    ensures r <= |p|
  {
    if p == [] then 0 else if p[|p| - 1] == '\n' then |p| else LineStart(p[..|p| - 1])
  }

  /** LineStart is just after the last newline: no newline follows it. */
  lemma {:induction false} LineStartLast(p: string)
    ensures var r := LineStart(p);
      (forall i :: r <= i < |p| ==> p[i] != '\n') && (r > 0 ==> p[r - 1] == '\n')
    decreases |p|
  {
    if p != [] && p[|p| - 1] != '\n' {
      LineStartLast(p[..|p| - 1]);
    }
  }

  /** Index just after the last byte of p that is a ';' or a '\n', or 0
      when p has neither. */
  function LastMark(p: string): (r: nat)
    ensures r <= |p|
    ensures r > 0 ==> p[r - 1] == ';' || p[r - 1] == '\n'
  {
    if p == [] then 0
    else if p[|p| - 1] == ';' || p[|p| - 1] == '\n' then |p|
    else LastMark(p[..|p| - 1])
  }

  /** line is one more than the number of newlines consumed. */
  lemma {:induction false} TrackLine(p: string)
    ensures Track(p).line == 1 + Occurrences(p, '\n')
    decreases |p|
  {
    if p != [] {
      TrackLine(p[..|p| - 1]);
    }
  }

  /** columnEnd is one more than the number of bytes consumed since the last
      newline (or since the start). */
  lemma {:induction false} TrackColumn(p: string)
    ensures Track(p).columnEnd == 1 + |p| - LineStart(p)
    decreases |p|
  {
    if p != [] {
      TrackColumn(p[..|p| - 1]);
    }
  }

  /** tokenSize is the length plus one of the last ';'-terminated token,
      unless a newline came after that ';', or no ';' came at all: then 0. */
  lemma {:induction false} TrackTokenSize(p: string)
    ensures var m := LastMark(p);
      Track(p).tokenSize == if m == 0 || p[m - 1] == '\n' then 0 else SinceSemi(p[..m - 1]) + 1
    decreases |p|
  {
    if p != [] {
      var q := p[..|p| - 1];
      TrackTokenSize(q);
      if p[|p| - 1] != ';' && p[|p| - 1] != '\n' {
        var m := LastMark(p);
        assert m == LastMark(q);
        if m > 0 {
          assert p[..m - 1] == q[..m - 1];
        }
      }
    }
  }

  /** One more byte: the step the split function takes for it. */
  lemma TrackSnoc(s: string, n: nat)
    requires n < |s|
    ensures s[..n + 1][..n] == s[..n]
    ensures Track(s[..n + 1]) ==
      (var c := Track(s[..n]);
       if s[n] == ';' then Counters(c.line, c.columnEnd + 1, SinceSemi(s[..n]) + 1)
       else if s[n] == '\n' then Counters(c.line + 1, 1, 0)
       else Counters(c.line, c.columnEnd + 1, c.tokenSize))
    ensures SinceSemi(s[..n + 1]) == if s[n] == ';' then 0 else SinceSemi(s[..n]) + 1
  {
    assert s[..n + 1][..n] == s[..n];
  }

  /** The counters after one more byte, as the split closure updates
      them: m is the length of the longer prefix. */
  lemma TrackByte(data: string, n: nat, b: char, p: Counters, q: Counters, since: nat, m: nat)
    requires n < |data| && data[n] == b && m == n + 1 && p == Track(data[..n]) && since == SinceSemi(data[..n])
    requires q == if b == ';' then Counters(p.line, p.columnEnd + 1, since + 1)
      else if b == '\n' then Counters(p.line + 1, 1, 0)
      else Counters(p.line, p.columnEnd + 1, p.tokenSize)
    ensures q == Track(data[..m])
    ensures SinceSemi(data[..m]) == if b == ';' then 0 else since + 1
  {
    TrackSnoc(data, n);
  }

  /** The line counter never goes back as more bytes are consumed. */
  lemma LineMonotone(p: string, q: string)
    requires p <= q
    ensures Track(p).line <= Track(q).line
  {
    TrackLine(p);
    TrackLine(q);
    assert q == p + q[|p|..];
    OccurrencesAppend(p, q[|p|..], '\n');
  }

  // ---------------------------------------------------------------------
  // The cursor as values

  /** Where the split function leaves the input when it starts at offset o:
      past the next ';', or at the end when none remains. */
  function NextOffset(s: string, o: nat): (o': nat)
    requires o <= |s|
    ensures o <= o' <= |s|
  {
    var k := SemiIndex(s[o..]);
    if k == |s| - o then |s| else o + k + 1
  }

  /** Bytes of s the split function has consumed once the scanner has
      delivered n tokens: each token and its ';', and the whole input once
      the final token is out. */
  function Offset(s: string, n: nat): (o: nat)
    ensures o <= |s|
  {
    if n == 0 then 0 else NextOffset(s, Offset(s, n - 1))
  }

  lemma DropDrop<T>(s: seq<T>, a: nat, b: nat, c: nat)
    requires c == a + b <= |s|
    ensures s[a..][b..] == s[c..]
  {
  }

  /** After n tokens the rest of the input splits into the remaining
      tokens, and the split function starts at a token boundary. */
  lemma {:induction false} OffsetTokens(s: string, n: nat)
    requires n < |Tokens(s)|
    ensures Tokens(s[Offset(s, n)..]) == Tokens(s)[n..]
  {
    if n == 0 {
      assert s[0..] == s;
    } else {
      OffsetTokens(s, n - 1);
      OffsetTokensStep(s, Offset(s, n - 1), n);
    }
  }

  /** OffsetTokens one token further: the token at offset o and its ';'
      are consumed, and the tokens of the rest follow. */
  lemma OffsetTokensStep(s: string, o: nat, n: nat)
    requires 0 < n < |Tokens(s)| && o == Offset(s, n - 1)
    requires Tokens(s[o..]) == Tokens(s)[n - 1..]
    ensures Tokens(s[Offset(s, n)..]) == Tokens(s)[n..]
  {
    var chunk := s[o..];
    var k := SemiIndex(chunk);
    assert k < |chunk| && Tokens(chunk)[1..] == Tokens(chunk[k + 1..]) by {
      TokensRest(chunk);
    }
    assert Tokens(s)[n..] == Tokens(chunk)[1..] by {
      DropDrop(Tokens(s), n - 1, 1, n);
    }
    assert s[Offset(s, n)..] == chunk[k + 1..] by {
      DropDrop(s, o, k + 1, o + k + 1);
    }
  }

  /** A chunk holding a ';' yields its first token and then the tokens of
      what follows that ';'. */
  lemma TokensRest(chunk: string)
    requires |Tokens(chunk)| >= 2
    ensures SemiIndex(chunk) < |chunk|
    ensures Tokens(chunk)[1..] == Tokens(chunk[SemiIndex(chunk) + 1..])
  {
    var k := SemiIndex(chunk);
    assert Tokens(chunk) == if k == |chunk| then [chunk] else [chunk[..k]] + Tokens(chunk[k + 1..]);
    if k < |chunk| {
      var rest := Tokens(chunk[k + 1..]);
      assert ([chunk[..k]] + rest)[1..] == rest;
    }
  }

  /** Before the final token is out, the bytes consumed end with a ';'. */
  lemma OffsetBoundary(s: string, n: nat)
    requires n < |Tokens(s)|
    ensures var o := Offset(s, n); o == 0 || s[o - 1] == ';'
  {
    if n > 0 {
      var o := Offset(s, n - 1);
      var chunk := s[o..];
      var k := SemiIndex(chunk);
      assert k < |chunk| by {
        OffsetTokens(s, n - 1);
        TokensRest(chunk);
      }
      assert s[o + k] == ';' by {
        SemiAt(chunk, k);
      }
      assert Offset(s, n) == o + k + 1;
    }
  }

  /** The next token seen from the split function's side: the bytes from the
      current offset up to the next ';', the final one exactly when no ';'
      remains. */
  lemma NextToken(s: string, n: nat)
    requires n < |Tokens(s)|
    ensures var o := Offset(s, n); var k := SemiIndex(s[o..]);
      Tokens(s)[n] == s[o..][..k] &&
      (k == |s| - o <==> n + 1 == |Tokens(s)|) &&
      Offset(s, n + 1) == (if k == |s| - o then |s| else o + k + 1) &&
      SinceSemi(s[..o]) == 0
  {
    OffsetTokens(s, n);
    OffsetBoundary(s, n);
    assert Offset(s, n + 1) == NextOffset(s, Offset(s, n));
    var o := Offset(s, n);
    var chunk := s[o..];
    assert Tokens(chunk) == Tokens(s)[n..];
    if o > 0 {
      assert s[..o][o - 1] == ';';
    }
  }

  /** Once every token is delivered, every byte has been consumed. */
  lemma OffsetEnd(s: string)
    ensures Offset(s, |Tokens(s)|) == |s|
  {
    var n := |Tokens(s)| - 1;
    OffsetTokens(s, n);
    var o := Offset(s, n);
    var chunk := s[o..];
    assert SemiIndex(chunk) == |chunk| by {
      assert |Tokens(chunk)| == 1;
    }
    assert Offset(s, n + 1) == NextOffset(s, o);
  }

  /** The text of a scanner that has delivered c of the tokens toks: empty
      before the first Scan, then the last token delivered. */
  function TextAt(toks: seq<string>, c: nat): string
  {
    if 0 < c <= |toks| then toks[c - 1] else ""
  }

  /** The cursor after one more Scan: unchanged once every token is out. */
  function Next(toks: seq<string>, c: nat): nat
  {
    if c < |toks| then c + 1 else c
  }

  // ---------------------------------------------------------------------
  // The scanner

  /** The state of a scanner over data that has delivered idx tokens: done
      once all are out, reading on from the byte after the last delivered
      ';', holding the last delivered token as its text and the counters
      of the bytes consumed. */
  ghost predicate Scanned(data: string, idx: nat, done: bool, start: nat, text: string, p: Counters)
  {
    idx <= |Tokens(data)| &&
    (done <==> idx == |Tokens(data)|) &&
    (!done ==> start == Offset(data, idx)) &&
    text == TextAt(Tokens(data), idx) &&
    p == Track(data[..Offset(data, idx)])
  }

  /** One Scan on values: the split result for the bytes after token n
      leaves the state of n + 1 delivered tokens, and the line counter does
      not go back. */
  lemma ScanStep(data: string, n: nat, o: nat, chunk: string, advance: nat, token: string, final: bool, p: Counters,
                 n': nat, start': nat)
    requires n < |Tokens(data)| && o == Offset(data, n) && chunk == data[o..]
    requires var k := SemiIndex(chunk);
      if k < |chunk| then
        !final && advance == k + 1 && token == chunk[..k] && p == Track(data[..o + k + 1])
      else
        final && advance == 0 && token == chunk && p == Track(data)
    requires n' == n + 1 && start' == o + advance
    ensures Scanned(data, n', final, start', token, p)
    ensures Track(data[..o]).line <= p.line
  {
    NextToken(data, n);
    var k, o' := SemiIndex(chunk), Offset(data, n');
    assert TextAt(Tokens(data), n') == chunk[..k];
    if k < |chunk| {
      assert o' == o + k + 1 && n' < |Tokens(data)|;
    } else {
      assert o' == |data| && n' == |Tokens(data)|;
      assert data[..|data|] == data;
    }
    assert data[..o] <= data[..o'];
    LineMonotone(data[..o], data[..o']);
  }

  /** bufio.Scanner with the split closure of Parse, over a fully buffered
      input. The counters are the closure's captured variables; idx, the
      number of tokens delivered so far, is the abstract cursor. */
  class Scanner {
    const data: string
    var start: nat
    var text: string
    var done: bool
    var line: int
    var columnEnd: int
    var tokenSize: int
    ghost var idx: nat

    ghost function Toks(): seq<string>
    {
      Tokens(data)
    }

    function Position(): Counters
      reads this
    {
      Counters(line, columnEnd, tokenSize)
    }

    ghost predicate Valid()
      reads this
    {
      Scanned(data, idx, done, start, text, Position())
    }

    /** bufio.NewScanner(in) together with the counters' initial values
        (line 1, columnEnd 1, tokenSize 0). */
    constructor (input: string)
      ensures data == input && idx == 0 && Valid()
      ensures text == "" && Position() == Counters(1, 1, 0)
    {
      data := input;
      start := 0;
      text := "";
      done := false;
      line := 1;
      columnEnd := 1;
      tokenSize := 0;
      idx := 0;
    }

    /** The split closure: looks at chunk byte by byte, updating the
        counters, and cuts at the first ';'; without one it hands over the
        whole chunk as the final token. The closure sees only the chunk;
        from, where the chunk starts in the input, serves the proof. */
    method Split(chunk: string, ghost from: nat) returns (advance: nat, token: string, final: bool)
      requires from <= |data| && chunk == data[from..]
      requires Position() == Track(data[..from]) && SinceSemi(data[..from]) == 0
      modifies this`line, this`columnEnd, this`tokenSize
      ensures var k := SemiIndex(chunk);
        if k < |chunk| then
          !final && advance == k + 1 && token == chunk[..k] &&
          Position() == Track(data[..from + k + 1])
        else
          final && advance == 0 && token == chunk && Position() == Track(data)
    {
      var i := 0;
      while i < |chunk|
        invariant 0 <= i <= |chunk|
        invariant i <= SemiIndex(chunk)
        invariant Counters(line, columnEnd, tokenSize) == Track(data[..from + i])
        invariant SinceSemi(data[..from + i]) == i
      {
        ghost var j, p, b := i, Counters(line, columnEnd, tokenSize), chunk[i];
        assert data[from + i] == b;
        SemiAt(chunk, i);
        columnEnd := columnEnd + 1;
        if chunk[i] == ';' {
          tokenSize := i + 1;
          TrackByte(data, from + i, b, p, Counters(line, columnEnd, tokenSize), i, from + SemiIndex(chunk) + 1);
          return i + 1, chunk[..i], false;
        } else if chunk[i] == '\n' {
          line := line + 1;
          columnEnd := 1;
          tokenSize := 0;
        }
        i := i + 1;
        TrackByte(data, from + j, b, p, Counters(line, columnEnd, tokenSize), j, from + i);
      }
      assert data[..from + i] == data;
      return 0, chunk, true;
    }

    /** Scanner.Scan: false without any change once the final token has
        been delivered (the text keeps that token); otherwise the next token
        becomes the text. */
    method Scan() returns (ok: bool)
      requires Valid()
      modifies this
      ensures Valid()
      ensures ok == !old(done)
      ensures idx == Next(Tokens(data), old(idx))
      ensures line >= old(line)
    {
      if done {
        return false;
      }
      var chunk := data[start..];
      assert SinceSemi(data[..start]) == 0 by {
        NextToken(data, idx);
      }
      ghost var n, o := idx, start;
      var advance, token, final := Split(chunk, o);
      if final {
        done := true;
      } else {
        start := start + advance;
      }
      text := token;
      idx := idx + 1;
      ScanStep(data, n, o, chunk, advance, text, done, Position(), idx, start);
      ok := true;
    }
  }
}
