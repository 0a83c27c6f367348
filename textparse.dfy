/** The delimited-text reader of src/nerdy.js: newline normalisation, trimming,
    String.prototype.split, the quote-gluing backward pass of parse.splitLine,
    and parse itself. Text is a sequence of characters. */
module TextParse {

  // ---------------------------------------------------------------------------
  // Whitespace and trimming
  // ---------------------------------------------------------------------------

  /** The characters a regular expression's \s matches. */
  predicate IsSpace(c: char)
  {
    c == ' ' || c == '\t' || c == '\n' || c == '\r' || c == '\U{B}' || c == '\U{C}'
    || c == '\U{A0}' || c == '\U{1680}' || ('\U{2000}' <= c <= '\U{200A}')
    || c == '\U{2028}' || c == '\U{2029}' || c == '\U{202F}' || c == '\U{205F}'
    || c == '\U{3000}' || c == '\U{FEFF}'
  }

  ghost predicate AllSpace(s: string)
  {
    forall i :: 0 <= i < |s| ==> IsSpace(s[i])
  }

  /** The length of the leading whitespace run. */
  function LeadWs(s: string): (k: nat)
    ensures k <= |s|
  {
    if s == [] || !IsSpace(s[0]) then 0 else 1 + LeadWs(s[1..])
  }

  /** The leading run is all whitespace and ends at a non-space character or
      at the end. */
  lemma {:induction false} LeadWsSpec(s: string)
    ensures forall i :: 0 <= i < LeadWs(s) ==> IsSpace(s[i])
    ensures LeadWs(s) < |s| ==> !IsSpace(s[LeadWs(s)])
    decreases |s|
  {
    if s != [] && IsSpace(s[0]) {
      var t := s[1..];
      LeadWsSpec(t);
      assert forall i :: 1 <= i < |s| ==> s[i] == t[i - 1];
    }
  }

  /** The length of the trailing whitespace run. */
  function TrailWs(s: string): (k: nat)
    ensures k <= |s|
  {
    if s == [] || !IsSpace(s[|s| - 1]) then 0 else 1 + TrailWs(s[..|s| - 1])
  }

  /** The trailing run is all whitespace and starts after a non-space
      character or at the start. */
  lemma {:induction false} TrailWsSpec(s: string)
    ensures forall i :: |s| - TrailWs(s) <= i < |s| ==> IsSpace(s[i])
    ensures TrailWs(s) < |s| ==> !IsSpace(s[|s| - 1 - TrailWs(s)])
    decreases |s|
  {
    if s != [] && IsSpace(s[|s| - 1]) {
      var t := s[..|s| - 1];
      TrailWsSpec(t);
      assert forall i :: 0 <= i < |t| ==> s[i] == t[i];
    }
  }

  /** parse.trim: text.replace(/^\s+|\s+$/g, ''). */
  function Trim(s: string): (r: string)
  {
    var t := s[LeadWs(s)..];
    t[..|t| - TrailWs(t)]
  }

  /** Trim removes exactly a whitespace prefix and a whitespace suffix: what is
      left is empty or starts and ends with a non-space character. */
  lemma TrimSpec(s: string)
    ensures exists i, j :: 0 <= i <= j <= |s| && Trim(s) == s[i..j] && AllSpace(s[..i]) && AllSpace(s[j..])
    ensures Trim(s) != [] ==> !IsSpace(Trim(s)[0]) && !IsSpace(Trim(s)[|Trim(s)| - 1])
    ensures Trim(s) == [] <==> AllSpace(s)
  {
    var i := LeadWs(s);
    var j := i + |s[i..]| - TrailWs(s[i..]);
    TrimWindow(s);
    assert Trim(s) == s[i..j] && AllSpace(s[..i]) && AllSpace(s[j..]);
    if Trim(s) == [] {
      assert s == s[..i] + s[j..];
    }
  }

  /** Trim(s) is the window s[i..j] between the leading and trailing runs;
      a non-empty window starts and ends with a non-space character. */
  lemma TrimWindow(s: string)
    ensures var i := LeadWs(s);
            var j := i + |s[i..]| - TrailWs(s[i..]);
            i <= j <= |s| && Trim(s) == s[i..j] && AllSpace(s[..i]) && AllSpace(s[j..])
            && (i < j ==> !IsSpace(s[i]) && !IsSpace(s[j - 1]))
  {
    var i := LeadWs(s);
    var t := s[i..];
    var j := i + |t| - TrailWs(t);
    LeadWsSpec(s);
    TrailWsSpec(t);
    assert s[j..] == t[|t| - TrailWs(t)..];
  }

  lemma TrimIdempotent(s: string)
    ensures Trim(Trim(s)) == Trim(s)
  {
    TrimSpec(s);
    var r := Trim(s);
    assert LeadWs(r) == 0;
    assert TrailWs(r) == 0;
  }

  /** A string with no whitespace at either end is its own trim. */
  lemma TrimOfTrimmed(s: string)
    requires s != [] ==> !IsSpace(s[0]) && !IsSpace(s[|s| - 1])
    ensures Trim(s) == s
  {
    assert LeadWs(s) == 0;
    assert TrailWs(s) == 0;
  }

  // ---------------------------------------------------------------------------
  // Newlines
  // ---------------------------------------------------------------------------

  /** text.replace(/\r\n/g, '\n'): left to right, non-overlapping. */
  function CrLfToLf(s: string): (r: string)
    ensures |r| <= |s|
  {
    if s == [] then []
    else if |s| >= 2 && s[0] == '\r' && s[1] == '\n' then "\n" + CrLfToLf(s[2..])
    else [s[0]] + CrLfToLf(s[1..])
  }

  /** text.replace(/\r/g, '\n'). */
  function CrToLf(s: string): (r: string)
    ensures |r| == |s|
  {
    if s == [] then [] else [if s[0] == '\r' then '\n' else s[0]] + CrToLf(s[1..])
  }

  /** parse.normalizeNewlines. */
  function NormalizeNewlines(text: string): (r: string)
  {
    CrToLf(CrLfToLf(text))
  }

  /** Reference reading in one pass: "\r\n" and every lone '\r' become '\n'. */
  function LineEnds(s: string): string
  {
    if s == [] then []
    else if |s| >= 2 && s[0] == '\r' && s[1] == '\n' then "\n" + LineEnds(s[2..])
    else if s[0] == '\r' then "\n" + LineEnds(s[1..])
    else [s[0]] + LineEnds(s[1..])
  }

  lemma {:induction false} CrToLfAppend(a: string, b: string)
    ensures CrToLf(a + b) == CrToLf(a) + CrToLf(b)
    decreases |a|
  {
    if a != [] {
      assert (a + b)[1..] == a[1..] + b;
      CrToLfAppend(a[1..], b);
    } else {
      assert a + b == b;
    }
  }

  lemma {:induction false} NormalizeIsLineEnds(s: string)
    ensures NormalizeNewlines(s) == LineEnds(s)
    decreases |s|
  {
    if s == [] {
    } else if |s| >= 2 && s[0] == '\r' && s[1] == '\n' {
      NormalizeIsLineEnds(s[2..]);
      CrToLfAppend("\n", CrLfToLf(s[2..]));
    } else {
      NormalizeIsLineEnds(s[1..]);
      CrToLfAppend([s[0]], CrLfToLf(s[1..]));
    }
  }

  lemma {:induction false} LineEndsNoCr(s: string)
    ensures '\r' !in LineEnds(s)
    decreases |s|
  {
    if s == [] {
    } else if |s| >= 2 && s[0] == '\r' && s[1] == '\n' {
      LineEndsNoCr(s[2..]);
    } else {
      LineEndsNoCr(s[1..]);
    }
  }

  lemma {:induction false} LineEndsNoCrId(s: string)
    requires '\r' !in s
    ensures LineEnds(s) == s
    decreases |s|
  {
    if s != [] {
      LineEndsNoCrId(s[1..]);
      assert s == [s[0]] + s[1..];
    }
  }

  /** normalizeNewlines leaves no carriage return, and a second application
      changes nothing. */
  lemma NormalizeNewlinesSpec(s: string)
    ensures '\r' !in NormalizeNewlines(s)
    ensures NormalizeNewlines(NormalizeNewlines(s)) == NormalizeNewlines(s)
    ensures '\r' !in s ==> NormalizeNewlines(s) == s
  {
    NormalizeIsLineEnds(s);
    LineEndsNoCr(s);
    NormalizeIsLineEnds(LineEnds(s));
    LineEndsNoCrId(LineEnds(s));
    if '\r' !in s {
      LineEndsNoCrId(s);
    }
  }

  // ---------------------------------------------------------------------------
  // String.prototype.split and Array.prototype.join
  // ---------------------------------------------------------------------------

  /** s.split(d) for a non-empty separator: pieces between the non-overlapping
      occurrences of d, found left to right. */
  function Split(s: string, d: string): (r: seq<string>)
    requires d != []
    ensures |r| >= 1
    decreases |s|
  {
    if |s| < |d| then [s]
    else if s[..|d|] == d then [[]] + Split(s[|d|..], d)
    else var rest := Split(s[1..], d); [[s[0]] + rest[0]] + rest[1..]
  }

  /** ps.join(d). */
  function Join(ps: seq<string>, d: string): string
  {
    if ps == [] then []
    else if |ps| == 1 then ps[0]
    else ps[0] + d + Join(ps[1..], d)
  }

  /** Joining the pieces with the separator gives the text back. */
  lemma {:induction false} JoinSplit(s: string, d: string)
    requires d != []
    ensures Join(Split(s, d), d) == s
    decreases |s|
  {
    if |s| < |d| {
    } else if s[..|d|] == d {
      var rest := Split(s[|d|..], d);
      JoinSplit(s[|d|..], d);
      SplitAtSeparator(s, d);
      JoinCons([], rest, d);
      PrefixRest(s, |d|);
    } else {
      var rest := Split(s[1..], d);
      JoinSplit(s[1..], d);
      SplitAtChar(s, d);
      JoinExtendHead(s[0], rest, d);
      PrefixRest(s, 1);
    }
  }

  lemma SplitAtSeparator(s: string, d: string)
    requires d != [] && |s| >= |d| && s[..|d|] == d
    ensures Split(s, d) == [[]] + Split(s[|d|..], d)
  {
  }

  lemma SplitAtChar(s: string, d: string)
    requires d != [] && |s| >= |d| && s[..|d|] != d
    ensures var rest := Split(s[1..], d);
            Split(s, d) == [[s[0]] + rest[0]] + rest[1..]
  {
  }

  lemma PrefixRest(s: string, n: nat)
    requires n <= |s|
    ensures [] + s[..n] + s[n..] == s
  {
  }

  lemma JoinCons(p: string, ps: seq<string>, d: string)
    requires |ps| >= 1
    ensures Join([p] + ps, d) == p + d + Join(ps, d)
  {
    assert ([p] + ps)[1..] == ps;
  }

  /** Putting a character in front of the first piece puts it in front of
      the join. */
  lemma JoinExtendHead(ch: char, ps: seq<string>, d: string)
    requires |ps| >= 1
    ensures Join([[ch] + ps[0]] + ps[1..], d) == [ch] + Join(ps, d)
  {
    if |ps| > 1 {
      JoinCons([ch] + ps[0], ps[1..], d);
    }
  }

  lemma {:induction false} SplitNoSeparator(s: string, c: char)
    requires c !in s
    ensures Split(s, [c]) == [s]
    decreases |s|
  {
    if |s| >= 1 {
      SplitNoSeparator(s[1..], c);
      assert s == [s[0]] + s[1..];
    }
  }

  lemma {:induction false} SplitFirstPiece(p: string, c: char, rest: string)
    requires c !in p
    ensures Split(p + [c] + rest, [c]) == [p] + Split(rest, [c])
    decreases |p|
  {
    var s := p + [c] + rest;
    if p == [] {
      assert s[..1] == [c];
      assert s[1..] == rest;
    } else {
      assert s[0] == p[0];
      assert s[..1] != [c];
      assert s[1..] == p[1..] + [c] + rest;
      SplitFirstPiece(p[1..], c, rest);
      assert [s[0]] + p[1..] == p;
    }
  }

  /** Splitting a join at a one-character separator none of the pieces holds
      gives the pieces back. */
  lemma {:induction false} SplitJoin(ps: seq<string>, c: char)
    requires |ps| >= 1
    requires forall i :: 0 <= i < |ps| ==> c !in ps[i]
    ensures Split(Join(ps, [c]), [c]) == ps
    decreases |ps|
  {
    if |ps| == 1 {
      SplitNoSeparator(ps[0], c);
    } else {
      SplitJoin(ps[1..], c);
      SplitFirstPiece(ps[0], c, Join(ps[1..], [c]));
      assert ps == [ps[0]] + ps[1..];
    }
  }

  /** Every character of a piece comes from the text. */
  lemma {:induction false} SplitChars(s: string, d: string, ch: char)
    requires d != [] && ch !in s
    ensures forall i :: 0 <= i < |Split(s, d)| ==> ch !in Split(s, d)[i]
    decreases |s|
  {
    if |s| < |d| {
    } else if s[..|d|] == d {
      assert forall k :: |d| <= k < |s| ==> s[k] in s;
      SplitChars(s[|d|..], d, ch);
    } else {
      assert forall k :: 1 <= k < |s| ==> s[k] in s;
      SplitChars(s[1..], d, ch);
    }
  }

  // ---------------------------------------------------------------------------
  // The tests of parse.splitLine, as written
  // ---------------------------------------------------------------------------

  /** str.charAt(i): the one-character string at i, or "" outside the string. */
  function CharAt(s: string, i: int): (r: string)
    ensures r != [] <==> 0 <= i < |s|
  {
    if 0 <= i < |s| then [s[i]] else []
  }

  /** piece.replace(/"\s+$/, '"'): whitespace after a final quote is dropped. */
  function DropWsAfterQuote(s: string): (r: string)
    ensures |r| <= |s|
  {
    var k := TrailWs(s);
    if 1 <= k < |s| && s[|s| - 1 - k] == '"' then s[..|s| - k] else s
  }

  /** The closing test of the backward pass as written: the character at the
      piece's ORIGINAL last position, read after the replace above. */
  predicate ClosesAsWritten(s: string)
  {
    CharAt(DropWsAfterQuote(s), |s| - 1) == "\""
  }

  /** A piece closes a quoted field when its last character is a quote. */
  predicate Closes(s: string)
  {
    |s| > 0 && s[|s| - 1] == '"'
  }

  /** The closing test is exactly "the last character is a quote": when the
      replace shortens the piece, the position read lies past its end, so a
      quote followed by whitespace never closes. */
  lemma ClosingTest(s: string)
    ensures ClosesAsWritten(s) <==> Closes(s)
  {
    var k := TrailWs(s);
    if 1 <= k < |s| && s[|s| - 1 - k] == '"' {
      assert !ClosesAsWritten(s);
    }
  }

  /** piece.replace(/^\s+"/, '"'): whitespace before an opening quote is
      dropped. */
  function DropWsBeforeQuote(s: string): string
  {
    var k := LeadWs(s);
    if 1 <= k < |s| && s[k] == '"' then s[k..] else s
  }

  /** The opening test as written: tl.length > 1 && tl.charAt(0) == '"'. */
  predicate OpensAsWritten(s: string)
  {
    var tl := DropWsBeforeQuote(s);
    |tl| > 1 && tl[0] == '"'
  }

  /** A piece opens a quoted field when its first non-space character is a
      quote that is not its last character. */
  predicate Opens(s: string)
  {
    LeadWs(s) + 1 < |s| && s[LeadWs(s)] == '"'
  }

  lemma OpeningTest(s: string)
    ensures OpensAsWritten(s) <==> Opens(s)
  {
  }

  /** piece.replace(/^\s*"|"\s*$/g, '') on a piece that opens and closes: the
      opening quote with the whitespace before it, and the final quote, go. */
  function Unquote(s: string): (r: string)
    requires Opens(s) && Closes(s)
    ensures |r| <= |s| - 2
  {
    s[LeadWs(s) + 1..|s| - 1]
  }

  /** .replace(/""/g, '"'): each doubled quote becomes one, left to right. */
  function Collapse(s: string): (r: string)
    ensures |r| <= |s|
  {
    if s == [] then []
    else if |s| >= 2 && s[0] == '"' && s[1] == '"' then "\"" + Collapse(s[2..])
    else [s[0]] + Collapse(s[1..])
  }

  /** Doubling every quote: how a field holding quotes is written. */
  function Escape(s: string): (r: string)
    ensures |r| >= |s|
  {
    if s == [] then [] else (if s[0] == '"' then "\"\"" else [s[0]]) + Escape(s[1..])
  }

  /** Collapsing undoes escaping. */
  lemma {:induction false} CollapseEscape(s: string)
    ensures Collapse(Escape(s)) == s
    decreases |s|
  {
    if s != [] {
      CollapseEscape(s[1..]);
      var e := Escape(s);
      if s[0] == '"' {
        assert e[2..] == Escape(s[1..]);
      } else {
        assert e[1..] == Escape(s[1..]);
      }
      assert s == [s[0]] + s[1..];
    }
  }

  lemma {:induction false} CollapseNoQuote(s: string)
    requires '"' !in s
    ensures Collapse(s) == s
    decreases |s|
  {
    if s != [] {
      CollapseNoQuote(s[1..]);
      assert s == [s[0]] + s[1..];
    }
  }

  // ---------------------------------------------------------------------------
  // The backward pass of parse.splitLine
  // ---------------------------------------------------------------------------

  /** One iteration of the backward loop at index x. A closing piece that also
      opens is unquoted in place; one that does not is glued to its
      predecessor with the delimiter (x > 0), or, at x = 0, the first piece is
      split again and put back in front of the rest. Other pieces stay. */
  function Step(cols: seq<string>, x: nat, d: string): (r: seq<string>)
    requires x < |cols| && d != []
    ensures x > 0 ==> x - 1 < |r|
  {
    if Closes(cols[x]) then
      if Opens(cols[x]) then cols[x := Collapse(Unquote(cols[x]))]
      else if x > 0 then cols[..x - 1] + [cols[x - 1] + d + cols[x]] + cols[x + 1..]
      else Split(cols[0], d) + cols[1..]
    else cols
  }

  /** The loop from index x down to 0. */
  function BackPass(cols: seq<string>, x: int, d: string): seq<string>
    requires -1 <= x < |cols| && d != []
    decreases x + 1, 1
  {
    if x < 0 then cols else StepThenPass(cols, x, d)
  }

  /** The iteration at index x followed by the rest of the loop. */
  function StepThenPass(cols: seq<string>, x: nat, d: string): seq<string>
    requires x < |cols| && d != []
    decreases x + 1, 0
  {
    BackPass(Step(cols, x, d), x - 1, d)
  }

  /** `delimiter = delimiter || ","`. */
  function EffectiveDelimiter(delimiter: string): (d: string)
    ensures d != []
  {
    if delimiter == [] then "," else delimiter
  }

  function TrimAll(ps: seq<string>): (r: seq<string>)
    ensures |r| == |ps|
    ensures forall i :: 0 <= i < |ps| ==> r[i] == Trim(ps[i])
  {
    seq(|ps|, i requires 0 <= i < |ps| => Trim(ps[i]))
  }

  lemma TrimAllAppend(a: seq<string>, b: seq<string>)
    ensures TrimAll(a + b) == TrimAll(a) + TrimAll(b)
  {
    var l := TrimAll(a + b);
    var r := TrimAll(a) + TrimAll(b);
    assert |l| == |r|;
    forall i | 0 <= i < |l| ensures l[i] == r[i] {
      if i < |a| {
        assert (a + b)[i] == a[i];
      } else {
        assert (a + b)[i] == b[i - |a|];
      }
    }
  }

  /** What parse.splitLine returns. */
  function SplitLineSpec(line: string, delimiter: string): seq<string>
  {
    var d := EffectiveDelimiter(delimiter);
    var cols := Split(line, d);
    TrimAll(BackPass(cols, |cols| - 1, d))
  }

  lemma SplitLineSpecOf(line: string, d: string)
    requires d != []
    ensures SplitLineSpec(line, d) == TrimAll(BackPass(Split(line, d), |Split(line, d)| - 1, d))
  {
    assert EffectiveDelimiter(d) == d;
  }

  /** parse.splitLine(line, delimiter): split, then walk the pieces from the
      last to the first, unquoting or gluing closing pieces; trim at the end. */
  method SplitLine(line: string, delimiter: string) returns (fields: seq<string>)
    ensures fields == SplitLineSpec(line, delimiter)
  {
    var d := if delimiter == [] then "," else delimiter;
    var foo := Split(line, d);
    var x := |foo| - 1;
    while x >= 0
      invariant -1 <= x < |foo|
      invariant BackPass(foo, x, d) == BackPass(Split(line, d), |Split(line, d)| - 1, d)
      decreases x + 1
    {
      ClosingTest(foo[x]);
      OpeningTest(foo[x]);
      if ClosesAsWritten(foo[x]) {
        if OpensAsWritten(foo[x]) {
          foo := foo[x := Collapse(Unquote(foo[x]))];
        } else if x > 0 {
          foo := foo[..x - 1] + [foo[x - 1] + d + foo[x]] + foo[x + 1..];
        } else {
          foo := Split(foo[0], d) + foo[1..];
        }
      }
      x := x - 1;
    }
    fields := TrimAll(foo);
  }

  // ---------------------------------------------------------------------------
  // What the backward pass does
  // ---------------------------------------------------------------------------

  ghost predicate NoneCloses(ps: seq<string>)
  {
    forall i :: 0 <= i < |ps| ==> !Closes(ps[i])
  }

  /** Pieces that do not close are left exactly as they are, doubled quotes
      included. */
  lemma {:induction false} BackPassKeeps(ps: seq<string>, x: int, d: string)
    requires d != [] && -1 <= x < |ps|
    requires forall i :: 0 <= i <= x ==> !Closes(ps[i])
    ensures BackPass(ps, x, d) == ps
    decreases x + 1
  {
    if x >= 0 {
      BackPassKeeps(ps, x - 1, d);
    }
  }

  /** Non-closing pieces above index j are passed over. */
  lemma {:induction false} BackPassSkips(ps: seq<string>, x: int, j: int, d: string)
    requires d != [] && -1 <= j <= x < |ps|
    requires forall i :: j < i <= x ==> !Closes(ps[i])
    ensures BackPass(ps, x, d) == BackPass(ps, j, d)
    decreases x - j
  {
    if x > j {
      BackPassSkips(ps, x - 1, j, d);
    }
  }

  /** One step at x only looks at pieces up to x. */
  lemma StepFrame(a: seq<string>, b: seq<string>, x: nat, d: string)
    requires d != [] && x < |a|
    ensures Step(a + b, x, d) == Step(a, x, d) + b
  {
    var ab := a + b;
    assert ab[x] == a[x];
    if Closes(a[x]) {
      if Opens(a[x]) {
        assert ab[x := Collapse(Unquote(a[x]))] == a[x := Collapse(Unquote(a[x]))] + b;
      } else if x > 0 {
        assert ab[..x - 1] == a[..x - 1];
        assert ab[x - 1] == a[x - 1];
        assert ab[x + 1..] == a[x + 1..] + b;
      } else {
        assert ab[1..] == a[1..] + b;
      }
    }
  }

  /** Pieces past the current index are never touched. */
  lemma {:induction false} BackPassFrame(a: seq<string>, b: seq<string>, x: int, d: string)
    requires d != [] && -1 <= x < |a|
    ensures BackPass(a + b, x, d) == BackPass(a, x, d) + b
    decreases x + 1
  {
    if x >= 0 {
      StepFrame(a, b, x, d);
      BackPassFrame(Step(a, x, d), b, x - 1, d);
    }
  }

  lemma NotOpensWithoutQuote(v: string)
    requires '"' !in v
    ensures !Opens(v + "\"")
  {
    var s := v + "\"";
    var k := LeadWs(s);
    if k < |v| {
      assert s[k] == v[k];
    }
  }

  /** A piece that starts with a quote and ends with another one opens and
      closes, and unquoting strips exactly those two quotes. */
  lemma QuotedPiece(w: string)
    ensures var q := "\"" + w + "\"";
            Opens(q) && Closes(q) && Unquote(q) == w
  {
    var q := "\"" + w + "\"";
    assert q[0] == '"';
    assert LeadWs(q) == 0;
    assert q[1..|q| - 1] == w;
  }

  /** A piece whose only quote is its last character. */
  predicate ClosingOnly(s: string)
  {
    |s| > 0 && s[|s| - 1] == '"' && '"' !in s[..|s| - 1]
  }

  /** The gluing step: a piece whose only quote ends it closes without
      opening, so it is glued to the piece before it with the delimiter. */
  lemma GlueStep(cols: seq<string>, x: nat, d: string)
    requires d != [] && 0 < x < |cols| && ClosingOnly(cols[x])
    ensures Step(cols, x, d) == cols[..x - 1] + [cols[x - 1] + d + cols[x]] + cols[x + 1..]
  {
    var s := cols[x];
    assert s == s[..|s| - 1] + "\"";
    NotOpensWithoutQuote(s[..|s| - 1]);
  }

  /** Gluing quote-free text in front of such a piece keeps it so. */
  lemma ClosingOnlyGlue(a: string, d: string, s: string)
    requires '"' !in a && '"' !in d && ClosingOnly(s)
    ensures ClosingOnly(a + d + s)
  {
    var t := a + d + s;
    assert t[..|t| - 1] == a + d + s[..|s| - 1];
  }

  /** The pieces lo..x of cols glued into one with the delimiter. */
  function GlueRange(cols: seq<string>, lo: nat, x: nat, d: string): seq<string>
    requires lo <= x < |cols|
  {
    cols[..lo] + [Join(cols[lo..x + 1], d)] + cols[x + 1..]
  }

  lemma GlueRangeNone(cols: seq<string>, lo: nat, d: string)
    requires d != [] && lo < |cols|
    ensures PassDown(cols, lo, lo, d) == GlueRange(cols, lo, lo, d)
  {
    assert cols[lo..lo + 1] == [cols[lo]];
    assert cols == cols[..lo] + [cols[lo]] + cols[lo + 1..];
  }

  /** One glue step moves the end of the range one piece to the left. */
  lemma GlueRangeStep(cols: seq<string>, lo: nat, x: nat, d: string)
    requires lo < x < |cols|
    ensures GlueRange(cols[..x - 1] + [cols[x - 1] + d + cols[x]] + cols[x + 1..], lo, x - 1, d)
            == GlueRange(cols, lo, x, d)
  {
    var s := cols[..x - 1] + [cols[x - 1] + d + cols[x]] + cols[x + 1..];
    assert s[..lo] == cols[..lo];
    assert s[lo..x] == cols[lo..x - 1] + [cols[x - 1] + d + cols[x]];
    assert s[x..] == cols[x + 1..];
    JoinGlueLast(cols[lo..x - 1], cols[x - 1], cols[x], d);
    assert cols[lo..x - 1] + [cols[x - 1], cols[x]] == cols[lo..x + 1];
  }

  /** The glued pieces satisfy what the next glue step needs. */
  lemma GlueKeepsRun(cols: seq<string>, lo: nat, x: nat, d: string)
    requires lo < x < |cols| && ClosingOnly(cols[x])
    requires forall i :: lo < i < x ==> '"' !in cols[i]
    requires lo + 1 < x ==> '"' !in d
    ensures var s := cols[..x - 1] + [cols[x - 1] + d + cols[x]] + cols[x + 1..];
            x - 1 < |s| && (lo < x - 1 ==> ClosingOnly(s[x - 1]))
            && forall i :: lo < i < x - 1 ==> '"' !in s[i]
  {
    var s := cols[..x - 1] + [cols[x - 1] + d + cols[x]] + cols[x + 1..];
    assert s[x - 1] == cols[x - 1] + d + cols[x];
    if lo < x - 1 {
      ClosingOnlyGlue(cols[x - 1], d, cols[x]);
    }
    forall i | lo < i < x - 1 ensures '"' !in s[i] {
      assert s[i] == cols[i];
    }
  }

  /** One gluing step on such a run: its result s is a run one piece
      shorter that glues into the same range. */
  lemma GlueNext(cols: seq<string>, lo: nat, x: nat, d: string) returns (s: seq<string>)
    requires d != [] && lo < x < |cols| && ClosingOnly(cols[x])
    requires forall i :: lo < i < x ==> '"' !in cols[i]
    requires lo + 1 < x ==> '"' !in d
    ensures x - 1 < |s| && PassDown(cols, x, lo, d) == PassDown(s, x - 1, lo, d)
    ensures lo < x - 1 ==> ClosingOnly(s[x - 1])
    ensures forall i :: lo < i < x - 1 ==> '"' !in s[i]
    ensures GlueRange(s, lo, x - 1, d) == GlueRange(cols, lo, x, d)
  {
    s := cols[..x - 1] + [cols[x - 1] + d + cols[x]] + cols[x + 1..];
    GlueStep(cols, x, d);
    GlueKeepsRun(cols, lo, x, d);
    GlueRangeStep(cols, lo, x, d);
  }

  /** The backward pass stopped early: the steps at x, x - 1, …, lo + 1. */
  function PassDown(cols: seq<string>, x: nat, lo: nat, d: string): (r: seq<string>)
    requires d != [] && lo <= x < |cols|
    ensures lo < |r|
    decreases x, 1
  {
    if x == lo then cols else PassDownAfter(cols, x, lo, d)
  }

  function PassDownAfter(cols: seq<string>, x: nat, lo: nat, d: string): (r: seq<string>)
    requires d != [] && lo < x < |cols|
    ensures lo < |r|
    decreases x, 0
  {
    PassDown(Step(cols, x, d), x - 1, lo, d)
  }

  /** The full pass is the early-stopped one followed by the rest. */
  lemma {:induction false} PassDownThen(cols: seq<string>, x: nat, lo: nat, d: string)
    requires d != [] && lo <= x < |cols|
    ensures BackPass(cols, x, d) == BackPass(PassDown(cols, x, lo, d), lo, d)
    decreases x
  {
    if x > lo {
      PassDownThen(Step(cols, x, d), x - 1, lo, d);
    }
  }

  /** PassDownThen for a known result of the early-stopped pass. */
  lemma PassVia(cols: seq<string>, x: nat, lo: nat, d: string, g: seq<string>)
    requires d != [] && lo <= x < |cols| && PassDown(cols, x, lo, d) == g
    ensures lo < |g| && BackPass(cols, x, d) == BackPass(g, lo, d)
  {
    PassDownThen(cols, x, lo, d);
  }

  /** A run of pieces lo..x whose last one holds its only quote at its end
      and whose inner ones hold none: the backward pass glues them, right to
      left, into one piece, the delimiter between each two of them. */
  lemma {:induction false} GlueDown(cols: seq<string>, lo: nat, x: nat, d: string)
    requires d != [] && lo <= x < |cols|
    requires lo < x ==> ClosingOnly(cols[x])
    requires forall i :: lo < i < x ==> '"' !in cols[i]
    requires lo + 1 < x ==> '"' !in d
    ensures PassDown(cols, x, lo, d) == GlueRange(cols, lo, x, d)
    decreases x
  {
    if lo < x {
      var s := GlueNext(cols, lo, x, d);
      GlueDown(s, lo, x - 1, d);
    } else {
      GlueRangeNone(cols, lo, d);
    }
  }

  /** Quotes around a glued piece. */
  lemma QuotedAround(u: string, d: string, w: string)
    ensures "\"" + u + d + w + "\"" == "\"" + (u + d + w) + "\""
  {
  }

  /** Gluing the last two pieces is joining them. */
  lemma {:induction false} JoinGlueLast(a: seq<string>, x: string, y: string, d: string)
    ensures Join(a + [x + d + y], d) == Join(a + [x, y], d)
    decreases |a|
  {
    if a == [] {
      assert [x, y][1..] == [y];
    } else {
      JoinGlueLast(a[1..], x, y, d);
      assert a + [x + d + y] == [a[0]] + (a[1..] + [x + d + y]);
      assert a + [x, y] == [a[0]] + (a[1..] + [x, y]);
      JoinCons(a[0], a[1..] + [x + d + y], d);
      JoinCons(a[0], a[1..] + [x, y], d);
    }
  }

  /** The unquoting step on the glued field. */
  lemma UnquoteStep(pre: seq<string>, w: string, d: string)
    requires d != []
    ensures Step(pre + ["\"" + w + "\""], |pre|, d) == pre + [Collapse(w)]
  {
    var n := |pre|;
    var cols := pre + ["\"" + w + "\""];
    assert cols[n] == "\"" + w + "\"";
    QuotedPiece(w);
    assert cols[n := Collapse(w)] == pre + [Collapse(w)];
  }

  /** Trailing pieces that do not close are passed over. */
  lemma SkipTail(a: seq<string>, b: seq<string>, d: string)
    requires d != [] && NoneCloses(b)
    ensures BackPass(a + b, |a + b| - 1, d) == BackPass(a, |a| - 1, d) + b
  {
    var ab := a + b;
    forall i | |a| - 1 < i <= |ab| - 1 ensures !Closes(ab[i]) {
      assert ab[i] == b[i - |a|];
    }
    BackPassSkips(ab, |ab| - 1, |a| - 1, d);
    BackPassFrame(a, b, |a| - 1, d);
  }

  /** A quoted field cut at the delimiters inside it into the pieces `"u`,
      m1, …, mk, `v"` (k may be 0), with pieces that do not close on either
      side: the pieces are glued back with the delimiter, the quotes are
      stripped and doubled quotes collapse, and nothing else changes. */
  lemma QuotedFieldRejoined(pre: seq<string>, u: string, mids: seq<string>, v: string,
                            post: seq<string>, d: string)
    requires d != [] && '"' !in v
    requires forall i :: 0 <= i < |mids| ==> '"' !in mids[i]
    requires mids != [] ==> '"' !in d
    requires NoneCloses(pre) && NoneCloses(post)
    ensures var cols := pre + ["\"" + u] + mids + [v + "\""] + post;
            BackPass(cols, |cols| - 1, d) == pre + [Collapse(u + d + Join(mids + [v], d))] + post
  {
    var field := pre + ["\"" + u] + mids + [v + "\""];
    SkipTail(field, post, d);
    QuotedFieldAlone(pre, u, mids, v, d);
  }

  /** The same with nothing after the quoted field. */
  lemma QuotedFieldAlone(pre: seq<string>, u: string, mids: seq<string>, v: string, d: string)
    requires d != [] && '"' !in v
    requires forall i :: 0 <= i < |mids| ==> '"' !in mids[i]
    requires mids != [] ==> '"' !in d
    requires NoneCloses(pre)
    ensures var field := pre + ["\"" + u] + mids + [v + "\""];
            BackPass(field, |field| - 1, d) == pre + [Collapse(u + d + Join(mids + [v], d))]
  {
    var field := pre + ["\"" + u] + mids + [v + "\""];
    var w := u + d + Join(mids + [v], d);
    QuotedGlued(pre, u, mids, v, d);
    PassVia(field, |field| - 1, |pre|, d, pre + ["\"" + w + "\""]);
    QuotedUnquoted(pre, w, d);
  }

  /** The backward pass on the glued, quoted field unquotes it and leaves
      the pieces before it. */
  lemma QuotedUnquoted(pre: seq<string>, w: string, d: string)
    requires d != [] && NoneCloses(pre)
    ensures BackPass(pre + ["\"" + w + "\""], |pre|, d) == pre + [Collapse(w)]
  {
    var n := |pre|;
    UnquoteStep(pre, w, d);
    BackPassFrame(pre, [Collapse(w)], n - 1, d);
    BackPassKeeps(pre, n - 1, d);
  }

  /** The early-stopped pass glues the quoted field's pieces into the
      quoted, joined field. */
  lemma QuotedGlued(pre: seq<string>, u: string, mids: seq<string>, v: string, d: string)
    requires d != [] && '"' !in v
    requires forall i :: 0 <= i < |mids| ==> '"' !in mids[i]
    requires mids != [] ==> '"' !in d
    ensures var field := pre + ["\"" + u] + mids + [v + "\""];
            PassDown(field, |field| - 1, |pre|, d)
            == pre + ["\"" + (u + d + Join(mids + [v], d)) + "\""]
  {
    var field := pre + ["\"" + u] + mids + [v + "\""];
    QuotedRun(pre, u, mids, v, d);
    GlueDown(field, |pre|, |field| - 1, d);
    QuotedRange(pre, u, mids, v, d);
  }

  /** The quoted field's pieces form a run GlueDown accepts. */
  lemma QuotedRun(pre: seq<string>, u: string, mids: seq<string>, v: string, d: string)
    requires '"' !in v
    requires forall i :: 0 <= i < |mids| ==> '"' !in mids[i]
    ensures var field := pre + ["\"" + u] + mids + [v + "\""];
            var n := |pre|;
            var x := |field| - 1;
            n < x && ClosingOnly(field[x]) && forall i :: n < i < x ==> '"' !in field[i]
  {
    var field := pre + ["\"" + u] + mids + [v + "\""];
    var n := |pre|;
    var x := |field| - 1;
    assert field[x] == v + "\"";
    assert field[x][..|field[x]| - 1] == v;
    forall i | n < i < x ensures '"' !in field[i] {
      assert field[i] == mids[i - n - 1];
    }
  }

  /** Gluing the quoted field's pieces gives the quoted, joined field. */
  lemma QuotedRange(pre: seq<string>, u: string, mids: seq<string>, v: string, d: string)
    ensures var field := pre + ["\"" + u] + mids + [v + "\""];
            GlueRange(field, |pre|, |field| - 1, d)
            == pre + ["\"" + (u + d + Join(mids + [v], d)) + "\""]
  {
    var field := pre + ["\"" + u] + mids + [v + "\""];
    var n := |pre|;
    var x := |field| - 1;
    assert field[..n] == pre;
    assert field[n..x + 1] == ["\"" + u] + (mids + [v + "\""]);
    assert field[x + 1..] == [];
    var j := Join(mids + [v], d);
    assert Join(field[n..x + 1], d) == "\"" + (u + d + j) + "\"" by {
      JoinCons("\"" + u, mids + [v + "\""], d);
      JoinExtendLast(mids, v, "\"", d);
      assert "\"" + u + d + (j + "\"") == "\"" + u + d + j + "\"";
      QuotedAround(u, d, j);
    }
  }

  /** On a line without quotes, splitLine is split-then-trim. */
  lemma SplitLineNoQuotes(line: string, delimiter: string)
    requires '"' !in line
    ensures SplitLineSpec(line, delimiter) == TrimAll(Split(line, EffectiveDelimiter(delimiter)))
  {
    var d := EffectiveDelimiter(delimiter);
    SplitChars(line, d, '"');
    QuoteFreeNoneCloses(Split(line, d));
    NoneClosesKept(Split(line, d), d);
  }

  /** The whole pass leaves pieces none of which closes. */
  lemma NoneClosesKept(cols: seq<string>, d: string)
    requires d != [] && NoneCloses(cols)
    ensures BackPass(cols, |cols| - 1, d) == cols
  {
    BackPassKeeps(cols, |cols| - 1, d);
  }

  /** A line that splits into plain pieces around a quoted field holding
      the delimiter c one or more times (the pieces `"u`, m1, …, mk, `v"`):
      the quoted field comes back as one column, its pieces joined with c,
      unquoted and with doubled quotes collapsed, and every other piece is
      only trimmed. QuotedFieldSplit gives such lines. */
  lemma SplitLineQuotedField(line: string, pre: seq<string>, u: string, mids: seq<string>,
                             v: string, post: seq<string>, c: char)
    requires forall i :: 0 <= i < |pre| ==> '"' !in pre[i]
    requires forall i :: 0 <= i < |post| ==> '"' !in post[i]
    requires forall i :: 0 <= i < |mids| ==> '"' !in mids[i]
    requires '"' !in v && c != '"'
    requires Split(line, [c]) == pre + ["\"" + u] + mids + [v + "\""] + post
    ensures SplitLineSpec(line, [c])
            == TrimAll(pre) + [Trim(Collapse(u + [c] + Join(mids + [v], [c])))] + TrimAll(post)
  {
    QuoteFreeNoneCloses(pre);
    QuoteFreeNoneCloses(post);
    QuotedFieldThrough(line, pre, u, mids, v, post, c);
  }

  /** The backward pass on the quoted-field split, fed to SplitLineThrough. */
  lemma QuotedFieldThrough(line: string, pre: seq<string>, u: string, mids: seq<string>,
                           v: string, post: seq<string>, c: char)
    requires NoneCloses(pre) && NoneCloses(post) && '"' !in v && c != '"'
    requires forall i :: 0 <= i < |mids| ==> '"' !in mids[i]
    requires Split(line, [c]) == pre + ["\"" + u] + mids + [v + "\""] + post
    ensures SplitLineSpec(line, [c])
            == TrimAll(pre) + [Trim(Collapse(u + [c] + Join(mids + [v], [c])))] + TrimAll(post)
  {
    QuotedFieldRejoined(pre, u, mids, v, post, [c]);
    QuotedFieldTrimmed(line, pre, u, mids, v, post, c);
  }

  /** The trimmed columns, once the pass has rejoined the quoted field. */
  lemma QuotedFieldTrimmed(line: string, pre: seq<string>, u: string, mids: seq<string>,
                           v: string, post: seq<string>, c: char)
    requires var cols := pre + ["\"" + u] + mids + [v + "\""] + post;
             BackPass(cols, |cols| - 1, [c]) == pre + [Collapse(u + [c] + Join(mids + [v], [c]))] + post
    requires Split(line, [c]) == pre + ["\"" + u] + mids + [v + "\""] + post
    ensures SplitLineSpec(line, [c])
            == TrimAll(pre) + [Trim(Collapse(u + [c] + Join(mids + [v], [c])))] + TrimAll(post)
  {
    SplitLineThrough(line, [c], pre + ["\"" + u] + mids + [v + "\""] + post,
                     pre, Collapse(u + [c] + Join(mids + [v], [c])), post);
  }

  /** Assembling splitLine from its split and its backward pass. */
  lemma SplitLineThrough(line: string, d: string, cols: seq<string>,
                         pre: seq<string>, field: string, post: seq<string>)
    requires d != [] && Split(line, d) == cols
    requires BackPass(cols, |cols| - 1, d) == pre + [field] + post
    ensures SplitLineSpec(line, d) == TrimAll(pre) + [Trim(field)] + TrimAll(post)
  {
    var back := BackPass(cols, |cols| - 1, d);
    assert SplitLineSpec(line, d) == TrimAll(back) by {
      SplitLineSpecOf(line, d);
    }
    assert TrimAll(pre + [field] + post) == TrimAll(pre) + [Trim(field)] + TrimAll(post) by {
      assert TrimAll([field]) == [Trim(field)];
      TrimAllAppend(pre + [field], post);
      TrimAllAppend(pre, [field]);
    }
  }

  /** Pieces without quotes do not close. */
  lemma QuoteFreeNoneCloses(ps: seq<string>)
    requires forall i :: 0 <= i < |ps| ==> '"' !in ps[i]
    ensures NoneCloses(ps)
  {
  }

  /** The pieces of the quoted field and those around it hold no delimiter,
      so splitting the joined line gives them back. */
  lemma QuotedFieldSplit(pre: seq<string>, u: string, mids: seq<string>, v: string,
                         post: seq<string>, c: char)
    requires c != '"'
    requires forall i :: 0 <= i < |pre| ==> c !in pre[i]
    requires forall i :: 0 <= i < |mids| ==> c !in mids[i]
    requires forall i :: 0 <= i < |post| ==> c !in post[i]
    requires c !in u && c !in v
    ensures var cols := pre + ["\"" + u] + mids + [v + "\""] + post;
            Split(Join(cols, [c]), [c]) == cols
  {
    var cols := pre + ["\"" + u] + mids + [v + "\""] + post;
    var n := |pre|;
    var k := |mids|;
    forall i | 0 <= i < |cols| ensures c !in cols[i] {
      if i < n {
        assert cols[i] == pre[i];
      } else if i == n {
        assert cols[i] == "\"" + u;
      } else if i <= n + k {
        assert cols[i] == mids[i - n - 1];
      } else if i == n + k + 1 {
        assert cols[i] == v + "\"";
      } else {
        assert cols[i] == post[i - n - k - 2];
      }
    }
    SplitJoin(cols, c);
  }

  /** A line whose only quote closes its last piece, as in `a,b"`: the pieces
      are glued all the way down to the first one, which then closes without
      opening and is split again, so the quote is kept as text and the
      columns are the trimmed pieces of the split. */
  lemma StrayClosingQuote(pre: seq<string>, v: string, c: char)
    requires c != '"' && '"' !in v && c !in v
    requires forall i :: 0 <= i < |pre| ==> '"' !in pre[i] && c !in pre[i]
    ensures var cols := pre + [v + "\""];
            SplitLineSpec(Join(cols, [c]), [c]) == TrimAll(cols)
  {
    var d := [c];
    var cols := pre + [v + "\""];
    var line := Join(cols, d);
    forall i | 0 <= i < |cols| ensures c !in cols[i] {
      if i < |pre| {
        assert cols[i] == pre[i];
      }
    }
    SplitJoin(cols, c);
    StrayPass(pre, v, d);
    SplitLineSpecOf(line, d);
  }

  /** The backward pass on such a line splits the whole line again. */
  lemma StrayPass(pre: seq<string>, v: string, d: string)
    requires d != [] && '"' !in d && '"' !in v
    requires forall i :: 0 <= i < |pre| ==> '"' !in pre[i]
    ensures BackPass(pre + [v + "\""], |pre|, d) == Split(Join(pre + [v + "\""], d), d)
  {
    var cols := pre + [v + "\""];
    var j := Join(pre + [v], d);
    assert j + "\"" == Join(cols, d) by {
      JoinExtendLast(pre, v, "\"", d);
    }
    assert '"' !in j by {
      JoinKeepsOut(pre + [v], d, '"');
    }
    assert BackPass(cols, |pre|, d) == BackPass([j + "\""], 0, d) by {
      StrayGlued(pre, v, d);
      PassVia(cols, |pre|, 0, d, [Join(cols, d)]);
    }
    StrayStep(j, d);
  }

  /** The early-stopped pass glues every piece of such a line into one. */
  lemma StrayGlued(pre: seq<string>, v: string, d: string)
    requires d != [] && '"' !in d && '"' !in v
    requires forall i :: 0 <= i < |pre| ==> '"' !in pre[i]
    ensures var cols := pre + [v + "\""];
            PassDown(cols, |pre|, 0, d) == [Join(cols, d)]
  {
    var cols := pre + [v + "\""];
    StrayRun(pre, v);
    GlueDown(cols, 0, |pre|, d);
    assert cols[0..|pre| + 1] == cols;
  }

  /** Such a line's pieces form a run GlueDown accepts. */
  lemma StrayRun(pre: seq<string>, v: string)
    requires '"' !in v
    requires forall i :: 0 <= i < |pre| ==> '"' !in pre[i]
    ensures var cols := pre + [v + "\""];
            ClosingOnly(cols[|pre|]) && forall i :: 0 < i < |pre| ==> '"' !in cols[i]
  {
    var cols := pre + [v + "\""];
    assert cols[|pre|] == v + "\"";
    assert cols[|pre|][..|v|] == v;
    forall i | 0 < i < |pre| ensures '"' !in cols[i] {
      assert cols[i] == pre[i];
    }
  }

  /** The last step: a piece whose only quote closes it is split again. */
  lemma StrayStep(j: string, d: string)
    requires d != [] && '"' !in j
    ensures BackPass([j + "\""], 0, d) == Split(j + "\"", d)
  {
    NotOpensWithoutQuote(j);
    var cols := [j + "\""];
    assert Closes(cols[0]) && !Opens(cols[0]);
    assert Step(cols, 0, d) == Split(j + "\"", d) + [];
  }

  /** Appending to the last piece appends to the join. */
  lemma {:induction false} JoinExtendLast(a: seq<string>, y: string, t: string, d: string)
    ensures Join(a + [y + t], d) == Join(a + [y], d) + t
    decreases |a|
  {
    if a != [] {
      JoinExtendLast(a[1..], y, t, d);
      assert a + [y + t] == [a[0]] + (a[1..] + [y + t]);
      assert a + [y] == [a[0]] + (a[1..] + [y]);
      JoinCons(a[0], a[1..] + [y + t], d);
      JoinCons(a[0], a[1..] + [y], d);
    }
  }

  /** A character in neither the pieces nor the separator is not in the join. */
  lemma {:induction false} JoinKeepsOut(ps: seq<string>, d: string, ch: char)
    requires ch !in d
    requires forall i :: 0 <= i < |ps| ==> ch !in ps[i]
    ensures ch !in Join(ps, d)
    decreases |ps|
  {
    if |ps| > 1 {
      JoinKeepsOut(ps[1..], d, ch);
    }
  }

  // ---------------------------------------------------------------------------
  // parse
  // ---------------------------------------------------------------------------

  /** The lines whose trimmed text is not empty, in order. */
  function NonBlank(lines: seq<string>): (r: seq<string>)
    ensures |r| <= |lines|
  {
    if lines == [] then []
    else if |Trim(lines[0])| > 0 then [lines[0]] + NonBlank(lines[1..])
    else NonBlank(lines[1..])
  }

  /** nerdy.parse(text, delimiter): the text is normalised and split into lines
      by splitLine with '\n', blank lines are dropped, and each line is split
      with the delimiter. When no delimiter is given the library guesses one;
      the guess is taken here as the parameter `guessed`. */
  function Parse(text: string, delimiter: string, guessed: string): (rows: seq<seq<string>>)
  {
    var d := if delimiter == [] then guessed else delimiter;
    var lines := NonBlank(SplitLineSpec(NormalizeNewlines(text), "\n"));
    seq(|lines|, i requires 0 <= i < |lines| => SplitLineSpec(lines[i], d))
  }

  lemma {:induction false} NonBlankSpec(lines: seq<string>)
    ensures forall i :: 0 <= i < |NonBlank(lines)| ==> Trim(NonBlank(lines)[i]) != []
    ensures forall i :: 0 <= i < |lines| && Trim(lines[i]) != [] ==> lines[i] in NonBlank(lines)
    ensures forall l :: l in NonBlank(lines) ==> l in lines
    decreases |lines|
  {
    if lines != [] {
      NonBlankSpec(lines[1..]);
      assert forall i :: 1 <= i < |lines| ==> lines[i] == lines[1..][i - 1];
    }
  }

  lemma TrimKeepsOut(s: string, ch: char)
    requires ch !in s
    ensures ch !in Trim(s)
  {
    var r := Trim(s);
    forall k | 0 <= k < |r| ensures r[k] != ch {
      assert r[k] == s[LeadWs(s) + k];
    }
  }

  lemma {:induction false} NonBlankKeepsOut(lines: seq<string>, ch: char)
    requires forall i :: 0 <= i < |lines| ==> ch !in lines[i]
    ensures forall i :: 0 <= i < |NonBlank(lines)| ==> ch !in NonBlank(lines)[i]
    decreases |lines|
  {
    if lines != [] {
      NonBlankKeepsOut(lines[1..], ch);
    }
  }

  /** The trimmed non-blank lines of the text, in order. */
  function PlainLines(text: string): seq<string>
  {
    NonBlank(TrimAll(Split(NormalizeNewlines(text), "\n")))
  }

  /** With no quote in the text, no line holds one either. */
  lemma QuoteFreeLines(text: string)
    requires '"' !in text
    ensures '"' !in NormalizeNewlines(text)
    ensures forall i :: 0 <= i < |PlainLines(text)| ==> '"' !in PlainLines(text)[i]
  {
    NormalizeIsLineEnds(text);
    LineEndsKeepsQuotes(text);
    var norm := NormalizeNewlines(text);
    var pieces := Split(norm, "\n");
    SplitChars(norm, "\n", '"');
    forall i | 0 <= i < |pieces| ensures '"' !in TrimAll(pieces)[i] {
      TrimKeepsOut(pieces[i], '"');
    }
    NonBlankKeepsOut(TrimAll(pieces), '"');
  }

  /** Quote-free text with a given delimiter: one row per non-blank line, in
      order, each line trimmed and split at the delimiter and each field
      trimmed; whitespace-only lines are dropped. */
  lemma ParseQuoteFree(text: string, delimiter: string, guessed: string)
    requires '"' !in text && delimiter != []
    ensures var lines := PlainLines(text);
            Parse(text, delimiter, guessed)
            == seq(|lines|, i requires 0 <= i < |lines| => TrimAll(Split(lines[i], delimiter)))
  {
    var norm := NormalizeNewlines(text);
    var lines := PlainLines(text);
    var rows := seq(|lines|, i requires 0 <= i < |lines| => SplitLineSpec(lines[i], delimiter));
    assert Parse(text, delimiter, guessed) == rows by {
      QuoteFreeLines(text);
      SplitLineNoQuotes(norm, "\n");
    }
    assert rows == seq(|lines|, i requires 0 <= i < |lines| => TrimAll(Split(lines[i], delimiter))) by {
      QuoteFreeLines(text);
      forall i | 0 <= i < |lines|
        ensures SplitLineSpec(lines[i], delimiter) == TrimAll(Split(lines[i], delimiter))
      {
        SplitLineNoQuotes(lines[i], delimiter);
      }
    }
  }

  lemma {:induction false} LineEndsKeepsQuotes(s: string)
    requires '"' !in s
    ensures '"' !in LineEnds(s)
    decreases |s|
  {
    if s == [] {
    } else if |s| >= 2 && s[0] == '\r' && s[1] == '\n' {
      assert forall k :: 2 <= k < |s| ==> s[k] in s;
      LineEndsKeepsQuotes(s[2..]);
    } else {
      assert forall k :: 1 <= k < |s| ==> s[k] in s;
      LineEndsKeepsQuotes(s[1..]);
    }
  }
}
