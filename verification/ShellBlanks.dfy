/** What counts as blank in a script, as a grammar: white space, closed comments of C, and
    comments up to the end of a line. */
module ShellBlanks {
  import opened CText
  import opened ShellInput

  /** A blank: one white-space character, a C comment, a line comment with its line feed, or a
      line comment that the text ends with. */
  datatype Blank = White(c: char) | Comment(body: string) | Dashes(body: string) | LastDashes(body: string)
  {
    ghost predicate Ok() {
      match this
      case White(c) => c in WHITE
      case Comment(body) => Unclosed(body)
      case Dashes(body) => '\n' !in body
      case LastDashes(body) => '\n' !in body
    }

    function Text(): string {
      match this
      case White(c) => [c]
      case Comment(body) => ['/', '*'] + (body + ['*', '/'])
      case Dashes(body) => ['-', '-'] + (body + ['\n'])
      case LastDashes(body) => ['-', '-'] + body
    }
  }

  const WHITE: set<char> := {' ', '\t', '\n', '\U{00000B}', '\U{00000C}', '\r'}

  /** No asterisk is followed by a slash. */
  ghost predicate Unclosed(body: string) {
    forall j: nat :: j + 1 < |body| ==> !(body[j] == '*' && body[j + 1] == '/')
  }

  function Texts(bs: seq<Blank>): string {
    if bs == [] then [] else bs[0].Text() + Texts(bs[1..])
  }

  /** A sequence of blanks, in which only the last may lack its line feed. */
  ghost predicate AllBlank(bs: seq<Blank>) {
    forall k :: 0 <= k < |bs| ==> bs[k].Ok() && (bs[k].LastDashes? ==> k == |bs| - 1)
  }

  ghost predicate IsBlankText(s: string) {
    exists bs: seq<Blank> :: AllBlank(bs) && Texts(bs) == s
  }

  lemma WhiteIsSpace(c: char)
    ensures c in WHITE <==> IsSpace(c)
  {
  }

  // ----- comments

  lemma {:induction false} CommentEnds(body: string, rest: string)
    requires Unclosed(body)
    ensures BehindComment(body + (['*', '/'] + rest)) == Behind(rest)
    decreases |body|
  {
    if body == [] {
      EndMark(rest, [] + (['*', '/'] + rest));
    } else {
      TailUnclosed(body);
      CommentEnds(body[1..], rest);
      NotAtFirst(body, rest, body + (['*', '/'] + rest));
    }
  }

  lemma EndMark(rest: string, s: string)
    requires s == [] + (['*', '/'] + rest)
    ensures BehindComment(s) == Behind(rest)
  {
    assert s[2..] == rest;
  }

  lemma TailUnclosed(body: string)
    requires Unclosed(body) && body != []
    ensures Unclosed(body[1..])
  {
    forall j: nat | j + 1 < |body[1..]| ensures !(body[1..][j] == '*' && body[1..][j + 1] == '/') {
      assert !(body[j + 1] == '*' && body[j + 2] == '/');
    }
  }

  lemma NotAtFirst(body: string, rest: string, s: string)
    requires Unclosed(body) && body != [] && s == body + (['*', '/'] + rest)
    ensures |s| > 1 && !(s[0] == '*' && s[1] == '/')
    ensures BehindComment(s) == BehindComment(body[1..] + (['*', '/'] + rest))
  {
    assert s[1..] == body[1..] + (['*', '/'] + rest);
    if |body| == 1 {
      assert s[1] == '*';
    } else {
      assert s[0] == body[0] && s[1] == body[1];
      assert !(body[0] == '*' && body[0 + 1] == '/');
    }
  }

  /** A comment that ends: what is skipped is its body and the first end mark. */
  lemma {:induction false} CommentBody(s: string) returns (body: string)
    requires BehindComment(s).Behind?
    ensures Unclosed(body) && s == body + (['*', '/'] + BehindComment(s).rest)
    decreases |s|
  {
    if s[0] == '*' && |s| > 1 && s[1] == '/' {
      body := [];
      assert s == [] + (['*', '/'] + s[2..]);
    } else {
      var tail := CommentBody(s[1..]);
      body := [s[0]] + tail;
      LongerUnclosed(s, tail, BehindComment(s[1..]).rest);
    }
  }

  lemma LongerUnclosed(s: string, tail: string, rest: string)
    requires s != [] && s[1..] == tail + (['*', '/'] + rest) && Unclosed(tail)
    requires !(s[0] == '*' && |s| > 1 && s[1] == '/')
    ensures Unclosed([s[0]] + tail)
    ensures s == [s[0]] + tail + (['*', '/'] + rest)
  {
    var body := [s[0]] + tail;
    assert s == [s[0]] + s[1..];
    forall j: nat | j + 1 < |body| ensures !(body[j] == '*' && body[j + 1] == '/') {
      if j == 0 {
        assert s[1] == s[1..][0] == tail[0];
      } else {
        assert body[j] == tail[j - 1] && body[j + 1] == tail[(j - 1) + 1];
      }
    }
  }

  /** A text without an end mark does not end a comment. */
  lemma {:induction false} NeverEnds(s: string)
    ensures Unclosed(s) ==> BehindComment(s).Never?
    decreases |s|
  {
    if s != [] && Unclosed(s) {
      TailUnclosed(s);
      NeverEnds(s[1..]);
      assert |s| > 1 ==> !(s[0] == '*' && s[0 + 1] == '/');
    }
  }

  /** An unterminated C comment is not blank. */
  lemma OpenComment(b: string)
    requires Unclosed(b)
    ensures !AllWhitespace(['/', '*'] + b)
  {
    var s := ['/', '*'] + b;
    NeverEnds(b);
    assert s[2..] == b;
  }

  // ----- lines

  lemma {:induction false} LineEnds(body: string, rest: string)
    requires '\n' !in body
    ensures BehindLine(body + (['\n'] + rest)) == rest
    ensures BehindLine(body) == []
    decreases |body|
  {
    var s := body + (['\n'] + rest);
    if body == [] {
      assert s == ['\n'] + rest && s[1..] == rest;
    } else {
      assert s[1..] == body[1..] + (['\n'] + rest);
      LineEnds(body[1..], rest);
      assert s[0] == body[0];
    }
  }

  lemma {:induction false} LineBody(s: string) returns (body: string)
    ensures '\n' !in body
    ensures s == body + (['\n'] + BehindLine(s)) || (s == body && BehindLine(s) == [])
    decreases |s|
  {
    if s == [] {
      body := [];
    } else if s[0] == '\n' {
      body := [];
      assert s == [] + (['\n'] + s[1..]);
    } else {
      var tail := LineBody(s[1..]);
      body := [s[0]] + tail;
      assert s == [s[0]] + s[1..];
    }
  }

  // ----- the grammar

  /** A blank before a blank text. */
  lemma BlankBefore(b: Blank, rest: string)
    requires b.Ok() && AllWhitespace(rest) && (b.LastDashes? ==> rest == [])
    ensures AllWhitespace(b.Text() + rest)
  {
    var s := b.Text() + rest;
    match b
    case White(c) =>
      WhiteIsSpace(c);
      assert s[1..] == rest;
    case Comment(body) =>
      CommentParts(body, rest, s);
      CommentEnds(body, rest);
      CommentSkipped(s, s[2..]);
    case Dashes(body) =>
      DashesParts(body, rest, s);
      LineEnds(body, rest);
      DashesSkipped(s, s[2..]);
    case LastDashes(body) =>
      LastParts(body, rest, s);
      LineEnds(body, rest);
      DashesSkipped(s, s[2..]);
  }

  lemma CommentParts(body: string, rest: string, s: string)
    requires s == Comment(body).Text() + rest
    ensures |s| > 1 && s[0] == '/' && s[1] == '*' && s[2..] == body + (['*', '/'] + rest)
  {
  }

  lemma DashesParts(body: string, rest: string, s: string)
    requires s == Dashes(body).Text() + rest
    ensures |s| > 1 && s[0] == '-' && s[1] == '-' && s[2..] == body + (['\n'] + rest)
  {
  }

  lemma LastParts(body: string, rest: string, s: string)
    requires s == LastDashes(body).Text() + rest && rest == []
    ensures |s| > 1 && s[0] == '-' && s[1] == '-' && s[2..] == body
  {
  }

  lemma CommentSkipped(s: string, t: string)
    requires |s| > 1 && s[0] == '/' && s[1] == '*' && t == s[2..]
    ensures AllWhitespace(s) <==> BehindComment(t).Behind? && AllWhitespace(BehindComment(t).rest)
  {
  }

  lemma DashesSkipped(s: string, t: string)
    requires |s| > 1 && s[0] == '-' && s[1] == '-' && t == s[2..]
    ensures AllWhitespace(s) <==> AllWhitespace(BehindLine(t))
  {
  }

  lemma {:induction false} BlanksAreSkipped(bs: seq<Blank>)
    requires AllBlank(bs)
    ensures AllWhitespace(Texts(bs))
    decreases |bs|
  {
    if bs != [] {
      assert forall k :: 0 <= k < |bs| - 1 ==> bs[1..][k] == bs[k + 1];
      BlanksAreSkipped(bs[1..]);
      assert bs[0].Ok();
      BlankBefore(bs[0], Texts(bs[1..]));
    }
  }

  /** The first blank of a blank text. */
  lemma FirstBlank(s: string) returns (b: Blank, rest: string)
    requires AllWhitespace(s) && s != []
    ensures b.Ok() && s == b.Text() + rest && AllWhitespace(rest) && |rest| < |s|
    ensures b.LastDashes? ==> rest == []
  {
    if IsSpace(s[0]) {
      WhiteIsSpace(s[0]);
      b, rest := White(s[0]), s[1..];
    } else if s[0] == '/' {
      b, rest := FirstComment(s);
    } else {
      b, rest := FirstDashes(s);
    }
  }

  lemma FirstComment(s: string) returns (b: Blank, rest: string)
    requires AllWhitespace(s) && s != [] && s[0] == '/'
    ensures b.Comment? && b.Ok() && s == b.Text() + rest && AllWhitespace(rest) && |rest| < |s|
  {
    assert |s| > 1 && s[1] == '*';
    var t := s[2..];
    CommentSkipped(s, t);
    rest := BehindComment(t).rest;
    var body := CommentBody(t);
    b := Comment(body);
    CommentJoined(s, t, body, rest);
  }

  lemma CommentJoined(s: string, t: string, body: string, rest: string)
    requires |s| > 1 && s[0] == '/' && s[1] == '*' && t == s[2..] && t == body + (['*', '/'] + rest)
    ensures s == Comment(body).Text() + rest
  {
    assert s == ['/', '*'] + t;
  }

  lemma FirstDashes(s: string) returns (b: Blank, rest: string)
    requires AllWhitespace(s) && s != [] && !IsSpace(s[0]) && s[0] != '/'
    ensures (b.Dashes? || b.LastDashes?) && b.Ok() && s == b.Text() + rest
    ensures AllWhitespace(rest) && |rest| < |s| && (b.LastDashes? ==> rest == [])
  {
    assert |s| > 1 && s[0] == '-' && s[1] == '-';
    var t := s[2..];
    DashesSkipped(s, t);
    rest := BehindLine(t);
    var body := LineBody(t);
    if t == body {
      b := LastDashes(body);
      LineEnds(body, []);
    } else {
      b := Dashes(body);
    }
    DashesJoined(s, t, body, rest);
  }

  lemma DashesJoined(s: string, t: string, body: string, rest: string)
    requires |s| > 1 && s[0] == '-' && s[1] == '-' && t == s[2..]
    ensures t == body + (['\n'] + rest) ==> s == Dashes(body).Text() + rest
    ensures t == body && rest == [] ==> s == LastDashes(body).Text() + rest
  {
    assert s == ['-', '-'] + t;
  }

  lemma {:induction false} BlanksOf(s: string) returns (bs: seq<Blank>)
    requires AllWhitespace(s)
    ensures AllBlank(bs) && Texts(bs) == s
    decreases |s|
  {
    if s == [] {
      bs := [];
    } else {
      var b, rest := FirstBlank(s);
      var more := BlanksOf(rest);
      bs := [b] + more;
      Prepended(b, more, rest);
    }
  }

  lemma Prepended(b: Blank, more: seq<Blank>, rest: string)
    requires b.Ok() && AllBlank(more) && Texts(more) == rest && (b.LastDashes? ==> rest == [])
    ensures AllBlank([b] + more) && Texts([b] + more) == b.Text() + rest
  {
    var bs := [b] + more;
    assert bs[1..] == more;
    if more != [] {
      assert more[0].Text() != [];
    }
    forall k | 0 <= k < |bs| ensures bs[k].Ok() && (bs[k].LastDashes? ==> k == |bs| - 1) {
      if k > 0 {
        assert bs[k] == more[k - 1];
      }
    }
  }

  /** Blank texts are exactly those made of blanks. */
  lemma BlankGrammar(s: string)
    ensures AllWhitespace(s) <==> IsBlankText(s)
  {
    if AllWhitespace(s) {
      var bs := BlanksOf(s);
      assert AllBlank(bs) && Texts(bs) == s;
    }
    if IsBlankText(s) {
      var bs: seq<Blank> :| AllBlank(bs) && Texts(bs) == s;
      BlanksAreSkipped(bs);
    }
  }

  // ----- terminators

  const TERMINATORS: set<string> := {"/", "go", "gO", "Go", "GO"}

  ghost predicate AllWhite(s: string) {
    forall k :: 0 <= k < |s| ==> s[k] in WHITE
  }

  /** White space, a terminator, and blanks. */
  ghost predicate TerminatorText(line: string, lead: string, word: string, tail: string) {
    line == lead + (word + tail) && AllWhite(lead) && word in TERMINATORS && IsBlankText(tail)
  }

  lemma {:induction false} SkipWhite(lead: string, s: string)
    requires AllWhite(lead) && s != [] && !IsSpace(s[0])
    ensures SkipSpace(lead + s) == s
    decreases |lead|
  {
    if lead == [] {
      assert lead + s == s;
    } else {
      WhiteIsSpace(lead[0]);
      assert (lead + s)[1..] == lead[1..] + s;
      SkipWhite(lead[1..], s);
    }
  }

  lemma {:induction false} LeadOf(s: string) returns (lead: string)
    ensures AllWhite(lead) && s == lead + SkipSpace(s)
    decreases |s|
  {
    if s != [] && IsSpace(s[0]) {
      WhiteIsSpace(s[0]);
      var more := LeadOf(s[1..]);
      lead := [s[0]] + more;
      assert s == [s[0]] + s[1..];
    } else {
      lead := [];
    }
  }

  /** Terminator lines are exactly those of this form. */
  lemma TerminatorGrammar(line: string)
    ensures IsTerminator(line) <==> exists lead, word, tail :: TerminatorText(line, lead, word, tail)
  {
    if IsTerminator(line) {
      var lead, word, tail := TerminatorParts(line);
      assert TerminatorText(line, lead, word, tail);
    }
    if exists lead, word, tail :: TerminatorText(line, lead, word, tail) {
      var lead, word, tail :| TerminatorText(line, lead, word, tail);
      PartsTerminate(line, lead, word, tail);
    }
  }

  lemma TerminatorParts(line: string) returns (lead: string, word: string, tail: string)
    requires IsTerminator(line)
    ensures TerminatorText(line, lead, word, tail)
  {
    lead := LeadOf(line);
    var s := SkipSpace(line);
    var n := WordLength(line, s);
    word, tail := s[..n], s[n..];
    assert s == word + tail;
    BlankGrammar(tail);
    WordOf(s, n);
  }

  lemma WordLength(line: string, s: string) returns (n: nat)
    requires IsTerminator(line) && s == SkipSpace(line)
    ensures n <= |s| && AllWhitespace(s[n..])
    ensures (n == 1 && s[0] == '/')
            || (n == 2 && (s[0] == 'g' || s[0] == 'G') && (s[1] == 'o' || s[1] == 'O'))
  {
    n := if s[0] == '/' && AllWhitespace(s[1..]) then 1 else 2;
  }

  lemma WordOf(s: string, n: nat)
    requires n <= |s|
    requires (n == 1 && s[0] == '/')
             || (n == 2 && (s[0] == 'g' || s[0] == 'G') && (s[1] == 'o' || s[1] == 'O'))
    ensures s[..n] in TERMINATORS
  {
    if n == 1 {
      assert s[..n] == "/";
    } else {
      assert s[..n] == [s[0], s[1]];
      assert "go" == ['g', 'o'] && "gO" == ['g', 'O'] && "Go" == ['G', 'o'] && "GO" == ['G', 'O'];
    }
  }

  lemma PartsTerminate(line: string, lead: string, word: string, tail: string)
    requires TerminatorText(line, lead, word, tail)
    ensures IsTerminator(line)
  {
    var s := word + tail;
    BlankGrammar(tail);
    assert s[0] == word[0] && s[|word|..] == tail;
    SkipWhite(lead, s);
    if |word| == 2 {
      assert s[1] == word[1];
    }
  }
}
