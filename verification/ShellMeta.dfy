/** Dot-command lines: how an argument is printed by `output_c_string` and how the
    tokenizer of `do_meta_command` takes a line apart in place. */
module ShellMeta {
  import opened CText

  const BACKSLASH := '\\'
  const MAX_ARGS := 50

  // ----- printing

  function OctalDigit(d: nat): char
    requires d < 8
  {
    '0' + d as char
  }

  function Escape(c: char, printable: set<char>): (s: string)
    ensures s != []
  {
    if c == BACKSLASH then [BACKSLASH, BACKSLASH]
    else if c == '\t' then [BACKSLASH, 't']
    else if c == '\n' then [BACKSLASH, 'n']
    else if c == '\r' then [BACKSLASH, 'r']
    else if c !in printable then
      OctalEscape(c as int % 256)
    else [c]
  }

  function OctalEscape(v: nat): string
    requires v < 256
  {
    [BACKSLASH, OctalDigit(v / 64), OctalDigit(v / 8 % 8), OctalDigit(v % 8)]
  }

  function Escaped(s: string, printable: set<char>): string {
    if s == [] then [] else Escape(s[0], printable) + Escaped(s[1..], printable)
  }

  function CString(s: string, printable: set<char>): string {
    [DQUOTE] + Escaped(s, printable) + [DQUOTE]
  }

  /** `output_c_string` */
  method OutputCString(z: string, printable: set<char>) returns (out: string)
    ensures out == CString(z, printable)
  {
    out := [DQUOTE];
    for i := 0 to |z|
      invariant out + Escaped(z[i..], printable) == [DQUOTE] + Escaped(z, printable)
    {
      EscapedUnfolds(z, i, printable, out);
      var c := z[i];
      if c == BACKSLASH {
        out := out + [c, c];
      } else if c == '\t' {
        out := out + [BACKSLASH, 't'];
      } else if c == '\n' {
        out := out + [BACKSLASH, 'n'];
      } else if c == '\r' {
        out := out + [BACKSLASH, 'r'];
      } else if c !in printable {
        out := out + OctalEscape(c as int % 256);
      } else {
        out := out + [c];
      }
    }
    out := out + [DQUOTE];
  }

  lemma EscapedUnfolds(z: string, i: nat, printable: set<char>, out: string)
    requires i < |z|
    ensures out + Escaped(z[i..], printable) == out + Escape(z[i], printable) + Escaped(z[i + 1..], printable)
  {
    assert z[i..][1..] == z[i + 1..];
  }

  // ----- dequoting

  predicate IsOctal(c: char) {
    '0' <= c <= '7'
  }

  function OctalValue(c: char): nat
    requires IsOctal(c)
  {
    c as int - '0' as int
  }

  /** The first character that s stands for, and how much of s it takes.  The value of
      three octal digits is cut to a byte. */
  function One(s: string): (r: (char, nat))
    requires s != []
    ensures 1 <= r.1 <= |s|
  {
    if s[0] != BACKSLASH then (s[0], 1)
    else if |s| == 1 then (NUL, 1)
    else if s[1] == 'n' then ('\n', 2)
    else if s[1] == 't' then ('\t', 2)
    else if s[1] == 'r' then ('\r', 2)
    else if !IsOctal(s[1]) then (s[1], 2)
    else if |s| == 2 || !IsOctal(s[2]) then (OctalValue(s[1]) as char, 2)
    else if |s| == 3 || !IsOctal(s[3]) then ((OctalValue(s[1]) * 8 + OctalValue(s[2])) as char, 3)
    else ((((OctalValue(s[1]) * 8 + OctalValue(s[2])) * 8 + OctalValue(s[3])) % 256) as char, 4)
  }

  /** No backslash stands alone at the end, where the program would read on behind the NUL. */
  predicate WellEscaped(s: string) {
    s == [] || (s != [BACKSLASH] && WellEscaped(s[One(s).1..]))
  }

  function Resolve(s: string): (r: string)
    ensures |r| <= |s|
  {
    if s == [] then [] else [One(s).0] + Resolve(s[One(s).1..])
  }

  predicate IsByteText(s: string) {
    forall i :: 0 <= i < |s| ==> s[i] as int < 256
  }

  lemma OneOfEscape(c: char, printable: set<char>, rest: string, s: string)
    requires c as int < 256 && s == Escape(c, printable) + rest
    ensures One(s) == (c, |Escape(c, printable)|) && s != [BACKSLASH]
  {
    if c == BACKSLASH || c == '\t' || c == '\n' || c == '\r' {
      PairParts(c, printable, rest, s);
      OneOfPair(s);
    } else if c !in printable {
      OctalForm(c, printable);
      ByteMod(c as int);
      OneOfOctal(c as int, rest, s);
    } else {
      OneOfPlain(c, rest, s);
    }
  }

  lemma OneOfPlain(c: char, rest: string, s: string)
    requires c != BACKSLASH && s == [c] + rest
    ensures One(s) == (c, 1) && s != [BACKSLASH]
  {
    assert s[0] == c;
  }

  lemma OctalForm(c: char, printable: set<char>)
    requires c !in printable && c != BACKSLASH && c != '\t' && c != '\n' && c != '\r'
    ensures Escape(c, printable) == OctalEscape(c as int % 256)
  {
  }

  lemma ByteMod(v: nat)
    requires v < 256
    ensures v % 256 == v
  {
  }

  lemma PairParts(c: char, printable: set<char>, rest: string, s: string)
    requires c == BACKSLASH || c == '\t' || c == '\n' || c == '\r'
    requires s == Escape(c, printable) + rest
    ensures |s| >= 2 && s[0] == BACKSLASH && !IsOctal(s[1]) && |Escape(c, printable)| == 2
    ensures c == Unescaped(s[1])
  {
  }

  /** What a character behind a backslash stands for, if it is no digit. */
  function Unescaped(d: char): char {
    if d == 'n' then '\n' else if d == 't' then '\t' else if d == 'r' then '\r' else d
  }

  lemma OneOfPair(s: string)
    requires |s| >= 2 && s[0] == BACKSLASH && !IsOctal(s[1])
    ensures One(s) == (Unescaped(s[1]), 2)
  {
  }

  lemma OneOfOctal(v: nat, rest: string, s: string)
    requires v < 256 && s == OctalEscape(v) + rest
    ensures One(s) == (v as char, 4) && s != [BACKSLASH]
  {
    OctalParts(v);
    assert s[1] == OctalDigit(v / 64) && s[2] == OctalDigit(v / 8 % 8) && s[3] == OctalDigit(v % 8);
  }

  lemma OctalParts(v: nat)
    requires v < 256
    ensures v / 64 < 4 && (v / 64 * 8 + v / 8 % 8) * 8 + v % 8 == v
  {
  }

  /** Dequoting undoes quoting, whatever counts as printable. */
  lemma {:induction false} ResolveEscaped(s: string, printable: set<char>)
    requires IsByteText(s)
    ensures WellEscaped(Escaped(s, printable)) && Resolve(Escaped(s, printable)) == s
  {
    if s != [] {
      var e, rest := Escape(s[0], printable), Escaped(s[1..], printable);
      OneOfEscape(s[0], printable, rest, e + rest);
      assert (e + rest)[|e|..] == rest;
      ResolveEscaped(s[1..], printable);
    }
  }

  lemma {:induction false} EscapedHasNoQuote(s: string, printable: set<char>)
    requires DQUOTE !in s
    ensures DQUOTE !in Escaped(s, printable)
  {
    if s != [] {
      EscapedHasNoQuote(s[1..], printable);
    }
  }

  // ----- what is printed and what is read

  /** A character that is printed as itself. */
  predicate IsPlain(c: char, printable: set<char>) {
    c in printable && c !in {BACKSLASH, '\t', '\n', '\r'}
  }

  /** A character takes one place if it is plain, two if it has a short escape, else four. */
  lemma EscapeLength(c: char, printable: set<char>)
    ensures |Escape(c, printable)|
         == if c in {BACKSLASH, '\t', '\n', '\r'} then 2 else if c in printable then 1 else 4
    ensures IsPlain(c, printable) ==> Escape(c, printable) == [c]
  {
  }

  lemma {:induction false} EscapedGrows(s: string, printable: set<char>)
    ensures |Escaped(s, printable)| >= |s|
  {
    if s != [] {
      EscapedGrows(s[1..], printable);
    }
  }

  /** A string is printed as it is exactly if all of its characters are plain. */
  lemma {:induction false} PlainPrintsAsItself(s: string, printable: set<char>)
    ensures Escaped(s, printable) == s <==> forall i :: 0 <= i < |s| ==> IsPlain(s[i], printable)
  {
    if s != [] {
      var e, rest := Escape(s[0], printable), Escaped(s[1..], printable);
      EscapeLength(s[0], printable);
      EscapedGrows(s[1..], printable);
      PlainPrintsAsItself(s[1..], printable);
      assert s == [s[0]] + s[1..];
      if |e| == 1 {
        assert Escaped(s, printable)[1..] == rest;
      }
      FirstAndRest(s, printable);
    }
  }

  lemma FirstAndRest(s: string, printable: set<char>)
    requires s != []
    ensures (forall i :: 0 <= i < |s| ==> IsPlain(s[i], printable))
       <==> IsPlain(s[0], printable) && forall i :: 0 <= i < |s[1..]| ==> IsPlain(s[1..][i], printable)
  {
    assert forall i :: 0 < i < |s| ==> s[i] == s[1..][i - 1];
  }

  /** What the escapes themselves are made of. */
  const ESCAPE_CHARS: set<char> := {BACKSLASH, 't', 'n', 'r', '0', '1', '2', '3', '4', '5', '6', '7'}

  lemma OctalDigitInEscapes(d: nat)
    requires d < 8
    ensures OctalDigit(d) in ESCAPE_CHARS
  {
  }

  lemma EscapePrintable(c: char, printable: set<char>, k: nat)
    requires ESCAPE_CHARS <= printable && k < |Escape(c, printable)|
    ensures Escape(c, printable)[k] in printable
  {
    var v := c as int % 256;
    OctalDigitInEscapes(v / 64);
    OctalDigitInEscapes(v / 8 % 8);
    OctalDigitInEscapes(v % 8);
  }

  /** Nothing that is not printable is printed. */
  lemma {:induction false} OnlyPrintables(s: string, printable: set<char>, k: nat)
    requires ESCAPE_CHARS <= printable && k < |Escaped(s, printable)|
    ensures Escaped(s, printable)[k] in printable
  {
    var n := |Escape(s[0], printable)|;
    if k < n {
      EscapePrintable(s[0], printable, k);
    } else {
      OnlyPrintables(s[1..], printable, k - n);
    }
  }

  /** The number of octal digits that s starts with, up to a maximum. */
  function OctalRun(s: string, max: nat): (n: nat)
    ensures n <= |s| && n <= max
  {
    if s == [] || max == 0 || !IsOctal(s[0]) then 0 else 1 + OctalRun(s[1..], max - 1)
  }

  /** The value of octal digits in base eight. */
  function OctalNumber(s: string): nat
    requires forall i :: 0 <= i < |s| ==> IsOctal(s[i])
  {
    if s == [] then 0 else 8 * OctalNumber(s[..|s| - 1]) + OctalValue(s[|s| - 1])
  }

  lemma {:induction false} RunIsOctal(s: string, max: nat, i: nat)
    requires i < OctalRun(s, max)
    ensures IsOctal(s[i])
  {
    if i > 0 {
      RunIsOctal(s[1..], max - 1, i - 1);
    }
  }

  /** Behind a backslash stand up to three octal digits, whose value in base eight is cut to a
      byte, or a character that stands for itself unless it is one of the three letters. */
  lemma BackslashMeans(s: string, run: string)
    requires |s| > 1 && s[0] == BACKSLASH && run == s[1..1 + OctalRun(s[1..], 3)]
    ensures forall i :: 0 <= i < |run| ==> IsOctal(run[i])
    ensures run != [] ==> One(s) == ((OctalNumber(run) % 256) as char, 1 + |run|)
    ensures run == [] && s[1] !in {'n', 't', 'r'} ==> One(s) == (s[1], 2)
  {
    forall i | 0 <= i < |run| ensures IsOctal(run[i]) {
      RunIsOctal(s[1..], 3, i);
    }
    if run != [] {
      RunLength(s);
      OctalOfRun(s, run);
    }
  }

  lemma RunLength(s: string)
    requires |s| > 1 && IsOctal(s[1])
    ensures OctalRun(s[1..], 3) == if |s| == 2 || !IsOctal(s[2]) then 1 else if |s| == 3 || !IsOctal(s[3]) then 2 else 3
  {
    var a := s[1..];
    var b := a[1..];
    assert OctalRun(a, 3) == 1 + OctalRun(b, 2);
    if |s| > 2 && IsOctal(s[2]) {
      var d := b[1..];
      assert OctalRun(b, 2) == 1 + OctalRun(d, 1);
      if |s| > 3 && IsOctal(s[3]) {
        assert OctalRun(d, 1) == 1 + OctalRun(d[1..], 0);
      }
    }
  }

  lemma OctalOfRun(s: string, run: string)
    requires |s| > 1 && s[0] == BACKSLASH && 1 <= |run| <= 3 && |run| < |s| && run == s[1..1 + |run|]
    requires forall i :: 0 <= i < |run| ==> IsOctal(run[i])
    requires |run| < 3 && |run| + 1 < |s| ==> !IsOctal(s[|run| + 1])
    ensures One(s) == ((OctalNumber(run) % 256) as char, 1 + |run|)
  {
    OctalNumbers(run);
    assert run[0] == s[1] && (|run| > 1 ==> run[1] == s[2]) && (|run| > 2 ==> run[2] == s[3]);
    OneOfDigits(s, |run|, OctalNumber(run));
  }

  lemma OneOfDigits(s: string, n: nat, v: nat)
    requires 1 <= n <= 3 && n < |s| && s[0] == BACKSLASH && IsOctal(s[1])
    requires (n > 1 ==> IsOctal(s[2])) && (n > 2 ==> IsOctal(s[3]))
    requires n < 3 && n + 1 < |s| ==> !IsOctal(s[n + 1])
    requires v == if n == 1 then OctalValue(s[1])
                  else if n == 2 then 8 * OctalValue(s[1]) + OctalValue(s[2])
                  else 8 * (8 * OctalValue(s[1]) + OctalValue(s[2])) + OctalValue(s[3])
    ensures One(s) == ((v % 256) as char, 1 + n)
  {
    if n < 3 {
      ByteMod(v);
    }
  }

  lemma OctalNumbers(run: string)
    requires 1 <= |run| <= 3 && forall i :: 0 <= i < |run| ==> IsOctal(run[i])
    ensures |run| == 1 ==> OctalNumber(run) == OctalValue(run[0])
    ensures |run| == 2 ==> OctalNumber(run) == 8 * OctalValue(run[0]) + OctalValue(run[1])
    ensures |run| == 3 ==> OctalNumber(run) == 8 * (8 * OctalValue(run[0]) + OctalValue(run[1])) + OctalValue(run[2])
  {
    OneOctal(run[..1]);
    if |run| == 1 {
      assert run == run[..1];
    } else if |run| == 2 {
      assert run[..|run| - 1] == run[..1];
    } else {
      assert run[..|run| - 1] == run[..2] && run[..2][..1] == run[..1];
    }
  }

  lemma OneOctal(run: string)
    requires |run| == 1 && IsOctal(run[0])
    ensures OctalNumber(run) == OctalValue(run[0])
  {
    assert run[..0] == [];
    assert OctalNumber([]) == 0;
  }

  // ----- the tokenizer

  function SkipSpace(s: string): (r: string)
    ensures |r| <= |s| && (r != [] ==> !IsSpace(r[0]))
  {
    if s != [] && IsSpace(s[0]) then SkipSpace(s[1..]) else s
  }

  /** The length of the token text at the start of s: up to the delimiter, or up to white space. */
  function Extent(s: string, quoted: bool, delim: char): (n: nat)
    ensures n <= |s|
  {
    if s == [] || Ends(s[0], quoted, delim) then 0 else 1 + Extent(s[1..], quoted, delim)
  }

  predicate Ends(c: char, quoted: bool, delim: char) {
    if quoted then c == delim else IsSpace(c)
  }

  /** Where a token stands in the text it begins: where its own text starts, how long it is,
      whether backslashes in it are resolved, and how much of the text it uses up. */
  datatype Raw = Raw(start: nat, length: nat, resolve: bool, used: nat)

  function NextRaw(s: string): (r: Raw)
    requires s != [] && !IsSpace(s[0])
    ensures r.start + r.length <= |s| && 0 < r.used <= |s|
    ensures r.used == if r.start + r.length < |s| then r.start + r.length + 1 else |s|
  {
    var quoted := s[0] == SQUOTE || s[0] == DQUOTE;
    var start := if quoted then 1 else 0;
    var n := Extent(s[start..], quoted, s[0]);
    Raw(start, n, s[0] != SQUOTE, if start + n < |s| then start + n + 1 else |s|)
  }

  /** A token before backslashes are resolved. */
  datatype RawToken = RawToken(text: string, resolve: bool) {
    /** No backslash stands alone at the end of a token in which backslashes count. */
    predicate Ok() {
      resolve ==> WellEscaped(text)
    }

    function Argument(): (a: string)
      ensures |a| <= |text|
    {
      if resolve then Resolve(text) else text
    }
  }

  function FirstToken(s: string): RawToken
    requires s != [] && !IsSpace(s[0])
  {
    var r := NextRaw(s);
    RawToken(s[r.start..r.start + r.length], r.resolve)
  }

  /** What of a line is left after its first token. */
  function AfterToken(s: string): (r: string)
    requires s != [] && !IsSpace(s[0])
    ensures |r| < |s|
  {
    s[NextRaw(s).used..]
  }

  /** The tokens of the rest s of a line, at most `room` of them. */
  function RawTokens(s: string, room: nat): (ts: seq<RawToken>)
    ensures |ts| <= room
    decreases |s|
  {
    var s1 := SkipSpace(s);
    if room == 0 || s1 == [] then [] else [FirstToken(s1)] + RawTokens(AfterToken(s1), room - 1)
  }

  function Arguments(ts: seq<RawToken>): (args: seq<string>)
    ensures |args| == |ts| && forall i :: 0 <= i < |ts| ==> args[i] == ts[i].Argument()
  {
    seq(|ts|, i requires 0 <= i < |ts| => ts[i].Argument())
  }

  predicate AllOk(ts: seq<RawToken>) {
    forall i :: 0 <= i < |ts| ==> ts[i].Ok()
  }

  // ----- the round trip

  /** Arguments as printed one after the other, each quoted and led by a space. */
  function PrintedArgs(args: seq<string>, printable: set<char>): string {
    if args == [] then [] else [' '] + (CString(args[0], printable) + PrintedArgs(args[1..], printable))
  }

  ghost predicate Printable(args: seq<string>) {
    forall i :: 0 <= i < |args| ==> PrintableArg(args[i])
  }

  /** The program's own precondition for a round trip: bytes, and no double quote. */
  ghost predicate PrintableArg(a: string) {
    IsByteText(a) && DQUOTE !in a
  }

  lemma {:induction false} ExtentOf(body: string, rest: string, quoted: bool, delim: char)
    requires forall i :: 0 <= i < |body| ==> !Ends(body[i], quoted, delim)
    requires rest != [] ==> Ends(rest[0], quoted, delim)
    ensures Extent(body + rest, quoted, delim) == |body|
  {
    if body == [] {
      assert body + rest == rest;
    } else {
      assert (body + rest)[1..] == body[1..] + rest;
      ExtentOf(body[1..], rest, quoted, delim);
    }
  }

  /** The body of a quoted token is what stands between its quotes. */
  lemma QuotedToken(body: string, rest: string)
    requires DQUOTE !in body
    ensures var s := [DQUOTE] + body + [DQUOTE] + rest;
      FirstToken(s) == RawToken(body, true) && AfterToken(s) == rest
  {
    var s := [DQUOTE] + body + [DQUOTE] + rest;
    assert s[1..] == body + ([DQUOTE] + rest);
    ExtentOf(body, [DQUOTE] + rest, true, DQUOTE);
    assert NextRaw(s) == Raw(1, |body|, true, |body| + 2);
  }

  lemma LeadingSpace(s: string)
    requires s != [] && !IsSpace(s[0])
    ensures SkipSpace([' '] + s) == SkipSpace(s) == s
  {
    assert ([' '] + s)[1..] == s;
  }

  /** Texts between double quotes, each led by a space. */
  function Between(bodies: seq<string>): string {
    if bodies == [] then [] else [' '] + ([DQUOTE] + bodies[0] + [DQUOTE] + Between(bodies[1..]))
  }

  function QuotedTokens(bodies: seq<string>): (ts: seq<RawToken>)
    ensures |ts| == |bodies| && forall i :: 0 <= i < |ts| ==> ts[i] == RawToken(bodies[i], true)
  {
    seq(|bodies|, i requires 0 <= i < |bodies| => RawToken(bodies[i], true))
  }

  /** A line of quoted texts is cut where they were put together. */
  lemma {:induction false} QuotedIsCut(bodies: seq<string>, room: nat)
    requires |bodies| <= room && forall i :: 0 <= i < |bodies| ==> DQUOTE !in bodies[i]
    ensures RawTokens(Between(bodies), room) == QuotedTokens(bodies)
    decreases |bodies|
  {
    if bodies == [] {
      assert RawTokens([], room) == [];
    } else {
      QuotedFirst(bodies[0], Between(bodies[1..]), room, Between(bodies));
      QuotedIsCut(bodies[1..], room - 1);
      QuotedHead(bodies);
    }
  }

  lemma QuotedHead(bodies: seq<string>)
    requires bodies != []
    ensures QuotedTokens(bodies) == [RawToken(bodies[0], true)] + QuotedTokens(bodies[1..])
  {
  }

  lemma QuotedFirst(body: string, rest: string, room: nat, line: string)
    requires DQUOTE !in body && room > 0 && line == [' '] + ([DQUOTE] + body + [DQUOTE] + rest)
    ensures RawTokens(line, room) == [RawToken(body, true)] + RawTokens(rest, room - 1)
  {
    QuotedToken(body, rest);
    LeadingSpace([DQUOTE] + body + [DQUOTE] + rest);
  }

  function Bodies(args: seq<string>, printable: set<char>): (bodies: seq<string>)
    ensures |bodies| == |args| && forall i :: 0 <= i < |args| ==> bodies[i] == Escaped(args[i], printable)
  {
    seq(|args|, i requires 0 <= i < |args| => Escaped(args[i], printable))
  }

  lemma {:induction false} PrintedIsBetween(args: seq<string>, printable: set<char>)
    ensures PrintedArgs(args, printable) == Between(Bodies(args, printable))
  {
    if args != [] {
      var bodies := Bodies(args, printable);
      PrintedIsBetween(args[1..], printable);
      assert bodies[1..] == Bodies(args[1..], printable);
      assert bodies[0] == Escaped(args[0], printable);
    }
  }

  /** Any list of arguments that contain no double quote is recovered from its print. */
  lemma ArgsReadBack(args: seq<string>, printable: set<char>, room: nat)
    requires Printable(args) && |args| <= room
    ensures var ts := RawTokens(PrintedArgs(args, printable), room);
      AllOk(ts) && Arguments(ts) == args
  {
    var bodies := Bodies(args, printable);
    PrintedIsBetween(args, printable);
    NoQuotes(args, printable, bodies);
    QuotedIsCut(bodies, room);
    BodiesReadBack(args, printable, bodies);
  }

  lemma NoQuotes(args: seq<string>, printable: set<char>, bodies: seq<string>)
    requires Printable(args) && bodies == Bodies(args, printable)
    ensures forall i :: 0 <= i < |bodies| ==> DQUOTE !in bodies[i]
  {
    forall i | 0 <= i < |bodies| ensures DQUOTE !in bodies[i] {
      assert PrintableArg(args[i]);
      EscapedHasNoQuote(args[i], printable);
    }
  }

  lemma BodiesReadBack(args: seq<string>, printable: set<char>, bodies: seq<string>)
    requires Printable(args) && bodies == Bodies(args, printable)
    ensures AllOk(QuotedTokens(bodies)) && Arguments(QuotedTokens(bodies)) == args
  {
    var ts := QuotedTokens(bodies);
    forall i | 0 <= i < |args| ensures ts[i].Ok() && ts[i].Argument() == args[i] {
      assert PrintableArg(args[i]);
      ResolveEscaped(args[i], printable);
    }
  }

  /** A token that stands without quotes. */
  ghost predicate BareText(cmd: string) {
    cmd != [] && cmd[0] != SQUOTE && cmd[0] != DQUOTE && forall i :: 0 <= i < |cmd| ==> !IsSpace(cmd[i])
  }

  ghost predicate PlainCommand(cmd: string) {
    BareText(cmd) && forall i :: 0 <= i < |cmd| ==> cmd[i] != BACKSLASH
  }

  lemma {:induction false} ResolvePlain(s: string)
    requires forall i :: 0 <= i < |s| ==> s[i] != BACKSLASH
    ensures WellEscaped(s) && Resolve(s) == s
  {
    if s != [] {
      ResolvePlain(s[1..]);
      assert One(s) == (s[0], 1);
      assert s == [s[0]] + s[1..];
    }
  }

  /** A command followed by printed arguments is taken apart into just these. */
  lemma CommandReadsBack(cmd: string, args: seq<string>, printable: set<char>)
    requires PlainCommand(cmd) && Printable(args) && |args| < MAX_ARGS
    ensures var ts := RawTokens(cmd + PrintedArgs(args, printable), MAX_ARGS);
      AllOk(ts) && Arguments(ts) == [cmd] + args
  {
    var rest := PrintedArgs(args, printable);
    PrintedLeads(args, printable);
    CommandToken(cmd, rest, MAX_ARGS);
    ArgsReadBack(args, printable, MAX_ARGS - 1);
    PlainFirst(cmd, RawTokens(rest, MAX_ARGS - 1));
  }

  lemma PrintedLeads(args: seq<string>, printable: set<char>)
    ensures PrintedArgs(args, printable) != [] ==> IsSpace(PrintedArgs(args, printable)[0])
  {
  }

  lemma PlainFirst(cmd: string, ts: seq<RawToken>)
    requires AllOk(ts) && forall i :: 0 <= i < |cmd| ==> cmd[i] != BACKSLASH
    ensures AllOk([RawToken(cmd, true)] + ts)
    ensures Arguments([RawToken(cmd, true)] + ts) == [cmd] + Arguments(ts)
  {
    ResolvePlain(cmd);
    var t := RawToken(cmd, true);
    assert t.Ok() && t.Argument() == cmd;
    Prepended(t, ts);
  }

  lemma Prepended(t: RawToken, ts: seq<RawToken>)
    requires AllOk(ts) && t.Ok()
    ensures AllOk([t] + ts) && Arguments([t] + ts) == [t.Argument()] + Arguments(ts)
  {
    var all := [t] + ts;
    forall i | 0 <= i < |all| ensures all[i].Ok() && Arguments(all)[i] == ([t.Argument()] + Arguments(ts))[i] {
      assert i > 0 ==> all[i] == ts[i - 1];
    }
  }

  /** Up to white space a command is one token; the white space after it does not matter. */
  lemma CommandToken(cmd: string, rest: string, room: nat)
    requires BareText(cmd) && (rest != [] ==> IsSpace(rest[0])) && room > 0
    ensures RawTokens(cmd + rest, room) == [RawToken(cmd, true)] + RawTokens(rest, room - 1)
  {
    var line := cmd + rest;
    assert line[0] == cmd[0];
    ExtentOf(cmd, rest, false, cmd[0]);
    PlainRaw(line, |cmd|);
    assert FirstToken(line) == RawToken(cmd, true);
    if rest == [] {
      assert AfterToken(line) == rest;
    } else {
      assert AfterToken(line) == rest[1..];
      SkipFirst(rest[1..], rest, room - 1);
    }
  }

  lemma SkipFirst(s: string, s': string, room: nat)
    requires SkipSpace(s) == SkipSpace(s')
    ensures RawTokens(s, room) == RawTokens(s', room)
  {
  }

  lemma PlainRaw(s: string, n: nat)
    requires s != [] && !IsSpace(s[0]) && s[0] != SQUOTE && s[0] != DQUOTE
    requires Extent(s, false, s[0]) == n
    ensures NextRaw(s) == Raw(0, n, true, if n < |s| then n + 1 else |s|)
  {
    assert s[0..] == s;
  }

  // ----- any line

  /** A token as it is written: bare, or between quotes of which the second may be missing. */
  datatype Piece = Bare(text: string) | InQuotes(quote: char, text: string, closed: bool) {
    ghost predicate Ok() {
      match this
      case Bare(text) => BareText(text)
      case InQuotes(quote, text, _) => (quote == SQUOTE || quote == DQUOTE) && quote !in text
    }

    function Written(): string {
      match this
      case Bare(text) => text
      case InQuotes(quote, text, closed) => [quote] + (text + if closed then [quote] else [])
    }

    /** Only between single quotes do backslashes stand for themselves. */
    function Token(): RawToken {
      RawToken(text, Bare? || quote == DQUOTE)
    }

    /** What may come behind it: white space or the end behind a bare token, anything behind
        a closing quote, and nothing if that is missing. */
    ghost predicate Before(rest: string) {
      match this
      case Bare(_) => rest != [] ==> IsSpace(rest[0])
      case InQuotes(_, _, closed) => closed || rest == []
    }
  }

  /** A line: pieces, and the white space before each of them and at the end. */
  function Written(ps: seq<Piece>, gaps: seq<string>): string
    requires |gaps| == |ps| + 1
  {
    if ps == [] then gaps[0] else gaps[0] + (ps[0].Written() + Written(ps[1..], gaps[1..]))
  }

  ghost predicate Spaces(s: string) {
    forall i :: 0 <= i < |s| ==> IsSpace(s[i])
  }

  ghost predicate WellWritten(ps: seq<Piece>, gaps: seq<string>)
    requires |gaps| == |ps| + 1
    decreases |ps|
  {
    Spaces(gaps[0])
    && (ps != [] ==> ps[0].Ok() && ps[0].Before(Written(ps[1..], gaps[1..])) && WellWritten(ps[1..], gaps[1..]))
  }

  lemma {:induction false} SkipSpaces(lead: string, s: string)
    requires Spaces(lead) && (s != [] ==> !IsSpace(s[0]))
    ensures SkipSpace(lead + s) == s
    decreases |lead|
  {
    if lead == [] {
      assert lead + s == s;
    } else {
      assert (lead + s)[1..] == lead[1..] + s;
      SkipSpaces(lead[1..], s);
    }
  }

  lemma PieceToken(p: Piece, rest: string, room: nat)
    requires p.Ok() && p.Before(rest) && room > 0
    ensures RawTokens(p.Written() + rest, room) == [p.Token()] + RawTokens(rest, room - 1)
  {
    match p
    case Bare(text) => CommandToken(text, rest, room);
    case InQuotes(quote, text, closed) =>
      QuotedPiece(quote, text, closed, rest, p.Written() + rest);
  }

  lemma QuotedPiece(quote: char, text: string, closed: bool, rest: string, s: string)
    requires (quote == SQUOTE || quote == DQUOTE) && quote !in text && (closed || rest == [])
    requires s == InQuotes(quote, text, closed).Written() + rest
    ensures s != [] && !IsSpace(s[0]) && SkipSpace(s) == s
    ensures FirstToken(s) == RawToken(text, quote == DQUOTE) && AfterToken(s) == rest
  {
    var tail := (if closed then [quote] else []) + rest;
    QuotedForm(quote, text, closed, rest, s, tail);
    ExtentOf(text, tail, true, quote);
    assert NextRaw(s) == Raw(1, |text|, quote == DQUOTE, if closed then |text| + 2 else |text| + 1);
  }

  lemma QuotedForm(quote: char, text: string, closed: bool, rest: string, s: string, tail: string)
    requires closed || rest == []
    requires s == InQuotes(quote, text, closed).Written() + rest
    requires tail == (if closed then [quote] else []) + rest
    ensures s != [] && s[0] == quote && s[1..] == text + tail && |s| == 1 + |text| + |tail|
    ensures s[1..1 + |text|] == text && s[|s| - |rest|..] == rest
  {
    var end := if closed then [quote] else [];
    QuoteText(quote, text, end, rest, s, tail);
  }

  lemma QuoteText(quote: char, text: string, end: string, rest: string, s: string, tail: string)
    requires s == [quote] + (text + end) + rest && tail == end + rest
    ensures s == [quote] + (text + tail) && s[1..] == text + tail
    ensures s[1..1 + |text|] == text && s[|s| - |rest|..] == rest
  {
  }

  /** The tokens are those of the pieces, up to the room there is. */
  ghost predicate TokensOf(ts: seq<RawToken>, ps: seq<Piece>, room: nat) {
    |ts| == (if |ps| < room then |ps| else room) && forall k :: 0 <= k < |ts| ==> ts[k] == ps[k].Token()
  }

  /** Any line is cut into the tokens it was written as, up to the room there is. */
  lemma {:induction false} LineIsCut(ps: seq<Piece>, gaps: seq<string>, room: nat)
    requires |gaps| == |ps| + 1 && WellWritten(ps, gaps)
    ensures TokensOf(RawTokens(Written(ps, gaps), room), ps, room)
    decreases |ps|
  {
    if ps == [] || room == 0 {
      NothingWritten(ps, gaps, room);
    } else {
      LineIsCut(ps[1..], gaps[1..], room - 1);
      PieceAndRest(ps, gaps, room, Written(ps, gaps), Written(ps[1..], gaps[1..]));
    }
  }

  lemma PieceAndRest(ps: seq<Piece>, gaps: seq<string>, room: nat, s: string, rest: string)
    requires |gaps| == |ps| + 1 && WellWritten(ps, gaps) && ps != [] && room > 0
    requires s == Written(ps, gaps) && rest == Written(ps[1..], gaps[1..])
    requires TokensOf(RawTokens(rest, room - 1), ps[1..], room - 1)
    ensures TokensOf(RawTokens(s, room), ps, room)
  {
    FirstPieceCut(ps, gaps, room, s, rest);
    OnePieceMore(RawTokens(s, room), RawTokens(rest, room - 1), ps, room);
  }

  lemma OnePieceMore(ts: seq<RawToken>, more: seq<RawToken>, ps: seq<Piece>, room: nat)
    requires ps != [] && room > 0 && ts == [ps[0].Token()] + more && TokensOf(more, ps[1..], room - 1)
    ensures TokensOf(ts, ps, room)
  {
    forall k | 0 <= k < |ts| ensures ts[k] == ps[k].Token() {
      assert k > 0 ==> ts[k] == more[k - 1] && ps[k] == ps[1..][k - 1];
    }
  }

  lemma NothingWritten(ps: seq<Piece>, gaps: seq<string>, room: nat)
    requires |gaps| == |ps| + 1 && WellWritten(ps, gaps) && (ps == [] || room == 0)
    ensures RawTokens(Written(ps, gaps), room) == []
  {
    if ps == [] {
      SkipSpaces(gaps[0], []);
      assert gaps[0] + [] == gaps[0];
    }
  }

  lemma FirstPieceCut(ps: seq<Piece>, gaps: seq<string>, room: nat, s: string, rest: string)
    requires |gaps| == |ps| + 1 && WellWritten(ps, gaps) && ps != [] && room > 0
    requires s == Written(ps, gaps) && rest == Written(ps[1..], gaps[1..])
    ensures RawTokens(s, room) == [ps[0].Token()] + RawTokens(rest, room - 1)
  {
    var line := ps[0].Written() + rest;
    PieceStarts(ps[0], rest);
    SkipSpaces(gaps[0], line);
    SkipFirst(s, line, room);
    PieceToken(ps[0], rest, room);
  }

  lemma PieceStarts(p: Piece, rest: string)
    requires p.Ok()
    ensures var line := p.Written() + rest;
      line != [] && !IsSpace(line[0]) && SkipSpace(line) == line
  {
    var line := p.Written() + rest;
    assert line[0] == p.Written()[0];
  }

  // ----- in place

  /** Half way through dequoting n characters at a: `done` stands at a, `rest` is still to be
      read at i, and nothing outside has changed. */
  ghost predicate HalfDone(b: seq<char>, orig: seq<char>, a: nat, n: nat, i: nat, rest: string, done: string) {
    i + |rest| == a + n && a + |done| <= i && HoldsAt(b, i, rest)
    && (forall k :: 0 <= k < |done| ==> b[a + k] == done[k])
    && SameOutside(b, orig, a, a + n)
  }

  ghost predicate SameOutside(b: seq<char>, orig: seq<char>, lo: nat, hi: nat) {
    |b| == |orig| && forall k :: 0 <= k < |b| && !(lo <= k <= hi) ==> b[k] == orig[k]
  }

  lemma HalfStep(b: seq<char>, orig: seq<char>, a: nat, n: nat, i: nat, rest: string, done: string,
                 c: char, used: nat)
    requires HalfDone(b, orig, a, n, i, rest, done) && 1 <= used <= |rest|
    ensures HalfDone(b[a + |done| := c], orig, a, n, i + used, rest[used..], done + [c])
  {
    HoldsTail(b, i, rest, used);
    StoreBelow(b, a + |done|, c, i + used, rest[used..]);
  }

  lemma HalfEnd(b: seq<char>, orig: seq<char>, a: nat, n: nat, i: nat, done: string)
    requires HalfDone(b, orig, a, n, i, "", done)
    ensures var b' := b[a + |done| := NUL];
      HoldsAt(b', a, done) && b'[a + n] == NUL && SameOutside(b', orig, a, a + n)
  {
  }

  lemma ResolveUnfolds(rest: string, done: string)
    requires rest != [] && WellEscaped(rest) && NulFree(rest)
    ensures var (c, used) := One(rest);
      done + Resolve(rest) == done + [c] + Resolve(rest[used..])
      && WellEscaped(rest[used..]) && NulFree(rest[used..])
  {
    assert forall x :: x in rest[One(rest).1..] ==> x in rest;
  }

  lemma AllRead(b: seq<char>, i: nat, rest: string)
    requires HoldsAt(b, i, rest) && NulFree(rest) && b[i] == NUL
    ensures rest == ""
  {
    StartsHere(b, i, rest);
  }

  /** `resolve_backslashes` on the C string s at position a: writing never overtakes reading. */
  method ResolveBackslashes(z: array<char>, a: nat, ghost s: string)
    requires HoldsAt(z[..], a, s) && NulFree(s) && WellEscaped(s)
    modifies z
    ensures HoldsAt(z[..], a, Resolve(s)) && z[a + |s|] == NUL
    ensures SameOutside(z[..], old(z[..]), a, a + |s|)
  {
    var i, j := a, a;
    ghost var rest, done := s, "";
    assert done + Resolve(s) == Resolve(s);
    while z[i] != NUL
      invariant 0 <= a <= i && j == a + |done| <= i
      invariant HalfDone(z[..], old(z[..]), a, |s|, i, rest, done)
      invariant NulFree(rest) && WellEscaped(rest) && done + Resolve(rest) == Resolve(s)
      decreases |rest|
    {
      ResolveUnfolds(rest, done);
      i, rest, done := DecodeOne(z, a, i, j, |s|, rest, done, old(z[..]));
      j := j + 1;
    }
    AllRead(z[..], i, rest);
    assert done == Resolve(s);
    EndDecoding(z, a, j, |s|, i, done, old(z[..]));
  }

  /** Reads one character at i and writes what it stands for at j. */
  method DecodeOne(z: array<char>, a: nat, i: nat, j: nat, ghost n: nat, ghost rest: string, ghost done: string,
                   ghost orig: string) returns (next: nat, ghost rest': string, ghost done': string)
    requires HalfDone(z[..], orig, a, n, i, rest, done) && j == a + |done|
    requires NulFree(rest) && rest != [] && WellEscaped(rest)
    modifies z
    ensures rest' == rest[One(rest).1..] && done' == done + [One(rest).0]
    ensures next == i + One(rest).1 && HalfDone(z[..], orig, a, n, next, rest', done')
  {
    var c, used := ReadOne(z, i, rest);
    HalfStep(z[..], orig, a, n, i, rest, done, c, used);
    ghost var b := z[..][j := c];
    z[j] := c;
    assert z[..] == b;
    next, rest', done' := i + used, rest[used..], done + [c];
  }

  method EndDecoding(z: array<char>, a: nat, j: nat, ghost n: nat, ghost i: nat, ghost done: string,
                     ghost orig: string)
    requires HalfDone(z[..], orig, a, n, i, "", done) && j == a + |done|
    modifies z
    ensures HoldsAt(z[..], a, done) && z[a + n] == NUL && SameOutside(z[..], orig, a, a + n)
  {
    HalfEnd(z[..], orig, a, n, i, done);
    ghost var b := z[..][j := NUL];
    z[j] := NUL;
    assert z[..] == b;
  }

  /** The body of the loop of `resolve_backslashes`: the character at i, and what it takes up. */
  method ReadOne(z: array<char>, i: nat, ghost rest: string) returns (c: char, used: nat)
    requires HoldsAt(z[..], i, rest) && NulFree(rest) && rest != [] && WellEscaped(rest)
    ensures (c, used) == One(rest)
  {
    CharAt(z[..], i, rest, 0);
    c, used := z[i], 1;
    if c == BACKSLASH {
      CharAt(z[..], i, rest, 1);
      c, used := z[i + 1], 2;
      if c == 'n' {
        c := '\n';
      } else if c == 't' {
        c := '\t';
      } else if c == 'r' {
        c := '\r';
      } else if IsOctal(c) {
        c, used := ReadOctal(z, i, rest);
      }
    }
  }

  /** The digits behind a backslash: up to three of them. */
  method ReadOctal(z: array<char>, i: nat, ghost rest: string) returns (c: char, used: nat)
    requires HoldsAt(z[..], i, rest) && NulFree(rest)
    requires |rest| >= 2 && rest[0] == BACKSLASH && IsOctal(rest[1])
    ensures (c, used) == One(rest)
  {
    CharAt(z[..], i, rest, 1);
    CharAt(z[..], i, rest, 2);
    var v := OctalValue(z[i + 1]);
    used := 2;
    if IsOctal(z[i + 2]) {
      CharAt(z[..], i, rest, 3);
      v := v * 8 + OctalValue(z[i + 2]);
      used := 3;
      if IsOctal(z[i + 3]) {
        v := (v * 8 + OctalValue(z[i + 3])) % 256;
        used := 4;
      }
    }
    c := v as char;
  }

  /** Runs on to the end of a token's text. */
  method Scan(z: array<char>, i: nat, ghost s: string, quoted: bool, delim: char) returns (end: nat)
    requires HoldsAt(z[..], i, s) && NulFree(s)
    ensures end == i + Extent(s, quoted, delim)
  {
    end := i;
    ghost var rest := s;
    StartsHere(z[..], end, rest);
    while z[end] != NUL && !Ends(z[end], quoted, delim)
      invariant HoldsAt(z[..], end, rest) && NulFree(rest)
      invariant end + |rest| == i + |s| && Extent(s, quoted, delim) == end - i + Extent(rest, quoted, delim)
      invariant (z[end] == NUL <==> rest == []) && (rest != [] ==> z[end] == rest[0])
      decreases |rest|
    {
      HoldsTail(z[..], end, rest, 1);
      TailNulFree(rest, 1);
      end, rest := end + 1, rest[1..];
      StartsHere(z[..], end, rest);
    }
  }

  /** Ends the token at i with a NUL. */
  method CutToken(z: array<char>, i: nat, ghost s: string) returns (start: nat, next: nat, resolve: bool)
    requires HoldsAt(z[..], i, s) && NulFree(s) && s != [] && !IsSpace(s[0])
    modifies z
    ensures start == i + NextRaw(s).start && next == i + NextRaw(s).used
    ensures resolve == FirstToken(s).resolve
    ensures HoldsAt(z[..], start, FirstToken(s).text) && HoldsAt(z[..], next, AfterToken(s))
    ensures z[..i] == old(z[..i])
  {
    var end;
    start, end, resolve := FindEnd(z, i, s);
    ghost var before, cut := z[..], z[..][end := NUL];
    TextHolds(before, i, s, end, cut);
    RestHolds(before, i, s, end, cut);
    next := end;
    if z[end] != NUL {
      z[end] := NUL;
      next := end + 1;
    }
    assert z[..] == cut;
    assert cut[..i] == before[..i];
  }

  /** Where the text of the token at i starts and ends. */
  method FindEnd(z: array<char>, i: nat, ghost s: string) returns (start: nat, end: nat, resolve: bool)
    requires HoldsAt(z[..], i, s) && NulFree(s) && s != [] && !IsSpace(s[0])
    ensures start == i + NextRaw(s).start && end == start + NextRaw(s).length < z.Length
    ensures resolve == FirstToken(s).resolve
    ensures z[end] == NUL <==> end == i + |s|
  {
    CharAt(z[..], i, s, 0);
    var first := z[i];
    var quoted := first == SQUOTE || first == DQUOTE;
    resolve := first != SQUOTE;
    ghost var k: nat := if quoted then 1 else 0;
    start := if quoted then i + 1 else i;
    ghost var rest := s[k..];
    RawParts(s, quoted, k, rest);
    HoldsTail(z[..], i, s, k);
    TailNulFree(s, k);
    end := Scan(z, start, rest, quoted, first);
    CharAt(z[..], i, s, end - i);
  }

  lemma RawParts(s: string, quoted: bool, k: nat, rest: string)
    requires s != [] && !IsSpace(s[0]) && quoted == (s[0] == SQUOTE || s[0] == DQUOTE)
    requires k == (if quoted then 1 else 0) && rest == s[k..]
    ensures NextRaw(s).start == k
    ensures NextRaw(s).length == Extent(rest, quoted, s[0])
    ensures FirstToken(s).resolve == (s[0] != SQUOTE)
  {
  }

  lemma TextHolds(b: seq<char>, i: nat, s: string, end: nat, cut: seq<char>)
    requires HoldsAt(b, i, s) && s != [] && !IsSpace(s[0])
    requires end == i + NextRaw(s).start + NextRaw(s).length && cut == b[end := NUL]
    ensures HoldsAt(cut, i + NextRaw(s).start, FirstToken(s).text)
  {
    var r := NextRaw(s);
    HoldsPart(b, i, s, r.start, r.length);
  }

  lemma RestHolds(b: seq<char>, i: nat, s: string, end: nat, cut: seq<char>)
    requires HoldsAt(b, i, s) && s != [] && !IsSpace(s[0])
    requires end == i + NextRaw(s).start + NextRaw(s).length && cut == b[end := NUL]
    ensures HoldsAt(cut, i + NextRaw(s).used, AfterToken(s))
  {
    var r := NextRaw(s);
    if end < i + |s| {
      HoldsTail(b, i, s, r.used);
      StoreBelow(b, end, NUL, i + r.used, s[r.used..]);
    } else {
      assert AfterToken(s) == [];
    }
  }

  /** Takes the token at i out of the line: it is ended with a NUL and dequoted in place. */
  method TakeToken(z: array<char>, i: nat, ghost s: string) returns (start: nat, next: nat)
    requires HoldsAt(z[..], i, s) && NulFree(s) && s != [] && !IsSpace(s[0]) && FirstToken(s).Ok()
    modifies z
    ensures i <= start && HoldsAt(z[..], start, FirstToken(s).Argument())
    ensures next == i + NextRaw(s).used && HoldsAt(z[..], next, AfterToken(s))
    ensures start + |FirstToken(s).Argument()| < Clear(next, AfterToken(s))
    ensures z[..i] == old(z[..i])
  {
    var resolve;
    start, next, resolve := CutToken(z, i, s);
    TokenEnds(i, s);
    TextNulFree(s);
    Dequote(z, i, start, next, resolve, FirstToken(s), AfterToken(s));
  }

  /** Dequotes a token that has been cut off, if it asks for it. */
  method Dequote(z: array<char>, i: nat, start: nat, next: nat, resolve: bool,
                 ghost t: RawToken, ghost rest: string)
    requires HoldsAt(z[..], start, t.text) && NulFree(t.text) && t.Ok() && resolve == t.resolve
    requires i <= start && HoldsAt(z[..], next, rest)
    requires start + |t.text| < next || (rest == [] && start + |t.text| == next)
    modifies z
    ensures HoldsAt(z[..], start, t.Argument()) && HoldsAt(z[..], next, rest)
    ensures z[..i] == old(z[..i])
  {
    if resolve {
      ghost var cut := z[..];
      ResolveBackslashes(z, start, t.text);
      Above(cut, z[..], start + |t.text|, next, rest);
      Below(cut, z[..], start, start + |t.text|, i);
    }
  }

  /** The text of a token ends before what comes after it. */
  lemma TokenEnds(i: nat, s: string)
    requires s != [] && !IsSpace(s[0])
    ensures var end, next := i + NextRaw(s).start + |FirstToken(s).text|, i + NextRaw(s).used;
      end < Clear(next, AfterToken(s)) && (end < next || (AfterToken(s) == [] && end == next))
  {
  }

  lemma Below(b: seq<char>, b': seq<char>, lo: nat, hi: nat, i: nat)
    requires SameOutside(b', b, lo, hi) && i <= lo <= |b|
    ensures b'[..i] == b[..i]
  {
  }

  lemma TextNulFree(s: string)
    requires NulFree(s) && s != [] && !IsSpace(s[0])
    ensures NulFree(FirstToken(s).text)
  {
    var r := NextRaw(s);
    assert forall c :: c in s[r.start..r.start + r.length] ==> c in s;
  }

  /** Text above `end` does not notice a change below; nor does an empty text at `end`. */
  lemma Above(b: seq<char>, b': seq<char>, end: nat, a: nat, s: string)
    requires HoldsAt(b, a, s) && |b| == |b'| && (end < a || (s == [] && end == a))
    requires forall k :: end < k < |b| ==> b'[k] == b[k]
    requires b'[end] == NUL
    ensures HoldsAt(b', a, s)
  {
  }

  /** The arguments found so far stand where azArg says, clear of what is still to be read. */
  ghost predicate ArgsAt(b: seq<char>, azArg: seq<nat>, ts: seq<RawToken>, i: nat) {
    |ts| <= |azArg|
    && forall t :: 0 <= t < |ts| ==> HoldsAt(b, azArg[t], ts[t].Argument())
                                     && azArg[t] + |ts[t].Argument()| < i
  }

  lemma ArgsStay(b: seq<char>, b': seq<char>, azArg: seq<nat>, ts: seq<RawToken>, i: nat)
    requires ArgsAt(b, azArg, ts, i) && i <= |b| == |b'| && b[..i] == b'[..i]
    ensures ArgsAt(b', azArg, ts, i)
  {
    forall t | 0 <= t < |ts| ensures HoldsAt(b', azArg[t], ts[t].Argument()) {
      SamePrefix(b, b', i, azArg[t], ts[t].Argument());
    }
  }

  lemma SamePrefix(b: seq<char>, b': seq<char>, i: nat, a: nat, s: string)
    requires HoldsAt(b, a, s) && a + |s| < i <= |b| == |b'| && b[..i] == b'[..i]
    ensures HoldsAt(b', a, s)
  {
    assert forall k :: 0 <= k < i ==> b[k] == b[..i][k] && b'[k] == b'[..i][k];
  }

  lemma OneMoreArg(b: seq<char>, azArg: seq<nat>, ts: seq<RawToken>, i: nat, start: nat, t: RawToken, next: nat)
    requires ArgsAt(b, azArg, ts, i) && |ts| < |azArg| && i <= next
    requires HoldsAt(b, start, t.Argument()) && start + |t.Argument()| < next
    ensures ArgsAt(b, azArg[|ts| := start], ts + [t], next)
  {
    var az, ts' := azArg[|ts| := start], ts + [t];
    forall k | 0 <= k < |ts'|
      ensures HoldsAt(b, az[k], ts'[k].Argument()) && az[k] + |ts'[k].Argument()| < next
    {
      if k < |ts| {
        assert az[k] == azArg[k] && ts'[k] == ts[k];
      }
    }
  }

  /** Runs past white space. */
  method SkipBlanks(z: array<char>, i: nat, ghost s: string) returns (next: nat)
    requires HoldsAt(z[..], i, s) && NulFree(s)
    ensures next == i + |s| - |SkipSpace(s)| && HoldsAt(z[..], next, SkipSpace(s))
    ensures NulFree(SkipSpace(s))
  {
    next := i;
    ghost var rest := s;
    StartsHere(z[..], next, rest);
    while IsSpace(z[next])
      invariant HoldsAt(z[..], next, rest) && NulFree(rest)
      invariant next + |rest| == i + |s| && SkipSpace(rest) == SkipSpace(s)
      invariant (z[next] == NUL <==> rest == []) && (rest != [] ==> z[next] == rest[0])
      decreases |rest|
    {
      HoldsTail(z[..], next, rest, 1);
      TailNulFree(rest, 1);
      next, rest := next + 1, rest[1..];
      StartsHere(z[..], next, rest);
    }
    assert SkipSpace(rest) == rest;
  }

  lemma TokensOfSkipped(s: string, room: nat)
    ensures RawTokens(s, room) == RawTokens(SkipSpace(s), room)
  {
    SkipFirst(s, SkipSpace(s), room);
  }

  lemma FirstOfAll(s: string, ts: seq<RawToken>, room: nat, all: seq<RawToken>)
    requires s != [] && !IsSpace(s[0]) && room > 0 && ts + RawTokens(s, room) == all && AllOk(all)
    ensures FirstToken(s).Ok()
    ensures ts + [FirstToken(s)] + RawTokens(AfterToken(s), room - 1) == all
  {
    assert all[|ts|] == FirstToken(s);
  }

  lemma AfterNulFree(s: string)
    requires NulFree(s) && s != [] && !IsSpace(s[0])
    ensures NulFree(AfterToken(s))
  {
    assert forall c :: c in AfterToken(s) ==> c in s;
  }

  lemma Finished(ts: seq<RawToken>, s: string, room: nat, all: seq<RawToken>)
    requires ts + RawTokens(s, room) == all && (s == [] || room == 0)
    ensures ts == all
  {
  }

  /** How far the text is cleared: past the end of the line once nothing is left to read. */
  function Clear(i: nat, s: string): nat {
    if s == [] then i + 1 else i
  }

  /** Between two turns of the tokenizer: `ts` has been taken, s is left, and together they
      make the tokens of the whole line. */
  ghost predicate Parsing(b: seq<char>, azArg: seq<nat>, i: nat, s: string, ts: seq<RawToken>, all: seq<RawToken>) {
    |ts| <= MAX_ARGS == |azArg| && AllOk(all) && HoldsAt(b, i, s) && NulFree(s)
    && ts + RawTokens(s, MAX_ARGS - |ts|) == all
    && ArgsAt(b, azArg, ts, Clear(i, s))
  }

  lemma Skipped(b: seq<char>, azArg: seq<nat>, i: nat, s: string, ts: seq<RawToken>, all: seq<RawToken>, i': nat)
    requires Parsing(b, azArg, i, s, ts, all) && i <= i' && HoldsAt(b, i', SkipSpace(s))
    requires NulFree(SkipSpace(s)) && s != []
    ensures Parsing(b, azArg, i', SkipSpace(s), ts, all)
  {
    TokensOfSkipped(s, MAX_ARGS - |ts|);
  }

  lemma TokenTaken(b: seq<char>, b': seq<char>, azArg: seq<nat>, i: nat, s: string, ts: seq<RawToken>,
                   all: seq<RawToken>, start: nat, next: nat, t: RawToken, rest: string, ts': seq<RawToken>)
    requires Parsing(b, azArg, i, s, ts, all) && |ts| < MAX_ARGS && s != [] && !IsSpace(s[0])
    requires |b| == |b'| && i <= next && b[..i] == b'[..i]
    requires t == FirstToken(s) && rest == AfterToken(s) && ts' == ts + [t]
    requires HoldsAt(b', start, t.Argument()) && HoldsAt(b', next, rest)
    requires start + |t.Argument()| < Clear(next, rest)
    ensures Parsing(b', azArg[|ts| := start], next, rest, ts', all)
  {
    NextOfAll(s, ts, t, ts', rest, all);
    AfterNulFree(s);
    ArgsStay(b, b', azArg, ts, i);
    OneMoreArg(b', azArg, ts, i, start, t, Clear(next, rest));
  }

  lemma NextOfAll(s: string, ts: seq<RawToken>, t: RawToken, ts': seq<RawToken>, rest: string, all: seq<RawToken>)
    requires s != [] && !IsSpace(s[0]) && |ts| < MAX_ARGS && ts + RawTokens(s, MAX_ARGS - |ts|) == all && AllOk(all)
    requires t == FirstToken(s) && rest == AfterToken(s) && ts' == ts + [t]
    ensures t.Ok() && ts' + RawTokens(rest, MAX_ARGS - |ts'|) == all
  {
    FirstOfAll(s, ts, MAX_ARGS - |ts|, all);
  }

  /** Each argument is a C string where azArg says. */
  ghost predicate ArgsHeld(b: seq<char>, azArg: seq<nat>, args: seq<string>) {
    |args| <= |azArg| && forall t :: 0 <= t < |args| ==> HoldsAt(b, azArg[t], args[t])
  }

  /** The tokenizer of `do_meta_command` on a line that starts with a dot: azArg gets the
      positions of the arguments, each a C string in the line's own buffer. */
  method ParseLine(zLine: array<char>, azArg: array<nat>, ghost line: string) returns (nArg: nat)
    requires HoldsAt(zLine[..], 0, line) && NulFree(line) && line != []
    requires azArg.Length == MAX_ARGS && AllOk(RawTokens(line[1..], MAX_ARGS))
    modifies zLine, azArg
    ensures var args := Arguments(RawTokens(line[1..], MAX_ARGS));
      nArg == |args| && ArgsHeld(zLine[..], azArg[..], args)
  {
    ghost var all := RawTokens(line[1..], MAX_ARGS);
    var i := 1;
    ghost var s, ts := line[1..], [];
    ParsingStarts(zLine[..], azArg[..], line, all);
    nArg := 0;
    while zLine[i] != NUL && nArg < MAX_ARGS
      invariant 0 <= i && nArg == |ts|
      invariant Parsing(zLine[..], azArg[..], i, s, ts, all)
      decreases |s|
    {
      i, s := SkipTo(zLine, azArg, i, s, ts, all);
      if zLine[i] == NUL {
        break;
      }
      i := TakeArg(zLine, azArg, i, s, nArg, ts, all);
      nArg := nArg + 1;
      s, ts := AfterToken(s), ts + [FirstToken(s)];
    }
    ArgsFound(zLine[..], azArg[..], i, s, ts, all);
  }

  lemma ParsingStarts(b: seq<char>, azArg: seq<nat>, line: string, all: seq<RawToken>)
    requires HoldsAt(b, 0, line) && NulFree(line) && line != [] && |azArg| == MAX_ARGS
    requires AllOk(all) && all == RawTokens(line[1..], MAX_ARGS)
    ensures Parsing(b, azArg, 1, line[1..], [], all)
  {
    HoldsTail(b, 0, line, 1);
    assert forall c :: c in line[1..] ==> c in line;
    assert [] + all == all;
  }

  lemma ArgsFound(b: seq<char>, azArg: seq<nat>, i: nat, s: string, ts: seq<RawToken>, all: seq<RawToken>)
    requires Parsing(b, azArg, i, s, ts, all) && (b[i] == NUL || |ts| == MAX_ARGS)
    ensures |Arguments(all)| == |ts| && ArgsHeld(b, azArg, Arguments(all))
  {
    StartsHere(b, i, s);
    Finished(ts, s, MAX_ARGS - |ts|, all);
  }

  /** Skips the white space before a token. */
  method SkipTo(zLine: array<char>, azArg: array<nat>, i: nat, ghost s: string,
                ghost ts: seq<RawToken>, ghost all: seq<RawToken>) returns (next: nat, ghost s': string)
    requires Parsing(zLine[..], azArg[..], i, s, ts, all) && zLine[i] != NUL
    ensures Parsing(zLine[..], azArg[..], next, s', ts, all) && s' == SkipSpace(s)
    ensures (zLine[next] == NUL <==> s' == []) && |s'| <= |s|
  {
    StartsHere(zLine[..], i, s);
    next := SkipBlanks(zLine, i, s);
    s' := SkipSpace(s);
    Skipped(zLine[..], azArg[..], i, s, ts, all, next);
    StartsHere(zLine[..], next, s');
  }

  /** Takes one token and notes where it starts. */
  method TakeArg(zLine: array<char>, azArg: array<nat>, i: nat, ghost s: string, nArg: nat,
                 ghost ts: seq<RawToken>, ghost all: seq<RawToken>) returns (next: nat)
    requires Parsing(zLine[..], azArg[..], i, s, ts, all) && nArg == |ts| < MAX_ARGS
    requires s != [] && !IsSpace(s[0])
    modifies zLine, azArg
    ensures Parsing(zLine[..], azArg[..], next, AfterToken(s), ts + [FirstToken(s)], all)
  {
    FirstOfAll(s, ts, MAX_ARGS - nArg, all);
    ghost var before, az := zLine[..], azArg[..];
    var start;
    start, next := TakeToken(zLine, i, s);
    TokenTaken(before, zLine[..], az, i, s, ts, all, start, next, FirstToken(s), AfterToken(s), ts + [FirstToken(s)]);
    azArg[nArg] := start;
    assert azArg[..] == az[nArg := start];
  }
}
