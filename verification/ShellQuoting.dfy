/** SQL quoting in the shell: a quote inside quoted text is written twice. */
module ShellQuoting {
  import opened CText

  function Doubled(q: char, s: string): string {
    if s == [] then [] else (if s[0] == q then [q, q] else [s[0]]) + Doubled(q, s[1..])
  }

  function Quoted(q: char, s: string): string {
    [q] + Doubled(q, s) + [q]
  }

  // ----- reading quoted text

  datatype Lexeme = Lexeme(content: string, rest: string) | Unterminated

  /** Reads up to the closing quote, of text whose opening quote has been taken. */
  function ReadBody(q: char, s: string): (l: Lexeme)
    ensures l.Lexeme? ==> |l.rest| < |s|
  {
    if s == [] then Unterminated
    else if s[0] != q then Before(s[0], ReadBody(q, s[1..]))
    else if |s| > 1 && s[1] == q then Before(q, ReadBody(q, s[2..]))
    else Lexeme([], s[1..])
  }

  function Before(c: char, l: Lexeme): Lexeme {
    match l
    case Lexeme(content, rest) => Lexeme([c] + content, rest)
    case Unterminated => Unterminated
  }

  function ReadQuoted(q: char, s: string): Lexeme {
    if s == [] || s[0] != q then Unterminated else ReadBody(q, s[1..])
  }

  lemma {:induction false} ReadBodyDoubled(q: char, s: string, rest: string)
    requires rest == [] || rest[0] != q
    ensures ReadBody(q, Doubled(q, s) + ([q] + rest)) == Lexeme(s, rest)
  {
    if s == [] {
      ReadEnd(q, rest);
    } else {
      ReadBodyDoubled(q, s[1..], rest);
      DoubledFirst(q, s, [q] + rest);
      ReadOneMore(q, s[0], Doubled(q, s[1..]) + ([q] + rest));
      assert s == [s[0]] + s[1..];
    }
  }

  lemma ReadEnd(q: char, rest: string)
    requires rest == [] || rest[0] != q
    ensures ReadBody(q, Doubled(q, []) + ([q] + rest)) == Lexeme([], rest)
  {
    assert Doubled(q, []) + ([q] + rest) == [q] + rest;
    assert ([q] + rest)[1..] == rest;
  }

  lemma DoubledFirst(q: char, s: string, tail: string)
    requires s != []
    ensures Doubled(q, s) + tail == (if s[0] == q then [q, q] else [s[0]]) + (Doubled(q, s[1..]) + tail)
  {
  }

  lemma ReadOneMore(q: char, c: char, tail: string)
    ensures ReadBody(q, (if c == q then [q, q] else [c]) + tail) == Before(c, ReadBody(q, tail))
  {
    if c == q {
      assert ([q, q] + tail)[2..] == tail;
    } else {
      assert ([c] + tail)[1..] == tail;
    }
  }

  /** Quoted text, whatever it contains, ends where it was meant to end and reads back as
      it was, in any text that does not go on with another quote. */
  lemma QuotedReadsBack(q: char, s: string, rest: string)
    requires rest == [] || rest[0] != q
    ensures ReadQuoted(q, Quoted(q, s) + rest) == Lexeme(s, rest)
  {
    ReadBodyDoubled(q, s, rest);
    QuotedParts(q, s, rest, Quoted(q, s) + rest);
  }

  lemma QuotedParts(q: char, s: string, rest: string, text: string)
    requires text == Quoted(q, s) + rest
    ensures text != [] && text[0] == q && text[1..] == Doubled(q, s) + ([q] + rest)
  {
  }

  lemma {:induction false} DoubledConcat(q: char, a: string, b: string)
    ensures Doubled(q, a + b) == Doubled(q, a) + Doubled(q, b)
  {
    if a == [] {
      assert a + b == b;
    } else {
      assert (a + b)[1..] == a[1..] + b;
      DoubledConcat(q, a[1..], b);
    }
  }

  lemma {:induction false} DoubledPlain(q: char, s: string)
    requires q !in s
    ensures Doubled(q, s) == s
  {
    if s != [] {
      DoubledPlain(q, s[1..]);
    }
  }

  /** The number of quotes in s. */
  function Count(q: char, s: string): nat {
    if s == [] then 0 else (if s[0] == q then 1 else 0) + Count(q, s[1..])
  }

  lemma {:induction false} DoubledLength(q: char, s: string)
    ensures |Doubled(q, s)| == |s| + Count(q, s)
  {
    if s != [] {
      DoubledLength(q, s[1..]);
    }
  }

  lemma {:induction false} CountZero(q: char, s: string)
    ensures Count(q, s) == 0 <==> q !in s
  {
    if s != [] {
      CountZero(q, s[1..]);
    }
  }

  lemma {:induction false} CountLast(q: char, s: string, c: char)
    ensures Count(q, s + [c]) == Count(q, s) + if c == q then 1 else 0
  {
    if s == [] {
      assert [c][1..] == [];
    } else {
      assert (s + [c])[1..] == s[1..] + [c];
      CountLast(q, s[1..], c);
    }
  }

  // ----- output_quoted_string

  /** `output_quoted_string`: writes whole runs between the quotes. */
  method OutputQuotedString(z: string) returns (out: string)
    ensures out == Quoted(SQUOTE, z)
  {
    var nSingle := CountQuotes(z);
    if nSingle == 0 {
      CountZero(SQUOTE, z);
      DoubledPlain(SQUOTE, z);
      return [SQUOTE] + z + [SQUOTE];
    }
    out := [SQUOTE];
    var p := 0;
    while p < |z|
      invariant p <= |z|
      invariant out + Doubled(SQUOTE, z[p..]) == [SQUOTE] + Doubled(SQUOTE, z)
    {
      out, p := WriteRun(z, p, out);
    }
    out := out + [SQUOTE];
  }

  method CountQuotes(z: string) returns (nSingle: nat)
    ensures nSingle == Count(SQUOTE, z)
  {
    nSingle := 0;
    for i := 0 to |z|
      invariant nSingle == Count(SQUOTE, z[..i])
    {
      assert z[..i + 1] == z[..i] + [z[i]];
      CountLast(SQUOTE, z[..i], z[i]);
      if z[i] == SQUOTE {
        nSingle := nSingle + 1;
      }
    }
    assert z[..|z|] == z;
  }

  /** One turn of the loop: a run and the quote behind it, or the rest of the text. */
  method WriteRun(z: string, p: nat, out: string) returns (out': string, p': nat)
    requires p < |z|
    ensures p < p' <= |z| && out' + Doubled(SQUOTE, z[p'..]) == out + Doubled(SQUOTE, z[p..])
  {
    var i := RunLength(z, p);
    ChunkDone(z, p, i, out);
    if i == 0 {
      assert z[p..p] + [SQUOTE, SQUOTE] == [SQUOTE, SQUOTE];
      out', p' := out + [SQUOTE, SQUOTE], p + 1;
    } else if p + i < |z| {
      out', p' := out + (z[p..p + i] + [SQUOTE, SQUOTE]), p + i + 1;
    } else {
      out', p' := out + z[p..], |z|;
      assert z[|z|..] == [];
    }
  }

  /** The distance to the next quote, or to the end. */
  method RunLength(z: string, p: nat) returns (i: nat)
    requires p < |z|
    ensures p + i <= |z| && SQUOTE !in z[p..p + i]
    ensures p + i < |z| ==> z[p + i] == SQUOTE
  {
    i := 0;
    while p + i < |z| && z[p + i] != SQUOTE
      invariant p + i <= |z| && SQUOTE !in z[p..p + i]
    {
      assert z[p..p + i + 1] == z[p..p + i] + [z[p + i]];
      i := i + 1;
    }
  }

  lemma ChunkDone(z: string, p: nat, i: nat, out: string)
    requires p < |z| && p + i <= |z| && SQUOTE !in z[p..p + i]
    requires p + i < |z| ==> z[p + i] == SQUOTE
    ensures out + Doubled(SQUOTE, z[p..])
         == if p + i < |z| then
              out + (z[p..p + i] + [SQUOTE, SQUOTE]) + Doubled(SQUOTE, z[p + i + 1..])
            else out + z[p..]
  {
    var run := z[p..p + i];
    if p + i < |z| {
      var tail := Doubled(SQUOTE, z[p + i + 1..]);
      RunThenQuote(run, z[p + i..]);
      assert z[p..] == run + z[p + i..];
      assert z[p + i..][1..] == z[p + i + 1..];
      assert out + (run + [SQUOTE, SQUOTE] + tail) == out + (run + [SQUOTE, SQUOTE]) + tail;
    } else {
      assert z[p..] == run;
      DoubledPlain(SQUOTE, run);
    }
  }

  lemma RunThenQuote(run: string, s: string)
    requires SQUOTE !in run && s != [] && s[0] == SQUOTE
    ensures Doubled(SQUOTE, run + s) == run + [SQUOTE, SQUOTE] + Doubled(SQUOTE, s[1..])
  {
    DoubledPlain(SQUOTE, run);
    DoubledConcat(SQUOTE, run, s);
  }

  // ----- appendText

  /** The text that `appendText` adds: quoted if a quote character is given. */
  function Appended(s: string, quote: char): string {
    if quote == NUL then s else Quoted(quote, s)
  }

  /** With a quote character, what is added ends where it was meant to and reads back. */
  lemma AppendedReadsBack(s: string, quote: char, rest: string)
    requires quote != NUL && (rest != [] ==> rest[0] != quote)
    ensures ReadQuoted(quote, Appended(s, quote) + rest) == Lexeme(s, rest)
    ensures Appended(s, NUL) == s
  {
    QuotedReadsBack(quote, s, rest);
  }

  /** `appendText`: the result is a buffer of exactly the size the text and its NUL take.
      zIn is null or holds the C string `prior`. */
  method AppendText(zIn: array?<char>, ghost prior: string, zAppend: string, quote: char)
    returns (z: array<char>)
    requires if zIn == null then prior == "" else HoldsAt(zIn[..], 0, prior)
    requires NulFree(prior)
    ensures fresh(z) && z[..] == prior + Appended(zAppend, quote) + [NUL]
  {
    var nAppend := |zAppend|;
    var nIn := 0;
    if zIn != null {
      nIn := Strlen(zIn, prior);
    }
    var len := nAppend + nIn + 1;
    if quote != NUL {
      len := len + 2;
      for i := 0 to nAppend
        invariant len == nAppend + nIn + 3 + Count(quote, zAppend[..i])
      {
        assert zAppend[..i + 1] == zAppend[..i] + [zAppend[i]];
        CountLast(quote, zAppend[..i], zAppend[i]);
        if zAppend[i] == quote {
          len := len + 1;
        }
      }
      assert zAppend[..nAppend] == zAppend;
      DoubledLength(quote, zAppend);
    }
    assert len == |prior| + |Appended(zAppend, quote)| + 1;
    z := Realloc(zIn, prior, nIn, len);
    Fill(z, nIn, zAppend, quote);
  }

  /** The part of `realloc` that matters here: a buffer of the new size with the old text. */
  method Realloc(zIn: array?<char>, ghost prior: string, nIn: nat, len: nat) returns (z: array<char>)
    requires if zIn == null then prior == "" else HoldsAt(zIn[..], 0, prior)
    requires nIn == |prior| < len
    ensures fresh(z) && z.Length == len && z[..nIn] == prior
  {
    z := new char[len];
    if zIn != null {
      assert zIn[..nIn] == prior;
      forall i | 0 <= i < nIn {
        z[i] := zIn[i];
      }
    }
  }

  /** Writes the text and its NUL behind the first nIn characters: the buffer is full. */
  method Fill(z: array<char>, nIn: nat, zAppend: string, quote: char)
    requires z.Length == nIn + |Appended(zAppend, quote)| + 1
    modifies z
    ensures z[..] == old(z[..nIn]) + Appended(zAppend, quote) + [NUL]
  {
    ghost var prior := z[..nIn];
    var zCsr := nIn;
    if quote != NUL {
      zCsr := FillQuoted(z, zCsr, zAppend, quote);
    } else {
      zCsr := CopyPlain(z, zCsr, zAppend);
    }
    assert z[..zCsr] == prior + Appended(zAppend, quote);
    zCsr := Store(z, zCsr, NUL);
    assert z[..] == z[..zCsr];
  }

  method FillQuoted(z: array<char>, at: nat, s: string, quote: char) returns (end: nat)
    requires at + |Quoted(quote, s)| <= z.Length
    modifies z
    ensures end == at + |Quoted(quote, s)| && z[..end] == old(z[..at]) + Quoted(quote, s)
  {
    ghost var prior := z[..at];
    end := Store(z, at, quote);
    end := CopyDoubled(z, end, s, quote);
    end := Store(z, end, quote);
    assert z[..end] == prior + [quote] + Doubled(quote, s) + [quote];
  }

  /** Stores one character and moves on. */
  method Store(z: array<char>, at: nat, c: char) returns (end: nat)
    requires at < z.Length
    modifies z
    ensures end == at + 1 && z[..end] == old(z[..at]) + [c]
  {
    z[at] := c;
    end := at + 1;
    assert z[..at] == old(z[..at]);
  }

  /** `memcpy` */
  method CopyPlain(z: array<char>, at: nat, s: string) returns (end: nat)
    requires at + |s| <= z.Length
    modifies z
    ensures end == at + |s| && z[..end] == old(z[..at]) + s
  {
    forall i | 0 <= i < |s| {
      z[at + i] := s[i];
    }
    end := at + |s|;
    assert z[..at] == old(z[..at]);
  }

  /** `strlen` of the C string at the start of a buffer. */
  method Strlen(z: array<char>, ghost s: string) returns (n: nat)
    requires HoldsAt(z[..], 0, s) && NulFree(s)
    ensures n == |s|
  {
    n := 0;
    assert forall i :: 0 <= i < |s| ==> z[..][0..|s|][i] == s[i] && s[i] in s;
    while z[n] != NUL
      invariant n <= |s|
      decreases |s| - n
    {
      n := n + 1;
    }
  }

  /** Copies s to position `at`, every quote twice, and returns the position behind it. */
  method CopyDoubled(z: array<char>, at: nat, s: string, quote: char) returns (end: nat)
    requires at + |Doubled(quote, s)| <= z.Length
    modifies z
    ensures end == at + |Doubled(quote, s)|
    ensures z[..end] == old(z[..at]) + Doubled(quote, s)
  {
    end := at;
    for i := 0 to |s|
      invariant end + |Doubled(quote, s[i..])| == at + |Doubled(quote, s)|
      invariant end <= z.Length
      invariant z[..end] + Doubled(quote, s[i..]) == old(z[..at]) + Doubled(quote, s)
    {
      DoubledStep(z[..end], s, i, quote);
      end := Store(z, end, s[i]);
      if s[i] == quote {
        end := Store(z, end, quote);
      }
    }
  }

  lemma DoubledStep(before: string, s: string, i: nat, q: char)
    requires i < |s|
    ensures before + Doubled(q, s[i..])
         == before + [s[i]] + (if s[i] == q then [q] + Doubled(q, s[i + 1..]) else Doubled(q, s[i + 1..]))
    ensures |Doubled(q, s[i..])| == (if s[i] == q then 2 else 1) + |Doubled(q, s[i + 1..])|
  {
    assert s[i..][1..] == s[i + 1..];
  }

  // ----- set_table_name

  predicate IsNameChar(c: char, isalnum: char -> bool) {
    isalnum(c) || c == '_'
  }

  predicate NeedsQuote(name: string, isalpha: char -> bool, isalnum: char -> bool) {
    name == [] || (!isalpha(name[0]) && name[0] != '_')
    || exists i :: 0 <= i < |name| && !IsNameChar(name[i], isalnum)
  }

  function TableName(name: string, isalpha: char -> bool, isalnum: char -> bool): string {
    if NeedsQuote(name, isalpha, isalnum) then Quoted(SQUOTE, name) else name
  }

  /** `set_table_name`, for a NUL-free name and a locale in which the apostrophe is no
      letter: the buffer is filled to its last byte. */
  method SetTableName(zName: string, isalpha: char -> bool, isalnum: char -> bool)
    returns (z: array<char>)
    requires NulFree(zName) && !isalpha(NUL) && !isalnum(SQUOTE)
    ensures fresh(z) && z[..] == TableName(zName, isalpha, isalnum) + [NUL]
  {
    var needQuote, n := ScanName(zName, isalpha, isalnum);
    DoubledLength(SQUOTE, zName);
    if needQuote {
      n := n + 2;
    } else {
      CountZero(SQUOTE, zName);
      DoubledPlain(SQUOTE, zName);
    }
    z := new char[n + 1];
    FillName(z, zName, needQuote);
  }

  /** Whether the name needs quotes, and its length with every apostrophe counted twice. */
  method ScanName(zName: string, isalpha: char -> bool, isalnum: char -> bool)
    returns (needQuote: bool, n: nat)
    requires NulFree(zName) && !isalpha(NUL) && !isalnum(SQUOTE)
    ensures needQuote == NeedsQuote(zName, isalpha, isalnum)
    ensures n == |zName| + Count(SQUOTE, zName) && (!needQuote ==> Count(SQUOTE, zName) == 0)
  {
    var first := if zName == [] then NUL else zName[0];
    needQuote := !isalpha(first) && first != '_';
    n := 0;
    for i := 0 to |zName|
      invariant n == i + Count(SQUOTE, zName[..i])
      invariant needQuote <==> (!isalpha(first) && first != '_')
                               || exists j :: 0 <= j < i && !IsNameChar(zName[j], isalnum)
      invariant !needQuote ==> Count(SQUOTE, zName[..i]) == 0
    {
      assert zName[..i + 1] == zName[..i] + [zName[i]];
      CountLast(SQUOTE, zName[..i], zName[i]);
      if !isalnum(zName[i]) && zName[i] != '_' {
        needQuote := true;
        if zName[i] == SQUOTE {
          n := n + 1;
        }
      }
      n := n + 1;
    }
    assert zName[..|zName|] == zName;
  }

  method FillName(z: array<char>, zName: string, needQuote: bool)
    requires !needQuote ==> Doubled(SQUOTE, zName) == zName
    requires z.Length == 1 + if needQuote then |Quoted(SQUOTE, zName)| else |zName|
    modifies z
    ensures z[..] == (if needQuote then Quoted(SQUOTE, zName) else zName) + [NUL]
  {
    var n := 0;
    ghost var edge := if needQuote then [SQUOTE] else [];
    if needQuote {
      n := Store(z, n, SQUOTE);
    }
    assert z[..n] == edge;
    n := CopyDoubled(z, n, zName, SQUOTE);
    if needQuote {
      n := Store(z, n, SQUOTE);
    }
    NameText(zName, needQuote, edge);
    assert z[..n] == edge + Doubled(SQUOTE, zName) + edge;
    n := Store(z, n, NUL);
    assert z[..] == z[..n];
  }

  lemma NameText(zName: string, needQuote: bool, edge: string)
    requires edge == (if needQuote then [SQUOTE] else []) && (!needQuote ==> Doubled(SQUOTE, zName) == zName)
    ensures edge + Doubled(SQUOTE, zName) + edge == if needQuote then Quoted(SQUOTE, zName) else zName
  {
  }

  // ----- reading a table's name

  /** The number of letters, digits and underscores that s starts with. */
  function NameLength(s: string, isalnum: char -> bool): (n: nat)
    ensures n <= |s|
  {
    if s == [] || !(isalnum(s[0]) || s[0] == '_') then 0 else 1 + NameLength(s[1..], isalnum)
  }

  /** An identifier at the start of s: a letter or an underscore, and what follows of letters,
      digits and underscores. */
  function ReadIdentifier(s: string, isalpha: char -> bool, isalnum: char -> bool): Lexeme {
    if s == [] || !(isalpha(s[0]) || s[0] == '_') then Unterminated
    else
      var n := 1 + NameLength(s[1..], isalnum);
      Lexeme(s[..n], s[n..])
  }

  /** The destination of an INSERT: quoted text or an identifier. */
  function ReadDestination(s: string, isalpha: char -> bool, isalnum: char -> bool): Lexeme {
    if s != [] && s[0] == SQUOTE then ReadQuoted(SQUOTE, s) else ReadIdentifier(s, isalpha, isalnum)
  }

  lemma {:induction false} NameLengthOf(name: string, rest: string, isalnum: char -> bool)
    requires forall i :: 0 <= i < |name| ==> isalnum(name[i]) || name[i] == '_'
    requires rest != [] ==> !isalnum(rest[0]) && rest[0] != '_'
    ensures NameLength(name + rest, isalnum) == |name|
  {
    if name == [] {
      assert name + rest == rest;
    } else {
      assert (name + rest)[1..] == name[1..] + rest;
      NameLengthOf(name[1..], rest, isalnum);
    }
  }

  lemma {:induction false} NameLengthWhole(s: string, isalnum: char -> bool)
    ensures NameLength(s, isalnum) == |s| <==> forall i :: 0 <= i < |s| ==> isalnum(s[i]) || s[i] == '_'
  {
    if s != [] {
      NameLengthWhole(s[1..], isalnum);
      assert forall i :: 0 < i < |s| ==> s[i] == s[1..][i - 1];
      assert forall i :: 0 <= i < |s[1..]| ==> s[1..][i] == s[i + 1];
    }
  }

  /** A name is left as it is exactly if it reads as an identifier from end to end. */
  lemma BareNameIff(name: string, isalpha: char -> bool, isalnum: char -> bool)
    requires forall c :: isalpha(c) ==> isalnum(c)
    ensures TableName(name, isalpha, isalnum) == name <==> ReadIdentifier(name, isalpha, isalnum) == Lexeme(name, "")
    ensures !NeedsQuote(name, isalpha, isalnum) <==> ReadIdentifier(name, isalpha, isalnum) == Lexeme(name, "")
  {
    DoubledLength(SQUOTE, name);
    IdentifierIff(name, isalpha, isalnum);
    BareIff(name, isalpha, isalnum);
  }

  lemma IdentifierIff(name: string, isalpha: char -> bool, isalnum: char -> bool)
    ensures ReadIdentifier(name, isalpha, isalnum) == Lexeme(name, "")
       <==> name != [] && (isalpha(name[0]) || name[0] == '_')
            && forall i :: 0 <= i < |name[1..]| ==> isalnum(name[1..][i]) || name[1..][i] == '_'
  {
    if name != [] {
      NameLengthWhole(name[1..], isalnum);
      var n := 1 + NameLength(name[1..], isalnum);
      assert n == |name| ==> name[..n] == name;
    }
  }

  lemma BareIff(name: string, isalpha: char -> bool, isalnum: char -> bool)
    requires forall c :: isalpha(c) ==> isalnum(c)
    ensures !NeedsQuote(name, isalpha, isalnum)
       <==> name != [] && (isalpha(name[0]) || name[0] == '_')
            && forall i :: 0 <= i < |name[1..]| ==> isalnum(name[1..][i]) || name[1..][i] == '_'
  {
    if name != [] {
      assert forall i :: 0 < i < |name| ==> name[i] == name[1..][i - 1];
      assert forall i :: 0 <= i < |name[1..]| ==> name[1..][i] == name[i + 1];
      assert (forall i :: 0 < i < |name| ==> IsNameChar(name[i], isalnum))
        <==> forall i :: 0 <= i < |name[1..]| ==> isalnum(name[1..][i]) || name[1..][i] == '_';
    }
  }

  /** Printed as the destination of an INSERT, the name ends where it was meant to end and reads
      back as it was. */
  lemma TableNameReadsBack(name: string, rest: string, isalpha: char -> bool, isalnum: char -> bool)
    requires !isalpha(SQUOTE) && forall c :: isalpha(c) ==> isalnum(c)
    requires rest != [] ==> rest[0] != SQUOTE && rest[0] != '_' && !isalnum(rest[0])
    ensures ReadDestination(TableName(name, isalpha, isalnum) + rest, isalpha, isalnum) == Lexeme(name, rest)
  {
    var s := TableName(name, isalpha, isalnum) + rest;
    if NeedsQuote(name, isalpha, isalnum) {
      QuotedReadsBack(SQUOTE, name, rest);
    } else {
      BareIff(name, isalpha, isalnum);
      NameLengthOf(name[1..], rest, isalnum);
      assert s[0] == name[0] && s[1..] == name[1..] + rest;
      assert s[..|name|] == name && s[|name|..] == rest;
    }
  }

  /** So it does in the line that insert mode prints. */
  lemma InsertNamesTheTable(name: string, isalpha: char -> bool, isalnum: char -> bool)
    requires !isalpha(SQUOTE) && !isalnum(' ') && forall c :: isalpha(c) ==> isalnum(c)
    ensures ReadDestination(TableName(name, isalpha, isalnum) + " VALUES(", isalpha, isalnum)
         == Lexeme(name, " VALUES(")
  {
    TableNameReadsBack(name, " VALUES(", isalpha, isalnum);
  }

  // ----- dump_callback

  /** The start of the query that `dump_callback` builds for a table. */
  function DumpSelect(table: string): string {
    "SELECT 'INSERT INTO ' || " + Quoted(SQUOTE, Quoted(DQUOTE, table)) + " || ' VALUES(' || "
  }

  method BuildDumpSelect(table: string) returns (z: array<char>)
    requires NulFree(table)
    ensures z[..] == DumpSelect(table) + [NUL]
  {
    var head := "SELECT 'INSERT INTO ' || ";
    var zSelect := AppendText(null, "", head, NUL);
    HoldsWhole(zSelect[..], head);
    var tmp := QuotedName(table);
    QuotedNulFree(SQUOTE, tmp);
    zSelect := AppendText(zSelect, head, tmp, SQUOTE);
    HoldsWhole(zSelect[..], head + Quoted(SQUOTE, tmp));
    z := AppendText(zSelect, head + Quoted(SQUOTE, tmp), " || ' VALUES(' || ", NUL);
  }

  /** The table's name as an identifier, built in a buffer of its own. */
  method QuotedName(table: string) returns (tmp: string)
    requires NulFree(table)
    ensures tmp == Quoted(DQUOTE, table) && NulFree(tmp)
  {
    QuotedNulFree(DQUOTE, table);
    var zTmp := AppendText(null, "", table, DQUOTE);
    tmp := zTmp[..zTmp.Length - 1];
    assert tmp == Quoted(DQUOTE, table);
  }

  lemma HoldsWhole(b: seq<char>, s: string)
    requires b == s + [NUL] || b == "" + s + [NUL]
    ensures HoldsAt(b, 0, s)
  {
    assert "" + s == s;
  }

  lemma {:induction false} DoubledNulFree(q: char, s: string)
    requires NulFree(s) && q != NUL
    ensures NulFree(Doubled(q, s))
  {
    if s != [] {
      DoubledNulFree(q, s[1..]);
    }
  }

  lemma QuotedNulFree(q: char, s: string)
    requires NulFree(s) && q != NUL
    ensures NulFree(Quoted(q, s))
  {
    DoubledNulFree(q, s);
  }

  /** The string literal of the query evaluates to a quoted identifier, and that
      identifier is the table's name: two readings undo the two quotings. */
  lemma DumpNamesTheTable(table: string)
    ensures var at := |"SELECT 'INSERT INTO ' || "|;
      var literal := ReadQuoted(SQUOTE, DumpSelect(table)[at..]);
      literal.Lexeme? && literal.rest == " || ' VALUES(' || "
      && ReadQuoted(DQUOTE, literal.content) == Lexeme(table, "")
  {
    var head, rest := "SELECT 'INSERT INTO ' || ", " || ' VALUES(' || ";
    QuotedReadsBack(SQUOTE, Quoted(DQUOTE, table), rest);
    QuotedReadsBack(DQUOTE, table, "");
    assert Quoted(DQUOTE, table) + "" == Quoted(DQUOTE, table);
    assert DumpSelect(table)[|head|..] == Quoted(SQUOTE, Quoted(DQUOTE, table)) + rest;
  }
}
