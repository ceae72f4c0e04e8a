/** List-mode output, `local_getline`, and the line splitter of `.import`. */
module ShellImport {
  import opened CText

  const NEWLINE := '\n'
  const RETURN := '\r'

  predicate EndsLine(c: char) {
    c == NEWLINE || c == RETURN
  }

  ghost predicate OneLine(s: string) {
    forall i :: 0 <= i < |s| ==> !EndsLine(s[i])
  }

  // ----- fields

  /** s up to its first CR or LF. */
  function UpToEnd(s: string): string {
    if s == [] || EndsLine(s[0]) then [] else [s[0]] + UpToEnd(s[1..])
  }

  function Join(fields: seq<string>, sep: string): string {
    if fields == [] then [] else if |fields| == 1 then fields[0] else fields[0] + sep + Join(fields[1..], sep)
  }

  /** c put in front of the first field. */
  function Lengthen(c: char, fields: seq<string>): (r: seq<string>)
    requires fields != []
    ensures |r| == |fields|
  {
    [[c] + fields[0]] + fields[1..]
  }

  /** The fields of a line: cut at every separator met from the left, up to the end of the line. */
  function Fields(s: string, sep: string): (fs: seq<string>)
    requires sep != []
    ensures fs != []
    decreases |s|
  {
    if s == [] || EndsLine(s[0]) then [[]]
    else if sep <= s then [[]] + Fields(s[|sep|..], sep)
    else Lengthen(s[0], Fields(s[1..], sep))
  }

  lemma JoinLengthen(c: char, fields: seq<string>, sep: string)
    requires fields != []
    ensures Join(Lengthen(c, fields), sep) == [c] + Join(fields, sep)
  {
    assert Lengthen(c, fields)[1..] == fields[1..];
    if |fields| > 1 {
      assert [c] + fields[0] + sep + Join(fields[1..], sep) == [c] + (fields[0] + sep + Join(fields[1..], sep));
    }
  }

  lemma JoinEmptyFirst(fields: seq<string>, sep: string)
    requires fields != []
    ensures Join([[]] + fields, sep) == sep + Join(fields, sep)
  {
    assert ([[]] + fields)[1..] == fields;
    assert [] + sep == sep;
  }

  lemma {:induction false} UpToEndAfter(sep: string, s: string)
    requires OneLine(sep)
    ensures UpToEnd(sep + s) == sep + UpToEnd(s)
  {
    if sep == [] {
      assert sep + s == s;
    } else {
      assert (sep + s)[1..] == sep[1..] + s;
      UpToEndAfter(sep[1..], s);
    }
  }

  /** Nothing is lost: the fields joined by the separator are the line. */
  lemma {:induction false} FieldsJoin(s: string, sep: string)
    requires sep != [] && OneLine(sep)
    ensures Join(Fields(s, sep), sep) == UpToEnd(s)
    decreases |s|
  {
    if s == [] || EndsLine(s[0]) {
    } else if sep <= s {
      FieldsJoin(s[|sep|..], sep);
      JoinEmptyFirst(Fields(s[|sep|..], sep), sep);
      UpToEndAfter(sep, s[|sep|..]);
      assert s == sep + s[|sep|..];
    } else {
      FieldsJoin(s[1..], sep);
      JoinLengthen(s[0], Fields(s[1..], sep), sep);
    }
  }

  ghost predicate OccursAt(f: string, sep: string, j: nat) {
    j + |sep| <= |f| && f[j..j + |sep|] == sep
  }

  /** The first field is where s begins. */
  lemma {:induction false} FirstFieldIsPrefix(s: string, sep: string)
    requires sep != []
    ensures Fields(s, sep)[0] <= s
    decreases |s|
  {
    if s != [] && !EndsLine(s[0]) && !(sep <= s) {
      FirstFieldIsPrefix(s[1..], sep);
      var f := Fields(s[1..], sep)[0];
      assert s[..|f| + 1] == [s[0]] + s[1..][..|f|];
    }
  }

  /** No field contains the separator. */
  lemma {:induction false} FieldsFree(s: string, sep: string, k: nat, j: nat)
    requires sep != [] && k < |Fields(s, sep)|
    ensures !OccursAt(Fields(s, sep)[k], sep, j)
    decreases |s|
  {
    if s == [] || EndsLine(s[0]) {
    } else if sep <= s {
      if k > 0 {
        FieldsFree(s[|sep|..], sep, k - 1, j);
      }
    } else {
      var rest := Fields(s[1..], sep);
      if k > 0 {
        FieldsFree(s[1..], sep, k, j);
        assert Fields(s, sep)[k] == rest[k];
      } else if j > 0 {
        FieldsFree(s[1..], sep, 0, j - 1);
        ShiftOccurrence(s[0], rest[0], sep, j);
      } else {
        FirstFieldIsPrefix(s, sep);
        PrefixOccurrence(Fields(s, sep)[0], s, sep);
      }
    }
  }

  lemma ShiftOccurrence(c: char, f: string, sep: string, j: nat)
    requires j > 0
    ensures OccursAt([c] + f, sep, j) <==> OccursAt(f, sep, j - 1)
  {
    if j + |sep| <= |f| + 1 {
      assert ([c] + f)[j..j + |sep|] == f[j - 1..j - 1 + |sep|];
    }
  }

  lemma PrefixOccurrence(f: string, s: string, sep: string)
    requires f <= s
    ensures OccursAt(f, sep, 0) ==> sep <= s
  {
    if |sep| <= |f| {
      assert s[..|sep|] == f[..|sep|];
    }
  }

  /** Neither a separator nor the end of the line before position n. */
  ghost predicate NoCutBefore(s: string, sep: string, n: nat) {
    n <= |s| && forall j :: 0 <= j < n ==> !(sep <= s[j..]) && !EndsLine(s[j])
  }

  /** At a cut there is a separator, and what is behind it is split in the same way; behind the
      last field is the end of the line. */
  ghost predicate CutIs(s: string, sep: string, more: seq<string>)
    requires sep != []
  {
    if more == [] then s == [] || EndsLine(s[0])
    else s != [] && !EndsLine(s[0]) && sep <= s && more == Fields(s[|sep|..], sep)
  }

  /** The first cut is at the first separator met. */
  lemma {:induction false} FieldsCutAtFirst(s: string, sep: string)
    requires sep != []
    ensures var fields := Fields(s, sep);
      var n := |fields[0]|;
      NoCutBefore(s, sep, n) && fields[0] == s[..n] && CutIs(s[n..], sep, fields[1..])
    decreases |s|
  {
    if s == [] || EndsLine(s[0]) || sep <= s {
      assert s[0..] == s;
    } else {
      var fields := Fields(s[1..], sep);
      FieldsCutAtFirst(s[1..], sep);
      CutLater(s, sep, s[1..], |fields[0]|);
      assert s[1..][|fields[0]|..] == s[|fields[0]| + 1..];
    }
  }

  lemma CutLater(s: string, sep: string, t: string, n: nat)
    requires s != [] && !EndsLine(s[0]) && !(sep <= s) && t == s[1..] && NoCutBefore(t, sep, n)
    ensures NoCutBefore(s, sep, n + 1) && s[..n + 1] == [s[0]] + t[..n]
  {
    forall j | 0 <= j < n + 1 ensures !(sep <= s[j..]) && !EndsLine(s[j]) {
      if j == 0 {
        assert s[0..] == s;
      } else {
        assert s[j..] == t[j - 1..] && s[j] == t[j - 1];
      }
    }
  }

  // ----- list-mode rows

  /** Field characters that list mode with separator c can carry. */
  ghost predicate Carries(f: string, c: char) {
    forall i :: 0 <= i < |f| ==> f[i] != c && !EndsLine(f[i]) && f[i] != NUL
  }

  ghost predicate CarriesAll(row: seq<string>, c: char) {
    forall k :: 0 <= k < |row| ==> Carries(row[k], c)
  }

  lemma {:induction false} FieldsOfOne(f: string, c: char, rest: string)
    requires Carries(f, c) && !EndsLine(c)
    ensures Fields(f, [c]) == [f]
    ensures Fields(f + [c] + rest, [c]) == [f] + Fields(rest, [c])
  {
    var s := f + [c] + rest;
    if f == [] {
      assert s == [c] + rest && s[1..] == rest;
    } else {
      FieldsOfOne(f[1..], c, rest);
      assert s[1..] == f[1..] + [c] + rest && s[0] == f[0];
      assert f == [f[0]] + f[1..];
      assert !([c] <= s) && !([c] <= f);
      assert Lengthen(f[0], [f[1..]] + Fields(rest, [c])) == [f] + Fields(rest, [c]);
    }
  }

  /** A row joined with a one-character separator is split into its fields again. */
  lemma {:induction false} RowSplits(row: seq<string>, c: char)
    requires row != [] && CarriesAll(row, c) && !EndsLine(c)
    ensures Fields(Join(row, [c]), [c]) == row
    decreases |row|
  {
    assert Carries(row[0], c);
    if |row| == 1 {
      FieldsOfOne(row[0], c, []);
      assert row == [row[0]];
    } else {
      var f, rest := row[0], row[1..];
      RowSplits(rest, c);
      FieldsOfOne(f, c, Join(rest, [c]));
      assert row == [f] + rest;
    }
  }

  /** A row in the list mode of `shell_callback`. */
  function ListRow(row: seq<string>, sep: string): string {
    Join(row, sep) + [NEWLINE]
  }

  method OutputListRow(row: seq<string>, sep: string) returns (out: string)
    ensures row != [] ==> out == ListRow(row, sep)
    ensures row == [] ==> out == []
  {
    out := "";
    for i := 0 to |row|
      invariant i == 0 ==> out == []
      invariant row != [] ==>
        out + (if i < |row| then ListRow(row[i..], sep) else []) == ListRow(row, sep)
    {
      ListUnfolds(row, i, sep, out, out + row[i] + if i < |row| - 1 then sep else [NEWLINE]);
      out := out + row[i];
      if i < |row| - 1 {
        out := out + sep;
      } else {
        out := out + [NEWLINE];
      }
    }
  }

  lemma ListUnfolds(row: seq<string>, i: nat, sep: string, out: string, out': string)
    requires i < |row| && out' == out + row[i] + if i < |row| - 1 then sep else [NEWLINE]
    ensures out + ListRow(row[i..], sep) == out' + if i < |row| - 1 then ListRow(row[i + 1..], sep) else []
  {
    assert row[i..][1..] == row[i + 1..];
    if i < |row| - 1 {
      assert out + (row[i] + sep + Join(row[i + 1..], sep) + [NEWLINE])
          == out + row[i] + sep + (Join(row[i + 1..], sep) + [NEWLINE]);
    }
  }

  // ----- lines

  function LineLength(s: string): (n: nat)
    ensures n <= |s|
  {
    if s == [] || s[0] == NEWLINE then 0 else 1 + LineLength(s[1..])
  }

  /** The line at the start of s without its end: LF, or CR and LF. */
  function Line(s: string): (l: string)
    ensures |l| <= |s|
  {
    var n := LineLength(s);
    if n < |s| && n > 0 && s[n - 1] == RETURN then s[..n - 1] else s[..n]
  }

  function AfterLine(s: string): (r: string)
    requires s != []
    ensures |r| < |s|
  {
    var n := LineLength(s);
    if n < |s| then s[n + 1..] else []
  }

  lemma {:induction false} LineLengthOf(l: string, rest: string)
    requires forall i :: 0 <= i < |l| ==> l[i] != NEWLINE
    requires rest != [] ==> rest[0] == NEWLINE
    ensures LineLength(l + rest) == |l|
  {
    if l == [] {
      assert l + rest == rest;
    } else {
      assert (l + rest)[1..] == l[1..] + rest;
      LineLengthOf(l[1..], rest);
    }
  }

  /** A line of any characters but LF, at the end of a file and before it: a CR is taken off
      only together with the LF behind it. */
  lemma LineForms(l: string, more: string)
    requires forall i :: 0 <= i < |l| ==> l[i] != NEWLINE
    ensures Line(l) == l && (l != [] ==> AfterLine(l) == [])
    ensures var s := l + ([NEWLINE] + more);
      AfterLine(s) == more && Line(s) == if l != [] && l[|l| - 1] == RETURN then l[..|l| - 1] else l
  {
    var s := l + ([NEWLINE] + more);
    LineLengthOf(l, []);
    assert l + [] == l;
    LineLengthOf(l, [NEWLINE] + more);
    assert s[..|l|] == l && s[|l| + 1..] == more;
    if l != [] {
      assert s[|l| - 1] == l[|l| - 1] && s[..|l| - 1] == l[..|l| - 1];
    }
  }

  lemma LineReadsBack(l: string, more: string)
    requires OneLine(l)
    ensures Line(l + [NEWLINE] + more) == l && AfterLine(l + [NEWLINE] + more) == more
  {
    assert l + [NEWLINE] + more == l + ([NEWLINE] + more);
    LineForms(l, more);
  }

  /** The rows that `.import` reads from a file: the fields of its lines. */
  function ImportedRows(s: string, sep: string): seq<seq<string>>
    requires sep != []
    decreases |s|
  {
    if s == [] then [] else [Fields(Line(s), sep)] + ImportedRows(AfterLine(s), sep)
  }

  function ListTable(rows: seq<seq<string>>, sep: string): string {
    if rows == [] then [] else ListRow(rows[0], sep) + ListTable(rows[1..], sep)
  }

  lemma {:induction false} JoinOneLine(row: seq<string>, c: char)
    requires CarriesAll(row, c) && !EndsLine(c)
    ensures OneLine(Join(row, [c]))
    decreases |row|
  {
    if row != [] {
      assert Carries(row[0], c);
      JoinOneLine(row[1..], c);
    }
  }

  /** A table printed in list mode is imported unchanged. */
  lemma {:induction false} TableReadsBack(rows: seq<seq<string>>, c: char)
    requires !EndsLine(c) && forall r :: 0 <= r < |rows| ==> rows[r] != [] && CarriesAll(rows[r], c)
    ensures ImportedRows(ListTable(rows, [c]), [c]) == rows
    decreases |rows|
  {
    if rows != [] {
      var row, more := rows[0], ListTable(rows[1..], [c]);
      JoinOneLine(row, c);
      LineReadsBack(Join(row, [c]), more);
      RowSplits(row, c);
      TableReadsBack(rows[1..], c);
      assert rows == [row] + rows[1..];
    }
  }

  // ----- local_getline

  /** The file that lines are read from. */
  class Input {
    const data: string
    var pos: nat

    predicate Valid()
      reads this
    {
      pos <= |data|
    }

    function Rest(): string
      requires Valid()
      reads this
    {
      data[pos..]
    }

    constructor (data: string)
      ensures Valid() && this.data == data && Rest() == data
    {
      this.data, pos := data, 0;
    }

    /** `fgets`: a chunk of at least one character and less than `size`, nothing behind the
        first newline, and a NUL.  Whether it goes as far as it may is left open. */
    method Fgets(z: array<char>, at: nat, size: nat) returns (ok: bool, ghost chunk: string)
      requires Valid() && size >= 2 && at + size <= z.Length
      modifies `pos, z
      ensures Valid() && ok == (old(Rest()) != "")
      ensures chunk + Rest() == old(Rest()) && |chunk| < size && (ok ==> chunk != "")
      ensures forall i :: 0 <= i < |chunk| - 1 ==> chunk[i] != NEWLINE
      ensures z[..at] == old(z[..at])
      ensures ok ==> HoldsAt(z[..], at, chunk)
    {
      ok, chunk := pos < |data|, "";
      if !ok {
        return;
      }
      var n := 0;
      ghost var from := pos;
      while n < size - 1 && pos < |data| && (n == 0 || data[pos - 1] != NEWLINE)
        invariant n == |chunk| <= size - 1 && pos == from + n <= |data|
        invariant chunk == data[from..pos]
        invariant z[..at] == old(z[..at])
        invariant forall i :: 0 <= i < |chunk| ==> z[at + i] == chunk[i]
        invariant forall i :: 0 <= i < |chunk| - 1 ==> chunk[i] != NEWLINE
      {
        z[at + n] := data[pos];
        chunk := chunk + [data[pos]];
        n, pos := n + 1, pos + 1;
      }
      z[at + n] := NUL;
      assert data[from..] == chunk + data[pos..];
    }

    /** One turn of the loop of `local_getline`: a chunk behind the n characters read so far. */
    method ReadMore(z: array<char>, n: nat, ghost got: string) returns (end: nat, ghost got': string)
      requires Valid() && NulFree(Rest()) && n + 2 <= z.Length && z[..n] == got
      requires forall i :: 0 <= i < |got| ==> got[i] != NEWLINE
      modifies `pos, z
      ensures Valid() && end == |got'| < z.Length && z[..end] == got' && NulFree(Rest())
      ensures got' + Rest() == got + old(Rest())
      ensures (end == n <==> old(Rest()) == "") && n <= end && (end == n ==> Rest() == "" && got' == got)
      ensures |Rest()| <= |old(Rest())| - (end - n)
      ensures forall i :: 0 <= i < |got'| - 1 ==> got'[i] != NEWLINE
    {
      var ok, chunk := Fgets(z, n, z.Length - n);
      PartsNulFree(old(Rest()), chunk, Rest());
      end, got' := n, got;
      if ok {
        end := ScanToNul(z, n, got, chunk);
        got' := got + chunk;
        assert got' + Rest() == got + (chunk + Rest());
      }
    }

    /** `local_getline`: the next line in a buffer of its own size, or null at the end. */
    method LocalGetline() returns (line: array?<char>)
      requires Valid() && NulFree(Rest())
      modifies `pos
      ensures Valid() && (line == null <==> old(Rest()) == "")
      ensures line == null ==> Rest() == ""
      ensures line != null ==> fresh(line) && line[..] == Line(old(Rest())) + [NUL]
      ensures line != null ==> Rest() == AfterLine(old(Rest()))
    {
      var zLine, n, eof := ReadLine();
      if eof {
        return null;
      }
      line := Finish(zLine, n);
    }

    /** The loop of `local_getline`: the first n characters of zLine are the line. */
    method ReadLine() returns (zLine: array<char>, n: nat, eof: bool)
      requires Valid() && NulFree(Rest())
      modifies `pos
      ensures Valid() && fresh(zLine) && n < zLine.Length && eof == (old(Rest()) == "")
      ensures zLine[..n] == Line(old(Rest()))
      ensures Rest() == if eof then "" else AfterLine(old(Rest()))
    {
      ghost var all := Rest();
      var nLine := 100;
      zLine, n, eof := new char[nLine], 0, false;
      ghost var got := "";
      while true
        invariant Valid() && NulFree(Rest()) && fresh(zLine) && zLine.Length == nLine >= 100
        invariant n == |got| < nLine && zLine[..n] == got && got + Rest() == all
        invariant forall i :: 0 <= i < |got| ==> got[i] != NEWLINE
        decreases |Rest()|
      {
        zLine, nLine := Grown(zLine, n, nLine);
        var before := n;
        n, got := ReadMore(zLine, n, got);
        if n == before {
          LineAtEof(all, got, Rest());
          eof := n == 0;
          return;
        }
        if zLine[n - 1] == NEWLINE {
          n := TrimEnd(zLine, n, all, got, Rest());
          return;
        }
      }
    }

    /** Makes room for a chunk, if there is little left. */
    method Grown(z: array<char>, n: nat, nLine: nat) returns (z': array<char>, nLine': nat)
      requires z.Length == nLine >= 100 && n < nLine
      ensures z'.Length == nLine' >= 100 && n + 100 <= nLine' && z'[..n] == z[..n] && (z' == z || fresh(z'))
    {
      z', nLine' := z, nLine;
      if n + 100 > nLine {
        nLine' := nLine * 2 + 100;
        z' := Resized(z, n, nLine');
      }
    }

    /** Ends the line with a NUL and cuts its buffer to size. */
    method Finish(z: array<char>, n: nat) returns (line: array<char>)
      requires n < z.Length
      modifies z
      ensures fresh(line) && line[..] == old(z[..n]) + [NUL]
    {
      z[n] := NUL;
      assert z[..n] == old(z[..n]);
      line := Resized(z, n + 1, n + 1);
      assert line[..] == line[..n + 1];
    }

    /** Takes the line end off: LF, or CR and LF. */
    method TrimEnd(z: array<char>, n: nat, ghost all: string, ghost got: string, ghost rest: string)
      returns (end: nat)
      requires 0 < n == |got| <= z.Length && z[..n] == got && got[n - 1] == NEWLINE && all == got + rest
      requires forall i :: 0 <= i < n - 1 ==> got[i] != NEWLINE
      ensures end < z.Length && z[..end] == Line(all) && AfterLine(all) == rest
    {
      LineFound(all, got, rest);
      assert forall i :: 0 <= i < n ==> z[i] == z[..n][i];
      end := n - 1;
      if end > 0 && z[end - 1] == RETURN {
        end := end - 1;
      }
    }

    /** `realloc` to `len` characters, of which the first n matter. */
    method Resized(z: array<char>, n: nat, len: nat) returns (z': array<char>)
      requires n <= z.Length && n <= len
      ensures fresh(z') && z'.Length == len && z'[..n] == z[..n]
    {
      z' := new char[len];
      forall i | 0 <= i < n {
        z'[i] := z[i];
      }
    }

    /** Finds the NUL behind a chunk that has just been read. */
    method ScanToNul(z: array<char>, n: nat, ghost got: string, ghost chunk: string) returns (end: nat)
      requires n <= z.Length && z[..n] == got && HoldsAt(z[..], n, chunk) && NulFree(chunk)
      ensures end == n + |chunk| < z.Length && z[..end] == got + chunk
    {
      end := n;
      ghost var tail := chunk;
      StartsHere(z[..], end, tail);
      while z[end] != NUL
        invariant n <= end && end + |tail| == n + |chunk| && NulFree(tail) && HoldsAt(z[..], end, tail)
        invariant z[end] == NUL <==> tail == []
        decreases |tail|
      {
        HoldsTail(z[..], end, tail, 1);
        assert forall c :: c in tail[1..] ==> c in tail;
        end, tail := end + 1, tail[1..];
        StartsHere(z[..], end, tail);
      }
      HoldsBehind(z[..], n, got, chunk);
    }
  }

  lemma HoldsBehind(b: seq<char>, n: nat, got: string, chunk: string)
    requires n <= |b| && b[..n] == got && HoldsAt(b, n, chunk)
    ensures b[..n + |chunk|] == got + chunk
  {
    forall i | 0 <= i < n + |chunk| ensures b[i] == (got + chunk)[i] {
      if i < n {
        assert b[i] == b[..n][i];
      } else {
        assert b[n + (i - n)] == chunk[i - n];
      }
    }
  }

  lemma PartsNulFree(all: string, chunk: string, rest: string)
    requires NulFree(all) && all == chunk + rest
    ensures NulFree(chunk) && NulFree(rest)
  {
    assert forall c :: c in chunk || c in rest ==> c in all;
  }

  lemma {:induction false} NoNewline(s: string)
    requires forall i :: 0 <= i < |s| ==> s[i] != NEWLINE
    ensures LineLength(s) == |s|
  {
    if s != [] {
      NoNewline(s[1..]);
    }
  }

  lemma LineAtEof(all: string, got: string, rest: string)
    requires all == got + rest && rest == ""
    requires forall i :: 0 <= i < |got| ==> got[i] != NEWLINE
    ensures Line(all) == got && (all != "" ==> AfterLine(all) == rest)
  {
    assert all == got;
    NoNewline(all);
  }

  /** The buffer got ends with the first newline of all. */
  lemma LineFound(all: string, got: string, rest: string)
    requires all == got + rest && got != [] && got[|got| - 1] == NEWLINE
    requires forall i :: 0 <= i < |got| - 1 ==> got[i] != NEWLINE
    ensures var n := |got| - 1;
      Line(all) == (if n > 0 && got[n - 1] == RETURN then got[..n - 1] else got[..n])
      && AfterLine(all) == rest
  {
    var n := |got| - 1;
    assert all == got[..n] + ([NEWLINE] + rest);
    LineLengthOf(got[..n], [NEWLINE] + rest);
    assert all[n + 1..] == rest && all[..n] == got[..n];
  }

  // ----- the splitter of .import

  /** Whether the separator stands at position p of a line that holds s from there. */
  method Matches(z: array<char>, p: nat, ghost s: string, sep: string) returns (yes: bool)
    requires HoldsAt(z[..], p, s) && NulFree(sep)
    ensures yes <==> sep <= s
  {
    var k := 0;
    while k < |sep|
      invariant k <= |sep| && k <= |s| && sep[..k] == s[..k]
    {
      assert k < |s| ==> z[p + k] == s[k];
      assert sep[k] in sep;
      if z[p + k] != sep[k] {
        return false;
      }
      k := k + 1;
    }
    yes := true;
  }

  /** The first field with `cur` in front. */
  function Extend(cur: string, fs: seq<string>): (r: seq<string>)
    requires fs != []
    ensures |r| == |fs|
  {
    [cur + fs[0]] + fs[1..]
  }

  lemma ExtendLengthen(cur: string, c: char, fs: seq<string>)
    requires fs != []
    ensures Extend(cur, Lengthen(c, fs)) == Extend(cur + [c], fs)
  {
    assert Lengthen(c, fs)[1..] == fs[1..];
    assert cur + ([c] + fs[0]) == cur + [c] + fs[0];
  }

  lemma ExtendCut(done: seq<string>, cur: string, fs: seq<string>)
    requires fs != []
    ensures done + Extend(cur, [[]] + fs) == done + [cur] + Extend([], fs)
  {
    assert ([[]] + fs)[1..] == fs && cur + [] == cur && [] + fs[0] == fs[0];
    assert Extend([], fs) == fs;
  }

  /** The finished fields stand where azCol says, below position p. */
  ghost predicate FieldsAt(b: seq<char>, az: seq<nat>, done: seq<string>, p: nat) {
    |done| <= |az| && forall k :: 0 <= k < |done| ==> HoldsAt(b, az[k], done[k]) && az[k] + |done[k]| < p
  }

  lemma FieldsStay(b: seq<char>, az: seq<nat>, done: seq<string>, p: nat, az': seq<nat>)
    requires FieldsAt(b, az, done, p) && p < |b| && |az'| == |az|
    requires forall k :: 0 <= k < |done| ==> az'[k] == az[k]
    ensures FieldsAt(b[p := NUL], az', done, p)
  {
  }

  /** Within the splitter: `done` fields are finished, `cur` is the part of the next one
      before position p, and s is left of the line. */
  ghost predicate Splitting(b: seq<char>, az: seq<nat>, p: nat, s: string, done: seq<string>, cur: string,
                            sep: string, all: seq<string>)
    requires sep != []
  {
    |done| < |az| && az[|done|] + |cur| == p && HoldsAt(b, p, s)
    && (forall k :: 0 <= k < |cur| ==> b[az[|done|] + k] == cur[k])
    && FieldsAt(b, az, done, p) && done + Extend(cur, Fields(s, sep)) == all
  }

  lemma NextChar(b: seq<char>, az: seq<nat>, p: nat, s: string, done: seq<string>, cur: string,
                 sep: string, all: seq<string>)
    requires sep != [] && Splitting(b, az, p, s, done, cur, sep, all)
    requires s != [] && !EndsLine(s[0]) && !(sep <= s)
    ensures Splitting(b, az, p + 1, s[1..], done, cur + [s[0]], sep, all)
  {
    ExtendLengthen(cur, s[0], Fields(s[1..], sep));
    HoldsTail(b, p, s, 1);
    assert b[p + 0] == s[0];
  }

  lemma NextField(b: seq<char>, az: seq<nat>, p: nat, s: string, done: seq<string>, cur: string,
                  sep: string, all: seq<string>)
    requires sep != [] && Splitting(b, az, p, s, done, cur, sep, all) && |done| + 1 < |az|
    requires s != [] && !EndsLine(s[0]) && sep <= s
    ensures Splitting(b[p := NUL], az[|done| + 1 := p + |sep|], p + |sep|, s[|sep|..], done + [cur], [], sep, all)
  {
    var p', az', done' := p + |sep|, az[|done| + 1 := p + |sep|], done + [cur];
    ExtendCut(done, cur, Fields(s[|sep|..], sep));
    HoldsTail(b, p, s, |sep|);
    StoreBelow(b, p, NUL, p', s[|sep|..]);
    FieldsStay(b, az, done, p, az');
    assert HoldsAt(b[p := NUL], az[|done|], cur);
    forall k | 0 <= k < |done'|
      ensures HoldsAt(b[p := NUL], az'[k], done'[k]) && az'[k] + |done'[k]| < p'
    {
      if k < |done| {
        assert done'[k] == done[k];
      }
    }
  }

  /** A separator beyond the last column: there are too many fields. */
  lemma TooMany(b: seq<char>, az: seq<nat>, p: nat, s: string, done: seq<string>, cur: string,
                sep: string, all: seq<string>)
    requires sep != [] && Splitting(b, az, p, s, done, cur, sep, all)
    requires s != [] && !EndsLine(s[0]) && sep <= s
    ensures |all| > |done| + 1
  {
  }

  lemma LineDone(b: seq<char>, az: seq<nat>, p: nat, s: string, done: seq<string>, cur: string,
                 sep: string, all: seq<string>)
    requires sep != [] && Splitting(b, az, p, s, done, cur, sep, all)
    requires s == [] || EndsLine(s[0])
    ensures all == done + [cur]
    ensures FieldsAt(b[p := NUL], az, all, p + 1)
  {
    assert Fields(s, sep) == [[]] && cur + [] == cur;
    assert Extend(cur, [[]]) == [cur];
    FieldsStay(b, az, done, p, az);
    forall k | 0 <= k < |all|
      ensures HoldsAt(b[p := NUL], az[k], all[k]) && az[k] + |all[k]| < p + 1
    {
      if k < |done| {
        assert all[k] == done[k];
      }
    }
  }

  /** The splitter after i separators: on the way to the columns, or past the last of them. */
  ghost predicate Progress(b: seq<char>, az: seq<nat>, p: nat, s: string, i: nat, done: seq<string>, cur: string,
                           sep: string, all: seq<string>)
    requires sep != []
  {
    HoldsAt(b, p, s) && NulFree(s)
    && if i < |az| then i == |done| && Splitting(b, az, p, s, done, cur, sep, all) else |all| > |az|
  }

  /** What the splitter does at a separator. */
  method Cut(zLine: array<char>, azCol: array<nat>, p: nat, i: nat, sep: string,
             ghost s: string, ghost done: seq<string>, ghost cur: string, ghost all: seq<string>)
    returns (p': nat, ghost done': seq<string>, ghost cur': string)
    requires sep != [] && Progress(zLine[..], azCol[..], p, s, i, done, cur, sep, all)
    requires s != [] && !EndsLine(s[0]) && sep <= s
    modifies zLine, azCol
    ensures p < p' <= p + |s|
    ensures Progress(zLine[..], azCol[..], p', RestOf(s, p' - p), i + 1, done', cur', sep, all)
  {
    ghost var b, az := zLine[..], azCol[..];
    p', done', cur' := p + 1, done, cur;
    if i + 1 < azCol.Length {
      NextField(b, az, p, s, done, cur, sep, all);
      done', cur' := done + [cur], [];
      azCol[i + 1] := p + |sep|;
      p' := p + |sep|;
    } else {
      if i + 1 == azCol.Length {
        TooMany(b, az, p, s, done, cur, sep, all);
      }
      HoldsTail(b, p, s, 1);
      StoreBelow(b, p, NUL, p + 1, s[1..]);
    }
    zLine[p] := NUL;
    assert zLine[..] == b[p := NUL];
    assert i + 1 < azCol.Length ==> azCol[..] == az[i + 1 := p'];
  }

  lemma KeepChar(b: seq<char>, az: seq<nat>, p: nat, s: string, i: nat, done: seq<string>, cur: string,
                 sep: string, all: seq<string>)
    requires sep != [] && Progress(b, az, p, s, i, done, cur, sep, all)
    requires s != [] && !EndsLine(s[0]) && !(sep <= s)
    ensures Progress(b, az, p + 1, RestOf(s, 1), i, done, cur + [s[0]], sep, all)
  {
    if i < |az| {
      NextChar(b, az, p, s, done, cur, sep, all);
    }
    HoldsTail(b, p, s, 1);
  }

  /** The column splitter of `.import`: a line is accepted exactly if it has as many fields as
      the table has columns, and azCol then tells where each field stands in the line's buffer. */
  method SplitLine(zLine: array<char>, azCol: array<nat>, sep: string, ghost line: string)
    returns (accepted: bool)
    requires HoldsAt(zLine[..], 0, line) && NulFree(line)
    requires sep != [] && NulFree(sep) && azCol.Length >= 1
    modifies zLine, azCol
    ensures accepted <==> |Fields(line, sep)| == azCol.Length
    ensures accepted ==> FieldsAt(zLine[..], azCol[..], Fields(line, sep), zLine.Length)
  {
    ghost var all := Fields(line, sep);
    azCol[0] := 0;
    var i, p := 0, 0;
    ghost var s, done, cur := line, [], [];
    FirstSplit(zLine[..], azCol[..], line, sep);
    StartsHere(zLine[..], p, s);
    while zLine[p] != NUL && !EndsLine(zLine[p])
      invariant 0 <= p && 0 <= i && Progress(zLine[..], azCol[..], p, s, i, done, cur, sep, all)
      invariant (zLine[p] == NUL <==> s == []) && (s != [] ==> zLine[p] == s[0])
      decreases |s|
    {
      p, i, s, done, cur := SplitTurn(zLine, azCol, p, i, sep, s, done, cur, all);
      StartsHere(zLine[..], p, s);
    }
    EndLine(zLine, azCol, p, i, sep, s, done, cur, all);
    accepted := i + 1 == azCol.Length;
  }

  /** One turn of the splitter's loop. */
  method SplitTurn(zLine: array<char>, azCol: array<nat>, p: nat, i: nat, sep: string,
                   ghost s: string, ghost done: seq<string>, ghost cur: string, ghost all: seq<string>)
    returns (p': nat, i': nat, ghost s': string, ghost done': seq<string>, ghost cur': string)
    requires sep != [] && NulFree(sep) && Progress(zLine[..], azCol[..], p, s, i, done, cur, sep, all)
    requires s != [] && !EndsLine(s[0])
    modifies zLine, azCol
    ensures |s'| < |s| && Progress(zLine[..], azCol[..], p', s', i', done', cur', sep, all)
  {
    var found := Matches(zLine, p, s, sep);
    if found {
      p', done', cur' := Cut(zLine, azCol, p, i, sep, s, done, cur, all);
      i', s' := i + 1, RestOf(s, p' - p);
    } else {
      KeepChar(zLine[..], azCol[..], p, s, i, done, cur, sep, all);
      p', i', s', done', cur' := p + 1, i, RestOf(s, 1), done, cur + [s[0]];
    }
  }

  /** Ends the last field with a NUL. */
  method EndLine(zLine: array<char>, azCol: array<nat>, p: nat, i: nat, sep: string,
                 ghost s: string, ghost done: seq<string>, ghost cur: string, ghost all: seq<string>)
    requires sep != [] && Progress(zLine[..], azCol[..], p, s, i, done, cur, sep, all)
    requires s == [] || EndsLine(s[0])
    modifies zLine
    ensures i + 1 == azCol.Length <==> |all| == azCol.Length
    ensures |all| == azCol.Length ==> FieldsAt(zLine[..], azCol[..], all, zLine.Length)
  {
    if i < azCol.Length {
      LineDone(zLine[..], azCol[..], p, s, done, cur, sep, all);
    }
    ghost var b := zLine[..][p := NUL];
    zLine[p] := NUL;
    assert zLine[..] == b;
  }

  ghost function RestOf(s: string, n: nat): (r: string)
    requires n <= |s| && NulFree(s)
    ensures r == s[n..] && NulFree(r)
  {
    assert forall c :: c in s[n..] ==> c in s;
    s[n..]
  }

  lemma FirstSplit(b: seq<char>, az: seq<nat>, line: string, sep: string)
    requires HoldsAt(b, 0, line) && sep != [] && |az| >= 1 && az[0] == 0
    ensures Splitting(b, az, 0, line, [], [], sep, Fields(line, sep))
  {
    var fs := Fields(line, sep);
    assert [] + fs[0] == fs[0] && [fs[0]] + fs[1..] == fs;
  }

  // ----- the loop of .import

  lemma {:induction false} FieldsNulFree(s: string, sep: string, k: nat)
    requires sep != [] && NulFree(s) && k < |Fields(s, sep)|
    ensures NulFree(Fields(s, sep)[k])
    decreases |s|
  {
    if s == [] || EndsLine(s[0]) {
    } else if sep <= s {
      if k > 0 {
        FieldsNulFree(RestOf(s, |sep|), sep, k - 1);
      }
    } else {
      FieldsNulFree(RestOf(s, 1), sep, k);
      assert s[0] in s;
    }
  }

  lemma LineNulFree(s: string)
    requires NulFree(s)
    ensures NulFree(Line(s)) && (s != [] ==> NulFree(AfterLine(s)))
  {
    assert forall c :: c in Line(s) ==> c in s;
    assert s != [] ==> forall c :: c in AfterLine(s) ==> c in s;
  }

  /** The C string at position a. */
  method ReadText(z: array<char>, a: nat, ghost s: string) returns (text: string)
    requires HoldsAt(z[..], a, s) && NulFree(s)
    ensures text == s
  {
    var n := 0;
    text := "";
    CharAt(z[..], a, s, 0);
    while z[a + n] != NUL
      invariant n <= |s| && text == s[..n] && (z[a + n] == NUL <==> n == |s|)
      decreases |s| - n
    {
      CharAt(z[..], a, s, n);
      CharAt(z[..], a, s, n + 1);
      text := text + [z[a + n]];
      n := n + 1;
    }
  }

  /** Splits a line and reads its fields from where azCol points. */
  method ReadRow(zLine: array<char>, azCol: array<nat>, sep: string, ghost line: string)
    returns (accepted: bool, row: seq<string>)
    requires HoldsAt(zLine[..], 0, line) && NulFree(line)
    requires sep != [] && NulFree(sep) && azCol.Length >= 1
    modifies zLine, azCol
    ensures accepted <==> |Fields(line, sep)| == azCol.Length
    ensures accepted ==> row == Fields(line, sep)
  {
    accepted := SplitLine(zLine, azCol, sep, line);
    row := [];
    if accepted {
      forall k | 0 <= k < azCol.Length ensures NulFree(Fields(line, sep)[k]) {
        FieldsNulFree(line, sep, k);
      }
      row := ReadFields(zLine, azCol, Fields(line, sep));
    }
  }

  /** The C strings that azCol points to. */
  method ReadFields(zLine: array<char>, azCol: array<nat>, ghost all: seq<string>) returns (row: seq<string>)
    requires |all| == azCol.Length && FieldsAt(zLine[..], azCol[..], all, zLine.Length)
    requires forall k :: 0 <= k < |all| ==> NulFree(all[k])
    ensures row == all
  {
    row := [];
    for i := 0 to azCol.Length
      invariant row == all[..i]
    {
      assert HoldsAt(zLine[..], azCol[..][i], all[i]);
      var field := ReadText(zLine, azCol[i], all[i]);
      row := row + [field];
    }
  }

  /** The row of line n goes into the table: it has its columns, and the library takes it. */
  predicate Goes(row: seq<string>, n: nat, nCol: nat, inserts: (nat, seq<string>) -> bool) {
    |row| == nCol && inserts(n, row)
  }

  /** `rows` are those of all before the first one that does not go into the table. */
  ghost predicate UpToFirstBad(all: seq<seq<string>>, rows: seq<seq<string>>, ok: bool,
                               nCol: nat, inserts: (nat, seq<string>) -> bool)
  {
    rows <= all && (forall k :: 0 <= k < |rows| ==> Goes(rows[k], k + 1, nCol, inserts))
    && if ok then rows == all else |rows| < |all| && !Goes(all[|rows|], |rows| + 1, nCol, inserts)
  }

  /** A table printed in list mode goes into one of as many columns whole, if the library takes
      its rows; otherwise it goes in as far as the first row that is not taken. */
  lemma ListTableImported(rows: seq<seq<string>>, c: char, nCol: nat, inserts: (nat, seq<string>) -> bool,
                          got: seq<seq<string>>, ok: bool)
    requires nCol > 0 && !EndsLine(c)
    requires forall r :: 0 <= r < |rows| ==> |rows[r]| == nCol && CarriesAll(rows[r], c)
    requires UpToFirstBad(ImportedRows(ListTable(rows, [c]), [c]), got, ok, nCol, inserts)
    ensures got <= rows && (ok <==> got == rows)
    ensures ok <==> forall r :: 0 <= r < |rows| ==> inserts(r + 1, rows[r])
  {
    TableReadsBack(rows, c);
    if ok {
      assert forall r :: 0 <= r < |rows| ==> Goes(rows[r], r + 1, nCol, inserts);
    }
  }

  /** `.import` into a table of nCol columns.  The rows inserted are kept only if all is well. */
  method Import(input: Input, nCol: nat, sep: string, inserts: (nat, seq<string>) -> bool)
    returns (rows: seq<seq<string>>, ok: bool)
    requires input.Valid() && NulFree(input.Rest()) && NulFree(sep)
    modifies input`pos
    ensures input.Valid()
    ensures sep == "" ==> rows == [] && !ok
    ensures sep != "" && nCol == 0 ==> rows == [] && ok
    ensures sep != "" && nCol > 0 ==> UpToFirstBad(ImportedRows(old(input.Rest()), sep), rows, ok, nCol, inserts)
  {
    rows, ok := [], sep != "";
    if sep != "" && nCol > 0 {
      var azCol := new nat[nCol];
      rows, ok := ImportRows(input, azCol, sep, inserts);
    }
  }

  /** The loop of `.import`. */
  method ImportRows(input: Input, azCol: array<nat>, sep: string, inserts: (nat, seq<string>) -> bool)
    returns (rows: seq<seq<string>>, ok: bool)
    requires input.Valid() && NulFree(input.Rest())
    requires sep != [] && NulFree(sep) && azCol.Length >= 1
    modifies input`pos, azCol
    ensures input.Valid()
    ensures UpToFirstBad(ImportedRows(old(input.Rest()), sep), rows, ok, azCol.Length, inserts)
  {
    rows, ok := [], true;
    var found := true;
    ghost var all := ImportedRows(input.Rest(), sep);
    ghost var more := all;
    ImportStarts(all, azCol.Length, inserts);
    while found && ok
      invariant input.Valid() && NulFree(input.Rest())
      invariant found && ok ==> more == ImportedRows(input.Rest(), sep)
      invariant ImportState(all, rows, more, found, ok, azCol.Length, inserts)
      decreases found && ok, |input.Rest()|
    {
      rows, found, ok, more := ImportLine(input, azCol, sep, inserts, rows, all, more);
    }
  }

  /** The loop of `.import` goes on, has met the end of the file, or a row that does not go in. */
  ghost predicate ImportState(all: seq<seq<string>>, rows: seq<seq<string>>, more: seq<seq<string>>,
                              found: bool, ok: bool, nCol: nat, inserts: (nat, seq<string>) -> bool)
  {
    if found && ok then Importing(all, rows, more, nCol, inserts) else UpToFirstBad(all, rows, ok, nCol, inserts)
  }

  /** One turn of the loop: a line is read, taken apart and inserted. */
  method ImportLine(input: Input, azCol: array<nat>, sep: string, inserts: (nat, seq<string>) -> bool,
                    rows: seq<seq<string>>, ghost all: seq<seq<string>>, ghost more: seq<seq<string>>)
    returns (rows': seq<seq<string>>, found: bool, ok: bool, ghost more': seq<seq<string>>)
    requires input.Valid() && NulFree(input.Rest())
    requires sep != [] && NulFree(sep) && azCol.Length >= 1
    requires more == ImportedRows(input.Rest(), sep)
    requires ImportState(all, rows, more, true, true, azCol.Length, inserts)
    modifies input`pos, azCol
    ensures input.Valid() && NulFree(input.Rest())
    ensures found && ok ==> |input.Rest()| < |old(input.Rest())| && more' == ImportedRows(input.Rest(), sep)
    ensures ImportState(all, rows', more', found, ok, azCol.Length, inserts)
  {
    var accepted, row;
    ghost var fields;
    found, accepted, row, fields := NextRow(input, azCol, sep);
    rows', ok, more' := rows, true, [];
    if found {
      more' := ImportedRows(input.Rest(), sep);
      NextImported(all, rows, fields, more', azCol.Length, inserts);
      ok := accepted && inserts(|rows| + 1, row);
      if ok {
        rows' := rows + [row];
      }
    } else {
      ImportEnds(all, rows, azCol.Length, inserts);
    }
  }

  /** The rows so far are in the table, and those of `more` are still to be read. */
  ghost predicate Importing(all: seq<seq<string>>, rows: seq<seq<string>>, more: seq<seq<string>>,
                            nCol: nat, inserts: (nat, seq<string>) -> bool)
  {
    all == rows + more && forall k :: 0 <= k < |rows| ==> Goes(rows[k], k + 1, nCol, inserts)
  }

  lemma ImportStarts(all: seq<seq<string>>, nCol: nat, inserts: (nat, seq<string>) -> bool)
    ensures ImportState(all, [], all, true, true, nCol, inserts)
  {
    assert [] + all == all;
  }

  lemma ImportEnds(all: seq<seq<string>>, rows: seq<seq<string>>, nCol: nat, inserts: (nat, seq<string>) -> bool)
    requires Importing(all, rows, [], nCol, inserts)
    ensures UpToFirstBad(all, rows, true, nCol, inserts)
  {
  }

  lemma NextImported(all: seq<seq<string>>, rows: seq<seq<string>>, row: seq<string>, more: seq<seq<string>>,
                     nCol: nat, inserts: (nat, seq<string>) -> bool)
    requires Importing(all, rows, [row] + more, nCol, inserts)
    ensures if Goes(row, |rows| + 1, nCol, inserts) then Importing(all, rows + [row], more, nCol, inserts)
            else UpToFirstBad(all, rows, false, nCol, inserts)
  {
    assert rows + ([row] + more) == rows + [row] + more;
    assert all[..|rows|] == rows && all[|rows|] == row;
  }

  /** Reads a line and takes it apart. */
  method NextRow(input: Input, azCol: array<nat>, sep: string)
    returns (found: bool, accepted: bool, row: seq<string>, ghost fields: seq<string>)
    requires input.Valid() && NulFree(input.Rest())
    requires sep != [] && NulFree(sep) && azCol.Length >= 1
    modifies input`pos, azCol
    ensures input.Valid() && NulFree(input.Rest())
    ensures if found then
        ImportedRows(old(input.Rest()), sep) == [fields] + ImportedRows(input.Rest(), sep)
        && |input.Rest()| < |old(input.Rest())|
      else ImportedRows(old(input.Rest()), sep) == []
    ensures accepted <==> found && |fields| == azCol.Length
    ensures accepted ==> row == fields
  {
    ghost var rest := input.Rest();
    LineNulFree(rest);
    var zLine := input.LocalGetline();
    found, accepted, row, fields := zLine != null, false, [], [];
    if found {
      fields := Fields(Line(rest), sep);
      assert HoldsAt(zLine[..], 0, Line(rest));
      accepted, row := ReadRow(zLine, azCol, sep, Line(rest));
    }
  }
}
