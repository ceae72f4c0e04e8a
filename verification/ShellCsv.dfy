/** Rows printed by `output_csv`, and the quoting rules of section 2 of RFC 4180 by which
    they are read back. */
module ShellCsv {
  import opened CText
  import opened ShellQuoting

  const NEWLINE := '\n'

  /** The table `needCsvQuote`. */
  predicate NeedCsvQuote(c: char) {
    c <= ' ' || c == DQUOTE || c == SQUOTE || c >= '\U{007F}'
  }

  /** A field that `output_csv` puts in quotes, with a separator of one byte: it is empty or
      holds a character that asks for it. */
  predicate MustQuote(z: string, sep: char) {
    z == [] || exists i :: 0 <= i < |z| && (NeedCsvQuote(z[i]) || z[i] == sep)
  }

  function CsvField(z: string, sep: char): string {
    if MustQuote(z, sep) then Quoted(DQUOTE, z) else z
  }

  /** A field stands bare exactly if it is not empty and is made of visible ASCII characters
      other than the quotes and the separator. */
  lemma BareFieldIff(z: string, sep: char)
    ensures CsvField(z, sep) == z
       <==> z != "" && forall i :: 0 <= i < |z| ==> '!' <= z[i] <= '~' && z[i] !in {'"', '\'', sep}
    ensures CsvField(z, sep) != z ==> CsvField(z, sep) == Quoted(DQUOTE, z)
    ensures CsvField(z, sep) != ""
  {
    DoubledLength(DQUOTE, z);
    VisibleIff(z, sep);
  }

  lemma VisibleIff(z: string, sep: char)
    ensures !MustQuote(z, sep)
       <==> z != "" && forall i :: 0 <= i < |z| ==> '!' <= z[i] <= '~' && z[i] !in {'"', '\'', sep}
  {
    if !MustQuote(z, sep) {
      forall i | 0 <= i < |z| ensures '!' <= z[i] <= '~' && z[i] !in {'"', '\'', sep} {
        assert !(NeedCsvQuote(z[i]) || z[i] == sep);
      }
    }
  }

  /** `output_csv` for a field that is not NULL. */
  method OutputCsv(z: string, sep: char, bSep: bool) returns (out: string)
    ensures out == CsvField(z, sep) + if bSep then [sep] else []
  {
    var i := 0;
    while i < |z|
      invariant i <= |z|
      invariant forall j :: 0 <= j < i ==> !NeedCsvQuote(z[j]) && z[j] != sep
    {
      if NeedCsvQuote(z[i]) || z[i] == sep {
        assert MustQuote(z, sep);
        i := 0;
        break;
      }
      i := i + 1;
    }
    if i == 0 {
      out := OutputInQuotes(z);
    } else {
      out := z;
    }
    if bSep {
      out := out + [sep];
    }
  }

  method OutputInQuotes(z: string) returns (out: string)
    ensures out == Quoted(DQUOTE, z)
  {
    out := [DQUOTE];
    var i := 0;
    while i < |z|
      invariant i <= |z|
      invariant out + Doubled(DQUOTE, z[i..]) == [DQUOTE] + Doubled(DQUOTE, z)
    {
      assert z[i..][1..] == z[i + 1..];
      if z[i] == DQUOTE {
        out := out + [DQUOTE];
      }
      out := out + [z[i]];
      i := i + 1;
    }
    out := out + [DQUOTE];
  }

  /** The fields of a row, each but the last followed by the separator, and the end of the line. */
  function CsvRow(row: seq<string>, sep: char): (s: string)
    ensures s != []
  {
    if row == [] then [NEWLINE]
    else CsvField(row[0], sep) + (if |row| > 1 then [sep] else []) + CsvRow(row[1..], sep)
  }

  /** A row in the CSV mode of `shell_callback`. */
  method OutputRow(row: seq<string>, sep: char) returns (out: string)
    ensures out == CsvRow(row, sep)
  {
    out := "";
    for i := 0 to |row|
      invariant out + CsvRow(row[i..], sep) == CsvRow(row, sep)
    {
      var field := OutputCsv(row[i], sep, i < |row| - 1);
      RowUnfolds(row, i, sep, out, field);
      out := out + field;
    }
    out := out + [NEWLINE];
  }

  lemma RowUnfolds(row: seq<string>, i: nat, sep: char, out: string, field: string)
    requires i < |row| && field == CsvField(row[i], sep) + if i < |row| - 1 then [sep] else []
    ensures out + CsvRow(row[i..], sep) == out + field + CsvRow(row[i + 1..], sep)
  {
    assert row[i..][1..] == row[i + 1..];
  }

  // ----- reading

  datatype FieldRead = FieldRead(field: string, rest: string) | Malformed

  /** The characters up to the separator or the end of the line. */
  function BareLength(s: string, sep: char): (n: nat)
    ensures n <= |s|
  {
    if s == [] || s[0] == sep || s[0] == NEWLINE then 0 else 1 + BareLength(s[1..], sep)
  }

  /** One field: a quoted one, in which a doubled quote stands for a quote, or a bare one. */
  function ReadField(s: string, sep: char): (f: FieldRead)
    ensures f.FieldRead? ==> |f.rest| <= |s|
  {
    if s != [] && s[0] == DQUOTE then
      match ReadBody(DQUOTE, s[1..])
      case Lexeme(content, rest) => FieldRead(content, rest)
      case Unterminated => Malformed
    else
      var n := BareLength(s, sep);
      FieldRead(s[..n], s[n..])
  }

  datatype RowRead = RowRead(row: seq<string>, rest: string) | BadRow

  /** A line of one or more fields between separators. */
  function ReadRow(s: string, sep: char): (r: RowRead)
    ensures r.RowRead? ==> |r.rest| < |s|
    decreases |s|
  {
    match ReadField(s, sep)
    case Malformed => BadRow
    case FieldRead(field, rest) =>
      if rest == [] then BadRow
      else if rest[0] == NEWLINE then RowRead([field], rest[1..])
      else if rest[0] != sep then BadRow
      else Then(field, ReadRow(rest[1..], sep))
  }

  function Then(field: string, r: RowRead): RowRead {
    match r
    case BadRow => BadRow
    case RowRead(row, rest) => RowRead([field] + row, rest)
  }

  lemma {:induction false} BareLengthOf(z: string, rest: string, sep: char)
    requires forall i :: 0 <= i < |z| ==> z[i] != sep && z[i] != NEWLINE
    requires rest != [] && (rest[0] == sep || rest[0] == NEWLINE)
    ensures BareLength(z + rest, sep) == |z|
  {
    if z == [] {
      assert z + rest == rest;
    } else {
      assert (z + rest)[1..] == z[1..] + rest;
      BareLengthOf(z[1..], rest, sep);
    }
  }

  /** A printed field is read back whatever it holds, wherever it stands. */
  lemma FieldReadsBack(z: string, rest: string, sep: char)
    requires sep != DQUOTE && sep != NEWLINE
    requires rest != [] && (rest[0] == sep || rest[0] == NEWLINE)
    ensures ReadField(CsvField(z, sep) + rest, sep) == FieldRead(z, rest)
  {
    var s := CsvField(z, sep) + rest;
    if MustQuote(z, sep) {
      QuotedReadsBack(DQUOTE, z, rest);
    } else {
      forall i | 0 <= i < |z| ensures z[i] != sep && z[i] != NEWLINE {
        assert !(NeedCsvQuote(z[i]) || z[i] == sep);
      }
      BareLengthOf(z, rest, sep);
      assert s[0] == z[0] && !NeedCsvQuote(z[0]);
      assert s[..|z|] == z && s[|z|..] == rest;
    }
  }

  /** A printed row is read back: empty fields, quotes, line ends and separators included. */
  lemma {:induction false} RowReadsBack(row: seq<string>, sep: char, more: string)
    requires row != [] && sep != DQUOTE && sep != NEWLINE
    ensures ReadRow(CsvRow(row, sep) + more, sep) == RowRead(row, more)
    decreases |row|
  {
    CsvRowParts(row, sep, more);
    if |row| == 1 {
      LastField(row[0], sep, more);
    } else {
      RowReadsBack(row[1..], sep, more);
      FieldThenRow(row[0], sep, CsvRow(row[1..], sep) + more, row[1..], more);
    }
  }

  lemma CsvRowParts(row: seq<string>, sep: char, more: string)
    requires row != []
    ensures row == [row[0]] + row[1..]
    ensures CsvRow(row, sep) + more
         == CsvField(row[0], sep)
            + if |row| == 1 then [NEWLINE] + more else [sep] + (CsvRow(row[1..], sep) + more)
  {
    if |row| == 1 {
      assert CsvRow(row[1..], sep) == [NEWLINE];
    }
  }

  lemma LastField(z: string, sep: char, more: string)
    requires sep != DQUOTE && sep != NEWLINE
    ensures ReadRow(CsvField(z, sep) + ([NEWLINE] + more), sep) == RowRead([z], more)
  {
    FieldReadsBack(z, [NEWLINE] + more, sep);
  }

  lemma FieldThenRow(z: string, sep: char, tail: string, row: seq<string>, more: string)
    requires sep != DQUOTE && sep != NEWLINE && ReadRow(tail, sep) == RowRead(row, more)
    ensures ReadRow(CsvField(z, sep) + ([sep] + tail), sep) == RowRead([z] + row, more)
  {
    FieldReadsBack(z, [sep] + tail, sep);
    assert ([sep] + tail)[1..] == tail;
  }

  function CsvTable(rows: seq<seq<string>>, sep: char): string {
    if rows == [] then [] else CsvRow(rows[0], sep) + CsvTable(rows[1..], sep)
  }

  datatype TableRead = TableRead(rows: seq<seq<string>>) | BadTable

  function ReadTable(s: string, sep: char): TableRead
    decreases |s|
  {
    if s == [] then TableRead([]) else
      match ReadRow(s, sep)
      case BadRow => BadTable
      case RowRead(row, rest) =>
        match ReadTable(rest, sep)
        case BadTable => BadTable
        case TableRead(rows) => TableRead([row] + rows)
  }

  /** A whole result table survives. */
  lemma {:induction false} TableReadsBack(rows: seq<seq<string>>, sep: char)
    requires sep != DQUOTE && sep != NEWLINE
    requires forall i :: 0 <= i < |rows| ==> rows[i] != []
    ensures ReadTable(CsvTable(rows, sep), sep) == TableRead(rows)
    decreases |rows|
  {
    if rows != [] {
      var row, rest := rows[0], rows[1..];
      TableReadsBack(rest, sep);
      RowThenTable(row, rest, sep);
      assert rows == [row] + rest;
    }
  }

  lemma RowThenTable(row: seq<string>, rows: seq<seq<string>>, sep: char)
    requires row != [] && sep != DQUOTE && sep != NEWLINE
    requires ReadTable(CsvTable(rows, sep), sep) == TableRead(rows)
    ensures ReadTable(CsvRow(row, sep) + CsvTable(rows, sep), sep) == TableRead([row] + rows)
  {
    RowReadsBack(row, sep, CsvTable(rows, sep));
  }
}
