/** The columns in which `.tables` lists names. */
module ShellTables {

  function Max(a: nat, b: nat): nat {
    if a > b then a else b
  }

  function MaxLength(names: seq<string>): nat {
    if names == [] then 0 else Max(MaxLength(names[..|names| - 1]), |names[|names| - 1]|)
  }

  lemma {:induction false} MaxLengthBounds(names: seq<string>, k: nat)
    requires k < |names|
    ensures |names[k]| <= MaxLength(names)
  {
    if k < |names| - 1 {
      MaxLengthBounds(names[..|names| - 1], k);
    }
  }

  function Columns(maxlen: nat): (c: nat)
    ensures c >= 1
  {
    Max(1, 80 / (maxlen + 2))
  }

  /** The number of lines that n entries take, c to a line. */
  function Rows(n: nat, c: nat): nat
    requires c >= 1
  {
    (n + c - 1) / c
  }

  /** The entries of a line whose first is j, of n entries on r lines. */
  function RowFrom(j: nat, n: nat, r: nat): (js: seq<nat>)
    requires r >= 1
    ensures forall k :: 0 <= k < |js| ==> j <= js[k] <= n
    decreases n + 1 - j
  {
    if j > n then [] else [j] + RowFrom(j + r, n, r)
  }

  function Spaces(n: nat): (s: string)
    ensures |s| == n
  {
    seq(n, _ => ' ')
  }

  /** `%-*s`: left-justified in a field of w characters. */
  function Pad(s: string, w: nat): string {
    if |s| >= w then s else s + Spaces(w - |s|)
  }

  /** An entry with the space that sets it off from the column before. */
  function Cell(names: seq<string>, j: nat, r: nat): string
    requires 1 <= j <= |names|
  {
    (if j <= r then "" else "  ") + Pad(names[j - 1], MaxLength(names))
  }

  /** The rest of a line from entry j on. */
  function LineFrom(names: seq<string>, j: nat, r: nat): string
    requires r >= 1 && j >= 1
    decreases |names| + 1 - j
  {
    if j > |names| then [] else Cell(names, j, r) + LineFrom(names, j + r, r)
  }

  function LinesFrom(names: seq<string>, i: nat, r: nat): string
    requires r >= 1 && i <= r
    decreases r - i
  {
    if i == r then [] else LineFrom(names, i + 1, r) + ['\n'] + LinesFrom(names, i + 1, r)
  }

  /** The listing of `.tables`. */
  method PrintTables(names: seq<string>) returns (out: string)
    ensures var r := Rows(|names|, Columns(MaxLength(names)));
      out == if r == 0 then [] else LinesFrom(names, 0, r)
  {
    var nRow := |names|;
    var maxlen := LongestName(names);
    var nPrintCol := 80 / (maxlen + 2);
    if nPrintCol < 1 {
      nPrintCol := 1;
    }
    assert nPrintCol == Columns(maxlen);
    var nPrintRow := (nRow + nPrintCol - 1) / nPrintCol;
    assert nPrintRow == Rows(nRow, nPrintCol);
    out := PrintLines(names, nPrintRow, maxlen);
  }

  method PrintLines(names: seq<string>, nPrintRow: nat, maxlen: nat) returns (out: string)
    requires maxlen == MaxLength(names)
    ensures out == if nPrintRow == 0 then [] else LinesFrom(names, 0, nPrintRow)
  {
    out := [];
    var i := 0;
    while i < nPrintRow
      invariant i <= nPrintRow
      invariant nPrintRow > 0 ==> out + LinesFrom(names, i, nPrintRow) == LinesFrom(names, 0, nPrintRow)
      invariant nPrintRow == 0 ==> out == []
    {
      var line := PrintLine(names, i, nPrintRow, maxlen);
      LinesUnfold(names, i, nPrintRow, out);
      out := out + (line + ['\n']);
      i := i + 1;
    }
  }

  lemma LinesUnfold(names: seq<string>, i: nat, r: nat, out: string)
    requires i < r
    ensures out + LinesFrom(names, i, r)
         == out + (LineFrom(names, i + 1, r) + ['\n']) + LinesFrom(names, i + 1, r)
  {
  }

  method LongestName(names: seq<string>) returns (maxlen: nat)
    ensures maxlen == MaxLength(names)
  {
    maxlen := 0;
    for i := 0 to |names|
      invariant maxlen == MaxLength(names[..i])
    {
      assert names[..i + 1][..i] == names[..i];
      var len := |names[i]|;
      if len > maxlen {
        maxlen := len;
      }
    }
    assert names[..|names|] == names;
  }

  method PrintLine(names: seq<string>, i: nat, nPrintRow: nat, maxlen: nat) returns (line: string)
    requires i < nPrintRow && maxlen == MaxLength(names)
    ensures line == LineFrom(names, i + 1, nPrintRow)
  {
    line := [];
    var j := i + 1;
    while j <= |names|
      invariant j >= 1 && line + LineFrom(names, j, nPrintRow) == LineFrom(names, i + 1, nPrintRow)
      decreases |names| + 1 - j
    {
      var zSp := if j <= nPrintRow then "" else "  ";
      LineUnfolds(names, j, nPrintRow, line);
      line := line + (zSp + Pad(names[j - 1], maxlen));
      j := j + nPrintRow;
    }
  }

  lemma LineUnfolds(names: seq<string>, j: nat, r: nat, line: string)
    requires r >= 1 && 1 <= j <= |names|
    ensures line + LineFrom(names, j, r) == line + Cell(names, j, r) + LineFrom(names, j + r, r)
  {
  }

  // ----- what the layout is good for

  /** The text of entries one behind the other. */
  function Cells(names: seq<string>, js: seq<nat>, r: nat): string
    requires forall k :: 0 <= k < |js| ==> 1 <= js[k] <= |names|
  {
    if js == [] then [] else Cell(names, js[0], r) + Cells(names, js[1..], r)
  }

  /** The text of a line is that of its entries and nothing else. */
  lemma {:induction false} LineIsCells(names: seq<string>, j: nat, r: nat)
    requires r >= 1 && j >= 1
    ensures LineFrom(names, j, r) == Cells(names, RowFrom(j, |names|, r), r)
    decreases |names| + 1 - j
  {
    if j <= |names| {
      LineIsCells(names, j + r, r);
      assert RowFrom(j, |names|, r)[1..] == RowFrom(j + r, |names|, r);
    }
  }

  /** The entries of a line are spaced by the number of lines. */
  lemma {:induction false} RowEntry(j: nat, n: nat, r: nat, c: nat)
    requires r >= 1
    ensures c < |RowFrom(j, n, r)| <==> j + c * r <= n
    ensures j + c * r <= n ==> RowFrom(j, n, r)[c] == j + c * r
    decreases c
  {
    if c > 0 {
      RowEntry(j + r, n, r, c - 1);
      assert j + r + (c - 1) * r == j + c * r;
    }
    assert j > n ==> j + c * r > n;
  }

  /** Lines are filled one below the other: entry j stands in column (j-1)/r of line (j-1)%r,
      and nowhere else. */
  lemma EachEntryOnce(n: nat, r: nat, j: nat, i: nat, c: nat)
    requires r >= 1 && 1 <= j <= n && i < r
    ensures (c < |RowFrom(i + 1, n, r)| && RowFrom(i + 1, n, r)[c] == j) <==> (i == (j - 1) % r && c == (j - 1) / r)
  {
    RowEntry(i + 1, n, r, c);
    DivModUnique(j - 1, r, i, c);
  }

  lemma DivModUnique(a: nat, r: nat, i: nat, c: nat)
    requires r >= 1 && i < r
    ensures i + c * r == a <==> i == a % r && c == a / r
  {
    var q, m := a / r, a % r;
    assert a == q * r + m;
    MulOrder(c, q, r);
  }

  lemma MulOrder(a: nat, b: nat, r: nat)
    ensures a < b ==> a * r + r <= b * r
    ensures b < a ==> b * r + r <= a * r
  {
    if a < b {
      MulLess(a, b, r);
    } else if b < a {
      MulLess(b, a, r);
    }
  }

  lemma {:induction false} MulLess(a: nat, b: nat, r: nat)
    requires a < b
    ensures a * r + r <= b * r
    decreases b
  {
    OneMore(b - 1, r);
    if a < b - 1 {
      MulLess(a, b - 1, r);
    }
  }

  lemma OneMore(k: nat, w: nat)
    ensures (k + 1) * w == k * w + w
  {
  }

  /** There are just enough lines. */
  lemma RowsSuffice(n: nat, c: nat)
    requires c >= 1
    ensures n <= Rows(n, c) * c
    ensures n > 0 ==> 1 <= Rows(n, c) <= n
  {
    var q, m := Rows(n, c), (n + c - 1) % c;
    assert n + c - 1 == q * c + m;
    MulOrder(n, q, c);
    MulOrder(1, c, n);
    assert n * c == c * n;
  }

  /** No line has more entries than there are columns, and every line has one. */
  lemma RowWidth(n: nat, c: nat, i: nat)
    requires n >= 1 && c >= 1 && i < Rows(n, c)
    ensures 1 <= |RowFrom(i + 1, n, Rows(n, c))| <= c
  {
    var r := Rows(n, c);
    RowsSuffice(n, c);
    RowEntry(i + 1, n, r, 0);
    RowEntry(i + 1, n, r, c);
    assert c * r == r * c;
  }

  // ----- the printed text

  /** At `at` the line shows a name, and blanks up to the width w. */
  ghost predicate Shows(line: string, at: nat, name: string, w: nat) {
    |name| <= w && at + w <= |line|
    && line[at..at + |name|] == name && forall p :: at + |name| <= p < at + w ==> line[p] == ' '
  }

  /** Two blanks end at `at`. */
  ghost predicate Gap(line: string, at: nat) {
    2 <= at <= |line| && line[at - 2] == ' ' && line[at - 1] == ' '
  }

  lemma CellShows(names: seq<string>, j: nat, r: nat, rest: string, line: string, lead: nat)
    requires 1 <= j <= |names| && line == Cell(names, j, r) + rest && lead == if j <= r then 0 else 2
    ensures |Cell(names, j, r)| == lead + MaxLength(names)
    ensures Shows(line, lead, names[j - 1], MaxLength(names)) && (lead == 2 ==> Gap(line, lead))
  {
    MaxLengthBounds(names, j - 1);
    var name, w := names[j - 1], MaxLength(names);
    var pre, fill := if j <= r then "" else "  ", Spaces(w - |name|);
    assert Pad(name, w) == name + fill;
    NameShown(pre, name, fill, rest, line, w);
  }

  lemma NameShown(pre: string, name: string, fill: string, rest: string, line: string, w: nat)
    requires line == pre + (name + fill) + rest && |name| <= w && fill == Spaces(w - |name|)
    ensures Shows(line, |pre|, name, w)
    ensures pre == "  " ==> Gap(line, 2)
  {
    forall p | |pre| + |name| <= p < |pre| + w ensures line[p] == ' ' {
      assert line[p] == fill[p - |pre| - |name|];
    }
  }

  lemma ShownBehind(front: string, tail: string, at: nat, name: string, w: nat, line: string, at': nat)
    requires Shows(tail, at, name, w) && Gap(tail, at) && line == front + tail && at' == |front| + at
    ensures Shows(line, at', name, w) && Gap(line, at')
  {
    assert line[at'..at' + |name|] == tail[at..at + |name|];
    forall p | at' + |name| <= p < at' + w ensures line[p] == ' ' {
      assert line[p] == tail[p - |front|];
    }
  }

  /** Where column c begins in the rest of a line, with or without a gap before it. */
  function ColumnAt(lead: nat, c: nat, w: nat): nat
    decreases c
  {
    if c == 0 then lead else lead + w + ColumnAt(2, c - 1, w)
  }

  lemma {:induction false} ColumnIs(lead: nat, c: nat, w: nat)
    ensures ColumnAt(lead, c, w) == lead + c * (w + 2)
    decreases c
  {
    if c > 0 {
      ColumnIs(2, c - 1, w);
      OneMore(c - 1, w + 2);
    }
  }

  /** The number of the entry c columns to the right of entry j. */
  function EntryRight(j: nat, r: nat, c: nat): (n: nat)
    ensures n >= j && (c > 0 ==> n >= j + r)
    decreases c
  {
    if c == 0 then j else EntryRight(j + r, r, c - 1)
  }

  lemma {:induction false} EntryIs(j: nat, r: nat, c: nat)
    ensures EntryRight(j, r, c) == j + c * r
    decreases c
  {
    if c > 0 {
      EntryIs(j + r, r, c - 1);
      OneMore(c - 1, r);
    }
  }

  lemma {:induction false} ColumnShows(names: seq<string>, j: nat, r: nat, c: nat, n: nat, lead: nat,
                                       line: string, at: nat)
    requires r >= 1 && 1 <= j && n == EntryRight(j, r, c) <= |names| && lead == if j <= r then 0 else 2
    requires line == LineFrom(names, j, r) && at == ColumnAt(lead, c, MaxLength(names))
    ensures Shows(line, at, names[n - 1], MaxLength(names))
    ensures n > r ==> Gap(line, at)
    decreases c
  {
    var tail := LineFrom(names, j + r, r);
    CellShows(names, j, r, tail, line, lead);
    if c > 0 {
      var w, at' := MaxLength(names), ColumnAt(2, c - 1, MaxLength(names));
      ColumnShows(names, j + r, r, c - 1, n, 2, tail, at');
      assert line == Cell(names, j, r) + tail;
      ShownBehind(Cell(names, j, r), tail, at', names[n - 1], w, line, at);
    }
  }

  /** Line i shows, in column c, the name with number i + c * r counted from 0, and nothing
      but blanks between the names. */
  lemma LineShows(names: seq<string>, i: nat, r: nat, c: nat, k: nat, line: string, at: nat)
    requires i < r && k == i + c * r < |names|
    requires line == LineFrom(names, i + 1, r) && at == c * (MaxLength(names) + 2)
    ensures Shows(line, at, names[k], MaxLength(names))
    ensures c > 0 ==> Gap(line, at)
  {
    EntryIs(i + 1, r, c);
    ColumnIs(0, c, MaxLength(names));
    PlaceShows(names, i, r, c, k, line, at);
  }

  lemma PlaceShows(names: seq<string>, i: nat, r: nat, c: nat, k: nat, line: string, at: nat)
    requires i < r && k + 1 == EntryRight(i + 1, r, c) && k < |names|
    requires line == LineFrom(names, i + 1, r) && at == ColumnAt(0, c, MaxLength(names))
    ensures Shows(line, at, names[k], MaxLength(names))
    ensures c > 0 ==> Gap(line, at)
  {
    ColumnShows(names, i + 1, r, c, k + 1, 0, line, at);
  }

  /** The characters before the first line feed. */
  function LineLength(s: string): (n: nat)
    ensures n <= |s|
  {
    if s == [] || s[0] == '\n' then 0 else 1 + LineLength(s[1..])
  }

  /** Line k of a text, counted from 0, if it has as many. */
  function NthLine(s: string, k: nat): string
    decreases k
  {
    var n := LineLength(s);
    if k == 0 then s[..n] else if n < |s| then NthLine(s[n + 1..], k - 1) else []
  }

  lemma {:induction false} LineLengthOf(line: string, rest: string)
    requires '\n' !in line
    ensures LineLength(line + (['\n'] + rest)) == |line|
    decreases |line|
  {
    if line == [] {
      assert line + (['\n'] + rest) == ['\n'] + rest;
    } else {
      assert (line + (['\n'] + rest))[1..] == line[1..] + (['\n'] + rest);
      LineLengthOf(line[1..], rest);
    }
  }

  ghost predicate OneLineNames(names: seq<string>) {
    forall k :: 0 <= k < |names| ==> '\n' !in names[k]
  }

  lemma {:induction false} LineIsOne(names: seq<string>, j: nat, r: nat, line: string)
    requires OneLineNames(names) && r >= 1 && j >= 1 && line == LineFrom(names, j, r)
    ensures '\n' !in line
    decreases |names| + 1 - j
  {
    if j <= |names| {
      var tail := LineFrom(names, j + r, r);
      LineIsOne(names, j + r, r, tail);
      CellIsOne(names, j, r);
      assert line == Cell(names, j, r) + tail;
    }
  }

  lemma CellIsOne(names: seq<string>, j: nat, r: nat)
    requires OneLineNames(names) && 1 <= j <= |names|
    ensures '\n' !in Cell(names, j, r)
  {
    assert '\n' !in names[j - 1];
  }

  lemma FirstLineRead(line: string, rest: string, s: string, k: nat)
    requires '\n' !in line && s == line + ['\n'] + rest
    ensures NthLine(s, k) == if k == 0 then line else NthLine(rest, k - 1)
  {
    assert s == line + (['\n'] + rest);
    LineLengthOf(line, rest);
    assert s[..|line|] == line && s[|line| + 1..] == rest;
  }

  /** The listing has the lines in their order: line k of what begins with line `from` is that
      of entry n. */
  lemma {:induction false} ListingHasLine(names: seq<string>, from: nat, r: nat, k: nat, n: nat, s: string)
    requires OneLineNames(names) && n == from + k + 1 <= r && s == LinesFrom(names, from, r)
    ensures NthLine(s, k) == LineFrom(names, n, r)
    decreases k
  {
    var line, rest := LineFrom(names, from + 1, r), LinesFrom(names, from + 1, r);
    LineIsOne(names, from + 1, r, line);
    assert s == line + ['\n'] + rest;
    FirstLineRead(line, rest, s, k);
    if k > 0 {
      ListingHasLine(names, from + 1, r, k - 1, n, rest);
    }
  }

  /** The whole listing: every name stands in its line and column. */
  lemma ListingShows(names: seq<string>, r: nat, i: nat, c: nat, k: nat, at: nat, shown: string)
    requires OneLineNames(names) && i < r && shown == NthLine(LinesFrom(names, 0, r), i)
    requires k == i + c * r < |names| && at == c * (MaxLength(names) + 2)
    ensures Shows(shown, at, names[k], MaxLength(names))
    ensures c > 0 ==> Gap(shown, at)
  {
    LineFound(names, r, i, shown);
    LineShows(names, i, r, c, k, shown, at);
  }

  lemma LineFound(names: seq<string>, r: nat, i: nat, shown: string)
    requires OneLineNames(names) && i < r && shown == NthLine(LinesFrom(names, 0, r), i)
    ensures shown == LineFrom(names, i + 1, r)
  {
    ListingHasLine(names, 0, r, i, i + 1, LinesFrom(names, 0, r));
  }

  /** There is no room for another column, nor could there be a line less. */
  lemma LayoutIsTight(n: nat, w: nat)
    ensures (Columns(w) + 1) * (w + 2) > 80
    ensures Columns(w) > 1 ==> Columns(w) * (w + 2) <= 80
    ensures n > 0 ==> (Rows(n, Columns(w)) - 1) * Columns(w) < n <= Rows(n, Columns(w)) * Columns(w)
  {
    ColumnsTight(w);
    RowsTight(n, Columns(w));
  }

  lemma ColumnsTight(w: nat)
    ensures (Columns(w) + 1) * (w + 2) > 80
    ensures Columns(w) > 1 ==> Columns(w) * (w + 2) <= 80
  {
    var c, q, m := Columns(w), 80 / (w + 2), 80 % (w + 2);
    assert 80 == q * (w + 2) + m;
    OneMore(c, w + 2);
    MulOrder(q, c, w + 2);
  }

  lemma RowsTight(n: nat, c: nat)
    requires c >= 1
    ensures n > 0 ==> (Rows(n, c) - 1) * c < n <= Rows(n, c) * c
  {
    RowsSuffice(n, c);
    if n > 0 {
      var r, m := Rows(n, c), (n + c - 1) % c;
      assert n + c - 1 == r * c + m;
      OneMore(r - 1, c);
    }
  }

  /** The width of a line follows from the number of its entries. */
  lemma {:induction false} LineWidth(names: seq<string>, j: nat, r: nat, w: nat)
    requires r >= 1 && j >= 1 && w == MaxLength(names) + 2
    ensures |LineFrom(names, j, r)| + (if j <= r && j <= |names| then 2 else 0)
         == Times(|RowFrom(j, |names|, r)|, w)
    decreases |names| + 1 - j
  {
    if j <= |names| {
      LineWidth(names, j + r, r, w);
      CellWidth(names, j, r);
    }
  }

  function Times(k: nat, w: nat): nat {
    if k == 0 then 0 else Times(k - 1, w) + w
  }

  lemma {:induction false} TimesIsProduct(k: nat, w: nat)
    ensures Times(k, w) == k * w
  {
    if k > 0 {
      TimesIsProduct(k - 1, w);
      OneMore(k - 1, w);
    }
  }

  lemma CellWidth(names: seq<string>, j: nat, r: nat)
    requires 1 <= j <= |names| && r >= 1
    ensures |LineFrom(names, j, r)|
         == MaxLength(names) + (if j <= r then 0 else 2) + |LineFrom(names, j + r, r)|
    ensures |RowFrom(j, |names|, r)| == |RowFrom(j + r, |names|, r)| + 1
  {
    var line, rest := LineFrom(names, j, r), LineFrom(names, j + r, r);
    CellShows(names, j, r, rest, line, if j <= r then 0 else 2);
    assert line == Cell(names, j, r) + rest;
  }

  /** No line is wider than 78 characters, unless a single name is: then no line is wider
      than the longest name, and each stands alone. */
  lemma LinesFit(names: seq<string>, i: nat)
    requires i < Rows(|names|, Columns(MaxLength(names)))
    ensures |LineFrom(names, i + 1, Rows(|names|, Columns(MaxLength(names))))| <= Max(78, MaxLength(names))
    ensures MaxLength(names) > 78 ==>
      |RowFrom(i + 1, |names|, Rows(|names|, Columns(MaxLength(names))))| == 1
  {
    var c := Columns(MaxLength(names));
    NoRows(|names|, c);
    RowWidth(|names|, c, i);
    var r := Rows(|names|, c);
    LineFits(names, i, MaxLength(names), r, LineFrom(names, i + 1, r), |RowFrom(i + 1, |names|, r)|);
  }

  lemma LineFits(names: seq<string>, i: nat, w: nat, r: nat, line: string, k: nat)
    requires i < |names| && i < r && w == MaxLength(names) && 1 <= k <= Columns(w)
    requires line == LineFrom(names, i + 1, r) && k == |RowFrom(i + 1, |names|, r)|
    ensures |line| <= Max(78, w)
    ensures w > 78 ==> k == 1
  {
    LineWidth(names, i + 1, r, w + 2);
    TimesFit(k, w);
  }

  lemma TimesFit(k: nat, w: nat)
    requires 1 <= k <= Columns(w)
    ensures Times(k, w + 2) <= Max(80, w + 2)
    ensures w > 78 ==> k == 1
  {
    TimesIsProduct(k, w + 2);
    ColumnsFit(w, k);
  }

  lemma NoRows(n: nat, c: nat)
    requires c >= 1
    ensures n == 0 ==> Rows(n, c) == 0
    ensures Rows(n, c) <= n
  {
    if n > 0 {
      RowsSuffice(n, c);
    }
  }

  lemma ColumnsFit(w: nat, k: nat)
    requires 1 <= k <= Columns(w)
    ensures k * (w + 2) <= Max(80, w + 2)
    ensures w > 78 ==> k == 1
  {
    var q, m := 80 / (w + 2), 80 % (w + 2);
    assert 80 == q * (w + 2) + m;
    MulOrder(k, Columns(w), w + 2);
    MulOrder(1, q, w + 2);
  }
}
