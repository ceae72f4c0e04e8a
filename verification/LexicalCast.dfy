/** Integers written backwards into a fixed buffer, with the thousands grouping of the
    current locale. */
module LexicalCast {
  import opened Powers

  /** An entry of `numpunct::grouping`, a signed char. */
  type GroupEntry = g: int | -128 <= g <= 127

  const CHAR_MAX := 127

  /** What `lcast_put_unsigned` takes from the locale. */
  datatype Locale = Locale(grouping: seq<GroupEntry>, separator: char)

  // ----- decimal numbers

  function Pow10(n: nat): (p: nat)
    ensures p >= 1
  {
    if n == 0 then 1 else 10 * Pow10(n - 1)
  }

  function FloorLog10(v: nat): nat {
    if v < 10 then 0 else 1 + FloorLog10(v / 10)
  }

  /** `numeric_limits<T>::digits10` of a type with this many value bits. */
  function Digits10(valueBits: nat): nat {
    FloorLog10(Pow2(valueBits))
  }

  lemma {:induction false} FloorLog10Bounds(v: nat)
    requires v >= 1
    ensures Pow10(FloorLog10(v)) <= v < Pow10(FloorLog10(v) + 1)
  {
    if v >= 10 {
      FloorLog10Bounds(v / 10);
    }
  }

  lemma {:induction false} FloorLog10Monotone(u: nat, v: nat)
    requires u <= v
    ensures FloorLog10(u) <= FloorLog10(v)
  {
    if u >= 10 {
      FloorLog10Monotone(u / 10, v / 10);
    }
  }

  predicate IsDigit(c: char) {
    '0' <= c <= '9'
  }

  function Digit(d: nat): (c: char)
    requires d < 10
    ensures IsDigit(c)
  {
    '0' + d as char
  }

  function Digits(n: nat): (s: string)
    ensures s != [] && forall i :: 0 <= i < |s| ==> IsDigit(s[i])
  {
    (if n < 10 then [] else Digits(n / 10)) + [Digit(n % 10)]
  }

  /** The value of a string of digits. */
  function Eval(s: string): nat {
    if s == [] then 0 else
      var c := s[|s| - 1];
      10 * Eval(s[..|s| - 1]) + if IsDigit(c) then c as int - '0' as int else 0
  }

  lemma {:induction false} EvalDigits(n: nat)
    ensures Eval(Digits(n)) == n
  {
    if n >= 10 {
      EvalDigits(n / 10);
      assert Digits(n)[..|Digits(n)| - 1] == Digits(n / 10);
    } else {
      assert Digits(n)[..0] == [];
    }
  }

  lemma {:induction false} NoLeadingZero(n: nat)
    ensures Digits(n)[0] == '0' <==> n == 0
    ensures n == 0 ==> |Digits(n)| == 1
  {
    if n >= 10 {
      NoLeadingZero(n / 10);
    }
  }

  lemma {:induction false} DigitCount(n: nat, d: nat)
    requires n < Pow10(d + 1)
    ensures |Digits(n)| <= d + 1
  {
    if n >= 10 {
      assert Pow10(1) == 10;
      DigitCount(n / 10, d - 1);
    }
  }

  // ----- grouping

  /** The entry that governs group i, counted from the right: the last one repeats. */
  function Entry(l: Locale, i: nat): GroupEntry
    requires l.grouping != []
  {
    l.grouping[if i < |l.grouping| then i else |l.grouping| - 1]
  }

  /** The number of digits of group i as the loop counts them. */
  function GroupSize(l: Locale, i: nat): (g: nat)
    ensures 1 <= g <= CHAR_MAX
  {
    if l.grouping == [] || Entry(l, i) <= 0 then CHAR_MAX else Entry(l, i)
  }

  /** The group that the next digit goes to, when the current one takes `left` more. */
  function NextGroup(group: nat, left: nat): nat {
    if left == 0 then group + 1 else group
  }

  /** What that group takes after the digit. */
  function NextLeft(l: Locale, group: nat, left: nat): nat {
    (if left == 0 then GroupSize(l, group + 1) else left) - 1
  }

  /** One turn of the loop, in the order of the text: a separator follows the digit when
      the group to its right is full. */
  function Turn(l: Locale, n: nat, left: nat): (s: string)
    ensures |s| == if left == 0 then 2 else 1
  {
    if left == 0 then [Digit(n % 10), l.separator] else [Digit(n % 10)]
  }

  /** What is written for n, to the left of everything written before, when `left` more
      digits fit into the current group. */
  function Put(l: Locale, n: nat, group: nat, left: nat): (s: string)
    decreases n, 1
  {
    PutRest(l, n, group, left) + Turn(l, n, left)
  }

  function PutRest(l: Locale, n: nat, group: nat, left: nat): string
    decreases n, 0
  {
    if n < 10 then [] else Put(l, n / 10, NextGroup(group, left), NextLeft(l, group, left))
  }

  function Printed(l: Locale, n: nat): string {
    Put(l, n, 0, GroupSize(l, 0))
  }

  /** The characters of s other than the separator. */
  function Strip(s: string, sep: char): string {
    if s == [] then [] else
      Strip(s[..|s| - 1], sep) + if s[|s| - 1] == sep then [] else [s[|s| - 1]]
  }

  /** The lengths of the groups that the separator cuts s into, rightmost first. */
  function Runs(s: string, sep: char): (r: seq<nat>)
    ensures r != []
  {
    if s == [] then [0] else
      var r := Runs(s[..|s| - 1], sep);
      if s[|s| - 1] == sep then [0] + r else [r[0] + 1] + r[1..]
  }

  lemma StripLast(s: string, c: char, sep: char)
    ensures Strip(s + [c], sep) == Strip(s, sep) + if c == sep then [] else [c]
    ensures Runs(s + [c], sep)
         == if c == sep then [0] + Runs(s, sep) else [Runs(s, sep)[0] + 1] + Runs(s, sep)[1..]
  {
    assert (s + [c])[..|s|] == s;
  }

  lemma PutEnds(l: Locale, n: nat, group: nat, left: nat)
    requires !IsDigit(l.separator)
    ensures var rest, s := PutRest(l, n, group, left), Put(l, n, group, left);
      Strip(s, l.separator) == Strip(rest, l.separator) + [Digit(n % 10)]
      && |s| == |rest| + (if left == 0 then 2 else 1)
      && Runs(s, l.separator)
         == if left == 0 then [0] + OneLonger(Runs(rest, l.separator)) else OneLonger(Runs(rest, l.separator))
  {
    EndsWith(PutRest(l, n, group, left), Digit(n % 10), l.separator);
    var rest := PutRest(l, n, group, left);
    assert rest + [Digit(n % 10), l.separator] == rest + [Digit(n % 10)] + [l.separator];
  }

  /** The rightmost group with one digit more. */
  function OneLonger(r: seq<nat>): (r': seq<nat>)
    requires r != []
    ensures |r'| == |r|
  {
    [r[0] + 1] + r[1..]
  }

  lemma EndsWith(rest: string, d: char, sep: char)
    requires IsDigit(d) && !IsDigit(sep)
    ensures Strip(rest + [d], sep) == Strip(rest + [d] + [sep], sep) == Strip(rest, sep) + [d]
    ensures Runs(rest + [d], sep) == OneLonger(Runs(rest, sep))
    ensures Runs(rest + [d] + [sep], sep) == [0] + OneLonger(Runs(rest, sep))
  {
    StripLast(rest, d, sep);
    StripLast(rest + [d], sep, sep);
  }

  /** Taking the separators out leaves the decimal digits. */
  lemma {:induction false} StripPut(l: Locale, n: nat, group: nat, left: nat)
    requires !IsDigit(l.separator)
    ensures Strip(Put(l, n, group, left), l.separator) == Digits(n)
    decreases n
  {
    PutEnds(l, n, group, left);
    if n >= 10 {
      StripPut(l, n / 10, NextGroup(group, left), NextLeft(l, group, left));
    }
  }

  /** The digits that group i of r takes, when the first may take `left`. */
  function Room(l: Locale, group: nat, left: nat, i: nat): nat {
    if i == 0 then left else GroupSize(l, group + i)
  }

  /** Every group fills up before the next begins. */
  ghost predicate FillsUp(l: Locale, r: seq<nat>, group: nat, left: nat) {
    r != [] && 1 <= r[|r| - 1] <= Room(l, group, left, |r| - 1)
    && forall i :: 0 <= i < |r| - 1 ==> r[i] == Room(l, group, left, i)
  }

  function Sum(r: seq<nat>): nat {
    if r == [] then 0 else r[0] + Sum(r[1..])
  }

  lemma {:induction false} PutFillsUp(l: Locale, n: nat, group: nat, left: nat)
    requires !IsDigit(l.separator)
    ensures FillsUp(l, Runs(Put(l, n, group, left), l.separator), group, left)
    decreases n
  {
    var r := RestRuns(l, n, group, left);
    if n >= 10 {
      PutFillsUp(l, n / 10, NextGroup(group, left), NextLeft(l, group, left));
    }
    DigitPut(l, r, group, left, Runs(Put(l, n, group, left), l.separator));
  }

  /** The groups of what stands to the left of a digit, and with the digit. */
  lemma RestRuns(l: Locale, n: nat, group: nat, left: nat) returns (r: seq<nat>)
    requires !IsDigit(l.separator)
    ensures r != []
    ensures if n < 10 then r == [0]
            else r == Runs(Put(l, n / 10, NextGroup(group, left), NextLeft(l, group, left)), l.separator)
    ensures Runs(Put(l, n, group, left), l.separator)
         == if left == 0 then [0] + OneLonger(r) else OneLonger(r)
  {
    PutEnds(l, n, group, left);
    r := Runs(PutRest(l, n, group, left), l.separator);
  }

  /** One more digit, in front of nothing or of groups that fill up. */
  lemma DigitPut(l: Locale, r: seq<nat>, group: nat, left: nat, all: seq<nat>)
    requires r == [0] || FillsUp(l, r, NextGroup(group, left), NextLeft(l, group, left))
    requires all == if left == 0 then [0] + OneLonger(r) else OneLonger(r)
    ensures FillsUp(l, all, group, left)
  {
    var group', left' := NextGroup(group, left), NextLeft(l, group, left);
    DigitMore(l, r, group', left');
    if left == 0 {
      NewGroup(l, OneLonger(r), group);
    }
  }

  lemma DigitMore(l: Locale, r: seq<nat>, group: nat, left: nat)
    requires r == [0] || FillsUp(l, r, group, left)
    ensures FillsUp(l, OneLonger(r), group, left + 1)
  {
    if r != [0] {
      OneMore(l, r, group, left);
    }
  }

  /** Digits and separators account for the whole length. */
  lemma {:induction false} PutLength(l: Locale, n: nat, group: nat, left: nat)
    requires !IsDigit(l.separator)
    ensures var s := Put(l, n, group, left);
      var r := Runs(s, l.separator);
      Sum(r) == |Digits(n)| && |s| == Sum(r) + |r| - 1
    decreases n
  {
    PutEnds(l, n, group, left);
    var r := Runs(PutRest(l, n, group, left), l.separator);
    if n < 10 {
      assert r == [0] && Sum(r) == 0;
    } else {
      PutLength(l, n / 10, NextGroup(group, left), NextLeft(l, group, left));
    }
    SumOneLonger(r);
    SumEmptyFirst(OneLonger(r));
  }

  lemma SumEmptyFirst(r: seq<nat>)
    ensures Sum([0] + r) == Sum(r)
  {
    assert ([0] + r)[1..] == r;
  }

  lemma SumOneLonger(r: seq<nat>)
    requires r != []
    ensures Sum(OneLonger(r)) == Sum(r) + 1
  {
    assert OneLonger(r)[1..] == r[1..];
  }

  lemma OneMore(l: Locale, r: seq<nat>, group: nat, left: nat)
    requires FillsUp(l, r, group, left)
    ensures FillsUp(l, OneLonger(r), group, left + 1)
  {
    var r1 := OneLonger(r);
    forall i | 0 <= i < |r| - 1 ensures r1[i] == Room(l, group, left + 1, i) {
      assert r[i] == Room(l, group, left, i);
    }
  }

  lemma NewGroup(l: Locale, r: seq<nat>, group: nat)
    requires FillsUp(l, r, group + 1, GroupSize(l, group + 1))
    ensures FillsUp(l, [0] + r, group, 0)
  {
    var r0 := [0] + r;
    forall i | 0 <= i < |r0| - 1 ensures r0[i] == Room(l, group, 0, i) {
      assert i > 0 ==> r[i - 1] == Room(l, group + 1, GroupSize(l, group + 1), i - 1);
    }
  }

  lemma {:induction false} SumAtLeast(r: seq<nat>, i: nat)
    requires i < |r|
    ensures Sum(r) >= r[i]
    ensures i + 1 < |r| ==> Sum(r) >= r[i] + r[|r| - 1]
  {
    if i > 0 {
      SumAtLeast(r[1..], i - 1);
    } else if |r| > 1 {
      SumAtLeast(r[1..], |r| - 2);
    }
  }

  lemma {:induction false} SumOfPositive(r: seq<nat>)
    requires forall i :: 0 <= i < |r| ==> r[i] >= 1
    ensures Sum(r) >= |r|
  {
    if r != [] {
      SumOfPositive(r[1..]);
    }
  }

  /** The groups of the text, from the right, follow the grouping string: a positive entry
      gives the size of its group, the last entry repeats, and after an entry that is not
      positive there is no further separator. */
  ghost predicate FollowsGrouping(l: Locale, r: seq<nat>) {
    var k := |l.grouping|;
    r != [] && r[|r| - 1] >= 1
    && if k == 0 then |r| == 1 else
         forall i :: 0 <= i < |r| ==>
           GroupIs(if i < k then l.grouping[i] else l.grouping[k - 1], r[i], i == |r| - 1)
  }

  /** A group of n digits is what its entry asks for; the leftmost may be shorter. */
  predicate GroupIs(entry: GroupEntry, n: nat, leftmost: bool) {
    if leftmost then entry <= 0 || n <= entry else 0 < entry == n
  }

  lemma GroupsFollow(l: Locale, n: nat, digits10: nat)
    requires !IsDigit(l.separator) && digits10 < CHAR_MAX && n < Pow10(digits10 + 1)
    ensures FollowsGrouping(l, Runs(Printed(l, n), l.separator))
  {
    PutFillsUp(l, n, 0, GroupSize(l, 0));
    PutLength(l, n, 0, GroupSize(l, 0));
    DigitCount(n, digits10);
    ShortRunsFollow(l, Runs(Printed(l, n), l.separator));
  }

  /** With at most CHAR_MAX digits an unlimited group, counted as CHAR_MAX, never fills up. */
  lemma ShortRunsFollow(l: Locale, r: seq<nat>)
    requires FillsUp(l, r, 0, GroupSize(l, 0)) && Sum(r) <= CHAR_MAX
    ensures FollowsGrouping(l, r)
  {
    forall i | 0 <= i < |r| - 1 ensures r[i] == GroupSize(l, i) < CHAR_MAX {
      SumAtLeast(r, i);
      assert r[i] == Room(l, 0, GroupSize(l, 0), i);
    }
    SizesFollow(l, r);
  }

  lemma SizesFollow(l: Locale, r: seq<nat>)
    requires r != [] && 1 <= r[|r| - 1] <= GroupSize(l, |r| - 1)
    requires forall i :: 0 <= i < |r| - 1 ==> r[i] == GroupSize(l, i) < CHAR_MAX
    ensures FollowsGrouping(l, r)
  {
    assert |r| > 1 ==> r[0] == GroupSize(l, 0);
    forall i | 0 <= i < |r| && l.grouping != [] ensures GroupIs(Entry(l, i), r[i], i == |r| - 1) {
      assert i < |r| - 1 ==> r[i] == GroupSize(l, i) < CHAR_MAX;
    }
  }

  /** The length bound behind `lcast_src_length_integral`. */
  lemma PrintedLength(l: Locale, n: nat, digits10: nat)
    requires !IsDigit(l.separator) && n < Pow10(digits10 + 1)
    ensures 1 <= |Printed(l, n)| <= 2 * digits10 + 1
  {
    var r := Runs(Printed(l, n), l.separator);
    PutFillsUp(l, n, 0, GroupSize(l, 0));
    PutLength(l, n, 0, GroupSize(l, 0));
    DigitCount(n, digits10);
    forall i | 0 <= i < |r| ensures r[i] >= 1 {
      assert i < |r| - 1 ==> r[i] == Room(l, 0, GroupSize(l, 0), i);
    }
    SumOfPositive(r);
  }

  /** With every digit in a group of its own, 10^digits10 takes all of it. */
  lemma BoundIsTight(sep: char, digits10: nat)
    requires !IsDigit(sep)
    ensures |Printed(Locale([1], sep), Pow10(digits10))| == 2 * digits10 + 1
  {
    var l, n := Locale([1], sep), Pow10(digits10);
    var r := Runs(Printed(l, n), sep);
    PutFillsUp(l, n, 0, GroupSize(l, 0));
    PutLength(l, n, 0, GroupSize(l, 0));
    DigitsOfPow10(digits10);
    OnesFillUp(l, r);
  }

  lemma OnesFillUp(l: Locale, r: seq<nat>)
    requires l.grouping == [1] && FillsUp(l, r, 0, GroupSize(l, 0))
    ensures Sum(r) == |r|
  {
    forall i | 0 <= i < |r| ensures r[i] == 1 {
      assert i < |r| - 1 ==> r[i] == Room(l, 0, GroupSize(l, 0), i);
    }
    SumOfOnes(r);
  }

  /** For every unsigned type some value of the type takes all of its buffer. */
  lemma UnsignedSizeAttained(sep: char, w: nat) returns (n: nat)
    requires w >= 1 && !IsDigit(sep)
    ensures n < Pow2(w) && |Printed(Locale([1], sep), n)| == SourceLength(w, false)
  {
    n := Pow10(Digits10(w));
    FloorLog10Bounds(Pow2(w));
    Pow10IsNoPow2(Digits10(w), w);
    BoundIsTight(sep, Digits10(w));
  }

  /** And for every signed type: a negative one. */
  lemma SignedSizeAttained(sep: char, w: nat) returns (value: int)
    requires w >= 1 && !IsDigit(sep)
    ensures InRange(w, value) && |PrintedSigned(Locale([1], sep), value)| == SourceLength(w, true)
  {
    var n := Pow10(Digits10(w - 1));
    value := -(n as int);
    FloorLog10Bounds(Pow2(w - 1));
    BoundIsTight(sep, Digits10(w - 1));
  }

  lemma Pow10IsNoPow2(d: nat, w: nat)
    requires w >= 1
    ensures Pow10(d) != Pow2(w)
  {
    Pow2NotFive(w);
    if d > 0 {
      TenTimes(Pow10(d - 1));
    }
  }

  lemma TenTimes(p: nat)
    ensures 10 * p % 5 == 0
  {
  }

  lemma {:induction false} DigitsOfPow10(d: nat)
    ensures |Digits(Pow10(d))| == d + 1
  {
    if d > 0 {
      DigitsOfPow10(d - 1);
    }
  }

  lemma {:induction false} SumOfOnes(r: seq<nat>)
    requires forall i :: 0 <= i < |r| ==> r[i] == 1
    ensures Sum(r) == |r|
  {
    if r != [] {
      SumOfOnes(r[1..]);
    }
  }

  /** Reading the text back: the separators taken out, base ten, no superfluous zero. */
  lemma PrintedReadsBack(l: Locale, n: nat)
    requires !IsDigit(l.separator)
    ensures var s := Strip(Printed(l, n), l.separator);
      Eval(s) == n && (forall i :: 0 <= i < |s| ==> IsDigit(s[i])) && s != []
      && (s[0] == '0' ==> s == "0")
  {
    StripPut(l, n, 0, GroupSize(l, 0));
    EvalDigits(n);
    NoLeadingZero(n);
  }

  lemma TurnTaken(l: Locale, n: nat, group: nat, left: nat, done: string)
    ensures var done' := Turn(l, n, left) + done;
      Put(l, n, group, left) + done
      == if n < 10 then done'
         else Put(l, n / 10, NextGroup(group, left), NextLeft(l, group, left)) + done'
  {
    var rest, turn := PutRest(l, n, group, left), Turn(l, n, left);
    assert rest + turn + done == rest + (turn + done);
  }

  // ----- the signed path

  /** value fits into a two's complement type of width w. */
  predicate InRange(w: nat, value: int) {
    w >= 1 && -(Pow2(w - 1) as int) <= value < Pow2(w - 1)
  }

  /** `lcast_to_unsigned` in width w: the two's complement image, negated without sign. */
  function ToUnsigned(w: nat, value: int): (u: nat)
    requires InRange(w, value)
  {
    var uvalue: int := value % Pow2(w);
    if value < 0 then (-uvalue) % Pow2(w) else uvalue
  }

  /** It is the absolute value, at the most negative value too. */
  lemma ToUnsignedIsAbs(w: nat, value: int)
    requires InRange(w, value)
    ensures ToUnsigned(w, value) == if value < 0 then -value else value
  {
    var m := Pow2(w);
    assert m == 2 * Pow2(w - 1);
    if value < 0 {
      ModShift(value, m);
      ModShift(-(value + m), m);
    } else {
      ModSmall(value, m);
    }
  }

  lemma ModSmall(a: int, m: nat)
    requires 0 <= a < m
    ensures a % m == a
  {
  }

  lemma ModShift(a: int, m: int)
    requires m > 0 && -m <= a < 0
    ensures a % m == a + m
  {
  }

  /** `lcast_src_length_integral` for a type of width w. */
  function SourceLength(w: nat, signed: bool): nat
    requires w >= 1
  {
    (if signed then 1 else 0) + 1 + 2 * Digits10(if signed then w - 1 else w)
  }

  function PrintedSigned(l: Locale, value: int): string {
    if value < 0 then ['-'] + Printed(l, -value) else Printed(l, value)
  }

  lemma FitsUnsigned(l: Locale, w: nat, n: nat)
    requires w >= 1 && n < Pow2(w) && !IsDigit(l.separator)
    ensures n < Pow10(Digits10(w) + 1)
    ensures |Printed(l, n)| <= SourceLength(w, false)
  {
    FloorLog10Bounds(Pow2(w));
    PrintedLength(l, n, Digits10(w));
  }

  lemma FitsSigned(l: Locale, w: nat, value: int)
    requires InRange(w, value) && !IsDigit(l.separator)
    ensures |PrintedSigned(l, value)| <= SourceLength(w, true)
  {
    FloorLog10Bounds(Pow2(w - 1));
    PrintedLength(l, if value < 0 then -value else value, Digits10(w - 1));
  }

  /** Reading a signed text back. */
  function EvalSigned(s: string, sep: char): int {
    if s != [] && s[0] == '-' then -(Eval(Strip(s[1..], sep)) as int) else Eval(Strip(s, sep))
  }

  lemma SignedReadsBack(l: Locale, value: int)
    requires !IsDigit(l.separator) && l.separator != '-'
    ensures EvalSigned(PrintedSigned(l, value), l.separator) == value
  {
    var n := if value < 0 then -value else value;
    PrintedReadsBack(l, n);
    FirstIsDigit(l, n, 0, GroupSize(l, 0));
  }

  lemma {:induction false} FirstIsDigit(l: Locale, n: nat, group: nat, left: nat)
    ensures IsDigit(Put(l, n, group, left)[0])
    decreases n
  {
    if n >= 10 {
      FirstIsDigit(l, n / 10, NextGroup(group, left), NextLeft(l, group, left));
    }
  }

  // ----- the buffer

  /** The contents outside s[first..finish] are those of t. */
  ghost predicate Untouched(s: string, t: string, first: nat, finish: nat) {
    |s| == |t| && forall i :: 0 <= i < |s| && !(first <= i < finish) ==> s[i] == t[i]
  }

  /** `lexical_stream_limited_src`: the text is kept in buf[start..finish]. */
  class LimitedSource {
    const buf: array<char>
    var start: nat
    var finish: nat

    predicate Valid()
      reads this
    {
      start <= finish <= buf.Length
    }

    function Text(): string
      requires Valid()
      reads this, buf
    {
      buf[start..finish]
    }

    constructor (buf: array<char>, srcLen: nat)
      requires srcLen <= buf.Length
      ensures Valid() && this.buf == buf && start == 0 && finish == srcLen
    {
      this.buf, start, finish := buf, 0, srcLen;
    }

    /** `lcast_put_unsigned`: writes n to the left of `finish` and returns where it starts. */
    method LcastPutUnsigned(l: Locale, n: nat, ghost digits10: nat) returns (first: nat)
      requires Valid() && finish >= 2 * digits10 + 1
      requires !IsDigit(l.separator) && digits10 < CHAR_MAX && n < Pow10(digits10 + 1)
      modifies buf
      ensures first == finish - |Printed(l, n)|
      ensures buf[first..finish] == Printed(l, n)
      ensures Untouched(buf[..], old(buf[..]), first, finish)
    {
      PrintedLength(l, n, digits10);
      ghost var all := Printed(l, n);
      var rest, group := n, 0;
      var lastGrpSize := if |l.grouping| == 0 || l.grouping[0] <= 0 then CHAR_MAX else l.grouping[0];
      var left := lastGrpSize;
      first := finish;
      ghost var done := "";
      while true
        invariant 0 <= left && 0 <= group && lastGrpSize == GroupSize(l, group)
        invariant first <= finish && buf[first..finish] == done
        invariant Put(l, rest, group, left) + done == all
        invariant Untouched(buf[..], old(buf[..]), first, finish)
        decreases rest
      {
        TurnTaken(l, rest, group, left, done);
        done := Turn(l, rest, left) + done;
        first := PutTurn(l, rest, left, first);
        group, left, lastGrpSize := Regroup(l, group, left, lastGrpSize);
        rest := rest / 10;
        if rest == 0 {
          break;
        }
      }
    }

    /** What one turn of the loop writes: the separator, if the group is full, and a digit. */
    method PutTurn(l: Locale, n: nat, left: nat, first: nat) returns (first': nat)
      requires Valid() && |Turn(l, n, left)| <= first <= finish
      modifies buf
      ensures first' == first - |Turn(l, n, left)|
      ensures buf[first'..finish] == Turn(l, n, left) + old(buf[first..finish])
      ensures Untouched(buf[..], old(buf[..]), first', finish)
    {
      first' := first;
      if left == 0 {
        first' := Prepend(first', l.separator);
      }
      first' := Prepend(first', Digit(n % 10));
    }

    /** The state of the grouping after a digit. */
    method Regroup(l: Locale, group: nat, left: nat, lastGrpSize: nat)
      returns (group': nat, left': nat, lastGrpSize': nat)
      requires lastGrpSize == GroupSize(l, group)
      ensures group' == NextGroup(group, left) && left' == NextLeft(l, group, left)
      ensures lastGrpSize' == GroupSize(l, group')
    {
      group', left', lastGrpSize' := group, left, lastGrpSize;
      if left == 0 {
        group' := group + 1;
        lastGrpSize' := SizeOf(l, group', lastGrpSize);
        left' := lastGrpSize';
      }
      left' := left' - 1;
    }

    /** The size of a group, given that of the group before it. */
    method SizeOf(l: Locale, group: nat, lastGrpSize: nat) returns (size: nat)
      requires group >= 1 && lastGrpSize == GroupSize(l, group - 1)
      ensures size == GroupSize(l, group)
    {
      size := lastGrpSize;
      if group < |l.grouping| {
        var grpSize := l.grouping[group];
        size := if grpSize <= 0 then CHAR_MAX else grpSize;
      }
    }

    /** Writes one character to the left of the text. */
    method Prepend(first: nat, c: char) returns (first': nat)
      requires Valid() && 0 < first <= finish
      modifies buf
      ensures first' == first - 1
      ensures buf[first'..finish] == [c] + old(buf[first..finish])
      ensures Untouched(buf[..], old(buf[..]), first', finish)
    {
      first' := first - 1;
      buf[first'] := c;
    }

    /** The unsigned `operator<<` for a type of width w. */
    method PutUnsigned(l: Locale, w: nat, n: nat)
      requires w >= 1 && n < Pow2(w) && Digits10(w) < CHAR_MAX && !IsDigit(l.separator)
      requires Valid() && finish >= SourceLength(w, false)
      modifies `start, buf
      ensures Valid() && Text() == Printed(l, n)
      ensures Untouched(buf[..], old(buf[..]), start, finish)
    {
      FitsUnsigned(l, w, n);
      start := LcastPutUnsigned(l, n, Digits10(w));
    }

    /** The signed `operator<<` for a type of width w. */
    method PutSigned(l: Locale, w: nat, value: int)
      requires InRange(w, value) && Digits10(w) < CHAR_MAX
      requires !IsDigit(l.separator)
      requires Valid() && finish >= SourceLength(w, true)
      modifies `start, buf
      ensures Valid() && Text() == PrintedSigned(l, value)
      ensures Untouched(buf[..], old(buf[..]), start, finish)
    {
      ToUnsignedIsAbs(w, value);
      FloorLog10Bounds(Pow2(w - 1));
      var n := ToUnsigned(w, value);
      PrintedLength(l, n, Digits10(w - 1));
      FloorLog10Monotone(Pow2(w - 1), Pow2(w));
      start := LcastPutUnsigned(l, n, Digits10(w - 1));
      if value < 0 {
        start := Prepend(start, '-');
      }
    }
  }
}
