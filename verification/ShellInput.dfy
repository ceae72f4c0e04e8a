/** `process_input`: which lines are skipped, run as commands, or gathered into statements. */
module ShellInput {
  import opened CText

  const SEMICOLON := ';'

  /** What the shell is told from outside: the library's verdict on a text, what a dot command
      or a statement at a given line comes to, and whether errors are to end the run after it. */
  datatype Env = Env(complete: string -> bool, meta: (nat, string) -> int, execFails: (nat, string) -> bool,
                     bail: nat -> bool, interactive: bool)

  // ----- lines

  /** What follows the end of a C comment, if it ends. */
  datatype Skip = Behind(rest: string) | Never

  function BehindComment(s: string): (r: Skip)
    ensures r.Behind? ==> |r.rest| < |s|
  {
    if s == [] then Never
    else if s[0] == '*' && |s| > 1 && s[1] == '/' then Behind(s[2..])
    else BehindComment(s[1..])
  }

  function BehindLine(s: string): (r: string)
    ensures |r| <= |s|
  {
    if s == [] then [] else if s[0] == '\n' then s[1..] else BehindLine(s[1..])
  }

  /** `_all_whitespace`: white space and complete comments only. */
  predicate AllWhitespace(s: string)
    decreases |s|
  {
    if s == [] then true
    else if IsSpace(s[0]) then AllWhitespace(s[1..])
    else if |s| > 1 && s[0] == '/' && s[1] == '*' then
      match BehindComment(s[2..])
      case Never => false
      case Behind(rest) => AllWhitespace(rest)
    else if |s| > 1 && s[0] == '-' && s[1] == '-' then AllWhitespace(BehindLine(s[2..]))
    else false
  }

  function SkipSpace(s: string): (r: string)
    ensures |r| <= |s|
  {
    if s != [] && IsSpace(s[0]) then SkipSpace(s[1..]) else s
  }

  /** `_is_command_terminator`: a line with a slash or with "go". */
  predicate IsTerminator(line: string) {
    var s := SkipSpace(line);
    (|s| >= 1 && s[0] == '/' && AllWhitespace(s[1..]))
    || (|s| >= 2 && (s[0] == 'g' || s[0] == 'G') && (s[1] == 'o' || s[1] == 'O') && AllWhitespace(s[2..]))
  }

  // ----- texts

  /** The text of a statement: its lines with line feeds between. */
  function Text(ls: seq<string>): string {
    if ls == [] then [] else if |ls| == 1 then ls[0] else Text(ls[..|ls| - 1]) + ['\n'] + ls[|ls| - 1]
  }

  /** A terminator line stands for a semicolon if that completes the text before it. */
  function PlacedLine(env: Env, before: seq<string>, line: string): string {
    if IsTerminator(line) && (before == [] || env.complete(Text(before) + [SEMICOLON])) then [SEMICOLON] else line
  }

  function Placed(env: Env, lines: seq<string>): (ls: seq<string>)
    ensures |ls| == |lines|
  {
    if lines == [] then [] else
      var before := Placed(env, lines[..|lines| - 1]);
      before + [PlacedLine(env, before, lines[|lines| - 1])]
  }

  /** Time to execute: the last line brought a semicolon, and the text is complete. */
  predicate Ripe(env: Env, ls: seq<string>) {
    ls != [] && SEMICOLON in ls[|ls| - 1] && env.complete(Text(ls))
  }

  // ----- the machine

  /** What became of some lines, by their numbers. */
  datatype Event =
    | Skipped(line: nat)
    | Command(line: nat, text: string)
    | Executed(start: nat, end: nat, text: string)
  {
    function First(): nat {
      if Executed? then start else line
    }

    function Last(): nat {
      if Executed? then end else line
    }

    predicate Fails(env: Env) {
      match this
      case Skipped(_) => false
      case Command(n, text) => env.meta(n, text) != 0 && env.meta(n, text) != 2
      case Executed(_, n, text) => env.execFails(n, text)
    }
  }

  datatype State = State(lineno: nat, startline: nat, pending: seq<string>, errors: nat, exit: bool, log: seq<Event>)

  const INITIAL := State(0, 0, [], 0, false, [])

  function Note(env: Env, st: State, e: Event): State {
    st.(log := st.log + [e], errors := st.errors + if e.Fails(env) then 1 else 0)
  }

  /** One turn of the loop of `process_input`. */
  function Step(env: Env, st: State, line: string): State {
    Take(env, st.(lineno := st.lineno + 1), line)
  }

  /** The line just counted is skipped, run as a command, or gathered. */
  function Take(env: Env, st: State, line: string): State {
    if st.pending == [] && AllWhitespace(line) then Note(env, st, Skipped(st.lineno))
    else if st.pending == [] && line[0] == '.' then
      Note(env, st, Command(st.lineno, line)).(exit := env.meta(st.lineno, line) == 2)
    else Gather(env, st, StartOf(st), Grown(env, st, line))
  }

  /** The first line of the text that the line just counted goes to. */
  function StartOf(st: State): nat {
    if st.pending == [] then st.lineno else st.startline
  }

  function Grown(env: Env, st: State, line: string): (ls: seq<string>)
    ensures ls != []
  {
    st.pending + [PlacedLine(env, st.pending, line)]
  }

  /** The lines ls, the first of them at `start`, are executed or left pending. */
  function Gather(env: Env, st: State, start: nat, ls: seq<string>): State {
    if Ripe(env, ls) then
      Note(env, st.(startline := start, pending := []), Executed(start, st.lineno, Text(ls)))
    else st.(startline := start, pending := ls)
  }

  predicate GoesOn(env: Env, st: State) {
    !st.exit && (st.errors == 0 || !env.bail(st.lineno) || env.interactive)
  }

  function Run(env: Env, st: State, lines: seq<string>): State
    decreases |lines|
  {
    if lines == [] || !GoesOn(env, st) then st else Run(env, Step(env, st, lines[0]), lines[1..])
  }

  // ----- what holds over every run

  /** The events cover lines 1 to n, in order, each once. */
  ghost predicate Tiles(log: seq<Event>, n: nat)
    decreases |log|
  {
    if log == [] then n == 0 else
      var e := log[|log| - 1];
      1 <= e.First() <= e.Last() == n && Tiles(log[..|log| - 1], e.First() - 1)
  }

  /** Lines that have not made a statement to be executed yet. */
  ghost predicate Unripe(env: Env, ls: seq<string>) {
    forall k :: 0 < k <= |ls| ==> !Ripe(env, ls[..k])
  }

  /** A line that begins a statement, when none is pending. */
  predicate BeginsStatement(line: string) {
    !AllWhitespace(line) && line[0] != '.'
  }

  ghost predicate EventOk(env: Env, lines: seq<string>, e: Event) {
    1 <= e.First() <= e.Last() <= |lines|
    && match e
       case Skipped(n) => AllWhitespace(lines[n - 1])
       case Command(n, text) => text == lines[n - 1] && text != [] && text[0] == '.'
       case Executed(start, end, text) =>
         var ls := Placed(env, lines[start - 1..end]);
         BeginsStatement(lines[start - 1])
         && text == Text(ls) && Ripe(env, ls) && Unripe(env, ls[..|ls| - 1])
  }

  function Failures(env: Env, log: seq<Event>): nat {
    if log == [] then 0 else
      Failures(env, log[..|log| - 1]) + if log[|log| - 1].Fails(env) then 1 else 0
  }

  /** The pending text is what lines start to n have been gathered into. */
  ghost predicate PendingOk(env: Env, lines: seq<string>, start: nat, n: nat, ls: seq<string>) {
    1 <= start <= n <= |lines| && BeginsStatement(lines[start - 1])
    && ls == Placed(env, lines[start - 1..n]) && Unripe(env, ls)
  }

  ghost predicate AllOk(env: Env, lines: seq<string>, log: seq<Event>) {
    forall k :: 0 <= k < |log| ==> EventOk(env, lines, log[k])
  }

  /** The lines read so far are exactly those of the events and of the pending text, in order. */
  ghost predicate InOrder(st: State) {
    (st.pending != [] ==> 1 <= st.startline <= st.lineno)
    && Tiles(st.log, if st.pending == [] then st.lineno else st.startline - 1)
  }

  /** Each line was treated as it asked for, and no text was lost, changed or executed early. */
  ghost predicate Faithful(env: Env, lines: seq<string>, st: State) {
    AllOk(env, lines, st.log)
    && (st.pending != [] ==> PendingOk(env, lines, st.startline, st.lineno, st.pending))
  }

  lemma PlacedOne(env: Env, lines: seq<string>, start: nat, n: nat)
    requires 1 <= start <= n < |lines|
    ensures var before := Placed(env, lines[start - 1..n]);
      Placed(env, lines[start - 1..n + 1]) == before + [PlacedLine(env, before, lines[n])]
  {
    var ls := lines[start - 1..n + 1];
    assert ls[..|ls| - 1] == lines[start - 1..n] && ls[|ls| - 1] == lines[n];
  }

  lemma PlacedFirst(env: Env, lines: seq<string>, n: nat)
    requires n < |lines|
    ensures Placed(env, lines[n..n + 1]) == [PlacedLine(env, [], lines[n])]
  {
    assert lines[n..n + 1] == [lines[n]] && [lines[n]][..0] == [];
  }

  lemma UnripeLonger(env: Env, ls: seq<string>, l: string)
    requires Unripe(env, ls) && !Ripe(env, ls + [l])
    ensures Unripe(env, ls + [l])
  {
    forall k | 0 < k <= |ls| + 1 ensures !Ripe(env, (ls + [l])[..k]) {
      if k <= |ls| {
        assert (ls + [l])[..k] == ls[..k];
      } else {
        assert (ls + [l])[..k] == ls + [l];
      }
    }
  }

  /** One more line in the pending text either keeps it pending or makes it a statement. */
  lemma Gathered(env: Env, lines: seq<string>, start: nat, n: nat, end: nat, before: seq<string>, ls: seq<string>)
    requires n < |lines| && end == n + 1 && ls == before + [PlacedLine(env, before, lines[n])]
    requires if before == [] then start == n + 1 && BeginsStatement(lines[n])
             else PendingOk(env, lines, start, n, before)
    ensures if Ripe(env, ls) then EventOk(env, lines, Executed(start, end, Text(ls)))
            else PendingOk(env, lines, start, end, ls)
  {
    GrownIsPlaced(env, lines, start, n, before, ls);
    if Ripe(env, ls) {
      ExecutedOk(env, lines, start, end, ls, before);
    } else {
      UnripeLonger(env, before, ls[|ls| - 1]);
    }
  }

  lemma ExecutedOk(env: Env, lines: seq<string>, start: nat, n: nat, ls: seq<string>, before: seq<string>)
    requires 1 <= start <= n <= |lines| && BeginsStatement(lines[start - 1])
    requires ls == Placed(env, lines[start - 1..n]) && Ripe(env, ls)
    requires ls[..|ls| - 1] == before && Unripe(env, before)
    ensures EventOk(env, lines, Executed(start, n, Text(ls)))
  {
  }

  lemma GrownIsPlaced(env: Env, lines: seq<string>, start: nat, n: nat, before: seq<string>, ls: seq<string>)
    requires n < |lines| && ls == before + [PlacedLine(env, before, lines[n])]
    requires if before == [] then start == n + 1
             else 1 <= start <= n && before == Placed(env, lines[start - 1..n])
    ensures ls == Placed(env, lines[start - 1..n + 1])
    ensures ls[..|ls| - 1] == before && ls == before + [ls[|ls| - 1]]
  {
    if before == [] {
      PlacedFirst(env, lines, n);
    } else {
      PlacedOne(env, lines, start, n);
    }
  }

  lemma TilesMore(log: seq<Event>, e: Event)
    requires 1 <= e.First() <= e.Last() && Tiles(log, e.First() - 1)
    ensures Tiles(log + [e], e.Last())
  {
    assert (log + [e])[..|log|] == log;
  }

  lemma StepInOrder(env: Env, st: State, line: string, st': State)
    requires InOrder(st) && st' == Step(env, st, line)
    ensures InOrder(st') && st'.lineno == st.lineno + 1
  {
    var n := st.lineno + 1;
    if st.pending == [] && AllWhitespace(line) {
      OneLineInOrder(env, st, Skipped(n), st');
    } else if st.pending == [] && line[0] == '.' {
      OneLineInOrder(env, st, Command(n, line), st');
    } else {
      GatherInOrder(env, st.(lineno := n), StartOf(st.(lineno := n)), Grown(env, st, line), st');
    }
  }

  lemma OneLineInOrder(env: Env, st: State, e: Event, st': State)
    requires st.pending == [] && InOrder(st) && e.First() == e.Last() == st.lineno + 1
    requires st'.pending == [] && st'.lineno == st.lineno + 1 && st'.log == st.log + [e]
    ensures InOrder(st')
  {
    TilesMore(st.log, e);
  }

  lemma GatherInOrder(env: Env, st: State, start: nat, ls: seq<string>, st': State)
    requires 1 <= start <= st.lineno && Tiles(st.log, start - 1) && ls != []
    requires st' == Gather(env, st, start, ls)
    ensures InOrder(st') && st'.lineno == st.lineno
  {
    TilesMore(st.log, Executed(start, st.lineno, Text(ls)));
  }

  lemma StepCounted(env: Env, st: State, line: string, st': State)
    requires st.errors == Failures(env, st.log) && st' == Step(env, st, line)
    ensures st'.errors == Failures(env, st'.log)
  {
    var n := st.lineno + 1;
    if st.pending == [] && AllWhitespace(line) {
      EventCounted(env, st, Skipped(n), st');
    } else if st.pending == [] && line[0] == '.' {
      EventCounted(env, st, Command(n, line), st');
    } else {
      GatherCounted(env, st.(lineno := n), StartOf(st.(lineno := n)), Grown(env, st, line), st');
    }
  }

  lemma GatherCounted(env: Env, st: State, start: nat, ls: seq<string>, st': State)
    requires st.errors == Failures(env, st.log) && st' == Gather(env, st, start, ls)
    ensures st'.errors == Failures(env, st'.log)
  {
    if Ripe(env, ls) {
      EventCounted(env, st, Executed(start, st.lineno, Text(ls)), st');
    }
  }

  lemma EventCounted(env: Env, st: State, e: Event, st': State)
    requires st.errors == Failures(env, st.log) && st'.log == st.log + [e]
    requires st'.errors == st.errors + if e.Fails(env) then 1 else 0
    ensures st'.errors == Failures(env, st'.log)
  {
    assert (st.log + [e])[..|st.log|] == st.log;
  }

  lemma OkMore(env: Env, lines: seq<string>, log: seq<Event>, e: Event)
    requires AllOk(env, lines, log) && EventOk(env, lines, e)
    ensures AllOk(env, lines, log + [e])
  {
  }

  lemma StepFaithful(env: Env, lines: seq<string>, st: State, st': State)
    requires Faithful(env, lines, st) && st.lineno < |lines| && st' == Step(env, st, lines[st.lineno])
    ensures Faithful(env, lines, st')
  {
    var n, line := st.lineno + 1, lines[st.lineno];
    if st.pending == [] && AllWhitespace(line) {
      OkMore(env, lines, st.log, Skipped(n));
    } else if st.pending == [] && line[0] == '.' {
      OkMore(env, lines, st.log, Command(n, line));
    } else {
      GrowFaithful(env, lines, st, st.(lineno := n), Grown(env, st, line), st');
    }
  }

  lemma GrowFaithful(env: Env, lines: seq<string>, st: State, next: State, ls: seq<string>, st': State)
    requires Faithful(env, lines, st) && st.lineno < |lines| && ls == Grown(env, st, lines[st.lineno])
    requires st.pending == [] ==> BeginsStatement(lines[st.lineno])
    requires next == st.(lineno := st.lineno + 1) && st' == Gather(env, next, StartOf(next), ls)
    ensures Faithful(env, lines, st')
  {
    Gathered(env, lines, StartOf(next), st.lineno, next.lineno, st.pending, ls);
    GatherFaithful(env, lines, next, StartOf(next), ls, st');
  }

  lemma GatherFaithful(env: Env, lines: seq<string>, st: State, start: nat, ls: seq<string>, st': State)
    requires AllOk(env, lines, st.log) && start <= st.lineno && ls != []
    requires if Ripe(env, ls) then EventOk(env, lines, Executed(start, st.lineno, Text(ls)))
             else PendingOk(env, lines, start, st.lineno, ls)
    requires st' == Gather(env, st, start, ls)
    ensures Faithful(env, lines, st')
  {
    if Ripe(env, ls) {
      OkMore(env, lines, st.log, Executed(start, st.lineno, Text(ls)));
    }
  }

  /** All of this at once: each line read is accounted for once, and as it asked for. */
  ghost predicate Accounted(env: Env, lines: seq<string>, st: State) {
    st.lineno <= |lines| && InOrder(st) && Faithful(env, lines, st) && st.errors == Failures(env, st.log)
  }

  lemma StepAccounted(env: Env, lines: seq<string>, st: State, st': State)
    requires Accounted(env, lines, st) && st.lineno < |lines| && st' == Step(env, st, lines[st.lineno])
    ensures Accounted(env, lines, st') && st'.lineno == st.lineno + 1
  {
    StepInOrder(env, st, lines[st.lineno], st');
    StepCounted(env, st, lines[st.lineno], st');
    StepFaithful(env, lines, st, st');
  }

  /** It holds over every run, and a run reads on unless it has been ended. */
  lemma {:induction false} RunAccounted(env: Env, lines: seq<string>, st: State, rest: seq<string>, end: State)
    requires Accounted(env, lines, st) && rest == lines[st.lineno..] && end == Run(env, st, rest)
    ensures Accounted(env, lines, end)
    ensures GoesOn(env, end) ==> end.lineno == |lines|
    decreases |rest|
  {
    if rest != [] && GoesOn(env, st) {
      var st' := Step(env, st, rest[0]);
      StepCounts(env, st, rest[0], st');
      var rest' := NextRest(lines, st.lineno, rest, st'.lineno);
      StepAccounted(env, lines, st, st');
      RunAccounted(env, lines, st', rest', end);
    }
  }

  lemma StepCounts(env: Env, st: State, line: string, st': State)
    requires st' == Step(env, st, line)
    ensures st'.lineno == st.lineno + 1
  {
  }

  lemma NextRest(lines: seq<string>, n: nat, rest: seq<string>, n': nat) returns (rest': seq<string>)
    requires n <= |lines| && rest == lines[n..] && rest != [] && n' == n + 1
    ensures n < |lines| && rest[0] == lines[n] && rest' == rest[1..] == lines[n'..]
  {
    rest' := rest[1..];
  }

  /** The whole of `process_input` on an input of these lines. */
  lemma InputAccounted(env: Env, lines: seq<string>)
    ensures var end := Run(env, INITIAL, lines);
      Accounted(env, lines, end) && (GoesOn(env, end) ==> end.lineno == |lines|)
  {
    assert lines[0..] == lines;
    RunAccounted(env, lines, INITIAL, lines, Run(env, INITIAL, lines));
  }

  predicate Covers(e: Event, line: nat) {
    e.First() <= line <= e.Last()
  }

  /** Every line number up to n lies in one event, and in one only. */
  lemma {:induction false} EachLineOnce(log: seq<Event>, n: nat, line: nat) returns (k: nat)
    requires Tiles(log, n) && 1 <= line <= n
    ensures k < |log| && Covers(log[k], line)
    ensures forall j :: 0 <= j < |log| && Covers(log[j], line) ==> j == k
    decreases |log|
  {
    var last, front := |log| - 1, log[..|log| - 1];
    TilesBelow(front, log[last].First() - 1);
    assert forall j :: 0 <= j < last ==> front[j] == log[j];
    if line >= log[last].First() {
      k := last;
    } else {
      k := EachLineOnce(front, log[last].First() - 1, line);
    }
  }

  lemma {:induction false} TilesBelow(log: seq<Event>, n: nat)
    requires Tiles(log, n)
    ensures forall k :: 0 <= k < |log| ==> log[k].Last() <= n
    decreases |log|
  {
    if log != [] {
      var e := log[|log| - 1];
      TilesBelow(log[..|log| - 1], e.First() - 1);
      assert forall k :: 0 <= k < |log| - 1 ==> log[k] == log[..|log| - 1][k];
    }
  }

  // ----- the loop itself

  lemma {:induction false} NotAllSpace(s: string)
    requires !AllWhitespace(s)
    ensures SkipSpace(s) != []
  {
    if s != [] && IsSpace(s[0]) {
      NotAllSpace(s[1..]);
    }
  }

  lemma SliceStep<T>(z: seq<T>, p: nat, n: nat)
    requires p + n <= |z|
    ensures z[p..][n..] == z[p + n..]
    ensures forall k :: 0 <= k < |z| - p ==> z[p..][k] == z[p + k]
  {
  }

  /** `_all_whitespace` */
  method ScanAllWhitespace(z: string) returns (yes: bool)
    ensures yes == AllWhitespace(z)
  {
    var p := 0;
    while p < |z|
      invariant p <= |z| && AllWhitespace(z[p..]) == AllWhitespace(z)
    {
      SliceStep(z, p, 1);
      if IsSpace(z[p]) {
        p := p + 1;
      } else if p + 1 < |z| && z[p] == '/' && z[p + 1] == '*' {
        SliceStep(z, p, 2);
        var found;
        found, p := ScanComment(z, p + 2);
        if !found {
          return false;
        }
      } else if p + 1 < |z| && z[p] == '-' && z[p + 1] == '-' {
        SliceStep(z, p, 2);
        p := ScanLine(z, p + 2);
      } else {
        return false;
      }
    }
    return true;
  }

  /** The loop that looks for the end of a C comment. */
  method ScanComment(z: string, from: nat) returns (found: bool, end: nat)
    requires from <= |z|
    ensures found ==> from <= end <= |z|
    ensures BehindComment(z[from..]) == if found then Behind(z[end..]) else Never
  {
    end := from;
    while end < |z| && !EndsComment(z, end)
      invariant from <= end <= |z| && BehindComment(z[end..]) == BehindComment(z[from..])
    {
      CommentStep(z, end);
      end := end + 1;
    }
    found := end < |z|;
    if found {
      CommentStep(z, end);
      end := end + 2;
    }
  }

  predicate EndsComment(z: string, at: nat)
    requires at < |z|
  {
    z[at] == '*' && at + 1 < |z| && z[at + 1] == '/'
  }

  lemma CommentStep(z: string, at: nat)
    requires at < |z|
    ensures BehindComment(z[at..])
         == if EndsComment(z, at) then Behind(z[at + 2..]) else BehindComment(z[at + 1..])
  {
    assert z[at..][1..] == z[at + 1..];
    if EndsComment(z, at) {
      assert z[at..][2..] == z[at + 2..];
    }
  }

  /** The loop that looks for the end of a line comment. */
  method ScanLine(z: string, from: nat) returns (end: nat)
    requires from <= |z|
    ensures from <= end <= |z| && z[end..] == BehindLine(z[from..])
  {
    end := from;
    while end < |z| && z[end] != '\n'
      invariant from <= end <= |z| && BehindLine(z[end..]) == BehindLine(z[from..])
    {
      SliceStep(z, end, 1);
      end := end + 1;
    }
    if end < |z| {
      SliceStep(z, end, 1);
      end := end + 1;
    }
  }

  /** Finds the first character of a line that is not white space. */
  method FirstNonSpace(line: string) returns (i: nat)
    ensures i == |line| - |SkipSpace(line)| && line[i..] == SkipSpace(line)
  {
    i := 0;
    while i < |line| && IsSpace(line[i])
      invariant i <= |line| && SkipSpace(line[i..]) == SkipSpace(line)
    {
      SliceStep(line, i, 1);
      i := i + 1;
    }
  }

  /** `_is_command_terminator` */
  method IsCommandTerminator(line: string) returns (yes: bool)
    ensures yes == IsTerminator(line)
  {
    var i := FirstNonSpace(line);
    if i < |line| && line[i] == '/' {
      SliceStep(line, i, 1);
      var blank := ScanAllWhitespace(line[i + 1..]);
      if blank {
        return true;
      }
    }
    if i + 1 < |line| && (line[i] == 'g' || line[i] == 'G') && (line[i + 1] == 'o' || line[i + 1] == 'O') {
      SliceStep(line, i, 2);
      yes := ScanAllWhitespace(line[i + 2..]);
      return;
    }
    return false;
  }

  /** The shell while it reads its input.  `pending` says what the buffer holds. */
  class Shell {
    const env: Env
    var zSql: array?<char>
    var nSql: nat
    var startline: nat
    var lineno: nat
    var errCnt: nat
    var exit: bool
    var log: seq<Event>
    ghost var pending: seq<string>

    /** The buffer holds the pending text, with room for a semicolon and a NUL behind it. */
    ghost predicate Valid()
      reads this, zSql
    {
      nSql == |Text(pending)| && (zSql == null <==> pending == []) && (zSql != null ==>
        nSql > 0 && nSql + 3 <= zSql.Length && zSql[..nSql] == Text(pending) && zSql[nSql] == NUL)
    }

    ghost function Now(): State
      reads this
    {
      State(lineno, startline, pending, errCnt, exit, log)
    }

    constructor (env: Env)
      ensures Valid() && this.env == env && Now() == INITIAL
    {
      this.env, zSql, nSql, startline, lineno, errCnt, exit, log := env, null, 0, 0, 0, 0, false, [];
      pending := [];
    }

    /** `_is_complete`: asks about the text with a semicolon, and takes that away again. */
    method IsComplete() returns (yes: bool)
      requires Valid()
      modifies zSql
      ensures Valid() && yes == (pending == [] || env.complete(Text(pending) + [SEMICOLON]))
    {
      if zSql == null {
        return true;
      }
      zSql[nSql] := SEMICOLON;
      zSql[nSql + 1] := NUL;
      assert zSql[..nSql + 1] == Text(pending) + [SEMICOLON];
      yes := env.complete(zSql[..nSql + 1]);
      zSql[nSql] := NUL;
    }

    /** Puts a line into the buffer, behind a line feed unless it is the first. */
    method Append(line: string)
      requires Valid() && (pending == [] ==> SkipSpace(line) != [])
      modifies this`zSql, `nSql, `startline, `pending
      ensures Valid() && pending == old(pending) + [line]
      ensures startline == if old(pending) == [] then lineno else old(startline)
      ensures zSql != null && fresh(zSql)
    {
      if zSql == null {
        AppendFirst(line);
      } else {
        AppendNext(line);
      }
    }

    method AppendFirst(line: string)
      requires Valid() && zSql == null && SkipSpace(line) != []
      modifies this`zSql, `nSql, `startline, `pending
      ensures Valid() && pending == [line] && startline == lineno
      ensures zSql != null && fresh(zSql)
    {
      var i := FirstNonSpace(line);
      if i < |line| {
        nSql := |line|;
        zSql := NewBuffer(nSql + 3, [], line);
        startline := lineno;
      }
      pending := [line];
    }

    method AppendNext(line: string)
      requires Valid() && zSql != null
      modifies this`zSql, `nSql, `pending
      ensures Valid() && pending == old(pending) + [line]
      ensures zSql != null && fresh(zSql)
    {
      TextOne(pending, line);
      zSql := NewBuffer(nSql + |line| + 4, zSql[..nSql] + ['\n'], line);
      nSql := nSql + 1 + |line|;
      pending := pending + [line];
    }

    /** Allocates a buffer with the text of the old one, and copies a line behind it. */
    method NewBuffer(size: nat, text: string, line: string) returns (z: array<char>)
      requires |text| + |line| < size
      ensures fresh(z) && z.Length == size && z[..|text| + |line|] == text + line && z[|text| + |line|] == NUL
    {
      var all := text + line;
      z := new char[size];
      forall i | 0 <= i < |all| {
        z[i] := all[i];
      }
      z[|all|] := NUL;
      assert z[..|all|] == all;
    }

    /** `_contains_semicolon` */
    method ContainsSemicolon(from: nat) returns (yes: bool)
      requires zSql != null && from <= nSql <= zSql.Length
      ensures yes <==> SEMICOLON in zSql[from..nSql]
    {
      var i := from;
      while i < nSql
        invariant from <= i <= nSql && SEMICOLON !in zSql[from..i]
      {
        if zSql[i] == SEMICOLON {
          assert zSql[from..nSql][i - from] == SEMICOLON;
          return true;
        }
        assert zSql[from..i + 1] == zSql[from..i] + [zSql[i]];
        i := i + 1;
      }
      return false;
    }

    /** One turn of the loop of `process_input`. */
    method Turn(zLine: string)
      requires Valid() && !exit
      modifies this, zSql
      ensures Valid() && Now() == Step(env, old(Now()), zLine)
      ensures zSql == null || zSql == old(zSql) || fresh(zSql)
    {
      lineno := lineno + 1;
      TakeLine(zLine);
    }

    /** Does with the line just counted what it asks for. */
    method TakeLine(zLine: string)
      requires Valid() && !exit
      modifies this, zSql
      ensures Valid() && Now() == Take(env, old(Now()), zLine)
      ensures zSql == null || zSql == old(zSql) || fresh(zSql)
    {
      var blank := ScanAllWhitespace(zLine);
      if zSql == null && blank {
        log := log + [Skipped(lineno)];
      } else if zSql == null && zLine[0] == '.' {
        RunCommand(zLine);
      } else {
        GatherLine(zLine);
      }
    }

    /** Runs a dot command and counts it if it fails. */
    method RunCommand(zLine: string)
      requires Valid() && !exit
      modifies `exit, `errCnt, `log
      ensures Valid() && Now() == Note(env, old(Now()), Command(lineno, zLine)).(exit := env.meta(lineno, zLine) == 2)
    {
      log := log + [Command(lineno, zLine)];
      var rc := env.meta(lineno, zLine);
      if rc == 2 {
        exit := true;
      } else if rc != 0 {
        errCnt := errCnt + 1;
      }
    }

    /** Takes a line in, as a semicolon if it is a terminator in its place. */
    method GatherLine(zLine: string)
      requires Valid() && (pending == [] ==> !AllWhitespace(zLine))
      modifies this, zSql
      ensures Valid() && (zSql == null || fresh(zSql))
      ensures Now() == Gather(env, old(Now()), if old(pending) == [] then lineno else old(startline),
                              old(pending) + [PlacedLine(env, old(pending), zLine)])
    {
      var line := zLine;
      var terminator := IsCommandTerminator(line);
      if terminator {
        var complete := IsComplete();
        if complete {
          line := [SEMICOLON];
        }
      }
      PlacedHasText(env, pending, zLine);
      TakeIn(line);
    }

    /** The rest of the turn: the line goes into the buffer, and a ripe text is executed. */
    method TakeIn(line: string)
      requires Valid() && (pending == [] ==> SkipSpace(line) != [])
      modifies this, zSql
      ensures Valid() && (zSql == null || fresh(zSql))
      ensures Now() == Gather(env, old(Now()), if old(pending) == [] then lineno else old(startline),
                              old(pending) + [line])
    {
      var nSqlPrior := nSql;
      Append(line);
      var ripe := IsRipe(nSqlPrior, old(pending), line);
      if ripe {
        Execute(zSql[..nSql]);
      }
    }

    /** Whether the line just appended makes the text one to execute. */
    method IsRipe(nSqlPrior: nat, ghost before: seq<string>, ghost line: string) returns (ripe: bool)
      requires Valid() && zSql != null && pending == before + [line] && nSqlPrior == |Text(before)|
      ensures ripe == Ripe(env, pending)
    {
      NewPart(before, line, nSqlPrior);
      var text := zSql[..nSql];
      assert zSql[nSqlPrior..nSql] == text[nSqlPrior..];
      var semicolon := ContainsSemicolon(nSqlPrior);
      ripe := semicolon && env.complete(text);
    }

    /** Hands the text to the library and frees the buffer. */
    method Execute(text: string)
      requires Valid() && zSql != null && text == Text(pending)
      modifies this
      ensures Valid() && zSql == null
      ensures Now() == Note(env, old(Now()).(pending := []), Executed(startline, lineno, text))
      ensures startline == old(startline) && lineno == old(lineno)
    {
      log := log + [Executed(startline, lineno, text)];
      if env.execFails(lineno, text) {
        errCnt := errCnt + 1;
      }
      zSql, nSql, pending := null, 0, [];
    }

    /** `process_input` on an input of these lines; what is left over is reported. */
    method ProcessInput(lines: seq<string>) returns (errors: nat, leftover: string)
      requires Valid() && Now() == INITIAL
      modifies this, zSql
      ensures Valid() && Now() == Run(env, INITIAL, lines) && errors == errCnt
      ensures leftover == if AllWhitespace(Text(pending)) then [] else Text(pending)
    {
      var k := 0;
      while k < |lines| && !exit && (errCnt == 0 || !env.bail(lineno) || env.interactive)
        invariant k <= |lines| && Valid()
        invariant Run(env, Now(), lines[k..]) == Run(env, INITIAL, lines)
        invariant zSql == null || fresh(zSql) || zSql == old(zSql)
      {
        assert lines[k..][1..] == lines[k + 1..];
        Turn(lines[k]);
        k := k + 1;
      }
      errors, leftover := errCnt, [];
      if zSql != null {
        var text := zSql[..nSql];
        var blank := ScanAllWhitespace(text);
        if !blank {
          leftover := text;
        }
      }
    }
  }

  /** What the first line of a text puts into the buffer is not white space alone. */
  lemma PlacedHasText(env: Env, before: seq<string>, line: string)
    requires before == [] ==> !AllWhitespace(line)
    ensures before == [] ==> SkipSpace(PlacedLine(env, before, line)) != []
  {
    assert SkipSpace([SEMICOLON]) == [SEMICOLON];
    if before == [] {
      NotAllSpace(line);
    }
  }

  /** The part of the text that a line has brought has a semicolon if the line has. */
  lemma NewPart(ls: seq<string>, l: string, prior: nat)
    requires prior == |Text(ls)|
    ensures prior <= |Text(ls + [l])|
    ensures SEMICOLON in Text(ls + [l])[prior..] <==> SEMICOLON in l
  {
    TextOne(ls, l);
    var part := Text(ls + [l])[prior..];
    assert part == if ls == [] then l else ['\n'] + l;
  }

  lemma TextOne(ls: seq<string>, l: string)
    ensures Text(ls + [l]) == if ls == [] then l else Text(ls) + ['\n'] + l
  {
    assert (ls + [l])[..|ls|] == ls;
  }
}
