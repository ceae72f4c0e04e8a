/** What a run of `process_input` comes to, said of the lines and the answers of the library. */
module ShellRuns {
  import opened ShellInput
  import ShellBlanks

  // ----- the text of a statement

  /** The lines that line feeds cut a text into. */
  function LinesOf(s: string): (ls: seq<string>)
    ensures ls != []
  {
    if s == [] then [[]] else
      var ls, c := LinesOf(s[..|s| - 1]), s[|s| - 1];
      if c == '\n' then ls + [[]] else ls[..|ls| - 1] + [ls[|ls| - 1] + [c]]
  }

  lemma LinesOfLonger(s: string, c: char)
    ensures var ls := LinesOf(s);
      LinesOf(s + [c]) == if c == '\n' then ls + [[]] else ls[..|ls| - 1] + [ls[|ls| - 1] + [c]]
  {
    assert (s + [c])[..|s|] == s;
  }

  lemma {:induction false} LinesOfPart(s: string, l: string)
    requires '\n' !in l
    ensures LinesOf(s + ['\n'] + l) == LinesOf(s) + [l]
    decreases |l|
  {
    if l == [] {
      assert s + ['\n'] + l == s + ['\n'];
      LinesOfLonger(s, '\n');
    } else {
      var front, c := l[..|l| - 1], l[|l| - 1];
      LinesOfPart(s, front);
      LastLonger(LinesOf(s), s + ['\n'] + front, front, c, l);
      assert s + ['\n'] + l == s + ['\n'] + front + [c];
    }
  }

  lemma LastLonger(ls: seq<string>, s: string, front: string, c: char, l: string)
    requires LinesOf(s) == ls + [front] && l == front + [c] && c != '\n'
    ensures LinesOf(s + [c]) == ls + [l]
  {
    LinesOfLonger(s, c);
    var all := ls + [front];
    assert all[..|all| - 1] == ls && all[|all| - 1] == front;
  }

  lemma {:induction false} OneLineOf(l: string)
    requires '\n' !in l
    ensures LinesOf(l) == [l]
    decreases |l|
  {
    if l != [] {
      var front, c := l[..|l| - 1], l[|l| - 1];
      OneLineOf(front);
      assert l == front + [c];
    }
  }

  /** The lines of a statement can be told from its text. */
  lemma {:induction false} TextHasLines(ls: seq<string>)
    requires ls != [] && forall k :: 0 <= k < |ls| ==> '\n' !in ls[k]
    ensures LinesOf(Text(ls)) == ls
    decreases |ls|
  {
    if |ls| == 1 {
      OneLineOf(ls[0]);
      assert ls == [ls[0]];
    } else {
      var front, l := ls[..|ls| - 1], ls[|ls| - 1];
      TextHasLines(front);
      LinesOfPart(Text(front), l);
      TextStep(ls, front, l);
    }
  }

  lemma TextStep(ls: seq<string>, front: seq<string>, l: string)
    requires |ls| > 1 && front == ls[..|ls| - 1] && l == ls[|ls| - 1]
    ensures Text(ls) == Text(front) + ['\n'] + l && ls == front + [l]
  {
  }

  // ----- what lines are taken in as

  ghost predicate IsTerminatorText(line: string) {
    exists lead, word, tail :: ShellBlanks.TerminatorText(line, lead, word, tail)
  }

  lemma {:induction false} PlacedFront(env: Env, lines: seq<string>, k: nat)
    requires k <= |lines|
    ensures Placed(env, lines)[..k] == Placed(env, lines[..k])
    decreases |lines|
  {
    if k < |lines| {
      var front := lines[..|lines| - 1];
      PlacedFront(env, front, k);
      assert front[..k] == lines[..k];
      assert Placed(env, lines)[..k] == Placed(env, front)[..k];
    } else {
      assert lines[..k] == lines;
    }
  }

  /** A line goes into a statement as a semicolon exactly if it is a terminator, and either
      begins the statement or would complete it with the semicolon; else it goes in as it is. */
  lemma PlacedAt(env: Env, lines: seq<string>, k: nat)
    requires k < |lines|
    ensures var ls := Placed(env, lines);
      ls[k] == if IsTerminatorText(lines[k]) && (k == 0 || env.complete(Text(ls[..k]) + ";")) then ";" else lines[k]
  {
    var ls := Placed(env, lines);
    PlacedFront(env, lines, k);
    PlacedFront(env, lines, k + 1);
    var upTo := lines[..k + 1];
    assert upTo[..|upTo| - 1] == lines[..k] && upTo[|upTo| - 1] == lines[k];
    assert ls[k] == ls[..k + 1][k];
    ShellBlanks.TerminatorGrammar(lines[k]);
  }

  /** An executed statement begins with a line that neither is blank nor starts with a dot; its last
      line has a semicolon, and the library calls it complete; of no shorter part is that true. */
  lemma ExecutedWhenComplete(env: Env, lines: seq<string>, start: nat, end: nat, text: string)
    requires EventOk(env, lines, Executed(start, end, text))
    ensures 1 <= start <= end <= |lines|
    ensures !ShellBlanks.IsBlankText(lines[start - 1]) && lines[start - 1] != [] && lines[start - 1][..1] != "."
    ensures var ls := Placed(env, lines[start - 1..end]);
      |ls| == end - start + 1 && text == Text(ls) && ';' in ls[|ls| - 1] && env.complete(text)
      && forall k :: 0 < k < |ls| ==> !(';' in ls[..k][k - 1] && env.complete(Text(ls[..k])))
  {
    ShellBlanks.BlankGrammar(lines[start - 1]);
    NoDot(lines[start - 1]);
    var ls := Placed(env, lines[start - 1..end]);
    forall k | 0 < k < |ls| ensures !(';' in ls[..k][k - 1] && env.complete(Text(ls[..k]))) {
      assert ls[..|ls| - 1][..k] == ls[..k];
      assert !Ripe(env, ls[..|ls| - 1][..k]);
    }
  }

  lemma NoDot(line: string)
    requires line != [] && line[0] != '.'
    ensures line[..1] != "."
  {
    assert line[..1][0] == line[0];
  }

  /** A skipped line is blank, by the grammar of blanks. */
  lemma SkippedIsBlank(env: Env, lines: seq<string>, n: nat)
    requires EventOk(env, lines, Skipped(n))
    ensures 1 <= n <= |lines| && ShellBlanks.IsBlankText(lines[n - 1])
  {
    ShellBlanks.BlankGrammar(lines[n - 1]);
  }

  // ----- terminators at work

  /** A terminator behind a statement that lacks only its semicolon executes it. */
  lemma TerminatorExecutes(env: Env, st: State, line: string)
    requires st.pending != [] && IsTerminatorText(line)
    requires env.complete(Text(st.pending) + ";") && env.complete(Text(st.pending) + "\n;")
    ensures var st', n := Step(env, st, line), st.lineno + 1;
      st'.pending == [] && st'.log == st.log + [Executed(st.startline, n, Text(st.pending) + "\n;")]
      && st'.errors == st.errors + if env.execFails(n, Text(st.pending) + "\n;") then 1 else 0
  {
    ShellBlanks.TerminatorGrammar(line);
    SemicolonTaken(env, st, line);
    RipeExecutes(env, st.(lineno := st.lineno + 1), st.startline, Grown(env, st, line), Text(st.pending) + "\n;");
  }

  lemma RipeExecutes(env: Env, st: State, start: nat, ls: seq<string>, text: string)
    requires ls != [] && ';' in ls[|ls| - 1] && text == Text(ls) && env.complete(text)
    ensures var st' := Gather(env, st, start, ls);
      st'.pending == [] && st'.log == st.log + [Executed(start, st.lineno, text)]
      && st'.errors == st.errors + if env.execFails(st.lineno, text) then 1 else 0
  {
  }

  lemma SemicolonTaken(env: Env, st: State, line: string)
    requires st.pending != [] && IsTerminator(line) && env.complete(Text(st.pending) + ";")
    ensures Grown(env, st, line) == st.pending + [";"]
    ensures Text(Grown(env, st, line)) == Text(st.pending) + "\n;"
  {
    TextOne(st.pending, ";");
  }

  // ----- errors and ends

  ghost predicate Failed(env: Env, e: Event) {
    (e.Command? && env.meta(e.line, e.text) !in {0, 2}) || (e.Executed? && env.execFails(e.end, e.text))
  }

  ghost function FailedEvents(env: Env, log: seq<Event>): set<nat> {
    set k: nat | k < |log| && Failed(env, log[k])
  }

  /** The error count is the number of commands and statements that failed. */
  lemma {:induction false} ErrorsAreFailures(env: Env, log: seq<Event>)
    ensures Failures(env, log) == |FailedEvents(env, log)|
    decreases |log|
  {
    if log == [] {
      assert FailedEvents(env, log) == {};
    } else {
      var front := log[..|log| - 1];
      ErrorsAreFailures(env, front);
      FailedMore(env, log, front);
    }
  }

  lemma FailedMore(env: Env, log: seq<Event>, front: seq<Event>)
    requires log != [] && front == log[..|log| - 1]
    ensures |FailedEvents(env, log)| == |FailedEvents(env, front)| + if log[|log| - 1].Fails(env) then 1 else 0
  {
    var last, before := |log| - 1, FailedEvents(env, front);
    FailsIsFailed(env, log[last]);
    assert forall k: nat :: k < last ==> front[k] == log[k];
    if Failed(env, log[last]) {
      assert FailedEvents(env, log) == before + {last};
    } else {
      assert FailedEvents(env, log) == before;
    }
  }

  lemma FailsIsFailed(env: Env, e: Event)
    ensures e.Fails(env) <==> Failed(env, e)
  {
  }

  ghost predicate Exits(env: Env, e: Event) {
    e.Command? && env.meta(e.line, e.text) == 2
  }

  /** After this event the run goes on, if there is input left. */
  ghost predicate RunsOn(env: Env, errors: nat, n: nat) {
    errors == 0 || !env.bail(n) || env.interactive
  }

  /** Only the last event can be an exit, and only the last can have ended the run by an error. */
  ghost predicate Orderly(env: Env, st: State) {
    (st.exit <==> st.log != [] && Exits(env, st.log[|st.log| - 1]))
    && forall k :: 0 <= k < |st.log| && st.log[k].Last() < st.lineno ==>
         !Exits(env, st.log[k]) && RunsOn(env, Failures(env, st.log[..k + 1]), st.log[k].Last())
  }

  lemma StepOrderly(env: Env, st: State, line: string, st': State)
    requires Orderly(env, st) && GoesOn(env, st) && InOrder(st) && st.errors == Failures(env, st.log)
    requires st' == Step(env, st, line)
    ensures Orderly(env, st')
  {
    LogOrderly(env, st);
    var n := st.lineno + 1;
    if st'.log == st.log {
      assert st'.exit == st.exit;
    } else {
      var e := st'.log[|st'.log| - 1];
      NextEvent(env, st, line, st', e);
      EventOrderly(env, st, st', e);
    }
  }

  /** When the run goes on, every event so far has let it go on. */
  lemma LogOrderly(env: Env, st: State)
    requires Orderly(env, st) && GoesOn(env, st) && InOrder(st) && st.errors == Failures(env, st.log)
    ensures forall k :: 0 <= k < |st.log| ==>
      st.log[k].Last() <= st.lineno && !Exits(env, st.log[k])
      && RunsOn(env, Failures(env, st.log[..k + 1]), st.log[k].Last())
  {
    var n := if st.pending == [] then st.lineno else st.startline - 1;
    TilesBelow(st.log, n);
    forall k | 0 <= k < |st.log|
      ensures st.log[k].Last() <= st.lineno && !Exits(env, st.log[k])
      ensures RunsOn(env, Failures(env, st.log[..k + 1]), st.log[k].Last())
    {
      if st.log[k].Last() == st.lineno {
        LastIsLast(st.log, n, k);
        assert st.log[..k + 1] == st.log;
      }
    }
  }

  lemma LastIsLast(log: seq<Event>, n: nat, k: nat)
    requires Tiles(log, n) && k < |log| && log[k].Last() == n
    ensures k == |log| - 1
  {
    var front := log[..|log| - 1];
    TilesBelow(front, log[|log| - 1].First() - 1);
    forall j | 0 <= j < |front| ensures log[j].Last() < n {
      assert front[j] == log[j];
    }
  }

  lemma NextEvent(env: Env, st: State, line: string, st': State, e: Event)
    requires GoesOn(env, st) && st' == Step(env, st, line) && st'.log != st.log && e == st'.log[|st'.log| - 1]
    ensures st'.log == st.log + [e] && e.Last() == st'.lineno == st.lineno + 1 && (st'.exit <==> Exits(env, e))
  {
  }

  lemma EventOrderly(env: Env, st: State, st': State, e: Event)
    requires st'.log == st.log + [e] && e.Last() == st'.lineno == st.lineno + 1 && (st'.exit <==> Exits(env, e))
    requires forall k :: 0 <= k < |st.log| ==>
      st.log[k].Last() <= st.lineno && !Exits(env, st.log[k])
      && RunsOn(env, Failures(env, st.log[..k + 1]), st.log[k].Last())
    ensures Orderly(env, st')
  {
    forall k | 0 <= k < |st'.log| && st'.log[k].Last() < st'.lineno
      ensures !Exits(env, st'.log[k]) && RunsOn(env, Failures(env, st'.log[..k + 1]), st'.log[k].Last())
    {
      assert k < |st.log| && st'.log[k] == st.log[k];
      assert st'.log[..k + 1] == st.log[..k + 1];
    }
  }

  lemma {:induction false} RunOrderly(env: Env, lines: seq<string>, st: State, rest: seq<string>, end: State)
    requires Accounted(env, lines, st) && rest == lines[st.lineno..] && Orderly(env, st) && end == Run(env, st, rest)
    ensures Orderly(env, end)
    decreases |rest|
  {
    if rest != [] && GoesOn(env, st) {
      var st' := Step(env, st, rest[0]);
      StepCounts(env, st, rest[0], st');
      var rest' := NextRest(lines, st.lineno, rest, st'.lineno);
      StepAccounted(env, lines, st, st');
      StepOrderly(env, st, rest[0], st');
      RunOrderly(env, lines, st', rest', end);
    }
  }

  /** Over every input: what failed is counted, only the last event ends a run, and a run that
      leaves lines unread was ended by an exit or by an error. */
  lemma InputOrderly(env: Env, lines: seq<string>)
    ensures var end := Run(env, INITIAL, lines);
      Orderly(env, end) && end.errors == |FailedEvents(env, end.log)|
      && (end.lineno < |lines| ==> end.exit || !RunsOn(env, end.errors, end.lineno))
  {
    var end := Run(env, INITIAL, lines);
    assert lines[0..] == lines;
    InputAccounted(env, lines);
    ErrorsAreFailures(env, end.log);
    RunOrderly(env, lines, INITIAL, lines, end);
  }
}
