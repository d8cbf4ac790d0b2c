/**
 Command lines: exec.c splits a line into words and runs its commands from left
 to right, joined by ";", "&&" and "||".
 */
module Shell {
  import opened Words

  type Word = seq<byte>
  type Argv = seq<Word>

  const SPACE: byte := 0x20
  const COMMENT: byte := 0x23
  const OR: Word := [0x7c, 0x7c]
  const AND: Word := [0x26, 0x26]
  const ALWAYS: Word := [0x3b]

  // SHELL_STOP_COMMAND
  const STOP_COMMAND := 1

  // -ENOMEM, as any other failure of the shell itself
  const ENOMEM := -12

  // ---- Meaning ------------------------------------------------------------

  /** What a command does: its status, and the stop state if it sets it */
  datatype Outcome = Outcome(rc: int, stop: Option<nat>)

  /** The rest of the system: how words expand, or that memory runs out, and
      what a command does; either may depend on the commands run before. */
  datatype World = World(expand: (seq<Argv>, Argv) -> Option<Argv>, exec: (seq<Argv>, Argv) -> Outcome)

  /** The commands run so far, the status of the last one, the stop state, and
      whether processing has ended early */
  datatype State = State(ran: seq<Argv>, rc: int, stop: nat, halted: bool)

  /** A line: a command, or a line followed by one more command */
  datatype Line = Command(words: Argv) | Joined(left: Line, op: Word, words: Argv)

  predicate IsOp(w: Word) {
    w == OR || w == AND || w == ALWAYS
  }

  // process_on_failure(), process_on_success(), process_always()
  predicate Proceeds(op: Word, rc: int) {
    if op == OR then rc != 0 else if op == AND then rc == 0 else true
  }

  // shell_stopped ( SHELL_STOP_COMMAND )
  function Checked(s: State): State {
    s.(halted := s.stop >= STOP_COMMAND, stop := if s.stop <= STOP_COMMAND then 0 else s.stop)
  }

  // An empty command does nothing, successfully.
  function Run(w: World, s: State, words: Argv): State {
    if words == [] then Checked(s.(rc := 0))
    else
      match w.expand(s.ran, words)
      case None => s.(rc := ENOMEM, halted := true)
      case Some(argv) =>
        var o := w.exec(s.ran, argv);
        Checked(State(s.ran + [argv], o.rc, if o.stop.Some? then o.stop.value else s.stop, false))
  }

  // A skipped command leaves the status as it is.
  function Eval(w: World, s: State, line: Line): State {
    match line
    case Command(words) => Run(w, s, words)
    case Joined(left, op, words) =>
      var t := Eval(w, s, left);
      if t.halted || !Proceeds(op, t.rc) then t else Run(w, t, words)
  }

  // ---- Syntax -------------------------------------------------------------

  predicate IsComment(w: Word) {
    w != [] && w[0] == COMMENT
  }

  // The words before any comment
  function Live(words: Argv): (n: nat)
    ensures n <= |words| && (forall i :: 0 <= i < n ==> !IsComment(words[i])) && (n < |words| ==> IsComment(words[n]))
  {
    if words == [] || IsComment(words[0]) then 0 else 1 + Live(words[1..])
  }

  // The last operator, or -1
  function LastOp(words: Argv): (i: int)
    ensures -1 <= i < |words| && (i >= 0 ==> IsOp(words[i])) && forall j :: i < j < |words| ==> !IsOp(words[j])
  {
    if words == [] then -1
    else if IsOp(words[|words| - 1]) then |words| - 1
    else LastOp(words[..|words| - 1])
  }

  // Operators of equal precedence that group to the left
  function Parsed(words: Argv): Line
    decreases |words|
  {
    var i := LastOp(words);
    if i < 0 then Command(words) else Joined(Parsed(words[..i]), words[i], words[i + 1..])
  }

  lemma ParsedAs(words: Argv, i: int)
    requires -1 <= i < |words| && (i >= 0 ==> IsOp(words[i])) && forall j :: i < j < |words| ==> !IsOp(words[j])
    ensures Parsed(words) == if i < 0 then Command(words) else Joined(Parsed(words[..i]), words[i], words[i + 1..])
  {
    hide LastOp, IsOp;
    assert LastOp(words) == i;
  }

  // Once processing has ended, the rest of the line changes nothing.
  lemma {:induction false} HaltedStays(w: World, s: State, words: Argv, n: nat, m: nat)
    requires n < m <= |words| && IsOp(words[n]) && Eval(w, s, Parsed(words[..n])).halted
    ensures Eval(w, s, Parsed(words[..m])) == Eval(w, s, Parsed(words[..n]))
    decreases m
  {
    hide LastOp, IsOp, Parsed, Run;
    var i := LastOp(words[..m]);
    assert words[..m][n] == words[n];
    assert i >= n;
    ParsedAs(words[..m], i);
    assert words[..m][..i] == words[..i];
    if i > n {
      HaltedStays(w, s, words, n, i);
    }
  }

  // command_terminator(): the first operator, comment or end
  method Terminator(words: Argv, start: int) returns (argc: int, next: Option<Word>)
    requires 0 <= start <= Live(words)
    ensures 0 <= argc && start + argc <= Live(words)
    ensures forall i :: start <= i < start + argc ==> !IsOp(words[i])
    ensures next.Some? ==> start + argc < Live(words) && words[start + argc] == next.value && IsOp(next.value)
    ensures next.None? ==> start + argc == Live(words)
  {
    hide Live;
    argc := 0;
    while start + argc < |words|
      invariant 0 <= argc && start + argc <= Live(words) && forall i :: start <= i < start + argc ==> !IsOp(words[i])
    {
      var word := words[start + argc];
      if IsComment(word) {
        break;
      } else if word == OR || word == AND || word == ALWAYS {
        return argc, Some(word);
      }
      argc := argc + 1;
    }
    next := None;
  }

  // ---- Running a line -----------------------------------------------------

  class Interpreter {
    const w: World
    var ran: seq<Argv>
    var stopState: nat

    constructor (w: World)
      ensures this.w == w && ran == [] && stopState == 0
    {
      this.w, ran, stopState := w, [], 0;
    }

    // shell_stopped()
    method Stopped(stop: nat) returns (stopped: bool)
      modifies this`stopState
      ensures stopped == (old(stopState) >= stop)
      ensures stopState == if old(stopState) <= stop then 0 else old(stopState)
    {
      stopped := stopState >= stop;
      if stopState <= stop {
        stopState := 0;
      }
    }

    // expand_tokens() and execv()
    method Execute(words: Argv, ghost status: int) returns (rc: int, ok: bool)
      modifies this
      ensures ok ==>
                Checked(State(ran, rc, stopState, false)) == Run(w, State(old(ran), status, old(stopState), false), words)
      ensures !ok ==>
                State(ran, rc, stopState, true) == Run(w, State(old(ran), status, old(stopState), false), words)
    {
      if words == [] {
        return 0, true;
      }
      var argv := w.expand(ran, words);
      if argv.None? {
        return ENOMEM, false;
      }
      var o := w.exec(ran, argv.value);
      ran := ran + [argv.value];
      if o.stop.Some? {
        stopState := o.stop.value;
      }
      return o.rc, true;
    }

    // The commands of system(), once the line has been split into words
    method Process(words: Argv) returns (rc: int)
      modifies this
      ensures var s := Eval(w, State(old(ran), 0, old(stopState), false), Parsed(words[..Live(words)]));
              ran == s.ran && rc == s.rc && stopState == s.stop
    {
      hide Live, Parsed, Run, IsOp, Eval;
      ghost var begin := State(ran, 0, stopState, false);
      ghost var live := words[..Live(words)];
      assert live[..|live|] == live;
      var start, process := 0, true;
      rc := 0;
      while true
        invariant 0 <= start <= Live(words)
        invariant start == 0 ==> process && State(ran, rc, stopState, false) == begin
        invariant start > 0 ==>
                    && IsOp(live[start - 1]) && stopState == 0 && process == Proceeds(live[start - 1], rc)
                    && State(ran, rc, stopState, false) == Eval(w, begin, Parsed(live[..start - 1]))
        decreases Live(words) - start
      {
        var argc, next := Terminator(words, start);
        ghost var end := start + argc;
        assert words[..Live(words)][start..end] == words[start..end];
        OneMore(w, begin, live, start, end);
        if process {
          var ok;
          rc, ok := Execute(words[start..start + argc], rc);
          if !ok {
            Finished(w, begin, live, end);
            break;
          }
        }
        var stopped := Stopped(STOP_COMMAND);
        if stopped {
          Finished(w, begin, live, end);
          break;
        }
        if next.None? {
          break;
        }
        process := Proceeds(next.value, rc);
        start := start + argc + 1;
      }
    }
  }

  // One more command, to the right of what has been evaluated
  lemma OneMore(w: World, s: State, words: Argv, start: int, end: int)
    requires 0 <= start <= end <= |words| && (start > 0 ==> IsOp(words[start - 1]))
    requires forall i :: start <= i < end ==> !IsOp(words[i])
    ensures var now := Eval(w, s, Parsed(words[..end]));
            if start == 0 then now == Run(w, s, words[start..end])
            else
              var before := Eval(w, s, Parsed(words[..start - 1]));
              now == if before.halted || !Proceeds(words[start - 1], before.rc) then before
                     else Run(w, before, words[start..end])
  {
    hide Parsed, Run, IsOp, Proceeds;
    var part := words[..end];
    ParsedAs(part, start - 1);
    if start > 0 {
      assert part[..start - 1] == words[..start - 1] && part[start..] == words[start..end];
    } else {
      assert part == words[start..end];
    }
  }

  lemma Finished(w: World, s: State, words: Argv, end: int)
    requires 0 <= end <= |words| && (end < |words| ==> IsOp(words[end])) && Eval(w, s, Parsed(words[..end])).halted
    ensures Eval(w, s, Parsed(words)) == Eval(w, s, Parsed(words[..end]))
  {
    hide Parsed, IsOp, Eval;
    assert words[..|words|] == words;
    if end < |words| {
      HaltedStays(w, s, words, end, |words|);
    }
  }

  // ---- What the operators mean --------------------------------------------

  // A command of at least one word, without operators
  ghost predicate Simple(words: Argv) {
    words != [] && forall i :: 0 <= i < |words| ==> !IsOp(words[i])
  }

  // A line and one more command
  lemma MoreParsed(line: Argv, op: Word, words: Argv)
    requires IsOp(op) && forall i :: 0 <= i < |words| ==> !IsOp(words[i])
    ensures Parsed(line + [op] + words) == Joined(Parsed(line), op, words)
  {
    hide IsOp, Parsed;
    var all := line + [op] + words;
    ParsedAs(all, |line|);
    assert all[..|line|] == line && all[|line| + 1..] == words;
  }

  // "line && words" runs the words if and only if the line ended with status
  // zero, "line || words" if and only if it did not, and "line ; words" always.
  lemma OperatorsMean(w: World, s: State, line: Argv, words: Argv)
    requires forall i :: 0 <= i < |words| ==> !IsOp(words[i])
    ensures var t := Eval(w, s, Parsed(line));
            && Eval(w, s, Parsed(line + [[0x26, 0x26]] + words)) ==
               (if !t.halted && t.rc == 0 then Run(w, t, words) else t)
            && Eval(w, s, Parsed(line + [[0x7c, 0x7c]] + words)) ==
               (if !t.halted && t.rc != 0 then Run(w, t, words) else t)
            && Eval(w, s, Parsed(line + [[0x3b]] + words)) ==
               (if !t.halted then Run(w, t, words) else t)
  {
    hide Parsed, Run;
    MoreParsed(line, [0x26, 0x26], words);
    MoreParsed(line, [0x7c, 0x7c], words);
    MoreParsed(line, [0x3b], words);
  }

  // A command that can be expanded is run once, and gives the status; nothing
  // after it is run if it asks for that.
  lemma CommandRuns(w: World, s: State, words: Argv, argv: Argv)
    requires Simple(words) && w.expand(s.ran, words) == Some(argv)
    ensures var t, o := Eval(w, s, Parsed(words)), w.exec(s.ran, argv);
            var stop := if o.stop.Some? then o.stop.value else s.stop;
            && t.ran == s.ran + [argv] && t.rc == o.rc
            && (t.halted <==> stop >= 1) && t.stop == if stop >= 2 then stop else 0
  {
    hide IsOp, LastOp;
    ParsedAs(words, -1);
  }

  // An empty command succeeds; one that cannot be expanded ends the line.
  lemma NothingRuns(w: World, s: State, words: Argv)
    requires words == [] || (Simple(words) && w.expand(s.ran, words).None?)
    ensures var t := Eval(w, s, Parsed(words));
            && t.ran == s.ran && t.rc == (if words == [] then 0 else -12)
            && (words != [] ==> t.halted && t.stop == s.stop)
  {
    hide IsOp, LastOp;
    ParsedAs(words, -1);
  }

  // Two commands that can be expanded and ask for no stop
  lemma TwoCommands(w: World, ran: seq<Argv>, a: Argv, b: Argv, x: Argv, y: Argv, rc: int, rc': int)
    requires Simple(a) && Simple(b)
    requires w.expand(ran, a) == Some(x) && w.exec(ran, x) == Outcome(rc, None)
    requires w.expand(ran + [x], b) == Some(y) && w.exec(ran + [x], y) == Outcome(rc', None)
    ensures var s := State(ran, 0, 0, false);
            var and := Eval(w, s, Parsed(a + [[0x26, 0x26]] + b));
            var or := Eval(w, s, Parsed(a + [[0x7c, 0x7c]] + b));
            var both := Eval(w, s, Parsed(a + [[0x3b]] + b));
            && (if rc == 0 then and.ran == ran + [x, y] && and.rc == rc' else and.ran == ran + [x] && and.rc == rc)
            && (if rc != 0 then or.ran == ran + [x, y] && or.rc == rc' else or.ran == ran + [x] && or.rc == rc)
            && both.ran == ran + [x, y] && both.rc == rc'
  {
    hide Parsed, IsOp, Eval;
    var s := State(ran, 0, 0, false);
    CommandRuns(w, s, a, x);
    OperatorsMean(w, s, a, b);
    assert ran + [x] + [y] == ran + [x, y];
  }

  // A word that begins with '#' ends the line.
  lemma {:induction false} CommentEnds(a: Argv, word: Word, b: Argv)
    requires word != [] && word[0] == 0x23 && forall i :: 0 <= i < |a| ==> a[i] == [] || a[i][0] != 0x23
    ensures Live(a + [word] + b) == |a|
    decreases |a|
  {
    var all := a + [word] + b;
    if a == [] {
      assert all[0] == word;
    } else {
      assert all[0] == a[0] && all[1..] == a[1..] + [word] + b;
      CommentEnds(a[1..], word, b);
    }
  }
}
