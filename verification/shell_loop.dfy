/**
  The read-eval loop of the shell (`main` in myshell.c).

  Each iteration reads one line with `fgets` into a buffer of MAXLINE + 2
  characters, gives up when the buffer holds no newline, skips a line with
  too many words or with nothing left after redirection, and otherwise runs
  the command. The input is the sequence of characters still to be read, so
  end of input is the empty sequence.
*/
module ShellLoop {
  import opened Wrappers
  import opened Tokenizer
  import opened Redirect
  import opened Dispatch

  /** The longest command line, newline not counted. */
  const MAXLINE: nat := 1000

  /** The characters `fgets(buf, MAXLINE + 2, stdin)` stores at most, its
      terminating NUL not counted. */
  const READMAX: nat := MAXLINE + 1

  /** How many characters `fgets` takes from `input` with room for `room`:
      up to and including the first newline, at most `room`, at most all. */
  function FgetsLength(input: seq<char>, room: nat): (n: nat)
    ensures n <= |input| && n <= room
    ensures input != [] && room > 0 ==> n > 0
    ensures forall i :: 0 <= i < n - 1 ==> input[i] != '\n'
    ensures 0 < n && input[n - 1] != '\n' ==> n == room || n == |input|
  {
    if input == [] || room == 0 then 0
    else if input[0] == '\n' then 1
    else 1 + FgetsLength(input[1..], room - 1)
  }

  /** `fgets` on the shell's input: None at end of input, otherwise the
      characters it stored and the input left after them. */
  function ReadLine(input: seq<char>): (r: (Option<seq<char>>, seq<char>))
    ensures r.0 == None <==> input == []
    ensures r.0 == None ==> r.1 == input
    ensures r.0.Some? ==>
      var line := r.0.value;
      && line + r.1 == input
      && 0 < |line| <= READMAX
      && (forall i :: 0 <= i < |line| - 1 ==> line[i] != '\n')
      && (line[|line| - 1] == '\n' || |line| == READMAX || r.1 == [])
  {
    if input == [] then (None, input)
    else
      var n := FgetsLength(input, READMAX);
      assert input[..n] + input[n..] == input;
      (Some(input[..n]), input[n..])
  }

  /** What one iteration of the loop does with what `fgets` returned. */
  datatype Action =
    | Exit(status: int)       // leave the loop: 0 at end of input, 1 for an overlong line
    | Skip(tooMany: bool)     // next prompt; `tooMany` when the line had too many words
    | Run(cmd: Command)       // run the command, then the next prompt

  /** The decisions of one iteration of `main`. */
  function Classify(read: Option<seq<char>>): (a: Action)
    ensures a == Exit(0) <==> read == None
    ensures a == Exit(1) <==> read.Some? && '\n' !in CStr(read.value)
    ensures a.Exit? ==> a.status == 0 || a.status == 1
    ensures a == Skip(true) <==> read.Some? && '\n' in CStr(read.value) && |Words(CStr(read.value))| > MAXARGS
    ensures a == Skip(false) <==>
      && read.Some? && '\n' in CStr(read.value)
      && |Words(CStr(read.value))| <= MAXARGS
      && FindRedirect(Words(CStr(read.value))).cleaned == []
    ensures a.Run? <==>
      && read.Some? && '\n' in CStr(read.value)
      && |Words(CStr(read.value))| <= MAXARGS
      && FindRedirect(Words(CStr(read.value))).cleaned != []
    ensures a.Run? ==> a.cmd == Choose(FindRedirect(Words(CStr(read.value))))
  {
    match read
    case None => Exit(0)
    case Some(buf) =>
      if '\n' !in CStr(buf) then Exit(1)
      else if |Words(CStr(buf))| > MAXARGS then Skip(true)
      else
        var r := FindRedirect(Words(CStr(buf)));
        if r.cleaned == [] then Skip(false) else Run(Choose(r))
  }

  /** A command `Classify` chooses is never empty, never longer than MAXARGS
      words, holds no operator, and keeps the line's words in order. */
  lemma RunCommandShape(read: Option<seq<char>>)
    requires Classify(read).Run?
    ensures
      var argv := match Classify(read).cmd
        case Internal(_, argv) => argv
        case External(job) => job.argv;
      && 0 < |argv| <= MAXARGS
      && OperatorFree(argv)
      && IsSubsequence(argv, Words(CStr(read.value)))
  {
    CleanedIsSubsequence(Words(CStr(read.value)));
  }

  /** The per-line code of `main` as written: `parse` into the buffer, read
      the words back through the recorded pointers, `findRedirect`, and
      `execute` when a word is left. It decides exactly as `Classify` does. */
  method Iterate(read: Option<seq<char>>) returns (a: Action)
    ensures a == Classify(read)
  {
    if read == None {
      return Exit(0);
    }
    var buf := read.value;
    if '\n' !in CStr(buf) {
      return Exit(1);
    }
    var ok, buf', ptrs, _ := Parse(buf);
    if !ok {
      return Skip(true);
    }
    var args := seq(|ptrs|, k requires 0 <= k < |ptrs| => Deref(buf', ptrs[k]));
    assert args == Words(CStr(buf));
    var r := FindRedirect(args);
    if r.cleaned == [] {
      return Skip(false);
    }
    return Run(Choose(r));
  }

  /** A line of up to MAXLINE characters with no newline or NUL in it, typed
      with its newline, is read whole and is not rejected as too long. */
  lemma {:induction false} FgetsTakesLine(body: seq<char>, rest: seq<char>, room: nat)
    requires '\n' !in body && |body| < room
    ensures FgetsLength(body + "\n" + rest, room) == |body| + 1
    decreases |body|
  {
    if body == [] {
      assert (body + "\n" + rest)[0] == '\n';
    } else {
      assert (body + "\n" + rest)[1..] == body[1..] + "\n" + rest;
      FgetsTakesLine(body[1..], rest, room - 1);
    }
  }

  lemma LineAccepted(body: seq<char>, rest: seq<char>)
    requires '\n' !in body && '\0' !in body && |body| <= MAXLINE
    ensures ReadLine(body + "\n" + rest) == (Some(body + "\n"), rest)
    ensures !Classify(ReadLine(body + "\n" + rest).0).Exit?
  {
    var input := body + "\n" + rest;
    FgetsTakesLine(body, rest, READMAX);
    assert input[..|body| + 1] == body + "\n";
    assert input[|body| + 1..] == rest;
    var line := body + "\n";
    CLenUnique(line, |line|);
    assert CStr(line) == line;
    assert line[|body|] == '\n';
  }

  /** When the first READMAX characters of the input hold no newline (a line
      longer than MAXLINE, or a last line without its newline) the shell stops
      with status 1. */
  lemma LineTooLong(input: seq<char>)
    requires input != []
    requires forall i :: 0 <= i < |input| && i < READMAX ==> input[i] != '\n'
    ensures Classify(ReadLine(input).0) == Exit(1)
  {
    var line := ReadLine(input).0.value;
    assert line == input[..|line|];
    assert forall i :: 0 <= i < |line| ==> line[i] == input[i];
    assert forall i :: 0 <= i < CLen(line) ==> CStr(line)[i] == line[i];
  }

  /** `strchr` stops at the first NUL: a line with a NUL before its newline
      is taken for an overlong one and ends the shell with status 1. */
  lemma NulHidesNewline(before: seq<char>, after: seq<char>)
    requires '\n' !in before
    ensures Classify(Some(before + "\0" + after)) == Exit(1)
  {
    var line := before + "\0" + after;
    var n := CLen(line);
    assert line[|before|] == '\0';
    assert n <= |before|;
    assert forall i :: 0 <= i < n ==> CStr(line)[i] == before[i];
  }

  /** A line of whitespace only runs nothing and goes on to the next prompt. */
  lemma BlankLineSkipped(line: seq<char>)
    requires '\n' in CStr(line)
    requires forall i :: 0 <= i < |CStr(line)| ==> IsSpace(CStr(line)[i])
    ensures Classify(Some(line)) == Skip(false)
  {
    BlankHasNoWords(CStr(line));
  }

  /** A typed line of words `ws` and its newline: with at most MAXARGS words
      its command runs (or it is skipped when only redirections remain), with
      more it is skipped as having too many words. */
  lemma WordCountDecides(ws: seq<string>)
    requires forall k :: 0 <= k < |ws| ==> IsWord(ws[k]) && '\0' !in ws[k]
    ensures |ws| > MAXARGS <==> Classify(Some(Unwords(ws) + "\n")) == Skip(true)
    ensures |ws| <= MAXARGS && FindRedirect(ws).cleaned != [] ==>
      Classify(Some(Unwords(ws) + "\n")) == Run(Choose(FindRedirect(ws)))
  {
    var line := Unwords(ws) + "\n";
    TypedLineWords(ws);
    assert line[|line| - 1] == '\n';
    assert '\n' in CStr(line);
  }

  /** One iteration as the loop records it: the line read, what was decided,
      and what running the command did. */
  datatype Step = Step(line: seq<char>, action: Action, outcome: Option<Outcome>)

  /** A whole session: the exit status of `main`, the shell state at exit, and
      the iterations that ran a command or skipped a line. */
  datatype Session = Session(status: int, shell: Shell, steps: seq<Step>)

  /** Carry out an action that does not end the loop: a skipped line leaves
      the shell as it is, a command runs once. */
  function Perform(a: Action, sh: Shell, k: Kernel): (r: (Shell, Option<Outcome>))
    requires a.Skip? || (a.Run? && (a.cmd.Internal? ==> |a.cmd.argv| >= 1))
    ensures a.Skip? ==> r == (sh, None)
    ensures a.Run? ==> r == (Execute(a.cmd, sh, k).0, Some(Execute(a.cmd, sh, k).1))
  {
    match a
    case Skip(_) => (sh, None)
    case Run(cmd) =>
      var (sh', out) := Execute(cmd, sh, k);
      (sh', Some(out))
  }

  /** The loop of `main` on the whole input. Every iteration that does not
      exit consumes at least one character, so the loop ends, with status 0
      or 1, after at most one iteration per character. */
  function RunShell(input: seq<char>, sh: Shell, k: Kernel): (s: Session)
    ensures s.status == 0 || s.status == 1
    ensures |s.steps| <= |input|
    ensures forall i :: 0 <= i < |s.steps| ==> Continued(s.steps[i])
    ensures Threaded(s.steps, sh, k) && s.shell == After(s.steps, sh, k)
    ensures Lines(s.steps) <= input
    ensures s.status == 0 <==> Lines(s.steps) == input
    ensures Reads(s.steps, input)
    ensures Classify(ReadLine(input[|Lines(s.steps)|..]).0) == Exit(s.status)
    ensures !Classify(ReadLine(input).0).Exit? ==> |s.steps| > 0 && s.steps[0].line == ReadLine(input).0.value
    decreases |input|
  {
    var r := ReadLine(input);
    var a := Classify(r.0);
    if a.Exit? then Session(a.status, sh, [])
    else
      var next := Perform(a, sh, k);
      var s := RunShell(r.1, next.0, k);
      var step := Step(r.0.value, a, next.1);
      ContinuedCons(step, s.steps);
      ThreadedCons(step, s.steps, sh, k);
      Advance(input, step, s.steps, r.1);
      ReadsCons(step, s.steps, input);
      Session(s.status, s.shell, [step] + s.steps)
  }

  /** An iteration the loop continued after: its action is what `Classify`
      decides for the line it read, not an exit, and it has an outcome
      exactly when it ran a command. */
  predicate Continued(step: Step) {
    && step.action == Classify(Some(step.line))
    && !step.action.Exit?
    && (step.outcome.Some? <==> step.action.Run?)
  }

  lemma ContinuedCons(step: Step, steps: seq<Step>)
    requires Continued(step) && forall i :: 0 <= i < |steps| ==> Continued(steps[i])
    ensures forall i :: 0 <= i < |[step] + steps| ==> Continued(([step] + steps)[i])
  {
  }

  /** The recorded iterations, started in state `sh`, each ran in the state
      the one before it left: its outcome is what carrying out its action in
      that state gives, and the next one starts from the state it leaves. */
  predicate Threaded(steps: seq<Step>, sh: Shell, k: Kernel)
    decreases |steps|
  {
    steps == [] ||
      (Continued(steps[0]) &&
       var next := Perform(steps[0].action, sh, k);
       steps[0].outcome == next.1 && Threaded(steps[1..], next.0, k))
  }

  /** The state the threaded iterations leave the shell in. */
  function After(steps: seq<Step>, sh: Shell, k: Kernel): Shell
    requires Threaded(steps, sh, k)
    decreases |steps|
  {
    if steps == [] then sh else After(steps[1..], Perform(steps[0].action, sh, k).0, k)
  }

  lemma ThreadedCons(step: Step, steps: seq<Step>, sh: Shell, k: Kernel)
    requires Continued(step)
    requires Threaded(steps, Perform(step.action, sh, k).0, k)
    requires step.outcome == Perform(step.action, sh, k).1
    ensures Threaded([step] + steps, sh, k)
    ensures After([step] + steps, sh, k) == After(steps, Perform(step.action, sh, k).0, k)
  {
    assert ([step] + steps)[1..] == steps;
  }

  /** Threading splits at any point: the first `i` iterations are threaded
      from `sh`, the rest from the state they leave, and the final state is
      reached through that intermediate one. */
  lemma {:induction false} ThreadedSplit(steps: seq<Step>, sh: Shell, k: Kernel, i: nat)
    requires Threaded(steps, sh, k) && i <= |steps|
    ensures Threaded(steps[..i], sh, k)
    ensures Threaded(steps[i..], After(steps[..i], sh, k), k)
    ensures After(steps, sh, k) == After(steps[i..], After(steps[..i], sh, k), k)
    decreases i
  {
    if i == 0 {
      assert steps[..0] == [] && steps[0..] == steps;
    } else {
      var sh1 := Perform(steps[0].action, sh, k).0;
      ThreadedSplit(steps[1..], sh1, k, i - 1);
      SplitShift(steps, i);
      ThreadedStepBack(steps[..i], steps[1..][..i - 1], sh, k);
    }
  }

  lemma SplitShift(steps: seq<Step>, i: nat)
    requires 0 < i <= |steps|
    ensures steps[..i][0] == steps[0] && steps[..i][1..] == steps[1..][..i - 1]
    ensures steps[i..] == steps[1..][i - 1..]
  {
  }

  /** A non-empty threaded run is its first iteration and the threaded rest. */
  lemma ThreadedStepBack(steps: seq<Step>, rest: seq<Step>, sh: Shell, k: Kernel)
    requires steps != [] && steps[1..] == rest
    requires Continued(steps[0])
    requires steps[0].outcome == Perform(steps[0].action, sh, k).1
    requires Threaded(rest, Perform(steps[0].action, sh, k).0, k)
    ensures Threaded(steps, sh, k)
    ensures After(steps, sh, k) == After(rest, Perform(steps[0].action, sh, k).0, k)
  {
  }

  /** Iteration `i` ran its action in the state the iterations before it
      left: its outcome is what `Perform` gives there. In particular a
      built-in's effect reaches every later iteration. */
  lemma StepOutcome(steps: seq<Step>, sh: Shell, k: Kernel, i: nat)
    requires Threaded(steps, sh, k) && i < |steps|
    ensures Threaded(steps[..i], sh, k) && Continued(steps[i])
    ensures steps[i].outcome == Perform(steps[i].action, After(steps[..i], sh, k), k).1
    ensures Threaded(steps[..i + 1], sh, k)
    ensures After(steps[..i + 1], sh, k) == Perform(steps[i].action, After(steps[..i], sh, k), k).0
  {
    ThreadedSplit(steps, sh, k, i);
    ThreadedSplit(steps, sh, k, i + 1);
    var mid := After(steps[..i], sh, k);
    assert steps[i..][0] == steps[i];
    ThreadedSplit(steps[..i + 1], sh, k, i);
    assert steps[..i + 1][..i] == steps[..i];
    assert steps[..i + 1][i..] == [steps[i]];
  }

  /** The recorded iterations are the successive reads of `fgets` on `input`:
      each one's line is what the next read returns. */
  predicate Reads(steps: seq<Step>, input: seq<char>)
    decreases |steps|
  {
    steps == [] ||
      (ReadLine(input).0 == Some(steps[0].line) && Reads(steps[1..], ReadLine(input).1))
  }

  lemma ReadsCons(step: Step, steps: seq<Step>, input: seq<char>)
    requires ReadLine(input).0 == Some(step.line) && Reads(steps, ReadLine(input).1)
    ensures Reads([step] + steps, input)
  {
    assert ([step] + steps)[1..] == steps;
  }

  /** One more line in front of the later ones: what they consumed of the
      rest of the input, the whole line added consumes of the whole input. */
  lemma Advance(input: seq<char>, step: Step, steps: seq<Step>, rest: seq<char>)
    requires step.line + rest == input && Lines(steps) <= rest
    ensures Lines([step] + steps) <= input
    ensures Lines([step] + steps) == input <==> Lines(steps) == rest
    ensures input[|Lines([step] + steps)|..] == rest[|Lines(steps)|..]
  {
    LinesCons(step, steps);
    PrefixCons(step.line, Lines(steps), rest);
  }

  /** The characters the recorded iterations read, in order. */
  function Lines(steps: seq<Step>): seq<char> {
    if steps == [] then [] else steps[0].line + Lines(steps[1..])
  }

  lemma LinesCons(step: Step, steps: seq<Step>)
    ensures Lines([step] + steps) == step.line + Lines(steps)
  {
    assert ([step] + steps)[1..] == steps;
  }

  /** A prefix stays a prefix, and a proper one stays proper, behind the same
      first part. */
  lemma PrefixCons(line: seq<char>, a: seq<char>, b: seq<char>)
    requires a <= b
    ensures line + a <= line + b
    ensures line + a == line + b <==> a == b
  {
    assert (line + b)[..|line + a|] == line + a;
    if line + a == line + b {
      assert a == (line + a)[|line|..];
    }
  }

  /** Lines typed one after another, each followed by its newline. */
  function Typed(lines: seq<seq<char>>): seq<char> {
    if lines == [] then [] else lines[0] + "\n" + Typed(lines[1..])
  }

  predicate GoodLine(body: seq<char>) {
    '\n' !in body && '\0' !in body && |body| <= MAXLINE
  }

  /** A session of well-formed lines ends at end of input with status 0, after
      exactly one iteration per line, the i-th of which handles the i-th line
      and runs at most one command. */
  lemma {:induction false} GoodSession(lines: seq<seq<char>>, sh: Shell, k: Kernel)
    requires forall i :: 0 <= i < |lines| ==> GoodLine(lines[i])
    ensures RunShell(Typed(lines), sh, k).status == 0
    ensures |RunShell(Typed(lines), sh, k).steps| == |lines|
    ensures forall i :: 0 <= i < |lines| ==> RunShell(Typed(lines), sh, k).steps[i].line == lines[i] + "\n"
    decreases |lines|
  {
    if lines == [] {
      assert ReadLine(Typed(lines)).0 == None;
    } else {
      var sh' := GoodLineStep(lines, sh, k);
      GoodSession(lines[1..], sh', k);
      StepsFollowLines(lines, RunShell(Typed(lines), sh, k).steps, RunShell(Typed(lines[1..]), sh', k).steps);
    }
  }

  /** A step for the first line in front of one step per later line is one
      step per line. */
  lemma StepsFollowLines(lines: seq<seq<char>>, steps: seq<Step>, later: seq<Step>)
    requires |lines| > 0 && |steps| == |later| + 1
    requires steps[0].line == lines[0] + "\n" && steps[1..] == later
    requires |later| == |lines| - 1
    requires forall i :: 0 <= i < |later| ==> later[i].line == lines[1..][i] + "\n"
    ensures forall i :: 0 <= i < |lines| ==> steps[i].line == lines[i] + "\n"
  {
    forall i | 0 <= i < |lines|
      ensures steps[i].line == lines[i] + "\n"
    {
      if i > 0 {
        assert steps[i] == later[i - 1];
      }
    }
  }

  /** The first of several well-formed lines is read whole and handled in one
      iteration, which continues with the other lines in state `sh'`. */
  lemma GoodLineStep(lines: seq<seq<char>>, sh: Shell, k: Kernel) returns (sh': Shell)
    requires |lines| > 0 && GoodLine(lines[0])
    ensures
      var s' := RunShell(Typed(lines[1..]), sh', k);
      var s := RunShell(Typed(lines), sh, k);
      && s.status == s'.status
      && |s.steps| == |s'.steps| + 1
      && s.steps[0].line == lines[0] + "\n"
      && s.steps[1..] == s'.steps
  {
    var rest := Typed(lines[1..]);
    var input := Typed(lines);
    assert input == lines[0] + "\n" + rest;
    LineAccepted(lines[0], rest);
    sh' := Perform(Classify(Some(lines[0] + "\n")), sh, k).0;
    RunShellContinues(input, sh, k);
  }

  /** Well-formed lines in front of any further input are handled one
      iteration each; then the loop goes on with that input and ends with
      the status it gives on that input alone. */
  lemma {:induction false} GoodLinesThen(lines: seq<seq<char>>, tail: seq<char>, sh: Shell, k: Kernel) returns (sh': Shell)
    requires forall i :: 0 <= i < |lines| ==> GoodLine(lines[i])
    ensures RunShell(Typed(lines) + tail, sh, k).status == RunShell(tail, sh', k).status
    ensures |RunShell(Typed(lines) + tail, sh, k).steps| == |lines| + |RunShell(tail, sh', k).steps|
    decreases |lines|
  {
    if lines == [] {
      assert Typed(lines) + tail == tail;
      sh' := sh;
    } else {
      var rest := Typed(lines[1..]) + tail;
      TypedCons(lines, tail);
      var sh1 := GoodLineThen(lines[0], rest, sh, k);
      sh' := GoodLinesThen(lines[1..], tail, sh1, k);
    }
  }

  lemma TypedCons(lines: seq<seq<char>>, tail: seq<char>)
    requires lines != []
    ensures Typed(lines) + tail == lines[0] + "\n" + (Typed(lines[1..]) + tail)
  {
  }

  /** A well-formed line in front of any further input is handled in one
      iteration, after which the loop goes on with that input. */
  lemma GoodLineThen(body: seq<char>, rest: seq<char>, sh: Shell, k: Kernel) returns (sh1: Shell)
    requires GoodLine(body)
    ensures RunShell(body + "\n" + rest, sh, k).status == RunShell(rest, sh1, k).status
    ensures |RunShell(body + "\n" + rest, sh, k).steps| == 1 + |RunShell(rest, sh1, k).steps|
  {
    LineAccepted(body, rest);
    sh1 := Perform(Classify(Some(body + "\n")), sh, k).0;
    RunShellContinues(body + "\n" + rest, sh, k);
  }

  /** Well-formed lines followed by a line with no newline within the first
      READMAX characters (too long, or the last line of the input without its
      newline): every good line is handled, then the shell exits with status 1. */
  lemma UnterminatedLineEnds(lines: seq<seq<char>>, tail: seq<char>, sh: Shell, k: Kernel)
    requires forall i :: 0 <= i < |lines| ==> GoodLine(lines[i])
    requires tail != [] && forall i :: 0 <= i < |tail| && i < READMAX ==> tail[i] != '\n'
    ensures RunShell(Typed(lines) + tail, sh, k).status == 1
    ensures |RunShell(Typed(lines) + tail, sh, k).steps| == |lines|
  {
    var sh' := GoodLinesThen(lines, tail, sh, k);
    LineTooLong(tail);
  }

  /** One turn of the loop: an iteration that does not exit records its step
      and hands the rest of the input and the new state to the next one. */
  lemma RunShellContinues(input: seq<char>, sh: Shell, k: Kernel)
    requires ReadLine(input).0.Some? && !Classify(ReadLine(input).0).Exit?
    ensures
      var r := ReadLine(input);
      var a := Classify(r.0);
      var next := Perform(a, sh, k);
      var s := RunShell(r.1, next.0, k);
      RunShell(input, sh, k) == Session(s.status, s.shell, [Step(r.0.value, a, next.1)] + s.steps)
  {
  }

  /** A line typed as the words `ws` is well-formed when it fits. */
  lemma TypedLineIsGood(ws: seq<string>)
    requires forall k :: 0 <= k < |ws| ==> IsWord(ws[k]) && '\0' !in ws[k]
    requires |Unwords(ws)| <= MAXLINE
    ensures GoodLine(Unwords(ws))
  {
    UnwordsHasNoNul(ws);
    UnwordsHasNoNewline(ws);
  }

  /** `setenv NAME VALUE` typed on one line and a program name on the next:
      the built-in runs in the shell itself, so the child of the second line
      starts with NAME bound to VALUE. */
  lemma SetenvThenCommand(name: string, value: string, prog: string, sh: Shell, k: Kernel)
    requires IsWord(name) && IsWord(value) && IsWord(prog)
    requires '\0' !in name && '\0' !in value && '\0' !in prog
    requires !IsOperator(name) && !IsOperator(value) && !IsOperator(prog)
    requires Lookup(prog).None?
    requires |name| + |value| <= 900 && |prog| < MAXLINE
    requires k.setenv(name, value)
    ensures
      var s := RunShell(Typed([Unwords(["setenv", name, value]), Unwords([prog])]), sh, k);
      && s.status == 0 && |s.steps| == 2
      && s.steps[1].outcome.Some? && s.steps[1].outcome.value.Forked?
      && name in s.steps[1].outcome.value.child.env
      && s.steps[1].outcome.value.child.env[name] == value
  {
    var w1 := ["setenv", name, value];
    var w2 := [prog];
    var lines := [Unwords(w1), Unwords(w2)];
    assert [value][1..] == [] && [name, value][1..] == [value] && w1[1..] == [name, value];
    assert Unwords([value]) == value + [' '];
    assert Unwords([name, value]) == name + [' '] + Unwords([value]);
    assert Unwords(w1) == "setenv" + [' '] + Unwords([name, value]);
    assert w2[1..] == [];
    assert Unwords(w2) == prog + [' '];
    assert IsWord("setenv");
    TypedLineIsGood(w1);
    TypedLineIsGood(w2);
    GoodSession(lines, sh, k);
    var s := RunShell(Typed(lines), sh, k);
    assert s.steps[0].line == Unwords(w1) + "\n";
    assert s.steps[1].line == Unwords(w2) + "\n";
    SetenvLine(name, value);
    CommandLine(prog);
    SetenvThenFork(s.steps, sh, k, name, value, prog);
  }

  /** Two threaded iterations, `setenv NAME VALUE` and then an external
      program: the program's child sees NAME bound to VALUE. */
  lemma SetenvThenFork(steps: seq<Step>, sh: Shell, k: Kernel, name: string, value: string, prog: string)
    requires Threaded(steps, sh, k) && |steps| == 2
    requires steps[0].action == Run(Internal(Setenv, ["setenv", name, value]))
    requires steps[1].action == Run(External(Job([prog], None, None)))
    requires k.setenv(name, value)
    ensures steps[1].outcome.Some? && steps[1].outcome.value.Forked?
    ensures name in steps[1].outcome.value.child.env && steps[1].outcome.value.child.env[name] == value
  {
    StepOutcome(steps, sh, k, 0);
    StepOutcome(steps, sh, k, 1);
    assert steps[..0] == [];
    assert steps[..1][..0] == [];
  }

  /** The line `setenv NAME VALUE` runs the `setenv` built-in on those words. */
  lemma SetenvLine(name: string, value: string)
    requires IsWord(name) && IsWord(value) && '\0' !in name && '\0' !in value
    requires !IsOperator(name) && !IsOperator(value)
    ensures Classify(Some(Unwords(["setenv", name, value]) + "\n")) == Run(Internal(Setenv, ["setenv", name, value]))
  {
    var ws := ["setenv", name, value];
    assert IsWord("setenv");
    WordCountDecides(ws);
    OperatorFreeUnchanged(ws);
  }

  /** A line holding one program name forks that program with no redirection. */
  lemma CommandLine(prog: string)
    requires IsWord(prog) && '\0' !in prog && !IsOperator(prog) && Lookup(prog).None?
    ensures Classify(Some(Unwords([prog]) + "\n")) == Run(External(Job([prog], None, None)))
  {
    WordCountDecides([prog]);
    OperatorFreeUnchanged([prog]);
  }
}
