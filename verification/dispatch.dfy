/**
  Command dispatch of the shell (`execute`, `cdCom`, `setenvCom`,
  `unsetenvCom` and what `externalCom` hands to the child in myshell.c).

  A command whose first word is exactly `cd`, `setenv` or `unsetenv` runs in
  the shell itself, because its effect has to outlive the command; anything
  else is an external program run in a child process. The shell state a
  built-in changes is the working directory and the environment; the
  operating system's answer to the one call a built-in makes is a parameter.
*/
module Dispatch {
  import opened Wrappers
  import opened Redirect

  datatype Builtin = Cd | Setenv | Unsetenv

  /** The word that names a built-in. */
  function Name(b: Builtin): string {
    match b
    case Cd => "cd"
    case Setenv => "setenv"
    case Unsetenv => "unsetenv"
  }

  /** The comparisons of `execute`: exact match on the command word. */
  function Lookup(word: string): (b: Option<Builtin>)
    ensures b.Some? ==> Name(b.value) == word
  {
    if word == "cd" then Some(Cd)
    else if word == "setenv" then Some(Setenv)
    else if word == "unsetenv" then Some(Unsetenv)
    else None
  }

  /** `Lookup` recognises exactly the three names and nothing else. */
  lemma LookupExact(word: string)
    ensures (forall b :: Lookup(Name(b)) == Some(b))
    ensures Lookup(word).None? <==> word != "cd" && word != "setenv" && word != "unsetenv"
  {
  }

  /** The number of operands each built-in takes after its name. */
  function Arity(b: Builtin): nat {
    match b
    case Cd => 1
    case Setenv => 2
    case Unsetenv => 1
  }

  /** `args[i]` of the NULL-terminated vector `argv`. */
  function Arg(argv: seq<string>, i: nat): Option<string> {
    if i < |argv| then Some(argv[i]) else None
  }

  /** The argument check each built-in makes before acting, as written: the
      operands it needs are there and the slot after them is NULL. */
  predicate ArgsOk(b: Builtin, argv: seq<string>)
    ensures ArgsOk(b, argv) ==> |argv| == Arity(b) + 1
  {
    match b
    case Cd => !(Arg(argv, 1) == None || Arg(argv, 2) != None)
    case Setenv => !(Arg(argv, 1) == None || Arg(argv, 2) == None || Arg(argv, 3) != None)
    case Unsetenv => !(Arg(argv, 1) == None || Arg(argv, 2) != None)
  }

  /** The checks accept exactly the vectors with the built-in's name plus its
      operands: one for `cd` and `unsetenv`, two for `setenv`. */
  lemma ArgsOkIsArity(b: Builtin, argv: seq<string>)
    requires |argv| >= 1
    ensures ArgsOk(b, argv) <==> |argv| == Arity(b) + 1
  {
  }

  /** The part of the shell's process state the built-ins change. */
  datatype Shell = Shell(cwd: string, env: map<string, string>)

  /** The operating system's answers: `chdir(cwd, dir)` is the new working
      directory or None when the call fails; `setenv` and `unsetenv` say
      whether the call succeeds. */
  datatype Kernel = Kernel(
    chdir: (string, string) -> Option<string>,
    setenv: (string, string) -> bool,
    unsetenv: string -> bool)

  /** What a built-in writes to the error stream: the usage line of the
      built-in, the `perror` line for a failed call on the operand, or nothing. */
  datatype Report = Usage(of: Builtin) | Perror(operand: string) | Quiet

  /** `cdCom`, `setenvCom` and `unsetenvCom`. A wrong operand count prints the
      usage line and changes nothing; a failed call prints the operand and
      changes nothing; a successful call changes only what it names. */
  function RunBuiltin(b: Builtin, argv: seq<string>, sh: Shell, k: Kernel): (r: (Shell, Report))
    requires |argv| >= 1
    ensures !ArgsOk(b, argv) ==> r == (sh, Usage(b))
    ensures ArgsOk(b, argv) ==> r.1 == Quiet || r.1 == Perror(argv[1])
    ensures ArgsOk(b, argv) ==>
      (r.1 == Quiet <==> match b
        case Cd => k.chdir(sh.cwd, argv[1]).Some?
        case Setenv => k.setenv(argv[1], argv[2])
        case Unsetenv => k.unsetenv(argv[1]))
    ensures r.1 != Quiet ==> r.0 == sh
    ensures b == Cd && r.1 == Quiet ==>
      && r.0.env == sh.env
      && k.chdir(sh.cwd, argv[1]) == Some(r.0.cwd)
    ensures b == Setenv && r.1 == Quiet ==>
      && r.0.cwd == sh.cwd
      && argv[1] in r.0.env && r.0.env[argv[1]] == argv[2]
      && (forall v :: v != argv[1] ==> (v in r.0.env <==> v in sh.env))
      && (forall v :: v != argv[1] && v in sh.env ==> r.0.env[v] == sh.env[v])
    ensures b == Unsetenv && r.1 == Quiet ==>
      && r.0.cwd == sh.cwd
      && argv[1] !in r.0.env
      && (forall v :: v != argv[1] ==> (v in r.0.env <==> v in sh.env))
      && (forall v :: v != argv[1] && v in sh.env ==> r.0.env[v] == sh.env[v])
  {
    if !ArgsOk(b, argv) then (sh, Usage(b))
    else match b
      case Cd =>
        (match k.chdir(sh.cwd, argv[1])
         case Some(dir) => (sh.(cwd := dir), Quiet)
         case None => (sh, Perror(argv[1])))
      case Setenv =>
        if k.setenv(argv[1], argv[2]) then (sh.(env := sh.env[argv[1] := argv[2]]), Quiet)
        else (sh, Perror(argv[1]))
      case Unsetenv =>
        if k.unsetenv(argv[1]) then (sh.(env := sh.env - {argv[1]}), Quiet)
        else (sh, Perror(argv[1]))
  }

  /** A wrong operand count never changes the shell, for every built-in and
      whatever the operating system would have answered. */
  lemma UsageChangesNothing(b: Builtin, argv: seq<string>, sh: Shell, k: Kernel)
    requires |argv| >= 1 && |argv| != Arity(b) + 1
    ensures RunBuiltin(b, argv, sh, k) == (sh, Usage(b))
  {
    ArgsOkIsArity(b, argv);
  }

  /** How the child opens a redirection target. */
  datatype OpenMode = ReadOnly | WriteCreateTruncate

  /** One `redirect(fd, path, flags)` call of the child: open `path`, put it
      on descriptor `fd`, close the temporary descriptor. */
  datatype Binding = Binding(fd: nat, path: string, mode: OpenMode, perm: nat)

  const STDIN_FILENO: nat := 0
  const STDOUT_FILENO: nat := 1
  /** The creation permission passed to `open`, octal 0666. */
  const CREATE_PERM: nat := 438

  /** An external command: the program and its vector, with the targets
      `findRedirect` found. */
  datatype Job = Job(argv: seq<string>, inFile: Option<string>, outFile: Option<string>)

  /** The redirections the child makes before `execvp`, in the order it makes
      them: standard input from the input file, then standard output to the
      output file, created if missing and truncated if present. */
  function Bindings(job: Job): (bs: seq<Binding>)
    ensures |bs| == (if job.inFile.Some? then 1 else 0) + (if job.outFile.Some? then 1 else 0)
    ensures forall i :: 0 <= i < |bs| ==>
      (bs[i].fd == STDIN_FILENO <==> bs[i].mode == ReadOnly) && bs[i].perm == CREATE_PERM
    ensures forall i, j :: 0 <= i < j < |bs| ==> bs[i].fd == STDIN_FILENO && bs[j].fd == STDOUT_FILENO
    ensures job.inFile.Some? ==> bs[0] == Binding(STDIN_FILENO, job.inFile.value, ReadOnly, CREATE_PERM)
    ensures job.outFile.Some? ==> bs[|bs| - 1] == Binding(STDOUT_FILENO, job.outFile.value, WriteCreateTruncate, CREATE_PERM)
  {
    (match job.inFile
     case Some(p) => [Binding(STDIN_FILENO, p, ReadOnly, CREATE_PERM)]
     case None => [])
    +
    (match job.outFile
     case Some(p) => [Binding(STDOUT_FILENO, p, WriteCreateTruncate, CREATE_PERM)]
     case None => [])
  }

  /** The command a non-empty cleaned vector stands for. */
  datatype Command = Internal(b: Builtin, argv: seq<string>) | External(job: Job)

  /** The choice `execute` makes. A built-in ignores the redirection targets;
      an external command gets the whole cleaned vector and both targets. */
  function Choose(r: Redirection): (c: Command)
    requires r.cleaned != []
    ensures c.Internal? <==> Lookup(r.cleaned[0]).Some?
    ensures c.Internal? ==> c.argv == r.cleaned && Name(c.b) == r.cleaned[0]
    ensures c.External? ==> c.job == Job(r.cleaned, r.inFile, r.outFile)
  {
    match Lookup(r.cleaned[0])
    case Some(b) => Internal(b, r.cleaned)
    case None => External(Job(r.cleaned, r.inFile, r.outFile))
  }

  /** What the child starts from: the job, the redirections it makes before
      `execvp`, and the snapshot of the shell's working directory and
      environment it inherits at `fork`. */
  datatype Child = Child(job: Job, bindings: seq<Binding>, cwd: string, env: map<string, string>)

  /** What running a command did: a built-in and its report, or a child that
      was forked and waited for. */
  datatype Outcome = Ran(b: Builtin, report: Report) | Forked(child: Child)

  /** `execute`: built-ins run in the shell; an external command runs in a
      child that sees the shell's current state and cannot change it. */
  function Execute(c: Command, sh: Shell, k: Kernel): (r: (Shell, Outcome))
    requires c.Internal? ==> |c.argv| >= 1
    ensures c.External? ==> r.0 == sh && r.1 == Forked(Child(c.job, Bindings(c.job), sh.cwd, sh.env))
    ensures c.Internal? ==>
      var (sh', report) := RunBuiltin(c.b, c.argv, sh, k);
      r == (sh', Ran(c.b, report))
  {
    match c
    case Internal(b, argv) =>
      var (sh', report) := RunBuiltin(b, argv, sh, k);
      (sh', Ran(b, report))
    case External(job) => (sh, Forked(Child(job, Bindings(job), sh.cwd, sh.env)))
  }

  /** `setenv NAME VALUE` followed by an external command: the child's
      environment maps NAME to VALUE. `unsetenv NAME` after that: the next
      child's environment has no NAME. */
  lemma SetenvReachesChildren(name: string, value: string, job1: Job, job2: Job, sh: Shell, k: Kernel)
    requires k.setenv(name, value) && k.unsetenv(name)
    ensures
      var (sh1, _) := Execute(Internal(Setenv, ["setenv", name, value]), sh, k);
      var (sh2, out2) := Execute(External(job1), sh1, k);
      var (sh3, _) := Execute(Internal(Unsetenv, ["unsetenv", name]), sh2, k);
      var (_, out4) := Execute(External(job2), sh3, k);
      && name in out2.child.env && out2.child.env[name] == value
      && name !in out4.child.env
  {
  }
}
