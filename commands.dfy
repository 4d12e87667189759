/** The command variants of include/Command.h and what running each one does,
    with the operating system, the environment and the history file passed in
    as values: the variable expander, echo, the history listing, the external
    command with its exec-failure fallback, and the Invoker queue. */
module Commands {
  import opened Text
  import opened Constants

  /** An argument vector that has at least its program name. */
  type Argv = a: seq<string> | |a| > 0 witness [""]

  /** A parsed command line. Exit and History keep nothing; Echo keeps the
      whole token list, command name included; External keeps the token list
      and the background flag. A command never changes once built. */
  datatype Command =
    | Exit
    | History
    | Echo(args: seq<string>)
    | External(argv: Argv, background: bool)

  // ---------------------------------------------------------------- expander

  /** Command::expandVariables. The loop stops at every '$' or '}'. Its two
      substitution branches cannot be entered: `end` is the FIRST '$' or '}'
      at or after `start`, so a '$' at `start` makes `end == start`, and a '$'
      at `end - 1 >= start` would have been found before `end`. Only the
      copying branch runs, so the string comes back unchanged whatever the
      environment holds; `env` is where the two dead branches would look. */
  method ExpandVariables(str: string, env: map<string, string>) returns (result: string)
    ensures result == str
  {
    result := [];
    var start := 0;
    var found := FindFirstOf(str, ReferenceBoundaries, start);
    while found.Some?
      invariant start <= |str|
      invariant found == FindFirstOf(str, ReferenceBoundaries, start)
      invariant result == str[..start]
      decreases |str| - start
    {
      var end := found.value;
      if str[start] == '$' && end > start + 1 {
        // the bare "$NAME" substitution: unreachable
        assert false;
      } else if str[start] == '{' && end > start + 1 && str[end - 1] == '$' {
        // the "${NAME}" substitution: unreachable
        assert false;
      } else {
        result := result + str[start..end + 1];
        start := end + 1;
      }
      found := FindFirstOf(str, ReferenceBoundaries, start);
    }
    if start != |str| {
      result := result + str[start..];
    }
  }

  // -------------------------------------------------------------------- echo

  /** The words echo prints: every token after the command name. */
  function Arguments(args: seq<string>): seq<string>
  {
    if args == [] then [] else args[1..]
  }

  /** What EchoCommand::execute writes: each argument after args[0] followed
      by one space, then the newline of std::endl. */
  function EchoText(args: seq<string>): (out: string)
    ensures |out| > 0 && out[|out| - 1] == '\n'
    ensures |args| <= 1 ==> out == "\n"
  {
    Terminated(Arguments(args), ' ') + "\n"
  }

  /** EchoCommand::execute: the output loop over args[1..]. */
  method EchoOutput(args: seq<string>, env: map<string, string>) returns (out: string)
    ensures out == EchoText(args)
  {
    out := [];
    var i := 1;
    while i < |args|
      invariant |args| == 0 ==> out == []
      invariant |args| > 0 ==> i <= |args| && out == Terminated(args[1..i], ' ')
    {
      var expanded := ExpandVariables(args[i], env);
      TerminatedSnoc(args[1..i], args[i], ' ');
      assert args[1..i + 1] == args[1..i] + [args[i]];
      out := out + expanded + " ";
      i := i + 1;
    }
    assert |args| > 0 ==> args[1..i] == Arguments(args);
    out := out + "\n";
  }

  /** The command name is never printed: echo under any other name prints the same. */
  lemma EchoIgnoresName(args: seq<string>, name: string)
    requires |args| > 0
    ensures EchoText([name] + args[1..]) == EchoText(args)
  {
    assert ([name] + args[1..])[1..] == args[1..];
  }

  /** Echo's output, without its newline, splits on spaces back into the
      arguments it was given, when they are tokens (non-empty, space-free). */
  lemma EchoReprintsArguments(args: seq<string>)
    requires forall i :: 1 <= i < |args| ==> args[i] != [] && ' ' !in args[i]
    ensures var out := EchoText(args);
      Fields(out[..|out| - 1], Space) == Arguments(args)
  {
    var words := Arguments(args);
    assert forall i :: 0 <= i < |words| ==> words[i] == args[i + 1];
    FieldsOfTerminated(words, ' ');
    var out := EchoText(args);
    assert out[..|out| - 1] == Terminated(words, ' ');
  }

  // ----------------------------------------------------------------- history

  /** One line of the history listing: the 1-based number, ". ", the line. */
  function Record(number: nat, line: string): string
  {
    Decimal(number) + ". " + line
  }

  function Numbered(log: seq<string>): (records: seq<string>)
    ensures |records| == |log|
    ensures forall i :: 0 <= i < |log| ==> records[i] == Record(i + 1, log[i])
  {
    seq(|log|, i requires 0 <= i < |log| => Record(i + 1, log[i]))
  }

  /** What HistoryCommand::execute writes for the lines of the history file. */
  function HistoryText(log: seq<string>): string
  {
    Terminated(Numbered(log), '\n')
  }

  /** HistoryCommand::execute: the getline loop, with its counter starting at
      1 on every call. The log is a value, so it is only read. */
  method HistoryListing(log: seq<string>) returns (out: string)
    ensures out == HistoryText(log)
  {
    out := [];
    var count := 1;
    var i := 0;
    while i < |log|
      invariant 0 <= i <= |log| && count == i + 1
      invariant out == Terminated(Numbered(log)[..i], '\n')
    {
      TerminatedSnoc(Numbered(log)[..i], Record(count, log[i]), '\n');
      assert Numbered(log)[..i + 1] == Numbered(log)[..i] + [Record(count, log[i])];
      out := out + Decimal(count) + ". " + log[i] + "\n";
      count := count + 1;
      i := i + 1;
    }
    assert Numbered(log)[..i] == Numbered(log);
  }

  /** The listing has exactly one line per history line (lines read by
      getline hold no newline), and line i is "i. " followed by history line i. */
  lemma HistoryOneRecordPerLine(log: seq<string>)
    requires forall i :: 0 <= i < |log| ==> '\n' !in log[i]
    ensures var records := Fields(HistoryText(log), "\n");
      && |records| == |log|
      && forall i :: 0 <= i < |log| ==> records[i] == Decimal(i + 1) + ". " + log[i]
  {
    var records := Numbered(log);
    forall i | 0 <= i < |records| ensures records[i] != [] && '\n' !in records[i] {
      var digits := Decimal(i + 1);
      assert forall k :: 0 <= k < |digits| ==> digits[k] != '\n';
    }
    FieldsOfTerminated(records, '\n');
  }

  /** Two history lines give "1. ls" and "2. pwd", each on its own line. */
  lemma HistoryOfTwoLines()
    ensures HistoryText(["ls", "pwd"]) == "1. ls\n2. pwd\n"
  {
    assert Decimal(1) == "1" && Decimal(2) == "2";
  }

  // ---------------------------------------------------------------- external

  /** What the operating system does for the shell: the program names execvp
      can load, and whether each fork of a chain of re-runs succeeds
      (`forkSucceeds(0)` for the command's own fork, `forkSucceeds(d)` for the
      fork of its d-th re-run, which happens inside a child). */
  datatype Os = Os(runnable: set<string>, forkSucceeds: nat -> bool)

  /** The operating system as the next re-run in the chain meets it. */
  function Deeper(os: Os): Os
  {
    Os(os.runnable, (d: nat) => os.forkSucceeds(d + 1))
  }

  /** What the child does after execvp fails. */
  datatype Fallback =
    | PrintValue(value: string)
    | Rerun(argv: Argv, background: bool)

  /** The fallback of ExternalCommand::execute after execvp fails: when
      argv[0], spelled as typed, is a set environment variable its value is
      printed; otherwise one leading '$' is dropped and the result is handed
      to "/bin/sh -c" with the same background flag. */
  function ExecFailure(env: map<string, string>, argv: Argv, background: bool): (r: Fallback)
    ensures r.PrintValue? <==> argv[0] in env
    ensures r.PrintValue? ==> r.value == env[argv[0]]
    ensures r.Rerun? ==>
      && r.background == background
      && |r.argv| == 3 && r.argv[0] == ShellPath && r.argv[1] == ShellFlag
      && (if |argv[0]| > 0 && argv[0][0] == '$' then "$" + r.argv[2] == argv[0] else r.argv[2] == argv[0])
  {
    if argv[0] in env then PrintValue(env[argv[0]])
    else
      var command := if |argv[0]| > 0 && argv[0][0] == '$' then argv[0][1..] else argv[0];
      Rerun([ShellPath, ShellFlag, command], background)
  }

  /** The shell command the fallback settles on once every name is unset. */
  const ShellLoop: Argv := [ShellPath, ShellFlag, ShellPath]

  /** The rewrite has no decreasing measure: applied twice to a name that is
      not a variable it reaches "/bin/sh -c /bin/sh", which rewrites to itself. */
  lemma FallbackReachesFixedPoint(env: map<string, string>, argv: Argv, background: bool)
    requires argv[0] !in env && ShellPath !in env
    ensures var once := ExecFailure(env, argv, background);
      && once.Rerun?
      && ExecFailure(env, once.argv, background) == Rerun(ShellLoop, background)
      && ExecFailure(env, ShellLoop, background) == Rerun(ShellLoop, background)
  {
    assert ShellPath[0] != '$';
  }

  /** One External execution seen from the process that runs it. */
  datatype Run =
    | ForkFailed(message: string)          // fork() returned -1: runtime_error thrown
    | Forked(child: Child, parentWaits: bool)

  /** What the child process does. */
  datatype Child =
    | Execed(argv: Argv)                   // execvp replaced the image
    | PrintedVariable(text: string)        // value of the variable named argv[0]
    | Reran(argv: Argv, background: bool, run: Run)
    | OutOfFuel                            // the model follows no more re-runs

  /** ExternalCommand::execute. The re-run recursion is unbounded in the
      source, so the model follows at most `fuel` re-runs. A failed fork
      throws; otherwise the parent waits exactly in the foreground, and the
      child either runs argv or, when execvp fails, takes the ExecFailure
      decision: print the variable, or re-run through "/bin/sh -c". */
  function Spawn(os: Os, env: map<string, string>, argv: Argv, background: bool, fuel: nat): (r: Run)
    decreases fuel
    ensures r.ForkFailed? <==> !os.forkSucceeds(0)
    ensures r.ForkFailed? ==> r.message == ChildCreationFailed
    ensures r.Forked? ==> r.parentWaits == !background
    ensures r.Forked? ==> (r.child.Execed? <==> argv[0] in os.runnable)
    ensures r.Forked? && r.child.Execed? ==> r.child.argv == argv
    ensures r.Forked? && argv[0] !in os.runnable ==>
      match ExecFailure(env, argv, background)
      case PrintValue(value) => r.child == PrintedVariable(value + "\n")
      case Rerun(next, flag) =>
        if fuel == 0 then r.child == OutOfFuel
        else r.child.Reran? && r.child.argv == next && r.child.background == flag
  {
    if !os.forkSucceeds(0) then ForkFailed(ChildCreationFailed)
    else
      var child :=
        if argv[0] in os.runnable then Execed(argv)
        else match ExecFailure(env, argv, background)
          case PrintValue(value) => PrintedVariable(value + "\n")
          case Rerun(next, flag) =>
            if fuel == 0 then OutOfFuel else Reran(next, flag, Spawn(Deeper(os), env, next, flag, fuel - 1));
      Forked(child, !background)
  }

  /** Every fork in `run` is waited for exactly when `background` is false,
      and every re-run keeps `background`. */
  predicate WaitsOnlyInForeground(run: Run, background: bool)
  {
    match run
    case ForkFailed(_) => true
    case Forked(child, waits) =>
      && waits == !background
      && (child.Reran? ==> child.background == background && WaitsOnlyInForeground(child.run, background))
  }

  lemma {:induction false} SpawnWaitsOnlyInForeground(os: Os, env: map<string, string>, argv: Argv, background: bool, fuel: nat)
    decreases fuel
    ensures WaitsOnlyInForeground(Spawn(os, env, argv, background, fuel), background)
  {
    if os.forkSucceeds(0) && argv[0] !in os.runnable && argv[0] !in env && fuel > 0 {
      var next := ExecFailure(env, argv, background);
      SpawnWaitsOnlyInForeground(Deeper(os), env, next.argv, background, fuel - 1);
    }
  }

  /** Every child in `run` falls back again until the fuel runs out. */
  predicate RunsOutOfFuel(run: Run)
  {
    run.Forked? && (run.child.OutOfFuel? || (run.child.Reran? && RunsOutOfFuel(run.child.run)))
  }

  /** When every fork succeeds and neither the typed name nor /bin/sh can be
      executed or looked up, the re-runs never end: whatever depth the model
      follows, it is used up. */
  lemma {:induction false} FallbackNeverEnds(os: Os, env: map<string, string>, argv: Argv, background: bool, fuel: nat)
    requires forall d :: os.forkSucceeds(d)
    requires argv[0] !in os.runnable && argv[0] !in env
    requires ShellPath !in os.runnable && ShellPath !in env
    decreases fuel
    ensures RunsOutOfFuel(Spawn(os, env, argv, background, fuel))
  {
    if fuel > 0 {
      var next := ExecFailure(env, argv, background);
      FallbackNeverEnds(Deeper(os), env, next.argv, background, fuel - 1);
    }
  }

  /** The fork of a re-run happens inside the child: when it fails, the
      runtime_error is thrown there, while the shell's own fork succeeded and
      its run does not halt the Invoker. */
  lemma RerunForkFails(os: Os, env: map<string, string>, argv: Argv, background: bool, fuel: nat)
    requires os.forkSucceeds(0) && !os.forkSucceeds(1)
    requires argv[0] !in os.runnable && argv[0] !in env && fuel > 0
    ensures var run := Spawn(os, env, argv, background, fuel);
      && run.Forked? && run.child.Reran?
      && run.child.run == ForkFailed(ChildCreationFailed)
  {
    assert !Deeper(os).forkSucceeds(0);
  }

  // ---------------------------------------------------------------- running

  /** The world a command runs in: the environment, the lines of the history
      file, the operating system, and how many fallback re-runs to follow. */
  datatype Host = Host(env: map<string, string>, history: seq<string>, os: Os, fuel: nat)

  /** What running a command does: print text, end the process with a
      status, or start a process. */
  datatype Effect =
    | Printed(text: string)
    | Exited(status: int)
    | Process(run: Run)

  /** The effect of each variant's execute(). */
  function EffectOf(command: Command, host: Host): Effect
  {
    match command
    case Exit => Exited(0)
    case History => Printed(HistoryText(host.history))
    case Echo(args) => Printed(EchoText(args))
    case External(argv, background) => Process(Spawn(host.os, host.env, argv, background, host.fuel))
  }

  /** exit(0) ends the process, and a failed fork throws out of execute(). */
  predicate Halts(e: Effect)
  {
    e.Exited? || (e.Process? && e.run.ForkFailed?)
  }

  /** Only two commands stop the Invoker's loop: exit, and an external
      command whose fork fails. Echo, history and every forked run let it go
      on. */
  lemma HaltsIff(command: Command, host: Host)
    ensures Halts(EffectOf(command, host)) <==>
      command == Exit || (command.External? && !host.os.forkSucceeds(0))
  {
  }

  /** Command::execute, dispatched over the four variants. */
  method Execute(command: Command, host: Host) returns (e: Effect)
    ensures e == EffectOf(command, host)
  {
    match command
    case Exit =>
      e := Exited(0);
    case History =>
      var out := HistoryListing(host.history);
      e := Printed(out);
    case Echo(args) =>
      var out := EchoOutput(args, host.env);
      e := Printed(out);
    case External(argv, background) =>
      e := Process(Spawn(host.os, host.env, argv, background, host.fuel));
  }

  /** Invoker: a queue of commands that executeCommand appends to and drains. */
  class Invoker {
    var queue: seq<Command>

    constructor ()
      ensures queue == []
    {
      queue := [];
    }

    /** Pushes `command`, then runs the queue front to back, each command
        once, popping each after it ran. exit(0) ends the process, and a
        thrown runtime_error leaves before the pop, so the queue then still
        starts with the command that halted. */
    method ExecuteCommand(command: Command, host: Host) returns (ran: seq<Effect>)
      modifies this
      ensures var pending := old(queue) + [command];
        && 0 < |ran| <= |pending|
        && (forall i :: 0 <= i < |ran| ==> ran[i] == EffectOf(pending[i], host))
        && (forall i :: 0 <= i < |ran| - 1 ==> !Halts(ran[i]))
        && (if Halts(ran[|ran| - 1]) then queue == pending[|ran| - 1..]
            else |ran| == |pending| && queue == [])
      ensures old(queue) == [] ==> ran == [EffectOf(command, host)]
    {
      queue := queue + [command];
      ghost var pending := queue;
      ran := [];
      while queue != []
        invariant |ran| <= |pending| && queue == pending[|ran|..]
        invariant forall i :: 0 <= i < |ran| ==> ran[i] == EffectOf(pending[i], host) && !Halts(ran[i])
        decreases |queue|
      {
        var e := Execute(queue[0], host);
        ran := ran + [e];
        if Halts(e) {
          return;
        }
        queue := queue[1..];
      }
    }
  }
}
