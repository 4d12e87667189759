/** The free functions of src/main.cpp, which repeat the tokenizer, the
    variable expander and the echo and external-process logic outside the
    classes. (Lines 21 to 216 of that file repeat the two headers word for
    word and are modelled by the Commands and CommandFactory modules.) */
module Shell {
  import opened Text
  import opened Constants
  import opened Commands

  /** The free splitString: the same find_first_of loop as the factory's, and
      so the same fields. */
  method SplitString(str: string, delimiters: string) returns (tokens: seq<string>)
    ensures tokens == Fields(str, delimiters)
  {
    tokens := [];
    var start := 0;
    var found := FindFirstOf(str, delimiters, start);
    assert str[start..] == str;
    while found.Some?
      invariant start <= |str|
      invariant found == FindFirstOf(str, delimiters, start)
      invariant tokens + Fields(str[start..], delimiters) == Fields(str, delimiters)
      decreases |str| - start
    {
      var end := found.value;
      FieldsScanStep(str, delimiters, tokens, start, end);
      if end != start {
        tokens := tokens + [str[start..end]];
      }
      start := end + 1;
      found := FindFirstOf(str, delimiters, start);
    }
    FieldsScanLast(str, delimiters, tokens, start);
    if start != |str| {
      tokens := tokens + [str[start..]];
    }
  }

  /** The free expandVariables: the same scan as Command::expandVariables,
      with the same two unreachable substitution branches, so it too gives
      back its input for every environment. */
  method ExpandVariables(str: string, env: map<string, string>) returns (result: string)
    ensures result == str
  {
    result := [];
    var start := 0;
    var found := FindFirstOf(str, ReferenceBoundaries, start);
    while found.Some?
      invariant start <= |str|
      invariant found == FindFirstOf(str, ReferenceBoundaries, start)
      invariant result == str[..start]
      decreases |str| - start
    {
      var end := found.value;
      if str[start] == '$' && end > start + 1 {
        // the bare "$NAME" substitution: unreachable, as end == start here
        assert false;
      } else if str[start] == '{' && end > start + 1 && str[end - 1] == '$' {
        // the "${NAME}" substitution: unreachable, as no '$' lies before end
        assert false;
      } else {
        result := result + str[start..end + 1];
        start := end + 1;
      }
      found := FindFirstOf(str, ReferenceBoundaries, start);
    }
    if start != |str| {
      result := result + str[start..];
    }
  }

  /** The free executeCommand prints in-process only for "echo" with at least
      one argument; a lone "echo" is forked like any other program. */
  predicate IsEchoCall(args: seq<string>)
  {
    |args| > 1 && args[0] == EchoKeyword
  }

  /** The free executeCommand: the echo loop, or a fork whose child, when
      execvp fails, prints the variable named args[0] or calls executeCommand
      again on "/bin/sh -c" with the same flag. It behaves as echo does for an
      echo call and as ExternalCommand::execute does for anything else; the
      model follows at most `fuel` re-runs. */
  method ExecuteCommand(os: Os, env: map<string, string>, args: Argv, background: bool, fuel: nat)
    returns (e: Effect)
    decreases fuel
    ensures e == if IsEchoCall(args) then Printed(EchoText(args))
                 else Process(Spawn(os, env, args, background, fuel))
  {
    if |args| > 1 && args[0] == EchoKeyword {
      var out := [];
      var i := 1;
      while i < |args|
        invariant 1 <= i <= |args|
        invariant out == Terminated(args[1..i], ' ')
      {
        var expanded := ExpandVariables(args[i], env);
        TerminatedSnoc(args[1..i], args[i], ' ');
        assert args[1..i + 1] == args[1..i] + [args[i]];
        out := out + expanded + " ";
        i := i + 1;
      }
      assert args[1..i] == Arguments(args);
      e := Printed(out + "\n");
    } else if !os.forkSucceeds(0) {
      e := Process(ForkFailed(ChildCreationFailed));
    } else {
      var child;
      if args[0] in os.runnable {
        child := Execed(args);
      } else if args[0] in env {
        child := PrintedVariable(env[args[0]] + "\n");
      } else {
        var command := args[0];
        if |command| > 0 && command[0] == '$' {
          command := command[1..];
        }
        var newArgs := [ShellPath, ShellFlag, command];
        if fuel == 0 {
          child := OutOfFuel;
        } else {
          var inner := ExecuteCommand(Deeper(os), env, newArgs, background, fuel - 1);
          child := Reran(newArgs, background, inner.run);
        }
      }
      e := Process(Forked(child, !background));
    }
  }
}
