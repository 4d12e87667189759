# A verified model of a minimal command shell

This project models the core of a small interactive shell written in C++:
everything between one raw input line and the decision about what runs.

- The tokenizer `splitString` cuts a line at spaces and drops empty pieces.
- `createCommand` removes a trailing `&` (run in the background). It then
  picks a command from the first token: `exit`, `myhistory`, `echo`, or an
  external program.
- The variable expander `expandVariables` is what `echo` applies to each
  argument.
- `echo` prints its arguments. `myhistory` prints the numbered lines of the
  history file.
- An external command forks a child and runs `execvp` in it. When `execvp`
  fails, the child either prints an environment variable or re-runs the name
  through `/bin/sh -c`. The parent waits only for a foreground child.
- The `Invoker` pushes a command onto a queue and then drains the queue.
- `src/main.cpp` has free functions that repeat the tokenizer, the expander
  and the echo/external logic.

Modules:

- `Text` models `std::string::find_first_of` and decimal printing. It also
  holds `Fields`, the tokenizer's specification, and the lemmas about it.
- `Constants` holds the fixed strings the core uses: the named constants of
  `src/main.cpp` lines 10 to 18, and the literals written in place in the
  headers. Those literals are `"myhistory"` and `"echo"`
  (include/CommandFactory.h:45 and 48), `"$}"` (include/Command.h:26), and
  `"/bin/sh"` and `"-c"` (include/Command.h:102). `constants.h` is not part of
  this model.
- `Commands` models `include/Command.h`. A command is a datatype, because it
  never changes once built. The `Invoker` is a class whose `queue` field its
  method updates in place.
- `CommandFactory` models `include/CommandFactory.h`.
- `Shell` models the free functions of `src/main.cpp`. Lines 21 to 216 of that
  file repeat the two headers word for word, so `Commands` and
  `CommandFactory` model those lines as well.

Outside inputs are plain values:

- the environment is a `map<string, string>`;
- the history file is the sequence of lines `getline` reads from it;
- output is a returned string;
- the operating system is an `Os` value: the program names `execvp` can load,
  and, for each fork in a chain of re-runs, whether it succeeds. Depth 0 is
  the command's own fork, and depth d is the fork of the d-th re-run, which
  happens inside a child.

Running an external command gives a `Run` tree. The tree records each fork and
whether the parent waits for it. It also records what the child did: it
loaded the program, printed a variable, or re-ran through `/bin/sh -c`.

Where the code's own comments and its behaviour disagree, the model follows
the behaviour:

- **`expandVariables` never substitutes anything**, although its comment
  (include/Command.h:17-21) says it expands environment variables to their
  values. Its loop stops at the
  first `$` or `}` at or after `start`. When `str[start]` is `$`, that stop is
  `start` itself, so the test `end > start + 1` fails. The `${` branch needs a
  `$` at `end - 1`, but no `$` can come before the first stop. Only the copying
  branch runs, and both expanders are proved to return their input unchanged
  for every environment. `echo $HOME` therefore prints `$HOME `, not the value
  of `HOME`.
- **The fallback re-run has no depth limit.** It is modelled with a fuel
  bound. A lemma shows the rewrite reaches `/bin/sh -c /bin/sh`, which
  rewrites to itself, so nothing in the rewrite itself makes it stop.
- **`createCommand` reads `tokens[0]` without a check.** The code has
  undefined behaviour for `""`, for blank lines and for `"&"`. The model
  therefore states this as a precondition, `HasCommandName`.
- **echo keeps a trailing space.** Every printed argument is followed by one
  space, the last one included, and then by a newline.

## Model

| member | source | states |
|---|---|---|
| `Text.FindFirstOf` | include/CommandFactory.h:19 | the result is the first position at or after `from` that holds one of the characters, or none when no later position does |
| `Text.FieldsAreWords` | include/CommandFactory.h:19-27 | every token is non-empty and contains no delimiter character |
| `Text.FieldsKeepEverythingButDelimiters` | include/CommandFactory.h:16-29 | the tokens, joined back in order, equal the input with every delimiter character removed, so order is kept and only delimiters are lost |
| `Text.NoFieldsIffAllDelimiters` | include/CommandFactory.h:19-28 | the token list is empty exactly when every character is a delimiter; this covers the empty string |
| `Text.FieldsOfJoin` | include/CommandFactory.h:16-29 | round trip: joining non-empty, separator-free words with single separators and splitting the result gives the same words back |
| `Text.SpacedRoundTrip` | include/CommandFactory.h:16-29 | every token is a whole maximal run of non-delimiters: words separated by non-empty runs of delimiters of any length, with optional runs before the first word and after the last, split into exactly those words |
| `Text.Decimal` | include/Command.h:136 | the printed count is a non-empty string of decimal digits with no leading zero |
| `Text.DecimalDenotes` | include/Command.h:136 | reading the printed digits back gives the count that was printed |
| `CommandFactory.SplitString` | include/CommandFactory.h:16-29 | the find_first_of loop returns exactly the tokens `Fields(str, delimiters)`; the lemmas above describe them |
| `CommandFactory.ParseLine` | include/CommandFactory.h:33-40 | the background flag is set exactly when the last token is `&`; adding that one token back gives the full token list, so nothing else is removed or changed |
| `CommandFactory.CreateCommand` | include/CommandFactory.h:31-54 | with at least one token left after `&` is removed: `exit` gives Exit and `myhistory` gives History, both with no tokens; `echo` gives Echo with every token and no background flag; any other name gives External with the tokens and the flag |
| `CommandFactory.CommandNameIff` | include/CommandFactory.h:36-42 | a line can be dispatched exactly when it has a token and is not `&` alone |
| `CommandFactory.BlankLineHasNoCommand` | include/CommandFactory.h:33-42 | an empty or all-space line yields no token and cannot be dispatched |
| `CommandFactory.LineRoundTrip` | include/CommandFactory.h:33-40 | words typed with any number of spaces between them, before the first and after the last, parse back into the same words in the foreground, when the last word is not `&` |
| `CommandFactory.ExtraSpacesIgnored` | include/CommandFactory.h:19-28 | `"  ls   -la  "` parses to `ls -la` in the foreground: leading, repeated and trailing spaces give no empty token |
| `CommandFactory.SleepInBackground` | include/CommandFactory.h:36-40 | `sleep 5 &` becomes `sleep 5` in the background |
| `CommandFactory.OnlyLastMarkerRemoved` | include/CommandFactory.h:37-40 | only the last `&` is removed: `a & &` becomes `a &` in the background |
| `CommandFactory.TabStaysInToken` | src/main.cpp:13 | the delimiter set is the space alone, so a tab stays inside its token |
| `CommandFactory.EchoReprintsLine` | include/CommandFactory.h:48-49 | for an `echo` line, the output without its newline splits on spaces into exactly the words typed after `echo` |
| `Commands.ExpandVariables` | include/Command.h:23-52 | the result equals the input for every string and every environment, because both substitution branches are proved unreachable; the loop keeps `result == str[..start]`, and `start` grows on every step |
| `Commands.EchoText` | include/Command.h:61-67 | echo output always ends in a newline, and with no argument after the name it is just the newline |
| `Commands.EchoOutput` | include/Command.h:61-67 | the output loop writes each argument after `args[0]` (unchanged by the expander), each followed by one space, then a newline |
| `Commands.EchoIgnoresName` | include/Command.h:62 | `args[0]` is never printed: replacing it does not change the output |
| `Commands.EchoReprintsArguments` | include/Command.h:61-67 | when the arguments are non-empty and space-free, splitting the output (without its newline) on spaces gives back `args[1..]` |
| `Commands.HistoryListing` | include/Command.h:131-139 | the getline loop, with a counter that starts at 1 on every call, writes `HistoryText(log)`; the log is only read |
| `Commands.HistoryOneRecordPerLine` | include/Command.h:131-139 | the listing has exactly one line per history line, and line i (counting from 1) is `i. ` followed by history line i |
| `Commands.HistoryOfTwoLines` | include/Command.h:135-136 | a history of `ls` and `pwd` lists `1. ls` and `2. pwd` |
| `Commands.ExecFailure` | include/Command.h:91-104 | after execvp fails: if `args[0]`, spelled as typed with any `$`, is a set variable, its value is printed and nothing re-runs; otherwise exactly one leading `$` is removed and `["/bin/sh","-c",cmd]` re-runs with the same background flag |
| `Commands.FallbackReachesFixedPoint` | include/Command.h:98-103 | the rewrite has no decreasing measure: applied to its own output it gives `["/bin/sh","-c","/bin/sh"]`, which rewrites to itself |
| `Commands.Spawn` | include/Command.h:76-113 | a failed fork gives `ForkFailed` with the message "Failed to create child process"; otherwise the parent waits exactly when the flag is false, the child runs argv exactly when `argv[0]` is runnable, and else the child takes the `ExecFailure` decision: it prints the variable's value and a newline, or re-runs the rewritten argv with the same flag (or stops when the fuel is used up) |
| `Commands.RerunForkFails` | include/Command.h:85-103 | the fork of a re-run happens inside the child: when only that fork fails, the `runtime_error` is thrown there, and the shell's own run is a successful fork |
| `Commands.SpawnWaitsOnlyInForeground` | include/Command.h:107-112 | at every level of re-running, the parent waits for the child exactly when `runInBackground` is false, and every re-run keeps the flag |
| `Commands.FallbackNeverEnds` | include/Command.h:91-104 | when every fork succeeds and neither the typed name nor `/bin/sh` can be executed or is a variable, the re-runs use up any fuel bound |
| `Commands.Execute` | include/Command.h:61-139 | running a command: Exit ends the process with status 0, History prints the listing, Echo prints the echo text, External starts the process run |
| `Commands.HaltsIff` | include/Command.h:85-87 | a command stops the Invoker's loop exactly when it is exit, or an external command whose own fork fails; echo, history and every forked run let the loop go on |
| `Commands.Invoker.constructor` | include/Command.h:156-157 | a new Invoker has an empty queue |
| `Commands.Invoker.ExecuteCommand` | include/Command.h:144-153 | the command is pushed, then queued commands run once each in FIFO order; afterwards the queue is empty, unless a command exited or threw, in which case the queue still starts with that command; from an empty queue, only the submitted command runs |
| `Shell.SplitString` | src/main.cpp:224-237 | the free splitString returns the same tokens as `CommandFactory::splitString` |
| `Shell.ExpandVariables` | src/main.cpp:244-273 | the free expandVariables also returns its input unchanged for every string and every environment |
| `Shell.ExecuteCommand` | src/main.cpp:281-330 | the echo path is taken exactly when `args.size() > 1 && args[0] == "echo"` and prints what EchoCommand prints; in every other case, a lone `echo` included, the process run is that of `ExternalCommand::execute`, with the same fallback rule and the same flag on every re-run |

## Left out

- `fork`, `execvp` and `waitpid` are operating-system calls. The model replaces
  them with an `Os` value: the names `execvp` can load, and whether the fork
  at each re-run depth succeeds. It also records whether the parent waits. The concurrency of a
  background child, and the child's exit status, are not modelled.
- After a failed `execvp`, the C++ child returns from `execute()` into its
  caller and keeps running the shell. The model stops at what the child
  printed or re-ran.
- Commands.Spawn: follows at most `fuel` fallback re-runs, and ends with
  `OutOfFuel` where the C++ recursion would go on.
- `exit(0)` ends the process. The model keeps only the `Exited(0)` effect;
  unflushed output is not modelled.
- A thrown `runtime_error` is modelled as the `ForkFailed` value with its
  message. Its propagation to the read loop's `catch`, and the message that
  loop prints, are I/O. When the failed fork is a re-run's, it is thrown
  inside a child, and the model records it there (`Reran(_, _, ForkFailed(_))`).
- `std::cout`, `std::cerr`, the flushing done by `std::endl`, and
  `std::ifstream` are left out. Output is a returned string. The history file
  is the list of lines `getline` returns; a file that cannot be opened gives
  no lines.
- `getenv` is a read-only map. Its reading of `args[0].c_str()`, which stops
  at an embedded NUL character, is not modelled.
- Commands.HistoryListing: the counter is unbounded here. The C++ `int` would
  overflow after 2^31 - 1 lines.
- `main` (src/main.cpp:422-453) is left out. It is the interactive read loop
  and appends each line to the history file.
- The code commented out at src/main.cpp:332-420 is left out. It holds the
  old `main` with its PATH search and `displayCommandHistory`.
- The `char*` argument-vector building and clearing loops are left out
  (include/Command.h:78-82 and 115-118, src/main.cpp:283-287 and 327-329).
  They have no observable effect.
- `constants.h` is not part of this model. Its values are taken from
  src/main.cpp:10-18.
