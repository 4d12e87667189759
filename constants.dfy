/** The shell's fixed strings: the named constants of src/main.cpp lines 10
    to 18 that the core uses, and the literals written in place in the
    headers ("myhistory" and "echo" at include/CommandFactory.h:45 and 48,
    "$}" at include/Command.h:26, "/bin/sh" and "-c" at include/Command.h:102). */
module Constants {

  /** The tokenizer's delimiter set: the space character only. */
  const Space: string := " "

  /** A last token equal to this asks for the command to run in the background. */
  const BackgroundMarker: string := "&"

  /** The first tokens that select the built-in commands. */
  const ExitKeyword: string := "exit"
  const HistoryKeyword: string := "myhistory"
  const EchoKeyword: string := "echo"

  /** The message of the runtime_error thrown when fork() fails. */
  const ChildCreationFailed: string := "Failed to create child process"

  /** The characters the variable expander stops at. */
  const ReferenceBoundaries: string := "$}"

  /** The interpreter a failed program name is handed to, and its flag. */
  const ShellPath: string := "/bin/sh"
  const ShellFlag: string := "-c"
}
