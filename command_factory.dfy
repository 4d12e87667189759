/** include/CommandFactory.h: the tokenizer and the dispatcher that turns one
    input line into a command. */
module CommandFactory {
  import opened Text
  import opened Constants
  import opened Commands

  /** CommandFactory::splitString: a find_first_of loop that cuts `str` at
      every delimiter and keeps only the non-empty pieces. */
  method SplitString(str: string, delimiters: string) returns (tokens: seq<string>)
    ensures tokens == Fields(str, delimiters)
  {
    tokens := [];
    var start := 0;
    var found := FindFirstOf(str, delimiters, start);
    assert str[start..] == str;
    while found.Some?
      invariant start <= |str|
      invariant found == FindFirstOf(str, delimiters, start)
      invariant tokens + Fields(str[start..], delimiters) == Fields(str, delimiters)
      decreases |str| - start
    {
      var end := found.value;
      FieldsScanStep(str, delimiters, tokens, start, end);
      if end != start {
        tokens := tokens + [str[start..end]];
      }
      start := end + 1;
      found := FindFirstOf(str, delimiters, start);
    }
    FieldsScanLast(str, delimiters, tokens, start);
    if start != |str| {
      tokens := tokens + [str[start..]];
    }
  }

  /** The execution request a line becomes: its tokens without a trailing
      background marker, and whether there was one. */
  datatype Request = Request(argv: seq<string>, background: bool)

  /** Tokenizes on spaces and detaches a trailing "&". The flag is set exactly
      when the last token is "&", and putting that one token back gives the
      token list: nothing else is removed or changed. */
  function ParseLine(input: string): (r: Request)
    ensures var tokens := Fields(input, Space);
      && (r.background <==> tokens != [] && tokens[|tokens| - 1] == BackgroundMarker)
      && tokens == r.argv + (if r.background then [BackgroundMarker] else [])
  {
    var tokens := Fields(input, Space);
    if tokens != [] && tokens[|tokens| - 1] == BackgroundMarker then
      Request(tokens[..|tokens| - 1], true)
    else
      Request(tokens, false)
  }

  /** createCommand reads tokens[0] without a check, so it may only be called
      on a line that still has a token once a trailing "&" is removed. */
  predicate HasCommandName(input: string)
  {
    ParseLine(input).argv != []
  }

  /** CommandFactory::createCommand: tokenize, pop a trailing "&", then
      choose the variant from the first token. Exit and History carry
      nothing, Echo carries every token and loses the background flag, and
      any other name becomes an External command with tokens and flag. */
  method CreateCommand(input: string) returns (command: Command)
    requires HasCommandName(input)
    ensures var request := ParseLine(input);
      var name := request.argv[0];
      && (command == Exit <==> name == ExitKeyword)
      && (command == History <==> name == HistoryKeyword)
      && (command == Echo(request.argv) <==> name == EchoKeyword)
      && (command == External(request.argv, request.background) <==>
            name != ExitKeyword && name != HistoryKeyword && name != EchoKeyword)
  {
    var tokens := SplitString(input, Space);
    var runInBackground := false;
    if |tokens| > 0 && tokens[|tokens| - 1] == BackgroundMarker {
      runInBackground := true;
      tokens := tokens[..|tokens| - 1];
    }
    if tokens[0] == ExitKeyword {
      command := Exit;
    } else if tokens[0] == HistoryKeyword {
      command := History;
    } else if tokens[0] == EchoKeyword {
      command := Echo(tokens);
    } else {
      command := External(tokens, runInBackground);
    }
  }

  /** A line names a command exactly when it has a token and is not the
      background marker alone. */
  lemma CommandNameIff(input: string)
    ensures HasCommandName(input) <==>
      Fields(input, Space) != [] && Fields(input, Space) != [BackgroundMarker]
  {
    var tokens := Fields(input, Space);
    if tokens != [] && tokens[|tokens| - 1] == BackgroundMarker && |tokens| == 1 {
      assert tokens == [BackgroundMarker];
    }
  }

  /** An empty or all-space line yields no token, so it is outside what
      createCommand accepts. */
  lemma {:induction false} BlankLineHasNoCommand(input: string)
    requires forall k :: 0 <= k < |input| ==> input[k] == ' '
    ensures Fields(input, Space) == []
    ensures !HasCommandName(input)
  {
    NoFieldsIffAllDelimiters(input, Space);
  }

  /** Round trip of the whole line: words typed with any number of spaces
      between them, before the first and after the last, parse back into the
      same words, in the foreground, when the last one is not "&". */
  lemma LineRoundTrip(lead: string, words: seq<string>, gaps: seq<string>)
    requires AllIn(lead, Space)
    requires |gaps| == |words| && Words(words, Space) && Separating(gaps, Space)
    requires words == [] || words[|words| - 1] != BackgroundMarker
    ensures ParseLine(lead + Spaced(words, gaps)) == Request(words, false)
  {
    SpacedRoundTrip(lead, words, gaps, Space);
  }

  /** Leading, repeated and trailing spaces give no empty token:
      "  ls   -la  " runs "ls -la" in the foreground. */
  lemma ExtraSpacesIgnored()
    ensures ParseLine("  ls   -la  ") == Request(["ls", "-la"], false)
  {
    var words := ["ls", "-la"];
    var gaps := ["   ", "  "];
    assert Spaced(words[1..], gaps[1..]) == "-la  ";
    assert "  " + Spaced(words, gaps) == "  ls   -la  ";
    LineRoundTrip("  ", words, gaps);
  }

  /** "sleep 5 &" runs "sleep 5" in the background. */
  lemma SleepInBackground()
    ensures ParseLine("sleep 5 &") == Request(["sleep", "5"], true)
  {
    FieldsOfJoin(["sleep", "5", "&"], ' ');
    assert Join(["sleep", "5", "&"], ' ') == "sleep 5 &";
  }

  /** Only the last "&" is taken: "a & &" runs "a &" in the background. */
  lemma OnlyLastMarkerRemoved()
    ensures ParseLine("a & &") == Request(["a", "&"], true)
  {
    FieldsOfJoin(["a", "&", "&"], ' ');
    assert Join(["a", "&", "&"], ' ') == "a & &";
  }

  /** The delimiter set holds the space alone: a tab stays inside its token. */
  lemma TabStaysInToken()
    ensures Fields("ls\t-la", Space) == ["ls\t-la"]
  {
    NoSeparatorInWord("ls\t-la", ' ');
  }

  /** For an echo line, echo prints back the words typed after "echo": its
      output without the newline splits on spaces into exactly those tokens. */
  lemma EchoReprintsLine(input: string)
    requires HasCommandName(input) && ParseLine(input).argv[0] == EchoKeyword
    ensures var argv := ParseLine(input).argv;
      var out := EchoText(argv);
      Fields(out[..|out| - 1], Space) == argv[1..]
  {
    var tokens := Fields(input, Space);
    var request := ParseLine(input);
    var argv := request.argv;
    FieldsAreWords(input, Space);
    assert tokens == argv + (if request.background then [BackgroundMarker] else []);
    forall i | 1 <= i < |argv| ensures argv[i] != [] && ' ' !in argv[i] {
      assert i < |tokens| && argv[i] == tokens[i];
      assert tokens[i] != [] && Avoids(tokens[i], Space);
      assert forall k :: 0 <= k < |argv[i]| ==> argv[i][k] != ' ';
    }
    EchoReprintsArguments(argv);
  }
}
