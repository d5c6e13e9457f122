/**
 * One iteration of the shell's main loop, without the prompt and fgets: the
 * line is added to the history log, tokenized, and dispatched. The result is
 * the Action the shell would carry out.
 */
module Shell {
  import opened Wrappers
  import opened CNumbers
  import opened Tokenizer
  import opened HistoryLog
  import opened Dispatch

  /** The line avoids every undefined-behaviour path of the branch it takes. */
  predicate LineDefined(line: string) {
    Defined(TokenSlots(line), TokenCount(line))
  }

  /** The history after the line and what the line makes the shell do. */
  function Step(h: seq<string>, line: string): (seq<string>, Action)
    requires |h| <= MAX_HISTORY && LineDefined(line)
  {
    var after := Appended(h, line);
    (after, Decide(TokenSlots(line), TokenCount(line), after))
  }

  /**
   * The body of the main loop: addToHistory first (so "!N" sees the current
   * line), then the strsep tokenizer, then the if/else chain.
   */
  method HandleLine(log: History, line: string) returns (action: Action)
    requires log.Valid() && LineDefined(line)
    modifies log, log.entries
    ensures log.Valid()
    ensures (log.Contents(), action) == Step(old(log.Contents()), line)
  {
    log.Add(line);
    var tokens, count := Tokenize(line);
    action := Run(log, tokens, count);
  }

  /** The if/else chain on the tokens, against the history as it now stands. */
  method Run(log: History, tokens: Slots, count: nat) returns (action: Action)
    requires log.Valid() && Shaped(tokens, count) && Defined(tokens, count)
    ensures action == Decide(tokens, count, log.Contents())
  {
    if tokens[0].None? {
      return Nothing;
    }
    var w := tokens[0].value;
    if IsRecallWord(w) {
      var idx := RecallIndex(w);
      if 0 <= idx < log.size {
        action := RunInShell(log.entries[idx]);
      } else {
        action := RecallIgnored;
      }
    } else if w == "cd" {
      action := ChangeDir(CdTargetOf(tokens[1]));
    } else if w == "history" {
      var text := log.Render();
      action := ListHistory(text);
    } else if w == "quit" || w == "exit" {
      action := Exit(0);
    } else {
      action := RunCommand(tokens, count);
    }
  }

  /** A line that is no builtin: the pipeline, or the forked child's redirection and argv (the history plays no part). */
  method RunCommand(tokens: Slots, count: nat) returns (action: Action)
    requires Shaped(tokens, count) && tokens[0].Some?
    requires var w := tokens[0].value; !IsRecallWord(w) && !IsBuiltin(w)
    requires Defined(tokens, count)
    ensures action == Decide(tokens, count, [])
  {
    var pipeIndex := FindFirst(tokens, count, PIPE);
    if pipeIndex > 0 {
      assert PipeDefined(tokens, pipeIndex);
      var cmd1, cmd2 := SplitPipe(tokens, pipeIndex);
      action := Pipeline(cmd1, cmd2);
    } else {
      assert ExecDefined(tokens, count);
      var redirect, argv := RunChild(tokens, count);
      action := Simple(redirect, argv);
    }
  }

  /** The forked child prepares its own copy of token[]: its redirection and the argv for execvp. */
  method RunChild(tokens: Slots, count: nat) returns (redirect: Option<Redirection>, argv: seq<string>)
    requires Shaped(tokens, count) && ExecDefined(tokens, count)
    ensures redirect == RedirectOf(tokens, count) && argv == Argv(ExecSlots(tokens, count))
  {
    var token := new Option<string>[MAX_NUM_ARGUMENTS](i requires 0 <= i < MAX_NUM_ARGUMENTS => tokens[i]);
    assert token[..] == tokens;
    redirect, argv := PrepareExec(token, count);
  }

  // ---- Behaviour of particular lines ----

  /** A line of length zero is neither stored nor dispatched. */
  lemma EmptyLineChangesNothing(h: seq<string>)
    requires |h| <= MAX_HISTORY
    ensures LineDefined("") && Step(h, "") == (h, Nothing)
  {
    assert Fields("") == [""];
  }

  /**
   * A line that starts with a blank, tab or newline does nothing, yet it is
   * stored: "\n" alone has length 1 and becomes the newest history entry.
   */
  lemma LeadingBlankDoesNothingButIsStored(h: seq<string>, line: string)
    requires |h| <= MAX_HISTORY
    requires |line| > 0 && IsDelimiter(line[0])
    ensures LineDefined(line)
    ensures Step(h, line).1 == Nothing
    ensures var after := Step(h, line).0;
      after == Recent(h + [line], MAX_HISTORY) && after[|after| - 1] == line
  {
    LeadingDelimiterEmptiesFirstSlot(line);
    AppendedKeepsRecent(h, line);
  }

  /** The recall word "!" + N, read back from the line "!N\n". */
  lemma RecallLineTokens(n: nat)
    requires n <= INT_MAX
    ensures var w := "!" + Decimal(n);
      TokenSlots(w + "\n")[0] == Some(w) && IsRecallWord(w) && RecallDefined(w) &&
      RecallIndex(w) == n - 1
  {
    var d := Decimal(n);
    DecimalIsNumeral(n);
    var w := "!" + d;
    assert w[1..] == d;
    IntFitsTenDigits(n);
    assert NoDelimiter(w) by {
      forall i | 0 <= i < |w|
        ensures !IsDelimiter(w[i])
      {
        if i > 0 {
          assert w[i] == d[i - 1];
        }
      }
    }
    FieldsAfterDelimiter(w, '\n', "");
    assert w + ['\n'] + "" == w + "\n";
    assert Fields("") == [""];
    assert w[..Min(|w|, MAX_COMMAND_SIZE)] == w;
    AtoiOfDecimal(n, "");
    assert d + "" == d;
  }

  /** The line "!N" takes the recall branch against the log that already holds it. */
  lemma RecallStep(h: seq<string>, n: nat)
    requires |h| <= MAX_HISTORY && n <= INT_MAX
    ensures var w := "!" + Decimal(n); var line := w + "\n";
      LineDefined(line) && IsRecallWord(w) && RecallDefined(w) && RecallIndex(w) == n - 1 &&
      Step(h, line).1 == RecallOf(w, Appended(h, line))
  {
    RecallLineTokens(n);
  }

  /**
   * Below capacity, "!i" runs the line the history listing shows as row [i];
   * the listing and the recall use the same 1-based numbering.
   */
  lemma RecallRunsListedEntry(h: seq<string>, i: nat)
    requires |h| < MAX_HISTORY && 1 <= i <= |h|
    ensures var line := "!" + Decimal(i) + "\n";
      LineDefined(line) && Step(h, line).1 == RunInShell(h[i - 1])
    ensures Listing(h) == Listing(h[..i - 1]) + Row(i, h[i - 1]) + Rows(h[i..], i + 1)
  {
    RecallStep(h, i);
    ListingShowsEntry(h, i - 1);
  }

  /**
   * At capacity the current line evicts the oldest entry before "!i" is
   * resolved, so "!i" runs the entry that was listed as [i + 1], and "!50"
   * runs the "!50" line itself.
   */
  lemma RecallAtCapacityIsShifted(h: seq<string>, i: nat)
    requires |h| == MAX_HISTORY && 1 <= i <= MAX_HISTORY
    ensures var line := "!" + Decimal(i) + "\n";
      LineDefined(line) &&
      Step(h, line).1 == RunInShell(if i < MAX_HISTORY then h[i] else line)
  {
    var w := "!" + Decimal(i);
    var line := w + "\n";
    RecallStep(h, i);
    var after := Appended(h, line);
    assert after == h[1..] + [line];
    assert after[i - 1] == if i < MAX_HISTORY then h[i] else line;
  }

  /** "!1" typed into an empty log runs itself: it was stored before it was resolved. */
  lemma RecallSeesCurrentLine()
    ensures LineDefined("!1\n") && Step([], "!1\n") == (["!1\n"], RunInShell("!1\n"))
  {
    RecallLineTokens(1);
    assert Decimal(1) == "1";
    assert "!" + Decimal(1) + "\n" == "!1\n";
    assert Appended([], "!1\n") == ["!1\n"];
  }

  /** "!0" names no entry: nothing happens and nothing is reported. */
  lemma RecallZeroIsIgnored(h: seq<string>)
    requires |h| <= MAX_HISTORY
    ensures LineDefined("!0\n") && Step(h, "!0\n").1 == RecallIgnored
  {
    RecallLineTokens(0);
    assert Decimal(0) == "0";
    assert "!" + Decimal(0) + "\n" == "!0\n";
  }

  /** "!x" reads as index 0 - 1: nothing happens and nothing is reported. */
  lemma RecallNonNumberIsIgnored(h: seq<string>)
    requires |h| <= MAX_HISTORY
    ensures LineDefined("!x\n") && Step(h, "!x\n").1 == RecallIgnored
  {
    NonNumberSlot();
    NonNumberIndex();
  }

  lemma NonNumberSlot()
    ensures TokenSlots("!x\n")[0] == Some("!x")
  {
    var w := "!x";
    FieldsAfterDelimiter(w, '\n', "");
    assert w + ['\n'] + "" == "!x\n";
    assert Fields("") == [""];
    assert w[..Min(|w|, MAX_COMMAND_SIZE)] == w;
  }

  lemma NonNumberIndex()
    ensures IsRecallWord("!x") && RecallDefined("!x") && RecallIndex("!x") == -1
  {
    assert "!x"[1..] == "x";
    AtoiWithoutDigits("x");
  }

  /** "ls  -l": the doubled blank leaves an absent slot, which ends the argv early. */
  lemma DoubleBlankEndsArgv(h: seq<string>)
    requires |h| <= MAX_HISTORY
    ensures LineDefined("ls  -l\n") && Step(h, "ls  -l\n").1 == Simple(None, ["ls"])
  {
    var fs, ds := ["ls", "", "-l", ""], [' ', ' ', '\n'];
    assert Join(fs, ds) == "ls  -l\n";
    TokenSlotsOfJoin(fs, ds);
    DoubleBlankDecision(TokenSlots("ls  -l\n"), Appended(h, "ls  -l\n"));
  }

  lemma DoubleBlankDecision(t: Slots, h: seq<string>)
    requires t == WordSlots(["ls", "", "-l", ""])
    ensures Defined(t, 4) && Decide(t, 4, h) == Simple(None, ["ls"])
  {
    assert t == [Some("ls"), None, Some("-l"), None, None, None, None, None, None, None];
    assert !IsRecallWord("ls") && !IsBuiltin("ls");
    assert forall k :: 0 <= k < 4 ==> !Matches(t[k], PIPE) && !Matches(t[k], REDIRECTIONS);
    assert FirstOf(t, 4, PIPE) == -1 && RedirectIndex(t, 4) == -1;
    assert Argv(ExecSlots(t, 4)) == ["ls"];
  }

  /** "ls -l | wc": the slots before the pipe and those after it become the two commands. */
  lemma PipelineLine(h: seq<string>)
    requires |h| <= MAX_HISTORY
    ensures LineDefined("ls -l | wc\n") && Step(h, "ls -l | wc\n").1 == Pipeline(["ls", "-l"], ["wc"])
  {
    var fs, ds := ["ls", "-l", "|", "wc", ""], [' ', ' ', ' ', '\n'];
    assert Join(fs, ds) == "ls -l | wc\n";
    TokenSlotsOfJoin(fs, ds);
    PipelineSlots(TokenSlots("ls -l | wc\n"));
    PipelineDecision(TokenSlots("ls -l | wc\n"), Appended(h, "ls -l | wc\n"));
  }

  lemma PipelineSlots(t: Slots)
    requires t == WordSlots(["ls", "-l", "|", "wc", ""])
    ensures t == [Some("ls"), Some("-l"), Some("|"), Some("wc"), None, None, None, None, None, None]
  {
  }

  lemma PipelineDecision(t: Slots, h: seq<string>)
    requires t == [Some("ls"), Some("-l"), Some("|"), Some("wc"), None, None, None, None, None, None]
    ensures Defined(t, 5) && Decide(t, 5, h) == Pipeline(["ls", "-l"], ["wc"])
  {
    assert !IsRecallWord("ls") && !IsBuiltin("ls");
    assert !Matches(t[0], PIPE) && !Matches(t[1], PIPE) && Matches(t[2], PIPE);
    assert FirstOf(t, 5, PIPE) == 2;
    assert Argv(t[..2]) == ["ls", "-l"];
    assert t[3..] == [Some("wc"), None, None, None, None, None, None];
    assert Argv(t[3..]) == ["wc"];
  }

  /**
   * "echo hello > out.txt": stdout goes to out.txt, created with mode 0600,
   * and neither ">" nor the file name reaches echo.
   */
  lemma RedirectionLine(h: seq<string>)
    requires |h| <= MAX_HISTORY
    ensures var line := "echo hello > out.txt\n";
      LineDefined(line) &&
      Step(h, line).1 == Simple(Some(OutputTo(Some("out.txt"), OWNER_READ_WRITE)), ["echo", "hello"])
  {
    var fs, ds := ["echo", "hello", ">", "out.txt", ""], [' ', ' ', ' ', '\n'];
    assert Join(fs, ds) == "echo hello > out.txt\n";
    TokenSlotsOfJoin(fs, ds);
    RedirectionDecision(TokenSlots("echo hello > out.txt\n"), Appended(h, "echo hello > out.txt\n"));
  }

  lemma RedirectionDecision(t: Slots, h: seq<string>)
    requires t == WordSlots(["echo", "hello", ">", "out.txt", ""])
    ensures Defined(t, 5)
    ensures Decide(t, 5, h) == Simple(Some(OutputTo(Some("out.txt"), OWNER_READ_WRITE)), ["echo", "hello"])
  {
    assert t == [Some("echo"), Some("hello"), Some(">"), Some("out.txt"), None, None, None, None, None, None];
    assert !IsRecallWord("echo") && !IsBuiltin("echo");
    assert forall k :: 0 <= k < 5 ==> !Matches(t[k], PIPE);
    assert FirstOf(t, 5, PIPE) == -1;
    assert !Matches(t[0], REDIRECTIONS) && !Matches(t[1], REDIRECTIONS) && Matches(t[2], REDIRECTIONS);
    assert RedirectIndex(t, 5) == 2;
    assert ExecSlots(t, 5) == t[2 := None];
    ArgvUnique(t[2 := None], ["echo", "hello"]);
  }

  /**
   * "ls >  out": the doubled blank leaves the slot after ">" absent, so the
   * file to open is NULL although "out" appears later on the line.
   */
  lemma RedirectionBeforeBlank(h: seq<string>)
    requires |h| <= MAX_HISTORY
    ensures var line := "ls >  out\n";
      LineDefined(line) &&
      Step(h, line).1 == Simple(Some(OutputTo(None, OWNER_READ_WRITE)), ["ls"])
  {
    var fs, ds := ["ls", ">", "", "out", ""], [' ', ' ', ' ', '\n'];
    assert Join(fs, ds) == "ls >  out\n";
    TokenSlotsOfJoin(fs, ds);
    RedirectionBeforeBlankDecision(TokenSlots("ls >  out\n"), Appended(h, "ls >  out\n"));
  }

  lemma RedirectionBeforeBlankDecision(t: Slots, h: seq<string>)
    requires t == WordSlots(["ls", ">", "", "out", ""])
    ensures Defined(t, 5)
    ensures Decide(t, 5, h) == Simple(Some(OutputTo(None, OWNER_READ_WRITE)), ["ls"])
  {
    assert t == [Some("ls"), Some(">"), None, Some("out"), None, None, None, None, None, None];
    assert !IsRecallWord("ls") && !IsBuiltin("ls");
    assert forall k :: 0 <= k < 5 ==> !Matches(t[k], PIPE);
    assert FirstOf(t, 5, PIPE) == -1;
    assert !Matches(t[0], REDIRECTIONS) && Matches(t[1], REDIRECTIONS);
    assert RedirectIndex(t, 5) == 1;
    ExecSlotsBeforeBlank(t);
  }

  lemma ExecSlotsBeforeBlank(t: Slots)
    requires t == [Some("ls"), Some(">"), None, Some("out"), None, None, None, None, None, None]
    ensures Argv(t[1 := None]) == ["ls"]
  {
    ArgvUnique(t[1 := None], ["ls"]);
  }

  /** "a | b | c": only the first pipe splits; the second is passed to b as an argument. */
  lemma SecondPipeIsAnArgument(h: seq<string>)
    requires |h| <= MAX_HISTORY
    ensures LineDefined("a | b | c\n") && Step(h, "a | b | c\n").1 == Pipeline(["a"], ["b", "|", "c"])
  {
    var fs, ds := ["a", "|", "b", "|", "c", ""], [' ', ' ', ' ', ' ', '\n'];
    assert Join(fs, ds) == "a | b | c\n";
    TokenSlotsOfJoin(fs, ds);
    SecondPipeSlots(TokenSlots("a | b | c\n"));
    SecondPipeDecision(TokenSlots("a | b | c\n"), Appended(h, "a | b | c\n"));
  }

  lemma SecondPipeSlots(t: Slots)
    requires t == WordSlots(["a", "|", "b", "|", "c", ""])
    ensures t == [Some("a"), Some("|"), Some("b"), Some("|"), Some("c"), None, None, None, None, None]
  {
  }

  lemma SecondPipeDecision(t: Slots, h: seq<string>)
    requires t == [Some("a"), Some("|"), Some("b"), Some("|"), Some("c"), None, None, None, None, None]
    ensures Defined(t, 6) && Decide(t, 6, h) == Pipeline(["a"], ["b", "|", "c"])
  {
    assert !IsRecallWord("a") && !IsBuiltin("a");
    assert !Matches(t[0], PIPE) && Matches(t[1], PIPE);
    assert FirstOf(t, 6, PIPE) == 1;
    assert Argv(t[..1]) == ["a"];
    assert t[2..] == [Some("b"), Some("|"), Some("c"), None, None, None, None, None];
    ArgvUnique(t[2..], ["b", "|", "c"]);
  }

  /** A bare "!" is not a recall word: it falls through and is run as a program named "!". */
  lemma BareBangIsACommand(h: seq<string>)
    requires |h| <= MAX_HISTORY
    ensures LineDefined("!\n") && Step(h, "!\n").1 == Simple(None, ["!"])
  {
    var fs, ds := ["!", ""], ['\n'];
    assert Join(fs, ds) == "!\n";
    TokenSlotsOfJoin(fs, ds);
    var t := TokenSlots("!\n");
    assert t == [Some("!"), None, None, None, None, None, None, None, None, None];
    assert !IsRecallWord("!") && !IsBuiltin("!");
    assert !Matches(t[0], PIPE) && !Matches(t[1], PIPE);
    assert !Matches(t[0], REDIRECTIONS) && !Matches(t[1], REDIRECTIONS);
    assert FirstOf(t, 2, PIPE) == -1 && RedirectIndex(t, 2) == -1;
    assert Argv(ExecSlots(t, 2)) == ["!"];
  }

  /**
   * Ten or more ordinary words fill every slot, so the simple-command path
   * would hand execvp an array with no NULL terminator: such a line is
   * outside the defined inputs.
   */
  lemma TenWordsAreUndefined(line: string)
    requires |line| < MAX_COMMAND_SIZE && |Fields(line)| >= MAX_NUM_ARGUMENTS
    requires forall k :: 0 <= k < MAX_NUM_ARGUMENTS ==>
      Fields(line)[k] != "" && Fields(line)[k] !in PIPE + REDIRECTIONS
    requires !IsRecallWord(Fields(line)[0]) && !IsBuiltin(Fields(line)[0])
    ensures !LineDefined(line)
  {
    var t, count := TokenSlots(line), TokenCount(line);
    forall k | 0 <= k < MAX_NUM_ARGUMENTS
      ensures t[k] == Some(Fields(line)[k])
    {
      TokenSlotIsField(line, k);
    }
    assert t[0] == Some(Fields(line)[0]);
    FullArrayIsDefinedOnlyWhenRedirected(t, count);
    assert forall k :: 0 <= k < count ==> !Matches(t[k], REDIRECTIONS);
  }
}
