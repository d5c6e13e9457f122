/**
 * The decision part of the shell's main loop: given the token slots of a line
 * and the history log, which built-in runs, which argument vectors a pipeline
 * or a simple command gets, and which redirection the child applies. The
 * process effects themselves (fork, exec, pipe, dup2, open, wait, chdir) are
 * not modelled; each outcome is an Action value.
 */
module Dispatch {
  import opened Wrappers
  import opened CNumbers
  import opened Tokenizer
  import opened HistoryLog

  type Slots = seq<Option<string>>

  const PIPE: set<string> := {"|"}
  const REDIRECTIONS: set<string> := {">", "<"}

  /** S_IRUSR | S_IWUSR, octal 0600: the mode an output-redirection file is created with. */
  const OWNER_READ_WRITE: nat := 0x180

  /** The token array has its fixed size and token_count does not exceed it. */
  predicate Shaped(tokens: Slots, count: nat) {
    |tokens| == MAX_NUM_ARGUMENTS && count <= MAX_NUM_ARGUMENTS
  }

  /** Every slot at or past token_count is NULL, as the tokenizer leaves them. */
  predicate Trailing(tokens: Slots, count: nat)
    requires count <= |tokens|
  {
    forall k :: count <= k < |tokens| ==> tokens[k].None?
  }

  /** `token[i] != NULL && strcmp(token[i], t) == 0` for some t in targets. */
  predicate Matches(t: Option<string>, targets: set<string>) {
    t.Some? && t.value in targets
  }

  /** The smallest i < count whose slot matches, or -1 when there is none. */
  function FirstOf(tokens: Slots, count: nat, targets: set<string>): (r: int)
    requires count <= |tokens|
    ensures -1 <= r < count
    ensures r >= 0 ==> Matches(tokens[r], targets)
    ensures r >= 0 ==> forall j :: 0 <= j < r ==> !Matches(tokens[j], targets)
    ensures r == -1 ==> forall j :: 0 <= j < count ==> !Matches(tokens[j], targets)
  {
    if count == 0 then -1
    else
      var r := FirstOf(tokens, count - 1, targets);
      if r >= 0 then r
      else if Matches(tokens[count - 1], targets) then count - 1
      else -1
  }

  /** The scan loops for "|" and for ">"/"<": the first matching slot below token_count. */
  method FindFirst(tokens: Slots, count: nat, targets: set<string>) returns (index: int)
    requires count <= |tokens|
    ensures index == FirstOf(tokens, count, targets)
  {
    index := -1;
    for i := 0 to count
      invariant forall j :: 0 <= j < i ==> !Matches(tokens[j], targets)
    {
      if Matches(tokens[i], targets) {
        index := i;
        return;
      }
    }
  }

  /** The argument vector execvp reads from a NULL-terminated array: the slots before the first NULL. */
  function Argv(slots: Slots): (argv: seq<string>)
    ensures |argv| <= |slots|
    ensures forall i :: 0 <= i < |argv| ==> slots[i] == Some(argv[i])
    ensures |argv| < |slots| ==> slots[|argv|] == None
  {
    if slots == [] || slots[0].None? then [] else [slots[0].value] + Argv(slots[1..])
  }

  /** Argv is the only vector that agrees with the slots up to a NULL (or the end). */
  lemma ArgvUnique(slots: Slots, argv: seq<string>)
    requires |argv| <= |slots|
    requires forall i :: 0 <= i < |argv| ==> slots[i] == Some(argv[i])
    requires |argv| < |slots| ==> slots[|argv|] == None
    ensures argv == Argv(slots)
  {
  }

  /** Where cd goes: HOME when no argument, "..", or the named path. */
  datatype CdTarget = HomeDir | ParentDir | Dir(path: string)

  /** The child's redirection, with the filename slot (NULL when absent: open fails). */
  datatype Redirection =
    | OutputTo(file: Option<string>, permissions: nat)  // open(file, O_WRONLY | O_CREAT | O_TRUNC, permissions) onto stdout
    | InputFrom(file: Option<string>)                   // open(file, O_RDONLY) onto stdin

  /** What one line makes the shell do. */
  datatype Action =
    | Nothing                                          // slot 0 is NULL
    | RecallIgnored                                    // "!N" with N malformed or out of range: silently nothing
    | RunInShell(command: string)                      // "!N": /bin/sh -c <history entry>
    | ChangeDir(target: CdTarget)
    | ListHistory(text: string)                        // what printHistory prints
    | Exit(status: int)
    | Pipeline(first: seq<string>, second: seq<string>)
    | Simple(redirect: Option<Redirection>, argv: seq<string>)

  /** `token[0][0] == '!' && token[0][1] != '\0'`. */
  predicate IsRecallWord(w: string) {
    |w| >= 2 && w[0] == '!'
  }

  predicate IsBuiltin(w: string) {
    w == "cd" || w == "history" || w == "quit" || w == "exit"
  }

  /** `atoi(&token[0][1]) - 1` is defined: atoi does not overflow and neither does the subtraction. */
  predicate RecallDefined(w: string)
    requires IsRecallWord(w)
  {
    INT_MIN < Atoi(w[1..]) <= INT_MAX
  }

  /** The 0-based history index a recall word names. */
  function RecallIndex(w: string): (idx: int)
    requires IsRecallWord(w) && RecallDefined(w)
    ensures FitsInt(idx)
  {
    Atoi(w[1..]) - 1
  }

  /** The recall branch: run the entry when the index is in range, otherwise do nothing. */
  function RecallOf(w: string, history: seq<string>): (a: Action)
    requires IsRecallWord(w) && RecallDefined(w)
    ensures a.RunInShell? || a == RecallIgnored
  {
    var idx := RecallIndex(w);
    if 0 <= idx < |history| then RunInShell(history[idx]) else RecallIgnored
  }

  function CdTargetOf(arg: Option<string>): CdTarget {
    match arg
    case None => HomeDir
    case Some(p) => if p == ".." then ParentDir else Dir(p)
  }

  /**
   * The pipe split is defined: no NULL before the pipe (strdup(NULL)), the
   * pipe not in the last slot (the copy loop would read token[10]), a present
   * slot right after it (cmd2[0] is execvp's file), and a NULL after it inside
   * the array (the copy loop stops there).
   */
  predicate PipeDefined(tokens: Slots, p: nat)
    requires p < |tokens|
  {
    (forall i :: 0 <= i < p ==> tokens[i].Some?) &&
    p + 1 < |tokens| && tokens[p + 1].Some? && None in tokens[p + 1..]
  }

  function RedirectIndex(tokens: Slots, count: nat): int
    requires count <= |tokens|
  {
    FirstOf(tokens, count, REDIRECTIONS)
  }

  /**
   * The child's argv is defined: a redirection operator is neither in slot 0
   * (NULLing it would hand execvp a NULL file) nor in the last slot
   * (token[i + 1] is read), and without one some slot is NULL (so execvp gets
   * a terminated array).
   */
  predicate ExecDefined(tokens: Slots, count: nat)
    requires Shaped(tokens, count)
  {
    var r := RedirectIndex(tokens, count);
    if r >= 0 then 0 < r && r + 1 < |tokens| else None in tokens
  }

  /** The redirection the child applies: the first ">" or "<" below token_count, with the next slot as file. */
  function RedirectOf(tokens: Slots, count: nat): Option<Redirection>
    requires Shaped(tokens, count) && ExecDefined(tokens, count)
  {
    var r := RedirectIndex(tokens, count);
    if r < 0 then None
    else if tokens[r] == Some(">") then Some(OutputTo(tokens[r + 1], OWNER_READ_WRITE))
    else Some(InputFrom(tokens[r + 1]))
  }

  /** The child's token array after `token[redirectIndex] = NULL`. */
  function ExecSlots(tokens: Slots, count: nat): (slots: Slots)
    requires Shaped(tokens, count)
    ensures |slots| == |tokens|
  {
    var r := RedirectIndex(tokens, count);
    if r < 0 then tokens else tokens[r := None]
  }

  /** The line avoids every undefined-behaviour path of the branch it takes. */
  predicate Defined(tokens: Slots, count: nat)
    requires Shaped(tokens, count)
  {
    match tokens[0]
    case None => true
    case Some(w) =>
      if IsRecallWord(w) then RecallDefined(w)
      else if IsBuiltin(w) then true
      else
        var p := FirstOf(tokens, count, PIPE);
        if p > 0 then PipeDefined(tokens, p) else ExecDefined(tokens, count)
  }

  /**
   * The if/else chain of the main loop, tried in order: empty line, "!N"
   * recall, cd, history, quit/exit, then a pipeline when the first "|" is
   * past slot 0, and a simple command otherwise.
   */
  function Decide(tokens: Slots, count: nat, history: seq<string>): Action
    requires Shaped(tokens, count) && Defined(tokens, count)
  {
    match tokens[0]
    case None => Nothing
    case Some(w) =>
      if IsRecallWord(w) then RecallOf(w, history)
      else if w == "cd" then ChangeDir(CdTargetOf(tokens[1]))
      else if w == "history" then ListHistory(Listing(history))
      else if w == "quit" || w == "exit" then Exit(0)
      else
        var p := FirstOf(tokens, count, PIPE);
        if p > 0 then Pipeline(Argv(tokens[..p]), Argv(tokens[p + 1..]))
        else Simple(RedirectOf(tokens, count), Argv(ExecSlots(tokens, count)))
  }

  /**
   * The pipe-split loops: cmd1 copies every slot before the pipe, cmd2 the
   * slots after it up to the first NULL.
   */
  method SplitPipe(tokens: Slots, pipeIndex: nat) returns (cmd1: seq<string>, cmd2: seq<string>)
    requires |tokens| == MAX_NUM_ARGUMENTS && 0 < pipeIndex < |tokens|
    requires PipeDefined(tokens, pipeIndex)
    ensures cmd1 == Argv(tokens[..pipeIndex]) && |cmd1| == pipeIndex
    ensures cmd2 == Argv(tokens[pipeIndex + 1..])
  {
    cmd1 := [];
    var i := 0;
    while i < pipeIndex
      invariant 0 <= i <= pipeIndex
      invariant |cmd1| == i
      invariant forall k :: 0 <= k < i ==> tokens[k] == Some(cmd1[k])
    {
      cmd1 := cmd1 + [tokens[i].value];
      i := i + 1;
    }
    ArgvUnique(tokens[..pipeIndex], cmd1);
    cmd2 := [];
    i := pipeIndex + 1;
    while tokens[i].Some?
      invariant pipeIndex + 1 <= i < |tokens|
      invariant None in tokens[i..]
      invariant |cmd2| == i - pipeIndex - 1
      invariant forall k :: 0 <= k < |cmd2| ==> tokens[pipeIndex + 1 + k] == Some(cmd2[k])
      decreases |tokens| - i
    {
      assert tokens[i..] == [tokens[i]] + tokens[i + 1..];
      cmd2 := cmd2 + [tokens[i].value];
      i := i + 1;
    }
    ArgvUnique(tokens[pipeIndex + 1..], cmd2);
  }

  /**
   * The child of a simple command: find the first ">" or "<", choose the
   * redirection, NULL out the operator slot, and hand execvp what is left.
   * The array is the child's own copy of token[].
   */
  method PrepareExec(token: array<Option<string>>, count: nat) returns (redirect: Option<Redirection>, argv: seq<string>)
    requires Shaped(token[..], count) && ExecDefined(token[..], count)
    modifies token
    ensures token[..] == ExecSlots(old(token[..]), count)
    ensures redirect == RedirectOf(old(token[..]), count)
    ensures argv == Argv(token[..])
  {
    var redirectIndex := FindFirst(token[..], count, REDIRECTIONS);
    redirect := None;
    if redirectIndex != -1 {
      if token[redirectIndex] == Some(">") {
        redirect := Some(OutputTo(token[redirectIndex + 1], OWNER_READ_WRITE));
      } else {
        redirect := Some(InputFrom(token[redirectIndex + 1]));
      }
      token[redirectIndex] := None;
    }
    argv := Argv(token[..]);
  }

  // ---- What each branch of the chain does, both directions ----

  lemma DecideEmpty(tokens: Slots, count: nat, history: seq<string>)
    requires Shaped(tokens, count) && Defined(tokens, count)
    ensures Decide(tokens, count, history) == Nothing <==> tokens[0].None?
  {
  }

  /** "!N" runs the entry N (1-based) exactly when it is in range; otherwise nothing happens. */
  lemma DecideRecall(tokens: Slots, count: nat, history: seq<string>)
    requires Shaped(tokens, count) && Defined(tokens, count)
    ensures var a := Decide(tokens, count, history);
      (a.RunInShell? || a == RecallIgnored) <==> (tokens[0].Some? && IsRecallWord(tokens[0].value))
    ensures var a := Decide(tokens, count, history);
      a.RunInShell? <==>
        (tokens[0].Some? && IsRecallWord(tokens[0].value) && 0 <= RecallIndex(tokens[0].value) < |history|)
    ensures var a := Decide(tokens, count, history);
      a.RunInShell? ==> a.command == history[RecallIndex(tokens[0].value)]
  {
  }

  /** cd is chosen for slot 0 == "cd" and targets HOME, "..", or slot 1. */
  lemma DecideChangeDir(tokens: Slots, count: nat, history: seq<string>)
    requires Shaped(tokens, count) && Defined(tokens, count)
    ensures var a := Decide(tokens, count, history);
      a.ChangeDir? <==> tokens[0] == Some("cd")
    ensures var a := Decide(tokens, count, history);
      a.ChangeDir? ==>
        (tokens[1].None? ==> a.target == HomeDir) &&
        (tokens[1] == Some("..") ==> a.target == ParentDir) &&
        (tokens[1].Some? && tokens[1] != Some("..") ==> a.target == Dir(tokens[1].value))
  {
  }

  lemma DecideHistoryAndExit(tokens: Slots, count: nat, history: seq<string>)
    requires Shaped(tokens, count) && Defined(tokens, count)
    ensures var a := Decide(tokens, count, history);
      a.ListHistory? <==> tokens[0] == Some("history")
    ensures var a := Decide(tokens, count, history);
      a.ListHistory? ==> a.text == Listing(history)
    ensures var a := Decide(tokens, count, history);
      a.Exit? <==> (tokens[0] == Some("quit") || tokens[0] == Some("exit"))
    ensures var a := Decide(tokens, count, history);
      a.Exit? ==> a.status == 0
  {
  }

  /**
   * A pipeline exactly when slot 0 is an ordinary word and the first "|" is
   * past slot 0; the simple-command path exactly when slot 0 is an ordinary
   * word and there is no "|" or it is slot 0 itself.
   */
  lemma DecidePipeline(tokens: Slots, count: nat, history: seq<string>)
    requires Shaped(tokens, count) && Defined(tokens, count)
    ensures var a := Decide(tokens, count, history);
      a.Pipeline? <==>
        (tokens[0].Some? && !IsRecallWord(tokens[0].value) && !IsBuiltin(tokens[0].value) &&
         FirstOf(tokens, count, PIPE) > 0)
    ensures var a := Decide(tokens, count, history);
      a.Simple? <==>
        (tokens[0].Some? && !IsRecallWord(tokens[0].value) && !IsBuiltin(tokens[0].value) &&
         FirstOf(tokens, count, PIPE) <= 0)
  {
  }

  /**
   * The two commands of a pipeline: cmd1 is every slot before the first "|"
   * (so it holds no "|"), cmd2 the slots after it up to the first NULL.
   */
  lemma PipelineCommands(tokens: Slots, count: nat, history: seq<string>)
    requires Shaped(tokens, count) && Defined(tokens, count)
    requires Decide(tokens, count, history).Pipeline?
    ensures var a := Decide(tokens, count, history); var p := FirstOf(tokens, count, PIPE);
      a.first == Argv(tokens[..p]) && a.second == Argv(tokens[p + 1..]) &&
      PipeDefined(tokens, p) && (forall k :: 0 <= k < p ==> !Matches(tokens[k], PIPE))
  {
    var w := tokens[0].value;
    assert !IsRecallWord(w) && !IsBuiltin(w);
    var p := FirstOf(tokens, count, PIPE);
    assert p > 0;
  }

  /** Every slot before the pipe lands in cmd1, in order, and none of them is "|". */
  lemma FirstCommandIsPrefix(tokens: Slots, p: nat)
    requires p < |tokens| && PipeDefined(tokens, p)
    requires forall k :: 0 <= k < p ==> !Matches(tokens[k], PIPE)
    ensures var cmd1 := Argv(tokens[..p]);
      |cmd1| == p &&
      (forall k :: 0 <= k < p ==> tokens[k] == Some(cmd1[k])) &&
      (forall k :: 0 <= k < p ==> cmd1[k] != "|")
  {
    var before := tokens[..p];
    var cmd1 := Argv(before);
    forall k | 0 <= k < p
      ensures tokens[k] == Some(cmd1[k]) && cmd1[k] != "|"
    {
      assert before[k] == Some(cmd1[k]);
      assert !Matches(tokens[k], PIPE);
    }
  }

  /**
   * The simple-command argv is the slot prefix before the first NULL, after the
   * operator slot is NULLed: so it never holds a redirection operator, and when
   * there is a redirection it stops before the operator and its filename.
   */
  lemma SimpleArgvExcludesRedirection(tokens: Slots, count: nat)
    requires Shaped(tokens, count) && ExecDefined(tokens, count) && Trailing(tokens, count)
    ensures var argv := Argv(ExecSlots(tokens, count));
      forall k :: 0 <= k < |argv| ==> argv[k] != ">" && argv[k] != "<"
    ensures var argv := Argv(ExecSlots(tokens, count)); var r := RedirectIndex(tokens, count);
      r >= 0 ==> |argv| <= r
    ensures var argv := Argv(ExecSlots(tokens, count));
      forall k :: 0 <= k < |argv| ==> tokens[k] == Some(argv[k])
  {
    var slots := ExecSlots(tokens, count);
    var argv := Argv(slots);
    var r := RedirectIndex(tokens, count);
    if r >= 0 {
      assert slots[r] == None;
    }
    forall k | 0 <= k < |argv|
      ensures argv[k] != ">" && argv[k] != "<"
    {
      assert slots[k] == Some(argv[k]);
      assert !Matches(tokens[k], REDIRECTIONS);
    }
  }

  /** With no redirection operator, the simple command's argv is the plain slot prefix. */
  lemma SimpleWithoutRedirection(tokens: Slots, count: nat)
    requires Shaped(tokens, count) && ExecDefined(tokens, count)
    requires forall k :: 0 <= k < count ==> !Matches(tokens[k], REDIRECTIONS)
    ensures RedirectOf(tokens, count) == None
    ensures Argv(ExecSlots(tokens, count)) == Argv(tokens)
  {
  }

  /**
   * When no slot is NULL (ten words on the line), the only defined path for a
   * word that is not a builtin is a simple command whose redirection operator
   * stands before the last slot: a pipeline has no NULL after "|" to end
   * cmd2, and without an operator execvp gets no terminator.
   */
  lemma FullArrayIsDefinedOnlyWhenRedirected(tokens: Slots, count: nat)
    requires Shaped(tokens, count) && None !in tokens
    requires tokens[0].Some? && !IsRecallWord(tokens[0].value) && !IsBuiltin(tokens[0].value)
    ensures Defined(tokens, count) <==>
      FirstOf(tokens, count, PIPE) <= 0 && 0 < RedirectIndex(tokens, count) < MAX_NUM_ARGUMENTS - 1
  {
    var p := FirstOf(tokens, count, PIPE);
    if p > 0 {
      assert None !in tokens[p + 1..];
    }
  }

  /** On a defined pipe split both commands name a program. */
  lemma PipelineCommandsAreNonEmpty(tokens: Slots, p: nat)
    requires 0 < p < |tokens| && PipeDefined(tokens, p)
    ensures Argv(tokens[..p]) != [] && Argv(tokens[p + 1..]) != []
  {
    assert tokens[..p][0] == tokens[0];
    assert tokens[p + 1..][0] == tokens[p + 1];
  }

  /** A defined simple command names a program: the child's argv is not empty. */
  lemma SimpleArgvIsNonEmpty(tokens: Slots, count: nat)
    requires Shaped(tokens, count) && ExecDefined(tokens, count) && tokens[0].Some?
    ensures Argv(ExecSlots(tokens, count)) != []
  {
    assert ExecSlots(tokens, count)[0] == tokens[0];
  }

  /**
   * "> out" or "< in" with no pipe: the child would NULL slot 0 and hand
   * execvp a NULL program after opening the file, so the line is undefined.
   */
  lemma OperatorFirstIsUndefined(tokens: Slots, count: nat)
    requires Shaped(tokens, count) && 1 <= count && Matches(tokens[0], REDIRECTIONS)
    requires FirstOf(tokens, count, PIPE) < 0
    ensures !Defined(tokens, count)
  {
    assert RedirectIndex(tokens, count) == 0;
  }

  /**
   * The line is undefined when the slot after the first pipe is NULL ("ls |"),
   * because the second command then has no program, and when the pipe is the
   * last slot, because the copy loop then reads token[10], past the array.
   */
  lemma EmptySecondCommandIsUndefined(tokens: Slots, count: nat)
    requires Shaped(tokens, count) && tokens[0].Some?
    requires !IsRecallWord(tokens[0].value) && !IsBuiltin(tokens[0].value)
    requires var p := FirstOf(tokens, count, PIPE);
      p > 0 && (p + 1 == |tokens| || tokens[p + 1].None?)
    ensures !Defined(tokens, count)
  {
  }
}
