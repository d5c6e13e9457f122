# msh: a verified model of the Mav shell's line handling

msh is a small interactive shell written in C (`msh.c`). Each pass of its main
loop reads one line and does the following:

1. **History.** It appends the line to a bounded history log of 50 entries. `printHistory` lists the log, oldest first, as `[i] line`.
2. **Tokenizing.** A `strsep` loop splits the line on blank, tab and newline into a fixed array of 10 token slots. An empty field leaves its slot NULL.
3. **Dispatch.** An if/else chain picks one outcome:
   - do nothing;
   - recall entry N with `!N`, re-running it through `/bin/sh -c`;
   - `cd`;
   - `history`;
   - `quit` or `exit`;
   - a two-command pipeline split at the first `|`;
   - a simple command. Its child honours the first `>` or `<`, NULLs that slot, and calls `execvp` on the remaining prefix.

This project models that decision logic in Dafny and proves what it does. The
process effects are not modelled: each outcome is returned as an `Action`
value that says which argv, which file, which mode and which history entry.

Modules, one file each:

- `wrappers.dfy` (`Wrappers`): the `Option` type, used for a token slot that may be NULL.
- `cnumbers.dfy` (`CNumbers`):
  - `printf("%d")` for non-negative numbers (`Decimal`);
  - C's `atoi` as the exact integer it denotes (`Atoi`);
  - the bounds of a 32-bit `int`.
- `tokenizer.dfy` (`Tokenizer`):
  - one `strsep` call (`StrSep`);
  - the list of fields it hands out (`Fields`);
  - the token array and `token_count` after the loop (`TokenSlots`, `TokenCount`);
  - the loop itself, as a method over an array (`Tokenize`).
- `history.dfy` (`HistoryLog`): the history log as a class over a fixed `array<string>` and a size counter.
  - `Add` is `addToHistory`, shifting the array in place when the log is full.
  - `Render` is `printHistory`, returning the printed text.
  - These are specified by the value-level functions `Appended`, `Replay` and `Listing`.
- `dispatch.dfy` (`Dispatch`):
  - the if/else chain as a function (`Decide`);
  - the searches for `|` and for a redirection operator (`FirstOf`, `FindFirst`);
  - the pipe-split loops (`SplitPipe`);
  - the child's redirection scan, which works in place on its copy of the token array (`PrepareExec`);
  - `Defined`, which states when a line stays clear of the source's undefined behaviour.
- `shell.dfy` (`Shell`):
  - one pass of the main loop (`HandleLine`, specified by `Step`);
  - lemmas about particular lines.

Where the code differs from what one might expect of a shell, the model follows the code:

- **Empty fields.** Tokens are the fields `strsep` returns, so consecutive delimiters produce empty fields. Each empty field takes a slot as NULL; runs of whitespace are not collapsed. As a result `ls  -l` runs `ls` alone.
- **History.** A line is left out of the history only when its length is zero. A line of only whitespace, such as `"\n"`, is stored.
- **atoi.** It is modelled as the C library function: it skips leading `isspace` characters, reads an optional sign, then decimal digits.

## Model

| member | source | states |
|---|---|---|
| CNumbers.Decimal | msh.c:142 | The text `printf("%d")` writes for a non-negative number: the digits of n, most significant first, never empty. What the text means is stated by `DecimalIsNumeral`. |
| CNumbers.DecimalIsNumeral | msh.c:142 | The `%d` text of a non-negative number is a non-empty run of decimal digits. It denotes exactly that number and has no leading zero unless it is "0" itself. |
| CNumbers.DecimalLength | msh.c:142 | A number below 10^k (k ≥ 1) is printed with at most k digits. |
| CNumbers.IntFitsTenDigits | msh.c:142 | Every non-negative C int is printed with at most ten digits. |
| CNumbers.Atoi | msh.c:220 | atoi as the exact integer: skip `isspace` characters, read an optional `+` or `-`, then the longest digit run; no digits gives 0. Characterised by `AtoiOfDecimal`, `AtoiOfNegativeDecimal` and `AtoiWithoutDigits`; whether it fits an int is `FitsInt`. |
| CNumbers.AtoiOfDecimal | msh.c:220 | atoi reads back the numeral printf writes when a non-digit (or the end) follows it: `atoi(Decimal(n) + rest) == n`. |
| CNumbers.AtoiOfNegativeDecimal | msh.c:220 | A leading `-` negates the numeral that follows it. |
| CNumbers.AtoiWithoutDigits | msh.c:220 | Text with no digit after the leading blanks and the optional sign reads as 0. |
| Tokenizer.StrSep | msh.c:202 | One strsep call. A NULL working_string gives NULL and stays NULL. Otherwise the field has no delimiter, working_string becomes NULL when none is left, and otherwise the text is the field, one delimiter and the new working_string. |
| Tokenizer.Fields | msh.c:202-203 | The strings successive strsep calls hand out: the text split at every blank, tab and newline, an empty string between adjacent delimiters, never an empty list. Characterised by `FieldsReassemble`, `JoinSplits` and `FieldsHaveNoDelimiter`. |
| Tokenizer.Slot | msh.c:205-209 | What one field puts in its slot: NULL exactly when the field is empty, otherwise the field cut to 128 characters (its prefix of length min(length, 128)). |
| Tokenizer.TokenCount | msh.c:202-211 | token_count after the loop: the number of fields, but at most 10, because the count test comes after each strsep call. |
| Tokenizer.TokenSlots | msh.c:183-211 | The 10-slot token array after the loop: slot k is `Slot` of field k while k < token_count, NULL after. Characterised by `TokenSlotIsField` and `TokenSlotsOfJoin`. |
| Tokenizer.Tokenize | msh.c:181-211 | The loop leaves exactly `TokenSlots(line)` in the 10-slot array and `TokenCount(line)` in token_count. |
| Tokenizer.PendingAfterStrSep | msh.c:202-203 | Successive strsep calls hand out exactly the fields of the text, in order, then NULL. |
| Tokenizer.SlotsOfFields | msh.c:183-211 | An array whose first token_count slots each hold its field's slot value, and which is NULL from token_count on, is the token array of the line. |
| Tokenizer.FieldsHaveNoDelimiter | msh.c:202 | No field contains a blank, tab or newline. |
| Tokenizer.FieldsAreShort | msh.c:205 | No field is longer than its line. |
| Tokenizer.FieldsReassemble | msh.c:202-211 | There is exactly one more field than delimiters, and fields and delimiters glued back together give the line. |
| Tokenizer.JoinSplits | msh.c:202-211 | Delimiter-free fields joined by delimiters split back into exactly those fields (the converse round trip). |
| Tokenizer.FieldsAfterDelimiter | msh.c:202 | A word followed by a delimiter is a field of its own, before the fields of what follows. |
| Tokenizer.FieldsOfAppend | msh.c:202 | Appending text changes no field but the last, which absorbs the start of the appended text. |
| Tokenizer.TokenSlotIsField | msh.c:205-209 | For a line shorter than 128 characters, slot k is field k when k < token_count and that field is non-empty. It is NULL when the field is empty, and NULL for every k from token_count on. |
| Tokenizer.TokenSlotsOfJoin | msh.c:183-211 | A line built from delimiter-free fields fills the slots with its first ten fields, each empty field NULL, and token_count is min(fields, 10). |
| Tokenizer.PresentSlotsAreWords | msh.c:205-209 | A present slot holds a non-empty word without delimiters. |
| Tokenizer.ExtraFieldsAreDropped | msh.c:202-203 | Once a line has more than 10 fields, anything appended leaves the slots and token_count (10) unchanged. |
| Tokenizer.LeadingDelimiterEmptiesFirstSlot | msh.c:202-209 | A line starting with a blank, tab or newline leaves slot 0 NULL. |
| HistoryLog.Appended | msh.c:50-70 | The log after addToHistory as a sequence: unchanged for a zero-length line, otherwise the line is the new last entry, the oldest entry dropped first when 50 are stored; never more than 50 entries. |
| HistoryLog.Row | msh.c:142 | One line of printHistory: `[i] entry` followed by a newline, with i as printf writes it. |
| HistoryLog.Listing | msh.c:138-144 | printHistory's whole output: the rows of the log numbered 1..size, oldest first. Characterised by `ListingShowsEntry`, `RowsSnoc` and `RowsConcat`. |
| HistoryLog.History.constructor | msh.c:46-47 | The log starts empty. |
| HistoryLog.History.Add | msh.c:50-70 | The new contents are `Appended(old contents, line)`, and the whole array and size are stated. A zero-length line changes nothing. Below capacity the line goes to index size and size grows by 1. At capacity entries 1..49 move to 0..48, the line goes to 49, and size stays 50. 0 ≤ size ≤ 50 is kept throughout. |
| HistoryLog.History.Render | msh.c:138-144 | The printed text is `Listing(contents)`: row `[i] entry` for i = 1..size, oldest first. |
| HistoryLog.Replay | msh.c:50-70 | Adding any sequence of lines to an empty log never takes it past 50 entries. |
| HistoryLog.AppendedKeepsRecent | msh.c:50-70 | A zero-length line leaves the log as it was. Any other line becomes the last entry, and the log is the last 50 of old entries plus the line. |
| HistoryLog.ReplayKeepsMostRecent | msh.c:50-70 | After any sequence of lines, the log holds exactly the 50 most recent lines of non-zero length, in order. |
| HistoryLog.RowsSnoc | msh.c:140-143 | Adding an entry adds exactly one row, numbered after the others, at the end of the listing. |
| HistoryLog.RowsConcat | msh.c:140-143 | The rows of two consecutive parts of the log are the rows of the first, then those of the second numbered on from it. |
| HistoryLog.ListingShowsEntry | msh.c:140-143 | Entry k is printed as row `[k+1]`, after the rows of all older entries and before those of the newer ones. |
| Dispatch.Decide | msh.c:213-304 | The if/else chain as a value: empty, then `!N`, cd, history, quit/exit, then a pipeline when the first `|` is past slot 0, otherwise the simple command. Defined by its body and characterised by the `Decide*` lemmas below. |
| Dispatch.Defined | msh.c:213-345 | The lines whose branch avoids undefined behaviour. Recall: atoi and the `- 1` do not overflow (msh.c:220). Pipeline: no NULL before the `|`, the `|` not in slot 9, a present slot right after it and a NULL later inside the array (msh.c:280, 288). Simple path: the operator is neither in slot 0 nor in slot 9 (msh.c:313, 326, 342-345), and without one some slot is NULL (msh.c:345). |
| Dispatch.CdTargetOf | msh.c:237-251 | The directory cd changes to: HOME when slot 1 is NULL, `..` for "..", the word in slot 1 otherwise. Characterised by `DecideChangeDir`. |
| Dispatch.RedirectOf | msh.c:309-336 | The redirection the child applies: the first `>` or `<` below token_count, with the next slot as file. `>` opens it write-only, created and truncated, mode 0600; `<` opens it read-only; no operator gives none. |
| Dispatch.FirstOf | msh.c:267-272 | The smallest index below token_count whose slot is present and in the target set, or -1 when there is none. |
| Dispatch.FindFirst | msh.c:267-272 | The search loop (for the pipe symbol, and for ">"/"<" in the child) returns `FirstOf`. |
| Dispatch.Argv | msh.c:345 | What execvp reads: the present slots before the first NULL (or the end), in order. |
| Dispatch.RecallIndex | msh.c:220 | `atoi(word + 1) - 1` fits a C int on a defined line. |
| Dispatch.RecallOf | msh.c:221-232 | A recall either runs a history entry or is silently ignored. |
| Dispatch.ExecSlots | msh.c:340-343 | NULLing the operator slot keeps the array at 10 slots. |
| Dispatch.SplitPipe | msh.c:274-292 | cmd1 is every slot before the pipe and has pipeIndex entries. cmd2 is the slots after the pipe up to the first NULL. |
| Dispatch.PrepareExec | msh.c:308-345 | The child's array becomes `ExecSlots` (operator slot NULLed), the redirection is `RedirectOf`, and argv is the array's prefix before its first NULL. RedirectOf gives `>` with the next slot as file and mode 0600, `<` with the next slot read-only, or none. |
| Dispatch.DecideEmpty | msh.c:213-216 | The line does nothing exactly when slot 0 is NULL. |
| Dispatch.DecideRecall | msh.c:219-233 | A recall outcome happens exactly for a slot 0 of "!" plus at least one character. The entry runs exactly when 0 ≤ atoi − 1 < history size, and it is the entry at that index. |
| Dispatch.DecideChangeDir | msh.c:235-252 | cd happens exactly for slot 0 "cd". It targets HOME when slot 1 is NULL, ".." for "..", and slot 1 otherwise. |
| Dispatch.DecideHistoryAndExit | msh.c:253-261 | The listing happens exactly for "history" and is `Listing(history)`. Exit happens exactly for "quit" or "exit", with status 0. |
| Dispatch.DecidePipeline | msh.c:262-274 | A pipeline happens exactly when slot 0 is an ordinary word and the first pipe symbol is past slot 0. The simple-command path happens exactly when slot 0 is an ordinary word and there is no pipe symbol or it is slot 0. |
| Dispatch.PipelineCommands | msh.c:274-292 | A pipeline's commands are the slots before the first pipe symbol (none of which is a pipe symbol) and the slots after it up to a NULL. The split is defined. |
| Dispatch.FirstCommandIsPrefix | msh.c:279-282 | cmd1 has one entry per slot before the pipe, in order, and none of them is the pipe symbol. |
| Dispatch.SimpleArgvExcludesRedirection | msh.c:309-345 | The simple command's argv never holds ">" or "<". With a redirection it ends before the operator, so the file name is never an argument either. Every argument is the slot at its index. |
| Dispatch.SimpleWithoutRedirection | msh.c:309-345 | With no ">" or "<" below token_count, there is no redirection and argv is the plain slot prefix. |
| Dispatch.FullArrayIsDefinedOnlyWhenRedirected | msh.c:288-345 | With no NULL slot and an ordinary slot 0, the line is defined exactly when it takes the simple path with a redirection operator past slot 0 and before the last slot. |
| Dispatch.PipelineCommandsAreNonEmpty | msh.c:274-292 | On a defined pipe split both commands are non-empty, so each execvp gets a program name. |
| Dispatch.SimpleArgvIsNonEmpty | msh.c:338-345 | On a defined simple path the child's argv is non-empty, so execvp gets a program name. |
| Dispatch.OperatorFirstIsUndefined | msh.c:309-345 | A `>` or `<` in slot 0 with no pipe makes the line undefined: slot 0 would be NULLed and handed to execvp as the program. |
| Dispatch.EmptySecondCommandIsUndefined | msh.c:285-292 | When the slot after the first pipe is NULL, the line is undefined because cmd2 would have no program. When the pipe is the last slot, it is undefined because the copy loop would read `token[10]`, past the array. |
| Shell.Step | msh.c:179-262 | One pass of the main loop as a value: the log after addToHistory, and `Decide` on the line's tokens against that new log. |
| Shell.HandleLine | msh.c:179-262 | One pass of the loop returns `Step`: the history is `Appended` and the action is `Decide` on the tokens against the new history. |
| Shell.Run | msh.c:213-262 | The if/else chain over the tokens and the log computes `Decide` on the log's contents. |
| Shell.RunCommand | msh.c:262-304 | For an ordinary slot 0, the pipe search and the split or the child's preparation compute `Decide`. |
| Shell.RunChild | msh.c:305-345 | The forked child's copy of the tokens yields `RedirectOf` and the argv after the operator slot is NULLed. |
| Shell.EmptyLineChangesNothing | msh.c:53-54 | A zero-length line is neither stored nor acted on. |
| Shell.LeadingBlankDoesNothingButIsStored | msh.c:179-216 | A line starting with whitespace does nothing but is still stored as the newest entry, so "\n" alone is stored. |
| Shell.RecallLineTokens | msh.c:219-220 | For every N from 0 to INT_MAX, the line `!N` gives slot 0 `!N`, a recall word whose atoi is defined and whose index is N − 1. |
| Shell.RecallStep | msh.c:179-221 | For every N from 0 to INT_MAX, the line `!N` is defined and takes the recall branch against the log that already holds it. |
| Shell.RecallRunsListedEntry | msh.c:219-224 | Below capacity, `!i` runs exactly the entry that the listing shows as row `[i]`. |
| Shell.RecallAtCapacityIsShifted | msh.c:179-224 | At capacity the current line evicts the oldest entry first. So `!i` runs the entry that was `[i+1]`, and `!50` runs itself. |
| Shell.RecallSeesCurrentLine | msh.c:179-224 | `!1` typed into an empty log runs `!1` itself. |
| Shell.RecallZeroIsIgnored | msh.c:220-221 | `!0` does nothing. |
| Shell.RecallNonNumberIsIgnored | msh.c:220-221 | `!x` does nothing. |
| Shell.DoubleBlankEndsArgv | msh.c:205-209 | `ls  -l` runs `ls` alone: the empty field's NULL slot ends the argv. |
| Shell.PipelineLine | msh.c:267-292 | The line "ls -l", pipe symbol, "wc" runs the pipeline `[ls, -l]` into `[wc]`. |
| Shell.SecondPipeIsAnArgument | msh.c:267-292 | In "a", pipe, "b", pipe, "c" only the first pipe symbol splits; the second is passed to `b` as an argument. |
| Shell.RedirectionLine | msh.c:309-345 | `echo hello > out.txt` runs `[echo, hello]` with stdout to out.txt, mode 0600. |
| Shell.RedirectionBeforeBlank | msh.c:309-345 | In `ls >  out` (two blanks) the slot after `>` is NULL, so the output file is NULL although `out` follows, and argv is `[ls]`. |
| Shell.BareBangIsACommand | msh.c:219 | A bare `!` is not a recall and is run as a program named `!`. |
| Shell.TenWordsAreUndefined | msh.c:345 | A line whose first ten fields are ordinary words fills every slot. It is outside the defined inputs, because execvp would get no NULL terminator. |

## Left out

- Process and file effects are not modelled: `fork`, `execvp`, `execlp("/bin/sh")`, `wait`/`waitpid`, `pipe`, `dup2`, `open`/`close` (`runPipeCommands` included). The model returns what they would be given instead.
- `blockSignals`/`sigprocmask`: signal configuration has no computed result.
- `chdir` and `getenv("HOME")`: only the chosen target is modelled.
- The prompt and the `fgets` loop are I/O. The line is a parameter, and lines are C strings without an embedded NUL. Each Dafny `char` stands for one byte of the C string, so the 128-byte bounds of `fgets` and `strndup` are counted in chars. No modelled result depends on the difference, because every delimiter, `isspace` and digit test is on ASCII characters.
- `printf` is modelled as the returned text.
- `malloc`/`strdup`/`free` and the leaks they cause are left out. These include the `strndup` of an empty field and the cleanup skipped after `history`.
- Dispatch.Decide: requires `Defined`, so lines with undefined behaviour in C are outside the model rather than given a meaning. They are:
  - a NULL slot before `|` (`strdup(NULL)`);
  - a `|` followed directly by a NULL slot (`cmd2[0]` is NULL, so the second `execvp` gets a NULL program);
  - a `|` in slot 9 (the copy loop at msh.c:288 reads `token[10]`, past the array);
  - no NULL slot after `|` inside the array;
  - a redirection operator in slot 0 on the simple path (slot 0 is NULLed, so `execvp` gets a NULL program after the file was opened);
  - a redirection operator in slot 9 (`token[10]` is read);
  - no NULL slot at all on the simple path (execvp's argv is unterminated);
  - an `atoi` result that overflows a C int, or the `- 1` after it.
- Shell.HandleLine: requires `LineDefined` for the same reason. So do Shell.Run, Shell.RunCommand, Shell.RunChild, Dispatch.SplitPipe and Dispatch.PrepareExec, for the branches they cover.
- Dispatch.RedirectOf: when the slot after the operator is NULL, the file is NULL (`None`). This happens when the operator ends the line, and also when an empty field follows it (`ls >  out`). open fails on it and the child exits, and that failure is not modelled.
- CNumbers.Atoi: returns the exact integer. Values outside a C int are excluded by the `Defined` requires instead of being wrapped.
