# A line-oriented shell, modelled in Dafny

The system is a small interactive shell. It reads lines, splits each one into a
pipeline at the `|` characters that are outside quotes, and cuts every segment
into tokens. A single-quoted token is taken literally. A double-quoted or
unquoted token is marked for `$NAME` substitution. Leading `NAME=value` words
set shell variables. Each remaining stage is then run as a built-in (`echo`,
`exit`, `wc`, `grep`, `cat`, `pwd`) or as an external program found along
`PATH`.

The model has one module per component:

- `PipeSplit` and `Tokenizer`: the two scanners of the parser.
- `Parser`: `Parser::parse`, which turns a line into a pipeline of `CommandNode`s (`Ast`).
- `Expansion`: the `$NAME` / `${NAME}` / `$$` substitution.
- `Env`: the variable store, a class over a map.
- `Interpreter`: assignment handling, removal of empty leading stages, and the read loop.
- `Registry` and `Executor`: command lookup and the exit-sentinel protocol.
- `EchoCmd`, `ExitCmd`, `WcCmd` and `Grep`: the built-ins.
- `ExternalCmd`: the Windows command-line builder, the `PATH` search and the empty-argument guard.
- `Foo`: the greeting helper.
- `Text`: shared helpers.

The model follows the shape of the source:

- State that the source mutates is a class with `modifies` clauses: the environment and the registry.
- Loops in the source are methods with loop invariants, proved against specification functions.
- Recursive specification functions carry lemmas that state what the source promises.
- Things outside the program are function parameters:
  - the file system (`open`), the process spawn (`run`) and the `stat` executable test (`isExec`);
  - regular-expression matching (`matches`) and CLI11 option parsing (`parse`, `compile`);
  - execution of a whole pipeline (`exec`).
- `std::isspace` is fixed to the six ASCII whitespace characters.

## Model

| member | source | states |
|---|---|---|
| PipeSplit.SplitByPipe | src/parser.cpp:52-101 | the scan with its two quote flags and segment buffer yields exactly the reference segmentation `Split`; joining the segments with the pipe character gives the line back, and there is one segment more than there are separating pipe characters |
| PipeSplit.SplitJoin | src/parser.cpp:58-99 | joining the segments with the pipe character reproduces the input line exactly |
| PipeSplit.SplitCount | src/parser.cpp:58-99 | the number of segments is one more than the number of pipe characters found outside quotes |
| PipeSplit.SplitModes | src/parser.cpp:60-85 | every segment but the last ends with both quotes closed; the scanner state after the last segment is the state after the whole line, so a quote left open carries to the end |
| PipeSplit.SplitNoSeparators | src/parser.cpp:60-97 | no segment contains a pipe character that would separate, so a pipe character inside quotes (or after `\` inside single quotes) never splits |
| PipeSplit.SplitStep | src/parser.cpp:86-97 | one more character either closes the segment (an unquoted pipe character) and opens an empty one, or extends the current segment |
| PipeSplit.SplitNoPipe | src/parser.cpp:58-100 | a line without a pipe character is a single segment equal to the line |
| PipeSplit.SplitSingle | src/parser.cpp:58-100 | a line that splits into one segment is that segment |
| PipeSplit.ScanEscapePair | src/parser.cpp:60-69 | inside single quotes a backslash and the character after it are copied as a pair, so `\'` does not close the quote |
| Tokenizer.WeakEscape | src/parser.cpp:14-49 | one escape step always advances the index and appends one or two characters; at the end it appends nothing |
| Tokenizer.WeakEscapeEncoded | src/parser.cpp:14-49 | the escape table inverts `EncodeWeakChar`: each encoded character, whatever follows, decodes to that character in one step |
| Tokenizer.WeakBodyDecodes | src/parser.cpp:128-141 | a single-quoted body whose escape steps decode `t` yields `t` and resumes just after the closing quote, or at the end of the segment when the quote is never closed |
| Tokenizer.EncodedDecodes | src/parser.cpp:14-49 | any encoded text followed by a quote decodes step by step, whatever surrounds it |
| Tokenizer.WeakQuoteRoundTrip | src/parser.cpp:128-141 | every text, encoded between single quotes, reads back as one token with exactly that text, flagged not to substitute |
| Tokenizer.EncodedDecodesOpen | src/parser.cpp:132-135 | any encoded text running to the end of the segment decodes step by step, whatever comes before it |
| Tokenizer.WeakQuoteOpen | src/parser.cpp:128-141 | a single quote never closed takes the rest of the segment: every encoded text after it reads back as one unsubstituted token with exactly that text |
| Tokenizer.EmptyQuotes | src/parser.cpp:128-156 | `''` and `""` each give one empty token (unsubstituted and substituted), and reading goes on right after them |
| Tokenizer.StrongBodyShape | src/parser.cpp:142-156 | a double-quoted body is copied verbatim, backslashes included, up to the first `"`; without a closing quote it runs to the end of the segment |
| Tokenizer.StrongBodyExact | src/parser.cpp:142-156 | a body without `"` that ends at a `"` or at the end of the segment is read whole |
| Tokenizer.StrongQuoteRoundTrip | src/parser.cpp:142-156 | any text without `"` between double quotes reads back verbatim as one substituted token, with or without the closing quote |
| Tokenizer.WordEnd | src/parser.cpp:158-166 | an unquoted run is maximal: all its characters are word characters and the next one is not |
| Tokenizer.LexFromEmptyIff | src/parser.cpp:122-168 | the tokens from a position are none exactly when only whitespace follows |
| Tokenizer.LexEmptyIff | src/parser.cpp:122-168 | a segment has no tokens exactly when it is blank |
| Tokenizer.LexFromBare | src/parser.cpp:158-166 | unquoted tokens are non-empty and hold no whitespace and no quote |
| Tokenizer.LexJoinedWords | src/parser.cpp:122-168 | plain words joined by single spaces read back as exactly those words, unquoted |
| Tokenizer.LexWords | src/parser.cpp:122-168 | a whole segment of plain words gives exactly those words |
| Tokenizer.ReadWeakBody | src/parser.cpp:128-141 | the single-quote loop computes the decoded body and the resume index of the reference `WeakBody` |
| Tokenizer.ReadStrongBody | src/parser.cpp:142-156 | the double-quote loop computes the body and resume index of `StrongBody` |
| Tokenizer.ReadWord | src/parser.cpp:158-166 | the unquoted loop stops at the maximal end `WordEnd` and the token is the characters in between |
| Tokenizer.SkipSpaces | src/parser.cpp:123-126 | skipping whitespace does not change the tokens yet to be read and stops at the end or at a non-space |
| Tokenizer.ReadToken | src/parser.cpp:128-166 | one token read from a non-space position is the first lexeme of the reference tokenization from there, and the index advances |
| Tokenizer.TokenizeSegment | src/parser.cpp:105-169 | `tokens` and `substitute_flags` have equal length and are the texts and flags (single-quoted No, otherwise Yes) of the reference tokenization |
| Parser.IsBlank | src/parser.cpp:171-175 | the result holds exactly when every character is whitespace |
| Parser.BuildNode | src/parser.cpp:188-216 | the node built for a segment is the reference `NodeOf` |
| Parser.NodeOfTokens | src/parser.cpp:188-216 | a blank or token-less segment gives the empty node; otherwise the name and arguments are exactly the tokens in order, each keeping its flag, and as many argument flags as arguments |
| Parser.NodeFlags | src/parser.cpp:209-214 | an argument is left unsubstituted exactly when its token was single-quoted |
| Parser.Parse | src/parser.cpp:179-231 | the loop over segments yields the reference `ParseSpec` |
| Parser.ParseShape | src/parser.cpp:179-231 | a parsed pipeline has one well-formed node per segment, that is, one more node than separating pipe characters |
| Parser.ParseOneSegment | src/parser.cpp:219-228 | a line with one segment gives that segment's node, or nothing when the node is empty |
| Parser.ParseNoneIff | src/parser.cpp:219-228 | `parse` gives nothing exactly when the line has one segment whose tokens are none or a single empty token |
| Parser.ParseBlank | src/parser.cpp:188-196 | every blank line gives nothing |
| Parser.NodeOfWords | src/parser.cpp:207-216 | plain words make a node named by the first word with the others as substituted arguments |
| Parser.ParseWords | src/parser.cpp:179-231 | a line of plain words parses to that single command |
| Expansion.Expand | include/cli/environment.hpp:42-56 | text without `$` is returned unchanged, whatever the variables |
| Expansion.Reference | include/cli/environment.hpp:42-56 | the reference at a `$` is consumed whole and the scan resumes inside the text, past the `$` |
| Expansion.ExpandHead | include/cli/environment.hpp:42-56 | a character other than `$` is copied and the scan goes on after it |
| Expansion.ExpandLiteralPrefix | include/cli/environment.hpp:42-56 | literal text is copied and what follows it expands on its own |
| Expansion.ExpandDollarDollar | include/cli/environment.hpp:42-56 | `$$` becomes one literal `$` and consumes both characters |
| Expansion.ExpandBare | include/cli/environment.hpp:42-56 | `$NAME` takes the maximal name and expands to its value, or to nothing when unset |
| Expansion.ExpandBraced | include/cli/environment.hpp:42-56 | `${NAME}` expands to the value of NAME (nothing when unset), `${}` expands to nothing, and braces around an invalid name are left unchanged |
| Expansion.ExpandUnclosed | include/cli/environment.hpp:42-56 | an unclosed `${` is kept as it is, with the rest of the text |
| Expansion.ExpandLiteralDollar | include/cli/environment.hpp:42-56 | a `$` at the end or before a character that starts no reference stays literal |
| Expansion.ExpandEscaped | include/cli/environment.hpp:42-56 | expansion inverts `EscapeDollars` whatever the variables hold |
| Expansion.ExpandTwoNames | include/cli/environment.hpp:42-56 | adjacent references expand independently and concatenate |
| Env.Environment.constructor | src/environment.cpp:17 | a new environment holds no variables |
| Env.Environment.Substitute | include/cli/environment.hpp:42-56 | text without `$` is kept, and a text whose every `$` is doubled reads back as the text before the doubling |
| Env.Environment.Get | src/environment.cpp:51-56 | the stored value, or `""` for an unset name |
| Env.Environment.Set | src/environment.cpp:58-60 | the name maps to the new value, overwriting any old one, and no other variable changes |
| Env.Environment.Unset | src/environment.cpp:62-64 | the name is gone and reads as `""`; nothing else changes; unsetting an absent name changes nothing |
| Env.Environment.ToEnvVector | src/environment.cpp:66-72 | as many entries as variables; every variable has its `key=value` entry and every entry is some variable's; the order is unspecified |
| Env.EntriesCover | src/environment.cpp:66-72 | entries exported for keys that cover the variables hold an entry for every variable and nothing else |
| Env.Environment.InitFromCurrent | src/environment.cpp:38-47 | the variables become those of the reference `ApplyEntries` over the entry list |
| Env.SplitEntry | src/environment.cpp:40-45 | an entry without `=` gives nothing; otherwise it is split at its first `=`, the value may contain `=` |
| Env.SplitEntryRoundTrip | src/environment.cpp:40-45 | an exported entry `k=v` with a key without `=` splits back into `k` and `v` |
| Env.ApplyEntriesDomain | src/environment.cpp:38-47 | after reading entries a name is set exactly when it was set before or some entry names it |
| Env.ApplyEntriesLast | src/environment.cpp:38-47 | a name's value is that of the last entry naming it |
| Env.ApplyEntriesUntouched | src/environment.cpp:38-47 | a name no entry mentions keeps its old value or stays unset |
| Env.EntriesRoundTrip | src/environment.cpp:66-72 | reading back exported entries rebuilds exactly the exported variables |
| Env.ExportImport | src/environment.cpp:38-72 | exporting all variables and reading the entries back gives the same variables when no name holds `=` |
| Interpreter.AssignmentOf | src/command_line_interpreter.cpp:16-30 | every `NAME=value` with a valid name is an assignment, whatever the value holds, and splits into that name and value |
| Interpreter.IsAssignment | src/command_line_interpreter.cpp:16-30 | a token is an assignment exactly when it holds an `=` and the text before the first one is a valid name |
| Interpreter.LeadingAssignments | src/command_line_interpreter.cpp:41-59 | the consumed tokens are the maximal leading run of assignments |
| Interpreter.StripAssignmentsShape | src/command_line_interpreter.cpp:34-70 | only the first stage changes; its tokens after the leading assignments stay, in order, with their flags; when every token is an assignment the stage is left empty |
| Interpreter.AssignOne | src/command_line_interpreter.cpp:43-50 | an assignment stores its value, substituted against the variables before it unless it was single-quoted |
| Interpreter.AssignSequential | src/command_line_interpreter.cpp:43-50 | the sets happen in token order, so `A=x B=$A` also gives `B` the value `x` |
| Interpreter.ApplyToken | src/command_line_interpreter.cpp:41-59 | one token updates the stage and the variables as the reference `TokenStep` |
| Interpreter.ApplyAssignments | src/command_line_interpreter.cpp:34-70 | the new first stage and the new variables are the reference `StripAssignments` |
| Interpreter.LeadingEmpty | src/command_line_interpreter.cpp:74-79 | the count is the maximal run of empty stages at the front |
| Interpreter.DropEmptyLeading | src/command_line_interpreter.cpp:74-79 | exactly the leading empty stages are removed, the rest stays in order, and the result does not start with an empty stage |
| Interpreter.Run | src/command_line_interpreter.cpp:97-128 | the code and the final variables are those of the reference `RunSpec` over the lines |
| Interpreter.RunWithoutExit | src/command_line_interpreter.cpp:100-127 | when no line's pipeline asks to stop, `run` reads every line, returns 0 and leaves the variables the lines assigned in order |
| Interpreter.RunStopsAtFirstExit | src/command_line_interpreter.cpp:116-119 | `run` returns the exit code of the first line whose result asks to stop, with the variables that line left; later lines are never read |
| Interpreter.RunSkipsBlank | src/command_line_interpreter.cpp:108-110 | a blank line is skipped and changes nothing |
| Interpreter.ParseAssignmentWord | src/parser.cpp:179-231 | a `NAME=value` word parses as one command named by the whole word |
| Interpreter.StripAssignmentWord | src/command_line_interpreter.cpp:34-70 | that word alone sets the variable and leaves the stage empty |
| Interpreter.LineStepAssignment | src/command_line_interpreter.cpp:108-115 | a line holding only `NAME=value` runs nothing and sets the variable |
| Interpreter.RunAssignmentLine | src/command_line_interpreter.cpp:108-115 | after such a line the shell goes on with the next one, the variable set |
| Interpreter.RegisterBuiltins | src/command_line_interpreter.cpp:88-95 | the six built-ins are registered under their names |
| Registry.CommandRegistry.constructor | src/command_registry.cpp:5-9 | a new registry is empty |
| Registry.CommandRegistry.RegisterCommand | src/command_registry.cpp:5-9 | a null command stores nothing; otherwise the name maps to the command, replacing any old one, and no other name's lookup changes |
| Registry.CommandRegistry.Find | src/command_registry.cpp:11-16 | the registered command, or none exactly when the name is absent |
| Registry.CommandRegistry.Has | src/command_registry.cpp:18-20 | holds exactly when `find` finds something |
| Executor.DecodeBuiltin | src/executor.cpp:17-24 | a built-in's `-1` means stop with code 0, and any other code is passed on without stopping |
| Executor.BuildArgv | src/executor.cpp:12-15 | the argument vector is the name followed by the arguments in order |
| Executor.Execute | src/executor.cpp:7-28 | the result is the reference `ExecuteSpec`: the registered built-in if the name is found, otherwise the external program |
| Executor.ExternalNeverExits | src/executor.cpp:17-27 | only a registered built-in that returns `-1` can stop the shell; the external path never does |
| Executor.ExitStops | src/commands/exit_command.cpp:5-11 | the `exit` built-in returns the sentinel whatever its arguments, so through the executor it stops the shell with code 0 |
| EchoCmd.Execute | src/commands/echo_command.cpp:5-15 | the output is the arguments after the name joined by single spaces plus a newline, or just a newline; the code is always 0 |
| ExitCmd.Execute | src/commands/exit_command.cpp:5-11 | whatever the arguments, the result is the sentinel `-1`, a negative code the executor reads as a request to stop |
| EchoCmd.EchoLayout | src/commands/echo_command.cpp:8-13 | the name is never printed, there is no leading or trailing space, and the length is the arguments' lengths plus one space between each |
| WcCmd.Count | src/commands/wc_command.cpp:22-36 | the counting loop gives the number of newlines, of maximal non-whitespace runs and of bytes |
| WcCmd.Execute | src/commands/wc_command.cpp:7-40 | the outcome is the reference `WcSpec` |
| WcCmd.FilesFromAllOpen | src/commands/wc_command.cpp:16-39 | when every file opens, the code is 0, one report line per file in argument order, and no error |
| WcCmd.FilesFromFirstFailure | src/commands/wc_command.cpp:16-21 | the first file that cannot be opened stops with code 1 and its error; the files before it are reported and the later ones are not read |
| WcCmd.WcSucceedsIff | src/commands/wc_command.cpp:12-39 | the code is 0 exactly when there is a file operand and every file opens |
| WcCmd.WordCountAppend | src/commands/wc_command.cpp:29-35 | word counts of two texts add up, except that a word cut in two counts once |
| WcCmd.WordsJoined | src/commands/wc_command.cpp:29-35 | non-blank words joined by single spaces count as that many words |
| WcCmd.LinesJoined | src/commands/wc_command.cpp:27-28 | lines without a newline of their own, each ending in a newline, count as that many lines |
| Grep.Sort | src/commands/grep_command.cpp:21 | the ranges are reordered by start: sorted, and a permutation of the input |
| Grep.MergeRanges | src/commands/grep_command.cpp:17-33 | the loop yields the reference `Merge` |
| Grep.MergeShape | src/commands/grep_command.cpp:17-33 | nothing merges to nothing and only nothing; merged ranges neither overlap nor touch, and stay well formed |
| Grep.MergeSortedStep | src/commands/grep_command.cpp:24-31 | one more sorted range extends the last merged range when it starts within it or right after it, and is appended otherwise |
| Grep.MergeSortedSeparated | src/commands/grep_command.cpp:24-31 | each merged range starts more than one line after the previous one ends |
| Grep.MergeSortedWellFormed | src/commands/grep_command.cpp:24-31 | merging well-formed ranges gives well-formed ranges |
| Grep.MergeCovers | src/commands/grep_command.cpp:17-33 | a line is covered by the merged ranges exactly when it is covered by some input range |
| Grep.SeparatedIncreasing | src/commands/grep_command.cpp:15-16 | merged ranges are in increasing order and far apart |
| Grep.MatchRangesShape | src/commands/grep_command.cpp:53-58 | each matching line gives a well-formed range within the lines, and there are none exactly when no line matches |
| Grep.MatchRangesCover | src/commands/grep_command.cpp:53-58 | a line is covered exactly when it is a matching line or at most `after` lines after one, within the input |
| Grep.FindMatchingRanges | src/commands/grep_command.cpp:48-60 | the collected and merged ranges are the reference merge of the match ranges |
| Grep.PrintSpecIndices | src/commands/grep_command.cpp:64-75 | the printed text is the rendered line at every visited index, in visiting order |
| Grep.PrintRanges | src/commands/grep_command.cpp:64-75 | the loop writes the reference `PrintSpec`, each line prefixed with `file:` exactly when a name is given |
| Grep.SelectedMembers | src/commands/grep_command.cpp:68-69 | the visited indices are exactly the covered lines |
| Grep.SelectedIncreasing | src/commands/grep_command.cpp:68-69 | separated ranges visit each index once, in increasing order |
| Grep.GrepStream | src/commands/grep_command.cpp:79-88 | the result is 1 exactly when some line matches, and the output is the reference `StreamSpec` |
| Grep.StreamPrints | src/commands/grep_command.cpp:79-88 | the printed lines are those at increasing indices within the input, each printed once |
| Grep.StreamSelects | src/commands/grep_command.cpp:48-88 | a line is printed exactly when it is within `after` lines after a matching line |
| Grep.StreamFound | src/commands/grep_command.cpp:87 | the stream result is 1 exactly when some line matches |
| Grep.RegexPattern | src/commands/grep_command.cpp:135-137 | with `-w` the pattern is wrapped as `\b(` pattern `)\b`, and is unchanged otherwise |
| Grep.Execute | src/commands/grep_command.cpp:92-171 | the outcome is the reference `GrepSpec`: missing pattern, option error and regex error give 2; otherwise standard input or the files are searched |
| Grep.GrepFiles | src/commands/grep_command.cpp:158-167 | the file loop yields the reference `FilesSpec` |
| Grep.GrepFile | src/commands/grep_command.cpp:159-166 | one file either stops with code 2 and its error, keeping earlier output, or appends its output and folds its result into the match flag |
| Grep.FilesAllOpen | src/commands/grep_command.cpp:158-170 | when all files open, nothing goes to the error stream and the code is 0 exactly when some file matched, 1 otherwise |
| Grep.FilesFirstFailure | src/commands/grep_command.cpp:159-163 | the first file that cannot be opened stops with code 2 and its error message |
| Grep.GrepStdinCode | src/commands/grep_command.cpp:155-156 | reading standard input, the code is 0 exactly when some line matches, and 1 otherwise |
| Grep.GrepCodes | src/commands/grep_command.cpp:92-171 | every outcome has code 0, 1 or 2, and error text is written only with code 2 |
| Grep.FilesCodes | src/commands/grep_command.cpp:158-170 | the file loop's outcome has code 0, 1 or 2, and error text only with 2 |
| ExternalCmd.BuildCmdline | src/external_command.cpp:32-45 | the loop yields the reference `CmdlineSpec`: each argument quoted, joined by single spaces |
| ExternalCmd.AppendQuoted | src/external_command.cpp:37-42 | one argument appends its opening quote, its escaped characters and its closing quote |
| ExternalCmd.CmdlineSmall | src/external_command.cpp:33-44 | no arguments give `""`, one argument gives just its quoted form |
| ExternalCmd.CmdlineCons | src/external_command.cpp:35-43 | the first argument quoted, a space, then the command line of the rest |
| ExternalCmd.EscapeNoQuote | src/external_command.cpp:38-41 | an argument without `"` is copied unchanged, backslashes included |
| ExternalCmd.EscapeLength | src/external_command.cpp:38-41 | each `"` costs one extra backslash and nothing else grows |
| ExternalCmd.UnescapeEscape | src/external_command.cpp:38-41 | the escaping loses no information: unescaping gives the argument back |
| ExternalCmd.ResolveExecutable | src/external_command.cpp:57-84 | the loop over `PATH` yields the reference `ResolveSpec` |
| ExternalCmd.ComponentsJoin | src/external_command.cpp:64-76 | splitting `PATH` at `:` loses nothing: joining the components with `:` gives it back |
| ExternalCmd.ComponentsCount | src/external_command.cpp:64-76 | there is one more component than separators |
| ExternalCmd.ComponentsHaveNoSeparator | src/external_command.cpp:64-76 | no component holds `:` or `;` |
| ExternalCmd.FirstExecutableIff | src/external_command.cpp:63-83 | the search answers the first non-empty component whose candidate is executable, and answers nothing exactly when there is none |
| ExternalCmd.ResolveUnchanged | src/external_command.cpp:58-62 | a name with `/` is used as it is, and so is any name while `PATH` is empty or unset |
| ExternalCmd.ResolveAlongPath | src/external_command.cpp:63-83 | otherwise the result is the first executable `dir/name` along `PATH`, or the name when there is none |
| ExternalCmd.Execute | src/external_command.cpp:89-95 | no arguments give 127; otherwise the resolved program runs with the other arguments after it |
| ExternalCmd.ExecuteEmptyIgnoresRun | src/external_command.cpp:94-95 | without arguments nothing is spawned: the code is 127 whatever the process would do |
| Text.IndexOf | src/environment.cpp:40 | the first occurrence of a character, or none exactly when it does not occur |
| Text.NatToStringRoundTrip | src/commands/wc_command.cpp:37 | the decimal rendering of a count reads back as that count |
| Foo.Greet | src/foo.cpp:5-8 | an empty name greets "world"; otherwise the greeting is `Hello, ` + name + `!` |
| Foo.GreetShape | src/foo.cpp:7 | every greeting starts with `Hello, `, ends with `!`, and the name can be read back from between them |
| Foo.GreetLength | src/foo.cpp:7 | a non-empty name gives a greeting of its length plus 8 |
| Foo.GreetInjective | src/foo.cpp:7 | different non-empty names get different greetings |

## Left out

- Process spawning in `ExternalCommand::execute` is a parameter `run`. This covers pipes, `fork`, `execve`, `waitpid`, `CreateProcessA` and the stream threads. It is operating-system interaction and concurrency.
- The `stat` executable test in `resolve_executable` is a predicate parameter `isExec`, because it asks the file system.
- The Windows environment block and the Windows `CreateProcess` path are not modelled. `build_cmdline` is modelled for its quoting; how Windows splits that command line back into arguments is not.
- Reading the process environment (`environ`, `GetEnvironmentStringsA`) is left out. `InitFromCurrent` takes the list of entries as a parameter.
- Regular expressions and CLI11 are foreign libraries. Matching is a predicate `matches`, option parsing is a parameter `parse`, and regex compilation is a parameter `compile`, whose errors become the code-2 path.
- `read_lines` and all stream input in `grep` and `wc` are I/O. The lines or bytes of a file come from the parameter `open`, which has no answer for a file that cannot be opened.
- `cat` and `pwd` are left out: they are file and working-directory I/O. Only their registration is modelled.
- The read loop's I/O is left out: the prompt, `getline`, and the `catch` blocks that print `cli: ...`. `Run` takes its input as a list of lines.
- Interpreter.Run: the input is a fixed list of lines, and `exec` cannot read from it. In the source the same stream feeds `getline` and the commands, so lines that a command reads from standard input (`grep` with no file, an external program) are not run as commands there. The model runs every line as a command.
- `Environment::substitute` has no body in the source. The model follows its header comment and its tests; where they leave a choice, a `${...}` whose text is not a valid name is kept as written, including any `$` inside it.
- `Executor::execute(Pipeline)`, `expand_node` and `execute_one` have no body in the source. Pipeline execution is the parameter `exec` of `Run`, so substitution inside commands and stage chaining are not modelled.
- ExitCmd.Execute: modelled as its body, which returns `-1` whatever the arguments. Tests and the header describe `-(n+1)` for `exit n`, which this body does not do.
- WcCmd.Execute: standard input is never read. With no file operand the result is 1 with `missing file operand`, as the body does, although a test expects `wc` to count standard input.
- Grep.GrepStream: the source comment calls the result "number of matching lines", but the body returns 1 or 0, and the model follows the body.
- Parser.ParseNoneIff: follows the code. A line whose only token is an empty quoted token (`''`) also gives no pipeline, because that node has an empty name and no arguments.
- `flush_token` in `tokenize_segment` is never passed a non-empty token: every branch pushes its token directly. The model pushes directly too.
- Grep.MatchRangesShape: integer widths are unbounded. The `size_t` sum `i + after_context` in `find_matching_ranges` and `lines.size() - 1` cannot wrap here; the model clamps at the last line, which is what the code does without overflow.
- WcCmd.Count: the `unsigned long` counters are unbounded natural numbers.
- Env.Environment.ToEnvVector: `unordered_map` iteration order is unspecified. The order appears only as a ghost sequence of keys, and the contract states membership, count and distinctness rather than an order.
- Interpreter.ApplyAssignments: the pipeline's first stage is rewritten in place in the source. The model returns the new pipeline as a value; the environment is still a mutated object.
- Interpreter.DropEmptyLeading: the source erases from the vector in place; the model returns the remaining stages as a value.
- Grep.Sort: `std::sort` is modelled by its effect (a sorted permutation), computed by insertion.
- `std::isspace` depends on the locale. Whitespace is fixed to space, tab, newline, vertical tab, form feed and carriage return.
- The `ExitRequest` exception is not modelled, because nothing in the shown bodies throws it.
