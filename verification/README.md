# Pre-command bootstrap of the `present` demo server, in Dafny

Before the demo server serves any HTTP traffic, it runs a list of
"pre-commands" that prepare the process environment. Each line is one of three
kinds, and the first that matches wins:

- a **captured assignment** `name=$(command)`. This matches
  `^(\w+)=(\$\((.+)\))$`. The line runs `command` with `sh -c` and stores its
  standard output, trimmed of white space, in the environment variable `name`.
- a **direct assignment** `name=value`. This matches `^\w+=\w+$` and sets
  `name` to `value`.
- a **plain command**, which is any other line. It runs with `sh -c`.

The lines run in order. Each one sees the environment left by the lines before
it. The run stops at the first error and returns it. Changes made by earlier
lines stay in place.

The model has five modules:

- `Wrappers` (wrappers.dfy): `Option` and `Result`.
- `GoStrings` (gostrings.dfy): Go's `strings.TrimSpace` and
  `strings.SplitN(s, "=", 2)`. White space is the Unicode White_Space set,
  which is what `unicode.IsSpace` uses.
- `Patterns` (patterns.dfy): the two regular expressions. Each is written twice:
  as the language it denotes (a ghost predicate) and as a hand-written matcher.
  Lemmas show that the two agree and that a match splits in only one way.
  `Classify` gives the three-way, first-match-wins classification.
- `Bootstrap` (bootstrap.dfy): what one line does (`Step`) and what a list does
  (`Run`), as pure functions over an environment map. The operating system is a
  `Host` with two parts. `shell(command, env)` yields the command's standard
  output or a failure. `accepts(key, value)` says whether `os.Setenv` succeeds.
- `Server` (server.dfy): class `Process`. Its field `environ` is the
  process-wide environment, which the methods update in place. Each method
  follows one Go function: `setCommandToVar`, `setVar`, `runCommand` and
  `runCommands`. A ghost field `ran` logs every command handed to the shell.
  `RunCommands` is a loop that returns early on the first error. It is proved
  equal to `Bootstrap.Run`, and its shell log equal to `Bootstrap.Shelled`.

Two boundary cases of the code:

- A direct assignment needs both sides to be runs of `[0-9A-Za-z_]`. So
  `P=/bin`, `A=x.y` and `A=a b` run as shell commands.
- When the inner command of a captured assignment fails, the error names only
  the inner command, not the whole line. A refused `Setenv` names the whole
  line.

## Model

| member | source | states |
|---|---|---|
| `GoStrings.IsSpace` | src/server/server.go:29 | the white space `strings.TrimSpace` removes: Go's `unicode.IsSpace`, the Unicode White_Space set (what it means is stated by `GoStrings.TrimSpace`) |
| `GoStrings.TrimSpace` | src/server/server.go:29 | the stored value is the output with only white space removed from its two ends; it has no white space at either end; it is empty exactly when the output is all white space |
| `GoStrings.TrimSpaceIdempotent` | src/server/server.go:29 | trimming twice is the same as trimming once |
| `GoStrings.SplitN2` | src/server/server.go:39 | `SplitN(s, "=", 2)`: one part (the whole string) when there is no '=', otherwise the text before the first '=' (which has no '=') and the rest, and the two rejoin to `s` |
| `Patterns.InVarLanguage` | src/server/server.go:16 | the language of `^\w+=\w+$`: a word token, '=', a word token, and nothing else (related to the matcher by `Patterns.VarPatternMatcherCorrect`) |
| `Patterns.InVarCommandLanguage` | src/server/server.go:17 | the language of `^(\w+)=(\$\((.+)\))$`: a word token, `=$(`, non-empty text without '\n', a final `)` (related to the matcher by `Patterns.VarCommandMatcherCorrect`) |
| `Patterns.MatchesVarPattern` | src/server/server.go:65 | `varPattern.MatchString`; accepts exactly `Patterns.InVarLanguage`, by `Patterns.VarPatternMatcherCorrect` |
| `Patterns.MatchesVarCommandPattern` | src/server/server.go:61 | `varCommandPattern.MatchString`; accepts exactly `Patterns.InVarCommandLanguage`, by `Patterns.VarCommandMatcherCorrect` |
| `Patterns.FindVarCommandSubmatch` | src/server/server.go:21-22 | a match gives a word-token name and a non-empty command without '\n', and the line is exactly `name=$(command)` |
| `Patterns.VarPatternMatcherCorrect` | src/server/server.go:16 | the matcher accepts exactly the lines of the form word `=` word |
| `Patterns.VarCommandMatcherCorrect` | src/server/server.go:17 | the matcher accepts exactly the lines of the form word `=$(` non-empty text without '\n' `)` |
| `Patterns.VarDecompositionUnique` | src/server/server.go:38-41 | a `name=value` line matches `varPattern`, and splitting at the first '=' gives exactly `[name, value]` |
| `Patterns.VarCommandDecompositionUnique` | src/server/server.go:21-22 | a `name=$(command)` line yields exactly that name and command: the text strictly between the leading `$(` and the final `)`, with any inner parentheses kept |
| `Patterns.PatternsExclusive` | src/server/server.go:16-17 | no line matches both patterns, either as languages or as matchers |
| `Patterns.Classify` | src/server/server.go:61-73 | the three kinds are total and exclusive; captured iff in the `varCommandPattern` language; direct iff in the `varPattern` language; plain iff in neither; the fields rebuild the line |
| `Patterns.SpaceInValueIsPlain` | src/server/server.go:16 | `A=a b` is a plain command |
| `Patterns.PathValueIsPlain` | src/server/server.go:16 | `P=/bin` is a plain command |
| `Patterns.EmptyIsPlain` | src/server/server.go:16-17 | the empty line is a plain command |
| `Patterns.WordsAreDirect` | src/server/server.go:16 | `A=b` is the direct assignment of `b` to `A` |
| `Patterns.NestedParenthesesAreCaptured` | src/server/server.go:17 | `X=$(a $(b))` captures the command `a $(b)` into `X` |
| `Patterns.EmptySubstitutionIsPlain` | src/server/server.go:17 | `X=$()` (an empty command) is a plain command |
| `Bootstrap.Step` | src/server/server.go:61-73 | one directive: dispatch by `Patterns.Classify`, then the body of `setCommandToVar`, `setVar` or `runCommand`; its meaning is stated per kind by `Bootstrap.StepDirectAssignment`, `Bootstrap.StepCapturedAssignment`, `Bootstrap.StepPlainCommand` and `Bootstrap.StepFrame` |
| `Bootstrap.Run` | src/server/server.go:58-77 | the loop of `runCommands`; its meaning is stated by `Bootstrap.RunStopsAtFirstFailure`, `Bootstrap.RunSucceedsIffEveryStepSucceeds`, `Bootstrap.RunFailureWitness`, `Bootstrap.RunFrame`, `Bootstrap.RunAppend`, `Bootstrap.RunAppendAfterFailure` and `Bootstrap.RunEmpty` |
| `Bootstrap.StepDirectAssignment` | src/server/server.go:38-46 | `name=value` succeeds iff Setenv accepts the pair; it then sets `name` to `value` and changes nothing else; otherwise the error quotes the whole directive |
| `Bootstrap.StepCapturedAssignment` | src/server/server.go:20-36 | on success `name` holds the trimmed stdout (no surrounding white space) and nothing else changes; a failing command gives an error naming the inner command; a refused Setenv gives an error quoting the directive; success iff the command succeeds and Setenv accepts |
| `Bootstrap.StepPlainCommand` | src/server/server.go:49-56 | a plain command succeeds iff the shell does; on success the environment is unchanged; on failure the error names the whole line |
| `Bootstrap.StepFrame` | src/server/server.go:58-73 | a directive changes no variable other than the one it assigns |
| `Bootstrap.RunAppendAfterFailure` | src/server/server.go:62-72 | once a prefix fails, no later directive affects the result |
| `Bootstrap.RunAppend` | src/server/server.go:59-74 | after a successful prefix, the rest runs in the environment that prefix left |
| `Bootstrap.RunSnoc` | src/server/server.go:59-74 | running one more directive: a failed prefix is final; otherwise its outcome is that directive's step in the prefix's environment |
| `Bootstrap.RunStopsAtFirstFailure` | src/server/server.go:59-74 | if the first k directives succeed and directive k fails, the run returns that error with the environment the first k left, whatever follows |
| `Bootstrap.RunSucceedsIffEveryStepSucceeds` | src/server/server.go:58-76 | the run succeeds exactly when every directive succeeds in the environment left by those before it |
| `Bootstrap.RunFailureWitness` | src/server/server.go:58-76 | a failed run names a directive: every directive before it succeeded, it failed with the returned error, and the final environment is the one left before it |
| `Bootstrap.RunEmpty` | src/server/server.go:58-76 | an empty list succeeds and leaves the environment unchanged |
| `Bootstrap.RunFrame` | src/server/server.go:58-76 | a variable that no directive assigns keeps its presence and value, whether the run succeeds or fails |
| `Bootstrap.ShellCommands` | src/server/server.go:24 | the commands one directive hands to `sh -c`; stated by `Bootstrap.ShellCommandsByKind` |
| `Bootstrap.ShellCommandsByKind` | src/server/server.go:24-50 | a captured assignment hands the shell exactly one command, the text between its `$(` and final `)`; a plain command exactly its whole line; a direct assignment nothing |
| `Bootstrap.Shelled` | src/server/server.go:59-74 | the commands a run hands to the shell, in list order, up to and including the first failing directive; stated by the three lemmas below |
| `Bootstrap.ShelledAppendAfterFailure` | src/server/server.go:62-72 | once a prefix fails, appended directives hand nothing to the shell |
| `Bootstrap.ShelledAppend` | src/server/server.go:59-74 | after a successful prefix, the shell sees the prefix's commands, then those of the rest run in the environment the prefix left |
| `Bootstrap.ShelledStopsAtFirstFailure` | src/server/server.go:59-74 | when directive k is the first to fail, the shell has seen exactly the commands of directives 0..k in order, and none of those after it |
| `Server.Process.Setenv` | src/server/server.go:41 | succeeds iff the host accepts the pair; then only that key is set, otherwise the environment is unchanged |
| `Server.Process.SetCommandToVar` | src/server/server.go:20-36 | a non-matching line is ignored and runs nothing; a matching line hands its inner command to the shell; a failing inner command is reported by its text; otherwise the variable gets the trimmed output iff Setenv accepts; on any error the environment is unchanged |
| `Server.Process.SetVar` | src/server/server.go:38-47 | the line splits into exactly two parts at the first '='; the variable is set iff Setenv accepts; otherwise the error quotes the line and the environment is unchanged |
| `Server.Process.RunCommand` | src/server/server.go:49-56 | hands the line to the shell; succeeds iff the shell command does in the current environment; a failure names the line |
| `Server.Process.RunCommands` | src/server/server.go:58-77 | the final environment and the returned error are exactly those of `Bootstrap.Run` on the list and the starting environment, and the commands handed to the shell are exactly `Bootstrap.Shelled` of them, appended to the log |

## Left out

- `Start` (src/server/server.go:79-114) is left out. It covers HTTP routing, static files and `ListenAndServe`.
- `NewDemoManager` and the handlers are not part of this model. This includes the asynchronous execute/status/stop runner, which manages concurrent processes.
- `log.Println` (src/server/server.go:60) is left out because it is only logging.
- Real `sh -c` execution is a `Host.shell` oracle. Its result depends only on the command and the environment. The model does not capture effects that commands have on each other through files or other outside state. Which commands reach the shell, and in what order, is recorded in the ghost log `Server.Process.ran`. For a plain command, standard output is discarded, as `Run()` does.
- The real `os.Setenv` validity rules are the abstract `Host.accepts`.
- Exact error-message texts are left out. An error records only which text it carries: the inner command, the whole line, or the directive.
- Go strings are bytes, and the regular expressions and `TrimSpace` decode them as UTF-8. The model works on Unicode characters. Invalid UTF-8 input is not modelled.
- `Server.Process.SetVar` requires an '=' in the line. Go's `setVar` would panic without one. It is only called after `varPattern` has matched, and that guarantees an '='.
