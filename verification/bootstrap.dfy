/**
 * The meaning of the pre-command bootstrap, as pure functions over an
 * environment map. The shell and `os.Setenv` are the host's: `Host.shell`
 * runs `sh -c command` in the given environment and yields its standard
 * output or a failure; `Host.accepts` says whether `os.Setenv` succeeds for
 * a key and value.
 */
module Bootstrap {
  import opened Wrappers
  import opened GoStrings
  import opened Patterns

  /** The process environment. */
  type Env = map<string, string>

  /** What running `sh -c command` yields: its standard output, or why it failed. */
  datatype ShellResult = Exited(stdout: string) | Failed(cause: string)

  /** The operating-system collaborators of the interpreter. */
  datatype Host = Host(
    shell: (string, Env) -> ShellResult,   // exec.Command("sh", "-c", command)
    accepts: (string, string) -> bool      // os.Setenv(key, value) returns nil
  )

  /**
   * The errors the interpreter returns: a shell command that failed (naming
   * the command that was run), or an environment variable that could not be
   * set (naming the whole directive).
   */
  datatype Error =
    | ExecError(command: string, cause: string)
    | SetenvError(directive: string)

  /** `after` is `before` with `name` set to `value` and nothing else changed. */
  predicate SetsOnly(before: Env, after: Env, name: string, value: string) {
    && after.Keys == before.Keys + {name}
    && after[name] == value
    && forall k :: k in before && k != name ==> after[k] == before[k]
  }

  /** The effect of one directive on the environment, or its error. */
  function Step(host: Host, d: string, env: Env): Result<Env, Error> {
    match Classify(d)
    case CapturedAssignment(name, command) =>
      (match host.shell(command, env)
       case Failed(cause) => Err(ExecError(command, cause))
       case Exited(out) =>
         var v := TrimSpace(out);
         if host.accepts(name, v) then Ok(env[name := v]) else Err(SetenvError(d)))
    case DirectAssignment(name, value) =>
      if host.accepts(name, value) then Ok(env[name := value]) else Err(SetenvError(d))
    case PlainCommand(text) =>
      match host.shell(text, env)
      case Failed(cause) => Err(ExecError(text, cause))
      case Exited(_) => Ok(env)
  }

  /** The final environment and the error, if any, of a bootstrap run. */
  datatype RunResult = RunResult(env: Env, error: Option<Error>)

  /**
   * Runs the directives in order, each in the environment left by the ones
   * before it, and stops at the first error without undoing earlier changes.
   */
  function Run(host: Host, cmds: seq<string>, env: Env): RunResult
    decreases |cmds|
  {
    if cmds == [] then RunResult(env, None)
    else
      match Step(host, cmds[0], env)
      case Err(e) => RunResult(env, Some(e))
      case Ok(env') => Run(host, cmds[1..], env')
  }

  // ---- One directive ----------------------------------------------------

  /**
   * `name=value`: succeeds exactly when Setenv accepts the pair, and then
   * sets `name` to `value` and nothing else; otherwise the error quotes the
   * whole directive.
   */
  lemma StepDirectAssignment(host: Host, name: string, value: string, env: Env)
    requires IsWord(name) && IsWord(value)
    ensures var d := name + "=" + value; var r := Step(host, d, env);
      && Classify(d) == DirectAssignment(name, value)
      && (r.Ok? <==> host.accepts(name, value))
      && (r.Ok? ==> SetsOnly(env, r.value, name, value))
      && (r.Err? ==> r.error == SetenvError(d))
  {
    var d := name + "=" + value;
    VarDecompositionUnique(d, name, value);
    VarCommandMatcherCorrect(d);
    PatternsExclusive(d);
  }

  /**
   * `name=$(command)`: when the command succeeds and Setenv accepts, `name`
   * holds the command's trimmed standard output (with no white space at
   * either end) and nothing else changes; when the command fails, the error
   * names the inner command; when Setenv refuses, it quotes the directive.
   */
  lemma StepCapturedAssignment(host: Host, name: string, command: string, env: Env)
    requires IsWord(name) && IsDotPlus(command)
    ensures var d := name + "=$(" + command + ")"; var r := Step(host, d, env);
      var out := host.shell(command, env);
      && Classify(d) == CapturedAssignment(name, command)
      && (r.Ok? <==> out.Exited? && host.accepts(name, TrimSpace(out.stdout)))
      && (r.Ok? ==> SetsOnly(env, r.value, name, TrimSpace(out.stdout)) && Trimmed(r.value[name]))
      && (out.Failed? ==> r == Err(ExecError(command, out.cause)))
      && (out.Exited? && r.Err? ==> r.error == SetenvError(d))
  {
    var d := name + "=$(" + command + ")";
    VarCommandDecompositionUnique(d, name, command);
  }

  /**
   * Any other line runs as a shell command: success leaves the environment
   * as it was, failure names the whole line.
   */
  lemma StepPlainCommand(host: Host, d: string, env: Env)
    requires !InVarLanguage(d) && !InVarCommandLanguage(d)
    ensures var r := Step(host, d, env); var out := host.shell(d, env);
      && (r.Ok? <==> out.Exited?)
      && (r.Ok? ==> r.value == env)
      && (r.Err? ==> r.error == ExecError(d, out.cause))
  {
  }

  /** The variable a directive assigns, if it is an assignment. */
  function AssignedName(d: string): Option<string> {
    match Classify(d)
    case CapturedAssignment(name, _) => Some(name)
    case DirectAssignment(name, _) => Some(name)
    case PlainCommand(_) => None
  }

  /** A directive changes no variable other than the one it assigns. */
  lemma StepFrame(host: Host, d: string, env: Env, key: string)
    requires AssignedName(d) != Some(key)
    requires Step(host, d, env).Ok?
    ensures var env' := Step(host, d, env).value;
      (key in env' <==> key in env) && (key in env ==> env'[key] == env[key])
  {
  }

  // ---- A list of directives ---------------------------------------------

  /** After a failure, further directives are never run. */
  lemma {:induction false} RunAppendAfterFailure(host: Host, xs: seq<string>, ys: seq<string>, env: Env)
    requires Run(host, xs, env).error.Some?
    ensures Run(host, xs + ys, env) == Run(host, xs, env)
    decreases |xs|
  {
    assert xs != [];
    assert (xs + ys)[0] == xs[0];
    assert (xs + ys)[1..] == xs[1..] + ys;
    var r := Step(host, xs[0], env);
    if r.Ok? {
      RunAppendAfterFailure(host, xs[1..], ys, r.value);
    }
  }

  /** A successful prefix hands its environment on to the rest. */
  lemma {:induction false} RunAppend(host: Host, xs: seq<string>, ys: seq<string>, env: Env)
    requires Run(host, xs, env).error.None?
    ensures Run(host, xs + ys, env) == Run(host, ys, Run(host, xs, env).env)
    decreases |xs|
  {
    if xs == [] {
      assert xs + ys == ys;
    } else {
      assert (xs + ys)[0] == xs[0];
      assert (xs + ys)[1..] == xs[1..] + ys;
      var r := Step(host, xs[0], env);
      if r.Ok? {
        RunAppend(host, xs[1..], ys, r.value);
      }
    }
  }

  /** Running one more directive after a prefix. */
  lemma RunSnoc(host: Host, xs: seq<string>, c: string, env: Env)
    ensures var p := Run(host, xs, env);
      Run(host, xs + [c], env) ==
        if p.error.Some? then p
        else match Step(host, c, p.env)
          case Ok(env') => RunResult(env', None)
          case Err(e) => RunResult(p.env, Some(e))
  {
    var p := Run(host, xs, env);
    if p.error.Some? {
      RunAppendAfterFailure(host, xs, [c], env);
    } else {
      RunAppend(host, xs, [c], env);
      assert [c][1..] == [];
    }
  }

  /**
   * Fail fast: when the first `k` directives succeed and directive `k`
   * fails, the run returns that error with the environment the first `k`
   * left, whatever follows.
   */
  lemma RunStopsAtFirstFailure(host: Host, cmds: seq<string>, env: Env, k: nat)
    requires k < |cmds|
    requires Run(host, cmds[..k], env).error.None?
    requires Step(host, cmds[k], Run(host, cmds[..k], env).env).Err?
    ensures Run(host, cmds, env) ==
      RunResult(Run(host, cmds[..k], env).env,
                Some(Step(host, cmds[k], Run(host, cmds[..k], env).env).error))
  {
    SplitAt(cmds, k);
    RunSnoc(host, cmds[..k], cmds[k], env);
    RunAppendAfterFailure(host, cmds[..k + 1], cmds[k + 1..], env);
  }

  /**
   * The run succeeds exactly when every directive succeeds in the
   * environment left by the directives before it.
   */
  lemma {:induction false} RunSucceedsIffEveryStepSucceeds(host: Host, cmds: seq<string>, env: Env)
    ensures Run(host, cmds, env).error.None? <==>
      forall k :: 0 <= k < |cmds| ==> Step(host, cmds[k], Run(host, cmds[..k], env).env).Ok?
    decreases |cmds|
  {
    if cmds != [] {
      var n := |cmds| - 1;
      var xs := cmds[..n];
      assert cmds == xs + [cmds[n]];
      RunSnoc(host, xs, cmds[n], env);
      RunSucceedsIffEveryStepSucceeds(host, xs, env);
      assert forall k :: 0 <= k < n ==> xs[..k] == cmds[..k] && xs[k] == cmds[k];
    }
  }

  /**
   * A failed run names the directive it stopped at: some directive `k`
   * failed with exactly the returned error, every one before it succeeded,
   * and the final environment is the one they left.
   */
  lemma {:induction false} RunFailureWitness(host: Host, cmds: seq<string>, env: Env)
    requires Run(host, cmds, env).error.Some?
    ensures exists k :: (0 <= k < |cmds|
      && Run(host, cmds[..k], env).error.None?
      && Step(host, cmds[k], Run(host, cmds[..k], env).env) == Err(Run(host, cmds, env).error.value)
      && Run(host, cmds, env).env == Run(host, cmds[..k], env).env)
    decreases |cmds|
  {
    var n := |cmds| - 1;
    var xs := cmds[..n];
    assert cmds == xs + [cmds[n]];
    assert cmds[..n] == xs;
    RunSnoc(host, xs, cmds[n], env);
    if Run(host, xs, env).error.Some? {
      RunFailureWitness(host, xs, env);
      var k :| 0 <= k < |xs|
        && Run(host, xs[..k], env).error.None?
        && Step(host, xs[k], Run(host, xs[..k], env).env) == Err(Run(host, xs, env).error.value)
        && Run(host, xs, env).env == Run(host, xs[..k], env).env;
      assert xs[..k] == cmds[..k] && xs[k] == cmds[k];
    }
  }

  /** An empty list succeeds and changes nothing. */
  lemma RunEmpty(host: Host, env: Env)
    ensures Run(host, [], env) == RunResult(env, None)
  {
  }

  /**
   * Nothing else changes: a variable that no directive assigns keeps its
   * presence and value through the whole run, whether it succeeds or fails.
   */
  lemma {:induction false} RunFrame(host: Host, cmds: seq<string>, env: Env, key: string)
    requires forall i :: 0 <= i < |cmds| ==> AssignedName(cmds[i]) != Some(key)
    ensures var env' := Run(host, cmds, env).env;
      (key in env' <==> key in env) && (key in env ==> env'[key] == env[key])
    decreases |cmds|
  {
    if cmds != [] {
      var r := Step(host, cmds[0], env);
      if r.Ok? {
        StepFrame(host, cmds[0], env, key);
        assert forall i :: 0 <= i < |cmds| - 1 ==> cmds[1..][i] == cmds[i + 1];
        RunFrame(host, cmds[1..], r.value, key);
      }
    }
  }

  // ---- Commands handed to the shell ---------------------------------------

  /**
   * The commands one directive hands to `sh -c`, whatever their outcome: the
   * inner command of a captured assignment, the whole line of a plain
   * command, and none for a direct assignment.
   */
  function ShellCommands(d: string): seq<string> {
    ShellCommandsOf(Classify(d))
  }

  /** The commands a classified directive hands to `sh -c`. */
  function ShellCommandsOf(dir: Directive): seq<string> {
    match dir
    case CapturedAssignment(_, command) => [command]
    case DirectAssignment(_, _) => []
    case PlainCommand(text) => [text]
  }

  /**
   * A captured assignment hands the shell exactly one command, the text
   * between its `$(` and final `)`; a plain command exactly its whole line;
   * a direct assignment nothing.
   */
  lemma ShellCommandsByKind(d: string)
    ensures ShellCommands(d) == [] <==> InVarLanguage(d)
    ensures InVarCommandLanguage(d) ==>
      exists name, body :: IsWord(name) && IsDotPlus(body) && d == name + "=$(" + body + ")"
        && ShellCommands(d) == [body]
    ensures !InVarLanguage(d) && !InVarCommandLanguage(d) ==> ShellCommands(d) == [d]
  {
    if InVarCommandLanguage(d) {
      var name, body :| IsWord(name) && IsDotPlus(body) && d == name + "=$(" + body + ")";
      VarCommandDecompositionUnique(d, name, body);
    }
  }

  /**
   * The commands a run hands to the shell, in the order it runs them: those
   * of each directive up to and including the first that fails.
   */
  function Shelled(host: Host, cmds: seq<string>, env: Env): seq<string>
    decreases |cmds|
  {
    if cmds == [] then []
    else
      var r := Step(host, cmds[0], env);
      if r.Err? then ShellCommands(cmds[0])
      else ShellCommands(cmds[0]) + Shelled(host, cmds[1..], r.value)
  }

  /**
   * One directive's share of the shell log: a log followed by the commands
   * of a run is the log with the first directive's commands appended,
   * followed by those of the rest if the first directive succeeded.
   */
  lemma ShelledAfterStep(host: Host, log: seq<string>, cmds: seq<string>, env: Env)
    requires cmds != []
    ensures var r := Step(host, cmds[0], env);
      log + Shelled(host, cmds, env) ==
        (log + ShellCommands(cmds[0])) + (if r.Ok? then Shelled(host, cmds[1..], r.value) else [])
  {
    var r := Step(host, cmds[0], env);
    var rest := if r.Ok? then Shelled(host, cmds[1..], r.value) else [];
    assert Shelled(host, cmds, env) == ShellCommands(cmds[0]) + rest;
    ConcatAssociative(log, ShellCommands(cmds[0]), rest);
  }

  lemma SplitAt(s: seq<string>, k: nat)
    requires k < |s|
    ensures s[..k + 1] == s[..k] + [s[k]]
    ensures s == s[..k + 1] + s[k + 1..]
  {
  }

  lemma ConcatAssociative(a: seq<string>, b: seq<string>, c: seq<string>)
    ensures a + (b + c) == (a + b) + c
  {
  }

  /** After a failed prefix, appended directives hand nothing to the shell. */
  lemma {:induction false} ShelledAppendAfterFailure(host: Host, xs: seq<string>, ys: seq<string>, env: Env)
    requires Run(host, xs, env).error.Some?
    ensures Shelled(host, xs + ys, env) == Shelled(host, xs, env)
    decreases |xs|
  {
    assert (xs + ys)[0] == xs[0];
    assert (xs + ys)[1..] == xs[1..] + ys;
    var r := Step(host, xs[0], env);
    if r.Ok? {
      ShelledAppendAfterFailure(host, xs[1..], ys, r.value);
    }
  }

  /**
   * After a successful prefix, the shell sees the prefix's commands and then
   * those of the rest, run in the environment the prefix left.
   */
  lemma {:induction false} ShelledAppend(host: Host, xs: seq<string>, ys: seq<string>, env: Env)
    requires Run(host, xs, env).error.None?
    ensures Shelled(host, xs + ys, env) == Shelled(host, xs, env) + Shelled(host, ys, Run(host, xs, env).env)
    decreases |xs|
  {
    if xs == [] {
      assert xs + ys == ys;
    } else {
      var zs := xs + ys;
      assert zs[0] == xs[0];
      assert zs[1..] == xs[1..] + ys;
      var r := Step(host, xs[0], env);
      var here := ShellCommands(xs[0]);
      if r.Ok? {
        var mid := r.value;
        var last := Run(host, xs, env).env;
        assert Run(host, xs, env) == Run(host, xs[1..], mid);
        ShelledAppend(host, xs[1..], ys, mid);
        assert Shelled(host, zs, env) == here + Shelled(host, xs[1..] + ys, mid);
        assert Shelled(host, xs, env) == here + Shelled(host, xs[1..], mid);
        ConcatAssociative(here, Shelled(host, xs[1..], mid), Shelled(host, ys, last));
      }
    }
  }

  /**
   * Later directives are never run: when directive `k` is the first to
   * fail, the shell has seen exactly the commands of directives 0..k, in
   * list order, and nothing of those after it.
   */
  lemma ShelledStopsAtFirstFailure(host: Host, cmds: seq<string>, env: Env, k: nat)
    requires k < |cmds|
    requires Run(host, cmds[..k], env).error.None?
    requires Step(host, cmds[k], Run(host, cmds[..k], env).env).Err?
    ensures Shelled(host, cmds, env) ==
      Shelled(host, cmds[..k], env) + ShellCommands(cmds[k])
    ensures Shelled(host, cmds, env) == Shelled(host, cmds[..k + 1], env)
  {
    var p := Run(host, cmds[..k], env);
    SplitAt(cmds, k);
    ShelledAppend(host, cmds[..k], [cmds[k]], env);
    assert Shelled(host, [cmds[k]], p.env) == ShellCommands(cmds[k]);
    RunSnoc(host, cmds[..k], cmds[k], env);
    ShelledAppendAfterFailure(host, cmds[..k + 1], cmds[k + 1..], env);
  }
}
