/**
 * The pre-command interpreter as the server runs it: a process whose
 * environment the interpreter updates in place through `os.Setenv`, and
 * whose shell commands run in that environment. Each method follows one Go
 * function of the server package and is proved against the pure meaning in
 * module Bootstrap.
 */
module Server {
  import opened Wrappers
  import opened GoStrings
  import opened Patterns
  import opened Bootstrap

  // The methods return `Option<Error>` where Go returns `error`: `None` is
  // Go's `nil`, `Some(e)` a returned error.

  class Process {
    /** The process-wide environment (`os.Environ()`). */
    var environ: Env
    /** The shell and `os.Setenv` of the operating system. */
    const host: Host
    /** The commands handed to `sh -c` so far, oldest first. */
    ghost var ran: seq<string>

    constructor (environ0: Env, host: Host)
      ensures environ == environ0 && this.host == host && ran == []
    {
      environ := environ0;
      this.host := host;
      ran := [];
    }

    /** `os.Setenv(key, value)`: sets the variable when the host accepts the pair. */
    method Setenv(key: string, value: string) returns (ok: bool)
      modifies this`environ
      ensures ok == host.accepts(key, value)
      ensures environ == if ok then old(environ)[key := value] else old(environ)
    {
      ok := host.accepts(key, value);
      if ok {
        environ := environ[key := value];
      }
    }

    /**
     * `setCommandToVar(cmd)`: for `name=$(command)`, runs the inner command
     * and stores its trimmed standard output in `name`. A failing command is
     * reported by its inner text, a refused Setenv by the whole directive;
     * either way the environment is unchanged. A line that does not match
     * is ignored.
     */
    method SetCommandToVar(cmd: string) returns (err: Option<Error>)
      modifies this
      ensures FindVarCommandSubmatch(cmd).None? ==> err == None && environ == old(environ) && ran == old(ran)
      ensures FindVarCommandSubmatch(cmd).Some? ==> ran == old(ran) + [FindVarCommandSubmatch(cmd).value.command]
      ensures FindVarCommandSubmatch(cmd).Some? ==>
        var m := FindVarCommandSubmatch(cmd).value;
        var out := host.shell(m.command, old(environ));
        && (out.Failed? ==> err == Some(ExecError(m.command, out.cause)))
        && (out.Exited? ==> err.None? == host.accepts(m.name, TrimSpace(out.stdout)))
        && (out.Exited? && err.None? ==> environ == old(environ)[m.name := TrimSpace(out.stdout)])
        && (out.Exited? && err.Some? ==> err == Some(SetenvError(cmd)))
      ensures err.Some? ==> environ == old(environ)
    {
      var matches := FindVarCommandSubmatch(cmd);
      if matches.Some? {
        var variable, command := matches.value.name, matches.value.command;
        var out := host.shell(command, environ);
        ran := ran + [command];
        if out.Failed? {
          return Some(ExecError(command, out.cause));
        }
        var ok := Setenv(variable, TrimSpace(out.stdout));
        if !ok {
          return Some(SetenvError(cmd));
        }
      }
      return None;
    }

    /**
     * `setVar(cmd)`: splits at the first '=' and sets the variable named by
     * the first part to the second. The caller guarantees an '=' (Go would
     * panic on the missing second part otherwise).
     */
    method SetVar(cmd: string) returns (err: Option<Error>)
      requires '=' in cmd
      modifies this`environ
      ensures var parts := SplitN2(cmd, '=');
        && |parts| == 2
        && (err.None? <==> host.accepts(parts[0], parts[1]))
        && (err.None? ==> environ == old(environ)[parts[0] := parts[1]])
      ensures err.Some? ==> err == Some(SetenvError(cmd)) && environ == old(environ)
    {
      var parts := SplitN2(cmd, '=');
      var ok := Setenv(parts[0], parts[1]);
      if !ok {
        return Some(SetenvError(cmd));
      }
      return None;
    }

    /** `runCommand(cmd)`: runs the line as a shell command; a failure names the line. */
    method RunCommand(cmd: string) returns (err: Option<Error>)
      modifies this`ran
      ensures ran == old(ran) + [cmd]
      ensures err.None? <==> host.shell(cmd, environ).Exited?
      ensures err.Some? ==> err.value == ExecError(cmd, host.shell(cmd, environ).cause)
    {
      var out := host.shell(cmd, environ);
      ran := ran + [cmd];
      if out.Failed? {
        return Some(ExecError(cmd, out.cause));
      }
      return None;
    }

    /**
     * `runCommands(preCommands)`: classifies and runs each line in order and
     * returns the first error; changes made before it stay in place. The
     * outcome is exactly `Bootstrap.Run`, and the commands handed to the
     * shell are exactly `Bootstrap.Shelled`, whose properties (fail-fast,
     * order, success iff every step succeeds, nothing else changes) are
     * proved there.
     */
    method RunCommands(preCommands: seq<string>) returns (err: Option<Error>)
      modifies this
      ensures Run(host, preCommands, old(environ)) == RunResult(environ, err)
      ensures ran == old(ran) + Shelled(host, preCommands, old(environ))
    {
      for i := 0 to |preCommands|
        invariant Run(host, preCommands, old(environ)) == Run(host, preCommands[i..], environ)
        invariant old(ran) + Shelled(host, preCommands, old(environ))
          == ran + Shelled(host, preCommands[i..], environ)
      {
        var cmd := preCommands[i];
        ghost var before, ranBefore := environ, ran;
        assert preCommands[i..][0] == cmd && preCommands[i..][1..] == preCommands[i + 1..];
        if MatchesVarCommandPattern(cmd) {
          err := SetCommandToVar(cmd);
        } else if MatchesVarPattern(cmd) {
          VarPatternMatcherCorrect(cmd);
          err := SetVar(cmd);
        } else {
          VarPatternMatcherCorrect(cmd);
          VarCommandMatcherCorrect(cmd);
          err := RunCommand(cmd);
        }
        assert Step(host, cmd, before) == if err.Some? then Err(err.value) else Ok(environ);
        assert ran == ranBefore + ShellCommands(cmd);
        ShelledAfterStep(host, ranBefore, preCommands[i..], before);
        if err.Some? {
          return;
        }
      }
      return None;
    }
  }
}
