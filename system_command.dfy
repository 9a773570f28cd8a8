/**
 * The `SystemCommand` object: its listener lists, its environment, and the
 * guard and reset around the process it launches. The operating system is
 * an input; the process itself is reduced to whether it has exited, and
 * what the launcher and the stream watchers report is passed in.
 */
module Exec {
  import opened Wrappers
  import opened JavaStrings
  import opened CommandLine

  /** A stream listener, compared by identity as `List.remove` compares listener objects. */
  datatype Listener = Listener(id: nat)

  /** `list.remove(x)`: the first occurrence of `x` is removed, if there is one. */
  function RemoveFirst(s: seq<Listener>, x: Listener): seq<Listener> {
    if s == [] then []
    else if s[0] == x then s[1..]
    else [s[0]] + RemoveFirst(s[1..], x)
  }

  /** Where `x` first occurs, `|s|` when it does not. */
  function FirstIndex(s: seq<Listener>, x: Listener): (i: nat)
    ensures i <= |s| && (i < |s| ==> s[i] == x) && x !in s[..i]
  {
    if s == [] || s[0] == x then 0 else 1 + FirstIndex(s[1..], x)
  }

  /** The removal cuts out exactly the first occurrence, and changes nothing without one. */
  lemma {:induction false} RemoveFirstCuts(s: seq<Listener>, x: Listener)
    ensures var i := FirstIndex(s, x);
            RemoveFirst(s, x) == if i == |s| then s else s[..i] + s[i + 1..]
  {
    if s != [] && s[0] != x {
      RemoveFirstCuts(s[1..], x);
      var i := FirstIndex(s[1..], x);
      if i < |s[1..]| {
        assert s[1..][..i] == s[1..i + 1] && s[1..][i + 1..] == s[i + 2..];
        assert [s[0]] + s[1..i + 1] == s[..i + 1];
      }
    }
  }

  /** One occurrence of the listener goes, every other listener stays. */
  lemma {:induction false} RemoveFirstCount(s: seq<Listener>, x: Listener)
    ensures multiset(RemoveFirst(s, x)) == multiset(s) - multiset{x}
  {
    if s != [] {
      assert s == [s[0]] + s[1..];
      assert multiset(s) == multiset{s[0]} + multiset(s[1..]);
      if s[0] != x {
        RemoveFirstCount(s[1..], x);
        assert RemoveFirst(s, x) == [s[0]] + RemoveFirst(s[1..], x);
      }
    }
  }

  /** Adding at the front and removing undo each other. */
  lemma RemoveAfterAdd(s: seq<Listener>, x: Listener)
    ensures RemoveFirst([x] + s, x) == s
  {
    assert ([x] + s)[1..] == s;
  }

  /** Listeners added one after the other, each at index 0. */
  function AddEach(s: seq<Listener>, added: seq<Listener>): seq<Listener>
    decreases |added|
  {
    if added == [] then s else AddEach([added[0]] + s, added[1..])
  }

  function Reversed(s: seq<Listener>): (r: seq<Listener>)
    ensures |r| == |s|
    ensures forall k :: 0 <= k < |s| ==> r[k] == s[|s| - 1 - k]
  {
    if s == [] then [] else Reversed(s[1..]) + [s[0]]
  }

  /** The list is in reverse registration order: the last one added comes first. */
  lemma {:induction false} AddEachReverses(s: seq<Listener>, added: seq<Listener>)
    ensures AddEach(s, added) == Reversed(added) + s
    decreases |added|
  {
    if added != [] {
      AddEachReverses([added[0]] + s, added[1..]);
      assert Reversed(added) == Reversed(added[1..]) + [added[0]];
    }
  }

  // ---------------------------------------------------------------------
  // environmentArray
  // ---------------------------------------------------------------------

  /** Every key of the map exactly once: the order in which its entries were visited. */
  ghost predicate IsKeyOrder(keys: seq<string>, env: map<string, string>) {
    && (forall i, j :: 0 <= i < j < |keys| ==> keys[i] != keys[j])
    && (forall k :: k in env <==> k in keys)
  }

  /** One `key=value` string per visited key. */
  function EnvEntries(env: map<string, string>, keys: seq<string>): (r: seq<string>)
    requires forall k :: k in keys ==> k in env
    ensures |r| == |keys|
    ensures forall i :: 0 <= i < |keys| ==> r[i] == keys[i] + "=" + env[keys[i]]
  {
    if keys == [] then [] else [keys[0] + "=" + env[keys[0]]] + EnvEntries(env, keys[1..])
  }

  /**
   * `environmentArray`: `null` (inherit the caller's environment) for no
   * map, else one `key=value` string per entry, in the map's iteration
   * order, which is returned as `keys`.
   */
  method EnvironmentArray(env: Option<map<string, string>>) returns (r: Option<seq<string>>, keys: seq<string>)
    ensures env.None? ==> r.None? && keys == []
    ensures env.Some? ==> IsKeyOrder(keys, env.value) && |keys| == |env.value|
    ensures env.Some? ==> r == Some(EnvEntries(env.value, keys))
  {
    if env.None? {
      return None, [];
    }
    var m := env.value;
    var envs: seq<string> := [];
    keys := [];
    var left := m.Keys;
    while left != {}
      invariant left <= m.Keys
      invariant forall k :: k in m <==> k in keys || k in left
      invariant forall k :: k in keys ==> k !in left
      invariant forall i, j :: 0 <= i < j < |keys| ==> keys[i] != keys[j]
      invariant |keys| + |left| == |m.Keys|
      invariant envs == EnvEntries(m, keys)
      decreases |left|
    {
      var k :| k in left;
      EnvEntriesPush(m, keys, k);
      envs := envs + [k + "=" + m[k]];
      keys := keys + [k];
      left := left - {k};
    }
    KeyOrderSize(keys, m);
    return Some(envs), keys;
  }

  lemma {:induction false} EnvEntriesPush(env: map<string, string>, keys: seq<string>, k: string)
    requires (forall x :: x in keys ==> x in env) && k in env
    ensures EnvEntries(env, keys + [k]) == EnvEntries(env, keys) + [k + "=" + env[k]]
  {
  }

  /** Every entry of the map has its string in the array. */
  lemma EnvEntriesHas(env: map<string, string>, keys: seq<string>)
    requires IsKeyOrder(keys, env)
    ensures forall k :: k in env ==> k + "=" + env[k] in EnvEntries(env, keys)
  {
    forall k | k in env ensures k + "=" + env[k] in EnvEntries(env, keys) {
      var i :| 0 <= i < |keys| && keys[i] == k;
      assert EnvEntries(env, keys)[i] == k + "=" + env[k];
    }
  }

  /** A key order lists as many keys as the map has. */
  lemma KeyOrderSize(keys: seq<string>, env: map<string, string>)
    requires IsKeyOrder(keys, env)
    ensures |keys| == |env|
  {
    DistinctCard(keys);
    assert (set k | k in keys) == env.Keys;
  }

  lemma {:induction false} DistinctCard(keys: seq<string>)
    requires forall i, j :: 0 <= i < j < |keys| ==> keys[i] != keys[j]
    ensures |set k | k in keys| == |keys|
  {
    if keys != [] {
      var last := keys[|keys| - 1];
      var init := keys[..|keys| - 1];
      DistinctCard(init);
      assert (set k | k in keys) == (set k | k in init) + {last};
      assert last !in init;
    }
  }

  // ---------------------------------------------------------------------
  // The command object
  // ---------------------------------------------------------------------

  /** The running process: whether `exitValue()` would answer, and whether `destroy()` was called. */
  datatype Process = Process(exited: bool, destroyRequested: bool)

  /** One call of `Runtime.exec`: the argument vector, the environment and the working directory. */
  datatype Launch = Launch(argv: seq<string>, env: Option<seq<string>>, workdir: Option<string>)

  /** The exceptions of `execute`. */
  datatype ExecError =
    | AlreadyRunning        // IllegalStateException
    | NoCommand             // SystemCommandException: "No command specified."
    | CouldNotExecute       // SystemCommandException wrapping the IOException of exec
    | EmptyArgv             // IndexOutOfBoundsException: exec was given an empty argument vector

  /** A launch with this argument vector, this working directory and the array of this environment. */
  predicate Launched(l: Launch, argv: seq<string>, workdir: Option<string>, vars: Option<map<string, string>>) {
    && l.argv == argv && l.workdir == workdir
    && (vars.None? ==> l.env.None?)
    && (vars.Some? ==> l.env.Some? && |l.env.value| == |vars.value|)
    && (vars.Some? ==> forall k :: k in vars.value ==> k + "=" + vars.value[k] in l.env.value)
  }

  class SystemCommand {
    const command: seq<string>
    const workdir: Option<string>
    /** `None` means the process inherits the environment of the caller. */
    var environmentVariables: Option<map<string, string>>
    var errorListeners: seq<Listener>
    var outputListeners: seq<Listener>
    var process: Option<Process>
    /** The calls made to `Runtime.exec`, oldest first. */
    var launches: seq<Launch>

    constructor (workdir: Option<string>, command: seq<string>)
      ensures this.command == command && this.workdir == workdir
      ensures environmentVariables.None? && errorListeners == [] && outputListeners == []
      ensures process.None? && launches == []
    {
      this.command := command;
      this.workdir := workdir;
      environmentVariables := None;
      errorListeners := [];
      outputListeners := [];
      process := None;
      launches := [];
    }

    /** `toString`: the raw command tokens joined by spaces. */
    function ToString(): string {
      Join(command, " ")
    }

    method AddErrorListener(listener: Listener)
      modifies this
      ensures errorListeners == [listener] + old(errorListeners)
      ensures outputListeners == old(outputListeners)
      ensures environmentVariables == old(environmentVariables) && process == old(process) && launches == old(launches)
    {
      errorListeners := [listener] + errorListeners;
    }

    method RemoveErrorListener(listener: Listener)
      modifies this
      ensures errorListeners == RemoveFirst(old(errorListeners), listener)
      ensures outputListeners == old(outputListeners)
      ensures environmentVariables == old(environmentVariables) && process == old(process) && launches == old(launches)
    {
      errorListeners := RemoveFirst(errorListeners, listener);
    }

    method AddOutputListener(listener: Listener)
      modifies this
      ensures outputListeners == [listener] + old(outputListeners)
      ensures errorListeners == old(errorListeners)
      ensures environmentVariables == old(environmentVariables) && process == old(process) && launches == old(launches)
    {
      outputListeners := [listener] + outputListeners;
    }

    method RemoveOutputListener(listener: Listener)
      modifies this
      ensures outputListeners == RemoveFirst(old(outputListeners), listener)
      ensures errorListeners == old(errorListeners)
      ensures environmentVariables == old(environmentVariables) && process == old(process) && launches == old(launches)
    {
      outputListeners := RemoveFirst(outputListeners, listener);
    }

    method SetEnvironmentVariables(env: Option<map<string, string>>)
      modifies this
      ensures environmentVariables == env
      ensures errorListeners == old(errorListeners) && outputListeners == old(outputListeners)
      ensures process == old(process) && launches == old(launches)
    {
      environmentVariables := env;
    }

    /** `isRunning`: a process is held and has not exited. */
    predicate IsRunning()
      reads this
    {
      process.Some? && !process.value.exited
    }

    /** `abort`: a destroy request to the held process; nothing when none is held. */
    method Abort()
      modifies this
      ensures old(process).None? ==> process == old(process)
      ensures old(process).Some? ==> process == Some(old(process).value.(destroyRequested := true))
      ensures errorListeners == old(errorListeners) && outputListeners == old(outputListeners)
      ensures environmentVariables == old(environmentVariables) && launches == old(launches)
    {
      if process.Some? {
        process := Some(process.value.(destroyRequested := true));
      }
    }

    /** The call of `Runtime.exec`: one launch with the environment array is recorded. */
    method RecordLaunch(argv: seq<string>)
      modifies this
      ensures |launches| == |old(launches)| + 1 && launches[..|old(launches)|] == old(launches)
      ensures Launched(launches[|old(launches)|], argv, workdir, environmentVariables)
      ensures errorListeners == old(errorListeners) && outputListeners == old(outputListeners)
      ensures environmentVariables == old(environmentVariables) && process == old(process)
    {
      var env, keys := EnvironmentArray(environmentVariables);
      if environmentVariables.Some? {
        EnvEntriesHas(environmentVariables.value, keys);
      }
      launches := launches + [Launch(argv, env, workdir)];
    }

    /**
     * `execute(input, runInBackground)`. What the operating system does is
     * passed in: whether `exec` fails with an `IOException`, whether a background process has
     * already terminated when it is checked, and the exit value the
     * watchers or `exitValue()` report.
     */
    method Execute(os: Os, runInBackground: bool, execFails: bool, terminated: bool, exitValue: int)
      returns (r: Result<int, ExecError>)
      modifies this
      ensures old(IsRunning()) ==> r == Err(AlreadyRunning) && process == old(process) && launches == old(launches)
      ensures !old(IsRunning()) && CleanCommand(command, os).Err? ==>
                r == Err(NoCommand) && process == old(process) && launches == old(launches)
      ensures !old(IsRunning()) && CleanCommand(command, os).Ok? ==>
                && |launches| == |old(launches)| + 1
                && launches[..|old(launches)|] == old(launches)
                && Launched(launches[|old(launches)|], CleanCommand(command, os).value, workdir, environmentVariables)
      ensures !old(IsRunning()) && CleanCommand(command, os) == Ok([]) ==>
                r == Err(EmptyArgv) && process == old(process)
      ensures !old(IsRunning()) && CleanCommand(command, os).Ok? && CleanCommand(command, os).value != [] && execFails ==>
                r == Err(CouldNotExecute) && process == old(process)
      ensures !old(IsRunning()) && CleanCommand(command, os).Ok? && CleanCommand(command, os).value != [] && !execFails ==>
                && r == Ok(if runInBackground && !terminated then 0 else exitValue)
                && process.None? && !IsRunning()
      ensures errorListeners == old(errorListeners) && outputListeners == old(outputListeners)
      ensures environmentVariables == old(environmentVariables)
    {
      if IsRunning() {
        return Err(AlreadyRunning);
      }
      var cleanCommand := GetCleanCommand(command, os);
      if cleanCommand.Err? {
        return Err(NoCommand);
      }
      RecordLaunch(cleanCommand.value);
      if cleanCommand.value == [] {
        return Err(EmptyArgv);
      }
      if execFails {
        return Err(CouldNotExecute);
      }
      process := Some(Process(false, false));
      var code := 0;
      if runInBackground {
        if terminated {
          code := exitValue;
        }
      } else {
        code := exitValue;
      }
      process := None;
      return Ok(code);
    }

  }
}
