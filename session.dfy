/** The run as the program performs it: the globals `parsedModules` and
    `temp_files` (distro.py:14-15) as fields of one object, and the methods
    of `ModuleParser` that append to them in place (distro.py:38-101).
    Every method is proved to leave exactly the state, and raise exactly
    the error, that the pure functions of `Registry`, `Emit` and `Resolve`
    describe, so every property proved there holds of the run. */
module Session {
  import opened Text
  import opened Values
  import opened Registry
  import opened Emit
  import opened Resolve

  class Run {
    /** The OS profile, the modules, the script texts and the existing
        paths, fixed for the whole run. */
    const env: Env
    /** `parsedModules`. */
    var processed: seq<string>
    /** The keys of `temp_files` in insertion order. */
    var order: seq<Key>
    /** The text written so far to the buffer of each key of `temp_files`. */
    var buffers: map<Key, string>

    /** The fields as one value of `Registry.State`. */
    function Snapshot(): State
      reads this
    {
      State(processed, order, buffers)
    }

    ghost predicate Valid()
      reads this
    {
      RegistryValid(Snapshot())
    }

    /** The state at program start: nothing parsed, no buffers. */
    constructor (env: Env)
      ensures this.env == env && Valid()
      ensures processed == [] && order == [] && buffers == map[]
    {
      this.env := env;
      processed := [];
      order := [];
      buffers := map[];
    }

    /** `_getTempFile` (lines 91-101): the buffer of `key`, created with its
        seed when it does not exist yet. */
    method GetTempFile(key: Key, installCommand: string)
      requires Valid()
      modifies this
      ensures Valid() && key in buffers
      ensures Snapshot() == Open(old(Snapshot()), key, installCommand)
    {
      if key !in buffers {
        order := order + [key];
        buffers := buffers[key := Seed(key, installCommand)];
      }
    }

    /** `temp_file.write(text)` on the buffer of `key`. */
    method Write(key: Key, text: string)
      requires Valid() && key in buffers
      modifies this
      ensures Valid() && key in buffers
      ensures Snapshot() == Append(old(Snapshot()), key, text)
    {
      buffers := buffers[key := buffers[key] + text];
    }

    /** `_parseInstallConfig(step)` (lines 80-89) with `_addComment`,
        `_addEcho`, `_addCommand` and `_addScript` (lines 141-165). */
    method ParseInstallConfig(name: string, m: Module, step: StepKind) returns (failure: Option<Error>)
      requires Valid() && step != Install
      modifies this
      ensures Valid()
      ensures Outcome(Snapshot(), failure) == ConfigStep(env, old(Snapshot()), name, m, step)
    {
      var os := env.os.name;
      var has := HasStep(m, os, step);
      if has.Err? {
        return Some(has.error);
      }
      if !has.value {
        return None;
      }
      var k := KeyOf(m, os, step);
      if k.Err? {
        return Some(k.error);
      }
      var key := k.value;
      GetTempFile(key, "");
      Write(key, Comment(Stem(name), step, key.priority));
      var echo := EchoText(m, os, step);
      if echo.Err? {
        return Some(echo.error);
      }
      Write(key, echo.value);
      var command := CommandText(m, os, step);
      if command.Err? {
        return Some(command.error);
      }
      Write(key, command.value);
      var script := ScriptText(env, m, step);
      if script.Err? {
        return Some(script.error);
      }
      Write(key, script.value);
      return None;
    }

    /** `_parsePackageInstall` (lines 65-78). */
    method ParsePackageInstall(m: Module) returns (failure: Option<Error>)
      requires Valid()
      modifies this
      ensures Valid()
      ensures Outcome(Snapshot(), failure) == InstallStep(env, old(Snapshot()), m)
    {
      var os := env.os.name;
      var has := HasStep(m, os, Install);
      if has.Err? {
        return Some(has.error);
      }
      if !has.value {
        return None;
      }
      var k := KeyOf(m, os, Install);
      if k.Err? {
        return Some(k.error);
      }
      var key := k.value;
      GetTempFile(key, env.os.installCommand);
      var packages := PackagesText(m, os);
      if packages.Err? {
        return Some(packages.error);
      }
      Write(key, packages.value);
      return None;
    }

    /** `_parseOSModule` (lines 59-63), after the checks of `_copyFiles`. */
    method ParseOSModule(name: string, m: Module) returns (failure: Option<Error>)
      requires Valid()
      modifies this
      ensures Valid()
      ensures Outcome(Snapshot(), failure) == EmitModule(env, old(Snapshot()), name, m)
    {
      failure := CopyFiles(env, m);
      if failure.Some? {
        return;
      }
      failure := ParseInstallConfig(name, m, PreInstall);
      if failure.Some? {
        return;
      }
      failure := ParsePackageInstall(m);
      if failure.Some? {
        return;
      }
      failure := ParseInstallConfig(name, m, PostInstall);
    }

    /** `ModuleParser(name, ...).parse()` (lines 38-46) with `fuel` nested
        calls left before the recursion limit. */
    method Parse(name: string, fuel: nat) returns (failure: Option<Error>)
      requires Valid() && name in env.modules
      modifies this
      ensures Valid()
      ensures Outcome(Snapshot(), failure) == Resolve.Resolve(env, old(Snapshot()), name, fuel)
      decreases fuel, 1
    {
      ResolveCases(env, Snapshot(), name, fuel, Resolve.Resolve(env, Snapshot(), name, fuel));
      if fuel == 0 {
        return Some(RecursionLimit);
      }
      if Basename(name) in processed {
        return None;
      }
      if !Truthy(Get(env.modules[name], env.os.name)) {
        return Some(UnsupportedTarget(name));
      }
      var deps := Dependencies(env, env.modules[name]);
      if deps.Err? {
        return Some(deps.error);
      }
      failure := ParseModule(name, fuel);
    }

    /** Lines 41-43: the dependencies, then the module's own steps, then
        its base name appended to `parsedModules`. */
    method ParseModule(name: string, fuel: nat) returns (failure: Option<Error>)
      requires Valid() && name in env.modules && fuel > 0 && Basename(name) !in processed
      requires Truthy(Get(env.modules[name], env.os.name)) && Dependencies(env, env.modules[name]).Ok?
      modifies this
      ensures Valid()
      ensures Outcome(Snapshot(), failure) == Resolve.Resolve(env, old(Snapshot()), name, fuel)
      decreases fuel, 0
    {
      ghost var st := Snapshot();
      ghost var r := Resolve.Resolve(env, st, name, fuel);
      failure := ParseDependencies(Dependencies(env, env.modules[name]).value, fuel - 1);
      ghost var d := Outcome(Snapshot(), failure);
      ResolveThroughDeps(env, st, name, fuel, d, r);
      if failure.Some? {
        return;
      }
      failure := EmitAndRecord(name, env.modules[name]);
    }

    /** Lines 42-43: emit the module, then append its base name to
        `parsedModules`. */
    method EmitAndRecord(name: string, m: Module) returns (failure: Option<Error>)
      requires Valid()
      modifies this
      ensures Valid()
      ensures Outcome(Snapshot(), failure) == Record(env, old(Snapshot()), name, m)
    {
      failure := ParseOSModule(name, m);
      ghost var e := Outcome(Snapshot(), failure);
      RecordAfter(env, old(Snapshot()), name, m, e);
      if failure.Some? {
        return;
      }
      processed := processed + [Basename(name)];
      assert Snapshot() == Mark(e.state, Basename(name));
    }

    /** `_parseDependencies` (lines 48-57): the loop over the dependency
        entries, stopping at the first one that fails. */
    method ParseDependencies(items: seq<Value>, fuel: nat) returns (failure: Option<Error>)
      requires Valid()
      modifies this
      ensures Valid()
      ensures Outcome(Snapshot(), failure) == ResolveDeps(env, old(Snapshot()), items, fuel)
      decreases fuel, 2
    {
      var i := 0;
      while i < |items|
        invariant 0 <= i <= |items| && Valid()
        invariant ResolveDeps(env, old(Snapshot()), items, fuel) == ResolveDeps(env, Snapshot(), items[i..], fuel)
        decreases |items| - i
      {
        assert items[i..][0] == items[i] && items[i..][1..] == items[i + 1..];
        var target := DependencyTarget(env, items[i]);
        if target.Err? {
          return Some(target.error);
        }
        failure := Parse(target.value, fuel);
        if failure.Some? {
          return;
        }
        i := i + 1;
      }
      return None;
    }
  }
}
