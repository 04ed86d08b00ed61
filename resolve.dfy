/** Dependency resolution: `ModuleParser.parse` and `_parseDependencies`
    (distro.py:38-57) over the state of `Registry`, as functions that give
    the state after the call and the error it raised, if any. */
module Resolve {
  import opened Text
  import opened Values
  import opened Lookup
  import opened Registry
  import opened Emit

  /** Every module is known by its file name alone (the keys of
      `module_paths` are base names, line 248), so a name and its base name
      coincide. */
  ghost predicate EnvValid(env: Env) {
    forall n :: n in env.modules ==> '/' !in n
  }

  lemma PlainName(env: Env, n: string)
    requires EnvValid(env) && n in env.modules
    ensures Basename(n) == n
  {
    BasenameOfPlain(n);
  }

  /** Line 49 and the `for` of line 51: the dependency list of a module, or
      nothing when it has none. */
  function Dependencies(env: Env, m: Module): (r: Result<seq<Value>>)
    ensures GetParameter(m, env.os.name, ["dependencies"]) == Ok(None) ==> r == Ok([])
  {
    var deps :- GetParameter(m, env.os.name, ["dependencies"]);
    if deps.None? then Ok([]) else Items(deps.value, "dependencies")
  }

  /** Line 52: the module a dependency entry names. It must be the name of a
      known module with a non-empty document; a list or mapping cannot be
      looked up at all, and any other scalar is an unknown name. */
  function DependencyTarget(env: Env, item: Value): (r: Result<string>)
    ensures r.Ok? <==> item.Str? && item.s in env.modules && |env.modules[item.s]| > 0
    ensures r.Ok? ==> r.value == item.s
    ensures item.Str? && r.Err? ==> r.error == MissingDependency(item.s)
    ensures item.List? || item.Mapping? ==> r == Err(Malformed("dependencies"))
  {
    match item
    case Str(n) => if n in env.modules && |env.modules[n]| > 0 then Ok(n) else Err(MissingDependency(n))
    case List(_) => Err(Malformed("dependencies"))
    case Mapping(_) => Err(Malformed("dependencies"))
    case _ => Err(MissingDependency(Render(item).value))
  }

  /** `ModuleParser(name, ...).parse()` with `fuel` nested calls left before
      the interpreter's recursion limit. A module already in `parsedModules`
      is skipped; one without a block for the target fails; otherwise its
      dependencies are resolved, its steps are emitted, and only then is its
      base name recorded. */
  function Resolve(env: Env, st: State, name: string, fuel: nat): (o: Outcome)
    requires RegistryValid(st) && name in env.modules
    ensures RegistryValid(o.state) && st.processed <= o.state.processed
    ensures o.failure.None? ==> Basename(name) in o.state.processed
    decreases fuel, 0, 0
  {
    if fuel == 0 then Outcome(st, Some(RecursionLimit))
    else if Basename(name) in st.processed then Outcome(st, None)
    else
      var m := env.modules[name];
      if !Truthy(Get(m, env.os.name)) then Outcome(st, Some(UnsupportedTarget(name)))
      else match Dependencies(env, m)
        case Err(e) => Outcome(st, Some(e))
        case Ok(items) =>
          var d := ResolveDeps(env, st, items, fuel - 1);
          if d.failure.Some? then d else Record(env, d.state, name, m)
  }

  /** Lines 42-43: emit the module, then append its base name to
      `parsedModules`; a failed emission records nothing. */
  function Record(env: Env, st: State, name: string, m: Module): (o: Outcome)
    requires RegistryValid(st)
    ensures RegistryValid(o.state) && Extends(st, o.state)
    ensures o.failure.None? ==> o.state.processed == st.processed + [Basename(name)]
    ensures o.failure.Some? ==> o.state.processed == st.processed
  {
    var e := EmitModule(env, st, name, m);
    if e.failure.Some? then e
    else
      var r := Mark(e.state, Basename(name));
      ExtendsTransitive(st, e.state, r);
      Outcome(r, None)
  }

  /** `parsedModules.append(name)`. */
  function Mark(st: State, name: string): (r: State)
    ensures RegistryValid(st) ==> RegistryValid(r)
    ensures Extends(st, r) && r.processed == st.processed + [name]
    ensures r.order == st.order && r.buffers == st.buffers
  {
    st.(processed := st.processed + [name])
  }

  /** `_parseDependencies` from the given entry on: each entry is resolved
      in turn, and the first failure stops the loop. When it succeeds every
      entry names a module that is now recorded. */
  function ResolveDeps(env: Env, st: State, items: seq<Value>, fuel: nat): (o: Outcome)
    requires RegistryValid(st)
    ensures RegistryValid(o.state) && st.processed <= o.state.processed
    ensures o.failure.None? ==> forall k :: 0 <= k < |items| ==>
              items[k].Str? && items[k].s in env.modules && Basename(items[k].s) in o.state.processed
    decreases fuel, 1, |items|
  {
    if items == [] then Outcome(st, None)
    else match DependencyTarget(env, items[0])
      case Err(e) => Outcome(st, Some(e))
      case Ok(n) =>
        var o := Resolve(env, st, n, fuel);
        if o.failure.Some? then o
        else ResolveDeps(env, o.state, items[1..], fuel)
  }

  /** Module `a` lists `t` among its dependencies. */
  ghost predicate DependsOn(env: Env, a: string, t: string) {
    && a in env.modules
    && Dependencies(env, env.modules[a]).Ok?
    && Str(t) in Dependencies(env, env.modules[a]).value
  }

  /** Each name of `p` lists the next one as a dependency. */
  ghost predicate Path(env: Env, p: seq<string>) {
    forall i :: 0 <= i < |p| - 1 ==> DependsOn(env, p[i], p[i + 1])
  }

  /** None of the modules of `stk` is recorded yet. */
  ghost predicate Pending(stk: seq<string>, st: State) {
    forall s :: s in stk ==> s !in st.processed
  }

  /** Resolving `n` while the modules of `stk` are still being resolved
      (each waiting for the next, the last for `n`): `parsedModules` never
      gains a duplicate nor a module of `stk`, and when `n` is itself on the
      stack, the dependency cycle makes the call fail. */
  lemma {:induction false} StackStaysOpen(env: Env, st: State, n: string, fuel: nat, stk: seq<string>)
    requires EnvValid(env) && RegistryValid(st) && n in env.modules
    requires forall s :: s in stk ==> s in env.modules
    requires Path(env, stk + [n]) && Pending(stk, st) && NoDup(st.processed)
    ensures var o := Resolve(env, st, n, fuel);
            Pending(stk, o.state) && NoDup(o.state.processed)
            && (n in stk ==> o.failure.Some?)
    decreases fuel, 0, 1
  {
    PlainName(env, n);
    if fuel > 0 && n !in st.processed && Truthy(Get(env.modules[n], env.os.name))
       && Dependencies(env, env.modules[n]).Ok?
    {
      StackFrame(env, st, n, fuel, stk);
      ResolveStep(env, st, n, fuel);
    }
  }

  /** The frame of `n` on top of `stk`: its dependencies are resolved with
      `n` pushed, then `n` is recorded unless they failed. */
  lemma {:induction false} StackFrame(env: Env, st: State, n: string, fuel: nat, stk: seq<string>)
    requires EnvValid(env) && RegistryValid(st) && n in env.modules && n !in st.processed
    requires forall s :: s in stk ==> s in env.modules
    requires Path(env, stk + [n]) && Pending(stk, st) && NoDup(st.processed)
    requires fuel > 0 && Dependencies(env, env.modules[n]).Ok?
    ensures var d := ResolveDeps(env, st, Dependencies(env, env.modules[n]).value, fuel - 1);
            var o := if d.failure.Some? then d else Record(env, d.state, n, env.modules[n]);
            Pending(stk, o.state) && NoDup(o.state.processed)
            && (n in stk ==> o.failure.Some?)
    decreases fuel, 0, 0
  {
    PlainName(env, n);
    var m := env.modules[n];
    var items := Dependencies(env, m).value;
    var stk' := stk + [n];
    var d := ResolveDeps(env, st, items, fuel - 1);
    assert Pending(stk', d.state) && NoDup(d.state.processed) && (n in stk ==> d.failure.Some?) by {
      PushFrame(env, stk, n, items);
      StackStaysOpenDeps(env, st, items, fuel - 1, stk');
      if n in stk {
        CycleReturns(env, stk, n, items);
      }
    }
    var r := Record(env, d.state, n, m);
    assert r.failure.None? ==> r.state.processed == d.state.processed + [n];
    assert r.failure.Some? ==> r.state.processed == d.state.processed;
    CloseFrame(stk, n, d, r);
  }

  /** The frame of `n` returns: either its dependencies failed, or it
      records `n`, which is not on the rest of the stack. */
  lemma CloseFrame(stk: seq<string>, n: string, d: Outcome, r: Outcome)
    requires Pending(stk + [n], d.state) && NoDup(d.state.processed)
    requires n in stk ==> d.failure.Some?
    requires r.failure.None? ==> r.state.processed == d.state.processed + [n]
    requires r.failure.Some? ==> r.state.processed == d.state.processed
    ensures var o := if d.failure.Some? then d else r;
            Pending(stk, o.state) && NoDup(o.state.processed)
  {
    PendingPop(stk, n, d.state);
    if d.failure.None? && r.failure.None? {
      RecordKeeps(stk, d.state, r.state, n);
    }
  }

  /** One level of `Resolve` for a module that is not yet recorded and has
      a dependency list. */
  lemma ResolveStep(env: Env, st: State, n: string, fuel: nat)
    requires RegistryValid(st) && n in env.modules && fuel > 0 && Basename(n) !in st.processed
    requires Truthy(Get(env.modules[n], env.os.name)) && Dependencies(env, env.modules[n]).Ok?
    ensures var d := ResolveDeps(env, st, Dependencies(env, env.modules[n]).value, fuel - 1);
            Resolve(env, st, n, fuel) == if d.failure.Some? then d else Record(env, d.state, n, env.modules[n])
  {
  }

  /** The branches of one level of `Resolve` (lines 38-46) that do not
      reach the dependency loop, for an outcome `o` it gave. */
  lemma ResolveCases(env: Env, st: State, n: string, fuel: nat, o: Outcome)
    requires RegistryValid(st) && n in env.modules && Resolve(env, st, n, fuel) == o
    ensures fuel == 0 ==> o == Outcome(st, Some(RecursionLimit))
    ensures fuel > 0 && Basename(n) in st.processed ==> o == Outcome(st, None)
    ensures fuel > 0 && Basename(n) !in st.processed && !Truthy(Get(env.modules[n], env.os.name)) ==>
              o == Outcome(st, Some(UnsupportedTarget(n)))
    ensures fuel > 0 && Basename(n) !in st.processed && Truthy(Get(env.modules[n], env.os.name))
            && Dependencies(env, env.modules[n]).Err? ==>
              o == Outcome(st, Some(Dependencies(env, env.modules[n]).error))
  {
  }

  /** One level of `Resolve` through the dependency loop, for the outcome
      `d` of the loop and the outcome `o` of the call. */
  lemma ResolveThroughDeps(env: Env, st: State, n: string, fuel: nat, d: Outcome, o: Outcome)
    requires RegistryValid(st) && n in env.modules && fuel > 0 && Basename(n) !in st.processed
    requires Truthy(Get(env.modules[n], env.os.name)) && Dependencies(env, env.modules[n]).Ok?
    requires ResolveDeps(env, st, Dependencies(env, env.modules[n]).value, fuel - 1) == d
    requires Resolve(env, st, n, fuel) == o
    ensures RegistryValid(d.state)
    ensures o == if d.failure.Some? then d else Record(env, d.state, n, env.modules[n])
  {
  }

  /** `Record` after an emission that gave `e`. */
  lemma RecordAfter(env: Env, st: State, name: string, m: Module, e: Outcome)
    requires RegistryValid(st) && EmitModule(env, st, name, m) == e
    ensures Record(env, st, name, m) == if e.failure.Some? then e else Outcome(Mark(e.state, Basename(name)), None)
  {
  }

  lemma PendingPop(stk: seq<string>, n: string, st: State)
    requires Pending(stk + [n], st)
    ensures Pending(stk, st)
  {
    forall s | s in stk ensures s !in st.processed {
      assert s in stk + [n];
    }
  }

  /** Recording a module that is not on the stack, after its dependencies
      left the stack pending and the list free of duplicates, keeps both. */
  lemma RecordKeeps(stk: seq<string>, st: State, r: State, n: string)
    requires Pending(stk + [n], st) && NoDup(st.processed) && n !in stk
    requires r.processed == st.processed + [n]
    ensures Pending(stk, r) && NoDup(r.processed)
  {
    assert n !in st.processed by {
      assert n in stk + [n];
    }
    forall s | s in stk ensures s !in r.processed {
      assert s in stk + [n];
    }
  }

  /** Pushing `n`, whose dependency list is `items`, onto the stack keeps it
      a path, and every entry of `items` is a dependency of the new top. */
  lemma PushFrame(env: Env, stk: seq<string>, n: string, items: seq<Value>)
    requires Path(env, stk + [n]) && n in env.modules
    requires Dependencies(env, env.modules[n]) == Ok(items)
    ensures Path(env, stk + [n])
    ensures forall k :: 0 <= k < |items| && items[k].Str? ==> DependsOn(env, (stk + [n])[|stk + [n]| - 1], items[k].s)
  {
    forall k | 0 <= k < |items| && items[k].Str?
      ensures DependsOn(env, (stk + [n])[|stk + [n]| - 1], items[k].s)
    {
      assert items[k] == Str(items[k].s);
    }
  }

  /** When `n` is already on the stack, one of its own entries names the
      module that follows it there: the stack closes a cycle. */
  lemma CycleReturns(env: Env, stk: seq<string>, n: string, items: seq<Value>)
    requires Path(env, stk + [n]) && n in stk && n in env.modules
    requires Dependencies(env, env.modules[n]) == Ok(items)
    ensures exists k :: 0 <= k < |items| && items[k].Str? && items[k].s in stk + [n]
  {
    var i :| 0 <= i < |stk| && stk[i] == n;
    var p := stk + [n];
    assert p[i] == n && DependsOn(env, p[i], p[i + 1]);
    var k :| 0 <= k < |items| && items[k] == Str(p[i + 1]);
    assert items[k].s in p;
  }

  lemma {:induction false} StackStaysOpenDeps(env: Env, st: State, items: seq<Value>, fuel: nat, stk: seq<string>)
    requires EnvValid(env) && RegistryValid(st) && stk != []
    requires forall s :: s in stk ==> s in env.modules
    requires Path(env, stk) && Pending(stk, st) && NoDup(st.processed)
    requires forall k :: 0 <= k < |items| && items[k].Str? ==> DependsOn(env, stk[|stk| - 1], items[k].s)
    ensures var o := ResolveDeps(env, st, items, fuel);
            Pending(stk, o.state) && NoDup(o.state.processed)
            && ((exists k :: 0 <= k < |items| && items[k].Str? && items[k].s in stk) ==> o.failure.Some?)
    decreases fuel, 1, |items|
  {
    if items == [] || DependencyTarget(env, items[0]).Err? {
      return;
    }
    var t := items[0].s;
    assert Path(env, stk + [t]) by {
      forall i | 0 <= i < |stk + [t]| - 1 ensures DependsOn(env, (stk + [t])[i], (stk + [t])[i + 1]) {
        if i < |stk| - 1 {
          assert (stk + [t])[i] == stk[i] && (stk + [t])[i + 1] == stk[i + 1];
        }
      }
    }
    StackStaysOpen(env, st, t, fuel, stk);
    var o := Resolve(env, st, t, fuel);
    if o.failure.None? {
      forall k | 0 <= k < |items[1..]| && items[1..][k].Str?
        ensures DependsOn(env, stk[|stk| - 1], items[1..][k].s)
      {
        assert items[1..][k] == items[k + 1];
      }
      StackStaysOpenDeps(env, o.state, items[1..], fuel, stk);
      if exists k :: 0 <= k < |items| && items[k].Str? && items[k].s in stk {
        var k :| 0 <= k < |items| && items[k].Str? && items[k].s in stk;
        if k > 0 {
          assert items[1..][k - 1] == items[k];
        }
      }
    }
  }

  /** `parsedModules` never holds a module twice. */
  lemma RecordedOnce(env: Env, st: State, n: string, fuel: nat)
    requires EnvValid(env) && RegistryValid(st) && n in env.modules && NoDup(st.processed)
    ensures NoDup(Resolve(env, st, n, fuel).state.processed)
  {
    StackStaysOpen(env, st, n, fuel, []);
  }

  /** A dependency cycle whose modules are not yet recorded never resolves:
      each module waits for the next, and the recursion only ends in a
      failure (the interpreter's recursion limit, if nothing fails first). */
  lemma CycleFails(env: Env, st: State, cycle: seq<string>, fuel: nat)
    requires EnvValid(env) && RegistryValid(st) && NoDup(st.processed)
    requires |cycle| > 0 && forall s :: s in cycle ==> s in env.modules && s !in st.processed
    requires Path(env, cycle + [cycle[0]])
    ensures Resolve(env, st, cycle[0], fuel).failure.Some?
  {
    StackStaysOpen(env, st, cycle[0], fuel, cycle);
  }

  /** Every dependency entry of `m` names one of `names`. */
  ghost predicate DepsAmong(env: Env, m: Module, names: seq<string>) {
    && Dependencies(env, m).Ok?
    && forall k :: 0 <= k < |Dependencies(env, m).value| ==>
         Dependencies(env, m).value[k].Str? && Dependencies(env, m).value[k].s in names
  }

  /** `parsedModules` lists known modules, each after all of its
      dependencies. */
  ghost predicate DepsFirst(env: Env, processed: seq<string>)
    decreases |processed|
  {
    || processed == []
    || var n := |processed| - 1;
       && DepsFirst(env, processed[..n])
       && processed[n] in env.modules
       && DepsAmong(env, env.modules[processed[n]], processed[..n])
  }

  lemma DepsFirstAppend(env: Env, ps: seq<string>, n: string)
    requires DepsFirst(env, ps) && n in env.modules && DepsAmong(env, env.modules[n], ps)
    ensures DepsFirst(env, ps + [n])
  {
    assert (ps + [n])[..|ps|] == ps;
  }

  /** A module is recorded only after everything it depends on: resolution
      keeps `parsedModules` in dependency order, whether it succeeds or not. */
  lemma {:induction false} DependenciesFirst(env: Env, st: State, n: string, fuel: nat)
    requires EnvValid(env) && RegistryValid(st) && n in env.modules && DepsFirst(env, st.processed)
    ensures DepsFirst(env, Resolve(env, st, n, fuel).state.processed)
    decreases fuel, 0, 1
  {
    PlainName(env, n);
    if fuel > 0 && n !in st.processed && Truthy(Get(env.modules[n], env.os.name))
       && Dependencies(env, env.modules[n]).Ok?
    {
      DependenciesFirstFrame(env, st, n, fuel);
      ResolveStep(env, st, n, fuel);
    }
  }

  /** The frame of a module that is resolved in full. */
  lemma {:induction false} DependenciesFirstFrame(env: Env, st: State, n: string, fuel: nat)
    requires EnvValid(env) && RegistryValid(st) && n in env.modules && DepsFirst(env, st.processed)
    requires fuel > 0 && Dependencies(env, env.modules[n]).Ok?
    ensures var d := ResolveDeps(env, st, Dependencies(env, env.modules[n]).value, fuel - 1);
            DepsFirst(env, (if d.failure.Some? then d else Record(env, d.state, n, env.modules[n])).state.processed)
    decreases fuel, 0, 0
  {
    PlainName(env, n);
    var m := env.modules[n];
    var items := Dependencies(env, m).value;
    var d := ResolveDeps(env, st, items, fuel - 1);
    assert DepsFirst(env, d.state.processed) by {
      DependenciesFirstDeps(env, st, items, fuel - 1);
    }
    assert d.failure.None? ==> DepsAmong(env, m, d.state.processed) by {
      if d.failure.None? {
        ResolvedDepsAmong(env, m, st, items, fuel - 1);
      }
    }
    RecordAfterDeps(env, n, d);
  }

  /** Recording `n` after its dependencies keeps every module after its
      dependencies. */
  lemma RecordAfterDeps(env: Env, n: string, d: Outcome)
    requires RegistryValid(d.state) && n in env.modules && Basename(n) == n && DepsFirst(env, d.state.processed)
    requires d.failure.None? ==> DepsAmong(env, env.modules[n], d.state.processed)
    ensures DepsFirst(env, (if d.failure.Some? then d else Record(env, d.state, n, env.modules[n])).state.processed)
  {
    CloseOrder(env, n, d, Record(env, d.state, n, env.modules[n]));
  }

  /** After a successful loop over the dependency list of `m`, all of them
      are recorded. */
  lemma ResolvedDepsAmong(env: Env, m: Module, st: State, items: seq<Value>, fuel: nat)
    requires EnvValid(env) && RegistryValid(st) && Dependencies(env, m) == Ok(items)
    requires ResolveDeps(env, st, items, fuel).failure.None?
    ensures DepsAmong(env, m, ResolveDeps(env, st, items, fuel).state.processed)
  {
    forall k | 0 <= k < |items| ensures items[k].Str? && items[k].s in ResolveDeps(env, st, items, fuel).state.processed {
      PlainName(env, items[k].s);
    }
  }

  lemma CloseOrder(env: Env, n: string, d: Outcome, r: Outcome)
    requires DepsFirst(env, d.state.processed)
    requires d.failure.None? ==> n in env.modules && DepsAmong(env, env.modules[n], d.state.processed)
    requires r.failure.None? ==> r.state.processed == d.state.processed + [n]
    requires r.failure.Some? ==> r.state.processed == d.state.processed
    ensures DepsFirst(env, (if d.failure.Some? then d else r).state.processed)
  {
    if d.failure.None? && r.failure.None? {
      DepsFirstAppend(env, d.state.processed, n);
    }
  }

  lemma {:induction false} DependenciesFirstDeps(env: Env, st: State, items: seq<Value>, fuel: nat)
    requires EnvValid(env) && RegistryValid(st) && DepsFirst(env, st.processed)
    ensures DepsFirst(env, ResolveDeps(env, st, items, fuel).state.processed)
    decreases fuel, 1, |items|
  {
    if items != [] && DependencyTarget(env, items[0]).Ok? {
      var t := items[0].s;
      DependenciesFirst(env, st, t, fuel);
      var o := Resolve(env, st, t, fuel);
      if o.failure.None? {
        DependenciesFirstDeps(env, o.state, items[1..], fuel);
      }
    }
  }

  /** Resolving a module that a successful resolution recorded changes
      nothing: `parse` is idempotent. */
  lemma ResolveAgain(env: Env, st: State, n: string, fuel: nat, fuel': nat)
    requires RegistryValid(st) && n in env.modules && fuel' > 0
    requires Resolve(env, st, n, fuel).failure.None?
    ensures var s := Resolve(env, st, n, fuel).state;
            Resolve(env, s, n, fuel') == Outcome(s, None)
  {
  }

  /** Lines 40-46: a module without a truthy block for the target fails
      before anything is written. */
  lemma MissingTargetFails(env: Env, st: State, n: string, fuel: nat)
    requires RegistryValid(st) && n in env.modules && fuel > 0 && Basename(n) !in st.processed
    requires !Truthy(Get(env.modules[n], env.os.name))
    ensures Resolve(env, st, n, fuel) == Outcome(st, Some(UnsupportedTarget(n)))
  {
  }

  /** Lines 52-57: an entry that names no known module stops the loop with
      what the earlier entries wrote. */
  lemma UnknownDependencyFails(env: Env, st: State, before: seq<Value>, t: string, after: seq<Value>, fuel: nat)
    requires RegistryValid(st)
    requires t !in env.modules || |env.modules[t]| == 0
    requires ResolveDeps(env, st, before, fuel).failure.None?
    ensures var o := ResolveDeps(env, st, before, fuel);
            ResolveDeps(env, st, before + [Str(t)] + after, fuel) == Outcome(o.state, Some(MissingDependency(t)))
  {
    ResolveDepsConcat(env, st, before, [Str(t)] + after, fuel);
    assert before + [Str(t)] + after == before + ([Str(t)] + after);
  }

  /** The loop over entries splits at any point. */
  lemma {:induction false} ResolveDepsConcat(env: Env, st: State, a: seq<Value>, b: seq<Value>, fuel: nat)
    requires RegistryValid(st)
    ensures var x := ResolveDeps(env, st, a, fuel);
            ResolveDeps(env, st, a + b, fuel) == if x.failure.Some? then x else ResolveDeps(env, x.state, b, fuel)
    decreases |a|
  {
    if a == [] {
      assert a + b == b;
    } else {
      assert (a + b)[0] == a[0] && (a + b)[1..] == a[1..] + b;
      if DependencyTarget(env, a[0]).Ok? {
        var o := Resolve(env, st, a[0].s, fuel);
        if o.failure.None? {
          ResolveDepsConcat(env, o.state, a[1..], b, fuel);
        }
      }
    }
  }
}
