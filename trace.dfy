/** What a resolution writes: the modules `ModuleParser.parse` hands to
    `_parseOSModule` (distro.py:41-43), in call order, and how the
    registry grows meanwhile. */
module Trace {
  import opened Text
  import opened Values
  import opened Registry
  import opened Emit
  import opened Resolve

  /** The names passed to `EmitModule` while resolving `name`, in the order
      of the calls, including a last call whose emission fails. The shape
      follows `Resolve`: the dependencies' emissions, then the module's own
      once they all succeeded. */
  ghost function Emitted(env: Env, st: State, name: string, fuel: nat): (r: seq<string>)
    requires RegistryValid(st) && name in env.modules
    ensures Basename(name) in st.processed ==> r == []
    decreases fuel, 0
  {
    if fuel == 0 || Basename(name) in st.processed then []
    else
      var m := env.modules[name];
      if !Truthy(Get(m, env.os.name)) then []
      else match Dependencies(env, m)
        case Err(_) => []
        case Ok(items) =>
          var d := ResolveDeps(env, st, items, fuel - 1);
          EmittedDeps(env, st, items, fuel - 1) + (if d.failure.Some? then [] else [name])
  }

  /** The names passed to `EmitModule` by the dependency loop over `items`. */
  ghost function EmittedDeps(env: Env, st: State, items: seq<Value>, fuel: nat): (r: seq<string>)
    requires RegistryValid(st)
    ensures r != [] ==> items != [] && DependencyTarget(env, items[0]).Ok?
    decreases fuel, 1, |items|
  {
    if items == [] then []
    else match DependencyTarget(env, items[0])
      case Err(_) => []
      case Ok(n) =>
        var o := Resolve.Resolve(env, st, n, fuel);
        Emitted(env, st, n, fuel) + (if o.failure.Some? then [] else EmittedDeps(env, o.state, items[1..], fuel))
  }

  /** When `o` succeeded, its `parsedModules` is `before` followed by
      `emitted`. */
  ghost predicate Records(o: Outcome, before: seq<string>, emitted: seq<string>) {
    o.failure.None? ==> o.state.processed == before + emitted
  }

  /** A successful `parse` grows `parsedModules` by exactly the modules it
      emitted, in emission order. */
  lemma {:induction false} EmittedRecorded(env: Env, st: State, n: string, fuel: nat)
    requires EnvValid(env) && RegistryValid(st) && n in env.modules
    ensures Records(Resolve.Resolve(env, st, n, fuel), st.processed, Emitted(env, st, n, fuel))
    decreases fuel, 0, 1
  {
    PlainName(env, n);
    if fuel > 0 && n !in st.processed && Truthy(Get(env.modules[n], env.os.name))
       && Dependencies(env, env.modules[n]).Ok?
    {
      EmittedFrame(env, st, n, fuel);
    } else {
      EmittedEarly(env, st, n, fuel);
      RecordsNothing(Resolve.Resolve(env, st, n, fuel), st.processed);
    }
  }

  /** A resolution that leaves `parsedModules` as it was records that
      nothing was emitted. */
  lemma RecordsNothing(o: Outcome, before: seq<string>)
    requires o.state.processed == before
    ensures Records(o, before, [])
  {
    assert before + [] == before;
  }

  /** A `parse` that does not reach the dependency loop emits nothing and
      writes nothing. */
  lemma EmittedEarly(env: Env, st: State, n: string, fuel: nat)
    requires RegistryValid(st) && n in env.modules
    requires !(fuel > 0 && Basename(n) !in st.processed && Truthy(Get(env.modules[n], env.os.name))
               && Dependencies(env, env.modules[n]).Ok?)
    ensures Emitted(env, st, n, fuel) == []
    ensures Resolve.Resolve(env, st, n, fuel).state == st
  { }

  /** The frame of a module that reaches its dependency loop. */
  lemma {:induction false} EmittedFrame(env: Env, st: State, n: string, fuel: nat)
    requires EnvValid(env) && RegistryValid(st) && n in env.modules && n !in st.processed
    requires fuel > 0 && Truthy(Get(env.modules[n], env.os.name)) && Dependencies(env, env.modules[n]).Ok?
    ensures Records(Resolve.Resolve(env, st, n, fuel), st.processed, Emitted(env, st, n, fuel))
    decreases fuel, 0, 0
  {
    PlainName(env, n);
    var items := Dependencies(env, env.modules[n]).value;
    EmittedRecordedDeps(env, st, items, fuel - 1);
    RecordsAfterFrame(env, n, env.modules[n], ResolveDeps(env, st, items, fuel - 1), st.processed, EmittedDeps(env, st, items, fuel - 1));
  }

  /** Whatever the dependencies did, recording `n` after them closes the frame. */
  lemma RecordsAfterFrame(env: Env, n: string, m: Module, d: Outcome, before: seq<string>, e: seq<string>)
    requires RegistryValid(d.state) && Basename(n) == n && Records(d, before, e)
    ensures Records(if d.failure.Some? then d else Record(env, d.state, n, m), before, e + (if d.failure.Some? then [] else [n]))
  {
    RecordsClose(d, Record(env, d.state, n, m), before, e, n);
  }

  /** The frame closes: the dependencies' emissions, then `n`'s own. */
  lemma RecordsClose(d: Outcome, r: Outcome, before: seq<string>, e: seq<string>, n: string)
    requires Records(d, before, e)
    requires r.failure.None? ==> r.state.processed == d.state.processed + [n]
    ensures Records(if d.failure.Some? then d else r, before, e + (if d.failure.Some? then [] else [n]))
  {
    if d.failure.None? {
      assert before + (e + [n]) == d.state.processed + [n];
    }
  }

  lemma {:induction false} EmittedRecordedDeps(env: Env, st: State, items: seq<Value>, fuel: nat)
    requires EnvValid(env) && RegistryValid(st)
    ensures Records(ResolveDeps(env, st, items, fuel), st.processed, EmittedDeps(env, st, items, fuel))
    decreases fuel, 1, |items|
  {
    if items != [] && DependencyTarget(env, items[0]).Ok? {
      var t := items[0].s;
      EmittedRecorded(env, st, t, fuel);
      var o := Resolve.Resolve(env, st, t, fuel);
      var e1 := Emitted(env, st, t, fuel);
      if o.failure.None? {
        EmittedRecordedDeps(env, o.state, items[1..], fuel);
        DepsStep(env, st, items, fuel);
        RecordsChain(o, ResolveDeps(env, o.state, items[1..], fuel), st.processed, e1,
                     EmittedDeps(env, o.state, items[1..], fuel));
      }
    }
  }

  /** One turn of the dependency loop that resolved its entry. */
  lemma DepsStep(env: Env, st: State, items: seq<Value>, fuel: nat)
    requires RegistryValid(st) && items != [] && DependencyTarget(env, items[0]).Ok?
    requires Resolve.Resolve(env, st, items[0].s, fuel).failure.None?
    ensures var o := Resolve.Resolve(env, st, items[0].s, fuel);
            && ResolveDeps(env, st, items, fuel) == ResolveDeps(env, o.state, items[1..], fuel)
            && EmittedDeps(env, st, items, fuel)
               == Emitted(env, st, items[0].s, fuel) + EmittedDeps(env, o.state, items[1..], fuel)
  { }

  /** Two resolutions in a row record what they emitted, in order. */
  lemma RecordsChain(o: Outcome, r: Outcome, before: seq<string>, e1: seq<string>, e2: seq<string>)
    requires o.failure.None? && Records(o, before, e1) && Records(r, o.state.processed, e2)
    ensures Records(r, before, e1 + e2)
  {
    assert before + (e1 + e2) == o.state.processed + e2;
  }

  /** A list without duplicates splits into two parts without duplicates
      and without common elements. */
  lemma NoDupSplit<T>(a: seq<T>, b: seq<T>)
    requires NoDup(a + b)
    ensures NoDup(b) && forall x :: x in b ==> x !in a
  {
    forall i, j | 0 <= i < j < |b| ensures b[i] != b[j] {
      assert b[i] == (a + b)[|a| + i] && b[j] == (a + b)[|a| + j];
    }
    forall x | x in b ensures x !in a {
      var j :| 0 <= j < |b| && b[j] == x;
      forall i | 0 <= i < |a| ensures a[i] != x {
        assert (a + b)[i] == a[i] && (a + b)[|a| + j] == b[j];
      }
    }
  }

  /** Lines 41-43 for a resolution that succeeds: each module reaches
      `_parseOSModule` at most once (a diamond dependency is emitted once),
      none that an earlier `parse` already emitted, the requested module
      among them unless it was already done, and each only after every
      module it depends on. */
  lemma EmittedOnce(env: Env, st: State, n: string, fuel: nat)
    requires EnvValid(env) && RegistryValid(st) && n in env.modules
    requires NoDup(st.processed) && DepsFirst(env, st.processed)
    requires Resolve.Resolve(env, st, n, fuel).failure.None?
    ensures var e := Emitted(env, st, n, fuel);
            && NoDup(e)
            && (forall x :: x in e ==> x !in st.processed)
            && (n !in st.processed ==> n in e)
            && DepsFirst(env, st.processed + e)
  {
    var e := Emitted(env, st, n, fuel);
    EmittedRecorded(env, st, n, fuel);
    RecordedOnce(env, st, n, fuel);
    DependenciesFirst(env, st, n, fuel);
    PlainName(env, n);
    NoDupSplit(st.processed, e);
  }

  /** A resolution only appends: to `parsedModules`, to the key order and
      to each buffer, whether it succeeds or not. */
  lemma {:induction false} ResolveExtends(env: Env, st: State, n: string, fuel: nat)
    requires RegistryValid(st) && n in env.modules
    ensures Extends(st, Resolve.Resolve(env, st, n, fuel).state)
    decreases fuel, 0
  {
    if fuel > 0 && Basename(n) !in st.processed && Truthy(Get(env.modules[n], env.os.name))
       && Dependencies(env, env.modules[n]).Ok?
    {
      var items := Dependencies(env, env.modules[n]).value;
      ResolveDepsExtends(env, st, items, fuel - 1);
      var d := ResolveDeps(env, st, items, fuel - 1);
      ResolveStep(env, st, n, fuel);
      if d.failure.None? {
        var r := Record(env, d.state, n, env.modules[n]);
        ExtendsTransitive(st, d.state, r.state);
        ExtendsSubst(st, Resolve.Resolve(env, st, n, fuel), r);
      } else {
        ExtendsSubst(st, Resolve.Resolve(env, st, n, fuel), d);
      }
    } else {
      EmittedEarly(env, st, n, fuel);
      ExtendsReflexive(st);
      ExtendsSubst(st, Resolve.Resolve(env, st, n, fuel), Outcome(st, None));
    }
  }

  lemma ExtendsSubst(st: State, o: Outcome, x: Outcome)
    requires o.state == x.state && Extends(st, x.state)
    ensures Extends(st, o.state)
  { }

  lemma {:induction false} ResolveDepsExtends(env: Env, st: State, items: seq<Value>, fuel: nat)
    requires RegistryValid(st)
    ensures Extends(st, ResolveDeps(env, st, items, fuel).state)
    decreases fuel, 1, |items|
  {
    if items != [] && DependencyTarget(env, items[0]).Ok? {
      var t := items[0].s;
      ResolveExtends(env, st, t, fuel);
      var o := Resolve.Resolve(env, st, t, fuel);
      if o.failure.None? {
        ResolveDepsExtends(env, o.state, items[1..], fuel);
        ExtendsTransitive(st, o.state, ResolveDeps(env, o.state, items[1..], fuel).state);
      }
    }
  }
}
