/** Parameter lookup inside one module: `ModuleParser._getParameter`,
    `_getPriority` and `_getStage` (distro.py:103-139). */
module Lookup {
  import opened Text
  import opened Values

  /** The recursion limit of the interpreter: how many nested calls of
      `_getParameter` may run before Python raises. Any value of at least 2
      gives the same lookups (`LookupMatchesReference`). */
  const RecursionDepth: nat := 1000

  /** The loop of lines 105-110: follow `path` through nested mappings; a
      segment that is missing, or whose value is falsy, ends the walk. */
  function Walk(v: Value, path: seq<string>): (r: Option<Value>)
    ensures r.Some? && path != [] ==> Truthy(r.value)
    ensures path != [] && !v.Mapping? ==> r.None?
  {
    if path == [] then Some(v)
    else if v.Mapping? && Truthy(Get(v.entries, path[0])) then Walk(v.entries[path[0]], path[1..])
    else None
  }

  /** `_getParameter(*args)` with `depth` nested calls left: the literal
      path first, then, when the block of `args[0]` has a truthy `inherit`,
      the same trailing path under `module[os]['inherit']`. */
  function Param(m: Module, os: string, args: seq<string>, depth: nat): (r: Result<Option<Value>>)
    requires |args| > 0
    ensures r.Ok? && r.value.Some? ==> Truthy(r.value.value)
    decreases depth
  {
    if depth == 0 then Err(InheritCycle)
    else match Walk(Mapping(m), args)
      case Some(v) => Ok(Some(v))
      case None =>
        if args[0] !in m then Err(UnknownTarget(args[0]))
        else if !m[args[0]].Mapping? then Err(NotAMapping(args[0]))
        else if !Truthy(Get(m[args[0]].entries, "inherit")) then Ok(None)
        else if os !in m then Err(UnknownTarget(os))
        else if !m[os].Mapping? then Err(NotAMapping(os))
        else if "inherit" !in m[os].entries then Err(Malformed("inherit"))
        else match m[os].entries["inherit"]
          case Str(t) => Param(m, os, [t] + args[1..], depth - 1)
          case _ => Err(Malformed("inherit"))
  }

  /** `_getParameter(os, *path)` as the code calls it. A value it finds is
      truthy, since line 106 only descends into truthy entries. */
  function GetParameter(m: Module, os: string, path: seq<string>): (r: Result<Option<Value>>)
    ensures r.Ok? && r.value.Some? ==> Truthy(r.value.value)
  {
    Param(m, os, [os] + path, RecursionDepth)
  }

  /** Line 114 applied to `target`: does its block have a truthy `inherit`?
      Fails when the block is missing or is not a mapping. */
  function HasInherit(m: Module, target: string): (r: Result<bool>)
    ensures r.Ok? <==> target in m && m[target].Mapping?
  {
    if target !in m then Err(UnknownTarget(target))
    else if !m[target].Mapping? then Err(NotAMapping(target))
    else Ok(Truthy(Get(m[target].entries, "inherit")))
  }

  /** What `_getParameter(os, *path)` returns, written out without recursion:
      the literal path; else, if the OS block inherits from `t`, the path
      under `t`; a second inherit on `t` recurses until the interpreter
      gives up, because line 115 always re-roots at `module[os]['inherit']`. */
  function ParameterReference(m: Module, os: string, path: seq<string>): Result<Option<Value>> {
    match Walk(Mapping(m), [os] + path)
    case Some(v) => Ok(Some(v))
    case None =>
      match HasInherit(m, os)
      case Err(e) => Err(e)
      case Ok(false) => Ok(None)
      case Ok(true) =>
        match m[os].entries["inherit"]
        case Str(t) =>
          (match Walk(Mapping(m), [t] + path)
           case Some(w) => Ok(Some(w))
           case None =>
             match HasInherit(m, t)
             case Err(e) => Err(e)
             case Ok(false) => Ok(None)
             case Ok(true) => Err(InheritCycle))
        case _ => Err(Malformed("inherit"))
  }

  /** Once the OS block inherits from `t` and the lookup under `t` itself
      meets an inherit, every further call repeats the same arguments: the
      recursion fails whatever the depth. */
  lemma {:induction false} RepeatedHopDiverges(m: Module, os: string, t: string, path: seq<string>, depth: nat)
    requires os in m && m[os].Mapping? && "inherit" in m[os].entries
    requires m[os].entries["inherit"] == Str(t)
    requires Walk(Mapping(m), [t] + path).None?
    requires HasInherit(m, t) == Ok(true)
    ensures Param(m, os, [t] + path, depth) == Err(InheritCycle)
    decreases depth
  {
    if depth > 0 {
      assert ([t] + path)[1..] == path;
      RepeatedHopDiverges(m, os, t, path, depth - 1);
    }
  }

  /** The recursive lookup agrees with the written-out reference at every
      depth of at least two. */
  lemma {:induction false} LookupMatchesReference(m: Module, os: string, path: seq<string>, depth: nat)
    requires depth >= 2
    ensures Param(m, os, [os] + path, depth) == ParameterReference(m, os, path)
  {
    var args := [os] + path;
    assert args[1..] == path;
    if Walk(Mapping(m), args).None? && HasInherit(m, os) == Ok(true) {
      assert Truthy(Get(m[os].entries, "inherit"));
      if m[os].entries["inherit"].Str? {
        var t := m[os].entries["inherit"].s;
        var args2 := [t] + path;
        assert args2[1..] == path;
        if Walk(Mapping(m), args2).None? && HasInherit(m, t) == Ok(true) {
          RepeatedHopDiverges(m, os, t, path, depth - 1);
        }
      }
    }
  }

  /** Lines 112-113: a value present at the literal path is returned as is. */
  lemma LiteralPathWins(m: Module, os: string, path: seq<string>, v: Value)
    requires Walk(Mapping(m), [os] + path) == Some(v)
    ensures GetParameter(m, os, path) == Ok(Some(v))
  {
    LookupMatchesReference(m, os, path, RecursionDepth);
  }

  /** Lines 114-115: when the OS block lacks the path but inherits from `t`,
      the value under `t` is returned unchanged. */
  lemma InheritedParameter(m: Module, os: string, t: string, path: seq<string>, w: Value)
    requires os in m && m[os].Mapping? && Get(m[os].entries, "inherit") == Str(t) && t != ""
    requires Walk(Mapping(m), [os] + path).None?
    requires Walk(Mapping(m), [t] + path) == Some(w)
    ensures GetParameter(m, os, path) == Ok(Some(w))
  {
    LookupMatchesReference(m, os, path, RecursionDepth);
  }

  /** Line 116: no value and no inherit means None. */
  lemma AbsentWithoutInherit(m: Module, os: string, path: seq<string>)
    requires os in m && m[os].Mapping? && !Truthy(Get(m[os].entries, "inherit"))
    requires Walk(Mapping(m), [os] + path).None?
    ensures GetParameter(m, os, path) == Ok(None)
  {
    LookupMatchesReference(m, os, path, RecursionDepth);
  }

  /** A two-hop chain (`os` inherits `t`, `t` inherits something further)
      never reaches the second hop's value: the call fails. */
  lemma TwoHopChainFails(m: Module, os: string, t: string, path: seq<string>)
    requires os in m && m[os].Mapping? && Get(m[os].entries, "inherit") == Str(t) && t != ""
    requires t in m && m[t].Mapping? && Truthy(Get(m[t].entries, "inherit"))
    requires Walk(Mapping(m), [os] + path).None? && Walk(Mapping(m), [t] + path).None?
    ensures GetParameter(m, os, path) == Err(InheritCycle)
  {
    LookupMatchesReference(m, os, path, RecursionDepth);
  }

  /** The first truthy of: the step-level field, the target-level field, the
      default. Errors of either lookup abort. Shared by lines 119-139. */
  function WithFallback(m: Module, os: string, step: string, field: string, default: Value): (r: Result<Value>)
    requires Truthy(default)
    ensures r.Ok? ==> Truthy(r.value)
  {
    var atStep :- GetParameter(m, os, [step, field]);
    if atStep.Some? then Ok(atStep.value)
    else
      var atTarget :- GetParameter(m, os, [field]);
      if atTarget.Some? then Ok(atTarget.value) else Ok(default)
  }

  /** `_getPriority(step)`: step-level `priority`, else target-level, else 10.
      Whatever it returns is truthy. */
  function GetPriority(m: Module, os: string, step: string): (r: Result<Value>)
    ensures r.Ok? ==> Truthy(r.value)
  {
    WithFallback(m, os, step, "priority", Int(10))
  }

  /** `_getStage(step)`: step-level `stage`, else target-level, else
      `"<os>-install.sh"`. Whatever it returns is truthy. */
  function GetStage(m: Module, os: string, step: string): (r: Result<Value>)
    ensures r.Ok? ==> Truthy(r.value)
  {
    WithFallback(m, os, step, "stage", Str(os + "-install.sh"))
  }

  /** A truthy field in the step block of the OS block wins. */
  lemma StepLevelWins(m: Module, os: string, step: string, field: string, default: Value, v: Value)
    requires Truthy(default)
    requires Walk(Mapping(m), [os, step, field]) == Some(v)
    ensures WithFallback(m, os, step, field, default) == Ok(v)
  {
    LiteralPathWins(m, os, [step, field], v);
  }

  /** Without it, a truthy field directly in the OS block is used. */
  lemma TargetLevelFallback(m: Module, os: string, step: string, field: string, default: Value, v: Value)
    requires Truthy(default)
    requires os in m && m[os].Mapping? && !Truthy(Get(m[os].entries, "inherit"))
    requires Walk(Mapping(m), [os, step, field]).None?
    requires Walk(Mapping(m), [os, field]) == Some(v)
    ensures WithFallback(m, os, step, field, default) == Ok(v)
  {
    AbsentWithoutInherit(m, os, [step, field]);
    LiteralPathWins(m, os, [field], v);
  }

  /** Without either (and no inherit), the hard-coded default: priority 10,
      stage `"<os>-install.sh"`. */
  lemma DefaultsApply(m: Module, os: string, step: string)
    requires os in m && m[os].Mapping? && !Truthy(Get(m[os].entries, "inherit"))
    requires Walk(Mapping(m), [os, step, "priority"]).None? && Walk(Mapping(m), [os, "priority"]).None?
    requires Walk(Mapping(m), [os, step, "stage"]).None? && Walk(Mapping(m), [os, "stage"]).None?
    ensures GetPriority(m, os, step) == Ok(Int(10))
    ensures GetStage(m, os, step) == Ok(Str(os + "-install.sh"))
  {
    AbsentWithoutInherit(m, os, [step, "priority"]);
    AbsentWithoutInherit(m, os, ["priority"]);
    AbsentWithoutInherit(m, os, [step, "stage"]);
    AbsentWithoutInherit(m, os, ["stage"]);
  }

  /** Lines 120-123 and 130-133 in general: when the step-level lookup finds
      nothing (through `inherit` too) and the target-level lookup finds `v`,
      the result is `v`. */
  lemma TargetLookupFallback(m: Module, os: string, step: string, field: string, default: Value, v: Value)
    requires Truthy(default)
    requires GetParameter(m, os, [step, field]) == Ok(None)
    requires GetParameter(m, os, [field]) == Ok(Some(v))
    ensures WithFallback(m, os, step, field, default) == Ok(v)
  { }

  /** Lines 125-126 and 135-136 in general: when both lookups find nothing,
      the default is used. */
  lemma DefaultLookupFallback(m: Module, os: string, step: string, field: string, default: Value)
    requires Truthy(default)
    requires GetParameter(m, os, [step, field]) == Ok(None)
    requires GetParameter(m, os, [field]) == Ok(None)
    ensures WithFallback(m, os, step, field, default) == Ok(default)
  { }

  /** The step-level lookup follows `inherit` before the target-level one is
      tried: a step-level field of the inherited block `t` beats a
      target-level field of the module's own OS block. */
  lemma InheritedStepBeatsLocalTarget(m: Module, os: string, t: string, step: string, field: string,
                                      default: Value, v: Value, w: Value)
    requires Truthy(default)
    requires os in m && m[os].Mapping? && Get(m[os].entries, "inherit") == Str(t) && t != ""
    requires Walk(Mapping(m), [os, step, field]).None?
    requires Walk(Mapping(m), [t, step, field]) == Some(v)
    requires Walk(Mapping(m), [os, field]) == Some(w)
    ensures WithFallback(m, os, step, field, default) == Ok(v)
  {
    assert [os] + [step, field] == [os, step, field];
    assert [t] + [step, field] == [t, step, field];
    InheritedParameter(m, os, t, [step, field], v);
  }
}
