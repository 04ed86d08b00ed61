/** What one module writes into the buffers: `_copyFiles` (its checks only),
    `_parseInstallConfig` with `_addComment`, `_addEcho`, `_addCommand` and
    `_addScript`, and `_parsePackageInstall` (distro.py:59-101, 141-181).
    Each function gives the state after the step and the error it raised,
    if any; a failed step keeps what it wrote before failing, as Python's
    global buffers do. */
module Emit {
  import opened Text
  import opened Values
  import opened Lookup
  import opened Registry

  /** `OSConfig`: the target name and its two package commands. */
  datatype OSConfig = OSConfig(name: string, installCommand: string, updateCommand: string)

  /** What a run reads and never changes: the OS profile, every module by
      file name (`module_paths`), the text of each step script by path, and
      the paths that exist on disk. */
  datatype Env = Env(os: OSConfig, modules: map<string, Module>, scripts: map<string, string>, existing: set<string>)

  /** The state after an operation, and the error if it raised. */
  datatype Outcome = Outcome(state: State, failure: Option<Error>)

  /** Lines 66 and 81: `self.module[os].get(step)`. Only the module's own OS
      block is consulted; `inherit` plays no part here. */
  function HasStep(m: Module, os: string, step: StepKind): (r: Result<bool>)
    ensures r.Ok? <==> os in m && m[os].Mapping?
    ensures r.Ok? ==> (r.value <==> StepName(step) in m[os].entries && Truthy(m[os].entries[StepName(step)]))
  {
    if os !in m then Err(UnknownTarget(os))
    else if !m[os].Mapping? then Err(NotAMapping(os))
    else Ok(Truthy(Get(m[os].entries, StepName(step))))
  }

  /** Lines 67-70 and 82-84: the buffer key of a step, from `_getPriority`
      and `_getStage`. A priority that is no integer, or a stage that is no
      string, is rejected. The key always has a non-zero priority and a
      non-empty stage, since both lookups return truthy values. */
  function KeyOf(m: Module, os: string, step: StepKind): (r: Result<Key>)
    ensures r.Ok? ==> r.value.step == step && r.value.priority != 0 && r.value.stage != ""
    ensures r.Ok? ==> GetPriority(m, os, StepName(step)) == Ok(Int(r.value.priority))
                      && GetStage(m, os, StepName(step)) == Ok(Str(r.value.stage))
  {
    var p :- GetPriority(m, os, StepName(step));
    var s :- GetStage(m, os, StepName(step));
    if !p.Int? then Err(Malformed("priority"))
    else if !s.Str? then Err(Malformed("stage"))
    else Ok(Key(s.s, step, p.i))
  }

  /** `_addComment` (lines 141-147). `stem` is the module's file name
      without directory and extension. */
  function Comment(stem: string, step: StepKind, priority: int): (r: string)
    ensures |r| > 0 && r[|r| - 1] == '\n'
    ensures step == Install ==> r == InstallHeader(priority)
    ensures step != Install ==> r == "\n# " + stem + " " + StepName(step) + " (priority: " + Decimal(priority) + ")\n"
  {
    if step == Install then InstallHeader(priority)
    else "\n# " + stem + " " + StepName(step) + " (priority: " + Decimal(priority) + ")\n"
  }

  /** `_addEcho` (lines 149-152): `echo "<echo>"` and a newline, or nothing. */
  function EchoText(m: Module, os: string, step: StepKind): (r: Result<string>)
    ensures GetParameter(m, os, [StepName(step), "echo"]) == Ok(None) ==> r == Ok("")
  {
    var echo :- GetParameter(m, os, [StepName(step), "echo"]);
    if echo.None? then Ok("")
    else match Render(echo.value)
      case None => Err(Malformed("echo"))
      case Some(t) => Ok("echo \"" + t + "\"\n")
  }

  /** `_addCommand` (lines 154-157): the stripped command and a newline, or
      nothing. A command that is not a string has no `strip`. */
  function CommandText(m: Module, os: string, step: StepKind): (r: Result<string>)
    ensures r.Ok? && r.value != [] ==> r.value[|r.value| - 1] == '\n'
                                       && (|r.value| == 1 || (!IsSpace(r.value[0]) && !IsSpace(r.value[|r.value| - 2])))
  {
    var command :- GetParameter(m, os, [StepName(step), "command"]);
    if command.None? then Ok("")
    else match command.value
      case Str(c) => StrippedLine(c); Ok(Strip(c) + "\n")
      case _ => Err(Malformed("command"))
  }

  /** A stripped command and its newline: the line ends in the newline and
      the command neither starts nor ends with whitespace. */
  lemma StrippedLine(c: string)
    ensures var t := Strip(c) + "\n";
            t[|t| - 1] == '\n' && (|t| == 1 || (!IsSpace(t[0]) && !IsSpace(t[|t| - 2])))
  {
    var r := Strip(c);
    if r != [] {
      assert (r + "\n")[0] == r[0] && (r + "\n")[|r| - 1] == r[|r| - 1];
    }
  }

  /** `_addScript` (lines 159-165): a comment naming the script file, then
      its whole text and a newline. The text comes from `env.scripts`; a path
      missing there is a file that cannot be opened. */
  function ScriptText(env: Env, m: Module, step: StepKind): (r: Result<string>)
    ensures r.Ok? && r.value != [] ==> exists p :: p in env.scripts && r.value == "\n# " + Basename(p) + "\n" + env.scripts[p] + "\n"
  {
    var script :- GetParameter(m, env.os.name, [StepName(step), "script"]);
    if script.None? then Ok("")
    else match script.value
      case Str(p) =>
        if p in env.scripts then Ok("\n# " + Basename(p) + "\n" + env.scripts[p] + "\n")
        else Err(MissingScript(p))
      case _ => Err(Malformed("script"))
  }

  /** One more `temp_file.write` of a step whose text may fail to compute:
      after an earlier failure nothing happens; a text that fails stops the
      step with the state as it is; otherwise the text is appended. */
  function Then(o: Outcome, key: Key, text: Result<string>): (r: Outcome)
    requires RegistryValid(o.state) && key in o.state.buffers
    ensures RegistryValid(r.state) && key in r.state.buffers && Extends(o.state, r.state)
    ensures r.state.processed == o.state.processed
    ensures o.failure.Some? ==> r == o
    ensures o.failure.None? && text.Err? ==> r == Outcome(o.state, Some(text.error))
    ensures o.failure.None? && text.Ok? ==> r == Outcome(Append(o.state, key, text.value), None)
  {
    if o.failure.Some? then o
    else match text
      case Err(e) => Outcome(o.state, Some(e))
      case Ok(t) => Outcome(Append(o.state, key, t), None)
  }

  /** `_parseInstallConfig(step)` for `pre-install` or `post-install`. An
      absent step block touches nothing; otherwise exactly one buffer, the
      one of its key, grows, by the comment, echo, command and script in that
      order (`ConfigStepLayout`). */
  function ConfigStep(env: Env, st: State, name: string, m: Module, step: StepKind): (o: Outcome)
    requires RegistryValid(st) && step != Install
    ensures RegistryValid(o.state) && o.state.processed == st.processed && Extends(st, o.state)
    ensures HasStep(m, env.os.name, step) == Ok(false) ==> o == Outcome(st, None)
  {
    var os := env.os.name;
    match HasStep(m, os, step)
    case Err(e) => Outcome(st, Some(e))
    case Ok(false) => Outcome(st, None)
    case Ok(true) =>
      match KeyOf(m, os, step)
      case Err(e) => Outcome(st, Some(e))
      case Ok(key) =>
        var s1 := Append(Open(st, key, ""), key, Comment(Stem(name), step, key.priority));
        var o2 := Then(Outcome(s1, None), key, EchoText(m, os, step));
        var o3 := Then(o2, key, CommandText(m, os, step));
        var o4 := Then(o3, key, ScriptText(env, m, step));
        ExtendsTransitive(st, s1, o2.state);
        ExtendsTransitive(st, o2.state, o3.state);
        ExtendsTransitive(st, o3.state, o4.state);
        o4
  }

  /** A `pre-install` or `post-install` step that succeeds grows exactly the
      buffer of its key, by the comment, echo, command and script in that
      order; every other buffer is left as it was. */
  lemma ConfigStepLayout(env: Env, st: State, name: string, m: Module, step: StepKind)
    requires RegistryValid(st) && step != Install
    requires HasStep(m, env.os.name, step) == Ok(true)
    requires ConfigStep(env, st, name, m, step).failure.None?
    ensures KeyOf(m, env.os.name, step).Ok? && EchoText(m, env.os.name, step).Ok?
            && CommandText(m, env.os.name, step).Ok? && ScriptText(env, m, step).Ok?
    ensures var o := ConfigStep(env, st, name, m, step);
            var key := KeyOf(m, env.os.name, step).value;
            && o.state.order == st.order + (if key in st.buffers then [] else [key])
            && o.state.buffers.Keys == st.buffers.Keys + {key}
            && (forall k :: k in st.buffers && k != key ==> o.state.buffers[k] == st.buffers[k])
            && o.state.buffers[key] == (if key in st.buffers then st.buffers[key] else "")
                                       + Comment(Stem(name), step, key.priority)
                                       + EchoText(m, env.os.name, step).value
                                       + CommandText(m, env.os.name, step).value
                                       + ScriptText(env, m, step).value
  {
    var os := env.os.name;
    var key := KeyOf(m, os, step).value;
    var c, e, k, x := Comment(Stem(name), step, key.priority), EchoText(m, os, step).value,
                      CommandText(m, os, step).value, ScriptText(env, m, step).value;
    ConfigStepUnfold(env, st, name, m, step);
    AppendFour(st, key, c, e, k, x);
  }

  /** The successful path of `ConfigStep` is four appends to the opened
      buffer. */
  lemma ConfigStepUnfold(env: Env, st: State, name: string, m: Module, step: StepKind)
    requires RegistryValid(st) && step != Install
    requires HasStep(m, env.os.name, step) == Ok(true)
    requires ConfigStep(env, st, name, m, step).failure.None?
    ensures KeyOf(m, env.os.name, step).Ok? && EchoText(m, env.os.name, step).Ok?
            && CommandText(m, env.os.name, step).Ok? && ScriptText(env, m, step).Ok?
    ensures var key := KeyOf(m, env.os.name, step).value;
            ConfigStep(env, st, name, m, step).state
            == Append(Append(Append(Append(Open(st, key, ""), key, Comment(Stem(name), step, key.priority)),
                                    key, EchoText(m, env.os.name, step).value),
                             key, CommandText(m, env.os.name, step).value),
                      key, ScriptText(env, m, step).value)
  { }

  /** Four appends to the buffer of a configuration key (opened empty, or
      reused) concatenate onto it and touch no other buffer. */
  lemma AppendFour(st: State, key: Key, a: string, b: string, c: string, d: string)
    requires RegistryValid(st) && key.step != Install
    ensures var o := Append(Append(Append(Append(Open(st, key, ""), key, a), key, b), key, c), key, d);
            && o.order == st.order + (if key in st.buffers then [] else [key])
            && o.buffers.Keys == st.buffers.Keys + {key}
            && (forall k :: k in st.buffers && k != key ==> o.buffers[k] == st.buffers[k])
            && o.buffers[key] == (if key in st.buffers then st.buffers[key] else "") + a + b + c + d
  {
    var s0 := Open(st, key, "");
    assert s0.buffers[key] == (if key in st.buffers then st.buffers[key] else "");
  }

  /** `f"{p}"` of each package of a list, or None when one is a collection. */
  function RenderAll(xs: seq<Value>): (r: Option<seq<string>>)
    ensures r.Some? ==> |r.value| == |xs| && forall k :: 0 <= k < |xs| ==> Render(xs[k]) == Some(r.value[k])
    ensures r.None? ==> exists k :: 0 <= k < |xs| && Render(xs[k]).None?
  {
    if xs == [] then Some([])
    else match (Render(xs[0]), RenderAll(xs[1..]))
      case (Some(h), Some(t)) => Some([h] + t)
      case _ => None
  }

  /** Lines 72-78: a space, then the packages (a list joined with single
      spaces), or nothing when there are none. */
  function PackagesText(m: Module, os: string): (r: Result<string>)
    ensures GetParameter(m, os, ["install", "packages"]) == Ok(None) ==> r == Ok("")
    ensures r.Ok? && r.value != "" ==> r.value[0] == ' '
    ensures r.Err? ==> GetParameter(m, os, ["install", "packages"]).Err? || r.error == Malformed("packages")
  {
    var packages :- GetParameter(m, os, ["install", "packages"]);
    if packages.None? then Ok("")
    else match packages.value
      case List(xs) =>
        (match RenderAll(xs)
         case Some(names) => Ok(" " + JoinWith(names, " "))
         case None => Err(Malformed("packages")))
      case Mapping(_) => Err(Malformed("packages"))
      case v => Ok(" " + Render(v).value)
  }

  /** `_parsePackageInstall` (lines 65-78). An absent `install` block touches
      nothing; otherwise exactly the buffer of the install key grows by the
      package text, after being seeded with the header and install command if
      it is new. */
  function InstallStep(env: Env, st: State, m: Module): (o: Outcome)
    requires RegistryValid(st)
    ensures RegistryValid(o.state) && o.state.processed == st.processed && Extends(st, o.state)
    ensures HasStep(m, env.os.name, Install) == Ok(false) ==> o == Outcome(st, None)
    ensures o.failure.None? && HasStep(m, env.os.name, Install) == Ok(true) ==>
              KeyOf(m, env.os.name, Install).Ok? && PackagesText(m, env.os.name).Ok? &&
              var key := KeyOf(m, env.os.name, Install).value;
              && o.state.buffers.Keys == st.buffers.Keys + {key}
              && (forall k :: k in st.buffers && k != key ==> o.state.buffers[k] == st.buffers[k])
              && o.state.buffers[key] == (if key in st.buffers then st.buffers[key] else Seed(key, env.os.installCommand))
                                         + PackagesText(m, env.os.name).value
  {
    var os := env.os.name;
    match HasStep(m, os, Install)
    case Err(e) => Outcome(st, Some(e))
    case Ok(false) => Outcome(st, None)
    case Ok(true) =>
      match KeyOf(m, os, Install)
      case Err(e) => Outcome(st, Some(e))
      case Ok(key) =>
        var s0 := Open(st, key, env.os.installCommand);
        match PackagesText(m, os)
        case Err(e) => Outcome(s0, Some(e))
        case Ok(text) => Outcome(Append(s0, key, text), None)
  }

  /** Lines 170-181 without the copying: the first item that is not a string
      path, or names a path that does not exist, aborts. */
  function CheckFiles(items: seq<Value>, existing: set<string>): (r: Option<Error>)
    ensures r.None? <==> forall k :: 0 <= k < |items| ==> items[k].Str? && items[k].s in existing
  {
    if items == [] then None
    else if !items[0].Str? then Some(Malformed("files"))
    else if items[0].s !in existing then Some(MissingFile(items[0].s))
    else CheckFiles(items[1..], existing)
  }

  /** `_copyFiles` (lines 167-181): the checks that can abort it. */
  function CopyFiles(env: Env, m: Module): (r: Option<Error>)
    ensures r.None? <==>
              var files := GetParameter(m, env.os.name, ["files"]);
              && files.Ok?
              && (files.value.Some? ==>
                    && Items(files.value.value, "files").Ok?
                    && forall k :: 0 <= k < |Items(files.value.value, "files").value| ==>
                         Items(files.value.value, "files").value[k].Str?
                         && Items(files.value.value, "files").value[k].s in env.existing)
  {
    match GetParameter(m, env.os.name, ["files"])
    case Err(e) => Some(e)
    case Ok(None) => None
    case Ok(Some(v)) =>
      match Items(v, "files")
      case Err(e) => Some(e)
      case Ok(items) => CheckFiles(items, env.existing)
  }

  /** `_parseOSModule` (lines 59-63): files, then pre-install, install and
      post-install, stopping at the first error. */
  function EmitModule(env: Env, st: State, name: string, m: Module): (o: Outcome)
    requires RegistryValid(st)
    ensures RegistryValid(o.state) && o.state.processed == st.processed && Extends(st, o.state)
  {
    match CopyFiles(env, m)
    case Some(e) => Outcome(st, Some(e))
    case None =>
      var pre := ConfigStep(env, st, name, m, PreInstall);
      if pre.failure.Some? then pre
      else
        var install := InstallStep(env, pre.state, m);
        if install.failure.Some? then install
        else ConfigStep(env, install.state, name, m, PostInstall)
  }

  /** The text a step appends to the buffer of key `k`: comment, echo,
      command and script for `pre-install` and `post-install`, the package
      text for `install`. */
  function StepText(env: Env, name: string, m: Module, k: Key): Result<string> {
    var os := env.os.name;
    if k.step == Install then PackagesText(m, os)
    else
      var echo :- EchoText(m, os, k.step);
      var command :- CommandText(m, os, k.step);
      var script :- ScriptText(env, m, k.step);
      Ok(Comment(Stem(name), k.step, k.priority) + echo + command + script)
  }

  /** The key a present step writes to, if it has one. */
  ghost function StepKeys(env: Env, m: Module, step: StepKind): seq<Key> {
    if HasStep(m, env.os.name, step) == Ok(true) && KeyOf(m, env.os.name, step).Ok?
    then [KeyOf(m, env.os.name, step).value]
    else []
  }

  /** The text each present step of `m` appends, by key. */
  ghost function StepTexts(env: Env, name: string, m: Module): map<Key, string> {
    var ks := StepKeys(env, m, PreInstall) + StepKeys(env, m, Install) + StepKeys(env, m, PostInstall);
    map k | k in ks && StepText(env, name, m, k).Ok? :: StepText(env, name, m, k).value
  }

  /** The text of a present config step, once its pieces are known. */
  lemma ConfigText(env: Env, name: string, m: Module, key: Key, echo: string, command: string, script: string)
    requires key.step != Install
    requires EchoText(m, env.os.name, key.step) == Ok(echo)
    requires CommandText(m, env.os.name, key.step) == Ok(command)
    requires ScriptText(env, m, key.step) == Ok(script)
    ensures StepText(env, name, m, key) == Ok(Comment(Stem(name), key.step, key.priority) + echo + command + script)
  { }

  /** The map of step texts holds the text of every present step. */
  lemma InStepTexts(env: Env, name: string, m: Module, step: StepKind, key: Key, text: string)
    requires StepKeys(env, m, step) == [key] && StepText(env, name, m, key) == Ok(text)
    ensures key in StepTexts(env, name, m) && StepTexts(env, name, m)[key] == text
  {
    var ks := StepKeys(env, m, PreInstall) + StepKeys(env, m, Install) + StepKeys(env, m, PostInstall);
    assert key in ks by {
      match step
      case PreInstall =>
      case Install =>
      case PostInstall =>
    }
  }

  lemma Concat4(a: string, b: string, c: string, d: string, e: string)
    ensures a + b + c + d + e == a + (b + c + d + e)
  { }

  /** A successful `pre-install` or `post-install` step has the effect of
      its key, or none when the step is absent. */
  lemma ConfigEffect(env: Env, st: State, name: string, m: Module, step: StepKind)
    requires RegistryValid(st) && step != Install
    requires ConfigStep(env, st, name, m, step).failure.None?
    ensures Effect(st, ConfigStep(env, st, name, m, step).state, StepKeys(env, m, step), StepTexts(env, name, m), env.os.installCommand)
  {
    var os := env.os.name;
    var o := ConfigStep(env, st, name, m, step);
    var add := StepTexts(env, name, m);
    if HasStep(m, os, step) == Ok(true) {
      ConfigStepLayout(env, st, name, m, step);
      var key := KeyOf(m, os, step).value;
      assert StepKeys(env, m, step) == [key];
      var echo := EchoText(m, os, step).value;
      var command := CommandText(m, os, step).value;
      var script := ScriptText(env, m, step).value;
      var text := Comment(Stem(name), step, key.priority) + echo + command + script;
      ConfigText(env, name, m, key, echo, command, script);
      InStepTexts(env, name, m, step, key, text);
      Concat4((if key in st.buffers then st.buffers[key] else ""), Comment(Stem(name), step, key.priority), echo, command, script);
      EffectOfOne(st, o.state, key, add, env.os.installCommand);
    } else {
      assert StepKeys(env, m, step) == [];
    }
  }

  /** A successful `install` step has the effect of its key, or none when
      the step is absent. */
  lemma InstallEffect(env: Env, st: State, name: string, m: Module)
    requires RegistryValid(st)
    requires InstallStep(env, st, m).failure.None?
    ensures Effect(st, InstallStep(env, st, m).state, StepKeys(env, m, Install), StepTexts(env, name, m), env.os.installCommand)
  {
    var os := env.os.name;
    if HasStep(m, os, Install) == Ok(true) {
      var key := KeyOf(m, os, Install).value;
      var text := PackagesText(m, os).value;
      assert StepKeys(env, m, Install) == [key];
      InstallOutcome(env, st, m, key, text);
      InStepTexts(env, name, m, Install, key, text);
      var s0 := Open(st, key, env.os.installCommand);
      assert s0.buffers[key] == if key in st.buffers then st.buffers[key] else Seed(key, env.os.installCommand);
      EffectOfOne(st, Append(s0, key, text), key, StepTexts(env, name, m), env.os.installCommand);
    } else {
      assert StepKeys(env, m, Install) == [];
    }
  }

  /** `_parseOSModule` that succeeds (lines 59-63): the keys of the
      pre-install, install and post-install steps that are present enter
      `order`, when new, in that order (the one `combineFiles` later groups
      by), each of their buffers grows by exactly its step's text, and no
      other buffer changes. */
  lemma EmitModuleLayout(env: Env, st: State, name: string, m: Module)
    requires RegistryValid(st)
    requires EmitModule(env, st, name, m).failure.None?
    ensures Effect(st, EmitModule(env, st, name, m).state,
                   StepKeys(env, m, PreInstall) + StepKeys(env, m, Install) + StepKeys(env, m, PostInstall),
                   StepTexts(env, name, m), env.os.installCommand)
  {
    var add := StepTexts(env, name, m);
    var cmd := env.os.installCommand;
    var pre := ConfigStep(env, st, name, m, PreInstall);
    var install := InstallStep(env, pre.state, m);
    var post := ConfigStep(env, install.state, name, m, PostInstall);
    var k1, k2, k3 := StepKeys(env, m, PreInstall), StepKeys(env, m, Install), StepKeys(env, m, PostInstall);
    ConfigEffect(env, st, name, m, PreInstall);
    InstallEffect(env, pre.state, name, m);
    ConfigEffect(env, install.state, name, m, PostInstall);
    StepKeysOfStep(env, m, PreInstall);
    StepKeysOfStep(env, m, Install);
    StepKeysOfStep(env, m, PostInstall);
    EffectThen(st, pre.state, install.state, k1, k2, add, cmd);
    EffectThen(st, install.state, post.state, k1 + k2, k3, add, cmd);
  }

  lemma StepKeysOfStep(env: Env, m: Module, step: StepKind)
    ensures forall k :: k in StepKeys(env, m, step) ==> k.step == step
  { }

  /** The values of a YAML list of package names. */
  function NameValues(xs: seq<string>): (vs: seq<Value>)
    ensures |vs| == |xs| && forall k :: 0 <= k < |xs| ==> vs[k] == Str(xs[k])
  {
    seq(|xs|, k requires 0 <= k < |xs| => Str(xs[k]))
  }

  /** A non-empty list of package names becomes a space and the names
      joined by single spaces. */
  lemma {:induction false} PackagesOfNames(m: Module, os: string, xs: seq<string>)
    requires |xs| > 0
    requires GetParameter(m, os, ["install", "packages"]) == Ok(Some(List(NameValues(xs))))
    ensures PackagesText(m, os) == Ok(" " + JoinWith(xs, " "))
  {
    RenderNames(xs);
  }

  /** A string of packages (`packages: git curl`) is written as a space
      and the string itself (line 78). */
  lemma PackagesOfString(m: Module, os: string, s: string)
    requires GetParameter(m, os, ["install", "packages"]) == Ok(Some(Str(s)))
    ensures PackagesText(m, os) == Ok(" " + s)
  { }

  lemma {:induction false} RenderNames(xs: seq<string>)
    ensures RenderAll(NameValues(xs)) == Some(xs)
    decreases |xs|
  {
    if xs != [] {
      RenderNames(xs[1..]);
      assert NameValues(xs)[1..] == NameValues(xs[1..]);
      assert [xs[0]] + xs[1..] == xs;
    }
  }

  /** Packages accumulate: two modules whose install steps share a key and
      list packages `xs` and `ys` leave that buffer as the header and install
      command followed by `" " + xs + ys`, all joined by single spaces. */
  lemma PackagesAccumulate(env: Env, st: State, m1: Module, m2: Module, xs: seq<string>, ys: seq<string>)
    requires RegistryValid(st)
    requires |xs| > 0 && |ys| > 0
    requires HasStep(m1, env.os.name, Install) == Ok(true) && HasStep(m2, env.os.name, Install) == Ok(true)
    requires KeyOf(m1, env.os.name, Install).Ok? && KeyOf(m1, env.os.name, Install) == KeyOf(m2, env.os.name, Install)
    requires KeyOf(m1, env.os.name, Install).value !in st.buffers
    requires GetParameter(m1, env.os.name, ["install", "packages"]) == Ok(Some(List(NameValues(xs))))
    requires GetParameter(m2, env.os.name, ["install", "packages"]) == Ok(Some(List(NameValues(ys))))
    ensures var o1 := InstallStep(env, st, m1);
            var o2 := InstallStep(env, o1.state, m2);
            var key := KeyOf(m1, env.os.name, Install).value;
            && o1.failure.None? && o2.failure.None?
            && o2.state.buffers[key] == InstallHeader(key.priority) + env.os.installCommand + " " + JoinWith(xs + ys, " ")
  {
    var os := env.os.name;
    var key := KeyOf(m1, os, Install).value;
    PackagesOfNames(m1, os, xs);
    PackagesOfNames(m2, os, ys);
    var head := InstallHeader(key.priority) + env.os.installCommand;
    var t1 := " " + JoinWith(xs, " ");
    var t2 := " " + JoinWith(ys, " ");
    var s1 := Append(Open(st, key, env.os.installCommand), key, t1);
    InstallOutcome(env, st, m1, key, t1);
    assert s1.buffers[key] == head + t1;
    InstallOutcome(env, s1, m2, key, t2);
    assert Open(s1, key, env.os.installCommand) == s1;
    JoinAppend(xs, ys, " ");
    RegroupPackages(head, JoinWith(xs, " "), JoinWith(ys, " "));
  }

  lemma RegroupPackages(h: string, a: string, b: string)
    ensures h + (" " + a) + (" " + b) == h + " " + (a + " " + b)
  {
  }

  /** An install step whose key and package text are known appends that
      text to the buffer of the key, opened first. */
  lemma InstallOutcome(env: Env, st: State, m: Module, key: Key, text: string)
    requires RegistryValid(st)
    requires HasStep(m, env.os.name, Install) == Ok(true) && KeyOf(m, env.os.name, Install) == Ok(key)
    requires PackagesText(m, env.os.name) == Ok(text)
    ensures InstallStep(env, st, m) == Outcome(Append(Open(st, key, env.os.installCommand), key, text), None)
  {
  }

  /** `EmitModule` fails without writing anything when the module has no
      block for the target: the first thing it looks up already fails. */
  lemma MissingBlockWritesNothing(env: Env, st: State, name: string, m: Module)
    requires RegistryValid(st)
    requires env.os.name !in m
    ensures EmitModule(env, st, name, m) == Outcome(st, Some(UnknownTarget(env.os.name)))
  {
    var args := [env.os.name, "files"];
    assert Walk(Mapping(m), args).None?;
    LookupMatchesReference(m, env.os.name, ["files"], RecursionDepth);
  }
}
