# distro.py install-script generator, modelled in Dafny

`install_modules/distro.py` turns a set of YAML module files into one shell
install script per stage for a target operating system. This project models
its engine and proves properties of it.

- **Parameter lookup** (`Lookup`). This covers `_getParameter` and its
  `inherit` fallback. A falsy value counts as absent. `_getPriority` and
  `_getStage` fall back from the step level to the target level, then to
  their defaults.
- **Dependency resolution** (`Resolve`). This covers `parse` and
  `_parseDependencies`: depth-first, with `parsedModules` guarding against a
  second emission.
- **The emission trace** (`Trace`). The modules a `parse` passes to
  `_parseOSModule`, in call order, and how `parsedModules` records them.
- **The buffer registry** (`Registry`). This is `temp_files`: one append-only
  buffer per `(stage, step, priority)` key, in insertion order. An install
  buffer is seeded with a header and the install command.
- **Fragment emission** (`Emit`). This covers `_parseOSModule`,
  `_parseInstallConfig`, `_parsePackageInstall` and the `_add*` helpers.
- **The run as the program performs it** (`Session`). The globals
  `parsedModules` and `temp_files` are fields of the class `Run`. Its
  methods update them in place. Each method's postcondition ties the new
  state, and the error it raised, to the pure functions above.
- **Composition** (`Compose`). This covers `filePrecedence` and
  `combineFiles`: grouping by stage, sorting by precedence, and joining under
  the update preamble.
- **String helpers** (`Text`, `Values`). These are Python's `strip`,
  `basename`, `splitext`, integer formatting, truthiness and f-string
  rendering.

A run reads an `Env`, which holds:
- the OS profile;
- every module document by file name;
- the text of every step script by path;
- the set of paths that exist.

A state-changing step gives an `Outcome`: the state after the step, and the
error it raised, if any. So the partial writes that a failing step leaves in
the global buffers are part of the model.

Both recursions in the source can be unbounded. `Resolve` therefore takes
`fuel`, the number of nested `parse` calls left before the interpreter's
recursion limit. `Lookup.Param` takes a `depth` for `_getParameter`.

## Model

| member | source | states |
|---|---|---|
| Text.Strip | install_modules/distro.py:157 | `strip()` returns the middle of the string; everything cut off is whitespace, and neither end of the result is whitespace |
| Text.Basename | install_modules/distro.py:43 | `basename` holds no `/`, and when it is shorter than the path, the character before it is a `/` |
| Text.BasenameSuffix | install_modules/distro.py:43 | `basename` is a tail of the path, so with `Text.Basename` it is everything after the last `/` |
| Text.BasenameOfPlain | install_modules/distro.py:39 | a name without `/` is its own base name, so `parsedModules` holds the module names themselves |
| Text.StemDropsExtension | install_modules/distro.py:147 | the `splitext(basename(...))[0]` of `name.yml` is `name` |
| Text.DigitsRoundTrip | install_modules/distro.py:144 | the decimal rendering of a priority reads back to the same number |
| Text.JoinAppend | install_modules/distro.py:76 | joining two non-empty lists is joining each, with one separator between them |
| Text.Stem | install_modules/distro.py:147 | the stem of the module file name has no `/` and is no longer than the path |
| Text.Decimal | install_modules/distro.py:144 | the rendering of an integer is non-empty and starts with `-` exactly when the number is negative |
| Text.DecimalReadsBack | install_modules/distro.py:144 | every integer's rendering reads back to it: its digits give the number, after the sign when it is negative |
| Text.DecimalInjective | install_modules/distro.py:144 | two integers with the same rendering are equal |
| Text.JoinWith | install_modules/distro.py:76 | `reduce` over a single part gives that part (line 74 never passes it an empty list; the model gives that the empty string) |
| Text.JoinWithLength | install_modules/distro.py:76 | a join holds the characters of every part and exactly one separator between each two parts |
| Values.Get | install_modules/distro.py:106 | `dict.get` gives the value of a present key, and a falsy value for a missing one |
| Values.Render | install_modules/distro.py:152 | f-string rendering keeps strings as they are and is defined exactly for the scalar kinds |
| Values.Items | install_modules/distro.py:51 | iterating a list gives its items, iterating a string gives its characters, and anything else is rejected |
| Lookup.Walk | install_modules/distro.py:105-110 | a non-empty walk from a value that is not a mapping finds nothing; a value found at the end of a non-empty path is truthy |
| Lookup.Param | install_modules/distro.py:103-117 | whatever `_getParameter` returns is truthy, or None |
| Lookup.GetParameter | install_modules/distro.py:103-110 | a value `_getParameter` finds is truthy, since line 106 only descends into truthy entries |
| Lookup.HasInherit | install_modules/distro.py:114 | `module[t].get('inherit')` succeeds exactly when `t` names a mapping block |
| Lookup.LookupMatchesReference | install_modules/distro.py:103-117 | at any depth of at least 2, the recursive lookup equals a written-out reference: the literal path, then one hop through `module[os]['inherit']`, then failure |
| Lookup.RepeatedHopDiverges | install_modules/distro.py:114-115 | once the inherited target inherits further, every recursive call repeats its arguments and the lookup fails at any depth |
| Lookup.LiteralPathWins | install_modules/distro.py:112-113 | a truthy value at the literal path is returned unchanged |
| Lookup.InheritedParameter | install_modules/distro.py:114-115 | without a literal value, the value under the inherited target is returned |
| Lookup.AbsentWithoutInherit | install_modules/distro.py:116-117 | without a literal value and without `inherit`, the result is None |
| Lookup.TwoHopChainFails | install_modules/distro.py:114-115 | a two-hop inherit chain never reaches the second target: the call fails |
| Lookup.WithFallback | install_modules/distro.py:119-139 | the fallback chain of priority and stage always yields a truthy value |
| Lookup.GetPriority | install_modules/distro.py:119-128 | `_getPriority` always returns a truthy value |
| Lookup.GetStage | install_modules/distro.py:130-139 | `_getStage` always returns a truthy value |
| Lookup.StepLevelWins | install_modules/distro.py:120-121 | a truthy step-level field is used |
| Lookup.TargetLevelFallback | install_modules/distro.py:122-123 | in a block without `inherit`: without a step-level field, the target-level field is used |
| Lookup.DefaultsApply | install_modules/distro.py:125-128 | in a block without `inherit`: without either field, priority is 10 and stage is `<os>-install.sh` |
| Lookup.TargetLookupFallback | install_modules/distro.py:120-123 | whenever the step-level lookup, `inherit` included, finds nothing and the target-level lookup finds `v`, the result is `v` (likewise lines 131-134 for the stage) |
| Lookup.DefaultLookupFallback | install_modules/distro.py:125-126 | whenever both lookups, `inherit` included, find nothing, the default is used (likewise lines 136-137 for the stage) |
| Lookup.InheritedStepBeatsLocalTarget | install_modules/distro.py:114-123 | a step-level field reached through `inherit` beats a target-level field of the module's own OS block, because line 120 follows `inherit` before line 123 is tried |
| Registry.InstallHeader | install_modules/distro.py:142-144 | the install comment is `# Package install (priority: `, the decimal priority, then `)` and a newline |
| Registry.InstallHeaderDetermines | install_modules/distro.py:142-144 | two install headers are equal only for the same priority |
| Registry.Seed | install_modules/distro.py:95-98 | a new install buffer starts with the install header followed by the OS install command; a new pre- or post-install buffer starts empty |
| Registry.Open | install_modules/distro.py:91-101 | `_getTempFile` returns the existing buffer untouched; otherwise it creates one seeded with the header and command (install) or nothing, appends its key to the order, keeps every other buffer, and keeps one buffer per key |
| Registry.Append | install_modules/distro.py:78 | a write extends exactly one buffer by exactly the text; nothing else changes |
| Registry.EffectThen | install_modules/distro.py:91-101 | two runs of writes to different keys compose: the new keys of both join the order in write order, each written buffer grows by its text after its seed, and nothing else changes |
| Emit.HasStep | install_modules/distro.py:80-81 | a step is present exactly when the module's own OS block has a truthy entry for it |
| Emit.KeyOf | install_modules/distro.py:67-70 | the buffer key carries the step, the priority from `_getPriority` and the stage from `_getStage`; the priority is non-zero and the stage non-empty |
| Emit.EchoText | install_modules/distro.py:149-152 | an absent echo writes nothing |
| Emit.CommandText | install_modules/distro.py:154-157 | the command line ends in a newline, and the stripped command has no whitespace at either end |
| Emit.ScriptText | install_modules/distro.py:159-165 | a script fragment is a comment naming the script's base name, then the script text and a newline |
| Emit.ConfigStep | install_modules/distro.py:80-89 | a pre- or post-install step only extends buffers, keeps the registry valid, and touches nothing when the step is absent |
| Emit.ConfigStepLayout | install_modules/distro.py:80-89 | a successful step grows exactly the buffer of its key, by comment, echo, command and script in that order |
| Emit.InstallStep | install_modules/distro.py:65-78 | an absent install block touches nothing; otherwise exactly the install key's buffer grows by the package text, after seeding if the buffer is new |
| Emit.Comment | install_modules/distro.py:141-147 | a comment ends in a newline; for the install step it is the install header, for the others a blank line, then `# <stem> <step> (priority: <p>)` with the step's YAML name and the decimal priority |
| Emit.RenderAll | install_modules/distro.py:75-76 | each package of a list is rendered as `f"{p}"` renders it, in order; the result is missing exactly when some package is a list or mapping |
| Emit.PackagesText | install_modules/distro.py:72-78 | no packages write nothing; written packages start with a space; an error comes from the lookup, or is a malformed mapping or unrenderable package |
| Emit.CopyFiles | install_modules/distro.py:167-181 | `_copyFiles` passes exactly when the `files` lookup succeeds and, if it finds a value, that value iterates to string paths that all exist |
| Emit.CheckFiles | install_modules/distro.py:170-181 | `_copyFiles` succeeds exactly when every listed file is a string path that exists |
| Emit.EmitModule | install_modules/distro.py:59-63 | emitting a module only extends buffers and keeps `parsedModules` and the registry invariant (its exact layout is `Emit.EmitModuleLayout`) |
| Emit.ConfigEffect | install_modules/distro.py:80-89 | a successful pre- or post-install step writes its step text to exactly its key's buffer, creating it at the end of the order when new, or writes nothing when the step is absent |
| Emit.InstallEffect | install_modules/distro.py:65-78 | a successful install step writes the package text to exactly its key's buffer, seeded with header and command when new, or writes nothing when the step is absent |
| Emit.EmitModuleLayout | install_modules/distro.py:59-63 | a successful `_parseOSModule` adds the keys of its pre-install, install and post-install steps to the order in that order when new, grows each of their buffers by exactly its step's text, and leaves every other buffer alone |
| Emit.PackagesOfString | install_modules/distro.py:72-78 | a string of packages is written as a space followed by the string itself |
| Emit.PackagesOfNames | install_modules/distro.py:72-78 | a list of package names becomes a space, then the names joined by single spaces |
| Emit.InstallOutcome | install_modules/distro.py:65-78 | with the key and package text known, the install step opens the key's buffer and appends exactly that text, and reports no error |
| Emit.PackagesAccumulate | install_modules/distro.py:65-78 | two modules that share an install key leave the header, the install command and all their packages joined by single spaces |
| Emit.MissingBlockWritesNothing | install_modules/distro.py:114 | called directly on a module without a block for the target, `_parseOSModule` fails before writing anything (through `parse`, line 40 already rejects such a module) |
| Resolve.Dependencies | install_modules/distro.py:49-50 | a module without a dependency list has no dependencies |
| Resolve.DependencyTarget | install_modules/distro.py:52-57 | an entry resolves exactly when it is a string naming a known, non-empty module; an unknown string is a missing dependency of that name; a list or mapping entry is malformed |
| Resolve.Resolve | install_modules/distro.py:38-46 | `parse` only extends `parsedModules`, keeps the registry valid, and on success has recorded the module |
| Resolve.Record | install_modules/distro.py:42-43 | on success, the module's base name is appended after its emission; a failed emission records nothing |
| Resolve.Mark | install_modules/distro.py:43 | `parsedModules.append` adds the name at the end and changes no buffer |
| Resolve.ResolveDeps | install_modules/distro.py:48-57 | after a successful loop, every entry names a known module that is now recorded |
| Resolve.ResolveCases | install_modules/distro.py:38-46 | the outcome of `parse` in each branch that does not reach the dependency loop: recursion limit, already parsed, no OS block, unreadable dependency list |
| Resolve.StackStaysOpen | install_modules/distro.py:38-57 | no module on the resolution stack is recorded before its frame returns, `parsedModules` never gains a duplicate, and re-entering a module on the stack fails |
| Resolve.RecordedOnce | install_modules/distro.py:39-43 | `parsedModules` never holds a module twice (that each module is emitted once is `Trace.EmittedOnce`) |
| Resolve.CycleFails | install_modules/distro.py:51-54 | a dependency cycle among unrecorded modules never resolves |
| Resolve.DependenciesFirst | install_modules/distro.py:41-43 | every recorded module comes after all of its dependencies, whether resolution succeeds or not (the same order for the emissions is `Trace.EmittedOnce`) |
| Resolve.ResolveAgain | install_modules/distro.py:39 | resolving a module a successful call recorded changes nothing |
| Resolve.MissingTargetFails | install_modules/distro.py:40-46 | a module without a truthy block for the target fails before anything is written |
| Resolve.UnknownDependencyFails | install_modules/distro.py:52-57 | an unknown dependency stops the loop with exactly what the earlier entries wrote |
| Resolve.ResolveDepsConcat | install_modules/distro.py:51-57 | the dependency loop splits at any entry |
| Trace.Emitted | install_modules/distro.py:38-46 | a `parse` of a module whose base name is already in `parsedModules` passes nothing to `_parseOSModule` |
| Trace.EmittedDeps | install_modules/distro.py:48-57 | the dependency loop passes nothing to `_parseOSModule` unless its first entry names a known, non-empty module |
| Trace.EmittedRecorded | install_modules/distro.py:41-43 | a successful `parse` grows `parsedModules` by exactly the modules it passed to `_parseOSModule`, in call order |
| Trace.EmittedOnce | install_modules/distro.py:39-43 | in a successful `parse`, no module reaches `_parseOSModule` twice (a diamond dependency is emitted once), none an earlier `parse` emitted does, the requested module does unless it was done, and each comes after all of its dependencies |
| Trace.ResolveExtends | install_modules/distro.py:38-46 | `parse` only appends, to `parsedModules`, to the key order and to each buffer, whether it succeeds or fails |
| Trace.ResolveDepsExtends | install_modules/distro.py:48-57 | `_parseDependencies` only appends, whether it succeeds or fails |
| Session.Run.constructor | install_modules/distro.py:14-15 | the run starts with empty `parsedModules` and `temp_files` |
| Session.Run.GetTempFile | install_modules/distro.py:91-101 | the new state is the one `Registry.Open` gives |
| Session.Run.Write | install_modules/distro.py:78 | the new state is the one `Registry.Append` gives |
| Session.Run.ParseInstallConfig | install_modules/distro.py:80-89 | state and error are those of `Emit.ConfigStep` |
| Session.Run.ParsePackageInstall | install_modules/distro.py:65-78 | state and error are those of `Emit.InstallStep` |
| Session.Run.ParseOSModule | install_modules/distro.py:59-63 | state and error are those of `Emit.EmitModule` |
| Session.Run.Parse | install_modules/distro.py:38-46 | state and error are those of `Resolve.Resolve` |
| Session.Run.ParseModule | install_modules/distro.py:41-43 | the dependencies, the emission and the append give the state and error of `Resolve.Resolve` |
| Session.Run.EmitAndRecord | install_modules/distro.py:42-43 | state and error are those of `Resolve.Record` |
| Session.Run.ParseDependencies | install_modules/distro.py:48-57 | the loop gives the state and error of `Resolve.ResolveDeps` |
| Compose.StepRank | install_modules/distro.py:185-190 | pre-install ranks 0, install 1, anything else 2 |
| Compose.FilePrecedence | install_modules/distro.py:184-190 | the precedence lies in the band of three numbers from three times the priority |
| Compose.PrecedenceDecodes | install_modules/distro.py:184-190 | the precedence divided by 3 is the priority, and its remainder is the step rank |
| Compose.PrecedenceOrder | install_modules/distro.py:184-190 | a lower priority sorts first whatever the steps; at equal priority, pre-install < install < post-install |
| Compose.PrecedenceInjective | install_modules/distro.py:184-190 | two keys of one stage have equal precedence only if they are the same key |
| Compose.Insert | install_modules/distro.py:198 | insertion adds exactly the one key |
| Compose.SortByPrecedence | install_modules/distro.py:198 | `sorted(..., key=filePrecedence)` is a permutation in non-decreasing precedence |
| Compose.SortedRunStrict | install_modules/distro.py:198 | within a stage file the buffers stand in strictly increasing precedence |
| Compose.SortedUnique | install_modules/distro.py:198 | two sorted arrangements of the same keys of one stage are identical |
| Compose.RunEnd | install_modules/distro.py:194 | a `groupby` group is the longest run of consecutive keys with one stage |
| Compose.WriteRuns | install_modules/distro.py:194-205 | the stage files written are exactly the stages of the keys; files of other stages are left alone |
| Compose.LastRunWins | install_modules/distro.py:194-195 | a stage file holds exactly the last group of its stage: preamble, then that group's buffers by precedence, joined by single newlines |
| Compose.WriteRun | install_modules/distro.py:195-205 | one group writes the preamble, then its buffers, with a newline between two and none after the last |
| Compose.Preamble | install_modules/distro.py:196-197 | a stage file's head is `# Update packages`, a newline, the OS update command and two newlines |
| Compose.RunText | install_modules/distro.py:195-205 | a stage file starts with the update preamble |
| Compose.RunTextOrderFree | install_modules/distro.py:195-205 | a stage file depends only on which buffers its group holds, not on the order they were created in |
| Compose.CombineFiles | install_modules/distro.py:193-205 | the loop over groups produces exactly `Composed`, the file contents `WriteRuns` defines |

## Left out

- The command line, module selection, printing and the `try`/`finally` (install_modules/distro.py:224-286) are I/O. So is the filter of line 248; the model takes every module it is given.
- `readYAML` and the YAML loader (install_modules/distro.py:215-221) are left out. Modules arrive as parsed `Value` mappings.
- `_copyFiles` copies nothing in the model. Only its checks are modelled, against a set of existing paths given as input. `expanduser` is not modelled: paths are taken literally.
- `_addScript` does not open files. Script texts come from an input map, and a path missing from it is the failure to open.
- `TemporaryFile`, UTF-8 encoding, `seek`, `chmod` (line 207), the tarball (lines 280-282) and `cleanTempFiles` (lines 210-212) are operating-system resource handling. Buffers are strings, and output files are a map from stage name to text.
- The `supported_os` table (lines 237-242) is constant data. An `OSConfig` is passed in.
- Error messages are not modelled; only the kind of error is. Line 46 calls `self.osConfig.name()` on a string, so it raises `TypeError` rather than the intended `DistroException`. The model reports both alike as `UnsupportedTarget`.
- YAML floats and timestamps are not values of the model: `Value` has mappings, strings, lists, integers, booleans and null only. Python would carry a float priority into the key and `filePrecedence`, and render either kind in an echo or a package list.
- Python's `repr` of lists and mappings inside f-strings is not modelled. An echo or package value that is a collection is a `Malformed` error.
- A mapping where the code iterates dependencies or files is rejected as `Malformed`. Python would iterate its keys, whose order the model does not carry.
- Emit.KeyOf: a priority that is a string or a boolean, or a stage that is an integer or a boolean, is a `Malformed` error. Python would carry it into the key and the f-strings. A list or mapping priority or stage is `Malformed` too; there Python also fails, because the key tuple of line 92 cannot be hashed.
- Resolve.Resolve: the interpreter's single recursion limit is modelled as separate budgets, `fuel` for `parse` and `Lookup.RecursionDepth` for `_getParameter`, so the exact call depth at which a deep but finite chain fails is not reproduced.
- Trace.EmittedRecorded: states the successful `parse` only. A failure raises out of the run (lines 283-286) before `combineFiles` reads anything, so how `parsedModules` relates to the emissions there is not stated.
- Emit.EchoText: its contract states only the absent case. The exact line is given by the function and used by `Emit.ConfigStepLayout`.
- Emit.CommandText: its contract states the layout of the line, not the exact text. The exact line is given by the function and used by `Emit.ConfigStepLayout`.
- Emit.ScriptText: its contract states the layout of the fragment, not which script path was taken. The exact fragment is given by the function and used by `Emit.ConfigStepLayout`.
- Inherit chains are modelled as written: line 115 always re-roots at `module[os]['inherit']`, so a chain of two hops loops until the recursion limit (`Lookup.TwoHopChainFails`).
- `groupby` is modelled as written: only consecutive keys of one stage form a group. When stages interleave in insertion order, a later group overwrites the stage file (`Compose.LastRunWins`).
- Python's `sorted` is stable. The insertion sort keeps keys of equal precedence in order, but within one stage no two keys share a precedence (`Compose.SortedRunStrict`), so stability never matters there.
