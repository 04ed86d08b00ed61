/** The parsed YAML documents the generator reads, Python's truthiness on
    them, and the ways a run can abort. */
module Values {
  import opened Text

  datatype Option<+T> = None | Some(value: T)

  /** Why a run aborts. Each kind names the place in `distro.py` that raises. */
  datatype Error =
    | UnsupportedTarget(moduleName: string)  // no block for the target OS (lines 40-46)
    | MissingDependency(name: string)        // dependency not a known module (lines 52-57)
    | MissingFile(path: string)              // staged file does not exist (lines 172-181)
    | MissingScript(path: string)            // `open` of a step script fails (line 162)
    | UnknownTarget(target: string)          // `self.module[t]` has no such key (lines 114-115)
    | NotAMapping(target: string)            // `.get` or `[...]` on a block that is no mapping
    | InheritCycle                           // the inherit recursion never ends (line 115)
    | RecursionLimit                         // the dependency recursion never ends (lines 53-54)
    | Malformed(field: string)               // a value of a kind the code cannot use

  datatype Result<+T> = Ok(value: T) | Err(error: Error) {
    predicate IsFailure() { Err? }
    function PropagateFailure<U>(): Result<U> requires Err? { Err(error) }
    function Extract(): T requires Ok? { value }
  }

  /** A YAML value as `yaml.load` hands it over. */
  datatype Value =
    | Mapping(entries: map<string, Value>)
    | Str(s: string)
    | List(items: seq<Value>)
    | Int(i: int)
    | Bool(b: bool)
    | Null

  /** One module file: target-OS name to target block. */
  type Module = map<string, Value>

  /** Python's `bool(v)`: empty collections, 0, False and None are false. */
  predicate Truthy(v: Value) {
    match v
    case Mapping(m) => |m| > 0
    case Str(s) => |s| > 0
    case List(xs) => |xs| > 0
    case Int(i) => i != 0
    case Bool(b) => b
    case Null => false
  }

  /** `m.get(k)`: the value, or None. */
  function Get(m: map<string, Value>, k: string): (v: Value)
    ensures k in m ==> v == m[k]
    ensures k !in m ==> !Truthy(v)
  {
    if k in m then m[k] else Null
  }

  /** `f"{v}"` for the scalar kinds; collections (whose Python repr the
      model does not reproduce) have no rendering. */
  function Render(v: Value): (r: Option<string>)
    ensures r.None? <==> v.Mapping? || v.List?
    ensures v.Str? ==> r == Some(v.s)
  {
    match v
    case Str(s) => Some(s)
    case Int(i) => Some(Decimal(i))
    case Bool(b) => Some(if b then "True" else "False")
    case Null => Some("None")
    case _ => None
  }

  /** `for x in v`: a list yields its items, a string its characters (each a
      one-character string). Anything else cannot be iterated in order. */
  function Items(v: Value, field: string): (r: Result<seq<Value>>)
    ensures v.List? ==> r == Ok(v.items)
    ensures v.Str? ==> r.Ok? && |r.value| == |v.s|
                       && forall k :: 0 <= k < |v.s| ==> r.value[k] == Str([v.s[k]])
    ensures !v.List? && !v.Str? ==> r == Err(Malformed(field))
  {
    match v
    case List(xs) => Ok(xs)
    case Str(s) => Ok(seq(|s|, k requires 0 <= k < |s| => Str([s[k]])))
    case _ => Err(Malformed(field))
  }
}
