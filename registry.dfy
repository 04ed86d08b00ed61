/** The process-wide state of one run: the list `parsedModules` and the
    dictionary `temp_files` of append-only buffers (distro.py:14-15, 91-101). */
module Registry {
  import opened Text
  import opened Values

  datatype StepKind = PreInstall | Install | PostInstall

  function StepName(s: StepKind): string {
    match s
    case PreInstall => "pre-install"
    case Install => "install"
    case PostInstall => "post-install"
  }

  /** A buffer key `(stage, step, priority)`. */
  datatype Key = Key(stage: string, step: StepKind, priority: int)

  /** `parsedModules`, the insertion order of `temp_files` and its buffers. */
  datatype State = State(processed: seq<string>, order: seq<Key>, buffers: map<Key, string>)

  ghost predicate NoDup<T>(s: seq<T>) {
    forall i, j :: 0 <= i < j < |s| ==> s[i] != s[j]
  }

  /** At most one buffer per key, and `order` lists exactly the keys. */
  ghost predicate RegistryValid(st: State) {
    && NoDup(st.order)
    && (forall k :: k in st.buffers <==> k in st.order)
  }

  /** `b` is `a` after appends only: `parsedModules` and the key order grew
      at their ends, no buffer vanished, and every buffer kept its text as a
      prefix. */
  ghost predicate Extends(a: State, b: State) {
    && a.processed <= b.processed
    && a.order <= b.order
    && (forall k :: k in a.buffers ==> k in b.buffers && a.buffers[k] <= b.buffers[k])
  }

  lemma ExtendsReflexive(a: State)
    ensures Extends(a, a)
  { }

  /** The install header names its priority: two headers are equal only
      for the same priority. */
  lemma InstallHeaderDetermines(p: int, q: int)
    requires InstallHeader(p) == InstallHeader(q)
    ensures p == q
  {
    DecimalInjective(p, q);
  }

  lemma ExtendsTransitive(a: State, b: State, c: State)
    requires Extends(a, b) && Extends(b, c)
    ensures Extends(a, c)
  {
  }

  /** Line 144: the comment that opens an install buffer. */
  function InstallHeader(priority: int): (r: string)
    ensures |r| > 31 && r[..29] == "# Package install (priority: " && r[|r| - 2..] == ")\n"
    ensures r[29..|r| - 2] == Decimal(priority)
  {
    "# Package install (priority: " + Decimal(priority) + ")\n"
  }

  /** What a new buffer starts with (lines 95-98): for `install`, the header
      and the OS install command; otherwise nothing. */
  function Seed(key: Key, installCommand: string): (r: string)
    ensures key.step != Install ==> r == ""
    ensures key.step == Install ==> InstallHeader(key.priority) <= r
                                    && r[|InstallHeader(key.priority)|..] == installCommand
  {
    if key.step == Install then InstallHeader(key.priority) + installCommand else ""
  }

  /** `_getTempFile`: the existing buffer for `key` is reused untouched; a
      missing one is created with its seed and appended to the order. */
  function Open(st: State, key: Key, installCommand: string): (r: State)
    requires RegistryValid(st)
    ensures RegistryValid(r) && key in r.buffers && Extends(st, r)
    ensures r.processed == st.processed
    ensures key in st.buffers ==> r == st
    ensures key !in st.buffers ==> r.order == st.order + [key]
    ensures forall k :: k in st.buffers ==> k in r.buffers && r.buffers[k] == st.buffers[k]
    ensures key !in st.buffers ==> r.buffers[key] == Seed(key, installCommand)
    ensures r.buffers.Keys == st.buffers.Keys + {key}
  {
    if key in st.buffers then st
    else
      var r := st.(order := st.order + [key], buffers := st.buffers[key := Seed(key, installCommand)]);
      assert forall k :: k in r.order <==> k in st.order || k == key;
      r
  }

  /** `temp_file.write(text)` on the buffer of `key`. */
  function Append(st: State, key: Key, text: string): (r: State)
    requires key in st.buffers
    ensures RegistryValid(st) ==> RegistryValid(r)
    ensures Extends(st, r)
    ensures r.processed == st.processed && r.order == st.order
    ensures r.buffers.Keys == st.buffers.Keys
    ensures r.buffers[key] == st.buffers[key] + text
    ensures forall k :: k in st.buffers && k != key ==> r.buffers[k] == st.buffers[k]
  {
    st.(buffers := st.buffers[key := st.buffers[key] + text])
  }

  /** The keys of `ks` that `st` has no buffer for yet, in order. */
  ghost function FreshKeys(st: State, ks: seq<Key>): seq<Key> {
    if ks == [] then []
    else (if ks[0] in st.buffers then [] else [ks[0]]) + FreshKeys(st, ks[1..])
  }

  /** `t` is `s` after steps that write to the keys `ks`, the step of key
      `k` appending `add[k]`: each new key joins `order` in the order of
      `ks` (an install buffer seeded with its header and command first),
      each buffer of `ks` grows by its text, and every other buffer is
      untouched. */
  ghost predicate Effect(s: State, t: State, ks: seq<Key>, add: map<Key, string>, installCommand: string) {
    && (forall k :: k in ks ==> k in add)
    && t.order == s.order + FreshKeys(s, ks)
    && t.buffers.Keys == s.buffers.Keys + (set k | k in ks)
    && (forall k :: k in s.buffers && k !in ks ==> t.buffers[k] == s.buffers[k])
    && (forall k :: k in ks ==> t.buffers[k] == (if k in s.buffers then s.buffers[k] else Seed(k, installCommand)) + add[k])
  }

  /** A step that wrote `text` to the buffer of `key` has the effect of
      that one key. */
  lemma EffectOfOne(s: State, t: State, key: Key, add: map<Key, string>, installCommand: string)
    requires key in add
    requires t.order == s.order + (if key in s.buffers then [] else [key])
    requires t.buffers.Keys == s.buffers.Keys + {key}
    requires forall k :: k in s.buffers && k != key ==> t.buffers[k] == s.buffers[k]
    requires t.buffers[key] == (if key in s.buffers then s.buffers[key] else Seed(key, installCommand)) + add[key]
    ensures Effect(s, t, [key], add, installCommand)
  {
    assert FreshKeys(s, [key]) == (if key in s.buffers then [] else [key]) + FreshKeys(s, []);
  }

  lemma {:induction false} FreshKeysAppend(s: State, t: State, ks1: seq<Key>, ks2: seq<Key>)
    requires forall k :: k in ks2 ==> (k in t.buffers <==> k in s.buffers)
    ensures FreshKeys(s, ks1 + ks2) == FreshKeys(s, ks1) + FreshKeys(t, ks2)
    decreases |ks1|
  {
    if ks1 == [] {
      assert ks1 + ks2 == ks2;
      FreshKeysSame(s, t, ks2);
    } else {
      var h := if ks1[0] in s.buffers then [] else [ks1[0]];
      assert (ks1 + ks2)[0] == ks1[0] && (ks1 + ks2)[1..] == ks1[1..] + ks2;
      FreshKeysAppend(s, t, ks1[1..], ks2);
      Assoc(h, FreshKeys(s, ks1[1..]), FreshKeys(t, ks2));
    }
  }

  /** Which keys are fresh depends only on which of them have buffers. */
  lemma {:induction false} FreshKeysSame(s: State, t: State, ks: seq<Key>)
    requires forall k :: k in ks ==> (k in t.buffers <==> k in s.buffers)
    ensures FreshKeys(s, ks) == FreshKeys(t, ks)
    decreases |ks|
  {
    if ks != [] {
      FreshKeysSame(s, t, ks[1..]);
    }
  }

  lemma Assoc(a: seq<Key>, b: seq<Key>, c: seq<Key>)
    ensures a + (b + c) == (a + b) + c
  { }



  /** Effects on keys that differ compose: first `ks1`, then `ks2`. */
  lemma EffectThen(s: State, t: State, u: State, ks1: seq<Key>, ks2: seq<Key>, add: map<Key, string>, installCommand: string)
    requires Effect(s, t, ks1, add, installCommand) && Effect(t, u, ks2, add, installCommand)
    requires forall k :: k in ks2 ==> k !in ks1
    ensures Effect(s, u, ks1 + ks2, add, installCommand)
  {
    EffectThenKeys(s, t, u, ks1, ks2);
    FreshKeysAppend(s, t, ks1, ks2);
    RegroupOrder(s.order, t.order, u.order, FreshKeys(s, ks1), FreshKeys(t, ks2));
    EffectThenGrown(s, t, u, ks1, ks2, add, installCommand);
  }

  lemma RegroupOrder(a: seq<Key>, b: seq<Key>, c: seq<Key>, f1: seq<Key>, f2: seq<Key>)
    requires b == a + f1 && c == b + f2
    ensures c == a + (f1 + f2)
  { }

  lemma EffectThenKeys(s: State, t: State, u: State, ks1: seq<Key>, ks2: seq<Key>)
    requires t.buffers.Keys == s.buffers.Keys + (set k | k in ks1)
    requires u.buffers.Keys == t.buffers.Keys + (set k | k in ks2)
    requires forall k :: k in s.buffers && k !in ks1 ==> t.buffers[k] == s.buffers[k]
    requires forall k :: k in t.buffers && k !in ks2 ==> u.buffers[k] == t.buffers[k]
    ensures u.buffers.Keys == s.buffers.Keys + (set k | k in ks1 + ks2)
    ensures forall k :: k in s.buffers && k !in ks1 + ks2 ==> u.buffers[k] == s.buffers[k]
    ensures forall k :: k in ks2 ==> (k in t.buffers <==> k in s.buffers || k in ks1)
  {
    forall k ensures k in u.buffers <==> k in s.buffers || k in ks1 + ks2 {
      assert k in ks1 + ks2 <==> k in ks1 || k in ks2;
    }
  }

  lemma EffectThenGrown(s: State, t: State, u: State, ks1: seq<Key>, ks2: seq<Key>, add: map<Key, string>, installCommand: string)
    requires Effect(s, t, ks1, add, installCommand) && Effect(t, u, ks2, add, installCommand)
    requires forall k :: k in ks2 ==> k !in ks1
    ensures forall k :: k in ks1 + ks2 ==> k in add
    ensures forall k :: k in ks1 + ks2 ==>
              u.buffers[k] == (if k in s.buffers then s.buffers[k] else Seed(k, installCommand)) + add[k]
  {
    forall k | k in ks1 + ks2
      ensures k in add
      ensures u.buffers[k] == (if k in s.buffers then s.buffers[k] else Seed(k, installCommand)) + add[k]
    {
      if k in ks2 {
        assert k !in ks1 && (k in t.buffers <==> k in s.buffers);
      } else {
        assert k in ks1 && k in t.buffers;
      }
    }
  }

}
