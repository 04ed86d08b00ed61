/** The final step of a run: `filePrecedence` and `combineFiles`
    (distro.py:184-205), which turn the buffers of `temp_files` into one
    script per stage. Files are modelled as a map from stage name to the
    text the file holds at the end; opening, `chmod` and encoding are not
    part of this model. */
module Compose {
  import opened Text
  import opened Registry
  import opened Emit

  /** The place of a step among the steps of one priority: pre-install,
      then install, then any other step (lines 185-190). */
  function StepRank(s: StepKind): (r: int)
    ensures 0 <= r < 3
    ensures r == 0 <==> s == PreInstall
    ensures r == 1 <==> s == Install
  {
    match s
    case PreInstall => 0
    case Install => 1
    case PostInstall => 2
  }

  /** `filePrecedence` (lines 184-190): the priority and the step rank
      packed into one number, the priority being the major part. */
  function FilePrecedence(k: Key): (r: int)
    ensures 3 * k.priority <= r < 3 * k.priority + 3
  {
    if k.step == PreInstall then 3 * k.priority
    else if k.step == Install then 3 * k.priority + 1
    else 3 * k.priority + 2
  }

  /** The precedence gives back the priority and the step rank, for
      negative priorities too. */
  lemma PrecedenceDecodes(k: Key)
    ensures FilePrecedence(k) / 3 == k.priority && FilePrecedence(k) % 3 == StepRank(k.step)
  {
    var r := FilePrecedence(k);
    assert r == 3 * k.priority + StepRank(k.step);
  }

  /** Keys sort by priority first, and by step only when the priorities are
      equal, whatever the steps are. */
  lemma PrecedenceOrder(a: Key, b: Key)
    ensures FilePrecedence(a) < FilePrecedence(b) <==>
              a.priority < b.priority || (a.priority == b.priority && StepRank(a.step) < StepRank(b.step))
  {
    var pa, pb := FilePrecedence(a), FilePrecedence(b);
    assert pa == 3 * a.priority + StepRank(a.step);
    assert pb == 3 * b.priority + StepRank(b.step);
  }

  /** Two keys of one stage have the same precedence only when they are the
      same key: within a stage file the order of the buffers is total. */
  lemma PrecedenceInjective(a: Key, b: Key)
    requires a.stage == b.stage
    ensures FilePrecedence(a) == FilePrecedence(b) <==> a == b
  {
    if FilePrecedence(a) == FilePrecedence(b) {
      assert a.priority == b.priority && StepRank(a.step) == StepRank(b.step);
    }
  }

  ghost predicate SortedByPrecedence(ks: seq<Key>) {
    forall i, j :: 0 <= i < j < |ks| ==> FilePrecedence(ks[i]) <= FilePrecedence(ks[j])
  }

  /** Put `k` in front of the first key that does not precede it. */
  function Insert(k: Key, ks: seq<Key>): (r: seq<Key>)
    ensures multiset(r) == multiset(ks) + multiset{k}
  {
    if ks == [] || FilePrecedence(k) <= FilePrecedence(ks[0]) then [k] + ks
    else
      assert ks == [ks[0]] + ks[1..];
      [ks[0]] + Insert(k, ks[1..])
  }

  lemma {:induction false} InsertSorted(k: Key, ks: seq<Key>)
    requires SortedByPrecedence(ks)
    ensures SortedByPrecedence(Insert(k, ks))
    decreases |ks|
  {
    if ks != [] && FilePrecedence(k) > FilePrecedence(ks[0]) {
      var t := Insert(k, ks[1..]);
      InsertSorted(k, ks[1..]);
      assert multiset(t) == multiset(ks[1..]) + multiset{k};
      forall x | x in t ensures FilePrecedence(ks[0]) <= FilePrecedence(x) {
        assert x in multiset(t);
        if x != k {
          assert x in multiset(ks[1..]);
        }
      }
    }
  }

  /** `sorted(files, key=filePrecedence)` (line 198), a stable sort: an
      insertion sort that keeps keys of equal precedence in their order. */
  function SortByPrecedence(ks: seq<Key>): (r: seq<Key>)
    ensures multiset(r) == multiset(ks)
    ensures SortedByPrecedence(r)
  {
    if ks == [] then []
    else
      assert ks == [ks[0]] + ks[1..];
      var t := SortByPrecedence(ks[1..]);
      InsertSorted(ks[0], t);
      Insert(ks[0], t)
  }

  /** A sequence whose elements all occur once in another of the same
      length holds no duplicates if that one holds none. */
  lemma {:induction false} PermutationNoDup(r: seq<Key>, ks: seq<Key>)
    requires multiset(r) == multiset(ks) && NoDup(ks)
    ensures NoDup(r)
  {
    forall i, j | 0 <= i < j < |r| ensures r[i] != r[j] {
      if r[i] == r[j] {
        assert r == r[..i] + [r[i]] + r[i + 1..j] + [r[j]] + r[j + 1..];
        assert multiset(r)[r[i]] >= 2;
        DuplicateOf(ks, r[i]);
      }
    }
  }

  /** An element counted twice stands at two places. */
  lemma {:induction false} DuplicateOf(ks: seq<Key>, x: Key)
    requires multiset(ks)[x] >= 2
    ensures !NoDup(ks)
    decreases |ks|
  {
    assert ks == [ks[0]] + ks[1..];
    if ks[0] == x {
      assert x in multiset(ks[1..]);
      var j :| 0 <= j < |ks[1..]| && ks[1..][j] == x;
      assert ks[0] == ks[j + 1];
    } else {
      DuplicateOf(ks[1..], x);
      var i, j :| 0 <= i < j < |ks[1..]| && ks[1..][i] == ks[1..][j];
      assert ks[i + 1] == ks[j + 1];
    }
  }

  /** In one stage file the buffers stand in strictly increasing
      precedence, so the order is fully determined by the keys. */
  lemma SortedRunStrict(ks: seq<Key>, s: string)
    requires NoDup(ks) && forall k :: k in ks ==> k.stage == s
    ensures var r := SortByPrecedence(ks);
            forall i, j :: 0 <= i < j < |r| ==> FilePrecedence(r[i]) < FilePrecedence(r[j])
  {
    var r := SortByPrecedence(ks);
    PermutationNoDup(r, ks);
    forall i, j | 0 <= i < j < |r| ensures FilePrecedence(r[i]) < FilePrecedence(r[j]) {
      assert r[i] in multiset(ks) && r[j] in multiset(ks);
      PrecedenceInjective(r[i], r[j]);
    }
  }

  /** Where the group `itertools.groupby` starts at position `i` of
      `order` ends (line 194): the longest run of consecutive keys that share
      the stage of `order[i]`. */
  function RunEnd(order: seq<Key>, i: nat): (j: nat)
    requires i < |order|
    ensures i < j <= |order|
    ensures forall p :: i <= p < j ==> order[p].stage == order[i].stage
    ensures j < |order| ==> order[j].stage != order[i].stage
    decreases |order| - i
  {
    if i + 1 == |order| || order[i + 1].stage != order[i].stage then i + 1
    else RunEnd(order, i + 1)
  }

  /** The buffers of the given keys, in that order. */
  function Texts(ks: seq<Key>, buffers: map<Key, string>): (ts: seq<string>)
    requires forall k :: k in ks ==> k in buffers
    ensures |ts| == |ks| && forall i :: 0 <= i < |ks| ==> ts[i] == buffers[ks[i]]
  {
    seq(|ks|, i requires 0 <= i < |ks| => buffers[ks[i]])
  }

  /** Line 197: the head of every stage file. */
  function Preamble(update: string): (r: string)
    ensures |r| == |update| + 20 && r[..18] == "# Update packages\n" && r[|r| - 2..] == "\n\n"
    ensures r[18..|r| - 2] == update
  {
    "# Update packages\n" + update + "\n\n"
  }

  /** What one group writes to its stage file (lines 195-205): the
      preamble, then its buffers by precedence, one newline between two
      buffers and none after the last. */
  function RunText(run: seq<Key>, buffers: map<Key, string>, update: string): (r: string)
    requires forall k :: k in run ==> k in buffers
    ensures Preamble(update) <= r
  {
    SortKeeps(run);
    Preamble(update) + JoinWith(Texts(SortByPrecedence(run), buffers), "\n")
  }

  lemma SortKeeps(ks: seq<Key>)
    ensures forall x :: x in SortByPrecedence(ks) <==> x in ks
  {
    var r := SortByPrecedence(ks);
    forall x ensures x in r <==> x in ks {
      assert x in r <==> x in multiset(r);
      assert x in ks <==> x in multiset(ks);
    }
  }

  /** Two sorted arrangements of the same keys of one stage are the same:
      no two of them share a precedence. */
  lemma {:induction false} SortedUnique(a: seq<Key>, b: seq<Key>, s: string)
    requires SortedByPrecedence(a) && SortedByPrecedence(b) && multiset(a) == multiset(b)
    requires forall k :: k in a ==> k.stage == s
    ensures a == b
    decreases |a|
  {
    assert |a| == |multiset(a)| == |multiset(b)| == |b|;
    if a != [] {
      assert a[0] in multiset(b) && b[0] in multiset(a);
      SortedHeadLeast(a, b[0]);
      SortedHeadLeast(b, a[0]);
      PrecedenceInjective(a[0], b[0]);
      MultisetTail(a, b);
      SortedTail(a);
      SortedTail(b);
      forall k | k in a[1..] ensures k.stage == s {
        assert k in a;
      }
      SortedUnique(a[1..], b[1..], s);
      assert a == [a[0]] + a[1..] && b == [b[0]] + b[1..];
    }
  }

  lemma SortedHeadLeast(a: seq<Key>, x: Key)
    requires SortedByPrecedence(a) && x in a
    ensures FilePrecedence(a[0]) <= FilePrecedence(x)
  {
    var i :| 0 <= i < |a| && a[i] == x;
  }

  lemma SortedTail(a: seq<Key>)
    requires SortedByPrecedence(a) && a != []
    ensures SortedByPrecedence(a[1..])
  {
    forall i, j | 0 <= i < j < |a[1..]| ensures FilePrecedence(a[1..][i]) <= FilePrecedence(a[1..][j]) {
      assert a[1..][i] == a[i + 1] && a[1..][j] == a[j + 1];
    }
  }

  lemma MultisetTail(a: seq<Key>, b: seq<Key>)
    requires a != [] && b != [] && a[0] == b[0] && multiset(a) == multiset(b)
    ensures multiset(a[1..]) == multiset(b[1..])
  {
    assert a == [a[0]] + a[1..] && b == [b[0]] + b[1..];
    var ma, mb := multiset(a[1..]), multiset(b[1..]);
    assert multiset(a) == multiset{a[0]} + ma;
    assert multiset(b) == multiset{b[0]} + mb;
    forall y ensures ma[y] == mb[y] {
      assert multiset(a)[y] == multiset{a[0]}[y] + ma[y];
      assert multiset(b)[y] == multiset{b[0]}[y] + mb[y];
    }
  }

  /** A stage file does not depend on the order its group's buffers were
      created in, only on which they are: `sorted` puts them in one order. */
  lemma RunTextOrderFree(run1: seq<Key>, run2: seq<Key>, buffers: map<Key, string>, update: string, s: string)
    requires forall k :: k in run1 ==> k in buffers && k.stage == s
    requires forall k :: k in run2 ==> k in buffers
    requires multiset(run1) == multiset(run2)
    ensures RunText(run1, buffers, update) == RunText(run2, buffers, update)
  {
    var a, b := SortByPrecedence(run1), SortByPrecedence(run2);
    forall k | k in a ensures k.stage == s {
      assert k in multiset(run1);
    }
    SortedUnique(a, b, s);
  }

  /** The stages of the keys from position `i` on. */
  ghost function Stages(order: seq<Key>, i: nat): set<string> {
    set p | i <= p < |order| :: order[p].stage
  }

  ghost predicate Known(order: seq<Key>, buffers: map<Key, string>) {
    forall p :: 0 <= p < |order| ==> order[p] in buffers
  }

  lemma KnownSlice(order: seq<Key>, buffers: map<Key, string>, i: nat, j: nat)
    requires Known(order, buffers) && i <= j <= |order|
    ensures forall k :: k in order[i..j] ==> k in buffers
  {
    forall k | k in order[i..j] ensures k in buffers {
      var p :| 0 <= p < j - i && order[i..j][p] == k;
      assert order[i + p] == k;
    }
  }

  /** The files after writing the groups of `order` from position `i` on,
      one after the other, on top of `files`. Each group opens its stage
      file with `'w'`, so it replaces whatever an earlier group of the same
      stage wrote. */
  function WriteRuns(files: map<string, string>, order: seq<Key>, i: nat, buffers: map<Key, string>, update: string): (r: map<string, string>)
    requires i <= |order| && Known(order, buffers)
    ensures r.Keys == files.Keys + Stages(order, i)
    ensures forall s :: s in files && s !in Stages(order, i) ==> r[s] == files[s]
    decreases |order| - i
  {
    if i == |order| then files
    else
      var j := RunEnd(order, i);
      KnownSlice(order, buffers, i, j);
      assert Stages(order, i) == {order[i].stage} + Stages(order, j);
      WriteRuns(files[order[i].stage := RunText(order[i..j], buffers, update)], order, j, buffers, update)
  }

  /** Every stage file a run produces. */
  function Composed(st: State, update: string): map<string, string>
    requires RegistryValid(st)
  {
    WriteRuns(map[], st.order, 0, st.buffers, update)
  }

  /** The file of stage `s` holds exactly the last group of keys of that
      stage, the one at positions `lo` to `hi`: earlier groups of `s`, split
      from it by another stage, are overwritten, and later groups, of other
      stages, leave it alone. */
  lemma {:induction false} LastRunWins(files: map<string, string>, order: seq<Key>, i: nat, lo: nat, hi: nat,
                                       buffers: map<Key, string>, update: string)
    requires Known(order, buffers) && i <= lo < hi <= |order|
    requires forall p :: lo <= p < hi ==> order[p].stage == order[lo].stage
    requires 0 < lo ==> order[lo - 1].stage != order[lo].stage
    requires forall p :: hi <= p < |order| ==> order[p].stage != order[lo].stage
    requires forall k :: k in order[lo..hi] ==> k in buffers
    ensures var r := WriteRuns(files, order, i, buffers, update);
            order[lo].stage in r && r[order[lo].stage] == RunText(order[lo..hi], buffers, update)
    decreases |order| - i
  {
    var j := RunEnd(order, i);
    KnownSlice(order, buffers, i, j);
    var next := files[order[i].stage := RunText(order[i..j], buffers, update)];
    if i < lo {
      assert j <= lo;
      LastRunWins(next, order, j, lo, hi, buffers, update);
    } else {
      assert j < |order| ==> order[j].stage != order[lo].stage;
      assert hi < |order| ==> order[hi].stage != order[lo].stage;
      assert j == hi;
      assert order[lo].stage !in Stages(order, hi);
    }
  }

  /** The body of the `with open` block of `combineFiles` (lines 196-205):
      the preamble, then each buffer of the group, followed by a newline
      unless it is the last. */
  method WriteRun(run: seq<Key>, buffers: map<Key, string>, update: string) returns (text: string)
    requires forall k :: k in run ==> k in buffers
    ensures text == Preamble(update) + JoinWith(Texts(run, buffers), "\n")
  {
    text := Preamble(update);
    var j := 0;
    while j < |run|
      invariant 0 <= j <= |run|
      invariant text == Preamble(update) + JoinWith(Texts(run[..j], buffers), "\n") + (if 0 < j < |run| then "\n" else "")
    {
      assert Texts(run[..j + 1], buffers)[..j] == Texts(run[..j], buffers);
      text := text + buffers[run[j]];
      if j < |run| - 1 {
        text := text + "\n";
      }
      j := j + 1;
    }
    assert run[..j] == run;
  }

  /** `combineFiles` (lines 193-205): for each group of consecutive keys of
      one stage, sort it by precedence and write it over that stage's file. */
  method CombineFiles(st: State, os: OSConfig) returns (files: map<string, string>)
    requires RegistryValid(st)
    ensures files == Composed(st, os.updateCommand)
  {
    var update := os.updateCommand;
    files := map[];
    var i := 0;
    while i < |st.order|
      invariant 0 <= i <= |st.order|
      invariant WriteRuns(files, st.order, i, st.buffers, update) == Composed(st, update)
      decreases |st.order| - i
    {
      var j := RunEnd(st.order, i);
      KnownSlice(st.order, st.buffers, i, j);
      SortKeeps(st.order[i..j]);
      var text := WriteRun(SortByPrecedence(st.order[i..j]), st.buffers, update);
      files := files[st.order[i].stage := text];
      i := j;
    }
  }
}
