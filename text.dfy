/** String helpers the generator relies on: Python's `str.strip()`,
    `os.path.basename`, `os.path.splitext`, integer formatting and the
    space- or newline-joined concatenations of `reduce` and `combineFiles`. */
module Text {

  /** Python's `str.isspace` for one character. */
  predicate IsSpace(c: char) {
    || '\U{0009}' <= c <= '\U{000D}'
    || '\U{001C}' <= c <= '\U{0020}'
    || c == '\U{0085}' || c == '\U{00A0}' || c == '\U{1680}'
    || '\U{2000}' <= c <= '\U{200A}'
    || c == '\U{2028}' || c == '\U{2029}' || c == '\U{202F}'
    || c == '\U{205F}' || c == '\U{3000}'
  }

  /** Number of whitespace characters at the start of `s`. */
  function LeadingSpaces(s: string): (n: nat)
    ensures n <= |s|
    ensures forall k :: 0 <= k < n ==> IsSpace(s[k])
    ensures n == |s| || !IsSpace(s[n])
  {
    if s == [] || !IsSpace(s[0]) then 0 else 1 + LeadingSpaces(s[1..])
  }

  /** Number of whitespace characters at the end of `s`. */
  function TrailingSpaces(s: string): (n: nat)
    ensures n <= |s|
    ensures forall k :: |s| - n <= k < |s| ==> IsSpace(s[k])
    ensures n == |s| || !IsSpace(s[|s| - 1 - n])
  {
    if s == [] || !IsSpace(s[|s| - 1]) then 0 else 1 + TrailingSpaces(s[..|s| - 1])
  }

  /** `s.strip()`: `s` with whitespace removed at both ends. The result is
      the middle of `s`, everything cut off is whitespace, and neither end
      of the result is whitespace. */
  function Strip(s: string): (r: string)
    ensures r == [] || (!IsSpace(r[0]) && !IsSpace(r[|r| - 1]))
    ensures LeadingSpaces(s) + |r| <= |s| && r == s[LeadingSpaces(s)..LeadingSpaces(s) + |r|]
    ensures forall k :: LeadingSpaces(s) + |r| <= k < |s| ==> IsSpace(s[k])
  {
    var a := LeadingSpaces(s);
    var rest := s[a..];
    var b := TrailingSpaces(rest);
    var r := rest[..|rest| - b];
    assert s[a..a + |r|] == r;
    r
  }

  /** `os.path.basename(p)`: what follows the last `/`. */
  function Basename(p: string): (r: string)
    ensures |r| <= |p| && '/' !in r
    ensures |r| < |p| ==> p[|p| - |r| - 1] == '/'
  {
    if p == [] || p[|p| - 1] == '/' then []
    else Basename(p[..|p| - 1]) + [p[|p| - 1]]
  }

  /** The base name is the tail of the path: with the two facts of
      `Basename`'s contract, it is the longest tail free of `/`. */
  lemma {:induction false} BasenameSuffix(p: string)
    ensures Basename(p) == p[|p| - |Basename(p)|..]
  {
    if p != [] && p[|p| - 1] != '/' {
      var q := p[..|p| - 1];
      BasenameSuffix(q);
      assert p[|p| - |Basename(p)|..] == q[|q| - |Basename(q)|..] + [p[|p| - 1]];
    }
  }

  /** Index of the last `.` of `s`, or -1. */
  function LastDot(s: string): (r: int)
    ensures -1 <= r < |s|
    ensures r >= 0 ==> s[r] == '.'
    ensures forall k :: r < k < |s| ==> s[k] != '.'
  {
    if s == [] then -1
    else if s[|s| - 1] == '.' then |s| - 1
    else LastDot(s[..|s| - 1])
  }

  predicate AllDots(s: string) {
    forall k :: 0 <= k < |s| ==> s[k] == '.'
  }

  /** `os.path.splitext(os.path.basename(p))[0]`: the base name without its
      extension. A name whose only dots lead it (".bashrc") has none. */
  function Stem(p: string): (r: string)
    ensures '/' !in r && |r| <= |p|
  {
    var b := Basename(p);
    var d := LastDot(b);
    if d >= 0 && !AllDots(b[..d]) then
      assert forall c :: c in b[..d] ==> c in b;
      b[..d]
    else b
  }

  /** The stem of a module file `name + ext`, where `ext` is a dot followed by
      a dot-free suffix and `name` is a plain name, is `name`. */
  lemma {:induction false} StemDropsExtension(name: string, ext: string)
    requires '/' !in name && '/' !in ext
    requires |ext| > 0 && ext[0] == '.' && '.' !in ext[1..]
    requires !AllDots(name)
    ensures Stem(name + ext) == name
  {
    var p := name + ext;
    BasenameOfPlain(p);
    assert Basename(p) == p;
    var d := LastDot(p);
    assert p[|name|] == '.';
    assert d == |name| by {
      forall k | |name| < k < |p| ensures p[k] != '.' {
        assert p[k] == ext[k - |name|];
        assert ext[k - |name|] in ext[1..];
      }
    }
    assert p[..d] == name;
  }

  /** A path without `/` is its own base name. */
  lemma {:induction false} BasenameOfPlain(p: string)
    requires '/' !in p
    ensures Basename(p) == p
  {
    if p != [] {
      assert '/' !in p[..|p| - 1] by {
        assert p == p[..|p| - 1] + [p[|p| - 1]];
      }
      BasenameOfPlain(p[..|p| - 1]);
      assert p[..|p| - 1] + [p[|p| - 1]] == p;
    }
  }

  function DigitChar(d: nat): (c: char)
    requires d < 10
  {
    ['0', '1', '2', '3', '4', '5', '6', '7', '8', '9'][d]
  }

  function DigitValue(c: char): nat {
    if '0' <= c <= '9' then (c as int - '0' as int) as nat else 0
  }

  /** Decimal digits of `n`, most significant first, without leading zeros. */
  function Digits(n: nat): (r: string)
    ensures |r| > 0 && (forall k :: 0 <= k < |r| ==> '0' <= r[k] <= '9')
    ensures n > 0 ==> r[0] != '0'
    decreases n
  {
    if n < 10 then [DigitChar(n)] else Digits(n / 10) + [DigitChar(n % 10)]
  }

  /** The number a string of decimal digits denotes. */
  function DigitsValue(s: string): nat {
    if s == [] then 0 else 10 * DigitsValue(s[..|s| - 1]) + DigitValue(s[|s| - 1])
  }

  /** Reading back the digits of `n` gives `n`: the rendering is faithful. */
  lemma {:induction false} DigitsRoundTrip(n: nat)
    ensures DigitsValue(Digits(n)) == n
    decreases n
  {
    if n >= 10 {
      DigitsRoundTrip(n / 10);
      var s := Digits(n);
      assert s[..|s| - 1] == Digits(n / 10);
    }
  }

  /** Python's `f"{i}"` for an int. */
  function Decimal(i: int): (r: string)
    ensures |r| > 0 && (r[0] == '-' <==> i < 0)
  {
    if i < 0 then "-" + Digits(-i) else Digits(i)
  }

  /** The rendering of any integer reads back to it: a sign for negative
      numbers, then the digits of the magnitude. */
  lemma DecimalReadsBack(i: int)
    ensures i >= 0 ==> DigitsValue(Decimal(i)) == i
    ensures i < 0 ==> DigitsValue(Decimal(i)[1..]) == -i
  {
    var n: nat := if i < 0 then -i else i;
    DigitsRoundTrip(n);
    if i < 0 {
      assert Decimal(i) == "-" + Digits(n);
      assert Decimal(i)[1..] == Digits(n);
    } else {
      assert Decimal(i) == Digits(n);
    }
  }

  /** Two integers with the same rendering are equal. */
  lemma DecimalInjective(i: int, j: int)
    requires Decimal(i) == Decimal(j)
    ensures i == j
  {
    DecimalReadsBack(i);
    DecimalReadsBack(j);
  }

  /** `reduce(lambda a, b: f'{a}{sep}{b}', parts)`, extended to the empty list. */
  function JoinWith(parts: seq<string>, sep: string): (r: string)
    ensures |parts| == 0 ==> r == ""
    ensures |parts| == 1 ==> r == parts[0]
  {
    if |parts| == 0 then ""
    else if |parts| == 1 then parts[0]
    else JoinWith(parts[..|parts| - 1], sep) + sep + parts[|parts| - 1]
  }

  /** The total length of `parts`. */
  function TotalLength(parts: seq<string>): nat {
    if parts == [] then 0 else TotalLength(parts[..|parts| - 1]) + |parts[|parts| - 1]|
  }

  /** Joining loses and adds nothing: the parts, and one separator between
      each two of them. */
  lemma {:induction false} JoinWithLength(parts: seq<string>, sep: string)
    requires |parts| > 0
    ensures |JoinWith(parts, sep)| == TotalLength(parts) + (|parts| - 1) * |sep|
    decreases |parts|
  {
    if |parts| > 1 {
      var init := parts[..|parts| - 1];
      JoinWithLength(init, sep);
      assert init[..|init| - 1] == parts[..|parts| - 2];
      assert (|parts| - 1) * |sep| == (|init| - 1) * |sep| + |sep|;
    } else {
      assert parts[..0] == [];
    }
  }

  /** Joining two non-empty lists is joining each and putting one separator
      between: this is how package lists of several modules accumulate. */
  lemma {:induction false} JoinAppend(xs: seq<string>, ys: seq<string>, sep: string)
    requires |xs| > 0 && |ys| > 0
    ensures JoinWith(xs + ys, sep) == JoinWith(xs, sep) + sep + JoinWith(ys, sep)
    decreases |ys|
  {
    if |ys| == 1 {
      assert (xs + ys)[..|xs + ys| - 1] == xs;
    } else {
      var ys' := ys[..|ys| - 1];
      JoinAppend(xs, ys', sep);
      assert (xs + ys)[..|xs + ys| - 1] == xs + ys';
    }
  }
}
