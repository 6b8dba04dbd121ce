/** The parts of Python's string, list and `posixpath` semantics that the
    HCP test configuration relies on, each stated as a function together
    with the property that characterises it. */
module Py {

  /** Python's `None` or a present value. */
  datatype Option<T> = None | Some(value: T)

  // ---------------------------------------------------------------------
  // Substrings

  /** `s.startswith(p)` */
  predicate StartsWith(s: string, p: string) {
    |p| <= |s| && s[..|p|] == p
  }

  /** `s.endswith(p)` */
  predicate EndsWith(s: string, p: string) {
    |p| <= |s| && s[|s| - |p|..] == p
  }

  /** `t` occurs in `s` starting at index `i`. */
  predicate OccursAt(s: string, t: string, i: int) {
    0 <= i && i + |t| <= |s| && s[i..i + |t|] == t
  }

  /** The scan behind `s.find(t)`, from index `i` on: the least index at
      or after `i` where `t` occurs in `s`, or -1. */
  function FindFrom(s: string, t: string, i: nat): (r: int)
    ensures r == -1 || i <= r <= |s|
    ensures r >= 0 ==> OccursAt(s, t, r)
    ensures r >= 0 ==> forall j :: i <= j < r ==> !OccursAt(s, t, j)
    ensures r < 0 ==> forall j :: i <= j ==> !OccursAt(s, t, j)
    decreases |s| - i
  {
    if i + |t| > |s| then -1
    else if s[i..i + |t|] == t then i
    else FindFrom(s, t, i + 1)
  }

  /** `s.find(t)`: the least index at which `t` occurs in `s`, or -1. */
  function Find(s: string, t: string): (r: int)
    ensures -1 <= r <= |s|
    ensures r >= 0 ==> OccursAt(s, t, r) && forall j :: 0 <= j < r ==> !OccursAt(s, t, j)
    ensures r < 0 ==> forall j :: !OccursAt(s, t, j)
  {
    FindFrom(s, t, 0)
  }

  /** `t in s` for two strings: a substring test, not a membership test. */
  predicate Contains(s: string, t: string) {
    Find(s, t) >= 0
  }

  /** A string cannot contain a needle holding a character it lacks. */
  lemma MissingCharNotContained(s: string, t: string, c: char)
    requires c in t && c !in s
    ensures !Contains(s, t)
  {
  }

  // ---------------------------------------------------------------------
  // Splitting

  /** `xs[-1]` */
  function Last<T>(xs: seq<T>): T
    requires |xs| >= 1
  {
    xs[|xs| - 1]
  }

  /** `s.split(sep)` for a non-empty `sep` (Python raises `ValueError` on an
      empty one): the pieces between the occurrences found by a left-to-right
      scan that resumes after each match. */
  function Split(s: string, sep: string): (pieces: seq<string>)
    requires sep != []
    ensures |pieces| >= 1
    ensures forall p :: p in pieces ==> !Contains(p, sep)
    decreases |s|
  {
    var i := Find(s, sep);
    if i < 0 then [s]
    else
      var head := s[..i];
      assert forall j :: OccursAt(head, sep, j) ==> OccursAt(s, sep, j) by {
        forall j | OccursAt(head, sep, j) ensures OccursAt(s, sep, j) {
          assert s[j..j + |sep|] == head[j..j + |sep|];
        }
      }
      [head] + Split(s[i + |sep|..], sep)
  }

  /** A string cut around an occurrence of `t`. */
  lemma CutAround(s: string, t: string, i: int)
    requires OccursAt(s, t, i)
    ensures s == s[..i] + t + s[i + |t|..]
  {
    assert s == s[..i] + s[i..i + |t|] + s[i + |t|..];
  }

  /** `sep.join(pieces)` */
  function JoinWith(sep: string, pieces: seq<string>): string
    requires |pieces| >= 1
  {
    if |pieces| == 1 then pieces[0] else pieces[0] + sep + JoinWith(sep, pieces[1..])
  }

  /** Joining the pieces of a split with the separator gives back the string. */
  lemma {:induction false} SplitJoin(s: string, sep: string)
    requires sep != []
    ensures JoinWith(sep, Split(s, sep)) == s
    decreases |s|
  {
    if Contains(s, sep) {
      var i := Find(s, sep);
      var rest := s[i + |sep|..];
      SplitStep(s, sep);
      SplitJoin(rest, sep);
      var pieces := [s[..i]] + Split(rest, sep);
      assert pieces[0] == s[..i] && pieces[1..] == Split(rest, sep);
      assert JoinWith(sep, pieces) == s[..i] + sep + JoinWith(sep, Split(rest, sep));
    } else {
      assert Split(s, sep) == [s];
    }
  }

  /** The last piece of `s.split(sep)` is what follows the final match: a
      suffix of `s` free of `sep`, preceded in `s` by `sep` whenever `sep`
      occurs at all, and all of `s` otherwise. */
  lemma LastPieceFollowsLastMatch(s: string, sep: string)
    requires sep != []
    ensures EndsWith(s, Last(Split(s, sep)))
    ensures !Contains(Last(Split(s, sep)), sep)
    ensures Contains(s, sep) ==> EndsWith(s, sep + Last(Split(s, sep)))
    ensures !Contains(s, sep) ==> Last(Split(s, sep)) == s
  {
    LastPieceIsSuffix(s, sep);
    assert Last(Split(s, sep)) in Split(s, sep);
  }

  /** One step of the split: the piece before the first match, then the
      split of what follows it. */
  lemma SplitStep(s: string, sep: string)
    requires sep != [] && Contains(s, sep)
    ensures var i := Find(s, sep);
            var rest := s[i + |sep|..];
            s == (s[..i] + sep) + rest && Split(s, sep) == [s[..i]] + Split(rest, sep)
  {
    CutAround(s, sep, Find(s, sep));
  }

  lemma {:induction false} LastPieceIsSuffix(s: string, sep: string)
    requires sep != []
    ensures EndsWith(s, sep + Last(Split(s, sep))) || (!Contains(s, sep) && Last(Split(s, sep)) == s)
    decreases |s|
  {
    if Contains(s, sep) {
      var i := Find(s, sep);
      var rest := s[i + |sep|..];
      SplitStep(s, sep);
      LastPieceIsSuffix(rest, sep);
      var last := Last(Split(rest, sep));
      assert Last(Split(s, sep)) == last;
      if Contains(rest, sep) {
        EndsWithAppend(s[..i] + sep, rest, sep + last);
      } else {
        AppendAssoc(s[..i], sep, rest);
        EndsWithAppend(s[..i], sep + rest, sep + rest);
      }
    }
  }

  lemma EndsWithAppend(a: string, b: string, x: string)
    requires EndsWith(b, x) || x == b
    ensures EndsWith(a + b, x)
  {
    assert (a + b)[|a + b| - |x|..] == b[|b| - |x|..];
  }

  // ---------------------------------------------------------------------
  // Paths (posixpath)

  /** `s.rfind(c)` for a single character: the greatest index holding `c`, or -1. */
  function RFind(s: string, c: char): (r: int)
    ensures -1 <= r < |s|
    ensures r >= 0 ==> s[r] == c
    ensures forall j :: r < j < |s| ==> s[j] != c
    decreases |s|
  {
    if s == [] then -1
    else if s[|s| - 1] == c then |s| - 1
    else RFind(s[..|s| - 1], c)
  }

  /** `s.rstrip(c)` for a single character: the longest prefix of `s` that
      does not end in `c`, everything after it being `c`. */
  function RStrip(s: string, c: char): (r: string)
    ensures StartsWith(s, r)
    ensures r == [] || r[|r| - 1] != c
    ensures forall j :: |r| <= j < |s| ==> s[j] == c
    decreases |s|
  {
    if s != [] && s[|s| - 1] == c then RStrip(s[..|s| - 1], c) else s
  }

  /** Every character of `s` is `c` (`s == c * len(s)`). */
  predicate AllChar(s: string, c: char) {
    forall j :: 0 <= j < |s| ==> s[j] == c
  }

  /** `posixpath.dirname(p)`: everything up to the last '/', with trailing
      slashes removed unless the head is slashes only. */
  function Dirname(p: string): string {
    var head := p[..RFind(p, '/') + 1];
    if head != [] && !AllChar(head, '/') then RStrip(head, '/') else head
  }

  /** `posixpath.basename(p)`: everything after the last '/'. */
  function Basename(p: string): string {
    p[RFind(p, '/') + 1..]
  }

  /** The basename is the final component: a '/'-free suffix of the path,
      preceded by '/' whenever the path has one. */
  lemma BasenameIsFinalComponent(p: string)
    ensures EndsWith(p, Basename(p)) && '/' !in Basename(p)
    ensures '/' in p ==> EndsWith(p, "/" + Basename(p))
    ensures '/' !in p ==> Basename(p) == p
  {
    var i := RFind(p, '/');
    var b := p[i + 1..];
    assert Basename(p) == b;
    assert '/' !in b by {
      forall k | 0 <= k < |b| ensures b[k] != '/' {
        assert b[k] == p[i + 1 + k];
      }
    }
    assert p[|p| - |b|..] == b;
    if i >= 0 {
      assert p[|p| - |"/" + b|..] == "/" + b by {
        assert p[i..] == [p[i]] + b;
      }
    } else {
      assert b == p;
    }
  }

  /** `posixpath.join(a, b)` for two components. */
  function PathJoin(a: string, b: string): (r: string)
    ensures StartsWith(b, "/") ==> r == b
    ensures !StartsWith(b, "/") ==> StartsWith(r, a) && EndsWith(r, b) && |a| + |b| <= |r| <= |a| + |b| + 1
    ensures !StartsWith(b, "/") ==> (|r| == |a| + |b| + 1 <==> a != [] && !EndsWith(a, "/"))
    ensures !StartsWith(b, "/") && |r| == |a| + |b| + 1 ==> r[|a|] == '/'
  {
    if StartsWith(b, "/") then b
    else if a == [] || EndsWith(a, "/") then a + b
    else a + "/" + b
  }

  /** `s[1:]`: drops the first character, if any. */
  function DropFirst(s: string): (r: string)
    ensures s != [] ==> s == [s[0]] + r
    ensures s == [] ==> r == []
  {
    if s == [] then s else s[1..]
  }

  // ---------------------------------------------------------------------
  // Lists

  /** `xs[:n]` for an integer `n` of either sign: a negative `n` counts from
      the end and an out-of-range `n` is clamped, never an error. */
  function SliceTo<T>(xs: seq<T>, n: int): (r: seq<T>)
    ensures |r| <= |xs| && r == xs[..|r|]
    ensures n >= 0 ==> |r| == if n <= |xs| then n else |xs|
    ensures n < 0 ==> |r| == if -n <= |xs| then |xs| + n else 0
  {
    if n >= 0 then (if n <= |xs| then xs[..n] else xs)
    else if -n <= |xs| then xs[..|xs| + n]
    else []
  }

  lemma AppendAssoc<T>(a: seq<T>, b: seq<T>, c: seq<T>)
    ensures (a + b) + c == a + (b + c)
  {
  }

  /** The comprehension `[x for x in xs if keep(x)]`. */
  function Filter<T>(xs: seq<T>, keep: T -> bool): (r: seq<T>)
    ensures |r| <= |xs|
    decreases |xs|
  {
    if xs == [] then [] else (if keep(xs[0]) then [xs[0]] else []) + Filter(xs[1..], keep)
  }

  /** A comprehension keeps exactly the elements that pass its condition. */
  lemma {:induction false} FilterMembers<T>(xs: seq<T>, keep: T -> bool, x: T)
    ensures x in Filter(xs, keep) <==> x in xs && keep(x)
    decreases |xs|
  {
    if xs != [] {
      assert xs == [xs[0]] + xs[1..];
      FilterMembers(xs[1..], keep, x);
    }
  }

  /** A comprehension with a condition keeps every copy of an element that
      passes it and no copy of one that does not. */
  lemma {:induction false} FilterMultiplicity<T>(xs: seq<T>, keep: T -> bool, x: T)
    ensures multiset(Filter(xs, keep))[x] == if keep(x) then multiset(xs)[x] else 0
    decreases |xs|
  {
    if xs != [] {
      assert xs == [xs[0]] + xs[1..];
      FilterMultiplicity(xs[1..], keep, x);
    }
  }

  /** `a` is obtained from `b` by deleting elements, keeping the order. */
  predicate IsSubsequence<T(==)>(a: seq<T>, b: seq<T>)
    decreases |b|
  {
    if b == [] then a == []
    else (a != [] && a[0] == b[0] && IsSubsequence(a[1..], b[1..])) || IsSubsequence(a, b[1..])
  }

  lemma {:induction false} SubsequenceRefl<T>(a: seq<T>)
    ensures IsSubsequence(a, a)
    decreases |a|
  {
    if a != [] {
      SubsequenceRefl(a[1..]);
    }
  }

  /** Subsequences of two lists concatenate to a subsequence of their concatenation. */
  lemma {:induction false} SubsequenceAppend<T>(a1: seq<T>, b1: seq<T>, a2: seq<T>, b2: seq<T>)
    requires IsSubsequence(a1, b1) && IsSubsequence(a2, b2)
    ensures IsSubsequence(a1 + a2, b1 + b2)
    decreases |b1|
  {
    if b1 == [] {
      assert a1 + a2 == a2 && b1 + b2 == b2;
    } else {
      assert (b1 + b2)[1..] == b1[1..] + b2;
      if a1 != [] && a1[0] == b1[0] && IsSubsequence(a1[1..], b1[1..]) {
        SubsequenceAppend(a1[1..], b1[1..], a2, b2);
        assert (a1 + a2)[1..] == a1[1..] + a2;
      } else {
        SubsequenceAppend(a1, b1[1..], a2, b2);
      }
    }
  }

  /** A comprehension with a condition keeps its input's order. */
  lemma {:induction false} FilterIsSubsequence<T>(xs: seq<T>, keep: T -> bool)
    ensures IsSubsequence(Filter(xs, keep), xs)
    decreases |xs|
  {
    if xs != [] {
      FilterIsSubsequence(xs[1..], keep);
      var r := Filter(xs, keep);
      if keep(xs[0]) {
        assert r[0] == xs[0] && r[1..] == Filter(xs[1..], keep);
      } else {
        assert r == Filter(xs[1..], keep);
      }
    }
  }

  // ---------------------------------------------------------------------
  // Decimal rendering of integers

  function DigitChar(d: nat): (c: char)
    requires d < 10
    ensures '0' <= c <= '9'
  {
    ('0' as int + d) as char
  }

  predicate IsDigits(s: string) {
    forall j :: 0 <= j < |s| ==> '0' <= s[j] <= '9'
  }

  /** `str(n)` for a natural number: its decimal digits, with no leading zero. */
  function Str(n: nat): (r: string)
    ensures r != [] && IsDigits(r)
    ensures r[0] == '0' ==> n == 0
    decreases n
  {
    if n < 10 then [DigitChar(n)] else Str(n / 10) + [DigitChar(n % 10)]
  }

  /** The value of a string of decimal digits (`int(s)` on such strings). */
  function DecimalValue(s: string): nat
    requires IsDigits(s)
    decreases |s|
  {
    if s == [] then 0 else DecimalValue(s[..|s| - 1]) * 10 + (s[|s| - 1] as int - '0' as int)
  }

  /** Reading back the decimal rendering of `n` gives `n`. */
  lemma {:induction false} DecimalValueOfStr(n: nat)
    ensures DecimalValue(Str(n)) == n
    decreases n
  {
    if n >= 10 {
      DecimalValueOfStr(n / 10);
      var s := Str(n);
      assert s[..|s| - 1] == Str(n / 10);
    }
  }

  /** Distinct numbers render as distinct strings. */
  lemma StrInjective(m: nat, n: nat)
    requires Str(m) == Str(n)
    ensures m == n
  {
    DecimalValueOfStr(m);
    DecimalValueOfStr(n);
  }
}
