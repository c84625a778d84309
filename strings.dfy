/** The Python string operations the parsers rest on, written out over
    `seq<char>`: `str.find`, `in`, `startswith`/`endswith`, `split`,
    `strip`, ASCII `lower`, `str(int)`, and the code-point order that
    `sorted` uses on strings. */
module Strings {
  import opened Wrappers

  /** `sub` stands in `s` starting at index `i`. */
  predicate OccursAt(s: string, sub: string, i: nat) {
    i + |sub| <= |s| && s[i..i + |sub|] == sub
  }

  predicate StartsWith(s: string, prefix: string) {
    OccursAt(s, prefix, 0)
  }

  predicate EndsWith(s: string, suffix: string) {
    |suffix| <= |s| && s[|s| - |suffix|..] == suffix
  }

  /** The first index at or after `from` where `sub` occurs. */
  function FindFrom(s: string, sub: string, from: nat): (r: Option<nat>)
    requires from <= |s|
    ensures r.Some? ==> from <= r.value && r.value + |sub| <= |s|
    decreases |s| - from
  {
    if OccursAt(s, sub, from) then Some(from)
    else if from == |s| then None
    else FindFrom(s, sub, from + 1)
  }

  /** `FindFrom` finds the first occurrence, and finds one whenever there is one. */
  lemma {:induction false} FindFromSpec(s: string, sub: string, from: nat)
    requires from <= |s|
    ensures var r := FindFrom(s, sub, from);
      && (r.Some? ==> OccursAt(s, sub, r.value))
      && (r.Some? ==> forall j :: from <= j < r.value ==> !OccursAt(s, sub, j))
      && (r.None? ==> forall j :: from <= j ==> !OccursAt(s, sub, j))
    decreases |s| - from
  {
    if !OccursAt(s, sub, from) && from < |s| {
      FindFromSpec(s, sub, from + 1);
    }
  }

  /** Python's `s.find(sub)`, with `None` for -1. */
  function Find(s: string, sub: string): Option<nat> {
    FindFrom(s, sub, 0)
  }

  /** Python's `sub in s`. */
  predicate Contains(s: string, sub: string) {
    Find(s, sub).Some?
  }

  lemma FindSpec(s: string, sub: string)
    ensures var r := Find(s, sub);
      && (r.Some? ==> OccursAt(s, sub, r.value))
      && (r.Some? ==> forall j :: 0 <= j < r.value ==> !OccursAt(s, sub, j))
      && (r.None? ==> forall j :: 0 <= j ==> !OccursAt(s, sub, j))
  {
    FindFromSpec(s, sub, 0);
  }

  lemma FindOccurs(s: string, sub: string)
    ensures Find(s, sub).Some? ==> OccursAt(s, sub, Find(s, sub).value)
  {
    FindSpec(s, sub);
  }

  lemma ContainsIff(s: string, sub: string)
    ensures Contains(s, sub) <==> exists i: nat :: OccursAt(s, sub, i)
  {
    FindSpec(s, sub);
    if Contains(s, sub) {
      assert OccursAt(s, sub, Find(s, sub).value);
    }
  }

  /** No occurrence of `sep` lies inside the text between `from` and the
      first occurrence at or after `from`. */
  lemma NoneBeforeFirst(s: string, sep: string, from: nat, i: nat)
    requires sep != [] && from <= |s| && FindFrom(s, sep, from) == Some(i)
    ensures !Contains(s[from..i], sep)
  {
    var t := s[from..i];
    FindFromSpec(s, sep, from);
    FindSpec(t, sep);
    if Contains(t, sep) {
      var j := Find(t, sep).value;
      assert OccursAt(t, sep, j);
      assert j + |sep| <= |t| == i - from;
      forall k | 0 <= k < |sep|
        ensures s[from + j + k] == sep[k]
      {
        assert t[j..j + |sep|][k] == t[j + k] == s[from + j + k];
      }
      assert s[from + j..from + j + |sep|] == sep;
      assert OccursAt(s, sep, from + j);
      assert false;
    }
  }

  /** An occurrence in the suffix `s[from..]` is one that `FindFrom` finds. */
  lemma FoundInSuffix(s: string, sep: string, from: nat)
    requires from <= |s| && Contains(s[from..], sep)
    ensures FindFrom(s, sep, from).Some?
  {
    FindSpec(s[from..], sep);
    var j := Find(s[from..], sep).value;
    assert s[from..][j..j + |sep|] == s[from + j..from + j + |sep|];
    FindFromSpec(s, sep, from);
    assert OccursAt(s, sep, from + j);
  }

  /** The parts of `s[from..]` split on `sep`. */
  function SplitFrom(s: string, sep: string, from: nat): (parts: seq<string>)
    requires sep != [] && from <= |s|
    ensures |parts| >= 1
    decreases |s| - from
  {
    match FindFrom(s, sep, from)
    case None => [s[from..]]
    case Some(i) => [s[from..i]] + SplitFrom(s, sep, i + |sep|)
  }

  /** Python's `s.split(sep)` for a non-empty separator. */
  function Split(s: string, sep: string): (parts: seq<string>)
    requires sep != []
    ensures |parts| >= 1
  {
    SplitFrom(s, sep, 0)
  }

  /** Python's `sep.join(parts)`. */
  function Join(parts: seq<string>, sep: string): string
    requires |parts| >= 1
  {
    if |parts| == 1 then parts[0] else parts[0] + sep + Join(parts[1..], sep)
  }

  function Last<T>(s: seq<T>): T
    requires |s| > 0
  {
    s[|s| - 1]
  }

  lemma {:induction false} SplitFromJoin(s: string, sep: string, from: nat)
    requires sep != [] && from <= |s|
    ensures Join(SplitFrom(s, sep, from), sep) == s[from..]
    decreases |s| - from
  {
    match FindFrom(s, sep, from)
    case None =>
    case Some(i) =>
      var k := i + |sep|;
      FindFromSpec(s, sep, from);
      SplitFromJoin(s, sep, k);
      var parts := SplitFrom(s, sep, from);
      assert parts[1..] == SplitFrom(s, sep, k);
      assert Join(parts, sep) == s[from..i] + sep + s[k..];
      assert s[i..k] == sep;
      assert s[from..] == s[from..i] + s[i..k] + s[k..];
  }

  /** Splitting loses nothing: joining the parts gives the text back. */
  lemma SplitJoin(s: string, sep: string)
    requires sep != []
    ensures Join(Split(s, sep), sep) == s
  {
    SplitFromJoin(s, sep, 0);
  }

  lemma {:induction false} SplitFromPartsFree(s: string, sep: string, from: nat)
    requires sep != [] && from <= |s|
    ensures forall k :: 0 <= k < |SplitFrom(s, sep, from)| ==> !Contains(SplitFrom(s, sep, from)[k], sep)
    decreases |s| - from
  {
    match FindFrom(s, sep, from)
    case None =>
      if Contains(s[from..], sep) {
        FoundInSuffix(s, sep, from);
        assert false;
      }
    case Some(i) =>
      NoneBeforeFirst(s, sep, from, i);
      SplitFromPartsFree(s, sep, i + |sep|);
  }

  /** No part of a split contains the separator. */
  lemma SplitPartsFree(s: string, sep: string)
    requires sep != []
    ensures forall k :: 0 <= k < |Split(s, sep)| ==> !Contains(Split(s, sep)[k], sep)
  {
    SplitFromPartsFree(s, sep, 0);
  }

  /** The first part of a split is the text before the first separator, or
      all of it when there is none. */
  lemma SplitFirst(s: string, sep: string)
    requires sep != []
    ensures Split(s, sep)[0] == match Find(s, sep) case None => s case Some(i) => s[..i]
  {
  }

  /** The last part of a split of `s[from..]` is a suffix of `s`, and the
      separator stands right before it when a separator was found. */
  lemma {:induction false} SplitFromLast(s: string, sep: string, from: nat)
    requires sep != [] && from <= |s|
    ensures var l := Last(SplitFrom(s, sep, from));
      |l| <= |s| - from && l == s[|s| - |l|..] &&
      (FindFrom(s, sep, from).Some? ==> |l| + |sep| <= |s| - from && s[|s| - |l| - |sep|..|s| - |l|] == sep)
    decreases |s| - from
  {
    match FindFrom(s, sep, from)
    case None =>
    case Some(i) =>
      var k := i + |sep|;
      FindFromSpec(s, sep, from);
      SplitFromLast(s, sep, k);
      var l := Last(SplitFrom(s, sep, k));
      assert Last(SplitFrom(s, sep, from)) == l;
      if FindFrom(s, sep, k).None? {
        assert l == s[k..];
      }
  }

  /** The last part of a split is a suffix of the text, free of the
      separator, and preceded by the separator when there is one: Python's
      `s.split(sep)[-1]` is the text after the last separator. */
  lemma SplitLast(s: string, sep: string)
    requires sep != []
    ensures var l := Last(Split(s, sep));
      EndsWith(s, l) && !Contains(l, sep) &&
      (Contains(s, sep) ==> EndsWith(s[..|s| - |l|], sep))
  {
    SplitFromLast(s, sep, 0);
    SplitPartsFree(s, sep);
    var l := Last(Split(s, sep));
    if Contains(s, sep) {
      assert s[..|s| - |l|][|s| - |l| - |sep|..] == s[|s| - |l| - |sep|..|s| - |l|];
    }
  }

  /** The first index at or after `from` whose character is in `stops`, or
      `|s|` when there is none. */
  function ScanTo(s: string, from: nat, stops: set<char>): (q: nat)
    requires from <= |s|
    ensures from <= q <= |s|
    decreases |s| - from
  {
    if from == |s| || s[from] in stops then from else ScanTo(s, from + 1, stops)
  }

  lemma {:induction false} ScanToSpec(s: string, from: nat, stops: set<char>)
    requires from <= |s|
    ensures var q := ScanTo(s, from, stops);
      && (forall k :: from <= k < q ==> s[k] !in stops)
      && (q < |s| ==> s[q] in stops)
    decreases |s| - from
  {
    if from < |s| && s[from] !in stops {
      ScanToSpec(s, from + 1, stops);
    }
  }

  // ---------------------------------------------------------------------
  // Whitespace and `strip`

  /** The characters `str.isspace` accepts, which `str.strip()` removes. */
  const StrWhitespace: set<char> := {
    '\t', '\n', '\U{0B}', '\U{0C}', '\r', '\U{1C}', '\U{1D}', '\U{1E}', '\U{1F}',
    ' ', '\U{85}', '\U{A0}', '\U{1680}', '\U{2000}', '\U{2001}', '\U{2002}',
    '\U{2003}', '\U{2004}', '\U{2005}', '\U{2006}', '\U{2007}', '\U{2008}',
    '\U{2009}', '\U{200A}', '\U{2028}', '\U{2029}', '\U{202F}', '\U{205F}',
    '\U{3000}'
  }

  /** The bytes `bytes.strip()` removes. */
  const BytesWhitespace: set<char> := {' ', '\t', '\n', '\r', '\U{0B}', '\U{0C}'}

  function TrimStart(s: string, ws: set<char>): (r: string)
    ensures EndsWith(s, r)
    ensures r == [] || r[0] !in ws
  {
    if s != [] && s[0] in ws then
      var r := TrimStart(s[1..], ws);
      assert s[|s| - |r|..] == s[1..][|s| - 1 - |r|..];
      r
    else s
  }

  function TrimEnd(s: string, ws: set<char>): (r: string)
    ensures StartsWith(s, r)
    ensures r == [] || r[|r| - 1] !in ws
  {
    if s != [] && s[|s| - 1] in ws then
      var r := TrimEnd(s[..|s| - 1], ws);
      assert s[..|r|] == s[..|s| - 1][..|r|];
      r
    else s
  }

  /** `s.strip()` with `ws` as the whitespace class. */
  function Strip(s: string, ws: set<char>): (r: string)
    ensures r == [] || (r[0] !in ws && r[|r| - 1] !in ws)
  {
    TrimEnd(TrimStart(s, ws), ws)
  }

  /** A line written as `text + "\n"` strips back to `text` when `text` has
      no whitespace at either end. */
  lemma StripLine(text: string)
    requires text == [] || (text[0] !in StrWhitespace && Last(text) !in StrWhitespace)
    ensures Strip(text + "\n", StrWhitespace) == text
  {
    StripTerminated(text, '\n', StrWhitespace);
  }

  lemma StripTerminated(text: string, c: char, ws: set<char>)
    requires c in ws
    requires text == [] || (text[0] !in ws && Last(text) !in ws)
    ensures Strip(text + [c], ws) == text
  {
    var line := text + [c];
    if text == [] {
      assert TrimStart(line, ws) == TrimStart(line[1..], ws);
      assert line[1..] == [];
    } else {
      assert TrimStart(line, ws) == line;
      assert line[..|line| - 1] == text;
      assert TrimEnd(line, ws) == TrimEnd(text, ws);
    }
  }

  // ---------------------------------------------------------------------
  // Case and digits

  function LowerChar(c: char): char {
    if 'A' <= c <= 'Z' then (c as int + 32) as char else c
  }

  /** `s.lower()` on ASCII letters. */
  function Lower(s: string): (r: string)
    ensures |r| == |s|
    ensures forall k :: 0 <= k < |s| ==> r[k] == LowerChar(s[k])
  {
    seq(|s|, k requires 0 <= k < |s| => LowerChar(s[k]))
  }

  predicate IsDigit(c: char) {
    '0' <= c <= '9'
  }

  predicate AllDigits(s: string) {
    forall k :: 0 <= k < |s| ==> IsDigit(s[k])
  }

  function DigitChar(d: nat): (c: char)
    requires d < 10
    ensures IsDigit(c)
  {
    ('0' as int + d) as char
  }

  /** `str(n)` for a non-negative integer. */
  function NatToString(n: nat): (r: string)
    ensures r != [] && AllDigits(r)
  {
    if n < 10 then [DigitChar(n)] else NatToString(n / 10) + [DigitChar(n % 10)]
  }

  /** `int(s)` for a string of decimal digits. */
  function ParseNat(s: string): nat
    requires AllDigits(s)
  {
    if s == [] then 0 else ParseNat(s[..|s| - 1]) * 10 + (Last(s) as int - '0' as int)
  }

  lemma {:induction false} ParseNatToString(n: nat)
    ensures ParseNat(NatToString(n)) == n
  {
    if n >= 10 {
      ParseNatToString(n / 10);
      var s := NatToString(n);
      assert s[..|s| - 1] == NatToString(n / 10);
    }
  }

  /** Different numbers print differently. */
  lemma NatToStringInjective(a: nat, b: nat)
    requires NatToString(a) == NatToString(b)
    ensures a == b
  {
    ParseNatToString(a);
    ParseNatToString(b);
  }

  // ---------------------------------------------------------------------
  // The order `sorted` puts strings in: lexicographic by code point

  predicate Less(a: string, b: string)
    decreases |a|
  {
    if a == [] then b != []
    else if b == [] then false
    else if a[0] != b[0] then a[0] < b[0]
    else Less(a[1..], b[1..])
  }

  lemma {:induction false} LessIrreflexive(a: string)
    ensures !Less(a, a)
    decreases |a|
  {
    if a != [] { LessIrreflexive(a[1..]); }
  }

  lemma {:induction false} LessTransitive(a: string, b: string, c: string)
    requires Less(a, b) && Less(b, c)
    ensures Less(a, c)
    decreases |a|
  {
    if a != [] && a[0] == b[0] && b[0] == c[0] {
      LessTransitive(a[1..], b[1..], c[1..]);
    }
  }

  lemma {:induction false} LessTotal(a: string, b: string)
    ensures a == b || Less(a, b) || Less(b, a)
    decreases |a|
  {
    if a != [] && b != [] && a[0] == b[0] {
      LessTotal(a[1..], b[1..]);
      if a[1..] == b[1..] {
        assert a == [a[0]] + a[1..] && b == [b[0]] + b[1..];
      }
    }
  }

  lemma LessAsymmetric(a: string, b: string)
    requires Less(a, b)
    ensures !Less(b, a)
  {
    if Less(b, a) {
      LessTransitive(a, b, a);
      LessIrreflexive(a);
    }
  }

  /** `x` is the first element of `s` in sorted order. */
  predicate IsLeast(x: string, s: set<string>) {
    x in s && forall y :: y in s && y != x ==> Less(x, y)
  }

  lemma {:induction false} LeastExists(s: set<string>)
    requires s != {}
    ensures exists x :: IsLeast(x, s)
    decreases |s|
  {
    var x :| x in s;
    if s != {x} {
      LeastExists(s - {x});
      var m :| IsLeast(m, s - {x});
      LessTotal(x, m);
      if Less(x, m) {
        forall y | y in s && y != x
          ensures Less(x, y)
        {
          if y != m { LessTransitive(x, m, y); }
        }
        assert IsLeast(x, s);
      } else {
        assert IsLeast(m, s);
      }
    } else {
      assert IsLeast(x, s);
    }
  }

  lemma LeastUnique(x: string, y: string, s: set<string>)
    requires IsLeast(x, s) && IsLeast(y, s)
    ensures x == y
  {
    if x != y { LessAsymmetric(x, y); }
  }

  predicate StrictlySorted(s: seq<string>) {
    forall i, j :: 0 <= i < j < |s| ==> Less(s[i], s[j])
  }

  /** Two strictly sorted lists of the same strings are the same list: a
      listing in `sorted` order is determined by its elements. */
  lemma {:induction false} StrictlySortedUnique(a: seq<string>, b: seq<string>)
    requires StrictlySorted(a) && StrictlySorted(b)
    requires forall x :: x in a <==> x in b
    ensures a == b
    decreases |a|
  {
    if a != [] {
      assert a[0] in b;
      var j :| 0 <= j < |b| && b[j] == a[0];
      assert b[0] in a;
      var i :| 0 <= i < |a| && a[i] == b[0];
      if j != 0 && i != 0 {
        LessAsymmetric(a[0], b[0]);
        assert false;
      }
      assert a[0] == b[0];
      forall x
        ensures x in a[1..] <==> x in b[1..]
      {
        if x in a[1..] {
          var i :| 1 <= i < |a| && a[i] == x;
          assert Less(a[0], x);
          LessIrreflexive(x);
          assert x in b && x != b[0];
          var j :| 0 <= j < |b| && b[j] == x;
          assert j != 0;
          assert b[1..][j - 1] == x;
        }
        if x in b[1..] {
          var j :| 1 <= j < |b| && b[j] == x;
          assert Less(b[0], x);
          LessIrreflexive(x);
          assert x in a && x != a[0];
          var i :| 0 <= i < |a| && a[i] == x;
          assert i != 0;
          assert a[1..][i - 1] == x;
        }
      }
      StrictlySortedUnique(a[1..], b[1..]);
      assert a == [a[0]] + a[1..] && b == [b[0]] + b[1..];
    } else {
      HeadIn(b);
    }
  }

  lemma HeadIn(s: seq<string>)
    ensures s != [] ==> s[0] in s
  {
  }

  /** Python's `sorted` on a set of strings: the least remaining element is
      taken until none remains. */
  method Sorted(s: set<string>) returns (r: seq<string>)
    ensures StrictlySorted(r)
    ensures forall x :: x in r <==> x in s
  {
    r := [];
    var rest := s;
    while rest != {}
      invariant StrictlySorted(r)
      invariant forall x :: x in s <==> x in r || x in rest
      invariant forall x, y :: x in r && y in rest ==> Less(x, y)
      invariant forall x :: x in r ==> x !in rest
      decreases |rest|
    {
      LeastExists(rest);
      var m :| IsLeast(m, rest);
      r := r + [m];
      rest := rest - {m};
      forall x, y | x in r && y in rest
        ensures Less(x, y)
      {
        if x == m {
          assert y != m;
        } else {
          assert x in r[..|r| - 1];
          assert Less(x, m) && Less(m, y);
          LessTransitive(x, m, y);
        }
      }
    }
  }
}
