/** The results script: the UI nodes a traversal log names, the system
    service interfaces (SSIs) a logcat dump shows, their union over the
    attempts of one application, and the SSIs not already seen before
    testing. Files are given as their lines; the logcat pattern is a
    parameter that maps a stripped line to its match. */
module LogParser {
  import opened Wrappers
  import opened Strings
  import opened ExplorationGraph

  /** One logcat SSI: transaction kind, interface class and code. */
  type Ssi = (string, string, string)

  // ---------------------------------------------------------------------
  // find_ui

  /** A traversal-log line that splits on the delimiter into exactly two
      parts gives the pair (activity, element); any other line gives
      nothing. */
  function UiOfLine(line: string): Option<(string, string)> {
    var parts := Split(Strip(line, StrWhitespace), Delimiter);
    if |parts| != 2 then None else Some((parts[0], parts[1]))
  }

  /** `find_ui`: the pairs of all lines, as a set. */
  method FindUi(lines: seq<string>) returns (found: set<(string, string)>)
    ensures forall p :: p in found <==> exists k :: 0 <= k < |lines| && UiOfLine(lines[k]) == Some(p)
  {
    found := {};
    var i := 0;
    while i < |lines|
      invariant 0 <= i <= |lines|
      invariant found == Collect(lines[..i], UiOfLine)
    {
      var ui := UiOfLine(lines[i]);
      assert lines[..i + 1][..i] == lines[..i];
      if ui.Some? {
        found := found + {ui.value};
      }
      i := i + 1;
    }
    assert lines[..|lines|] == lines;
    forall p {
      CollectSpec(lines, UiOfLine, p);
    }
  }

  /** The values `f` gives for a list of lines. */
  ghost function Collect<A, B>(xs: seq<A>, f: A -> Option<B>): set<B> {
    if xs == [] then {}
    else
      var y := f(Last(xs));
      Collect(xs[..|xs| - 1], f) + (if y.Some? then {y.value} else {})
  }

  lemma {:induction false} CollectSpec<A, B>(xs: seq<A>, f: A -> Option<B>, p: B)
    ensures p in Collect(xs, f) <==> exists k :: 0 <= k < |xs| && f(xs[k]) == Some(p)
  {
    if xs != [] {
      var init := xs[..|xs| - 1];
      var n := |init|;
      CollectSpec(init, f, p);
      if p in Collect(xs, f) && p !in Collect(init, f) {
        assert f(xs[n]) == Some(p);
      }
      if p in Collect(init, f) {
        var k :| 0 <= k < n && f(init[k]) == Some(p);
        assert init[k] == xs[k];
      }
      if exists k :: 0 <= k < |xs| && f(xs[k]) == Some(p) {
        var k :| 0 <= k < |xs| && f(xs[k]) == Some(p);
        if k < n {
          assert init[k] == xs[k];
        }
      }
    }
  }

  /** The line the driver writes for an element node reads back as its
      activity and its element part, as long as the activity holds no
      delimiter, does not end in `_` and does not start with whitespace. */
  lemma UiOfElementLine(activity: string, className: string, idx: nat)
    requires !Contains(activity, Delimiter) && (activity == [] || Last(activity) != '_')
    requires activity == [] || activity[0] !in StrWhitespace
    requires !Contains(ClassTag(className), Delimiter)
    ensures UiOfLine(ElementId(activity, className, idx) + "\n") ==
      Some((activity, ClassTag(className) + NatToString(idx)))
  {
    var id := ElementId(activity, className, idx);
    var digits := NatToString(idx);
    assert Last(id) == Last(digits) && IsDigit(Last(digits));
    assert id[0] == if activity == [] then '_' else activity[0];
    StripLine(id);
    ElementIdSplit(activity, className, idx);
    UiOfSplit(id + "\n", id, activity, ClassTag(className) + digits);
  }

  lemma SplitWithout(s: string, sep: string)
    requires sep != [] && !Contains(s, sep)
    ensures Split(s, sep) == [s]
  {
    assert s[0..] == s;
  }

  /** The lines for activity nodes, which hold no delimiter, give
      nothing. */
  lemma UiOfActivityLine(activity: string)
    requires !Contains(activity, Delimiter)
    requires activity == [] || (activity[0] !in StrWhitespace && Last(activity) !in StrWhitespace)
    ensures UiOfLine(activity + "\n") == None
  {
    StripLine(activity);
    SplitWithout(activity, Delimiter);
  }

  /** An activity ending in `_` is cut short: the first delimiter of its
      element ids starts one character early, so activity `x_` reads back as
      `x` and the element part gains a leading `_`. */
  lemma UiOfLineMisreads(x: string, className: string, idx: nat)
    requires x != [] && x[0] !in StrWhitespace
    requires !Contains(x, Delimiter) && Last(x) != '_'
    requires !Contains("_" + ClassTag(className), Delimiter)
    ensures UiOfLine(ElementId(x + "_", className, idx) + "\n") ==
      Some((x, "_" + ClassTag(className) + NatToString(idx)))
  {
    var tag := ClassTag(className);
    var digits := NatToString(idx);
    var id := ElementId(x + "_", className, idx);
    var rest := "_" + tag + digits;
    assert id == x + Delimiter + rest;
    NoDelimiterWithDigits("_" + tag, digits);
    SplitOnDelimiter(x, rest);
    assert Last(id) == Last(digits) && IsDigit(Last(digits));
    assert id[0] == x[0];
    StripLine(id);
    UiOfSplit(id + "\n", id, x, rest);
  }

  lemma UiOfSplit(line: string, t: string, a: string, b: string)
    requires Strip(line, StrWhitespace) == t && Split(t, Delimiter) == [a, b]
    ensures UiOfLine(line) == Some((a, b))
  {
  }

  // ---------------------------------------------------------------------
  // find_ssi

  /** A logcat line: skipped when a non-empty process id is given and the
      line does not mention it; otherwise the pattern's match on the
      stripped line. */
  function SsiOfLine(line: string, pid: Option<string>, pattern: string -> Option<Ssi>): Option<Ssi> {
    var l := Strip(line, StrWhitespace);
    if pid.Some? && pid.value != "" && !Contains(l, pid.value) then None else pattern(l)
  }

  /** `find_ssi`: the matches of all lines, as a set. */
  method FindSsi(lines: seq<string>, pid: Option<string>, pattern: string -> Option<Ssi>) returns (found: set<Ssi>)
    ensures forall x :: x in found <==> exists k :: 0 <= k < |lines| && SsiOfLine(lines[k], pid, pattern) == Some(x)
  {
    found := {};
    var i := 0;
    while i < |lines|
      invariant 0 <= i <= |lines|
      invariant forall x :: x in found <==> exists k :: 0 <= k < i && SsiOfLine(lines[k], pid, pattern) == Some(x)
    {
      var line := Strip(lines[i], StrWhitespace);
      if !(pid.Some? && pid.value != "" && !Contains(line, pid.value)) {
        var m := pattern(line);
        if m.Some? {
          found := found + {m.value};
        }
      }
      i := i + 1;
    }
  }

  /** With a process id, every SSI found comes from a line that mentions
      it; without one (or with an empty one), every line the pattern
      matches counts. */
  lemma SsiPidFilter(line: string, pid: Option<string>, pattern: string -> Option<Ssi>)
    ensures pid.Some? && pid.value != "" && SsiOfLine(line, pid, pattern).Some? ==>
      Contains(Strip(line, StrWhitespace), pid.value)
    ensures (pid.None? || pid == Some("")) ==> SsiOfLine(line, pid, pattern) == pattern(Strip(line, StrWhitespace))
  {
  }

  // ---------------------------------------------------------------------
  // Cumulative sets over attempts

  /** The union of the sets of attempts 0 to `k`. */
  function UnionUpTo<T>(perTry: map<int, set<T>>, k: nat): set<T>
    requires forall j :: 0 <= j <= k ==> j in perTry
  {
    if k == 0 then perTry[0] else UnionUpTo(perTry, k - 1) + perTry[k]
  }

  /** Python's `s[i]`: a negative index counts from the end. */
  function PyIndex<T>(s: seq<T>, i: int): Option<T> {
    if 0 <= i < |s| then Some(s[i])
    else if -|s| <= i < 0 then Some(s[|s| + i])
    else None
  }

  /** The cumulative loop: attempt `n` extends the list with the union of
      entry `n - 1` and its own set. `tries` is the sorted list of attempt
      numbers. It succeeds exactly when the attempts are numbered 0, 1, 2,
      … without a gap, and then entry `k` is the union of attempts 0 to
      `k`; otherwise an index is out of range. */
  method Cumulate<T>(tries: seq<int>, perTry: map<int, set<T>>) returns (r: Result<seq<set<T>>, string>)
    requires forall i, j :: 0 <= i < j < |tries| ==> tries[i] < tries[j]
    requires forall k :: 0 <= k < |tries| ==> tries[k] in perTry
    ensures r.Success? <==> forall k :: 0 <= k < |tries| ==> tries[k] == k
    ensures r.Failure? ==> r.error == "IndexError"
    ensures r.Success? ==>
      && (forall k :: 0 <= k < |tries| ==> k in perTry)
      && |r.value| == |tries|
      && forall k :: 0 <= k < |tries| ==> r.value[k] == UnionUpTo(perTry, k)
  {
    var cum: seq<set<T>> := [];
    var k := 0;
    while k < |tries|
      invariant 0 <= k <= |tries| && |cum| == k
      invariant forall j :: 0 <= j < k ==> tries[j] == j
      invariant forall j :: 0 <= j < k ==> j in perTry
      invariant forall j :: 0 <= j < k ==> cum[j] == UnionUpTo(perTry, j)
    {
      var n := tries[k];
      assert k > 0 ==> tries[k - 1] == k - 1 && tries[k - 1] < n;
      if n == 0 {
        cum := cum + [perTry[n]];
      } else {
        var prev := PyIndex(cum, n - 1);
        if prev.None? {
          return Failure("IndexError");
        }
        cum := cum + [prev.value + perTry[n]];
      }
      k := k + 1;
    }
    return Success(cum);
  }

  /** Later entries of the cumulative list contain earlier ones. */
  lemma {:induction false} UnionUpToMonotone<T>(perTry: map<int, set<T>>, i: nat, j: nat)
    requires i <= j && forall k :: 0 <= k <= j ==> k in perTry
    ensures UnionUpTo(perTry, i) <= UnionUpTo(perTry, j)
    decreases j - i
  {
    if i < j {
      UnionUpToMonotone(perTry, i, j - 1);
    }
  }

  /** An item is in entry `k` exactly when some attempt up to `k` found
      it. */
  lemma {:induction false} UnionUpToSpec<T>(perTry: map<int, set<T>>, k: nat, x: T)
    requires forall j :: 0 <= j <= k ==> j in perTry
    ensures x in UnionUpTo(perTry, k) <==> exists j :: 0 <= j <= k && x in perTry[j]
  {
    if k > 0 {
      UnionUpToSpec(perTry, k - 1, x);
    }
  }

  /** The counts printed per attempt never decrease. */
  lemma CountsNondecreasing<T>(perTry: map<int, set<T>>, i: nat, j: nat)
    requires i <= j && forall k :: 0 <= k <= j ==> k in perTry
    ensures |UnionUpTo(perTry, i)| <= |UnionUpTo(perTry, j)|
  {
    UnionUpToMonotone(perTry, i, j);
    SubsetCard(UnionUpTo(perTry, i), UnionUpTo(perTry, j));
  }

  lemma {:induction false} SubsetCard<T>(a: set<T>, b: set<T>)
    requires a <= b
    ensures |a| <= |b|
    decreases |a|
  {
    if a != {} {
      var x :| x in a;
      SubsetCard(a - {x}, b - {x});
    }
  }

  // ---------------------------------------------------------------------
  // New SSIs

  /** The SSIs of the last cumulative entry that were not seen before
      testing; an empty list has no last entry. */
  method SsiNew<T>(cum: seq<set<T>>, before: set<T>) returns (r: Result<set<T>, string>)
    ensures cum == [] <==> r == Failure("IndexError")
    ensures r.Success? ==> forall x :: x in r.value <==> x in Last(cum) && x !in before
  {
    if cum == [] {
      return Failure("IndexError");
    }
    var found := Last(cum);
    var rest := before;
    while rest != {}
      invariant rest <= before
      invariant forall x :: x in found <==> x in Last(cum) && (x !in before || x in rest)
      decreases |rest|
    {
      var item :| item in rest;
      if item in found {
        found := found - {item};
      }
      rest := rest - {item};
    }
    return Success(found);
  }
}
