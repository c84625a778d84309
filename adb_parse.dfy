/** The parsers over `adb shell` output: the focus line of `dumpsys window
    windows`, the foreground package and activity read from it, and the
    substring tests behind `is_installed` and the keyboard checks. The
    regular-expression searches are written out as scans whose results are
    the positions of the match. */
module AdbParse {
  import opened Wrappers
  import opened Strings

  const Newline: char := '\n'

  /** The last index in `[lo, hi)` holding `c`. */
  function LastIn(s: string, c: char, lo: nat, hi: nat): (r: Option<nat>)
    requires lo <= hi <= |s|
    ensures r.Some? ==> lo <= r.value < hi && s[r.value] == c
    decreases hi - lo
  {
    if lo == hi then None
    else if s[hi - 1] == c then Some(hi - 1)
    else LastIn(s, c, lo, hi - 1)
  }

  lemma {:induction false} LastInSpec(s: string, c: char, lo: nat, hi: nat)
    requires lo <= hi <= |s|
    ensures var r := LastIn(s, c, lo, hi);
      && (r.None? ==> forall k :: lo <= k < hi ==> s[k] != c)
      && (r.Some? ==> forall k :: r.value < k < hi ==> s[k] != c)
    decreases hi - lo
  {
    if lo < hi && s[hi - 1] != c {
      LastInSpec(s, c, lo, hi - 1);
    }
  }

  // ---------------------------------------------------------------------
  // get_window_dumpsys: `search(kw + '.*}', out)`

  /** The end of the line that position `p` lies on. */
  function LineEnd(s: string, p: nat): nat
    requires p <= |s|
  {
    ScanTo(s, p, {Newline})
  }

  /** `kw.*}` matches `s[p..q + 1]`: the keyword stands at `p`, and `q` is
      the last `}` after it on the same line (`.` stops at a newline and
      `.*` is greedy). */
  predicate GreedyMatch(s: string, kw: string, p: nat, q: nat) {
    && OccursAt(s, kw, p)
    && p + |kw| <= q < LineEnd(s, p + |kw|)
    && s[q] == '}'
    && forall k :: q < k < LineEnd(s, p + |kw|) ==> s[k] != '}'
  }

  /** The greedy match of `kw.*}` at `p`, as the index of its closing `}`. */
  function GreedyAt(s: string, kw: string, p: nat): Option<nat>
    requires p <= |s|
  {
    if OccursAt(s, kw, p) then LastIn(s, '}', p + |kw|, LineEnd(s, p + |kw|)) else None
  }

  /** The leftmost greedy match of `kw.*}` starting at or after `from`, as
      the positions of its first and last characters. */
  function SearchGreedy(s: string, kw: string, from: nat): (r: Option<(nat, nat)>)
    requires from <= |s|
    ensures r.Some? ==> from <= r.value.0 <= r.value.1 < |s|
    decreases |s| - from
  {
    match GreedyAt(s, kw, from)
    case Some(q) => Some((from, q))
    case None => if from == |s| then None else SearchGreedy(s, kw, from + 1)
  }

  lemma GreedyAtSpec(s: string, kw: string, p: nat)
    requires p <= |s|
    ensures GreedyAt(s, kw, p).Some? ==> GreedyMatch(s, kw, p, GreedyAt(s, kw, p).value)
    ensures GreedyAt(s, kw, p).None? ==> forall q: nat :: !GreedyMatch(s, kw, p, q)
  {
    if OccursAt(s, kw, p) {
      LastInSpec(s, '}', p + |kw|, LineEnd(s, p + |kw|));
    }
  }

  /** `SearchGreedy` stops at the leftmost position whose match
      succeeds. */
  lemma {:induction false} SearchGreedySpec(s: string, kw: string, from: nat)
    requires from <= |s|
    ensures var r := SearchGreedy(s, kw, from);
      && (r.Some? ==> GreedyAt(s, kw, r.value.0) == Some(r.value.1))
      && (r.Some? ==> forall p: nat :: from <= p < r.value.0 ==> GreedyAt(s, kw, p).None?)
      && (r.None? ==> forall p: nat :: from <= p <= |s| ==> GreedyAt(s, kw, p).None?)
    decreases |s| - from
  {
    if GreedyAt(s, kw, from).None? && from < |s| {
      SearchGreedySpec(s, kw, from + 1);
    }
  }

  /** The text `search(kw + '.*}', out).group(0)`, if there is a match. */
  function SearchFocus(out: string, kw: string): Option<string> {
    match SearchGreedy(out, kw, 0)
    case None => None
    case Some((p, q)) => Some(out[p..q + 1])
  }

  /** `get_window_dumpsys`: the `mCurrentFocus` match, else the
      `mFocusedApp` match, else the `mObscuring` match, else `''`. */
  function WindowDumpsys(out: string): string {
    match SearchFocus(out, "mCurrentFocus")
    case Some(m) => m
    case None =>
      match SearchFocus(out, "mFocusedApp")
      case Some(m) => m
      case None =>
        match SearchFocus(out, "mObscuring")
        case Some(m) => m
        case None => ""
  }

  /** There is a match for a keyword exactly when some position starts one. */
  lemma SearchFocusSpec(out: string, kw: string)
    ensures SearchFocus(out, kw).Some? <==> exists p: nat, q: nat :: GreedyMatch(out, kw, p, q)
  {
    SearchGreedySpec(out, kw, 0);
    if SearchFocus(out, kw).Some? {
      var (p, q) := SearchGreedy(out, kw, 0).value;
      GreedyAtSpec(out, kw, p);
    } else {
      forall p: nat, q: nat
        ensures !GreedyMatch(out, kw, p, q)
      {
        if p <= |out| {
          GreedyAtSpec(out, kw, p);
        }
      }
    }
  }

  /** A match runs from the keyword to a closing brace, on one line. */
  lemma SearchFocusShape(out: string, kw: string)
    requires SearchFocus(out, kw).Some? && Newline !in kw
    ensures var m := SearchFocus(out, kw).value;
      StartsWith(m, kw) && Last(m) == '}' && Newline !in m
  {
    SearchGreedySpec(out, kw, 0);
    var (p, q) := SearchGreedy(out, kw, 0).value;
    GreedyAtSpec(out, kw, p);
    GreedyShape(out, kw, p, q);
  }

  lemma GreedyShape(s: string, kw: string, p: nat, q: nat)
    requires GreedyMatch(s, kw, p, q) && Newline !in kw
    ensures StartsWith(s[p..q + 1], kw) && Last(s[p..q + 1]) == '}' && Newline !in s[p..q + 1]
  {
    var m := s[p..q + 1];
    assert m[..|kw|] == s[p..p + |kw|];
    ScanToSpec(s, p + |kw|, {Newline});
    forall k | 0 <= k < |m|
      ensures m[k] != Newline
    {
      assert m[k] == s[p + k];
      if k < |kw| {
        assert m[k] == kw[k];
      }
    }
  }

  /** The keyword order decides: a later keyword is only consulted when
      every earlier one has no match, and no match at all gives `''`. */
  lemma WindowDumpsysPrecedence(out: string)
    ensures SearchFocus(out, "mCurrentFocus").Some? ==>
      WindowDumpsys(out) == SearchFocus(out, "mCurrentFocus").value
    ensures SearchFocus(out, "mCurrentFocus").None? && SearchFocus(out, "mFocusedApp").Some? ==>
      WindowDumpsys(out) == SearchFocus(out, "mFocusedApp").value
    ensures (SearchFocus(out, "mCurrentFocus").None? && SearchFocus(out, "mFocusedApp").None?
             && SearchFocus(out, "mObscuring").Some?) ==>
      WindowDumpsys(out) == SearchFocus(out, "mObscuring").value
    ensures WindowDumpsys(out) == "" <==>
      SearchFocus(out, "mCurrentFocus").None? && SearchFocus(out, "mFocusedApp").None?
        && SearchFocus(out, "mObscuring").None?
  {
    if SearchFocus(out, "mCurrentFocus").Some? {
      SearchFocusShape(out, "mCurrentFocus");
    } else if SearchFocus(out, "mFocusedApp").Some? {
      SearchFocusShape(out, "mFocusedApp");
    } else if SearchFocus(out, "mObscuring").Some? {
      SearchFocusShape(out, "mObscuring");
    }
  }

  // ---------------------------------------------------------------------
  // The runs after `Window{`: `(?<=Window{).*?(?=X)`

  const WindowMarker: string := "Window{"

  /** The lazy run starting at `p`: it ends at the first character in
      `stops`, provided no newline comes before it. */
  function LazyAt(s: string, p: nat, stops: set<char>): Option<nat>
    requires p <= |s|
  {
    var q := ScanTo(s, p, stops + {Newline});
    if q < |s| && s[q] in stops then Some(q) else None
  }

  /** `(?<=m).*?(?=[stops])` matches `s[p..q]`: `m` ends at `p`, and `q` is
      the first stop after `p`, with no newline in between. */
  predicate LazyMatch(s: string, m: string, stops: set<char>, p: nat, q: nat) {
    && |m| <= p <= q < |s|
    && s[p - |m|..p] == m
    && s[q] in stops
    && forall k :: p <= k < q ==> s[k] !in stops && s[k] != Newline
  }

  /** The lazy run at `p`, when the marker `m` ends right before `p`. */
  function LazyRunAt(s: string, m: string, stops: set<char>, p: nat): Option<nat>
    requires p <= |s|
  {
    if |m| <= p && s[p - |m|..p] == m then LazyAt(s, p, stops) else None
  }

  /** The leftmost lazy run starting at or after `from`, as the positions
      of its first character and of the stop that ends it. */
  function SearchLazy(s: string, m: string, stops: set<char>, from: nat): (r: Option<(nat, nat)>)
    requires from <= |s|
    ensures r.Some? ==> from <= r.value.0 <= r.value.1 < |s|
    decreases |s| - from
  {
    match LazyRunAt(s, m, stops, from)
    case Some(q) => Some((from, q))
    case None => if from == |s| then None else SearchLazy(s, m, stops, from + 1)
  }

  lemma LazyRunAtSpec(s: string, m: string, stops: set<char>, p: nat)
    requires p <= |s|
    ensures LazyRunAt(s, m, stops, p).Some? ==> LazyMatch(s, m, stops, p, LazyRunAt(s, m, stops, p).value)
    ensures LazyRunAt(s, m, stops, p).None? ==> forall q: nat :: !LazyMatch(s, m, stops, p, q)
  {
    ScanToSpec(s, p, stops + {Newline});
  }

  /** `SearchLazy` stops at the leftmost position whose run succeeds. */
  lemma {:induction false} SearchLazySpec(s: string, m: string, stops: set<char>, from: nat)
    requires from <= |s|
    ensures var r := SearchLazy(s, m, stops, from);
      && (r.Some? ==> LazyRunAt(s, m, stops, r.value.0) == Some(r.value.1))
      && (r.Some? ==> forall p: nat :: from <= p < r.value.0 ==> LazyRunAt(s, m, stops, p).None?)
      && (r.None? ==> forall p: nat :: from <= p <= |s| ==> LazyRunAt(s, m, stops, p).None?)
    decreases |s| - from
  {
    if LazyRunAt(s, m, stops, from).None? && from < |s| {
      SearchLazySpec(s, m, stops, from + 1);
    }
  }

  /** The text of the first run after `Window{` that ends at a stop. */
  function WindowRun(dumpsys: string, stops: set<char>): Option<string> {
    match SearchLazy(dumpsys, WindowMarker, stops, 0)
    case None => None
    case Some((p, q)) => Some(dumpsys[p..q])
  }

  /** There is a run exactly when some marker occurrence has one; the run
      returned is that of the leftmost such occurrence. */
  lemma WindowRunSpec(dumpsys: string, stops: set<char>)
    ensures WindowRun(dumpsys, stops).Some? <==>
      exists p: nat, q: nat :: LazyMatch(dumpsys, WindowMarker, stops, p, q)
    ensures WindowRun(dumpsys, stops).Some? ==>
      exists p: nat, q: nat ::
        && LazyMatch(dumpsys, WindowMarker, stops, p, q)
        && WindowRun(dumpsys, stops).value == dumpsys[p..q]
        && forall p': nat, q': nat :: p' < p ==> !LazyMatch(dumpsys, WindowMarker, stops, p', q')
  {
    var m := WindowMarker;
    SearchLazySpec(dumpsys, m, stops, 0);
    match SearchLazy(dumpsys, m, stops, 0)
    case Some((p, q)) =>
      LazyRunAtSpec(dumpsys, m, stops, p);
      forall p': nat, q': nat | p' < p
        ensures !LazyMatch(dumpsys, m, stops, p', q')
      {
        LazyRunAtSpec(dumpsys, m, stops, p');
      }
    case None =>
      forall p': nat, q': nat | p' <= |dumpsys|
        ensures !LazyMatch(dumpsys, m, stops, p', q')
      {
        LazyRunAtSpec(dumpsys, m, stops, p');
      }
  }

  /** No character of a run is a stop or a newline. */
  lemma WindowRunChars(dumpsys: string, stops: set<char>)
    requires WindowRun(dumpsys, stops).Some?
    ensures forall c :: c in WindowRun(dumpsys, stops).value ==> c !in stops && c != Newline
  {
    var m := WindowMarker;
    SearchLazySpec(dumpsys, m, stops, 0);
    var (p, q) := SearchLazy(dumpsys, m, stops, 0).value;
    LazyRunAtSpec(dumpsys, m, stops, p);
    RunChars(dumpsys, m, stops, p, q);
  }

  lemma RunChars(s: string, m: string, stops: set<char>, p: nat, q: nat)
    requires LazyMatch(s, m, stops, p, q)
    ensures forall c :: c in s[p..q] ==> c !in stops && c != Newline
  {
    var run := s[p..q];
    forall c | c in run
      ensures c !in stops && c != Newline
    {
      var k :| 0 <= k < |run| && run[k] == c;
      assert s[p + k] == c;
    }
  }

  /** `get_foreground_package_name`, on the output of `get_window_dumpsys`:
      the last space-separated token of the run up to `/` or `}`. */
  function ForegroundPackageName(dumpsys: string): Option<string> {
    match WindowRun(dumpsys, {'/', '}'})
    case None => None
    case Some(d) => Some(Last(Split(d, " ")))
  }

  /** `get_foreground_activity_name`: the part after the last `/` of the run
      up to `}`; an empty run counts as no answer. */
  function ForegroundActivityName(dumpsys: string): Option<string> {
    match WindowRun(dumpsys, {'}'})
    case None => None
    case Some(d) => if d == "" then None else Some(Last(Split(d, "/")))
  }

  /** The package is the tail of its run after the last space, and contains
      no space, slash, brace or newline. */
  lemma ForegroundPackageNameSpec(dumpsys: string)
    ensures ForegroundPackageName(dumpsys).Some? <==> WindowRun(dumpsys, {'/', '}'}).Some?
    ensures ForegroundPackageName(dumpsys).Some? ==>
      var pkg := ForegroundPackageName(dumpsys).value;
      var run := WindowRun(dumpsys, {'/', '}'}).value;
      && EndsWith(run, pkg) && !Contains(pkg, " ")
      && (Contains(run, " ") ==> EndsWith(run[..|run| - |pkg|], " "))
      && forall c :: c in pkg ==> c != '/' && c != '}' && c != Newline
  {
    if WindowRun(dumpsys, {'/', '}'}).Some? {
      var run := WindowRun(dumpsys, {'/', '}'}).value;
      WindowRunChars(dumpsys, {'/', '}'});
      SplitLast(run, " ");
      InSuffix(run, Last(Split(run, " ")));
    }
  }

  /** The activity is the tail of its run after the last slash, and the run
      was not empty. */
  lemma ForegroundActivityNameSpec(dumpsys: string)
    ensures ForegroundActivityName(dumpsys).Some? <==>
      WindowRun(dumpsys, {'}'}).Some? && WindowRun(dumpsys, {'}'}).value != ""
    ensures ForegroundActivityName(dumpsys).Some? ==>
      var act := ForegroundActivityName(dumpsys).value;
      var run := WindowRun(dumpsys, {'}'}).value;
      && EndsWith(run, act) && !Contains(act, "/")
      && (Contains(run, "/") ==> EndsWith(run[..|run| - |act|], "/"))
      && forall c :: c in act ==> c != '}' && c != Newline
  {
    if ForegroundActivityName(dumpsys).Some? {
      var run := WindowRun(dumpsys, {'}'}).value;
      WindowRunChars(dumpsys, {'}'});
      SplitLast(run, "/");
      InSuffix(run, Last(Split(run, "/")));
    }
  }

  lemma InSuffix(s: string, t: string)
    requires EndsWith(s, t)
    ensures forall c :: c in t ==> c in s
  {
    forall c | c in t
      ensures c in s
    {
      var k :| 0 <= k < |t| && t[k] == c;
      assert s[|s| - |t| + k] == c;
    }
  }

  /** `is_in_foreground`: `dumpsys` is the window dump, or `None` when the
      query raised, which the source reports as false. */
  function IsInForeground(pkg: string, dumpsys: Option<string>): (r: bool)
    ensures r <==> dumpsys.Some? && ForegroundPackageName(dumpsys.value) == Some(pkg)
  {
    match dumpsys
    case None => false
    case Some(d) =>
      match ForegroundPackageName(d)
      case Some(fg) => fg == pkg
      case None => false
  }

  // ---------------------------------------------------------------------
  // is_installed: `search('package:' + pkg_name, out)`

  /** `pattern` matches at `i`, where `.` stands for any character but a
      newline and every other character for itself. */
  predicate PatternAt(s: string, pattern: string, i: nat) {
    && i + |pattern| <= |s|
    && forall k :: 0 <= k < |pattern| ==>
         if pattern[k] == '.' then s[i + k] != Newline else s[i + k] == pattern[k]
  }

  /** The regular-expression search, scanning from `from`. */
  function SearchPattern(s: string, pattern: string, from: nat): bool
    requires from <= |s|
    decreases |s| - from
  {
    PatternAt(s, pattern, from) || (from < |s| && SearchPattern(s, pattern, from + 1))
  }

  lemma {:induction false} SearchPatternSpec(s: string, pattern: string, from: nat)
    requires from <= |s|
    ensures SearchPattern(s, pattern, from) <==> exists i :: from <= i && PatternAt(s, pattern, i)
    decreases |s| - from
  {
    if from < |s| {
      SearchPatternSpec(s, pattern, from + 1);
      if exists i :: from <= i && PatternAt(s, pattern, i) {
        var i :| from <= i && PatternAt(s, pattern, i);
        if i != from {
          assert from + 1 <= i;
        }
      }
    }
  }

  /** `is_installed(pkg_name)` on the output of `pm list packages`. */
  function IsInstalled(out: string, pkg: string): bool {
    SearchPattern(out, "package:" + pkg, 0)
  }

  lemma PatternAtOfOccurs(s: string, pattern: string, i: nat)
    requires OccursAt(s, pattern, i)
    ensures PatternAt(s, pattern, i)
  {
    forall k | 0 <= k < |pattern|
      ensures s[i + k] == pattern[k]
    {
      assert s[i..i + |pattern|][k] == s[i + k];
    }
  }

  /** A listed package is reported installed. */
  lemma IsInstalledWhenListed(out: string, pkg: string)
    requires Contains(out, "package:" + pkg)
    ensures IsInstalled(out, pkg)
  {
    var pat := "package:" + pkg;
    FindSpec(out, pat);
    PatternAtOfOccurs(out, pat, Find(out, pat).value);
    SearchPatternSpec(out, pat, 0);
  }

  /** Without a `.` in the name, the search is exactly the substring test. */
  lemma IsInstalledLiteral(out: string, pkg: string)
    requires '.' !in pkg
    ensures IsInstalled(out, pkg) <==> Contains(out, "package:" + pkg)
  {
    var pat := "package:" + pkg;
    SearchPatternSpec(out, pat, 0);
    ContainsIff(out, pat);
    if IsInstalled(out, pkg) {
      var i: nat :| PatternAt(out, pat, i);
      forall k | 0 <= k < |pat|
        ensures out[i..i + |pat|][k] == pat[k]
      {
        assert pat[k] != '.' by {
          if k >= 8 { assert pat[k] == pkg[k - 8]; }
        }
      }
      assert OccursAt(out, pat, i);
    } else if Contains(out, pat) {
      IsInstalledWhenListed(out, pkg);
    }
  }

  /** Each `.` of a name matches any character, so another package can be
      taken for it. */
  lemma IsInstalledWildcard(out: string, x: string, y: string, c: char)
    requires c != Newline && Contains(out, "package:" + x + [c] + y)
    ensures IsInstalled(out, x + "." + y)
  {
    var lit := "package:" + x + [c] + y;
    var pat := "package:" + (x + "." + y);
    FindSpec(out, lit);
    var i := Find(out, lit).value;
    assert |lit| == |pat|;
    forall k | 0 <= k < |pat|
      ensures if pat[k] == '.' then out[i + k] != Newline else out[i + k] == pat[k]
    {
      assert out[i + k] == out[i..i + |lit|][k] == lit[k];
      if k != 8 + |x| {
        assert pat[k] == lit[k];
      }
    }
    assert PatternAt(out, pat, i);
    SearchPatternSpec(out, pat, 0);
  }

  /** A name is also reported installed when only a longer package that it
      is a prefix of is listed. */
  lemma IsInstalledPrefix(out: string, pkg: string, rest: string)
    requires Contains(out, "package:" + pkg + rest)
    ensures IsInstalled(out, pkg)
  {
    var long := "package:" + pkg + rest;
    var pat := "package:" + pkg;
    FindSpec(out, long);
    var i := Find(out, long).value;
    assert out[i..i + |pat|] == long[..|pat|] == pat;
    IsInstalledWhenListedAt(out, pkg, i);
  }

  lemma IsInstalledWhenListedAt(out: string, pkg: string, i: nat)
    requires OccursAt(out, "package:" + pkg, i)
    ensures IsInstalled(out, pkg)
  {
    PatternAtOfOccurs(out, "package:" + pkg, i);
    SearchPatternSpec(out, "package:" + pkg, 0);
  }

  // ---------------------------------------------------------------------
  // The keyboard checks on `dumpsys input_method`

  /** `is_keyboard_numeric`. */
  function IsKeyboardNumeric(out: string): (r: bool)
    ensures r <==> exists i: nat :: OccursAt(out, "Keyboard mode = 5", i)
  {
    ContainsIff(out, "Keyboard mode = 5");
    Contains(out, "Keyboard mode = 5")
  }

  /** `is_keyboard_shown`. */
  function IsKeyboardShown(out: string): (r: bool)
    ensures r <==> exists i: nat :: OccursAt(out, "mInputShown=true", i)
  {
    ContainsIff(out, "mInputShown=true");
    Contains(out, "mInputShown=true")
  }
}
