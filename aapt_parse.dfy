/** The extraction over `aapt dump badging` output: the quoted values after
    `package: name='` and `launchable-activity: name='`, as Python's
    `findall("(?<=marker)[^']*", output)` returns them. */
module AaptParse {
  import opened Wrappers
  import opened Strings

  const Quote: char := '\''
  const PackageMarker: string := "package: name='"
  const ActivityMarker: string := "launchable-activity: name='"

  /** The lookbehind `(?<=m)` holds at `p`: `m` ends right before `p`. */
  predicate Behind(s: string, m: string, p: nat) {
    |m| <= p <= |s| && s[p - |m|..p] == m
  }

  /** `[^']*` at `p`: the longest run of non-quote characters, which may
      cross lines. */
  function QuotedRun(s: string, p: nat): (r: string)
    requires p <= |s|
    ensures Quote !in r
    ensures p + |r| <= |s| && s[p..p + |r|] == r
    ensures p + |r| == |s| || s[p + |r|] == Quote
  {
    ScanToSpec(s, p, {Quote});
    s[p..ScanTo(s, p, {Quote})]
  }

  /** `findall` from the cursor `pos`: at the first position where the
      lookbehind holds, take the run, and go on from its end (one past it
      when the run is empty). */
  function FindAll(s: string, m: string, pos: nat): seq<string>
    decreases |s| + 1 - pos
  {
    if pos > |s| then []
    else if Behind(s, m, pos) then
      var q := ScanTo(s, pos, {Quote});
      [s[pos..q]] + FindAll(s, m, if q == pos then pos + 1 else q)
    else FindAll(s, m, pos + 1)
  }

  /** One run for each position the marker ends at, in text order. */
  function AllRuns(s: string, m: string, pos: nat): seq<string>
    decreases |s| + 1 - pos
  {
    if pos > |s| then []
    else (if Behind(s, m, pos) then [QuotedRun(s, pos)] else []) + AllRuns(s, m, pos + 1)
  }

  lemma {:induction false} AllRunsSkip(s: string, m: string, a: nat, b: nat)
    requires a <= b <= |s| + 1
    requires forall p: nat :: a <= p < b ==> !Behind(s, m, p)
    ensures AllRuns(s, m, a) == AllRuns(s, m, b)
    decreases b - a
  {
    if a < b {
      AllRunsSkip(s, m, a + 1, b);
      assert AllRuns(s, m, a) == [] + AllRuns(s, m, a + 1);
    }
  }

  /** For a marker ending in a quote, `findall` yields exactly one run per
      marker occurrence: no occurrence can end inside a run, since a run
      holds no quote. */
  lemma {:induction false} FindAllRuns(s: string, m: string, pos: nat)
    requires m != [] && Last(m) == Quote
    ensures FindAll(s, m, pos) == AllRuns(s, m, pos)
    decreases |s| + 1 - pos
  {
    if pos <= |s| {
      if Behind(s, m, pos) {
        var q := ScanTo(s, pos, {Quote});
        ScanToSpec(s, pos, {Quote});
        if q == pos {
          FindAllRuns(s, m, pos + 1);
        } else {
          FindAllRuns(s, m, q);
          forall p: nat | pos + 1 <= p < q
            ensures !Behind(s, m, p)
          {
            NotBehindInRun(s, m, p);
          }
          AllRunsSkip(s, m, pos + 1, q);
        }
      } else {
        FindAllRuns(s, m, pos + 1);
        assert AllRuns(s, m, pos) == [] + AllRuns(s, m, pos + 1);
      }
    }
  }

  /** A marker ending in a quote cannot end right after a non-quote. */
  lemma NotBehindInRun(s: string, m: string, p: nat)
    requires m != [] && Last(m) == Quote && 1 <= p <= |s| && s[p - 1] != Quote
    ensures !Behind(s, m, p)
  {
    if |m| <= p {
      assert s[p - |m|..p][|m| - 1] == s[p - 1];
    }
  }

  /** There are runs exactly when the marker occurs, and the first run is
      the one after the first occurrence. */
  lemma AllRunsFirst(s: string, m: string)
    ensures AllRuns(s, m, 0) != [] <==> Contains(s, m)
    ensures Contains(s, m) ==> AllRuns(s, m, 0)[0] == QuotedRun(s, Find(s, m).value + |m|)
  {
    FindSpec(s, m);
    match Find(s, m)
    case None =>
      NoRunBefore(s, m, |s| + 1);
    case Some(i) =>
      NoRunBefore(s, m, i + |m|);
      assert Behind(s, m, i + |m|);
  }

  /** Positions before the end of the first marker occurrence start no
      run. */
  lemma NoRunBefore(s: string, m: string, b: nat)
    requires b <= |s| + 1
    requires forall j: nat :: j + |m| < b ==> !OccursAt(s, m, j)
    ensures AllRuns(s, m, 0) == AllRuns(s, m, b)
  {
    forall p: nat | 0 <= p < b
      ensures !Behind(s, m, p)
    {
      assert Behind(s, m, p) ==> OccursAt(s, m, p - |m|);
    }
    AllRunsSkip(s, m, 0, b);
  }

  /** No run holds a quote. */
  lemma {:induction false} AllRunsNoQuote(s: string, m: string, pos: nat)
    ensures forall k :: 0 <= k < |AllRuns(s, m, pos)| ==> Quote !in AllRuns(s, m, pos)[k]
    decreases |s| + 1 - pos
  {
    if pos <= |s| {
      AllRunsNoQuote(s, m, pos + 1);
    }
  }

  /** `get_package_name`: the first `findall` result, or the `IndexError`
      of an empty result. */
  function GetPackageName(output: string): Result<string, string> {
    var names := FindAll(output, PackageMarker, 0);
    if names == [] then Failure("IndexError") else Success(names[0])
  }

  /** `get_launchable_activityList`: every `findall` result. */
  function GetLaunchableActivities(output: string): seq<string> {
    FindAll(output, ActivityMarker, 0)
  }

  /** The package name is the quoted run after the first marker, and the
      call fails exactly when there is no marker. */
  lemma GetPackageNameSpec(output: string)
    ensures GetPackageName(output).Failure? <==> !Contains(output, PackageMarker)
    ensures GetPackageName(output).Success? ==>
      GetPackageName(output).value == QuotedRun(output, Find(output, PackageMarker).value + |PackageMarker|)
  {
    FindAllRuns(output, PackageMarker, 0);
    AllRunsFirst(output, PackageMarker);
  }

  /** The activities are one run per marker occurrence, in text order, and
      none contains a quote. */
  lemma GetLaunchableActivitiesSpec(output: string)
    ensures GetLaunchableActivities(output) == AllRuns(output, ActivityMarker, 0)
    ensures GetLaunchableActivities(output) == [] <==> !Contains(output, ActivityMarker)
    ensures forall k :: 0 <= k < |GetLaunchableActivities(output)| ==>
      Quote !in GetLaunchableActivities(output)[k]
  {
    FindAllRuns(output, ActivityMarker, 0);
    AllRunsFirst(output, ActivityMarker);
    AllRunsNoQuote(output, ActivityMarker, 0);
  }

  /** A package name may be empty. */
  lemma EmptyPackageName()
    ensures GetPackageName(PackageMarker + "'") == Success("")
  {
    var s := PackageMarker + "'";
    GetPackageNameSpec(s);
    assert OccursAt(s, PackageMarker, 0);
    FindSpec(s, PackageMarker);
    assert QuotedRun(s, |PackageMarker|) == "";
  }
}
