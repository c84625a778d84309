/** Helpers shared by the tester: finding the APKs to test, reading the
    serials out of `adb devices`, dropping already tested packages, and the
    first-match lookup the parsers use. */
module Commons {
  import opened Wrappers
  import opened Strings

  // ---------------------------------------------------------------------
  // Sequences without repeats

  predicate NoDup<T(==)>(s: seq<T>) {
    forall i, j :: 0 <= i < j < |s| ==> s[i] != s[j]
  }

  /** The index of the first occurrence of `x` in `s`. */
  function FirstIndex<T(==)>(s: seq<T>, x: T): (i: nat)
    requires x in s
    ensures i < |s| && s[i] == x
  {
    if s[0] == x then 0 else 1 + FirstIndex(s[1..], x)
  }

  lemma {:induction false} FirstIndexBefore<T>(s: seq<T>, x: T, i: nat)
    requires i < |s| && s[i] == x
    ensures FirstIndex(s, x) <= i
  {
    if s[0] != x {
      FirstIndexBefore(s[1..], x, i - 1);
    }
  }

  lemma {:induction false} FirstIndexPrefix<T>(s: seq<T>, z: T, x: T)
    requires x in s
    ensures FirstIndex(s + [z], x) == FirstIndex(s, x)
  {
    if s[0] != x {
      assert (s + [z])[1..] == s[1..] + [z];
      FirstIndexPrefix(s[1..], z, x);
    }
  }

  /** The list the de-duplicating loop builds: each element the first time
      it is seen. */
  function Dedupe<T(==)>(s: seq<T>): seq<T> {
    if s == [] then []
    else
      var d := Dedupe(s[..|s| - 1]);
      if Last(s) in d then d else d + [Last(s)]
  }

  /** `Dedupe` keeps exactly the elements of its input, each once, in the
      order of their first occurrence. */
  lemma {:induction false} DedupeSpec<T>(s: seq<T>)
    ensures var d := Dedupe(s);
      && NoDup(d)
      && (forall x :: x in d <==> x in s)
      && (forall i, j :: 0 <= i < j < |d| ==> FirstIndex(s, d[i]) < FirstIndex(s, d[j]))
    decreases |s|
  {
    if s != [] {
      var front := s[..|s| - 1];
      DedupeSpec(front);
      DedupeStep(front, Last(s), Dedupe(front));
      assert s == front + [Last(s)];
    }
  }

  /** One more element keeps the `Dedupe` facts. */
  lemma DedupeStep<T>(front: seq<T>, z: T, df: seq<T>)
    requires NoDup(df) && (forall x :: x in df <==> x in front)
    requires forall i, j :: 0 <= i < j < |df| ==> FirstIndex(front, df[i]) < FirstIndex(front, df[j])
    ensures var s := front + [z]; var d := if z in df then df else df + [z];
      && NoDup(d)
      && (forall x :: x in d <==> x in s)
      && (forall i, j :: 0 <= i < j < |d| ==> FirstIndex(s, d[i]) < FirstIndex(s, d[j]))
  {
    var s := front + [z];
    var d := if z in df then df else df + [z];
    forall i, j | 0 <= i < j < |d|
      ensures FirstIndex(s, d[i]) < FirstIndex(s, d[j])
    {
      assert d[i] == df[i];
      assert df[i] in front;
      FirstIndexPrefix(front, z, d[i]);
      if j < |df| {
        FirstIndexPrefix(front, z, d[j]);
      } else {
        assert d[j] == z && z !in front;
        FirstIndexLast(front, z);
      }
    }
  }

  lemma FirstIndexLast<T>(front: seq<T>, z: T)
    requires z !in front
    ensures FirstIndex(front + [z], z) == |front|
  {
    FirstIndexBefore(front + [z], z, |front|);
  }

  // ---------------------------------------------------------------------
  // find_apks

  predicate IsApkPath(path: string) {
    EndsWith(path, ".apk")
  }

  /** The APKs `find_apks` returns: the path itself when it names an APK,
      otherwise the recursive glob's results without repeats. */
  function FoundApks(path: string, globbed: seq<string>): seq<string> {
    if IsApkPath(path) then [path] else Dedupe(globbed)
  }

  /** `find_apks(path)`, with `globbed` the results of the recursive glob
      for APK files under `path`, in the order the glob yields them. */
  method FindApks(path: string, globbed: seq<string>) returns (apks: seq<string>)
    ensures IsApkPath(path) ==> apks == [path]
    ensures !IsApkPath(path) ==> apks == Dedupe(globbed)
  {
    if IsApkPath(path) {
      return [path];
    }
    apks := [];
    for i := 0 to |globbed|
      invariant apks == Dedupe(globbed[..i])
    {
      assert globbed[..i + 1][..i] == globbed[..i];
      if globbed[i] !in apks {
        apks := apks + [globbed[i]];
      }
    }
    assert globbed[..|globbed|] == globbed;
  }

  /** Every found APK is a glob result or the path itself, none repeats, and
      every glob result is found. */
  lemma FoundApksSpec(path: string, globbed: seq<string>)
    ensures NoDup(FoundApks(path, globbed))
    ensures !IsApkPath(path) ==> forall x :: x in FoundApks(path, globbed) <==> x in globbed
  {
    DedupeSpec(globbed);
  }

  // ---------------------------------------------------------------------
  // get_device_serials

  /** The text of one `adb devices` line after `strip()` on its bytes. */
  function DeviceLine(raw: string): string {
    Strip(raw, BytesWhitespace)
  }

  /** A line that names a device: not the header, and mentioning `device`. */
  predicate NamesDevice(raw: string) {
    !Contains(DeviceLine(raw), "List") && Contains(DeviceLine(raw), "device")
  }

  /** The serial on a device line: the text before its first tab. */
  function SerialOf(raw: string): string {
    Split(DeviceLine(raw), "\t")[0]
  }

  /** The serials collected from the lines, in line order. */
  function Serials(lines: seq<string>): seq<string> {
    if lines == [] then []
    else
      var front := Serials(lines[..|lines| - 1]);
      if NamesDevice(Last(lines)) then front + [SerialOf(Last(lines))] else front
  }

  /** `get_device_serials()`, with `lines` the output lines of `adb devices`
      and `exitCode` its exit status; a non-zero status is the error the
      source raises. */
  method GetDeviceSerials(exitCode: int, lines: seq<string>) returns (r: Result<seq<string>, string>)
    ensures exitCode != 0 ==> r == Failure("getDevices() failed!")
    ensures exitCode == 0 ==> r == Success(Serials(lines))
  {
    if exitCode != 0 {
      return Failure("getDevices() failed!");
    }
    var devices: seq<string> := [];
    for i := 0 to |lines|
      invariant devices == Serials(lines[..i])
    {
      assert lines[..i + 1][..i] == lines[..i];
      var line := Strip(lines[i], BytesWhitespace);
      if Contains(line, "List") {
        continue;
      }
      if Contains(line, "device") {
        devices := devices + [Split(line, "\t")[0]];
      }
    }
    assert lines[..|lines|] == lines;
    return Success(devices);
  }

  /** Serials are collected line by line: the result for two blocks of
      lines is the result for the first followed by that for the second. */
  lemma {:induction false} SerialsAppend(a: seq<string>, b: seq<string>)
    ensures Serials(a + b) == Serials(a) + Serials(b)
    decreases |b|
  {
    if b == [] {
      assert a + b == a;
    } else {
      var bf := b[..|b| - 1];
      assert (a + b)[..|a + b| - 1] == a + bf;
      SerialsAppend(a, bf);
    }
  }

  /** One line contributes its serial exactly when it names a device. */
  lemma SerialsOfLine(raw: string)
    ensures Serials([raw]) == if NamesDevice(raw) then [SerialOf(raw)] else []
  {
    assert [raw][..0] == [];
  }

  /** A serial is the text of its stripped line before the first tab (the
      whole line when it has none); it contains no tab. */
  lemma SerialOfSpec(raw: string)
    ensures SerialOf(raw) ==
      match Find(DeviceLine(raw), "\t") case None => DeviceLine(raw) case Some(i) => DeviceLine(raw)[..i]
    ensures !Contains(SerialOf(raw), "\t")
    ensures StartsWith(DeviceLine(raw), SerialOf(raw))
  {
    SplitPartsFree(DeviceLine(raw), "\t");
    SplitFirst(DeviceLine(raw), "\t");
    FindOccurs(DeviceLine(raw), "\t");
  }

  // ---------------------------------------------------------------------
  // prepare_apks

  /** `list.remove(x)`: drops the first occurrence of `x` and keeps the
      other elements in order. */
  function RemoveFirst<T(==)>(s: seq<T>, x: T): (r: seq<T>)
    requires x in s
    ensures |r| == |s| - 1
    ensures multiset(r) + multiset{x} == multiset(s)
    ensures forall k :: 0 <= k < |r| ==> r[k] == (if k < FirstIndex(s, x) then s[k] else s[k + 1])
  {
    var i := FirstIndex(s, x);
    assert s == s[..i] + [x] + s[i + 1..];
    s[..i] + s[i + 1..]
  }

  /** An APK whose package is listed in the ledger of tested packages. */
  predicate Tested(apk: string, pkgs: seq<string>, pkgOf: string -> string) {
    pkgOf(apk) in pkgs
  }

  /** The ledger rows after `strip()`. */
  function LedgerPackages(rows: seq<string>): (pkgs: seq<string>)
    ensures |pkgs| == |rows| && forall k :: 0 <= k < |rows| ==> pkgs[k] == Strip(rows[k], StrWhitespace)
  {
    seq(|rows|, k requires 0 <= k < |rows| => Strip(rows[k], StrWhitespace))
  }

  /** The `for apk in apks: ... apks.remove(apk)` loop from list position
      `i` onwards: Python's list iterator steps to the next position after
      each element, so a removal shifts the following element into the
      position just examined, and that element is never looked at. */
  function SweepFrom(apks: seq<string>, i: nat, pkgs: seq<string>, pkgOf: string -> string): seq<string>
    decreases |apks| - i
  {
    if i >= |apks| then apks
    else if Tested(apks[i], pkgs, pkgOf) then SweepFrom(RemoveFirst(apks, apks[i]), i + 1, pkgs, pkgOf)
    else SweepFrom(apks, i + 1, pkgs, pkgOf)
  }

  /** `prepare_apks(apk_path, exclude_tested)`, with the glob results, the
      rows of the tested-packages ledger and the `aapt` package lookup as
      inputs. */
  method PrepareApks(apkPath: string, excludeTested: bool, globbed: seq<string>,
                     rows: seq<string>, pkgOf: string -> string)
    returns (apks: seq<string>)
    ensures !excludeTested ==> apks == FoundApks(apkPath, globbed)
    ensures excludeTested ==>
      apks == Swept(FoundApks(apkPath, globbed), LedgerPackages(rows), pkgOf)
  {
    apks := FindApks(apkPath, globbed);
    if excludeTested {
      var pkgs: seq<string> := [];
      for k := 0 to |rows|
        invariant pkgs == LedgerPackages(rows[..k])
      {
        pkgs := pkgs + [Strip(rows[k], StrWhitespace)];
      }
      assert rows[..|rows|] == rows;
      apks := FindApks(apkPath, globbed);
      ghost var found := apks;
      var i := 0;
      while i < |apks|
        invariant SweepFrom(apks, i, pkgs, pkgOf) == SweepFrom(found, 0, pkgs, pkgOf)
        decreases |apks| - i
      {
        var apk := apks[i];
        i := i + 1;
        if pkgOf(apk) in pkgs {
          apks := RemoveFirst(apks, apk);
        }
      }
      FoundApksSpec(apkPath, globbed);
      SweepFromSwept(found, 0, pkgs, pkgOf);
      assert found[..0] == [] && found[0..] == found;
    }
  }

  /** What the sweep leaves of the elements it examines, on a list without
      repeats: a tested element is dropped and the one after it is kept
      unexamined. */
  function Swept(s: seq<string>, pkgs: seq<string>, pkgOf: string -> string): seq<string> {
    if s == [] then []
    else if Tested(s[0], pkgs, pkgOf) then
      if |s| == 1 then [] else [s[1]] + Swept(s[2..], pkgs, pkgOf)
    else [s[0]] + Swept(s[1..], pkgs, pkgOf)
  }

  lemma RemoveAt(s: seq<string>, i: nat)
    requires NoDup(s) && i < |s|
    ensures RemoveFirst(s, s[i]) == s[..i] + s[i + 1..]
    ensures NoDup(s[..i] + s[i + 1..])
  {
    var j := FirstIndex(s, s[i]);
    assert j == i;
    var r := s[..i] + s[i + 1..];
    forall a, b | 0 <= a < b < |r|
      ensures r[a] != r[b]
    {
      var a' := if a < i then a else a + 1;
      var b' := if b < i then b else b + 1;
      assert r[a] == s[a'] && r[b] == s[b'];
    }
  }

  lemma SweptAt(s: seq<string>, i: nat, pkgs: seq<string>, pkgOf: string -> string)
    requires i < |s|
    ensures Tested(s[i], pkgs, pkgOf) && i + 1 == |s| ==> Swept(s[i..], pkgs, pkgOf) == []
    ensures Tested(s[i], pkgs, pkgOf) && i + 1 < |s| ==>
      Swept(s[i..], pkgs, pkgOf) == [s[i + 1]] + Swept(s[i + 2..], pkgs, pkgOf)
    ensures !Tested(s[i], pkgs, pkgOf) ==>
      Swept(s[i..], pkgs, pkgOf) == [s[i]] + Swept(s[i + 1..], pkgs, pkgOf)
  {
    assert s[i..][1..] == s[i + 1..];
    if i + 1 < |s| {
      assert s[i..][2..] == s[i + 2..];
    }
  }

  /** On a list without repeats, the sweep from position `i` keeps the
      first `i` elements and leaves `Swept` of the rest. */
  lemma {:induction false} SweepFromSwept(s: seq<string>, i: nat, pkgs: seq<string>, pkgOf: string -> string)
    requires NoDup(s) && i <= |s|
    ensures SweepFrom(s, i, pkgs, pkgOf) == s[..i] + Swept(s[i..], pkgs, pkgOf)
    decreases |s| - i, 1
  {
    if i == |s| {
      assert s[..i] == s && s[i..] == [];
    } else if Tested(s[i], pkgs, pkgOf) {
      SweepFromSweptTested(s, i, pkgs, pkgOf);
    } else {
      SweepFromSwept(s, i + 1, pkgs, pkgOf);
      SweptAt(s, i, pkgs, pkgOf);
      assert s[..i + 1] == s[..i] + [s[i]];
    }
  }

  /** The step of `SweepFromSwept` at a tested element. */
  lemma {:induction false} SweepFromSweptTested(s: seq<string>, i: nat, pkgs: seq<string>, pkgOf: string -> string)
    requires NoDup(s) && i < |s| && Tested(s[i], pkgs, pkgOf)
    ensures SweepFrom(s, i, pkgs, pkgOf) == s[..i] + Swept(s[i..], pkgs, pkgOf)
    decreases |s| - i, 0
  {
    SweepTestedUnfold(s, i, pkgs, pkgOf);
    var t := s[..i] + s[i + 1..];
    SweptAt(s, i, pkgs, pkgOf);
    if i + 1 == |s| {
      assert t == s[..i];
    } else {
      SweepFromSwept(t, i + 1, pkgs, pkgOf);
      SweepTestedStep(s, i, pkgs, pkgOf);
    }
  }

  /** Dropping a tested element moves the sweep to the next position of
      the shortened list, which still has no repeats. */
  lemma SweepTestedUnfold(s: seq<string>, i: nat, pkgs: seq<string>, pkgOf: string -> string)
    requires NoDup(s) && i < |s| && Tested(s[i], pkgs, pkgOf)
    ensures var t := s[..i] + s[i + 1..];
      NoDup(t) && SweepFrom(s, i, pkgs, pkgOf) == SweepFrom(t, i + 1, pkgs, pkgOf)
  {
    RemoveAt(s, i);
  }

  lemma SweepTestedStep(s: seq<string>, i: nat, pkgs: seq<string>, pkgOf: string -> string)
    requires i + 1 < |s| && Tested(s[i], pkgs, pkgOf)
    ensures var t := s[..i] + s[i + 1..];
      t[..i + 1] + Swept(t[i + 1..], pkgs, pkgOf) == s[..i] + Swept(s[i..], pkgs, pkgOf)
  {
    SweptAt(s, i, pkgs, pkgOf);
    var t := s[..i] + s[i + 1..];
    assert t[..i + 1] == s[..i] + [s[i + 1]];
    assert t[i + 1..] == s[i + 2..];
  }

  /** `a` is `b` with some elements left out, order kept. */
  predicate IsSubsequence<T(==)>(a: seq<T>, b: seq<T>)
    decreases |b|
  {
    if b == [] then a == []
    else (a != [] && a[0] == b[0] && IsSubsequence(a[1..], b[1..])) || IsSubsequence(a, b[1..])
  }

  /** The sweep keeps a subsequence of its input. */
  lemma {:induction false} SweptSubsequence(s: seq<string>, pkgs: seq<string>, pkgOf: string -> string)
    ensures IsSubsequence(Swept(s, pkgs, pkgOf), s)
    decreases |s|
  {
    if s != [] {
      var r := Swept(s, pkgs, pkgOf);
      if Tested(s[0], pkgs, pkgOf) {
        if |s| == 1 {
          assert IsSubsequence(r, s[1..]);
        } else {
          SweptSubsequence(s[2..], pkgs, pkgOf);
          assert s[1..][1..] == s[2..];
          assert r[1..] == Swept(s[2..], pkgs, pkgOf);
          assert IsSubsequence(r, s[1..]);
        }
      } else {
        SweptSubsequence(s[1..], pkgs, pkgOf);
        assert r[1..] == Swept(s[1..], pkgs, pkgOf);
      }
    }
  }

  /** Whatever the sweep removes is a tested APK. */
  lemma {:induction false} SweptRemovesOnlyTested(s: seq<string>, pkgs: seq<string>, pkgOf: string -> string, x: string)
    requires x in s && x !in Swept(s, pkgs, pkgOf)
    ensures Tested(x, pkgs, pkgOf)
    decreases |s|
  {
    if x != s[0] {
      if Tested(s[0], pkgs, pkgOf) {
        assert x != s[1] && x in s[2..];
        SweptRemovesOnlyTested(s[2..], pkgs, pkgOf, x);
      } else {
        SweptRemovesOnlyTested(s[1..], pkgs, pkgOf, x);
      }
    }
  }

  /** The loop skips the element after each removal: of two consecutive
      tested APKs, the second survives. */
  lemma SweepKeepsTestedNeighbour(pkgOf: string -> string)
    requires pkgOf("a.apk") == "com.a" && pkgOf("b.apk") == "com.b"
    ensures var pkgs := ["com.a", "com.b"];
      && Tested("b.apk", pkgs, pkgOf)
      && SweepFrom(["a.apk", "b.apk"], 0, pkgs, pkgOf) == ["b.apk"]
  {
    var pkgs := ["com.a", "com.b"];
    var s := ["a.apk", "b.apk"];
    assert s[0] != s[1];
    SweepFromSwept(s, 0, pkgs, pkgOf);
    assert s[..0] == [] && s[0..] == s;
    assert Swept(s, pkgs, pkgOf) == [s[1]] + Swept([], pkgs, pkgOf);
  }

  /** The exclusion the ledger is evidently meant for: every APK whose
      package was tested is dropped. */
  function Untested(s: seq<string>, pkgs: seq<string>, pkgOf: string -> string): seq<string> {
    if s == [] then []
    else if Tested(s[0], pkgs, pkgOf) then Untested(s[1..], pkgs, pkgOf)
    else [s[0]] + Untested(s[1..], pkgs, pkgOf)
  }

  /** `prepare_apks` with the exclusion applied to every APK. */
  function PrepareApksIntended(apkPath: string, excludeTested: bool, globbed: seq<string>,
                               rows: seq<string>, pkgOf: string -> string): seq<string>
  {
    var found := FoundApks(apkPath, globbed);
    if excludeTested then Untested(found, LedgerPackages(rows), pkgOf) else found
  }

  /** The intended exclusion keeps exactly the untested APKs, in order. */
  lemma {:induction false} UntestedSpec(s: seq<string>, pkgs: seq<string>, pkgOf: string -> string)
    ensures forall x :: x in Untested(s, pkgs, pkgOf) <==> x in s && !Tested(x, pkgs, pkgOf)
    ensures IsSubsequence(Untested(s, pkgs, pkgOf), s)
    decreases |s|
  {
    if s != [] {
      UntestedSpec(s[1..], pkgs, pkgOf);
      var r := Untested(s, pkgs, pkgOf);
      if !Tested(s[0], pkgs, pkgOf) {
        assert r[1..] == Untested(s[1..], pkgs, pkgOf);
      }
    }
  }

  /** With exclusion on, the intended result lists exactly the found APKs
      whose packages are not in the ledger. */
  lemma PrepareApksIntendedSpec(apkPath: string, globbed: seq<string>, rows: seq<string>, pkgOf: string -> string)
    ensures var r := PrepareApksIntended(apkPath, true, globbed, rows, pkgOf);
      var found := FoundApks(apkPath, globbed);
      && IsSubsequence(r, found)
      && forall x :: x in r <==> x in found && pkgOf(x) !in LedgerPackages(rows)
  {
    UntestedSpec(FoundApks(apkPath, globbed), LedgerPackages(rows), pkgOf);
  }

  // ---------------------------------------------------------------------
  // find_first

  /** `find_first(pattern, string, returnNone)`. The regular-expression
      search is the parameter `search`, giving the text of the first match
      or `None`; a failed search raises unless `returnNone` is set. */
  function FindFirst(search: string -> Option<string>, text: string, returnNone: bool): (r: Result<Option<string>, string>)
    ensures r.Failure? <==> search(text).None? && !returnNone
    ensures r.Success? ==> r.value == search(text)
  {
    match search(text)
    case Some(m) => Success(Some(m))
    case None => if returnNone then Success(None) else Failure("Couldn't findFirst()")
  }
}
