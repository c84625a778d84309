/** The device driver: the per-device bookkeeping of a test run. Every
    field is a dictionary keyed by device serial, as in the source; the
    device's answers (foreground activity and package, the widget dump, the
    widget found for an element) are parameters of the methods that read
    them. */
module Driver {
  import opened Wrappers
  import opened Strings
  import opened UiSnapshot
  import opened ExplorationGraph
  import Commons
  import AaptParse
  import AdbParse

  /** What the device shows at one query: the foreground activity and
      package (`None` when the window dump names none) and the widget dump
      of the screen, one attribute map per `node` element in document
      order. */
  datatype Screen = Screen(activity: Option<string>, package: Option<string>, dump: seq<Attributes>)

  predicate IsLetter(c: char) {
    'a' <= c <= 'z' || 'A' <= c <= 'Z'
  }

  /** Ten characters drawn from the ASCII letters. */
  predicate IsRandomText(t: string) {
    |t| == 10 && forall k :: 0 <= k < |t| ==> IsLetter(t[k])
  }

  /** The text typed into a text field: the one drawn earlier in this
      round, or else the new draw. */
  function SharedText(current: string, drawn: string): string {
    if current == "" then drawn else current
  }

  /** Once drawn, the shared text is kept for the rest of the round, and it
      is always ten letters. */
  lemma SharedTextStable(current: string, drawn: string, later: string)
    requires current == "" || IsRandomText(current)
    requires IsRandomText(drawn)
    ensures IsRandomText(SharedText(current, drawn))
    ensures SharedText(SharedText(current, drawn), later) == SharedText(current, drawn)
  {
  }

  /** The visit types into a text field. */
  predicate TypesText(g: Graph, node: string, live: seq<UiRecord>, w: Widget) {
    && node in g.nodes && g.nodes[node].ElementNode?
    && g.nodes[node].ui.resourceId in ResourceIds(live)
    && w.onScreen && Dispatch(w) == TypeText
  }

  /** The attributes `_update_attr` sets. */
  datatype Attribute = Visited | SecondVisit | Difference

  /** A node with one attribute set; a kind that lacks the attribute is
      left as it is. */
  function WithAttr(n: Node, attr: Attribute, value: bool): Node {
    match attr
    case Visited => if n.BareNode? then n else n.(visited := value)
    case SecondVisit => if n.ElementNode? then n.(secondVisit := value) else n
    case Difference => if n.ElementNode? then n.(deleted := value) else n
  }

  /** `press_back`'s wait: each poll is one look at the device. The wait
      ends when the activity differs from the one back was pressed on, and
      raises when the application left the foreground first; running out of
      polls is the attempt's timer firing. */
  function BackTo(from: Option<string>, apkPackage: string, polls: seq<Screen>): Result<Option<string>, Error>
    decreases |polls|
  {
    if polls == [] then Failure(Timeout)
    else if polls[0].activity != from then Success(polls[0].activity)
    else if polls[0].package != Some(apkPackage) then Failure(NotForeground)
    else BackTo(from, apkPackage, polls[1..])
  }

  /** Poll `j` still shows the application on the activity back was
      pressed on. */
  predicate StillOn(from: Option<string>, apkPackage: string, poll: Screen) {
    poll.activity == from && poll.package == Some(apkPackage)
  }

  /** The wait ends on the first poll showing another activity, after polls
      that all showed the application on the same activity; it raises on the
      first poll showing another package while still on that activity. */
  lemma BackToSpec(from: Option<string>, apkPackage: string, polls: seq<Screen>)
    ensures var r := BackTo(from, apkPackage, polls);
      && (r.Success? ==>
            exists i :: (0 <= i < |polls| && polls[i].activity == r.value && r.value != from
              && forall j :: 0 <= j < i ==> StillOn(from, apkPackage, polls[j])))
      && (r == Failure(NotForeground) ==>
            exists i :: (0 <= i < |polls| && polls[i].activity == from && polls[i].package != Some(apkPackage)
              && forall j :: 0 <= j < i ==> StillOn(from, apkPackage, polls[j])))
      && (r == Failure(Timeout) <==> forall j :: 0 <= j < |polls| ==> StillOn(from, apkPackage, polls[j]))
  {
    BackToArrives(from, apkPackage, polls);
    BackToRaises(from, apkPackage, polls);
    BackToTimeout(from, apkPackage, polls);
  }

  lemma {:induction false} BackToArrives(from: Option<string>, apkPackage: string, polls: seq<Screen>)
    ensures var r := BackTo(from, apkPackage, polls);
      r.Success? ==>
        exists i :: (0 <= i < |polls| && polls[i].activity == r.value && r.value != from
          && forall j :: 0 <= j < i ==> StillOn(from, apkPackage, polls[j]))
    decreases |polls|
  {
    if polls != [] && StillOn(from, apkPackage, polls[0]) {
      var rest := polls[1..];
      BackToArrives(from, apkPackage, rest);
      var r := BackTo(from, apkPackage, rest);
      if r.Success? {
        var i :| 0 <= i < |rest| && rest[i].activity == r.value && r.value != from
          && forall j :: 0 <= j < i ==> StillOn(from, apkPackage, rest[j]);
        assert polls[i + 1] == rest[i];
        assert forall j :: 0 < j < i + 1 ==> polls[j] == rest[j - 1];
      }
    } else if polls != [] && polls[0].activity != from {
      assert polls[0].activity == BackTo(from, apkPackage, polls).value;
    }
  }

  lemma {:induction false} BackToRaises(from: Option<string>, apkPackage: string, polls: seq<Screen>)
    ensures BackTo(from, apkPackage, polls) == Failure(NotForeground) ==>
      exists i :: (0 <= i < |polls| && polls[i].activity == from && polls[i].package != Some(apkPackage)
        && forall j :: 0 <= j < i ==> StillOn(from, apkPackage, polls[j]))
    decreases |polls|
  {
    if polls != [] && StillOn(from, apkPackage, polls[0]) {
      var rest := polls[1..];
      BackToRaises(from, apkPackage, rest);
      if BackTo(from, apkPackage, rest) == Failure(NotForeground) {
        var i :| 0 <= i < |rest| && rest[i].activity == from && rest[i].package != Some(apkPackage)
          && forall j :: 0 <= j < i ==> StillOn(from, apkPackage, rest[j]);
        assert polls[i + 1] == rest[i];
        assert forall j :: 0 < j < i + 1 ==> polls[j] == rest[j - 1];
      }
    }
  }

  lemma {:induction false} BackToTimeout(from: Option<string>, apkPackage: string, polls: seq<Screen>)
    ensures BackTo(from, apkPackage, polls) == Failure(Timeout) <==>
      forall j :: 0 <= j < |polls| ==> StillOn(from, apkPackage, polls[j])
    decreases |polls|
  {
    if polls != [] && StillOn(from, apkPackage, polls[0]) {
      var rest := polls[1..];
      BackToTimeout(from, apkPackage, rest);
      assert forall j :: 0 < j < |polls| ==> polls[j] == rest[j - 1];
    }
  }

  /** A device is idle when no APK is recorded for it (`None` or an empty
      path, both false in Python). */
  predicate IsIdle(running: map<string, Option<string>>, s: string)
    requires s in running
  {
    running[s] == None || running[s] == Some("")
  }

  /** The first idle device in the order of the dictionary's keys. */
  function FirstIdle(serials: seq<string>, running: map<string, Option<string>>): Option<string>
    requires forall s :: s in serials ==> s in running
    decreases |serials|
  {
    if serials == [] then None
    else if IsIdle(running, serials[0]) then Some(serials[0])
    else FirstIdle(serials[1..], running)
  }

  /** The device chosen is idle and every device before it is busy; none is
      chosen only when all are busy. */
  lemma {:induction false} FirstIdleSpec(serials: seq<string>, running: map<string, Option<string>>)
    requires forall s :: s in serials ==> s in running
    ensures var r := FirstIdle(serials, running);
      && (r.Some? ==>
            exists i :: (0 <= i < |serials| && serials[i] == r.value && IsIdle(running, r.value)
              && forall j :: 0 <= j < i ==> !IsIdle(running, serials[j])))
      && (r.None? <==> forall j :: 0 <= j < |serials| ==> !IsIdle(running, serials[j]))
    decreases |serials|
  {
    if serials != [] && !IsIdle(running, serials[0]) {
      var rest := serials[1..];
      FirstIdleSpec(rest, running);
      if FirstIdle(rest, running).Some? {
        var i :| 0 <= i < |rest| && rest[i] == FirstIdle(rest, running).value
          && IsIdle(running, rest[i]) && forall j :: 0 <= j < i ==> !IsIdle(running, rest[j]);
        assert serials[i + 1] == rest[i];
        assert forall j :: 0 < j < i + 1 ==> serials[j] == rest[j - 1];
      }
      assert forall j :: 0 < j < |serials| ==> serials[j] == rest[j - 1];
    }
  }

  /** `add_new_activity` on the device's answers: the widget dump is read
      only once the screen's activity is in the graph, so a node missing an
      attribute `get_clickable_list` reads raises `KeyError` with the
      activity (and, on the first screen, the package) already added and
      none of its elements. */
  ghost function NewScreen(g: Graph, screen: Screen, apkPackage: string, preNode: Option<string>): Step<()> {
    var inserts := screen.activity.Some? && screen.activity.value !in g.nodes && screen.package == Some(apkPackage);
    match ClickableList(screen.dump)
    case Success(ui) => NewActivity(g, screen.activity, screen.package, apkPackage, ui, preNode)
    case Failure(key) =>
      if inserts then Step(ActivityInserted(g, screen.activity.value, apkPackage, preNode), Failure(KeyError(key)))
      else NewActivity(g, screen.activity, screen.package, apkPackage, [], preNode)
  }

  /** A dump whose every node carries the attributes read gives the graph
      change of `NewActivity` on its clickable list. */
  lemma NewScreenWellFormed(g: Graph, screen: Screen, apkPackage: string, preNode: Option<string>)
    requires forall i :: 0 <= i < |screen.dump| ==> WellFormed(screen.dump[i])
    ensures ClickableList(screen.dump).Success?
    ensures NewScreen(g, screen, apkPackage, preNode) ==
      NewActivity(g, screen.activity, screen.package, apkPackage, ClickableList(screen.dump).value, preNode)
  {
    ClickableListSucceeds(screen.dump);
  }

  /** A new screen of the application whose dump holds a node missing an
      attribute raises `KeyError`, and the graph keeps the activity without
      any of its elements. */
  lemma NewScreenKeyError(g: Graph, screen: Screen, apkPackage: string, preNode: Option<string>, i: nat)
    requires screen.activity.Some? && screen.activity.value !in g.nodes && screen.package == Some(apkPackage)
    requires i < |screen.dump| && !WellFormed(screen.dump[i])
    ensures var r := NewScreen(g, screen, apkPackage, preNode);
      && r.result.Failure? && r.result.error.KeyError?
      && r.graph == ActivityInserted(g, screen.activity.value, apkPackage, preNode)
  {
    ClickableListSucceeds(screen.dump);
  }

  /** `_visit_node` on the device's answers: a missing node returns before
      the dump is read; otherwise a node of the dump missing an attribute
      raises `KeyError` before the graph changes. */
  ghost function VisitScreen(g: Graph, node: string, dump: seq<Attributes>, w: Widget, after: Option<string>): Step<Option<bool>> {
    if node !in g.nodes then Step(g, Success(None))
    else
      match ClickableList(dump)
      case Failure(key) => Step(g, Failure(KeyError(key)))
      case Success(live) => Visit(g, node, live, w, after)
  }

  /** A well-formed dump gives the visit `Visit` describes. */
  lemma VisitScreenWellFormed(g: Graph, node: string, dump: seq<Attributes>, w: Widget, after: Option<string>)
    requires forall i :: 0 <= i < |dump| ==> WellFormed(dump[i])
    ensures ClickableList(dump).Success?
    ensures VisitScreen(g, node, dump, w, after) == Visit(g, node, ClickableList(dump).value, w, after)
  {
    ClickableListSucceeds(dump);
    if node !in g.nodes {
      VisitMissing(g, node, ClickableList(dump).value, w, after);
    }
  }

  /** A dump node missing an attribute makes the visit of an existing node
      raise `KeyError` and leaves the graph as it was. */
  lemma VisitScreenKeyError(g: Graph, node: string, dump: seq<Attributes>, w: Widget, after: Option<string>, i: nat)
    requires node in g.nodes && i < |dump| && !WellFormed(dump[i])
    ensures var r := VisitScreen(g, node, dump, w, after);
      r.graph == g && r.result.Failure? && r.result.error.KeyError?
  {
    ClickableListSucceeds(dump);
  }

  /** What installing an APK ends in, from the APK's badging and the
      package list read after installing. */
  function InstallOutcome(badging: string, listing: string): Result<(), Error> {
    match AaptParse.GetPackageName(badging)
    case Failure(_) => Failure(IndexError)
    case Success(pkg) => if AdbParse.IsInstalled(listing, pkg) then Success(()) else Failure(InstallFailed)
  }

  /** An install succeeds once the package list names the APK's package. */
  lemma InstallListed(badging: string, listing: string)
    requires AaptParse.GetPackageName(badging).Success?
    requires Contains(listing, "package:" + AaptParse.GetPackageName(badging).value)
    ensures InstallOutcome(badging, listing) == Success(())
  {
    AdbParse.IsInstalledWhenListed(listing, AaptParse.GetPackageName(badging).value);
  }

  /** The graph holds a node that only `add_edge` created, without the
      attributes the driver reads. */
  ghost predicate HasBareNode(g: Graph) {
    exists x :: x in g.nodes && g.nodes[x].BareNode?
  }

  /** What the device answers during one `travel_node` call, in order:
      the foreground package at the start, the screen the first
      `add_new_activity` sees, the foreground activity before the visit,
      the visit's widget dump, widget and resulting activity, the letters
      drawn should a text field be typed into, the screen after the visit,
      and the activity, polls and final re-read of a `press_back`. */
  datatype Answers = Answers(
    foreground: Option<string>,
    before: Screen,
    prevActivity: Option<string>,
    dump: seq<Attributes>, widget: Widget, after: Option<string>,
    drawn: string,
    landed: Screen,
    backFrom: Option<string>, polls: seq<Screen>, arrived: Option<string>)

  /** How a `travel_node` call ended: the device stayed on the node's
      activity, or it left and the node was queued for a second visit or
      the current activity moved on. */
  datatype Outcome = Stayed | Left(decision: Decision)

  /** The graph side of the non-random `travel_node`. */
  ghost function Travel(g: Graph, node: string, apkPackage: string, a: Answers): Step<Outcome> {
    if a.foreground != Some(apkPackage) then Step(g, Failure(NotForeground))
    else
      var s1 := NewScreen(g, a.before, apkPackage, None);
      if s1.result.Failure? then Step(s1.graph, Failure(s1.result.error))
      else AfterAdding(s1.graph, node, apkPackage, a)
  }

  /** The part of `travel_node` run once the first screen is added: the
      visit, then the leaving branch unless the device stayed. */
  ghost function AfterAdding(g: Graph, node: string, apkPackage: string, a: Answers): Step<Outcome> {
    var v := VisitScreen(g, node, a.dump, a.widget, a.after);
    if v.result.Failure? then Step(v.graph, Failure(v.result.error))
    else if v.result.value == Some(true) then Step(v.graph, Success(Stayed))
    else AfterLeaving(v.graph, node, apkPackage, a)
  }

  /** The part of `travel_node` run when the visit did not stay on the
      node's activity: the new screen is added with the node as the edge's
      source, then `Leave` decides. */
  ghost function AfterLeaving(g: Graph, node: string, apkPackage: string, a: Answers): Step<Outcome> {
    var s2 := NewScreen(g, a.landed, apkPackage, Some(node));
    if s2.result.Failure? then Step(s2.graph, Failure(s2.result.error))
    else
      var l := Leave(s2.graph, node, a.prevActivity);
      match l.result
      case Success(dec) => Step(l.graph, Success(Left(dec)))
      case Failure(e) => Step(l.graph, Failure(e))
  }

  /** What the call reports: a second visit is reported only once the
      back press it makes has brought the device to another activity. */
  function Reported(t: Result<Outcome, Error>, back: Result<Option<string>, Error>): Result<Outcome, Error> {
    if t == Success(Left(Revisit)) && back.Failure? then Failure(back.error) else t
  }

  /** The call gets past the visit without staying on the node's
      activity, so it adds the screen the visit led to. */
  ghost predicate Leaves(g: Graph, node: string, apkPackage: string, a: Answers) {
    && a.foreground == Some(apkPackage)
    && var s1 := NewScreen(g, a.before, apkPackage, None);
    && s1.result.Success?
    && VisitLeaves(s1.graph, node, a)
  }

  /** The visit raised nothing and did not report staying. */
  ghost predicate VisitLeaves(g: Graph, node: string, a: Answers) {
    var v := VisitScreen(g, node, a.dump, a.widget, a.after);
    v.result.Success? && v.result.value != Some(true)
  }

  /** The current activity once the call has left the node's activity:
      the one chosen next, the one read after a successful back press, or
      else the screen the visit led to. */
  function LeftAt(r: Result<Outcome, Error>, landed: Option<string>, back: Result<Option<string>, Error>,
                  arrived: Option<string>): Option<string> {
    match r
    case Success(Left(MoveTo(next))) => next
    case Success(Left(Revisit)) => if back.Success? then arrived else landed
    case _ => landed
  }

  /** The application out of the foreground ends the call before anything
      changes. */
  lemma TravelNotForeground(g: Graph, node: string, apkPackage: string, a: Answers)
    requires a.foreground != Some(apkPackage)
    ensures Travel(g, node, apkPackage, a) == Step(g, Failure(NotForeground))
  {
  }

  /** A node whose visit removed it ends the call with a `KeyError` on its
      own id whenever the previous activity still has unvisited nodes. */
  lemma LeaveRemovedNode(g: Graph, node: string, prev: string)
    requires node !in g.nodes && !BareUnder(g, prev) && HasPending(g, prev)
    ensures Leave(g, node, Some(prev)) == Step(g, Failure(KeyError(node)))
  {
  }

  /** The element loop of `add_new_activity`: one node and one edge per
      widget, in snapshot order. */
  method AddElementNodes(g: Graph, activity: string, ui: seq<UiRecord>) returns (r: Graph)
    ensures r == AddElements(g, activity, ui)
  {
    r := g;
    var i := 0;
    while i < |ui|
      invariant 0 <= i <= |ui|
      invariant r == AddElements(g, activity, ui[..i])
    {
      assert ui[..i + 1][..i] == ui[..i];
      var id := ElementId(activity, ui[i].className, i);
      r := AddNode(r, id, ElementNode(false, false, ui[i], false));
      r := AddEdge(r, activity, id);
      i := i + 1;
    }
    assert ui[..|ui|] == ui;
  }

  class DeviceDriver {
    /** The connected devices, in the order `adb devices` lists them. */
    var serials: seq<string>
    var curActivity: map<string, Option<string>>
    var nthTry: map<string, Option<string>>
    var apkRunning: map<string, Option<string>>
    var graphs: map<string, Option<Graph>>
    /** The text typed into every text field during one round. */
    var randomText: string

    ghost predicate Valid()
      reads this
    {
      && Commons.NoDup(serials)
      && (forall s :: s in serials ==> s in apkRunning)
      && (randomText == "" || IsRandomText(randomText))
    }

    /** The driver for the devices `adb devices` lists, each idle. */
    constructor(connected: seq<string>)
      ensures Valid()
      ensures serials == Commons.Dedupe(connected)
      ensures forall s :: s in connected <==> s in serials
      ensures apkRunning == map s | s in serials :: None
      ensures curActivity == map[] && nthTry == map[] && graphs == map[] && randomText == ""
    {
      Commons.DedupeSpec(connected);
      serials := Commons.Dedupe(connected);
      apkRunning := map s | s in Commons.Dedupe(connected) :: None;
      curActivity := map[];
      nthTry := map[];
      graphs := map[];
      randomText := "";
    }

    /** A new attempt on device `d`: the APK recorded as running, an empty
      graph, the APK installed, and the attempt number as text. `badging`
      is the `aapt dump badging` output of the APK and `listing` the
      `pm list packages` output read after installing. A failed install
      raises with the APK and the empty graph already recorded and the
      attempt number not stored. */
    method PrepareDevice(d: string, apk: string, nth: nat, badging: string, listing: string)
      returns (r: Result<(), Error>)
      requires Valid()
      modifies this
      ensures Valid()
      ensures apkRunning == old(apkRunning)[d := Some(apk)]
      ensures graphs == old(graphs)[d := Some(EmptyGraph)]
      ensures r == InstallOutcome(badging, listing)
      ensures nthTry == if r.Success? then old(nthTry)[d := Some(NatToString(nth))] else old(nthTry)
      ensures serials == old(serials) && curActivity == old(curActivity) && randomText == old(randomText)
    {
      apkRunning := apkRunning[d := Some(apk)];
      graphs := graphs[d := Some(EmptyGraph)];
      r := InstallApk(badging, listing);
      if r.Failure? {
        return;
      }
      nthTry := nthTry[d := Some(NatToString(nth))];
    }

    /** `_install_apk` then `adb.install`: the package name is read from the
      badging (`IndexError` when there is none), and the install raises
      `INSTALL_FAILED` unless the package list then shows the package. */
    method InstallApk(badging: string, listing: string) returns (r: Result<(), Error>)
      ensures r == InstallOutcome(badging, listing)
      ensures r == Failure(IndexError) <==> !Contains(badging, AaptParse.PackageMarker)
      ensures r.Success? <==>
        (AaptParse.GetPackageName(badging).Success? && AdbParse.IsInstalled(listing, AaptParse.GetPackageName(badging).value))
    {
      AaptParse.GetPackageNameSpec(badging);
      var pkg := AaptParse.GetPackageName(badging);
      if pkg.Failure? {
        return Failure(IndexError);
      }
      if !AdbParse.IsInstalled(listing, pkg.value) {
        return Failure(InstallFailed);
      }
      return Success(());
    }

    /** The end of an attempt: the verdict written to the results log, then
      the device made idle (its APK forgotten only after the last
      attempt). `badging` is the `aapt dump badging` output of the running
      APK. Before anything is reset the call raises `IndexError` when the
      APK has no package name, `KeyError('visited')` when listing the
      visited nodes meets a bare node, and, when the log line is built,
      `KeyError` on the serial or `TypeError` when the device has no
      attempt number (an install that raised, or an earlier clean). */
    method CleanDevice(d: string, last: bool, badging: string, listed: bool, foreground: Option<string>,
                       dump: string, leaderMode: bool, isomorphic: bool) returns (r: Result<Verdict, Error>)
      requires Valid()
      requires d in apkRunning && apkRunning[d].Some?
      requires d in graphs && graphs[d].Some?
      modifies this
      ensures Valid()
      ensures AaptParse.GetPackageName(badging).Failure? ==> r == Failure(IndexError)
      ensures AaptParse.GetPackageName(badging).Success? && HasBareNode(old(graphs[d].value)) ==>
        r == Failure(KeyError("visited"))
      ensures AaptParse.GetPackageName(badging).Success? && !HasBareNode(old(graphs[d].value)) ==>
        && (d !in old(nthTry) ==> r == Failure(KeyError(d)))
        && (d in old(nthTry) && old(nthTry)[d].None? ==> r == Failure(TypeError))
      ensures r.Success? <==>
        && AaptParse.GetPackageName(badging).Success? && !HasBareNode(old(graphs[d].value))
        && d in old(nthTry) && old(nthTry)[d].Some?
      ensures r.Failure? ==>
        && graphs == old(graphs) && nthTry == old(nthTry) && curActivity == old(curActivity)
        && apkRunning == old(apkRunning)
      ensures r.Success? ==>
        && r.value == WriteLogVerdict(listed, AaptParse.GetPackageName(badging).value, foreground, dump, leaderMode, isomorphic)
        && nthTry == old(nthTry)[d := None] && graphs == old(graphs)[d := None]
        && curActivity == old(curActivity)[d := None]
        && apkRunning == (if last then old(apkRunning)[d := None] else old(apkRunning))
      ensures serials == old(serials) && randomText == old(randomText)
    {
      var pkg := AaptParse.GetPackageName(badging);
      if pkg.Failure? {
        return Failure(IndexError);
      }
      var visited := GetVisitedNodes(d);
      if visited.Failure? {
        return Failure(visited.error);
      }
      if d !in nthTry {
        return Failure(KeyError(d));
      }
      if nthTry[d].None? {
        return Failure(TypeError);
      }
      r := Success(WriteLogVerdict(listed, pkg.value, foreground, dump, leaderMode, isomorphic));
      nthTry := nthTry[d := None];
      graphs := graphs[d := None];
      curActivity := curActivity[d := None];
      if last {
        apkRunning := apkRunning[d := None];
      }
    }

    /** `add_new_activity`: the current activity becomes the one on the
      screen, and the graph changes as `NewActivity` says, the elements
      being added one by one. */
    method AddNewActivity(d: string, apkPackage: string, screen: Screen, preNode: Option<string>)
      returns (r: Result<(), Error>)
      requires Valid() && d in graphs && graphs[d].Some?
      modifies this
      ensures Valid()
      ensures var s := NewScreen(old(graphs[d].value), screen, apkPackage, preNode);
        graphs == old(graphs)[d := Some(s.graph)] && r == s.result
      ensures curActivity == old(curActivity)[d := screen.activity]
      ensures serials == old(serials) && apkRunning == old(apkRunning) && nthTry == old(nthTry)
      ensures randomText == old(randomText)
    {
      curActivity := curActivity[d := screen.activity];
      var g := graphs[d].value;
      ghost var g0 := g;
      if screen.activity.Some? && screen.activity.value in g.nodes {
        return Success(());
      }
      if screen.package != Some(apkPackage) {
        return Success(());
      }
      if screen.activity.None? {
        if apkPackage !in g.nodes {
          graphs := graphs[d := Some(AddNode(g, apkPackage, PackageNode(true)))];
        }
        return Failure(NoneNodeError);
      }
      var activity := screen.activity.value;
      if apkPackage !in g.nodes {
        g := AddNode(g, apkPackage, PackageNode(true));
        g := AddNode(g, activity, ActivityNode(true));
        g := AddEdge(g, apkPackage, activity);
      } else {
        g := AddNode(g, activity, ActivityNode(false));
        if preNode.Some? {
          g := AddEdge(g, preNode.value, activity);
        }
      }
      assert g == ActivityInserted(g0, activity, apkPackage, preNode);
      var list := ClickableList(screen.dump);
      if list.Failure? {
        graphs := graphs[d := Some(g)];
        return Failure(KeyError(list.error));
      }
      g := AddElementNodes(g, activity, list.value);
      graphs := graphs[d := Some(g)];
      return Success(());
    }

    /** `_visit_node`: the graph changes as `Visit` says; typing into a text
      field draws the round's shared text if none was drawn yet. */
    method VisitNode(d: string, node: string, dump: seq<Attributes>, w: Widget, after: Option<string>, drawn: string)
      returns (r: Result<Option<bool>, Error>)
      requires Valid() && d in graphs && graphs[d].Some? && IsRandomText(drawn)
      modifies this
      ensures Valid()
      ensures var s := VisitScreen(old(graphs[d].value), node, dump, w, after);
        graphs == old(graphs)[d := Some(s.graph)] && r == s.result
      ensures randomText ==
        if ClickableList(dump).Success? && TypesText(old(graphs[d].value), node, ClickableList(dump).value, w)
        then SharedText(old(randomText), drawn) else old(randomText)
      ensures serials == old(serials) && apkRunning == old(apkRunning) && nthTry == old(nthTry)
      ensures curActivity == old(curActivity)
    {
      var g := graphs[d].value;
      if node !in g.nodes {
        return Success(None);
      }
      var list := ClickableList(dump);
      if list.Failure? {
        return Failure(KeyError(list.error));
      }
      var live := list.value;
      ghost var s := Visit(g, node, live, w, after);
      var n := g.nodes[node];
      var stayed := Some(ActivityOf(node)) == after;
      if n.BareNode? {
        return Failure(KeyError("type"));
      }
      if n.ActivityNode? {
        assert s.graph == SetNode(g, node, ActivityNode(true));
        graphs := graphs[d := Some(SetNode(g, node, ActivityNode(true)))];
        return Success(Some(stayed));
      }
      if n.PackageNode? {
        return Failure(KeyError("resourceId"));
      }
      r := VisitElementNode(d, node, live, w, after, drawn);
    }

    /** The part of `_visit_node` for an element node, given the clickable
        list of the screen. */
    method VisitElementNode(d: string, node: string, live: seq<UiRecord>, w: Widget, after: Option<string>, drawn: string)
      returns (r: Result<Option<bool>, Error>)
      requires Valid() && d in graphs && graphs[d].Some? && IsRandomText(drawn)
      requires node in graphs[d].value.nodes && graphs[d].value.nodes[node].ElementNode?
      modifies this
      ensures Valid()
      ensures var s := Visit(old(graphs[d].value), node, live, w, after);
        graphs == old(graphs)[d := Some(s.graph)] && r == s.result
      ensures randomText ==
        if TypesText(old(graphs[d].value), node, live, w) then SharedText(old(randomText), drawn) else old(randomText)
      ensures serials == old(serials) && apkRunning == old(apkRunning) && nthTry == old(nthTry)
      ensures curActivity == old(curActivity)
    {
      var g := graphs[d].value;
      ghost var s := Visit(g, node, live, w, after);
      var n := g.nodes[node];
      var stayed := Some(ActivityOf(node)) == after;
      if n.ui.resourceId !in ResourceIds(live) {
        assert s.graph == RemoveNode(g, node);
        graphs := graphs[d := Some(RemoveNode(g, node))];
        return Success(Some(stayed));
      }
      if w.onScreen {
        var action := Dispatch(w);
        if action == TypeText {
          if randomText == "" {
            randomText := drawn;
          }
        } else if action == NoAction {
          assert s.graph == RemoveNode(g, node);
          graphs := graphs[d := Some(RemoveNode(g, node))];
          return Success(None);
        }
        assert s.graph == SetNode(g, node, n.(visited := true));
        graphs := graphs[d := Some(SetNode(g, node, n.(visited := true)))];
      } else {
        assert s.graph == SetNode(g, node, n.(deleted := true));
        graphs := graphs[d := Some(SetNode(g, node, n.(deleted := true)))];
      }
      return Success(Some(stayed));
    }

    /** `_update_attr`: one attribute of one node; a missing node raises. */
    method UpdateAttr(d: string, node: string, attr: Attribute, value: bool) returns (r: Result<(), Error>)
      requires Valid() && d in graphs && graphs[d].Some?
      modifies this
      ensures Valid()
      ensures var g := old(graphs[d].value);
        && (node !in g.nodes ==> r == Failure(KeyError(node)) && graphs == old(graphs))
        && (node in g.nodes ==> r.Success? && graphs == old(graphs)[d := Some(SetNode(g, node, WithAttr(g.nodes[node], attr, value)))])
      ensures serials == old(serials) && apkRunning == old(apkRunning) && nthTry == old(nthTry)
      ensures curActivity == old(curActivity) && randomText == old(randomText)
    {
      var g := graphs[d].value;
      if node !in g.nodes {
        return Failure(KeyError(node));
      }
      graphs := graphs[d := Some(SetNode(g, node, WithAttr(g.nodes[node], attr, value)))];
      return Success(());
    }

    /** `press_back`: waits for the activity to change, then reads the
      foreground activity once more (`arrived`) and records that read as
      current. The result is the outcome of the wait: the activity of the
      poll that ended it, or what it raised. */
    method PressBack(d: string, apkPackage: string, from: Option<string>, polls: seq<Screen>, arrived: Option<string>)
      returns (r: Result<Option<string>, Error>)
      requires Valid()
      modifies this
      ensures Valid()
      ensures r == BackTo(from, apkPackage, polls)
      ensures r.Success? ==> curActivity == old(curActivity)[d := arrived]
      ensures r.Failure? ==> curActivity == old(curActivity)
      ensures serials == old(serials) && apkRunning == old(apkRunning) && nthTry == old(nthTry)
      ensures graphs == old(graphs) && randomText == old(randomText)
    {
      var i := 0;
      while i < |polls| && polls[i].activity == from
        invariant 0 <= i <= |polls|
        invariant BackTo(from, apkPackage, polls[i..]) == BackTo(from, apkPackage, polls)
      {
        if polls[i].package != Some(apkPackage) {
          return Failure(NotForeground);
        }
        assert polls[i..][1..] == polls[i + 1..];
        i := i + 1;
      }
      if i == |polls| {
        return Failure(Timeout);
      }
      curActivity := curActivity[d := arrived];
      return Success(polls[i].activity);
    }

    /** `get_idle_device`, one pass over the devices: the first idle one is
      given the APK. */
    method GetIdleDevice(apk: string) returns (r: Option<string>)
      requires Valid()
      modifies this
      ensures Valid()
      ensures r == old(FirstIdle(serials, apkRunning))
      ensures r.Some? ==> apkRunning == old(apkRunning)[r.value := Some(apk)]
      ensures r.None? ==> apkRunning == old(apkRunning)
      ensures serials == old(serials) && graphs == old(graphs) && nthTry == old(nthTry)
      ensures curActivity == old(curActivity) && randomText == old(randomText)
    {
      var i := 0;
      while i < |serials|
        invariant 0 <= i <= |serials|
        invariant FirstIdle(serials[i..], apkRunning) == FirstIdle(serials, apkRunning)
      {
        var s := serials[i];
        if apkRunning[s] == None || apkRunning[s] == Some("") {
          apkRunning := apkRunning[s := Some(apk)];
          return Some(s);
        }
        assert serials[i..][1..] == serials[i + 1..];
        i := i + 1;
      }
      return None;
    }

    /** `get_next_nodes`: the unvisited nodes whose id starts with the
      activity's, in sorted order; reading `visited` on a bare node under
      the prefix raises. */
    method GetNextNodes(d: string, activity: Option<string>) returns (r: Result<seq<string>, Error>)
      requires d in graphs && graphs[d].Some?
      ensures activity.None? ==> r == Success([])
      ensures activity.Some? ==> (r.Failure? <==> BareUnder(graphs[d].value, activity.value))
      ensures r.Failure? ==> r.error == KeyError("visited")
      ensures r.Success? ==>
        && StrictlySorted(r.value)
        && forall x :: x in r.value <==> activity.Some? && Pending(graphs[d].value, activity.value, x)
    {
      if activity.None? {
        return Success([]);
      }
      var a := activity.value;
      var g := graphs[d].value;
      var ids := Sorted(g.nodes.Keys);
      var nodes: seq<string> := [];
      var i := 0;
      while i < |ids|
        invariant 0 <= i <= |ids|
        invariant forall k :: 0 <= k < i ==> !(StartsWith(ids[k], a) && g.nodes[ids[k]].BareNode?)
        invariant forall x :: x in nodes <==> x in ids[..i] && Pending(g, a, x)
        invariant StrictlySorted(nodes)
      {
        var id := ids[i];
        if StartsWith(id, a) {
          if g.nodes[id].BareNode? {
            return Failure(KeyError("visited"));
          }
          if !g.nodes[id].visited {
            forall j | 0 <= j < |nodes|
              ensures Less(nodes[j], id)
            {
              assert nodes[j] in ids[..i];
            }
            nodes := nodes + [id];
          }
        }
        assert ids[..i + 1] == ids[..i] + [id];
        i := i + 1;
      }
      assert ids[..i] == ids;
      return Success(nodes);
    }

    /** `get_visited_nodes`: the visited nodes in sorted order; reading
      `visited` on a bare node raises. */
    method GetVisitedNodes(d: string) returns (r: Result<seq<string>, Error>)
      requires d in graphs && graphs[d].Some?
      ensures r.Failure? <==> exists x :: x in graphs[d].value.nodes && graphs[d].value.nodes[x].BareNode?
      ensures r.Failure? ==> r.error == KeyError("visited")
      ensures r.Success? ==>
        && StrictlySorted(r.value)
        && forall x :: x in r.value <==> x in graphs[d].value.nodes && IsVisited(graphs[d].value.nodes[x])
    {
      var g := graphs[d].value;
      var ids := Sorted(g.nodes.Keys);
      var nodes: seq<string> := [];
      var i := 0;
      while i < |ids|
        invariant 0 <= i <= |ids|
        invariant forall k :: 0 <= k < i ==> !g.nodes[ids[k]].BareNode?
        invariant forall x :: x in nodes <==> x in ids[..i] && IsVisited(g.nodes[x])
        invariant StrictlySorted(nodes)
      {
        var id := ids[i];
        if g.nodes[id].BareNode? {
          return Failure(KeyError("visited"));
        }
        if g.nodes[id].visited {
          forall j | 0 <= j < |nodes|
            ensures Less(nodes[j], id)
          {
            assert nodes[j] in ids[..i];
          }
          nodes := nodes + [id];
        }
        assert ids[..i + 1] == ids[..i] + [id];
        i := i + 1;
      }
      assert ids[..i] == ids;
      return Success(nodes);
    }

    /** `_next_activity`: the first node in sorted order that is an
      unvisited activity, or that is bare and raises on `type`. */
    method NextActivity(d: string) returns (r: Result<Option<string>, Error>)
      requires d in graphs && graphs[d].Some?
      ensures r == NextActivityOf(graphs[d].value)
    {
      var g := graphs[d].value;
      var ids := Sorted(g.nodes.Keys);
      var i := 0;
      while i < |ids|
        invariant 0 <= i <= |ids|
        invariant forall k :: 0 <= k < i ==> !ActivityStop(g, ids[k])
      {
        var id := ids[i];
        if g.nodes[id].BareNode? || g.nodes[id] == ActivityNode(false) {
          var stops := ActivityStops(g);
          assert IsLeast(id, stops) by {
            forall y | y in stops && y != id
              ensures Less(id, y)
            {
              var k :| 0 <= k < |ids| && ids[k] == y;
              assert k > i;
            }
          }
          forall m | IsLeast(m, stops)
            ensures m == id
          {
            LeastUnique(m, id, stops);
          }
          if g.nodes[id].BareNode? {
            return Failure(KeyError("type"));
          }
          return Success(Some(id));
        }
        i := i + 1;
      }
      forall y | y in ids
        ensures !ActivityStop(g, y)
      {
        var k :| 0 <= k < |ids| && ids[k] == y;
      }
      assert ActivityStops(g) == {};
      return Success(None);
    }

    /** Ends a round: the next text field typed gets a fresh draw. */
    method ResetSharedText()
      requires Valid()
      modifies this
      ensures Valid() && randomText == ""
      ensures serials == old(serials) && apkRunning == old(apkRunning) && nthTry == old(nthTry)
      ensures graphs == old(graphs) && curActivity == old(curActivity)
    {
      randomText := "";
    }

    /** The non-random `travel_node`: add the current screen, visit the
      node, and if the device left the node's activity, add the new screen
      and either queue the node for a second visit and go back, or move the
      current activity on. */
    method TravelNode(d: string, node: string, apkPackage: string, a: Answers) returns (r: Result<Outcome, Error>)
      requires Valid() && d in graphs && graphs[d].Some? && IsRandomText(a.drawn)
      modifies this
      ensures Valid()
      ensures var t := Travel(old(graphs[d].value), node, apkPackage, a);
        graphs == old(graphs)[d := Some(t.graph)] && r == Reported(t.result, BackTo(a.backFrom, apkPackage, a.polls))
      ensures r == Success(Stayed) ==> d in curActivity && curActivity[d] == a.before.activity
      ensures r.Success? && r.value.Left? && r.value.decision.MoveTo? ==>
        d in curActivity && curActivity[d] == r.value.decision.activity
      ensures r == Success(Left(Revisit)) ==>
        d in curActivity && curActivity[d] == a.arrived
      ensures curActivity ==
        if a.foreground != Some(apkPackage) then old(curActivity)
        else if Leaves(old(graphs[d].value), node, apkPackage, a)
        then old(curActivity)[d := LeftAt(r, a.landed.activity, BackTo(a.backFrom, apkPackage, a.polls), a.arrived)]
        else old(curActivity)[d := a.before.activity]
      ensures var s1 := NewScreen(old(graphs[d].value), a.before, apkPackage, None);
        randomText ==
          if && a.foreground == Some(apkPackage) && s1.result.Success? && ClickableList(a.dump).Success?
             && TypesText(s1.graph, node, ClickableList(a.dump).value, a.widget)
          then SharedText(old(randomText), a.drawn) else old(randomText)
      ensures old(randomText) != "" ==> randomText == old(randomText)
      ensures serials == old(serials) && apkRunning == old(apkRunning) && nthTry == old(nthTry)
    {
      ghost var g0 := graphs[d].value;
      if a.foreground != Some(apkPackage) {
        return Failure(NotForeground);
      }
      var added := AddNewActivity(d, apkPackage, a.before, None);
      if added.Failure? {
        return Failure(added.error);
      }
      r := VisitAndLeave(d, node, apkPackage, a);
    }

    /** The part of `travel_node` after the first screen is added. */
    method VisitAndLeave(d: string, node: string, apkPackage: string, a: Answers) returns (r: Result<Outcome, Error>)
      requires Valid() && d in graphs && graphs[d].Some? && IsRandomText(a.drawn)
      modifies this
      ensures Valid()
      ensures var t := AfterAdding(old(graphs[d].value), node, apkPackage, a);
        graphs == old(graphs)[d := Some(t.graph)] && r == Reported(t.result, BackTo(a.backFrom, apkPackage, a.polls))
      ensures curActivity ==
        if VisitLeaves(old(graphs[d].value), node, a)
        then old(curActivity)[d := LeftAt(r, a.landed.activity, BackTo(a.backFrom, apkPackage, a.polls), a.arrived)]
        else old(curActivity)
      ensures randomText ==
        if ClickableList(a.dump).Success? && TypesText(old(graphs[d].value), node, ClickableList(a.dump).value, a.widget)
        then SharedText(old(randomText), a.drawn) else old(randomText)
      ensures serials == old(serials) && apkRunning == old(apkRunning) && nthTry == old(nthTry)
    {
      var visit := VisitNode(d, node, a.dump, a.widget, a.after, a.drawn);
      if visit.Failure? {
        return Failure(visit.error);
      }
      if visit.value == Some(true) {
        return Success(Stayed);
      }
      r := LeaveActivity(d, node, apkPackage, a);
    }

    /** The branch of `travel_node` taken when the visit did not report
      staying on the node's activity. */
    method LeaveActivity(d: string, node: string, apkPackage: string, a: Answers) returns (r: Result<Outcome, Error>)
      requires Valid() && d in graphs && graphs[d].Some?
      modifies this
      ensures Valid()
      ensures var t := AfterLeaving(old(graphs[d].value), node, apkPackage, a);
        graphs == old(graphs)[d := Some(t.graph)] && r == Reported(t.result, BackTo(a.backFrom, apkPackage, a.polls))
      ensures r.Success? && r.value.Left? && r.value.decision.MoveTo? ==>
        d in curActivity && curActivity[d] == r.value.decision.activity
      ensures r == Success(Left(Revisit)) ==>
        d in curActivity && curActivity[d] == a.arrived
      ensures r != Success(Stayed)
      ensures curActivity == old(curActivity)[d := LeftAt(r, a.landed.activity, BackTo(a.backFrom, apkPackage, a.polls), a.arrived)]
      ensures randomText == old(randomText)
      ensures serials == old(serials) && apkRunning == old(apkRunning) && nthTry == old(nthTry)
    {
      ghost var g1 := graphs[d].value;
      var landed := AddNewActivity(d, apkPackage, a.landed, Some(node));
      if landed.Failure? {
        return Failure(landed.error);
      }
      ghost var g2 := graphs[d].value;
      ghost var l := Leave(g2, node, a.prevActivity);
      var pending := GetNextNodes(d, a.prevActivity);
      if pending.Failure? {
        return Failure(pending.error);
      }
      assert a.prevActivity.Some? ==> (|pending.value| != 0 <==> HasPending(g2, a.prevActivity.value)) by {
        if a.prevActivity.Some? && |pending.value| != 0 {
          assert Pending(g2, a.prevActivity.value, pending.value[0]);
        }
      }
      if |pending.value| != 0 {
        var g := graphs[d].value;
        if node !in g.nodes {
          assert l == Step(g2, Failure(KeyError(node)));
          return Failure(KeyError(node));
        }
        if !g.nodes[node].ElementNode? {
          assert l == Step(g2, Failure(KeyError("second_visit")));
          return Failure(KeyError("second_visit"));
        }
        if !g.nodes[node].secondVisit {
          assert l.result == Success(Revisit);
          r := GrantSecondVisit(d, node, apkPackage, a.backFrom, a.polls, a.arrived);
          return;
        }
      }
      assert l == MoveStep(g2);
      var next := NextActivity(d);
      if next.Failure? {
        return Failure(next.error);
      }
      curActivity := curActivity[d := next.value];
      return Success(Left(MoveTo(next.value)));
    }

    /** The second visit `travel_node` grants: the node is made unvisited
        with `second_visit` set, and back is pressed. */
    method GrantSecondVisit(d: string, node: string, apkPackage: string, backFrom: Option<string>, polls: seq<Screen>,
                            arrived: Option<string>)
      returns (r: Result<Outcome, Error>)
      requires Valid() && d in graphs && graphs[d].Some?
      requires node in graphs[d].value.nodes && graphs[d].value.nodes[node].ElementNode?
      modifies this
      ensures Valid()
      ensures var g := old(graphs[d].value);
        graphs == old(graphs)[d := Some(SetNode(g, node, g.nodes[node].(visited := false, secondVisit := true)))]
      ensures r == Reported(Success(Left(Revisit)), BackTo(backFrom, apkPackage, polls))
      ensures r == Success(Left(Revisit)) ==> d in curActivity && curActivity[d] == arrived
      ensures var back := BackTo(backFrom, apkPackage, polls);
        curActivity == if back.Success? then old(curActivity)[d := arrived] else old(curActivity)
      ensures randomText == old(randomText)
      ensures serials == old(serials) && apkRunning == old(apkRunning) && nthTry == old(nthTry)
    {
      ghost var g := graphs[d].value;
      var u1 := UpdateAttr(d, node, Visited, false);
      var u2 := UpdateAttr(d, node, SecondVisit, true);
      assert graphs[d].value == SetNode(g, node, g.nodes[node].(visited := false, secondVisit := true));
      var back := PressBack(d, apkPackage, backFrom, polls, arrived);
      if back.Failure? {
        return Failure(back.error);
      }
      return Success(Left(Revisit));
    }
  }
}
