/** The exploration graph a device builds while one application is tested:
    a package node, activity nodes (screens) and element nodes (widgets),
    keyed by string ids, with containment edges. The graph side of the
    driver's operations is written here as functions from a graph and the
    device's answers to the new graph and to what the source returns or
    raises; the driver class applies them to its per-device state. */
module ExplorationGraph {
  import opened Wrappers
  import opened Strings
  import opened UiSnapshot

  /** The separator between an activity and the element part of an id. */
  const Delimiter: string := "___"
  const EditTextClass: string := "android.widget.EditText"
  const CrashSignature: string := "E/AndroidRuntime"

  /** A node with the attributes the driver gives it. `BareNode` is the
      attribute-less node the graph library creates when an edge names an
      endpoint that is not in the graph. */
  datatype Node =
    | PackageNode(visited: bool)
    | ActivityNode(visited: bool)
    | ElementNode(visited: bool, secondVisit: bool, ui: UiRecord, deleted: bool)
    | BareNode

  datatype Graph = Graph(nodes: map<string, Node>, edges: set<(string, string)>)

  const EmptyGraph: Graph := Graph(map[], {})

  /** The exceptions the driver's operations raise: a missing dictionary
      key, `None` used as a node, the application leaving the foreground,
      the attempt's timer running out, an APK without a package name (the
      `IndexError` of `findall(...)[0]`), an install the package list
      does not confirm, and `None` concatenated to a string. */
  datatype Error = KeyError(key: string) | NoneNodeError | NotForeground | Timeout | IndexError | InstallFailed
                 | TypeError

  /** The graph after an operation, with what it returned or raised; an
      exception leaves the graph as far as the operation had changed it. */
  datatype Step<T> = Step(graph: Graph, result: Result<T, Error>)

  // ---------------------------------------------------------------------
  // The graph library's primitives

  /** `add_node` on an existing node merges the new attributes into the old
      ones: an element added again keeps its `difference` mark. */
  function Merge(prior: Node, n: Node): Node {
    if prior.ElementNode? && n.ElementNode? then n.(deleted := prior.deleted) else n
  }

  function AddNode(g: Graph, id: string, n: Node): Graph {
    g.(nodes := g.nodes[id := if id in g.nodes then Merge(g.nodes[id], n) else n])
  }

  function Touch(nodes: map<string, Node>, id: string): map<string, Node> {
    if id in nodes then nodes else nodes[id := BareNode]
  }

  /** `add_edge`: a missing endpoint becomes a bare node. */
  function AddEdge(g: Graph, u: string, v: string): Graph {
    Graph(Touch(Touch(g.nodes, u), v), g.edges + {(u, v)})
  }

  /** `remove_node`: the node and every edge touching it. */
  function RemoveNode(g: Graph, id: string): Graph {
    Graph(g.nodes - {id}, set e | e in g.edges && e.0 != id && e.1 != id)
  }

  function SetNode(g: Graph, id: string, n: Node): Graph {
    g.(nodes := g.nodes[id := n])
  }

  /** Whether the node carries `visited = True`; a bare node has no such
      attribute. */
  predicate IsVisited(n: Node) {
    !n.BareNode? && n.visited
  }

  // ---------------------------------------------------------------------
  // Element ids

  /** The lower-cased last dot-separated segment of a widget class name. */
  function ClassTag(className: string): string {
    Lower(Last(Split(className, ".")))
  }

  /** The id of the widget at position `idx` of an activity's snapshot. */
  function ElementId(activity: string, className: string, idx: nat): string {
    activity + Delimiter + ClassTag(className) + NatToString(idx)
  }

  function IdAt(activity: string, snapshot: seq<UiRecord>, i: nat): string
    requires i < |snapshot|
  {
    ElementId(activity, snapshot[i].className, i)
  }

  function ElementIds(activity: string, snapshot: seq<UiRecord>): set<string> {
    set i | 0 <= i < |snapshot| :: IdAt(activity, snapshot, i)
  }

  function ElementEdges(activity: string, snapshot: seq<UiRecord>): set<(string, string)> {
    set i | 0 <= i < |snapshot| :: (activity, IdAt(activity, snapshot, i))
  }

  /** No later widget of the snapshot gets the same id as widget `i`. */
  predicate LastWithId(activity: string, snapshot: seq<UiRecord>, i: nat)
    requires i < |snapshot|
  {
    forall j :: i < j < |snapshot| ==> IdAt(activity, snapshot, j) != IdAt(activity, snapshot, i)
  }

  /** The node is an element that carries the `difference` mark. */
  predicate WasDeleted(g: Graph, id: string) {
    id in g.nodes && g.nodes[id].ElementNode? && g.nodes[id].deleted
  }

  /** Adding the widget at `idx`: an unvisited element node and the edge
      from its activity. */
  function AddElement(g: Graph, activity: string, ui: UiRecord, idx: nat): Graph {
    var id := ElementId(activity, ui.className, idx);
    AddEdge(AddNode(g, id, ElementNode(false, false, ui, false)), activity, id)
  }

  /** The element loop of `add_new_activity`, over the snapshot in order. */
  function AddElements(g: Graph, activity: string, snapshot: seq<UiRecord>): Graph
    decreases |snapshot|
  {
    if snapshot == [] then g
    else AddElement(AddElements(g, activity, snapshot[..|snapshot| - 1]), activity, Last(snapshot), |snapshot| - 1)
  }

  /** Every element id extends its activity and the delimiter. */
  lemma ElementIdExtends(activity: string, className: string, idx: nat)
    ensures StartsWith(ElementId(activity, className, idx), activity + Delimiter)
    ensures |ElementId(activity, className, idx)| > |activity + Delimiter|
  {
    var id := ElementId(activity, className, idx);
    assert id[..|activity + Delimiter|] == activity + Delimiter;
  }

  lemma ElementIdsExtend(activity: string, snapshot: seq<UiRecord>)
    ensures forall x :: x in ElementIds(activity, snapshot) ==>
      StartsWith(x, activity + Delimiter) && x != activity
  {
    forall x | x in ElementIds(activity, snapshot)
      ensures StartsWith(x, activity + Delimiter) && x != activity
    {
      var i :| 0 <= i < |snapshot| && x == IdAt(activity, snapshot, i);
      ElementIdExtends(activity, snapshot[i].className, i);
    }
  }

  /** One widget: its node is set (merged into an existing node) and the
      edge from the activity added. */
  lemma AddElementStep(g: Graph, activity: string, ui: UiRecord, idx: nat)
    requires activity in g.nodes
    ensures var id := ElementId(activity, ui.className, idx);
      var added := ElementNode(false, false, ui, false);
      var r := AddElement(g, activity, ui, idx);
      && r.nodes == g.nodes[id := if id in g.nodes then Merge(g.nodes[id], added) else added]
      && r.edges == g.edges + {(activity, id)}
  {
  }

  lemma ElementIdsStep(activity: string, snapshot: seq<UiRecord>)
    requires snapshot != []
    ensures var n := |snapshot| - 1;
      && ElementIds(activity, snapshot) == ElementIds(activity, snapshot[..n]) + {IdAt(activity, snapshot, n)}
      && ElementEdges(activity, snapshot) ==
         ElementEdges(activity, snapshot[..n]) + {(activity, IdAt(activity, snapshot, n))}
  {
    var n := |snapshot| - 1;
    var front := snapshot[..n];
    assert forall i :: 0 <= i < n ==> IdAt(activity, front, i) == IdAt(activity, snapshot, i);
    forall x | x in ElementIds(activity, snapshot)
      ensures x in ElementIds(activity, front) + {IdAt(activity, snapshot, n)}
    {
      var i :| 0 <= i < |snapshot| && x == IdAt(activity, snapshot, i);
      if i < n { assert x == IdAt(activity, front, i); }
    }
    forall e | e in ElementEdges(activity, snapshot)
      ensures e in ElementEdges(activity, front) + {(activity, IdAt(activity, snapshot, n))}
    {
      var i :| 0 <= i < |snapshot| && e == (activity, IdAt(activity, snapshot, i));
      if i < n { assert e == (activity, IdAt(activity, front, i)); }
    }
  }

  /** The element loop adds exactly the snapshot's ids and the edges from
      the activity to them, and leaves every other node as it was. */
  lemma {:induction false} AddElementsShape(g: Graph, activity: string, snapshot: seq<UiRecord>)
    requires activity in g.nodes
    ensures var r := AddElements(g, activity, snapshot);
      && r.nodes.Keys == g.nodes.Keys + ElementIds(activity, snapshot)
      && r.edges == g.edges + ElementEdges(activity, snapshot)
      && forall x :: x in g.nodes && x !in ElementIds(activity, snapshot) ==> r.nodes[x] == g.nodes[x]
    decreases |snapshot|
  {
    if snapshot != [] {
      var n := |snapshot| - 1;
      AddElementsShape(g, activity, snapshot[..n]);
      ElementIdsStep(activity, snapshot);
      AddElementStep(AddElements(g, activity, snapshot[..n]), activity, snapshot[n], n);
    }
  }

  /** The node under `x` is an unvisited element without a second visit,
      with the `difference` mark it had in `g`. */
  predicate FreshElement(r: Graph, g: Graph, x: string) {
    x in r.nodes && r.nodes[x].ElementNode? && !r.nodes[x].visited && !r.nodes[x].secondVisit
    && r.nodes[x].deleted == WasDeleted(g, x)
  }

  /** Every element node of the snapshot is unvisited, without a second
      visit, and keeps the `difference` mark it had before. */
  lemma {:induction false} AddElementsFresh(g: Graph, activity: string, snapshot: seq<UiRecord>)
    requires activity in g.nodes
    ensures forall x :: x in ElementIds(activity, snapshot) ==>
      FreshElement(AddElements(g, activity, snapshot), g, x)
    decreases |snapshot|
  {
    if snapshot != [] {
      var n := |snapshot| - 1;
      var front := snapshot[..n];
      var r0 := AddElements(g, activity, front);
      var r := AddElements(g, activity, snapshot);
      var id := IdAt(activity, snapshot, n);
      assert r == AddElement(r0, activity, snapshot[n], n);
      AddElementsFresh(g, activity, front);
      AddElementsShape(g, activity, front);
      ElementIdsStep(activity, snapshot);
      AddElementStep(r0, activity, snapshot[n], n);
      assert WasDeleted(r0, id) == WasDeleted(g, id) by {
        if id in ElementIds(activity, front) {
          assert FreshElement(r0, g, id);
        }
      }
      forall x | x in ElementIds(activity, snapshot)
        ensures FreshElement(r, g, x)
      {
        if x != id {
          assert FreshElement(r0, g, x);
          assert r.nodes[x] == r0.nodes[x];
        }
      }
    }
  }

  /** The element node of widget `i` carries that widget when no later
      widget gets the same id. */
  lemma {:induction false} AddElementsUi(g: Graph, activity: string, snapshot: seq<UiRecord>, i: nat)
    requires activity in g.nodes && i < |snapshot| && LastWithId(activity, snapshot, i)
    ensures var r := AddElements(g, activity, snapshot);
      var id := IdAt(activity, snapshot, i);
      id in r.nodes && r.nodes[id].ElementNode? && r.nodes[id].ui == snapshot[i]
    decreases |snapshot|
  {
    var n := |snapshot| - 1;
    var front := snapshot[..n];
    var r0 := AddElements(g, activity, front);
    var r := AddElements(g, activity, snapshot);
    assert r == AddElement(r0, activity, snapshot[n], n);
    AddElementStep(r0, activity, snapshot[n], n);
    if i < n {
      var id := IdAt(activity, snapshot, i);
      assert IdAt(activity, front, i) == id;
      assert LastWithId(activity, front, i) by {
        forall j | i < j < |front|
          ensures IdAt(activity, front, j) != IdAt(activity, front, i)
        {
          assert IdAt(activity, front, j) == IdAt(activity, snapshot, j);
        }
      }
      AddElementsUi(g, activity, front, i);
      assert id != IdAt(activity, snapshot, n);
      assert r.nodes[id] == r0.nodes[id];
    }
  }

  // ---------------------------------------------------------------------
  // add_new_activity

  /** The activity and, on the first screen, the package it belongs to. */
  function ActivityInserted(g: Graph, activity: string, apkPackage: string, preNode: Option<string>): Graph {
    if apkPackage !in g.nodes then
      AddEdge(AddNode(AddNode(g, apkPackage, PackageNode(true)), activity, ActivityNode(true)), apkPackage, activity)
    else
      var g1 := AddNode(g, activity, ActivityNode(false));
      if preNode.Some? then AddEdge(g1, preNode.value, activity) else g1
  }

  /** The graph part of `add_new_activity`: `activity` and `package` are the
      foreground activity and package the device reports, `apkPackage` the
      package of the application under test, `snapshot` the clickable
      widgets of the current screen. */
  function NewActivity(g: Graph, activity: Option<string>, package: Option<string>, apkPackage: string,
                       snapshot: seq<UiRecord>, preNode: Option<string>): Step<()>
  {
    if activity.Some? && activity.value in g.nodes then Step(g, Success(()))
    else if package != Some(apkPackage) then Step(g, Success(()))
    else if activity.None? then
      Step(if apkPackage in g.nodes then g else AddNode(g, apkPackage, PackageNode(true)), Failure(NoneNodeError))
    else
      Step(AddElements(ActivityInserted(g, activity.value, apkPackage, preNode), activity.value, snapshot), Success(()))
  }

  /** A known activity, or a foreground package other than the
      application's, leaves the graph as it is. */
  lemma NewActivityUnchanged(g: Graph, activity: Option<string>, package: Option<string>, apkPackage: string,
                             snapshot: seq<UiRecord>, preNode: Option<string>)
    requires (activity.Some? && activity.value in g.nodes) || package != Some(apkPackage)
    ensures NewActivity(g, activity, package, apkPackage, snapshot, preNode) == Step(g, Success(()))
  {
  }

  /** With no activity reported, `None` becomes a node: the call raises,
      after adding the package node if it was missing. */
  lemma NewActivityWithoutActivity(g: Graph, apkPackage: string, snapshot: seq<UiRecord>, preNode: Option<string>)
    ensures var r := NewActivity(g, None, Some(apkPackage), apkPackage, snapshot, preNode);
      && r.result == Failure(NoneNodeError)
      && r.graph.edges == g.edges
      && r.graph.nodes.Keys == g.nodes.Keys + {apkPackage}
      && (apkPackage !in g.nodes ==> r.graph.nodes[apkPackage] == PackageNode(true))
  {
  }

  /** The first screen of an attempt: a visited package node, a visited
      activity node, the edge between them and the screen's elements, and
      nothing else changes. */
  lemma NewActivityFirstScreen(g: Graph, activity: string, apkPackage: string,
                               snapshot: seq<UiRecord>, preNode: Option<string>)
    requires activity !in g.nodes && apkPackage !in g.nodes
    requires activity != apkPackage && !StartsWith(apkPackage, activity + Delimiter)
    ensures var r := NewActivity(g, Some(activity), Some(apkPackage), apkPackage, snapshot, preNode);
      && r.result.Success?
      && r.graph.nodes.Keys == g.nodes.Keys + {apkPackage, activity} + ElementIds(activity, snapshot)
      && r.graph.nodes[apkPackage] == PackageNode(true)
      && r.graph.nodes[activity] == ActivityNode(true)
      && r.graph.edges == g.edges + {(apkPackage, activity)} + ElementEdges(activity, snapshot)
      && forall x :: x in g.nodes && x !in ElementIds(activity, snapshot) ==> r.graph.nodes[x] == g.nodes[x]
  {
    var g1 := ActivityInserted(g, activity, apkPackage, preNode);
    assert g1.nodes == g.nodes[apkPackage := PackageNode(true)][activity := ActivityNode(true)];
    assert g1.edges == g.edges + {(apkPackage, activity)};
    AddElementsShape(g1, activity, snapshot);
    ElementIdsExtend(activity, snapshot);
  }

  /** A later screen: one unvisited activity node, with an edge from the
      node that led to it when one is given (a bare node if that node is no
      longer in the graph), and the screen's elements. */
  lemma NewActivityLaterScreen(g: Graph, activity: string, apkPackage: string,
                               snapshot: seq<UiRecord>, preNode: Option<string>)
    requires activity !in g.nodes && apkPackage in g.nodes
    requires preNode.Some? ==> preNode.value !in ElementIds(activity, snapshot)
    ensures var r := NewActivity(g, Some(activity), Some(apkPackage), apkPackage, snapshot, preNode);
      var pre := if preNode.Some? then {preNode.value} else {};
      && r.result.Success?
      && r.graph.nodes.Keys == g.nodes.Keys + {activity} + pre + ElementIds(activity, snapshot)
      && r.graph.nodes[activity] == ActivityNode(false)
      && r.graph.edges == g.edges + (if preNode.Some? then {(preNode.value, activity)} else {})
                          + ElementEdges(activity, snapshot)
      && (preNode.Some? && preNode.value !in g.nodes && preNode.value != activity ==>
            r.graph.nodes[preNode.value] == BareNode)
      && forall x :: x in g.nodes && x !in ElementIds(activity, snapshot) ==> r.graph.nodes[x] == g.nodes[x]
  {
    var g1 := ActivityInserted(g, activity, apkPackage, preNode);
    InsertedLater(g, activity, apkPackage, preNode);
    AddElementsShape(g1, activity, snapshot);
    ElementIdsExtend(activity, snapshot);
  }

  /** A later activity is one unvisited node, with an edge from `pre_node`
      when one is given. */
  lemma InsertedLater(g: Graph, activity: string, apkPackage: string, preNode: Option<string>)
    requires activity !in g.nodes && apkPackage in g.nodes
    ensures var g1 := ActivityInserted(g, activity, apkPackage, preNode);
      var pre := if preNode.Some? then {preNode.value} else {};
      && g1.nodes.Keys == g.nodes.Keys + {activity} + pre
      && g1.nodes[activity] == ActivityNode(false)
      && g1.edges == g.edges + (if preNode.Some? then {(preNode.value, activity)} else {})
      && (preNode.Some? && preNode.value !in g.nodes && preNode.value != activity ==>
            g1.nodes[preNode.value] == BareNode)
      && forall x :: x in g.nodes ==> g1.nodes[x] == g.nodes[x]
  {
    var g1 := ActivityInserted(g, activity, apkPackage, preNode);
    var g0 := AddNode(g, activity, ActivityNode(false));
    assert g0.nodes == g.nodes[activity := ActivityNode(false)];
    if preNode.Some? {
      assert g1 == AddEdge(g0, preNode.value, activity);
      assert g1.nodes == Touch(g0.nodes, preNode.value);
    }
  }

  /** Each widget of the snapshot has an unvisited element node under its
      id, without a second visit, reached by an edge from the activity; the
      node carries the widget when no later widget shares its id. */
  lemma NewActivityElements(g: Graph, activity: string, apkPackage: string,
                            snapshot: seq<UiRecord>, preNode: Option<string>, i: nat)
    requires activity !in g.nodes && i < |snapshot|
    ensures var r := NewActivity(g, Some(activity), Some(apkPackage), apkPackage, snapshot, preNode);
      var id := ElementId(activity, snapshot[i].className, i);
      && id in r.graph.nodes
      && r.graph.nodes[id].ElementNode?
      && !r.graph.nodes[id].visited && !r.graph.nodes[id].secondVisit
      && (activity, id) in r.graph.edges
      && (LastWithId(activity, snapshot, i) ==> r.graph.nodes[id].ui == snapshot[i])
  {
    var g1 := ActivityInserted(g, activity, apkPackage, preNode);
    assert activity in g1.nodes;
    AddElementsShape(g1, activity, snapshot);
    AddElementsFresh(g1, activity, snapshot);
    assert IdAt(activity, snapshot, i) in ElementIds(activity, snapshot);
    assert FreshElement(AddElements(g1, activity, snapshot), g1, IdAt(activity, snapshot, i));
    if LastWithId(activity, snapshot, i) {
      AddElementsUi(g1, activity, snapshot, i);
    }
    assert IdAt(activity, snapshot, i) in ElementIds(activity, snapshot);
    assert (activity, IdAt(activity, snapshot, i)) in ElementEdges(activity, snapshot);
  }

  /** An attempt whose first screen has no clickable widget: the graph is
      the package node and the root activity node, and nothing is left to
      visit on the root, which is inserted already visited. */
  lemma FirstScreenNothingPending(activity: string, apkPackage: string, preNode: Option<string>)
    ensures var r := NewActivity(EmptyGraph, Some(activity), Some(apkPackage), apkPackage, [], preNode);
      && r.result.Success?
      && r.graph.nodes.Keys == {apkPackage, activity}
      && r.graph.edges == {(apkPackage, activity)}
      && !HasPending(r.graph, activity)
  {
    var r := NewActivity(EmptyGraph, Some(activity), Some(apkPackage), apkPackage, [], preNode);
    assert r.graph == ActivityInserted(EmptyGraph, activity, apkPackage, preNode);
    assert forall x :: x in r.graph.nodes ==> IsVisited(r.graph.nodes[x]);
  }

  // ---------------------------------------------------------------------
  // Uniqueness and shape of element ids

  predicate EndsWithDigit(s: string) {
    s != [] && IsDigit(Last(s))
  }

  /** Two texts ending in digit runs split the same way when neither part
      before the digits ends in a digit. */
  lemma DigitSuffix(t1: string, d1: string, t2: string, d2: string)
    requires t1 + d1 == t2 + d2
    requires d1 != [] && d2 != [] && AllDigits(d1) && AllDigits(d2)
    requires !EndsWithDigit(t1) && !EndsWithDigit(t2)
    ensures d1 == d2 && t1 == t2
  {
    var s := t1 + d1;
    if |d1| != |d2| {
      assert false;
    }
    assert d1 == s[|t1|..] && d2 == s[|t2|..];
    assert t1 == s[..|t1|] && t2 == s[..|t2|];
  }

  /** Within one activity, ids are unique as long as no class tag ends in a
      digit: equal ids come from the same position and the same tag. */
  lemma ElementIdInjective(activity: string, c1: string, i: nat, c2: string, j: nat)
    requires ElementId(activity, c1, i) == ElementId(activity, c2, j)
    requires !EndsWithDigit(ClassTag(c1)) && !EndsWithDigit(ClassTag(c2))
    ensures i == j && ClassTag(c1) == ClassTag(c2)
  {
    var p := activity + Delimiter;
    var s1 := ClassTag(c1) + NatToString(i);
    var s2 := ClassTag(c2) + NatToString(j);
    assert ElementId(activity, c1, i) == p + s1;
    assert ElementId(activity, c2, j) == p + s2;
    assert s1 == (p + s1)[|p|..] == (p + s2)[|p|..] == s2;
    DigitSuffix(ClassTag(c1), NatToString(i), ClassTag(c2), NatToString(j));
    NatToStringInjective(i, j);
  }

  lemma SplitNoDot(s: string)
    requires '.' !in s
    ensures Split(s, ".") == [s]
  {
    forall j: nat
      ensures !OccursAt(s, ".", j)
    {
      if j + 1 <= |s| {
        assert s[j..j + 1][0] == s[j];
      }
    }
    FindSpec(s, ".");
  }

  /** A class tag ending in a digit breaks uniqueness: widget 1 of class
      `B1` and widget 11 of class `B` of the same screen share an id, and
      the second overwrites the first. */
  lemma ElementIdCollision()
    ensures ElementId("A", "B1", 1) == ElementId("A", "B", 11)
  {
    SplitNoDot("B1");
    SplitNoDot("B");
    assert ClassTag("B1") == Lower("B1") == "b1";
    assert ClassTag("B") == Lower("B") == "b";
    assert NatToString(11) == NatToString(1) + [DigitChar(1)];
  }

  /** The first occurrence of `sub` at or after `from` is at `i`. */
  lemma {:induction false} FindFromAt(s: string, sub: string, from: nat, i: nat)
    requires from <= i <= |s| && OccursAt(s, sub, i)
    requires forall j :: from <= j < i ==> !OccursAt(s, sub, j)
    ensures FindFrom(s, sub, from) == Some(i)
    decreases i - from
  {
    if from < i {
      FindFromAt(s, sub, from + 1, i);
    }
  }

  /** An occurrence in `s` past the prefix `p` is one in the rest. */
  lemma OccursInSuffix(p: string, b: string, sub: string, j: nat)
    requires |p| <= j && OccursAt(p + b, sub, j)
    ensures OccursAt(b, sub, j - |p|)
  {
    assert (p + b)[j..j + |sub|] == b[j - |p|..j - |p| + |sub|];
  }

  /** An id made of two delimiter-free parts, the first not ending in `_`,
      splits back into those two parts. */
  lemma SplitOnDelimiter(a: string, b: string)
    requires !Contains(a, Delimiter) && !Contains(b, Delimiter)
    requires a == [] || Last(a) != '_'
    ensures Split(a + Delimiter + b, Delimiter) == [a, b]
  {
    var s := a + Delimiter + b;
    var k := |a| + |Delimiter|;
    ContainsIff(a, Delimiter);
    ContainsIff(b, Delimiter);
    assert s[|a|..k] == Delimiter;
    forall j | 0 <= j < |a|
      ensures !OccursAt(s, Delimiter, j)
    {
      if j + 3 <= |a| {
        assert a[j..j + 3] == s[j..j + 3];
        assert !OccursAt(a, Delimiter, j);
      } else {
        assert s[j..j + 3][|a| - 1 - j] == s[|a| - 1] == Last(a);
      }
    }
    FindFromAt(s, Delimiter, 0, |a|);
    FindFromSpec(s, Delimiter, k);
    if FindFrom(s, Delimiter, k).Some? {
      var j := FindFrom(s, Delimiter, k).value;
      assert s == (a + Delimiter) + b;
      OccursInSuffix(a + Delimiter, b, Delimiter, j);
    }
    assert SplitFrom(s, Delimiter, k) == [s[k..]];
    assert Split(s, Delimiter) == [s[0..|a|]] + SplitFrom(s, Delimiter, k);
    assert s[0..|a|] == a && s[k..] == b;
  }

  /** Digits appended to a delimiter-free text keep it delimiter-free. */
  lemma NoDelimiterWithDigits(t: string, d: string)
    requires !Contains(t, Delimiter) && AllDigits(d)
    ensures !Contains(t + d, Delimiter)
  {
    ContainsIff(t, Delimiter);
    ContainsIff(t + d, Delimiter);
    forall j: nat
      ensures !OccursAt(t + d, Delimiter, j)
    {
      if j + 3 <= |t| {
        assert t[j..j + 3] == (t + d)[j..j + 3];
        assert !OccursAt(t, Delimiter, j);
      } else if j + 3 <= |t + d| {
        assert (t + d)[j..j + 3][2] == (t + d)[j + 2] == d[j + 2 - |t|];
        assert IsDigit(d[j + 2 - |t|]);
      }
    }
  }

  /** An element id splits on the delimiter into its activity and its tag
      with ordinal, when the activity holds no delimiter and does not end in
      `_` and the tag holds no delimiter. */
  lemma ElementIdSplit(activity: string, className: string, idx: nat)
    requires !Contains(activity, Delimiter) && (activity == [] || Last(activity) != '_')
    requires !Contains(ClassTag(className), Delimiter)
    ensures Split(ElementId(activity, className, idx), Delimiter) ==
      [activity, ClassTag(className) + NatToString(idx)]
  {
    NoDelimiterWithDigits(ClassTag(className), NatToString(idx));
    assert ElementId(activity, className, idx) == activity + Delimiter + (ClassTag(className) + NatToString(idx));
    SplitOnDelimiter(activity, ClassTag(className) + NatToString(idx));
  }

  // ---------------------------------------------------------------------
  // _visit_node

  /** What the device says about the widget found for an element node:
      whether it `exists`, its live class name, and its capabilities. */
  datatype Widget = Widget(onScreen: bool, className: string, longClickable: bool,
                           clickable: bool, checkable: bool, scrollable: bool)

  datatype Action = TypeText | LongClick | Click | Swipe | NoAction

  /** The capability chosen for a widget, in the source's order. */
  function Dispatch(w: Widget): Action {
    if w.className == EditTextClass then TypeText
    else if w.longClickable then LongClick
    else if w.clickable || w.checkable then Click
    else if w.scrollable then Swipe
    else NoAction
  }

  /** Each action is chosen exactly when its capability holds and no
      earlier one does. */
  lemma DispatchPrecedence(w: Widget)
    ensures Dispatch(w) == TypeText <==> w.className == EditTextClass
    ensures Dispatch(w) == LongClick <==> w.className != EditTextClass && w.longClickable
    ensures Dispatch(w) == Click <==>
      w.className != EditTextClass && !w.longClickable && (w.clickable || w.checkable)
    ensures Dispatch(w) == Swipe <==>
      w.className != EditTextClass && !w.longClickable && !w.clickable && !w.checkable && w.scrollable
    ensures Dispatch(w) == NoAction <==>
      w.className != EditTextClass && !w.longClickable && !w.clickable && !w.checkable && !w.scrollable
  {
  }

  function ResourceIds(live: seq<UiRecord>): (ids: seq<string>)
    ensures |ids| == |live| && forall k :: 0 <= k < |live| ==> ids[k] == live[k].resourceId
  {
    seq(|live|, k requires 0 <= k < |live| => live[k].resourceId)
  }

  /** The activity part of a node id: the text before the first delimiter. */
  function ActivityOf(node: string): string {
    Split(node, Delimiter)[0]
  }

  /** The graph part of `_visit_node`: `live` is the screen's clickable
      widgets at the visit, `w` the widget found for the element, and
      `after` the foreground activity once the action is done. The result
      is `None` for a missing node and for a node removed as having no
      usable capability, and otherwise whether the device is still on the
      node's activity. */
  function Visit(g: Graph, node: string, live: seq<UiRecord>, w: Widget, after: Option<string>): Step<Option<bool>> {
    if node !in g.nodes then Step(g, Success(None))
    else
      var stayed := Some(ActivityOf(node)) == after;
      match g.nodes[node]
      case BareNode => Step(g, Failure(KeyError("type")))
      case PackageNode(_) => Step(g, Failure(KeyError("resourceId")))
      case ActivityNode(_) => Step(SetNode(g, node, ActivityNode(true)), Success(Some(stayed)))
      case ElementNode(visited, second, ui, deleted) =>
        if ui.resourceId !in ResourceIds(live) then Step(RemoveNode(g, node), Success(Some(stayed)))
        else if !w.onScreen then Step(SetNode(g, node, ElementNode(visited, second, ui, true)), Success(Some(stayed)))
        else if Dispatch(w) == NoAction then Step(RemoveNode(g, node), Success(None))
        else Step(SetNode(g, node, ElementNode(true, second, ui, deleted)), Success(Some(stayed)))
  }

  /** Only `node` changes: every other node and every edge stays. */
  predicate OnlyNodeChanged(g: Graph, r: Graph, node: string) {
    && r.edges == g.edges
    && r.nodes.Keys == g.nodes.Keys
    && forall x :: x in g.nodes && x != node ==> r.nodes[x] == g.nodes[x]
  }

  /** `node` is removed with its edges, and nothing else changes. */
  ghost predicate NodeRemoved(g: Graph, r: Graph, node: string) {
    && r.nodes.Keys == g.nodes.Keys - {node}
    && (forall x :: x in r.nodes ==> r.nodes[x] == g.nodes[x])
    && forall e :: e in r.edges <==> e in g.edges && e.0 != node && e.1 != node
  }

  /** A node that is not in the graph: nothing changes and `None` is
      returned. */
  lemma VisitMissing(g: Graph, node: string, live: seq<UiRecord>, w: Widget, after: Option<string>)
    requires node !in g.nodes
    ensures Visit(g, node, live, w, after) == Step(g, Success(None))
  {
  }

  /** An activity node is only marked visited. */
  lemma VisitActivity(g: Graph, node: string, live: seq<UiRecord>, w: Widget, after: Option<string>)
    requires node in g.nodes && g.nodes[node].ActivityNode?
    ensures var r := Visit(g, node, live, w, after);
      r.graph.nodes[node] == ActivityNode(true) && OnlyNodeChanged(g, r.graph, node)
      && r.result == Success(Some(Some(ActivityOf(node)) == after))
  {
  }

  /** An element whose resource id is not on the screen any more is
      removed. */
  lemma VisitStale(g: Graph, node: string, live: seq<UiRecord>, w: Widget, after: Option<string>)
    requires node in g.nodes && g.nodes[node].ElementNode?
    requires forall k :: 0 <= k < |live| ==> live[k].resourceId != g.nodes[node].ui.resourceId
    ensures var r := Visit(g, node, live, w, after);
      node !in r.graph.nodes && NodeRemoved(g, r.graph, node) && r.result.Success?
  {
    assert g.nodes[node].ui.resourceId !in ResourceIds(live);
  }

  /** An element on the screen: a widget that does not exist gets the
      `difference` mark and stays unvisited as it was; otherwise an action
      marks it visited, and a widget with no capability is removed and
      `None` returned. */
  lemma VisitElement(g: Graph, node: string, live: seq<UiRecord>, w: Widget, after: Option<string>)
    requires node in g.nodes && g.nodes[node].ElementNode?
    requires exists k :: 0 <= k < |live| && live[k].resourceId == g.nodes[node].ui.resourceId
    ensures var r := Visit(g, node, live, w, after); var n := g.nodes[node];
      && (!w.onScreen ==> OnlyNodeChanged(g, r.graph, node) && r.graph.nodes[node] == n.(deleted := true))
      && (w.onScreen && Dispatch(w) != NoAction ==>
            OnlyNodeChanged(g, r.graph, node) && r.graph.nodes[node] == n.(visited := true))
      && (w.onScreen && Dispatch(w) == NoAction ==>
            NodeRemoved(g, r.graph, node) && r.result == Success(None))
  {
    var k :| 0 <= k < |live| && live[k].resourceId == g.nodes[node].ui.resourceId;
    assert ResourceIds(live)[k] == g.nodes[node].ui.resourceId;
  }

  /** A visit never clears `visited` or `second_visit`; the only nodes it
      newly marks visited are an activity node and an element whose action
      was carried out. */
  lemma VisitMarks(g: Graph, node: string, live: seq<UiRecord>, w: Widget, after: Option<string>, x: string)
    requires x in g.nodes
    ensures var r := Visit(g, node, live, w, after);
      && (x in r.graph.nodes && IsVisited(g.nodes[x]) ==> IsVisited(r.graph.nodes[x]))
      && (x in r.graph.nodes && g.nodes[x].ElementNode? ==>
            r.graph.nodes[x].ElementNode? && r.graph.nodes[x].secondVisit == g.nodes[x].secondVisit)
      && (x in r.graph.nodes && IsVisited(r.graph.nodes[x]) && !IsVisited(g.nodes[x]) ==>
            x == node && (g.nodes[x].ActivityNode? ||
              (g.nodes[x].ElementNode? && g.nodes[x].ui.resourceId in ResourceIds(live)
               && w.onScreen && Dispatch(w) != NoAction)))
  {
  }

  // ---------------------------------------------------------------------
  // get_next_nodes, get_visited_nodes, _next_activity as sets

  /** A node `get_next_nodes(activity)` lists: its id starts with the
      activity's (a plain prefix test) and it is unvisited. */
  ghost predicate Pending(g: Graph, activity: string, id: string) {
    id in g.nodes && StartsWith(id, activity) && !g.nodes[id].BareNode? && !g.nodes[id].visited
  }

  /** A bare node under the prefix, on which `get_next_nodes` raises. */
  ghost predicate BareUnder(g: Graph, activity: string) {
    exists id :: id in g.nodes && StartsWith(id, activity) && g.nodes[id].BareNode?
  }

  ghost predicate HasPending(g: Graph, activity: string) {
    exists id :: Pending(g, activity, id)
  }

  /** A node at which `_next_activity` stops: an unvisited activity, or a
      bare node, whose missing `type` raises. */
  ghost predicate ActivityStop(g: Graph, id: string) {
    id in g.nodes && (g.nodes[id].BareNode? || g.nodes[id] == ActivityNode(false))
  }

  ghost function ActivityStops(g: Graph): set<string> {
    set id | id in g.nodes && ActivityStop(g, id)
  }

  /** `_next_activity`: the first stop in sorted order decides. */
  ghost function NextActivityOf(g: Graph): Result<Option<string>, Error> {
    var stops := ActivityStops(g);
    if stops == {} then Success(None)
    else
      LeastExists(stops);
      var m :| IsLeast(m, stops);
      if g.nodes[m].BareNode? then Failure(KeyError("type")) else Success(Some(m))
  }

  /** The activity chosen is the least unvisited activity, and comes before
      every bare node; `None` means no unvisited activity and no bare node;
      an error means a bare node comes before every unvisited activity. */
  lemma NextActivitySpec(g: Graph)
    ensures var r := NextActivityOf(g);
      && (r.Success? && r.value.Some? ==>
            var a := r.value.value;
            a in g.nodes && g.nodes[a] == ActivityNode(false)
            && forall x :: x in g.nodes && x != a && ActivityStop(g, x) ==> Less(a, x))
      && (r == Success(None) <==> forall x :: x in g.nodes ==> !ActivityStop(g, x))
      && (r.Failure? ==>
            exists b :: (b in g.nodes && g.nodes[b].BareNode?
              && forall x :: x in g.nodes && x != b && ActivityStop(g, x) ==> Less(b, x)))
  {
    var stops := ActivityStops(g);
    assert forall x :: x in g.nodes && ActivityStop(g, x) ==> x in stops;
    if stops != {} {
      LeastExists(stops);
      var m :| IsLeast(m, stops);
      var m' :| IsLeast(m', stops);
      LeastUnique(m, m', stops);
    }
  }

  // ---------------------------------------------------------------------
  // travel_node, after a visit that did not stay on the activity

  datatype Decision = Revisit | MoveTo(activity: Option<string>)

  ghost function MoveStep(g: Graph): Step<Decision> {
    match NextActivityOf(g)
    case Success(a) => Step(g, Success(MoveTo(a)))
    case Failure(e) => Step(g, Failure(e))
  }

  /** The non-random branch of `travel_node` once the visit returned a
      false value and the new screen was added: if the previous activity
      still has unvisited nodes and `node` has not had its second visit, it
      is made unvisited again with `second_visit` set (and the driver
      presses back); otherwise the current activity becomes the next
      unvisited one. */
  ghost function Leave(g: Graph, node: string, prev: Option<string>): Step<Decision> {
    if prev.Some? && BareUnder(g, prev.value) then Step(g, Failure(KeyError("visited")))
    else if prev.Some? && HasPending(g, prev.value) then
      if node !in g.nodes then Step(g, Failure(KeyError(node)))
      else if !g.nodes[node].ElementNode? then Step(g, Failure(KeyError("second_visit")))
      else if !g.nodes[node].secondVisit then
        Step(SetNode(g, node, g.nodes[node].(visited := false, secondVisit := true)), Success(Revisit))
      else MoveStep(g)
    else MoveStep(g)
  }

  /** A re-visit happens exactly when the previous activity still has
      unvisited nodes and `node` is an element without its second visit;
      it makes `node` unvisited with `second_visit` set, and changes nothing
      else. */
  lemma LeaveRevisit(g: Graph, node: string, prev: Option<string>)
    ensures var r := Leave(g, node, prev);
      && (r.result == Success(Revisit) <==>
            prev.Some? && !BareUnder(g, prev.value) && HasPending(g, prev.value)
            && node in g.nodes && g.nodes[node].ElementNode? && !g.nodes[node].secondVisit)
      && (r.result == Success(Revisit) ==>
            OnlyNodeChanged(g, r.graph, node)
            && r.graph.nodes[node] == g.nodes[node].(visited := false, secondVisit := true))
      && (r.result != Success(Revisit) ==> r.graph == g)
  {
  }

  /** A node re-visited once is never re-visited again: the second visit
      is a one-time allowance. */
  lemma LeaveAtMostOnce(g: Graph, node: string, prev: Option<string>, prev2: Option<string>)
    requires Leave(g, node, prev).result == Success(Revisit)
    ensures Leave(Leave(g, node, prev).graph, node, prev2).result != Success(Revisit)
  {
    LeaveRevisit(g, node, prev);
    LeaveRevisit(Leave(g, node, prev).graph, node, prev2);
  }

  /** Without a previous activity, or with none of its nodes left, the
      current activity becomes the next unvisited activity. */
  lemma LeaveMoves(g: Graph, node: string, prev: Option<string>)
    requires prev.None? || (!BareUnder(g, prev.value) && !HasPending(g, prev.value))
    ensures Leave(g, node, prev) == MoveStep(g)
  {
  }

  // ---------------------------------------------------------------------
  // _write_log's verdict

  datatype Verdict = Passed | Hung | NotInForeground | RuntimeError | GraphMismatch

  /** The failure number written to the results log; 0 for success. */
  function FailureCode(v: Verdict): nat {
    match v
    case Passed => 0
    case Hung => 1
    case NotInForeground => 2
    case RuntimeError => 3
    case GraphMismatch => 4
  }

  /** The verdict of `_write_log`: `listed` says whether the device is in
      `adb devices`, `foreground` is the foreground package, `dump` the
      captured log, and `isomorphic` the graph library's comparison of the
      leader's graph with this device's. */
  function WriteLogVerdict(listed: bool, apkPackage: string, foreground: Option<string>, dump: string,
                           leaderMode: bool, isomorphic: bool): Verdict
  {
    if !listed then Hung
    else if foreground != Some(apkPackage) then NotInForeground
    else if Contains(dump, CrashSignature) then RuntimeError
    else if leaderMode && !isomorphic then GraphMismatch
    else Passed
  }

  /** Each failure is reported only when every earlier check passed, and
      success only when all checks pass. */
  lemma WriteLogVerdictPrecedence(listed: bool, apkPackage: string, foreground: Option<string>, dump: string,
                                  leaderMode: bool, isomorphic: bool)
    ensures var v := WriteLogVerdict(listed, apkPackage, foreground, dump, leaderMode, isomorphic);
      && (FailureCode(v) == 1 <==> !listed)
      && (FailureCode(v) == 2 <==> listed && foreground != Some(apkPackage))
      && (FailureCode(v) == 3 <==> listed && foreground == Some(apkPackage) && Contains(dump, CrashSignature))
      && (FailureCode(v) == 4 <==>
            listed && foreground == Some(apkPackage) && !Contains(dump, CrashSignature) && leaderMode && !isomorphic)
      && (v == Passed <==>
            listed && foreground == Some(apkPackage) && !Contains(dump, CrashSignature) && (leaderMode ==> isomorphic))
  {
  }

  /** A topological isomorphism: a bijection between the node ids that
      maps the edges onto the edges, whatever the attributes. */
  ghost predicate IsIsomorphism(f: map<string, string>, g1: Graph, g2: Graph) {
    && f.Keys == g1.nodes.Keys
    && f.Values == g2.nodes.Keys
    && (forall u, v :: u in f && v in f && f[u] == f[v] ==> u == v)
    && (forall u, v :: u in f && v in f ==> ((u, v) in g1.edges <==> (f[u], f[v]) in g2.edges))
  }

  ghost predicate Isomorphic(g1: Graph, g2: Graph) {
    exists f :: IsIsomorphism(f, g1, g2)
  }

  /** Every graph is isomorphic to itself. */
  lemma IsomorphicReflexive(g: Graph)
    ensures Isomorphic(g, g)
  {
    var f := map x | x in g.nodes :: x;
    assert f.Values == g.nodes.Keys by {
      forall y | y in g.nodes ensures y in f.Values { assert f[y] == y; }
    }
    assert IsIsomorphism(f, g, g);
  }

  lemma {:induction false} InjectiveCard(f: map<string, string>)
    requires forall u, v :: u in f && v in f && f[u] == f[v] ==> u == v
    ensures |f.Values| == |f.Keys|
    decreases |f.Keys|
  {
    if f.Keys != {} {
      var k :| k in f.Keys;
      var f' := f - {k};
      InjectiveCard(f');
      assert f'.Keys == f.Keys - {k};
      assert f'.Values == f.Values - {f[k]} by {
        forall y | y in f.Values - {f[k]}
          ensures y in f'.Values
        {
          var u :| u in f && f[u] == y;
          assert u != k && f'[u] == y;
        }
      }
    }
  }

  /** Isomorphic graphs have the same number of nodes. */
  lemma IsomorphicSameSize(g1: Graph, g2: Graph)
    ensures Isomorphic(g1, g2) ==> |g1.nodes| == |g2.nodes|
  {
    if Isomorphic(g1, g2) {
      var f :| IsIsomorphism(f, g1, g2);
      InjectiveCard(f);
      assert |g1.nodes| == |g1.nodes.Keys|;
      assert |g2.nodes| == |g2.nodes.Keys|;
    }
  }

  /** In leader mode, a follower whose graph has a different number of nodes
      than the leader's is reported as a graph mismatch, not a success, when
      nothing earlier failed. */
  lemma MismatchOnSize(leader: Graph, g: Graph, apkPackage: string, dump: string)
    requires |leader.nodes| != |g.nodes| && !Contains(dump, CrashSignature)
    ensures WriteLogVerdict(true, apkPackage, Some(apkPackage), dump, true, Isomorphic(leader, g)) == GraphMismatch
  {
    IsomorphicSameSize(leader, g);
  }
}
