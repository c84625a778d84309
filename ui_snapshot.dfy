/** The snapshot filter: the flattened `node` elements of a uiautomator
    dump, each a map from attribute name to value, reduced to the clickable
    widgets that are not the system navigation buttons. */
module UiSnapshot {
  import opened Wrappers
  import opened Strings

  /** The attributes of one `node` element of the dump. */
  type Attributes = map<string, string>

  /** The five attributes the explorer keeps for a widget. */
  datatype UiRecord = UiRecord(
    resourceId: string,
    className: string,
    text: string,
    contentDescription: string,
    bounds: string)

  const BackButton: string := "com.android.systemui:id/back"
  const HomeButton: string := "com.android.systemui:id/home"
  const RecentAppsButton: string := "com.android.systemui:id/recent_apps"

  /** One of the three navigation bar buttons, by substring of the id. */
  predicate IsSystemButton(resourceId: string) {
    Contains(resourceId, BackButton) || Contains(resourceId, HomeButton)
      || Contains(resourceId, RecentAppsButton)
  }

  /** `node.attrib[key]`; a missing key is a `KeyError` carrying the key. */
  function Attr(n: Attributes, key: string): (r: Result<string, string>)
    ensures r.Success? <==> key in n
    ensures r.Success? ==> r.value == n[key]
    ensures r.Failure? ==> r.error == key
  {
    if key in n then Success(n[key]) else Failure(key)
  }

  /** What one pass of the loop body does with a node: `None` for a node
      skipped by `continue`, the record it appends, or the key whose lookup
      raised, in the order the lookups are evaluated. */
  function Examine(n: Attributes): Result<Option<UiRecord>, string> {
    var clickable :- Attr(n, "clickable");
    if clickable == "false" then Success(None)
    else
      var rid :- Attr(n, "resource-id");
      if IsSystemButton(rid) then Success(None)
      else
        var cls :- Attr(n, "class");
        var text :- Attr(n, "text");
        var desc :- Attr(n, "content-desc");
        var bounds :- Attr(n, "bounds");
        Success(Some(UiRecord(rid, cls, text, desc, bounds)))
  }

  /** A node the filter keeps. */
  predicate Kept(n: Attributes) {
    Examine(n).Success? && Examine(n).value.Some?
  }

  /** A node for which the loop body raises no `KeyError`. */
  predicate WellFormed(n: Attributes) {
    && "clickable" in n
    && (n["clickable"] != "false" ==>
          && "resource-id" in n
          && (!IsSystemButton(n["resource-id"]) ==>
                "class" in n && "text" in n && "content-desc" in n && "bounds" in n))
  }

  /** The record a kept node is projected to. */
  predicate HasRecordKeys(n: Attributes) {
    "resource-id" in n && "class" in n && "text" in n && "content-desc" in n && "bounds" in n
  }

  function Record(n: Attributes): UiRecord
    requires HasRecordKeys(n)
  {
    UiRecord(n["resource-id"], n["class"], n["text"], n["content-desc"], n["bounds"])
  }

  /** The loop body raises exactly on nodes that are not well formed; it
      keeps exactly the clickable non-navigation nodes, and projects the five
      attributes under their new names. */
  lemma ExamineSpec(n: Attributes)
    ensures Examine(n).Success? <==> WellFormed(n)
    ensures Kept(n) <==>
      && WellFormed(n) && n["clickable"] != "false"
      && !IsSystemButton(n["resource-id"])
    ensures Kept(n) ==> HasRecordKeys(n) && Examine(n).value.value == Record(n)
  {
  }

  /** The list `get_clickable_list` builds from the nodes in document
      order, or the `KeyError` of the first node that raises. */
  function ClickableList(nodes: seq<Attributes>): Result<seq<UiRecord>, string> {
    if nodes == [] then Success([])
    else
      var front :- ClickableList(nodes[..|nodes| - 1]);
      var kept :- Examine(Last(nodes));
      Success(front + if kept.Some? then [kept.value] else [])
  }

  /** The indices of the kept nodes, in document order. */
  function KeptIndices(nodes: seq<Attributes>): (ks: seq<nat>)
    ensures forall k :: 0 <= k < |ks| ==> ks[k] < |nodes|
  {
    if nodes == [] then []
    else
      var front := KeptIndices(nodes[..|nodes| - 1]);
      front + if Kept(Last(nodes)) then [|nodes| - 1] else []
  }

  method GetClickableList(nodes: seq<Attributes>) returns (r: Result<seq<UiRecord>, string>)
    ensures r == ClickableList(nodes)
  {
    var records: seq<UiRecord> := [];
    for i := 0 to |nodes|
      invariant ClickableList(nodes[..i]) == Success(records)
    {
      assert nodes[..i + 1][..i] == nodes[..i];
      var n := nodes[i];
      assert Last(nodes[..i + 1]) == n;
      if "clickable" !in n {
        FailureExtends(nodes, i + 1);
        return Failure("clickable");
      }
      if n["clickable"] == "false" {
        assert Examine(n) == Success(None);
        ClickableListStep(nodes, i, records);
        continue;
      }
      if "resource-id" !in n {
        FailureExtends(nodes, i + 1);
        return Failure("resource-id");
      }
      var rid := n["resource-id"];
      if Contains(rid, BackButton) || Contains(rid, HomeButton) || Contains(rid, RecentAppsButton) {
        assert Examine(n) == Success(None);
        ClickableListStep(nodes, i, records);
        continue;
      }
      if "class" !in n || "text" !in n || "content-desc" !in n || "bounds" !in n {
        var missing := if "class" !in n then "class" else if "text" !in n then "text"
          else if "content-desc" !in n then "content-desc" else "bounds";
        assert Examine(n) == Failure(missing);
        FailureExtends(nodes, i + 1);
        return Failure(missing);
      }
      assert Examine(n) == Success(Some(Record(n)));
      ClickableListStep(nodes, i, records);
      records := records + [Record(n)];
    }
    assert nodes[..|nodes|] == nodes;
    return Success(records);
  }

  /** One more node extends the list by what the loop body makes of it. */
  lemma ClickableListStep(nodes: seq<Attributes>, i: nat, records: seq<UiRecord>)
    requires i < |nodes| && ClickableList(nodes[..i]) == Success(records)
    requires Examine(nodes[i]).Success?
    ensures var o := Examine(nodes[i]).value;
      ClickableList(nodes[..i + 1]) == Success(if o.Some? then records + [o.value] else records)
  {
    assert nodes[..i + 1][..i] == nodes[..i];
    assert records + [] == records;
  }

  /** A `KeyError` raised at some node ends the whole pass. */
  lemma {:induction false} FailureExtends(nodes: seq<Attributes>, i: nat)
    requires i <= |nodes| && ClickableList(nodes[..i]).Failure?
    ensures ClickableList(nodes) == ClickableList(nodes[..i])
    decreases |nodes|
  {
    if i < |nodes| {
      assert nodes[..i] == nodes[..|nodes| - 1][..i];
      FailureExtends(nodes[..|nodes| - 1], i);
    } else {
      assert nodes[..i] == nodes;
    }
  }

  /** The pass succeeds exactly when every node is well formed. */
  lemma {:induction false} ClickableListSucceeds(nodes: seq<Attributes>)
    ensures ClickableList(nodes).Success? <==> forall i :: 0 <= i < |nodes| ==> WellFormed(nodes[i])
    decreases |nodes|
  {
    if nodes != [] {
      var front := nodes[..|nodes| - 1];
      ClickableListSucceeds(front);
      ExamineSpec(Last(nodes));
      assert forall i :: 0 <= i < |front| ==> front[i] == nodes[i];
    }
  }

  /** The listed indices are exactly those of the kept nodes, each once,
      in increasing order. */
  lemma {:induction false} KeptIndicesSpec(nodes: seq<Attributes>)
    ensures var ks := KeptIndices(nodes);
      && (forall k :: 0 <= k < |ks| ==> Kept(nodes[ks[k]]))
      && (forall k, m :: 0 <= k < m < |ks| ==> ks[k] < ks[m])
      && (forall i :: 0 <= i < |nodes| && Kept(nodes[i]) ==> i in ks)
    decreases |nodes|
  {
    if nodes != [] {
      var front := nodes[..|nodes| - 1];
      KeptIndicesSpec(front);
      assert forall i :: 0 <= i < |front| ==> front[i] == nodes[i];
    }
  }

  /** On success the output holds one record per kept node, in document
      order, each the projection of that node. */
  lemma {:induction false} ClickableListOrder(nodes: seq<Attributes>)
    requires ClickableList(nodes).Success?
    ensures var v := ClickableList(nodes).value; var ks := KeptIndices(nodes);
      && |v| == |ks| <= |nodes|
      && (forall k :: 0 <= k < |ks| ==> HasRecordKeys(nodes[ks[k]]) && v[k] == Record(nodes[ks[k]]))
    decreases |nodes|
  {
    if nodes != [] {
      var front := nodes[..|nodes| - 1];
      ClickableListOrder(front);
      ExamineSpec(Last(nodes));
      assert forall i :: 0 <= i < |front| ==> front[i] == nodes[i];
    }
  }

  /** A node marked `clickable="false"` or a navigation button is never kept. */
  lemma ClickableListExcludes(nodes: seq<Attributes>, i: nat)
    requires i < |nodes| && "clickable" in nodes[i]
    requires nodes[i]["clickable"] == "false"
      || ("resource-id" in nodes[i] && IsSystemButton(nodes[i]["resource-id"]))
    ensures i !in KeptIndices(nodes)
  {
    KeptIndicesSpec(nodes);
    ExamineSpec(nodes[i]);
  }

  /** No record the pass returns is a navigation button. */
  lemma NoSystemButtonRecords(nodes: seq<Attributes>)
    requires ClickableList(nodes).Success?
    ensures forall k :: 0 <= k < |ClickableList(nodes).value| ==>
      !IsSystemButton(ClickableList(nodes).value[k].resourceId)
  {
    ClickableListOrder(nodes);
    KeptIndicesSpec(nodes);
    var ks := KeptIndices(nodes);
    forall k | 0 <= k < |ks|
      ensures !IsSystemButton(ClickableList(nodes).value[k].resourceId)
    {
      ExamineSpec(nodes[ks[k]]);
    }
  }
}
