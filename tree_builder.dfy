/**
 * lib/buildTree.ts: `buildTree` turns the flat, `parentId`-linked snapshot
 * into a hierarchy. The first pass indexes every node by id (a later node
 * with the same id replaces an earlier one); the second appends each node to
 * its parent's `children` when `parentId` is non-empty and known, and
 * otherwise offers it as the root, where the first offer wins. No offer at
 * all, which includes an empty snapshot, is the error "No root accessibility
 * node found.".
 *
 * A hierarchy is kept by id: `children[p]` lists the ids pushed onto the
 * `children` array of the object the map holds for `p` (the map objects are
 * shared, so an id names the object exactly).
 */
module TreeBuilder {
  import opened Wrappers
  import opened AXNodes

  datatype BuildError = NoRootFound

  datatype Hierarchy = Hierarchy(
    root: NodeId,
    byId: map<NodeId, RawNode>,
    children: map<NodeId, seq<NodeId>>)

  /** The keys of the id map. */
  function Ids(nodes: seq<RawNode>): set<NodeId>
  {
    if nodes == [] then {} else Ids(nodes[..|nodes| - 1]) + {nodes[|nodes| - 1].nodeId}
  }

  lemma {:induction false} IdsMember(nodes: seq<RawNode>, id: NodeId)
    ensures id in Ids(nodes) <==> exists k :: 0 <= k < |nodes| && nodes[k].nodeId == id
  {
    if nodes != [] {
      var init := nodes[..|nodes| - 1];
      IdsMember(init, id);
      if id in Ids(init) {
        var k :| 0 <= k < |init| && init[k].nodeId == id;
        assert nodes[k] == init[k];
      }
      if exists k :: 0 <= k < |nodes| && nodes[k].nodeId == id {
        var k :| 0 <= k < |nodes| && nodes[k].nodeId == id;
        if k < |init| { assert init[k] == nodes[k]; }
      }
    }
  }

  predicate UniqueIds(nodes: seq<RawNode>)
  {
    forall i, j :: 0 <= i < j < |nodes| ==> nodes[i].nodeId != nodes[j].nodeId
  }

  /** The id map after the first pass: `map.set(n.nodeId, { ...n, children: [] })` for each node in turn. */
  function IndexById(nodes: seq<RawNode>): (m: map<NodeId, RawNode>)
    ensures m.Keys == Ids(nodes)
  {
    if nodes == [] then map[]
    else IndexById(nodes[..|nodes| - 1])[nodes[|nodes| - 1].nodeId := nodes[|nodes| - 1]]
  }

  /** `n.parentId && map.has(n.parentId)`. */
  predicate Resolves(n: RawNode, ids: set<NodeId>)
  {
    n.parentId != "" && n.parentId in ids
  }

  /** The ids the second pass pushes onto the children of `p`, in push order. */
  function ChildrenOf(nodes: seq<RawNode>, ids: set<NodeId>, p: NodeId): seq<NodeId>
  {
    if nodes == [] then []
    else
      var n := nodes[|nodes| - 1];
      ChildrenOf(nodes[..|nodes| - 1], ids, p)
        + (if Resolves(n, ids) && n.parentId == p then [n.nodeId] else [])
  }

  function ChildMap(nodes: seq<RawNode>): map<NodeId, seq<NodeId>>
  {
    var ids := Ids(nodes);
    map p | p in ids :: ChildrenOf(nodes, ids, p)
  }

  /** The root the second pass settles on: the first node offered, if any. */
  function FirstRoot(nodes: seq<RawNode>, ids: set<NodeId>): Option<NodeId>
  {
    if nodes == [] then None
    else
      var r := FirstRoot(nodes[..|nodes| - 1], ids);
      var n := nodes[|nodes| - 1];
      if r.Some? then r else if !Resolves(n, ids) then Some(n.nodeId) else None
  }

  /** What `buildTree` returns or throws. */
  function Built(nodes: seq<RawNode>): Result<Hierarchy, BuildError>
  {
    match FirstRoot(nodes, Ids(nodes))
    case None => Failure(NoRootFound)
    case Some(root) => Success(Hierarchy(root, IndexById(nodes), ChildMap(nodes)))
  }

  /** The first pass, `nodes.forEach((n) => map.set(n.nodeId, { ...n, children: [] }))`, shared by both builders. */
  method IndexPass(nodes: seq<RawNode>) returns (byId: map<NodeId, RawNode>, children: map<NodeId, seq<NodeId>>)
    ensures byId == IndexById(nodes)
    ensures children.Keys == Ids(nodes)
    ensures forall p :: p in children ==> children[p] == []
  {
    byId := map[];
    children := map[];
    var i := 0;
    while i < |nodes|
      invariant 0 <= i <= |nodes|
      invariant byId == IndexById(nodes[..i])
      invariant children.Keys == byId.Keys
      invariant forall p :: p in children ==> children[p] == []
    {
      assert nodes[..i + 1][..i] == nodes[..i];
      byId := byId[nodes[i].nodeId := nodes[i]];
      children := children[nodes[i].nodeId := []];
      i := i + 1;
    }
    assert nodes[..i] == nodes;
  }

  /** Child lists that agree with `ChildrenOf` on every id are the child map. */
  lemma ChildListsAreChildMap(nodes: seq<RawNode>, children: map<NodeId, seq<NodeId>>)
    requires children.Keys == Ids(nodes)
    requires forall p :: p in children ==> children[p] == ChildrenOf(nodes, Ids(nodes), p)
    ensures children == ChildMap(nodes)
  {
  }

  method BuildTree(nodes: seq<RawNode>) returns (r: Result<Hierarchy, BuildError>)
    ensures r == Built(nodes)
  {
    var byId, children := IndexPass(nodes);
    var ids := byId.Keys;
    var root: Option<NodeId> := None;
    var i := 0;
    while i < |nodes|
      invariant 0 <= i <= |nodes|
      invariant children.Keys == ids
      invariant forall p :: p in ids ==> children[p] == ChildrenOf(nodes[..i], ids, p)
      invariant root == FirstRoot(nodes[..i], ids)
    {
      AttachStep(nodes, ids, i, children);
      FirstRootStep(nodes, ids, i);
      var n := nodes[i];
      if n.parentId != "" && n.parentId in byId {
        children := children[n.parentId := children[n.parentId] + [n.nodeId]];
      } else if root.None? {
        root := Some(n.nodeId);
      }
      i := i + 1;
    }
    assert nodes[..i] == nodes;
    if root.None? {
      return Failure(NoRootFound);
    }
    ChildListsAreChildMap(nodes, children);
    return Success(Hierarchy(root.value, byId, children));
  }

  /**
   * One step of the second pass on the child lists: pushing node i onto its
   * parent's list, when the parent resolves, extends every list by exactly
   * node i's contribution. Both builders attach children this way.
   */
  lemma AttachStep(nodes: seq<RawNode>, ids: set<NodeId>, i: nat, children: map<NodeId, seq<NodeId>>)
    requires i < |nodes|
    requires children.Keys == ids
    requires forall p :: p in ids ==> children[p] == ChildrenOf(nodes[..i], ids, p)
    ensures var n := nodes[i];
            var next := if Resolves(n, ids) then children[n.parentId := children[n.parentId] + [n.nodeId]] else children;
            next.Keys == ids && forall p :: p in ids ==> next[p] == ChildrenOf(nodes[..i + 1], ids, p)
  {
    assert nodes[..i + 1][..i] == nodes[..i];
  }

  /** One step of the second pass on the root. */
  lemma FirstRootStep(nodes: seq<RawNode>, ids: set<NodeId>, i: nat)
    requires i < |nodes|
    ensures FirstRoot(nodes[..i + 1], ids)
              == if FirstRoot(nodes[..i], ids).Some? then FirstRoot(nodes[..i], ids)
                 else if !Resolves(nodes[i], ids) then Some(nodes[i].nodeId) else None
  {
    assert nodes[..i + 1][..i] == nodes[..i];
  }

  // ----- What the first pass keeps -----

  /** The map holds, for every id, the last node in list order that carries it. */
  lemma {:induction false} IndexHoldsLastOccurrence(nodes: seq<RawNode>, id: NodeId)
    requires id in Ids(nodes)
    ensures exists k :: 0 <= k < |nodes| && nodes[k] == IndexById(nodes)[id] && nodes[k].nodeId == id
                        && forall j :: k < j < |nodes| ==> nodes[j].nodeId != id
  {
    var init, n := nodes[..|nodes| - 1], nodes[|nodes| - 1];
    if n.nodeId != id {
      IndexHoldsLastOccurrence(init, id);
      var k :| 0 <= k < |init| && init[k] == IndexById(init)[id] && init[k].nodeId == id
               && forall j :: k < j < |init| ==> init[j].nodeId != id;
      assert nodes[k] == init[k];
    }
  }

  // ----- Root selection -----

  /** The root is the first node whose parent is empty or unknown; there is none iff every parent resolves. */
  lemma {:induction false} FirstRootIsFirstUnresolved(nodes: seq<RawNode>, ids: set<NodeId>)
    ensures FirstRoot(nodes, ids).None? <==> forall k :: 0 <= k < |nodes| ==> Resolves(nodes[k], ids)
    ensures FirstRoot(nodes, ids).Some? ==>
              exists k :: 0 <= k < |nodes| && !Resolves(nodes[k], ids)
                          && nodes[k].nodeId == FirstRoot(nodes, ids).value
                          && forall j :: 0 <= j < k ==> Resolves(nodes[j], ids)
  {
    if nodes != [] {
      var init := nodes[..|nodes| - 1];
      FirstRootIsFirstUnresolved(init, ids);
      if FirstRoot(init, ids).Some? {
        var k :| 0 <= k < |init| && !Resolves(init[k], ids) && init[k].nodeId == FirstRoot(init, ids).value
                 && forall j :: 0 <= j < k ==> Resolves(init[j], ids);
        assert nodes[k] == init[k];
      } else {
        assert forall j :: 0 <= j < |init| ==> nodes[j] == init[j];
      }
    }
  }

  /** `buildTree` throws iff every node names a known, non-empty parent; an empty snapshot throws. */
  lemma BuildFailsIffEveryParentResolves(nodes: seq<RawNode>)
    ensures Built(nodes).Failure? <==> forall k :: 0 <= k < |nodes| ==> Resolves(nodes[k], Ids(nodes))
    ensures nodes == [] ==> Built(nodes) == Failure(NoRootFound)
  {
    FirstRootIsFirstUnresolved(nodes, Ids(nodes));
  }

  /** The returned root is the id of the first node in list order whose parent is empty or unknown. */
  lemma BuiltRootIsFirstUnresolved(nodes: seq<RawNode>)
    requires Built(nodes).Success?
    ensures exists k :: 0 <= k < |nodes| && !Resolves(nodes[k], Ids(nodes))
                        && nodes[k].nodeId == Built(nodes).value.root
                        && forall j :: 0 <= j < k ==> Resolves(nodes[j], Ids(nodes))
  {
    FirstRootIsFirstUnresolved(nodes, Ids(nodes));
  }

  // ----- Child attachment -----

  lemma {:induction false} ChildrenOfAppend(a: seq<RawNode>, b: seq<RawNode>, ids: set<NodeId>, p: NodeId)
    ensures ChildrenOf(a + b, ids, p) == ChildrenOf(a, ids, p) + ChildrenOf(b, ids, p)
    decreases |b|
  {
    if b == [] {
      assert a + b == a;
    } else {
      var b' := b[..|b| - 1];
      assert (a + b)[..|a + b| - 1] == a + b';
      ChildrenOfAppend(a, b', ids, p);
    }
  }

  /**
   * Node k contributes to the children of `p` exactly its own id, at its own
   * place between the contributions of the nodes before and after it, and
   * only when its parent resolves to `p`: a node is appended to its parent's
   * list and to no other, and each list follows input order.
   */
  lemma ChildrenOfAt(nodes: seq<RawNode>, ids: set<NodeId>, p: NodeId, k: nat)
    requires k < |nodes|
    ensures ChildrenOf(nodes, ids, p)
            == ChildrenOf(nodes[..k], ids, p)
               + (if Resolves(nodes[k], ids) && nodes[k].parentId == p then [nodes[k].nodeId] else [])
               + ChildrenOf(nodes[k + 1..], ids, p)
  {
    assert nodes == nodes[..k] + [nodes[k]] + nodes[k + 1..];
    ChildrenOfAppend(nodes[..k] + [nodes[k]], nodes[k + 1..], ids, p);
    ChildrenOfAppend(nodes[..k], [nodes[k]], ids, p);
    assert [nodes[k]][..0] == [];
  }

  /** An id is among the children of `p` iff some node with that id names `p` as a resolving parent. */
  lemma {:induction false} ChildrenOfMember(nodes: seq<RawNode>, ids: set<NodeId>, p: NodeId, c: NodeId)
    ensures c in ChildrenOf(nodes, ids, p) <==>
            exists k :: 0 <= k < |nodes| && nodes[k].nodeId == c && Resolves(nodes[k], ids) && nodes[k].parentId == p
  {
    if nodes != [] {
      var init := nodes[..|nodes| - 1];
      ChildrenOfMember(init, ids, p, c);
      if c in ChildrenOf(init, ids, p) {
        var k :| 0 <= k < |init| && init[k].nodeId == c && Resolves(init[k], ids) && init[k].parentId == p;
        assert nodes[k] == init[k];
      }
      if exists k :: 0 <= k < |nodes| && nodes[k].nodeId == c && Resolves(nodes[k], ids) && nodes[k].parentId == p {
        var k :| 0 <= k < |nodes| && nodes[k].nodeId == c && Resolves(nodes[k], ids) && nodes[k].parentId == p;
        if k < |init| { assert init[k] == nodes[k]; }
      }
    }
  }

  /** With unique ids, every child of `p` is a node whose `parentId` is `p`. */
  lemma ChildrenNameTheirParent(nodes: seq<RawNode>, p: NodeId, c: NodeId)
    requires UniqueIds(nodes) && Built(nodes).Success?
    requires p in Built(nodes).value.children && c in Built(nodes).value.children[p]
    ensures c in Built(nodes).value.byId && Built(nodes).value.byId[c].parentId == p
  {
    var ids := Ids(nodes);
    ChildrenOfMember(nodes, ids, p, c);
    var k :| 0 <= k < |nodes| && nodes[k].nodeId == c && Resolves(nodes[k], ids) && nodes[k].parentId == p;
    assert c in ids by { IdsMember(nodes, c); }
    IndexHoldsLastOccurrence(nodes, c);
    var k' :| 0 <= k' < |nodes| && nodes[k'] == IndexById(nodes)[c] && nodes[k'].nodeId == c
              && forall j :: k' < j < |nodes| ==> nodes[j].nodeId != c;
    assert k' == k;
  }

  /** With unique ids, a node whose parent is empty or unknown, the root included, is nobody's child. */
  lemma UnresolvedNodesAreUnattached(nodes: seq<RawNode>, k: nat, p: NodeId)
    requires UniqueIds(nodes) && k < |nodes| && !Resolves(nodes[k], Ids(nodes))
    ensures nodes[k].nodeId !in ChildrenOf(nodes, Ids(nodes), p)
  {
    ChildrenOfMember(nodes, Ids(nodes), p, nodes[k].nodeId);
  }

  /**
   * Without unique ids the parent link breaks: the second "a" has no parent,
   * yet the id "a" sits among the children of "r" and the map holds the
   * second record for it.
   */
  lemma DuplicateIdBreaksParentLink()
    ensures var r := RawNode("r", "RootWebArea", "", false, [], "", []);
            var a1 := RawNode("a", "link", "", false, [], "r", []);
            var a2 := RawNode("a", "button", "", false, [], "", []);
            var h := Built([r, a1, a2]);
            h.Success? && h.value.root == "r" && h.value.children["r"] == ["a"]
            && h.value.byId["a"] == a2 && h.value.byId["a"].parentId != "r"
  {
    var r := RawNode("r", "RootWebArea", "", false, [], "", []);
    var a1 := RawNode("a", "link", "", false, [], "r", []);
    var a2 := RawNode("a", "button", "", false, [], "", []);
    var nodes := [r, a1, a2];
    assert nodes[..2] == [r, a1] && [r, a1][..1] == [r] && [r][..0] == [];
    var ids := Ids(nodes);
    assert ids == {"r", "a"} by {
      assert Ids([r]) == {"r"};
      assert Ids([r, a1]) == {"r", "a"};
    }
    assert FirstRoot([r], ids) == Some("r");
    assert FirstRoot([r, a1], ids) == Some("r");
    assert FirstRoot(nodes, ids) == Some("r");
    assert ChildrenOf([r], ids, "r") == [];
    assert ChildrenOf([r, a1], ids, "r") == ["a"];
    assert ChildrenOf(nodes, ids, "r") == ["a"];
    assert IndexById([r, a1]) == map["r" := r, "a" := a1];
    assert IndexById(nodes)["a"] == a2;
  }

  /** The three-node snapshot: root "1" with children "2" and "3" in that order. */
  lemma ThreeNodeSnapshot()
    ensures var n1 := RawNode("1", "RootWebArea", "", false, [], "", []);
            var n2 := RawNode("2", "link", "Home", false, [], "1", []);
            var n3 := RawNode("3", "generic", "", false, [], "1", []);
            var h := Built([n1, n2, n3]);
            h.Success? && h.value.root == "1" && h.value.children["1"] == ["2", "3"]
            && h.value.children["2"] == [] && h.value.children["3"] == []
  {
    var n1 := RawNode("1", "RootWebArea", "", false, [], "", []);
    var n2 := RawNode("2", "link", "Home", false, [], "1", []);
    var n3 := RawNode("3", "generic", "", false, [], "1", []);
    var nodes := [n1, n2, n3];
    assert nodes[..2] == [n1, n2] && [n1, n2][..1] == [n1] && [n1][..0] == [];
    var ids := Ids(nodes);
    assert ids == {"1", "2", "3"} by {
      assert Ids([n1]) == {"1"};
      assert Ids([n1, n2]) == {"1", "2"};
    }
    assert FirstRoot([n1], ids) == Some("1");
    assert FirstRoot([n1, n2], ids) == Some("1");
    assert FirstRoot(nodes, ids) == Some("1");
    assert ChildrenOf([n1], ids, "1") == [];
    assert ChildrenOf([n1, n2], ids, "1") == ["2"];
    assert ChildrenOf(nodes, ids, "1") == ["2", "3"];
    assert ChildrenOf([n1], ids, "2") == [];
    assert ChildrenOf([n1, n2], ids, "2") == [];
    assert ChildrenOf(nodes, ids, "2") == [];
    assert ChildrenOf([n1], ids, "3") == [];
    assert ChildrenOf([n1, n2], ids, "3") == [];
    assert ChildrenOf(nodes, ids, "3") == [];
  }
}
