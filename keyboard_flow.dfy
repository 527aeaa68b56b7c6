/**
 * app/keyboard-flow/page.tsx: the page's own builder, which takes the last
 * node without a `parentId` as the root and silently drops a node whose
 * parent is unknown, and the depth-first walk that lists the focusable links
 * and buttons in the order the flow visits them.
 */
module KeyboardFlow {
  import opened Wrappers
  import opened Seqs
  import opened AXNodes
  import opened TreeBuilder
  import opened RoleFilter

  // ----- buildTreeFromFlat -----

  /** The root `buildTreeFromFlat` ends with: every parentless node overwrites `root`, so the last one wins. */
  function LastParentless(nodes: seq<RawNode>): Option<NodeId>
  {
    if nodes == [] then None
    else
      var n := nodes[|nodes| - 1];
      if n.parentId == "" then Some(n.nodeId) else LastParentless(nodes[..|nodes| - 1])
  }

  /** What `buildTreeFromFlat` returns; `None` is its `null`. The child lists are those of `buildTree`. */
  function FlatBuilt(nodes: seq<RawNode>): Option<Hierarchy>
  {
    match LastParentless(nodes)
    case None => None
    case Some(root) => Some(Hierarchy(root, IndexById(nodes), ChildMap(nodes)))
  }

  method BuildTreeFromFlat(nodes: seq<RawNode>) returns (r: Option<Hierarchy>)
    ensures r == FlatBuilt(nodes)
  {
    var byId, children := IndexPass(nodes);
    var ids := byId.Keys;
    var root: Option<NodeId> := None;
    var i := 0;
    while i < |nodes|
      invariant 0 <= i <= |nodes|
      invariant children.Keys == ids
      invariant forall p :: p in ids ==> children[p] == ChildrenOf(nodes[..i], ids, p)
      invariant root == LastParentless(nodes[..i])
    {
      AttachStep(nodes, ids, i, children);
      LastParentlessStep(nodes, i);
      var n := nodes[i];
      if n.parentId != "" {
        if n.parentId in byId {
          children := children[n.parentId := children[n.parentId] + [n.nodeId]];
        }
      } else {
        root := Some(n.nodeId);
      }
      i := i + 1;
    }
    assert nodes[..i] == nodes;
    if root.None? {
      return None;
    }
    ChildListsAreChildMap(nodes, children);
    return Some(Hierarchy(root.value, byId, children));
  }

  /** One step of the second pass on the root. */
  lemma LastParentlessStep(nodes: seq<RawNode>, i: nat)
    requires i < |nodes|
    ensures LastParentless(nodes[..i + 1])
              == if nodes[i].parentId == "" then Some(nodes[i].nodeId) else LastParentless(nodes[..i])
  {
    assert nodes[..i + 1][..i] == nodes[..i];
  }

  /** The root is the id of the last node without a parent; there is none iff every node names a parent. */
  lemma {:induction false} FlatRootIsLastParentless(nodes: seq<RawNode>)
    ensures FlatBuilt(nodes).None? <==> forall k :: 0 <= k < |nodes| ==> nodes[k].parentId != ""
    ensures FlatBuilt(nodes).Some? ==>
              exists k :: 0 <= k < |nodes| && nodes[k].parentId == ""
                          && nodes[k].nodeId == FlatBuilt(nodes).value.root
                          && forall j :: k < j < |nodes| ==> nodes[j].parentId != ""
  {
    LastParentlessIsLast(nodes);
  }

  lemma {:induction false} LastParentlessIsLast(nodes: seq<RawNode>)
    ensures LastParentless(nodes).None? <==> forall k :: 0 <= k < |nodes| ==> nodes[k].parentId != ""
    ensures LastParentless(nodes).Some? ==>
              exists k :: 0 <= k < |nodes| && nodes[k].parentId == ""
                          && nodes[k].nodeId == LastParentless(nodes).value
                          && forall j :: k < j < |nodes| ==> nodes[j].parentId != ""
  {
    if nodes != [] {
      var init, last := nodes[..|nodes| - 1], |nodes| - 1;
      if nodes[last].parentId == "" {
        assert LastParentless(nodes) == Some(nodes[last].nodeId);
        assert !(forall k :: 0 <= k < |nodes| ==> nodes[k].parentId != "") by {
          assert nodes[last].parentId == "";
        }
      } else {
        LastParentlessIsLast(init);
        assert LastParentless(nodes) == LastParentless(init);
        assert forall j :: 0 <= j < |init| ==> nodes[j] == init[j];
        if LastParentless(init).Some? {
          var k :| 0 <= k < |init| && init[k].parentId == "" && init[k].nodeId == LastParentless(init).value
                   && forall j :: k < j < |init| ==> init[j].parentId != "";
          assert nodes[k] == init[k];
        }
      }
    }
  }

  /**
   * The child lists are those of `buildTree`: an id is a child of a known,
   * non-empty `p` iff some node with that id names `p` as its parent, and node k's id
   * is pushed at its own place in input order.
   */
  lemma FlatChildrenNameTheirParent(nodes: seq<RawNode>, p: NodeId, c: NodeId, k: nat)
    requires FlatBuilt(nodes).Some? && p in FlatBuilt(nodes).value.children && k < |nodes|
    ensures c in FlatBuilt(nodes).value.children[p] <==>
            p != "" && exists j :: 0 <= j < |nodes| && nodes[j].nodeId == c && nodes[j].parentId == p
    ensures FlatBuilt(nodes).value.children[p]
            == ChildrenOf(nodes[..k], Ids(nodes), p)
               + (if p != "" && nodes[k].parentId == p then [nodes[k].nodeId] else [])
               + ChildrenOf(nodes[k + 1..], Ids(nodes), p)
  {
    var ids := Ids(nodes);
    assert p in ids;
    ChildrenOfMember(nodes, ids, p, c);
    ChildrenOfAt(nodes, ids, p, k);
    if p != "" && exists j :: 0 <= j < |nodes| && nodes[j].nodeId == c && nodes[j].parentId == p {
      var j :| 0 <= j < |nodes| && nodes[j].nodeId == c && nodes[j].parentId == p;
      assert Resolves(nodes[j], ids);
    }
  }

  /**
   * A node that names a parent missing from the snapshot is dropped: it is
   * never the root and, when ids are unique, in no child list.
   */
  lemma DanglingNodeIsDropped(nodes: seq<RawNode>, k: nat, p: NodeId)
    requires UniqueIds(nodes) && k < |nodes|
    requires nodes[k].parentId != "" && nodes[k].parentId !in Ids(nodes)
    ensures FlatBuilt(nodes).Some? ==> FlatBuilt(nodes).value.root != nodes[k].nodeId
    ensures nodes[k].nodeId !in ChildrenOf(nodes, Ids(nodes), p)
  {
    UnresolvedNodesAreUnattached(nodes, k, p);
    LastParentlessIsLast(nodes);
    if FlatBuilt(nodes).Some? {
      var j :| 0 <= j < |nodes| && nodes[j].parentId == "" && nodes[j].nodeId == FlatBuilt(nodes).value.root
               && forall i :: j < i < |nodes| ==> nodes[i].parentId != "";
      assert j != k;
    }
  }

  /**
   * On a snapshot with one parentless node whose other nodes all name a known
   * parent, the two builders agree.
   */
  lemma BuildersAgreeOnWellFormedSnapshots(nodes: seq<RawNode>)
    requires forall k :: 0 <= k < |nodes| && nodes[k].parentId != "" ==> nodes[k].parentId in Ids(nodes)
    requires forall i, j :: 0 <= i < |nodes| && 0 <= j < |nodes| && nodes[i].parentId == "" && nodes[j].parentId == ""
               ==> i == j
    ensures Built(nodes).Success? <==> FlatBuilt(nodes).Some?
    ensures Built(nodes).Success? ==> FlatBuilt(nodes) == Some(Built(nodes).value)
  {
    var ids := Ids(nodes);
    FirstRootIsFirstUnresolved(nodes, ids);
    LastParentlessIsLast(nodes);
    if FirstRoot(nodes, ids).Some? {
      var k :| 0 <= k < |nodes| && !Resolves(nodes[k], ids) && nodes[k].nodeId == FirstRoot(nodes, ids).value;
      assert nodes[k].parentId == "";
    }
    if LastParentless(nodes).Some? {
      var k :| 0 <= k < |nodes| && nodes[k].parentId == "" && nodes[k].nodeId == LastParentless(nodes).value
               && forall j :: k < j < |nodes| ==> nodes[j].parentId != "";
      assert !Resolves(nodes[k], ids);
      if FirstRoot(nodes, ids).Some? {
        var k' :| 0 <= k' < |nodes| && !Resolves(nodes[k'], ids) && nodes[k'].nodeId == FirstRoot(nodes, ids).value;
        assert k' == k;
      }
    }
  }

  /** `buildTree` falls back to a dangling node as its root where this page finds no root at all. */
  lemma DanglingOnlySnapshot()
    ensures var a := RawNode("a", "link", "", false, [], "x", []);
            Built([a]).Success? && Built([a]).value.root == "a" && FlatBuilt([a]).None?
  {
  }

  // ----- getFocusableLinksAndButtons -----

  /** `n.properties?.find((p) => p.name === "focusable" && p.value?.value === true)` finds something. */
  predicate HasFocusableProperty(n: RawNode)
  {
    exists i :: 0 <= i < |n.properties| && n.properties[i].name == "focusable" && n.properties[i].value == BoolValue(true)
  }

  /** The test of `dfs`: not ignored, focusable, and a link or a button. */
  predicate IsFocusableLinkOrButton(n: RawNode)
  {
    !n.ignored && HasFocusableProperty(n) && (RoleKey(n) == "link" || RoleKey(n) == "button")
  }

  function FilterFocusable(xs: seq<RawNode>): seq<RawNode>
  {
    if xs == [] then []
    else
      FilterFocusable(xs[..|xs| - 1]) + (if IsFocusableLinkOrButton(xs[|xs| - 1]) then [xs[|xs| - 1]] else [])
  }

  /** The focusable links and buttons of a tree, in pre-order. */
  function Focusables(t: AXNode): seq<RawNode>
  {
    FilterFocusable(Nodes(t))
  }

  lemma {:induction false} FilterFocusableAppend(a: seq<RawNode>, b: seq<RawNode>)
    ensures FilterFocusable(a + b) == FilterFocusable(a) + FilterFocusable(b)
    decreases |b|
  {
    if b == [] {
      assert a + b == a;
    } else {
      var b' := b[..|b| - 1];
      assert (a + b)[..|a + b| - 1] == a + b';
      FilterFocusableAppend(a, b');
    }
  }

  /** The walk's accumulator: `focusable`, pushed to as `dfs` goes. */
  class FocusableCollector {
    var focusable: seq<RawNode>

    constructor()
      ensures focusable == []
    {
      focusable := [];
    }

    /** `dfs(n)`: the node first, then each child subtree in order. */
    method Dfs(n: AXNode)
      modifies this
      ensures focusable == old(focusable) + Focusables(n)
      decreases n, 1
    {
      if IsFocusableLinkOrButton(n.raw) {
        focusable := focusable + [n.raw];
      }
      DfsChildren(n);
      FocusablesSplit(n);
    }

    /** `if (n.children) n.children.forEach(dfs)`. */
    method DfsChildren(n: AXNode)
      modifies this
      ensures focusable == old(focusable) + FocusablesOfFirst(n.children, |n.children|)
      decreases n, 0
    {
      for i := 0 to |n.children|
        invariant focusable == old(focusable) + FocusablesOfFirst(n.children, i)
      {
        Dfs(n.children[i]);
      }
    }
  }

  /** The focusables of the first `i` child subtrees, subtree after subtree. */
  function FocusablesOfFirst(cs: seq<AXNode>, i: nat): seq<RawNode>
    requires i <= |cs|
  {
    if i == 0 then [] else FocusablesOfFirst(cs, i - 1) + Focusables(cs[i - 1])
  }

  lemma {:induction false} FocusablesOfFirstIsFilter(cs: seq<AXNode>, i: nat)
    requires i <= |cs|
    ensures FocusablesOfFirst(cs, i) == FilterFocusable(NodesOf(cs[..i]))
  {
    if i == 0 {
      assert cs[..0] == [];
    } else {
      FocusablesOfFirstIsFilter(cs, i - 1);
      assert cs[..i][..i - 1] == cs[..i - 1];
      FilterFocusableAppend(NodesOf(cs[..i - 1]), Nodes(cs[i - 1]));
    }
  }

  /** A node's focusables are its own, if any, then those of its child subtrees in order. */
  lemma FocusablesSplit(n: AXNode)
    ensures Focusables(n)
            == (if IsFocusableLinkOrButton(n.raw) then [n.raw] else []) + FocusablesOfFirst(n.children, |n.children|)
  {
    FilterFocusableAppend([n.raw], NodesOf(n.children));
    assert [n.raw][..0] == [];
    FocusablesOfFirstIsFilter(n.children, |n.children|);
    assert n.children[..|n.children|] == n.children;
  }

  method GetFocusableLinksAndButtons(root: AXNode) returns (r: seq<RawNode>)
    ensures r == Focusables(root)
  {
    var c := new FocusableCollector();
    c.Dfs(root);
    r := c.focusable;
  }

  lemma {:induction false} FilterFocusableSelects(xs: seq<RawNode>)
    ensures IsSubsequence(FilterFocusable(xs), xs)
    ensures forall x :: x in FilterFocusable(xs) <==> x in xs && IsFocusableLinkOrButton(x)
  {
    if xs == [] {
      SubsequenceRefl(xs);
    } else {
      var init := xs[..|xs| - 1];
      var x := xs[|xs| - 1];
      FilterFocusableSelects(init);
      assert xs == init + [x];
      assert FilterFocusable(xs) == FilterFocusable(init) + (if IsFocusableLinkOrButton(x) then [x] else []);
      if IsFocusableLinkOrButton(x) {
        SubsequenceSnoc(FilterFocusable(init), init, x);
      } else {
        assert FilterFocusable(xs) == FilterFocusable(init);
        SubsequenceExtend(FilterFocusable(init), init, x);
      }
    }
  }

  /**
   * The flow visits exactly the tree's focusable links and buttons, in
   * pre-order: a subsequence of the tree's nodes.
   */
  lemma FocusablesAreTheFocusableNodes(t: AXNode)
    ensures IsSubsequence(Focusables(t), Nodes(t))
    ensures forall x :: x in Focusables(t) <==> x in Nodes(t) && IsFocusableLinkOrButton(x)
    ensures forall x :: x in Focusables(t) ==> !x.ignored && (RoleKey(x) == "link" || RoleKey(x) == "button")
  {
    FilterFocusableSelects(Nodes(t));
  }

  /** With the role filter set to links and buttons, every node of the flow is still drawn. */
  lemma FocusablesSurviveRoleFilter(t: AXNode, x: RawNode)
    requires x in Focusables(t)
    ensures x in Nodes(Prune({"link", "button"}, t))
  {
    FilterFocusableSelects(Nodes(t));
    PruneKeepsMatchingNodes({"link", "button"}, t, x);
  }
}
