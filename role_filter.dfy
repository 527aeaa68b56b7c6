/**
 * components/ZoomableAXTree.tsx, the children accessor given to
 * `d3.hierarchy`: with an empty role set every child passes; otherwise a
 * child passes iff its own lower-cased role, or that of some node below it,
 * is in the set, the latter found by a depth-first scan with an explicit
 * stack. `d3.hierarchy` applies the accessor to the root and then to every
 * child it keeps, so the root is always present.
 */
module RoleFilter {
  import opened Seqs
  import opened AXNodes

  /** Some node of `t`, `t` itself included, has its role key in `roles`. */
  predicate SubtreeHasRole(roles: set<string>, t: AXNode)
  {
    RoleKey(t.raw) in roles || exists i :: 0 <= i < |t.children| && SubtreeHasRole(roles, t.children[i])
  }

  /** Some tree of the forest has a node with its role key in `roles`. */
  predicate AnyHasRole(roles: set<string>, ts: seq<AXNode>)
  {
    exists i :: 0 <= i < |ts| && SubtreeHasRole(roles, ts[i])
  }

  lemma AnyHasRoleAppend(roles: set<string>, a: seq<AXNode>, b: seq<AXNode>)
    ensures AnyHasRole(roles, a + b) <==> AnyHasRole(roles, a) || AnyHasRole(roles, b)
  {
    if AnyHasRole(roles, a + b) {
      var i :| 0 <= i < |a + b| && SubtreeHasRole(roles, (a + b)[i]);
      if i >= |a| { assert b[i - |a|] == (a + b)[i]; }
    }
    if AnyHasRole(roles, b) {
      var i :| 0 <= i < |b| && SubtreeHasRole(roles, b[i]);
      assert (a + b)[|a| + i] == b[i];
    }
    if AnyHasRole(roles, a) {
      var i :| 0 <= i < |a| && SubtreeHasRole(roles, a[i]);
      assert (a + b)[i] == a[i];
    }
  }

  /** The recursive test agrees with looking for a matching record anywhere in the subtree. */
  lemma {:induction false} SubtreeHasRoleIffSomeNode(roles: set<string>, t: AXNode)
    ensures SubtreeHasRole(roles, t) <==> exists x :: x in Nodes(t) && RoleKey(x) in roles
  {
    if SubtreeHasRole(roles, t) && RoleKey(t.raw) !in roles {
      var i :| 0 <= i < |t.children| && SubtreeHasRole(roles, t.children[i]);
      SubtreeHasRoleIffSomeNode(roles, t.children[i]);
      var x :| x in Nodes(t.children[i]) && RoleKey(x) in roles;
      NodesOfMember(t.children, x);
    }
    if exists x :: x in Nodes(t) && RoleKey(x) in roles {
      var x :| x in Nodes(t) && RoleKey(x) in roles;
      if x != t.raw {
        NodesOfMember(t.children, x);
        var i :| 0 <= i < |t.children| && x in Nodes(t.children[i]);
        SubtreeHasRoleIffSomeNode(roles, t.children[i]);
      }
    }
  }

  /** The callback of `d.children.filter`: the child's own role, or a hit of the scan below it. */
  predicate KeepChild(roles: set<string>, c: AXNode)
  {
    RoleKey(c.raw) in roles || SubtreeHasRole(roles, c)
  }

  /** `cs.filter(c => KeepChild(roles, c))`. */
  function KeepRelevant(roles: set<string>, cs: seq<AXNode>): (r: seq<AXNode>)
    ensures forall x :: x in r ==> x in cs
  {
    if cs == [] then []
    else
      var c := cs[|cs| - 1];
      KeepRelevant(roles, cs[..|cs| - 1]) + (if KeepChild(roles, c) then [c] else [])
  }

  /** What the accessor returns for node `t`. */
  function KeptChildren(roles: set<string>, t: AXNode): (r: seq<AXNode>)
    ensures forall x :: x in r ==> x in t.children
  {
    if |roles| == 0 then t.children else KeepRelevant(roles, t.children)
  }

  /** The stack scan of lines 132-138: pop the last entry, test it, push its children. */
  method SubtreeHasRoleByStack(roles: set<string>, c: AXNode) returns (found: bool)
    ensures found == SubtreeHasRole(roles, c)
  {
    var stack := [c];
    assert SubtreeHasRole(roles, c) <==> AnyHasRole(roles, stack) by {
      assert stack[0] == c;
    }
    while |stack| > 0
      invariant SubtreeHasRole(roles, c) <==> AnyHasRole(roles, stack)
      decreases |NodesOf(stack)|
    {
      var cur := stack[|stack| - 1];
      var rest := stack[..|stack| - 1];
      assert stack == rest + [cur];
      assert |NodesOf(stack)| == |NodesOf(rest)| + 1 + |NodesOf(cur.children)|;
      AnyHasRoleAppend(roles, rest, [cur]);
      assert AnyHasRole(roles, [cur]) <==> SubtreeHasRole(roles, cur) by {
        assert [cur][0] == cur;
      }
      if RoleKey(cur.raw) in roles {
        return true;
      }
      assert SubtreeHasRole(roles, cur) <==> AnyHasRole(roles, cur.children);
      AnyHasRoleAppend(roles, rest, cur.children);
      NodesOfAppend(rest, cur.children);
      stack := rest + cur.children;
    }
    return false;
  }

  /** The accessor of lines 123-142, one child at a time. */
  method ChildrenAccessor(roles: set<string>, d: AXNode) returns (kept: seq<AXNode>)
    ensures kept == KeptChildren(roles, d)
  {
    if |roles| == 0 {
      return d.children;
    }
    kept := [];
    for i := 0 to |d.children|
      invariant kept == KeepRelevant(roles, d.children[..i])
    {
      assert d.children[..i + 1][..i] == d.children[..i];
      var c := d.children[i];
      var keep := RoleKey(c.raw) in roles;
      if !keep {
        keep := SubtreeHasRoleByStack(roles, c);
      }
      if keep {
        kept := kept + [c];
      }
    }
    assert d.children[..|d.children|] == d.children;
  }

  /** The hierarchy `d3.hierarchy(data, accessor)` builds: the root, then the kept children, recursively. */
  function Prune(roles: set<string>, t: AXNode): (r: AXNode)
    ensures r.raw == t.raw
  {
    var k := KeptChildren(roles, t);
    AXNode(t.raw, seq(|k|, i requires 0 <= i < |k| => assert k[i] in t.children; Prune(roles, k[i])))
  }

  // ----- Properties of one accessor call -----

  /** The kept children are those children that have a match in their subtree, in their original order. */
  lemma {:induction false} KeepRelevantSelects(roles: set<string>, cs: seq<AXNode>)
    ensures IsSubsequence(KeepRelevant(roles, cs), cs)
    ensures forall c :: c in KeepRelevant(roles, cs) <==> c in cs && SubtreeHasRole(roles, c)
  {
    if cs != [] {
      var init, c := cs[..|cs| - 1], cs[|cs| - 1];
      KeepRelevantSelects(roles, init);
      assert cs == init + [c];
      if KeepChild(roles, c) {
        SubsequenceSnoc(KeepRelevant(roles, init), init, c);
      } else {
        assert KeepRelevant(roles, cs) == KeepRelevant(roles, init);
        SubsequenceExtend(KeepRelevant(roles, init), init, c);
      }
    }
  }

  /**
   * An empty role set passes every child unchanged; otherwise exactly the
   * children with a match in their subtree pass, in their original order.
   */
  lemma KeptChildrenSelects(roles: set<string>, t: AXNode)
    ensures |roles| == 0 ==> KeptChildren(roles, t) == t.children
    ensures IsSubsequence(KeptChildren(roles, t), t.children)
    ensures forall c :: c in KeptChildren(roles, t) <==>
                        c in t.children && (|roles| == 0 || SubtreeHasRole(roles, c))
  {
    if |roles| == 0 {
      SubsequenceRefl(t.children);
    } else {
      KeepRelevantSelects(roles, t.children);
    }
  }

  // ----- Properties of the whole pruned hierarchy -----

  /** An empty role set prunes nothing. */
  lemma {:induction false} EmptyRoleSetPrunesNothing(t: AXNode)
    ensures Prune({}, t) == t
  {
    var r := Prune({}, t);
    assert |r.children| == |t.children|;
    forall i | 0 <= i < |t.children| ensures r.children[i] == t.children[i] {
      EmptyRoleSetPrunesNothing(t.children[i]);
    }
  }

  /** No node whose role key is in the set is lost, so neither is any ancestor path leading to one. */
  lemma {:induction false} PruneKeepsMatchingNodes(roles: set<string>, t: AXNode, x: RawNode)
    requires x in Nodes(t) && RoleKey(x) in roles
    ensures x in Nodes(Prune(roles, t))
  {
    var r := Prune(roles, t);
    if x != t.raw {
      NodesOfMember(t.children, x);
      var i :| 0 <= i < |t.children| && x in Nodes(t.children[i]);
      var c := t.children[i];
      SubtreeHasRoleIffSomeNode(roles, c);
      KeptChildrenSelects(roles, t);
      var k := KeptChildren(roles, t);
      var j :| 0 <= j < |k| && k[j] == c;
      PruneKeepsMatchingNodes(roles, c, x);
      assert r.children[j] == Prune(roles, c);
      NodesOfMember(r.children, x);
    }
  }

  /** Pruning only removes records: every record of the pruned tree is one of the snapshot's. */
  lemma {:induction false} PruneKeepsOnlySnapshotNodes(roles: set<string>, t: AXNode)
    ensures forall x :: x in Nodes(Prune(roles, t)) ==> x in Nodes(t)
  {
    var r := Prune(roles, t);
    var k := KeptChildren(roles, t);
    KeptChildrenSelects(roles, t);
    forall x | x in Nodes(r) ensures x in Nodes(t) {
      if x != t.raw {
        NodesOfMember(r.children, x);
        var j :| 0 <= j < |r.children| && x in Nodes(r.children[j]);
        assert k[j] in k;
        PruneKeepsOnlySnapshotNodes(roles, k[j]);
        var i :| 0 <= i < |t.children| && t.children[i] == k[j];
        NodesOfMember(t.children, x);
      }
    }
  }

  /** Every node below the root of a pruned tree has a match in its own (pruned) subtree. */
  ghost predicate AllDescendantsRelevant(roles: set<string>, t: AXNode)
  {
    forall i :: 0 <= i < |t.children| ==>
      SubtreeHasRole(roles, t.children[i]) && AllDescendantsRelevant(roles, t.children[i])
  }

  lemma {:induction false} PrunedDescendantsAreRelevant(roles: set<string>, t: AXNode)
    requires |roles| > 0
    ensures AllDescendantsRelevant(roles, Prune(roles, t))
  {
    var r := Prune(roles, t);
    var k := KeptChildren(roles, t);
    KeptChildrenSelects(roles, t);
    forall i | 0 <= i < |r.children|
      ensures SubtreeHasRole(roles, r.children[i]) && AllDescendantsRelevant(roles, r.children[i])
    {
      assert k[i] in k;
      SubtreeHasRoleIffSomeNode(roles, k[i]);
      var x :| x in Nodes(k[i]) && RoleKey(x) in roles;
      PruneKeepsMatchingNodes(roles, k[i], x);
      SubtreeHasRoleIffSomeNode(roles, Prune(roles, k[i]));
      PrunedDescendantsAreRelevant(roles, k[i]);
    }
  }

  /** Pruning a pruned tree again changes nothing. */
  lemma {:induction false} PruneIdempotent(roles: set<string>, t: AXNode)
    ensures Prune(roles, Prune(roles, t)) == Prune(roles, t)
  {
    var r := Prune(roles, t);
    if |roles| == 0 {
      EmptyRoleSetPrunesNothing(r);
    } else {
      PrunedDescendantsAreRelevant(roles, t);
      KeepAllRelevant(roles, r.children);
      var k := KeptChildren(roles, t);
      var rr := Prune(roles, r);
      assert KeptChildren(roles, r) == r.children;
      forall i | 0 <= i < |r.children| ensures rr.children[i] == r.children[i] {
        assert k[i] in k;
        PruneIdempotent(roles, k[i]);
      }
    }
  }

  lemma {:induction false} KeepAllRelevant(roles: set<string>, cs: seq<AXNode>)
    requires forall i :: 0 <= i < |cs| ==> SubtreeHasRole(roles, cs[i])
    ensures KeepRelevant(roles, cs) == cs
  {
    if cs != [] {
      KeepAllRelevant(roles, cs[..|cs| - 1]);
    }
  }

  /** The three-node snapshot filtered on {"link"}: the link survives, the generic node goes. */
  lemma ThreeNodeFilter()
    ensures var n1 := RawNode("1", "RootWebArea", "", false, [], "", []);
            var n2 := RawNode("2", "link", "Home", false, [], "1", []);
            var n3 := RawNode("3", "generic", "", false, [], "1", []);
            Prune({"link"}, AXNode(n1, [AXNode(n2, []), AXNode(n3, [])])) == AXNode(n1, [AXNode(n2, [])])
  {
    var n1 := RawNode("1", "RootWebArea", "", false, [], "", []);
    var n2 := RawNode("2", "link", "Home", false, [], "1", []);
    var n3 := RawNode("3", "generic", "", false, [], "1", []);
    var c2, c3 := AXNode(n2, []), AXNode(n3, []);
    assert RoleKey(n2) == "link";
    assert RoleKey(n3) != "link" by { assert RoleKey(n3)[0] == 'g'; }
    assert !SubtreeHasRole({"link"}, c3);
    assert [c2, c3][..1] == [c2] && [c2][..0] == [];
    assert KeepRelevant({"link"}, [c2]) == [c2] by {
      assert KeepChild({"link"}, c2);
      assert KeepRelevant({"link"}, [c2]) == KeepRelevant({"link"}, []) + [c2];
    }
    assert KeepRelevant({"link"}, [c2, c3]) == [c2] by {
      assert !KeepChild({"link"}, c3);
      assert KeepRelevant({"link"}, [c2, c3]) == KeepRelevant({"link"}, [c2]) + [];
    }
    assert KeptChildren({"link"}, AXNode(n1, [c2, c3])) == [c2];
    assert Prune({"link"}, c2) == c2;
  }
}
