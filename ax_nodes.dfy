/**
 * The node shapes of lib/buildTree.ts: the flat `AXNodeRaw` record of an
 * accessibility snapshot and the hierarchical `AXNode` that adds `children`.
 *
 * Optional string fields (`role.value`, `name.value`, `parentId`) are plain
 * strings here, with "" standing for an absent value: every use of them in
 * the visualiser treats an absent value and "" alike (`|| ""`, truthiness).
 */
module AXNodes {
  import opened Text

  type NodeId = string

  /** The inner `value.value` of a CDP property; only `BoolValue(true)` matters to the core. */
  datatype PropertyValue = NoValue | BoolValue(b: bool) | StringValue(s: string) | NumberValue(n: int)

  datatype Property = Property(name: string, value: PropertyValue)

  datatype RawNode = RawNode(
    nodeId: NodeId,
    role: string,
    name: string,
    ignored: bool,
    properties: seq<Property>,
    parentId: NodeId,
    childIds: seq<NodeId>)

  /** `String(n.role?.value || "").toLowerCase()`: the key a role is filtered and searched by. */
  function RoleKey(n: RawNode): string
  {
    Lower(n.role)
  }

  /** A node of the hierarchy: the raw record plus its ordered children. */
  datatype AXNode = AXNode(raw: RawNode, children: seq<AXNode>)

  /** The records of a tree in pre-order: a node before its descendants, siblings in order. */
  function Nodes(t: AXNode): seq<RawNode>
  {
    [t.raw] + NodesOf(t.children)
  }

  /** The pre-order records of a forest, tree after tree. */
  function NodesOf(ts: seq<AXNode>): seq<RawNode>
  {
    if ts == [] then [] else NodesOf(ts[..|ts| - 1]) + Nodes(ts[|ts| - 1])
  }

  lemma {:induction false} NodesOfAppend(a: seq<AXNode>, b: seq<AXNode>)
    ensures NodesOf(a + b) == NodesOf(a) + NodesOf(b)
    decreases |b|
  {
    if b == [] {
      assert a + b == a;
    } else {
      var b' := b[..|b| - 1];
      assert (a + b)[..|a + b| - 1] == a + b';
      NodesOfAppend(a, b');
    }
  }

  /** A record occurs in a forest iff it occurs in one of its trees. */
  lemma {:induction false} NodesOfMember(ts: seq<AXNode>, x: RawNode)
    ensures x in NodesOf(ts) <==> exists i :: 0 <= i < |ts| && x in Nodes(ts[i])
  {
    if ts != [] {
      var init := ts[..|ts| - 1];
      NodesOfMember(init, x);
      if x in NodesOf(init) {
        var i :| 0 <= i < |init| && x in Nodes(init[i]);
        assert ts[i] == init[i];
      }
      if exists i :: 0 <= i < |ts| && x in Nodes(ts[i]) {
        var i :| 0 <= i < |ts| && x in Nodes(ts[i]);
        if i < |init| { assert init[i] == ts[i]; }
      }
    }
  }
}
