/**
 * app/page.tsx: the state the visualiser page derives from the snapshot —
 * the role → enabled map behind the role checkboxes, the set of roles handed
 * to the tree as `filterRoles`, and the search that picks the highlighted
 * ids and the node to focus first.
 */
module Visualizer {
  import opened Wrappers
  import opened Text
  import opened AXNodes

  // ----- Role filter map -----

  /**
   * `Array.from(new Set(json.map(role key).filter(Boolean)))`: the distinct
   * non-empty role keys in order of first appearance.
   */
  function DistinctRoles(raw: seq<RawNode>): (rs: seq<string>)
    ensures forall i, j :: 0 <= i < j < |rs| ==> rs[i] != rs[j]
    ensures forall r :: r in rs ==> r != ""
  {
    if raw == [] then []
    else
      var d := DistinctRoles(raw[..|raw| - 1]);
      var r := RoleKey(raw[|raw| - 1]);
      if r != "" && r !in d then d + [r] else d
  }

  /** The roles offered are exactly the non-empty role keys of the snapshot. */
  lemma {:induction false} DistinctRolesAreTheRoleKeys(raw: seq<RawNode>, r: string)
    ensures r in DistinctRoles(raw) <==> r != "" && exists k :: 0 <= k < |raw| && RoleKey(raw[k]) == r
  {
    if raw != [] {
      var init := raw[..|raw| - 1];
      DistinctRolesAreTheRoleKeys(init, r);
      if exists k :: 0 <= k < |init| && RoleKey(init[k]) == r {
        var k :| 0 <= k < |init| && RoleKey(init[k]) == r;
        assert raw[k] == init[k];
      }
      if exists k :: 0 <= k < |raw| && RoleKey(raw[k]) == r {
        var k :| 0 <= k < |raw| && RoleKey(raw[k]) == r;
        if k < |init| { assert init[k] == raw[k]; }
      }
    }
  }

  /** The map the page starts from: every role enabled. */
  function InitialFilters(raw: seq<RawNode>): map<string, bool>
  {
    map r | r in DistinctRoles(raw) :: true
  }

  /** Lines 28-37: `roles.forEach((r) => (initial[r] = true))`. */
  method InitialRoleFilters(raw: seq<RawNode>) returns (initial: map<string, bool>)
    ensures initial == InitialFilters(raw)
  {
    var roles := DistinctRoles(raw);
    initial := map[];
    for i := 0 to |roles|
      invariant initial == map r | r in roles[..i] :: true
    {
      assert roles[..i + 1] == roles[..i] + [roles[i]];
      initial := initial[roles[i] := true];
    }
    assert roles[..|roles|] == roles;
  }

  /** The initial map's keys are exactly the non-empty role keys of the snapshot, all enabled. */
  lemma InitialFiltersEnableEveryRole(raw: seq<RawNode>, r: string)
    ensures r in InitialFilters(raw) <==> r != "" && exists k :: 0 <= k < |raw| && RoleKey(raw[k]) == r
    ensures r in InitialFilters(raw) ==> InitialFilters(raw)[r]
  {
    DistinctRolesAreTheRoleKeys(raw, r);
  }

  /** `onToggleRole`: `{ ...prev, [role]: !prev[role] }`, where a missing entry reads as false. */
  function ToggleRole(m: map<string, bool>, role: string): (m': map<string, bool>)
    ensures m'.Keys == m.Keys + {role}
    ensures m'[role] == !(role in m && m[role])
    ensures forall k :: k in m && k != role ==> m'[k] == m[k]
  {
    m[role := !(role in m && m[role])]
  }

  /** Toggling an existing role twice restores the map; a new role ends up disabled. */
  lemma ToggleTwice(m: map<string, bool>, role: string)
    ensures role in m ==> ToggleRole(ToggleRole(m, role), role) == m
    ensures role !in m ==> ToggleRole(ToggleRole(m, role), role) == m[role := false]
  {
  }

  /** The `filterRoles` prop of lines 252-257: the keys whose value is true. */
  function EnabledRoles(m: map<string, bool>): set<string>
  {
    set k | k in m && m[k]
  }

  /** `activeRoleSet`, lines 53-57: `v && k && s.add(k)` over the entries. */
  method ActiveRoleSet(m: map<string, bool>) returns (s: set<string>)
    ensures forall k :: k in s <==> k in m && m[k] && k != ""
  {
    s := {};
    var todo := m.Keys;
    while todo != {}
      invariant todo <= m.Keys
      invariant forall k :: k in s <==> k in m && k !in todo && m[k] && k != ""
      decreases todo
    {
      var k :| k in todo;
      if m[k] && k != "" {
        s := s + {k};
      }
      todo := todo - {k};
    }
  }

  /**
   * The two role sets differ at most in the empty key, which the page never
   * creates: the initial map has no empty key and toggling a non-empty role
   * adds none.
   */
  lemma EnabledRolesHaveNoEmptyKey(raw: seq<RawNode>, m: map<string, bool>, role: string)
    ensures "" !in InitialFilters(raw)
    ensures "" !in m && role != "" ==> "" !in ToggleRole(m, role)
    ensures "" !in m ==> forall k :: k in EnabledRoles(m) <==> k in m && m[k] && k != ""
  {
  }

  // ----- Search -----

  /** `query.trim().toLowerCase()`. */
  function NormalizeQuery(query: string): string
  {
    Lower(Trim(query))
  }

  /** Role and name are folded to lower case; the id is matched as it is. */
  predicate MatchesQuery(n: RawNode, q: string)
  {
    Contains(RoleKey(n), q) || Contains(Lower(n.name), q) || Contains(n.nodeId, q)
  }

  /** The ids of the matching nodes among `nodes`. */
  function MatchingIds(nodes: seq<RawNode>, q: string): set<NodeId>
  {
    if nodes == [] then {}
    else
      var n := nodes[|nodes| - 1];
      MatchingIds(nodes[..|nodes| - 1], q) + (if MatchesQuery(n, q) then {n.nodeId} else {})
  }

  /** The id of the first matching node in list order. */
  function FirstMatch(nodes: seq<RawNode>, q: string): Option<NodeId>
  {
    if nodes == [] then None
    else
      var f := FirstMatch(nodes[..|nodes| - 1], q);
      var n := nodes[|nodes| - 1];
      if f.Some? then f else if MatchesQuery(n, q) then Some(n.nodeId) else None
  }

  /** The highlight set of the search effect (lines 60-78). */
  function HighlightIds(raw: Option<seq<RawNode>>, query: string): set<NodeId>
  {
    if raw.None? || query == "" then {}
    else
      var q := NormalizeQuery(query);
      if q == "" then {} else MatchingIds(raw.value, q)
  }

  /** What one more node adds to the highlight set and to the first match. */
  lemma SearchStep(nodes: seq<RawNode>, q: string, i: nat)
    requires i < |nodes|
    ensures MatchesQuery(nodes[i], q) ==> MatchingIds(nodes[..i + 1], q) == MatchingIds(nodes[..i], q) + {nodes[i].nodeId}
    ensures !MatchesQuery(nodes[i], q) ==> MatchingIds(nodes[..i + 1], q) == MatchingIds(nodes[..i], q)
    ensures FirstMatch(nodes[..i + 1], q) ==
            if FirstMatch(nodes[..i], q).Some? then FirstMatch(nodes[..i], q)
            else if MatchesQuery(nodes[i], q) then Some(nodes[i].nodeId) else None
  {
    assert nodes[..i + 1][..i] == nodes[..i];
  }

  /**
   * The search effect: the highlighted ids, and the id `Array.from(ids)[0]`
   * that is focused after the delay.
   */
  method Search(raw: Option<seq<RawNode>>, query: string) returns (ids: set<NodeId>, focusTarget: Option<NodeId>)
    ensures ids == HighlightIds(raw, query)
    ensures focusTarget.Some? <==> ids != {}
    ensures ids != {} ==> focusTarget == FirstMatch(raw.value, NormalizeQuery(query))
  {
    if raw.None? || query == "" {
      return {}, None;
    }
    var q := Lower(Trim(query));
    if q == "" {
      return {}, None;
    }
    var order;
    ids, order := CollectMatches(raw.value, q);
    focusTarget := if |order| > 0 then Some(order[0]) else None;
  }

  /**
   * `raw.forEach(... ids.add(n.nodeId))`: the matching ids, and `order`,
   * the insertion order of the JavaScript `Set`, whose head is the first
   * match.
   */
  method CollectMatches(nodes: seq<RawNode>, q: string) returns (ids: set<NodeId>, order: seq<NodeId>)
    ensures ids == MatchingIds(nodes, q)
    ensures forall x :: x in order <==> x in ids
    ensures order == [] <==> ids == {}
    ensures order != [] ==> Some(order[0]) == FirstMatch(nodes, q)
  {
    ids := {};
    order := [];
    for i := 0 to |nodes|
      invariant ids == MatchingIds(nodes[..i], q)
      invariant forall x :: x in order <==> x in ids
      invariant order == [] <==> ids == {}
      invariant order != [] ==> Some(order[0]) == FirstMatch(nodes[..i], q)
      invariant order == [] ==> FirstMatch(nodes[..i], q) == None
    {
      SearchStep(nodes, q, i);
      var n := nodes[i];
      var role := Lower(n.role);
      var name := Lower(n.name);
      var nid := n.nodeId;
      var hit := Contains(role, q) || Contains(name, q) || Contains(nid, q);
      assert hit == MatchesQuery(n, q);
      if hit {
        if nid !in ids {
          order := order + [nid];
        }
        ids := ids + {nid};
      }
    }
    assert nodes[..|nodes|] == nodes;
  }

  /** A missing snapshot, an empty query or a query of whitespace only highlights nothing. */
  lemma BlankQueryHighlightsNothing(raw: Option<seq<RawNode>>, query: string)
    requires raw.None? || forall i :: 0 <= i < |query| ==> IsWhitespace(query[i])
    ensures HighlightIds(raw, query) == {}
  {
  }

  lemma {:induction false} MatchingIdsMember(nodes: seq<RawNode>, q: string, id: NodeId)
    ensures id in MatchingIds(nodes, q) <==>
            exists k :: 0 <= k < |nodes| && nodes[k].nodeId == id && MatchesQuery(nodes[k], q)
  {
    if nodes != [] {
      var init := nodes[..|nodes| - 1];
      MatchingIdsMember(init, q, id);
      if id in MatchingIds(init, q) {
        var k :| 0 <= k < |init| && init[k].nodeId == id && MatchesQuery(init[k], q);
        assert nodes[k] == init[k];
      }
      if exists k :: 0 <= k < |nodes| && nodes[k].nodeId == id && MatchesQuery(nodes[k], q) {
        var k :| 0 <= k < |nodes| && nodes[k].nodeId == id && MatchesQuery(nodes[k], q);
        if k < |init| { assert init[k] == nodes[k]; }
      }
    }
  }

  /**
   * For a query that is not blank, an id is highlighted iff some node with
   * that id matches it; so only ids of snapshot nodes are highlighted.
   */
  lemma HighlightIffSomeNodeMatches(raw: seq<RawNode>, query: string, id: NodeId)
    requires NormalizeQuery(query) != ""
    ensures id in HighlightIds(Some(raw), query) <==>
            exists k :: 0 <= k < |raw| && raw[k].nodeId == id && MatchesQuery(raw[k], NormalizeQuery(query))
  {
    MatchingIdsMember(raw, NormalizeQuery(query), id);
  }

  /**
   * A query with a non-whitespace character survives trimming and
   * lower-casing, so the lemma above applies to it.
   */
  lemma NonBlankQueryIsKept(query: string)
    requires exists i :: 0 <= i < |query| && !IsWhitespace(query[i])
    ensures query != "" && NormalizeQuery(query) != ""
  {
    assert Trim(query) != [];
  }

  /** The focus target is the id of the first node in list order that matches; there is one iff something matches. */
  lemma {:induction false} FirstMatchIsFirst(nodes: seq<RawNode>, q: string)
    ensures FirstMatch(nodes, q).None? <==> forall k :: 0 <= k < |nodes| ==> !MatchesQuery(nodes[k], q)
    ensures FirstMatch(nodes, q).Some? ==>
              exists k :: 0 <= k < |nodes| && MatchesQuery(nodes[k], q)
                          && nodes[k].nodeId == FirstMatch(nodes, q).value
                          && forall j :: 0 <= j < k ==> !MatchesQuery(nodes[j], q)
  {
    if nodes != [] {
      var init := nodes[..|nodes| - 1];
      FirstMatchIsFirst(init, q);
      if FirstMatch(init, q).Some? {
        var k :| 0 <= k < |init| && MatchesQuery(init[k], q) && init[k].nodeId == FirstMatch(init, q).value
                 && forall j :: 0 <= j < k ==> !MatchesQuery(init[j], q);
        assert nodes[k] == init[k];
      } else {
        assert forall j :: 0 <= j < |init| ==> nodes[j] == init[j];
      }
    }
  }

  /**
   * The id is not case-folded while the query is: a node whose id has an
   * upper-case letter is not found by its own id.
   */
  lemma IdMatchIsCaseSensitive()
    ensures HighlightIds(Some([RawNode("A1", "", "", false, [], "", [])]), "A1") == {}
  {
    UpperCaseQueryIsFolded();
    UpperCaseIdIsMissed();
  }

  lemma UpperCaseQueryIsFolded()
    ensures NormalizeQuery("A1") == "a1"
  {
    assert TrimStart("A1") == "A1" && TrimEnd("A1") == "A1";
  }

  lemma UpperCaseIdIsMissed()
    ensures MatchingIds([RawNode("A1", "", "", false, [], "", [])], "a1") == {}
  {
    var n := RawNode("A1", "", "", false, [], "", []);
    assert !Contains("A1", "a1") by {
      assert "a1"[0] != "A1"[0] && "a1"[0] != "1"[0];
      assert !Contains("", "a1");
    }
    assert !MatchesQuery(n, "a1");
    assert [n][..0] == [];
  }
}
