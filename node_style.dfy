/**
 * components/ZoomableAXTree.tsx, how a node is drawn: its fill colour by
 * role, whether it is drawn at all, its stroke, and its label text and
 * placement.
 */
module NodeStyle {
  import opened Text
  import opened AXNodes
  import opened RoleFilter

  /** One row of the colour table: a role containing `keyword` is filled with `color`. */
  datatype Swatch = Swatch(keyword: string, color: string)

  /** `colorByRole`'s substring tests, in the order they are tried. */
  const Palette: seq<Swatch> := [
    Swatch("heading", "#4F46E5"),
    Swatch("button", "#059669"),
    Swatch("link", "#2563EB"),
    Swatch("iframe", "#DC2626"),
    Swatch("textbox", "#D97706"),
    Swatch("banner", "#9333EA"),
    Swatch("generic", "#6B7280")
  ]

  const NoRoleColor := "#FFFFFF"
  const OtherRoleColor := "#374151"

  /**
   * `colorByRole`: white for a missing role; otherwise the colour of the
   * first table row whose keyword the lower-cased role contains; otherwise
   * the fallback grey.
   */
  function ColorByRole(role: string): (c: string)
    ensures c == NoRoleColor <==> role == ""
  {
    if role == "" then "#FFFFFF"
    else
      var r := Lower(role);
      if Contains(r, "heading") then "#4F46E5"
      else if Contains(r, "button") then "#059669"
      else if Contains(r, "link") then "#2563EB"
      else if Contains(r, "iframe") then "#DC2626"
      else if Contains(r, "textbox") then "#D97706"
      else if Contains(r, "banner") then "#9333EA"
      else if Contains(r, "generic") then "#6B7280"
      else "#374151"
  }

  /** The nine colours are pairwise different. */
  lemma PaletteColorsDistinct()
    ensures forall i, j :: 0 <= i < j < |Palette| ==> Palette[i].color != Palette[j].color
    ensures forall i :: 0 <= i < |Palette| ==> Palette[i].color != NoRoleColor && Palette[i].color != OtherRoleColor
    ensures NoRoleColor != OtherRoleColor
  {
  }

  /** The first table row at or after `k` whose keyword `r` contains, or `|Palette|` if none. */
  function FirstHitFrom(r: string, k: nat): (h: nat)
    requires k <= |Palette|
    ensures k <= h <= |Palette|
    ensures forall j :: k <= j < h ==> !Contains(r, Palette[j].keyword)
    ensures h < |Palette| ==> Contains(r, Palette[h].keyword)
    decreases |Palette| - k
  {
    if k == |Palette| then k
    else if Contains(r, Palette[k].keyword) then k
    else FirstHitFrom(r, k + 1)
  }

  /** The colour of row `h`, or the fallback grey past the end of the table. */
  function RowColor(h: nat): string
  {
    if h < |Palette| then Palette[h].color else OtherRoleColor
  }

  /** The if-chain of `colorByRole` is a lookup of the first keyword hit in the table. */
  lemma ColorByRoleIsTableLookup(role: string)
    requires role != ""
    ensures ColorByRole(role) == RowColor(FirstHitFrom(Lower(role), 0))
  {
  }

  /**
   * A role gets the colour of table row i iff it is non-empty, its
   * lower-cased form contains row i's keyword and none of an earlier row's;
   * it gets the fallback grey iff it is non-empty and contains no keyword.
   */
  lemma ColorIsFirstKeywordHit(role: string)
    ensures ColorByRole(role) == OtherRoleColor <==>
              role != "" && forall i :: 0 <= i < |Palette| ==> !Contains(Lower(role), Palette[i].keyword)
    ensures forall i :: 0 <= i < |Palette| ==>
              (ColorByRole(role) == Palette[i].color <==>
                 role != "" && Contains(Lower(role), Palette[i].keyword)
                 && forall j :: 0 <= j < i ==> !Contains(Lower(role), Palette[j].keyword))
  {
    PaletteColorsDistinct();
    if role != "" {
      ColorByRoleIsTableLookup(role);
      var h := FirstHitFrom(Lower(role), 0);
      forall i | 0 <= i < |Palette|
        ensures ColorByRole(role) == Palette[i].color <==>
                  Contains(Lower(role), Palette[i].keyword)
                  && forall j :: 0 <= j < i ==> !Contains(Lower(role), Palette[j].keyword)
      {
        if Contains(Lower(role), Palette[i].keyword) && forall j :: 0 <= j < i ==> !Contains(Lower(role), Palette[j].keyword) {
          assert h == i;
        }
      }
    }
  }

  /** The filter on `root.descendants()` before drawing: a role key that is non-empty, not "generic", not "none". */
  predicate IsDrawn(n: RawNode)
  {
    var r := RoleKey(n);
    r != "" && r != "generic" && r != "none"
  }

  /**
   * The records of the pruned hierarchy that get a circle and a label: only
   * drawable records of the snapshot, and with no role selected all of them.
   */
  function DrawnNodes(roles: set<string>, t: AXNode): (d: set<RawNode>)
    ensures forall x :: x in d ==> x in Nodes(t) && IsDrawn(x)
    ensures |roles| == 0 ==> forall x :: x in d <==> x in Nodes(t) && IsDrawn(x)
  {
    PruneKeepsOnlySnapshotNodes(roles, t);
    EmptyRoleSetPrunesNothing(t);
    set x | x in Nodes(Prune(roles, t)) && IsDrawn(x)
  }

  /** A drawable node of the snapshot whose role is selected gets drawn. */
  lemma MatchingNodesAreDrawn(roles: set<string>, t: AXNode, x: RawNode)
    requires x in Nodes(t) && RoleKey(x) in roles && IsDrawn(x)
    ensures x in DrawnNodes(roles, t)
  {
    PruneKeepsMatchingNodes(roles, t, x);
  }

  /** A drawn node always has a role, so it is never filled white. */
  lemma DrawnNodesAreColoured(n: RawNode)
    requires IsDrawn(n)
    ensures ColorByRole(n.role) != NoRoleColor
  {
  }

  /** The circle's outline: highlighted, else ignored, else plain; and its width. */
  function Stroke(n: RawNode, highlightIds: set<NodeId>): (s: (string, int))
    ensures s.0 == "#FFD54F" <==> n.nodeId in highlightIds
    ensures s.1 == 4 <==> n.nodeId in highlightIds
    ensures s.1 == 1 <==> n.nodeId !in highlightIds
    ensures n.nodeId !in highlightIds ==> (s.0 == "#ccc" <==> n.ignored)
    ensures n.nodeId !in highlightIds && !n.ignored ==> s.0 == "#fff"
  {
    (if n.nodeId in highlightIds then "#FFD54F" else if n.ignored then "#ccc" else "#fff",
     if n.nodeId in highlightIds then 4 else 1)
  }

  /** `d.data.role?.value || "node"`. */
  function DisplayRole(role: string): (r: string)
    ensures r != ""
    ensures role != "" ==> r == role
    ensures role == "" ==> r == "node"
  {
    if role == "" then "node" else role
  }

  const MaxLabelName: nat := 28

  /**
   * The label: the role (or "node"), then, for a non-empty name, a space and
   * at most the first 28 characters of the name.
   */
  function LabelText(n: RawNode): (s: string)
    ensures DisplayRole(n.role) <= s
    ensures n.name == "" ==> s == DisplayRole(n.role)
    ensures n.name != "" ==>
              var k := |DisplayRole(n.role)|;
              |s| == k + 1 + (if |n.name| < MaxLabelName then |n.name| else MaxLabelName)
              && s[k] == ' ' && s[k + 1..] <= n.name
  {
    DisplayRole(n.role) + (if n.name != "" then " " + Take(n.name, MaxLabelName) else "")
  }

  datatype TextAnchor = Start | End

  /** The label sits left of a node that shows children, right of a leaf. */
  function LabelPlacement(d: AXNode): (p: (int, TextAnchor))
    ensures p.0 == -12 <==> |d.children| > 0
    ensures p.0 == 12 <==> |d.children| == 0
    ensures p.1 == End <==> |d.children| > 0
  {
    if |d.children| > 0 then (-12, End) else (12, Start)
  }
}
