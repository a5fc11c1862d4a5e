/**
 * The state of one tree-list node and its subtree as a value, and what each
 * node operation does to it. The node operations of `TreeListNodes` are
 * proved to change a node's fields exactly as these functions say; the
 * lemmas here state what the operations promise about whole subtrees.
 */
module NodeModel {
  import opened Wrappers
  import opened Js

  /** The two drawings of the expander icon: "+" (expand) and "-" (collapse). */
  datatype Glyph = ExpandGlyph | CollapseGlyph

  /**
   * A node as its fields hold it. `icon` is `None` while the node has no
   * expander (before `setExpander`, and for ever on a leaf) and otherwise the
   * glyph the icon shows. The container's attached views are not part of the
   * value: the node's invariant fixes them from `icon`, `isExpanded` and the
   * children.
   */
  datatype NodeState = NodeState(
    id: int,
    name: string,
    depth: int,
    clicked: Option<Callback>,
    isLeaf: bool,
    isExpanded: bool,
    icon: Option<Glyph>,
    children: seq<NodeState>)

  /** What the click callback receives: a copy of the node's current fields. */
  datatype Snapshot = Snapshot(id: int, name: string, depth: int, isLeaf: bool, isExpanded: bool)

  /** One call of a click callback. */
  datatype Invocation = Invocation(callback: Callback, info: Snapshot)

  const InvalidName: string := "Invalid model item"

  /** The `id` and `depth` options: kept when they are numbers, -1 otherwise. */
  function DefaultNumber(v: JsVal): (x: int)
    ensures v.Num? ==> x == v.n
    ensures !v.Num? ==> x == -1
  {
    if TypeOf(v) != "number" then -1 else v.n
  }

  /** The `name` option: kept when it is a string, the placeholder otherwise. */
  function DefaultName(v: JsVal): (name: string)
    ensures v.Str? ==> name == v.s
    ensures !v.Str? ==> name == InvalidName
  {
    if TypeOf(v) != "string" then InvalidName else v.s
  }

  /** The state the constructor leaves: no children, neither leaf nor expanded, no expander. */
  function Created(id: int, name: string, depth: int, clicked: Option<Callback>): (s: NodeState)
    ensures s.id == id && s.name == name && s.depth == depth && s.clicked == clicked
    ensures !Classified(s) && NoneExpanded(s) && s.children == []
  {
    NodeState(id, name, depth, clicked, false, false, None, [])
  }

  /** Classified nodes have run `setExpander`: they are leaves or carry an expander. */
  predicate Classified(s: NodeState)
  {
    s.isLeaf || s.icon.Some?
  }

  /** `setExpander`: a node without children becomes a leaf; any other node gets
    * an expander showing the expand glyph. */
  function AfterSetExpander(s: NodeState): (r: NodeState)
    ensures r.children == s.children && r.isExpanded == s.isExpanded
    ensures Classified(r)
  {
    if |s.children| == 0 then s.(isLeaf := true)
    else s.(icon := Some(ExpandGlyph))
  }

  /** `expand(recursive)`: on a node with children, show the collapse glyph and
    * mark it expanded, first expanding every child recursively if asked to. */
  function AfterExpand(s: NodeState, recursive: bool): (r: NodeState)
    ensures |s.children| == 0 ==> r == s
    ensures !recursive ==> r.children == s.children
    ensures |r.children| == |s.children|
    ensures r.id == s.id && r.name == s.name && r.depth == s.depth
    ensures r.clicked == s.clicked && r.isLeaf == s.isLeaf
    decreases s
  {
    if |s.children| == 0 then s
    else
      s.(icon := Some(CollapseGlyph), isExpanded := true,
         children := if recursive then ExpandedChildren(s) else s.children)
  }

  /** Every child of `s` after `expand(true)`. */
  function ExpandedChildren(s: NodeState): (cs: seq<NodeState>)
    ensures |cs| == |s.children|
    ensures forall i :: 0 <= i < |cs| ==> cs[i] == AfterExpand(s.children[i], true)
    decreases s, 0
  {
    seq(|s.children|, i requires 0 <= i < |s.children| => AfterExpand(s.children[i], true))
  }

  /** `collapse(recursive)`: on a node with children, show the expand glyph and
    * mark it collapsed, first collapsing every child recursively if asked to. */
  function AfterCollapse(s: NodeState, recursive: bool): (r: NodeState)
    ensures |s.children| == 0 ==> r == s
    ensures !recursive ==> r.children == s.children
    ensures |r.children| == |s.children|
    ensures r.id == s.id && r.name == s.name && r.depth == s.depth
    ensures r.clicked == s.clicked && r.isLeaf == s.isLeaf
    decreases s
  {
    if |s.children| == 0 then s
    else
      s.(icon := Some(ExpandGlyph), isExpanded := false,
         children := if recursive then CollapsedChildren(s) else s.children)
  }

  /** Every child of `s` after `collapse(true)`. */
  function CollapsedChildren(s: NodeState): (cs: seq<NodeState>)
    ensures |cs| == |s.children|
    ensures forall i :: 0 <= i < |cs| ==> cs[i] == AfterCollapse(s.children[i], true)
    decreases s, 0
  {
    seq(|s.children|, i requires 0 <= i < |s.children| => AfterCollapse(s.children[i], true))
  }

  /** The expander's click handler: flip this node only, never its descendants. */
  function AfterToggle(s: NodeState): (r: NodeState)
    ensures r.children == s.children
    ensures |s.children| > 0 ==> r.isExpanded == !s.isExpanded
    ensures |s.children| == 0 ==> r == s
  {
    if |s.children| > 0 then
      if s.isExpanded then AfterCollapse(s, false) else AfterExpand(s, false)
    else s
  }

  /**
   * `collapse(recursive)` runs without an exception: `removeChild` throws for
   * a view that is not attached, so every node it removes children from must
   * have them attached, that is, be expanded.
   */
  predicate CanCollapse(s: NodeState, recursive: bool)
    decreases s
  {
    |s.children| > 0 ==>
      s.isExpanded &&
      (recursive ==> forall i :: 0 <= i < |s.children| ==> CanCollapse(s.children[i], true))
  }

  /** The invariant of a classified subtree: a node is a leaf exactly when it has
    * no children, only a branch is ever expanded, and a branch's icon shows the
    * glyph of the operation the next toggle performs. */
  predicate WellFormed(s: NodeState)
    decreases s
  {
    (s.isLeaf <==> |s.children| == 0) &&
    (s.isLeaf ==> !s.isExpanded && s.icon == None) &&
    (!s.isLeaf ==> s.icon == Some(if s.isExpanded then CollapseGlyph else ExpandGlyph)) &&
    forall i :: 0 <= i < |s.children| ==> WellFormed(s.children[i])
  }

  /** Every branch in the subtree is expanded and no leaf is. */
  predicate AllBranchesExpanded(s: NodeState)
    decreases s
  {
    s.isExpanded == (|s.children| > 0) &&
    forall i :: 0 <= i < |s.children| ==> AllBranchesExpanded(s.children[i])
  }

  /** No node in the subtree is expanded. */
  predicate NoneExpanded(s: NodeState)
    decreases s
  {
    !s.isExpanded &&
    forall i :: 0 <= i < |s.children| ==> NoneExpanded(s.children[i])
  }

  // ---------------------------------------------------------------------
  // Lemmas

  /** Classifying a freshly built node whose children are well formed gives a
    * well-formed, collapsed subtree. */
  lemma SetExpanderClassifies(s: NodeState)
    requires !s.isLeaf && !s.isExpanded && s.icon == None
    requires forall i :: 0 <= i < |s.children| ==> WellFormed(s.children[i])
    ensures WellFormed(AfterSetExpander(s))
    ensures AfterSetExpander(s).isLeaf <==> |s.children| == 0
    ensures AfterSetExpander(s).icon.Some? <==> |s.children| > 0
  {
  }

  lemma {:induction false} ExpandKeepsWellFormed(s: NodeState, recursive: bool)
    requires WellFormed(s)
    ensures WellFormed(AfterExpand(s, recursive))
    decreases s
  {
    if |s.children| > 0 && recursive {
      forall i | 0 <= i < |s.children| ensures WellFormed(AfterExpand(s, true).children[i]) {
        ExpandKeepsWellFormed(s.children[i], true);
      }
    }
  }

  lemma {:induction false} CollapseKeepsWellFormed(s: NodeState, recursive: bool)
    requires WellFormed(s)
    ensures WellFormed(AfterCollapse(s, recursive))
    decreases s
  {
    if |s.children| > 0 && recursive {
      forall i | 0 <= i < |s.children| ensures WellFormed(AfterCollapse(s, true).children[i]) {
        CollapseKeepsWellFormed(s.children[i], true);
      }
    }
  }

  /** `expand(true)` reaches every descendant branch; leaves stay collapsed. */
  lemma {:induction false} ExpandAllReachesEveryBranch(s: NodeState)
    requires WellFormed(s)
    ensures AllBranchesExpanded(AfterExpand(s, true))
    decreases s
  {
    if |s.children| > 0 {
      forall i | 0 <= i < |s.children| ensures AllBranchesExpanded(AfterExpand(s, true).children[i]) {
        ExpandAllReachesEveryBranch(s.children[i]);
      }
    }
  }

  /** `collapse(true)` reaches every descendant branch. */
  lemma {:induction false} CollapseAllReachesEveryBranch(s: NodeState)
    requires WellFormed(s)
    ensures NoneExpanded(AfterCollapse(s, true))
    decreases s
  {
    if |s.children| > 0 {
      forall i | 0 <= i < |s.children| ensures NoneExpanded(AfterCollapse(s, true).children[i]) {
        CollapseAllReachesEveryBranch(s.children[i]);
      }
    }
  }

  /** A fully expanded subtree can be collapsed recursively without an exception. */
  lemma {:induction false} FullyExpandedCanCollapse(s: NodeState)
    requires AllBranchesExpanded(s)
    ensures CanCollapse(s, true)
    decreases s
  {
    forall i | 0 <= i < |s.children| ensures CanCollapse(s.children[i], true) {
      FullyExpandedCanCollapse(s.children[i]);
    }
  }

  /** `collapseAll` after `expandAll` restores a collapsed subtree exactly. */
  lemma {:induction false} CollapseAllUndoesExpandAll(s: NodeState)
    requires WellFormed(s) && NoneExpanded(s)
    ensures AfterCollapse(AfterExpand(s, true), true) == s
    decreases s
  {
    if |s.children| > 0 {
      var e := AfterExpand(s, true);
      var r := AfterCollapse(e, true);
      forall i | 0 <= i < |s.children| ensures r.children[i] == s.children[i] {
        assert e.children[i] == AfterExpand(s.children[i], true);
        assert r.children[i] == AfterCollapse(e.children[i], true);
        CollapseAllUndoesExpandAll(s.children[i]);
      }
      assert r.children == s.children;
    }
  }

  /** `expandAll` after `collapseAll` restores a fully expanded subtree exactly. */
  lemma {:induction false} ExpandAllUndoesCollapseAll(s: NodeState)
    requires WellFormed(s) && AllBranchesExpanded(s)
    ensures AfterExpand(AfterCollapse(s, true), true) == s
    decreases s
  {
    if |s.children| > 0 {
      var c := AfterCollapse(s, true);
      var r := AfterExpand(c, true);
      forall i | 0 <= i < |s.children| ensures r.children[i] == s.children[i] {
        assert c.children[i] == AfterCollapse(s.children[i], true);
        assert r.children[i] == AfterExpand(c.children[i], true);
        ExpandAllUndoesCollapseAll(s.children[i]);
      }
      assert r.children == s.children;
    }
  }

  /** Expanding twice is expanding once: the second call re-attaches the same
    * children in the same order and changes no flag. */
  lemma {:induction false} ExpandIsIdempotent(s: NodeState, recursive: bool)
    ensures AfterExpand(AfterExpand(s, recursive), recursive) == AfterExpand(s, recursive)
    decreases s
  {
    if |s.children| > 0 && recursive {
      var once := AfterExpand(s, true);
      var twice := AfterExpand(once, true);
      forall i | 0 <= i < |s.children| ensures twice.children[i] == once.children[i] {
        assert once.children[i] == AfterExpand(s.children[i], true);
        assert twice.children[i] == AfterExpand(once.children[i], true);
        ExpandIsIdempotent(s.children[i], true);
      }
      assert twice.children == once.children;
    }
  }

  /** `expand(false)` then `collapse(false)` on a collapsed branch gives back the
    * same node, and the collapse cannot throw. */
  lemma ExpandThenCollapseRestores(s: NodeState)
    requires WellFormed(s) && !s.isExpanded
    ensures CanCollapse(AfterExpand(s, false), false)
    ensures AfterCollapse(AfterExpand(s, false), false) == s
  {
  }

  /** Two toggles in a row leave a well-formed node as it was. */
  lemma ToggleTwiceRestores(s: NodeState)
    requires WellFormed(s)
    ensures AfterToggle(AfterToggle(s)) == s
  {
  }
}
