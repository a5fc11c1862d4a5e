/**
 * One node of the tree list (`TreeListNode`), with the DOM it builds.
 *
 * A node is a value here: its fields, the views attached to its container
 * element, and its children. Every operation that changes a node returns the
 * changed node. `uid` stands for the identity of the node's container
 * element: a parent's container holds the containers of its children as
 * `Box(uid)` views. Each operation is proved to change the node exactly as
 * the matching function of `NodeModel` says, and to keep the container in
 * step with the flags.
 */
module TreeListNodes {
  import opened Wrappers
  import opened Js
  import opened Dom
  import opened NodeModel

  /** The click listeners a node registers: `_onNodeClick` on its label and
    * `_onNodeToggle` on its expander. */
  datatype Listener = LabelClick | ExpanderClick

  /** One `removeEventListener` call: the listener, on the node whose container is `uid`. */
  datatype Removal = Removal(uid: nat, listener: Listener)

  datatype Node = Node(
    id: int,
    name: string,
    depth: int,
    clicked: Option<Callback>,
    isLeaf: bool,
    isExpanded: bool,
    icon: Option<Glyph>,        // the expander's glyph; None while there is no expander
    listeners: set<Listener>,   // the listeners currently registered
    uid: nat,                   // the identity of the container element
    attached: seq<View>,        // the views attached to the container, in order
    children: seq<Node>)

  /** The container's own views: the expander (when there is one) before the label. */
  function Head(icon: Option<Glyph>): seq<View>
  {
    if icon.Some? then [Expander, Label] else [Label]
  }

  /** The containers of `cs`, in order. */
  function ViewsOf(cs: seq<Node>): (vs: seq<View>)
    ensures |vs| == |cs|
    ensures forall k | 0 <= k < |cs| :: vs[k] == Box(cs[k].uid)
  {
    seq(|cs|, k requires 0 <= k < |cs| => Box(cs[k].uid))
  }

  /** The node's fields, without its DOM. */
  function Abs(n: Node): NodeState
    decreases n
  {
    NodeState(n.id, n.name, n.depth, n.clicked, n.isLeaf, n.isExpanded, n.icon, AbsChildren(n))
  }

  function AbsChildren(n: Node): (ss: seq<NodeState>)
    ensures |ss| == |n.children|
    ensures forall k | 0 <= k < |ss| :: ss[k] == Abs(n.children[k])
    decreases n, 0
  {
    seq(|n.children|, k requires 0 <= k < |n.children| => Abs(n.children[k]))
  }

  /**
   * The node invariant. A leaf has no children and no expander; an expander
   * shows the glyph of the next toggle; only a node with an expander is ever
   * expanded; the listeners are those of the elements that exist; the
   * container holds the expander, the label and, exactly while the node is
   * expanded, the children's containers in order. Every child has been
   * classified by `setExpander`, and no two children share a container.
   */
  predicate ValidNode(n: Node)
    decreases n
  {
    (n.isLeaf ==> n.children == [] && n.icon == None) &&
    (n.icon.Some? ==> n.children != [] && n.icon.value == (if n.isExpanded then CollapseGlyph else ExpandGlyph)) &&
    (n.isExpanded ==> n.icon.Some?) &&
    n.listeners == (if n.icon.Some? then {LabelClick, ExpanderClick} else {LabelClick}) &&
    n.attached == Head(n.icon) + (if n.isExpanded then ViewsOf(n.children) else []) &&
    (forall k | 0 <= k < |n.children| :: ValidNode(n.children[k]) && (n.children[k].isLeaf || n.children[k].icon.Some?)) &&
    (forall j, k | 0 <= j < k < |n.children| :: n.children[j].uid != n.children[k].uid)
  }

  /** A valid node that `setExpander` has classified is well formed. */
  lemma {:induction false} ValidNodeIsWellFormed(n: Node)
    requires ValidNode(n) && (n.isLeaf || n.icon.Some?)
    ensures WellFormed(Abs(n))
    decreases n
  {
    forall k | 0 <= k < |n.children| ensures WellFormed(Abs(n).children[k]) {
      ValidNodeIsWellFormed(n.children[k]);
    }
  }

  /** The children's containers are pairwise distinct views. */
  lemma ChildViewsDistinct(n: Node)
    requires ValidNode(n)
    ensures Distinct(ViewsOf(n.children))
  {
  }

  /** Children with the same containers give the same views. */
  lemma SameViews(a: seq<Node>, b: seq<Node>)
    requires |a| == |b|
    requires forall k | 0 <= k < |a| :: a[k].uid == b[k].uid
    ensures ViewsOf(a) == ViewsOf(b)
  {
  }

  // ---------------------------------------------------------------------
  // Building a node

  /** `_buildUI`: register the label's click listener and attach the label. */
  function BuildUI(n: Node): (r: Node)
    ensures r.listeners == n.listeners + {LabelClick}
    ensures |r.attached| > 0 && r.attached[|r.attached| - 1] == Label
    ensures forall w :: w in r.attached <==> w in n.attached || w == Label
    ensures r.(listeners := n.listeners, attached := n.attached) == n
  {
    var r := n.(listeners := n.listeners + {LabelClick}, attached := Appended(n.attached, Label));
    assert forall w :: w in r.attached <==> w in n.attached || w == Label by {
      forall w ensures w in r.attached <==> w in n.attached || w == Label {
        FilteredHas(n.attached, [Label], w);
      }
    }
    r
  }

  /** The constructor: each option of the wrong type falls back to its
    * default, then `_buildUI` attaches the label to a new container. */
  function Create(id: JsVal, name: JsVal, depth: JsVal, clicked: JsVal, uid: nat): (n: Node)
    ensures ValidNode(n)
    ensures Abs(n) == Created(DefaultNumber(id), DefaultName(name), DefaultNumber(depth), CallbackOf(clicked))
    ensures n.uid == uid && n.attached == [Label] && n.listeners == {LabelClick}
  {
    BuildUI(Node(DefaultNumber(id), DefaultName(name), DefaultNumber(depth), CallbackOf(clicked),
                 false, false, None, {}, uid, [], []))
  }

  /** `node.children.push(child)`, done while the tree is built, before
    * `setExpander` has classified the node. */
  function PushChild(n: Node, c: Node): (r: Node)
    requires ValidNode(n) && !n.isLeaf && n.icon == None
    requires ValidNode(c) && (c.isLeaf || c.icon.Some?)
    requires forall k | 0 <= k < |n.children| :: n.children[k].uid != c.uid
    ensures ValidNode(r)
    ensures Abs(r) == Abs(n).(children := Abs(n).children + [Abs(c)])
    ensures r.uid == n.uid && r.attached == n.attached
  {
    var r := n.(children := n.children + [c]);
    assert AbsChildren(r) == AbsChildren(n) + [Abs(c)];
    r
  }

  /** `setExpander`: a node without children becomes a leaf; any other node
    * gets a new expander, listened to and inserted before the label. */
  function SetExpander(n: Node): (r: Node)
    requires ValidNode(n) && !n.isLeaf && n.icon == None
    ensures ValidNode(r)
    ensures Abs(r) == AfterSetExpander(Abs(n))
    ensures r.uid == n.uid && (r.isLeaf || r.icon.Some?)
  {
    if |n.children| == 0 then n.(isLeaf := true)
    else
      n.(icon := Some(ExpandGlyph),
         listeners := n.listeners + {ExpanderClick},
         attached := [Expander] + n.attached)
  }

  // ---------------------------------------------------------------------
  // Interaction

  /** `_onNodeClick`: the callback, when there is one, receives the node's
    * current fields. */
  function OnNodeClick(n: Node): (calls: seq<Invocation>)
    ensures |calls| <= 1
    ensures calls != [] <==> n.clicked.Some?
    ensures forall c | c in calls ::
      c.callback == n.clicked.value &&
      c.info == Snapshot(Abs(n).id, Abs(n).name, Abs(n).depth, Abs(n).isLeaf, Abs(n).isExpanded)
  {
    match n.clicked
    case Some(f) => [Invocation(f, Snapshot(n.id, n.name, n.depth, n.isLeaf, n.isExpanded))]
    case None => []
  }

  /**
   * The node `expand(recursive)` leaves: a node with children shows the
   * collapse glyph, is expanded and has had each child's container appended
   * in order (a container already attached is moved, not duplicated); with
   * `recursive` every child has been expanded the same way.
   */
  function Expanded(n: Node, recursive: bool): (r: Node)
    ensures r.uid == n.uid && r.isLeaf == n.isLeaf && |r.children| == |n.children|
    ensures r.icon.Some? <==> n.icon.Some? || n.children != []
    decreases n
  {
    if n.children == [] then n
    else
      var cs := if recursive then ExpandedNodes(n) else n.children;
      n.(icon := Some(CollapseGlyph), isExpanded := true,
         attached := AppendedUpTo(n.attached, ViewsOf(n.children), |n.children|), children := cs)
  }

  function ExpandedNodes(n: Node): (cs: seq<Node>)
    ensures |cs| == |n.children|
    ensures forall k | 0 <= k < |cs| :: cs[k] == Expanded(n.children[k], true)
    decreases n, 0
  {
    seq(|n.children|, k requires 0 <= k < |n.children| => Expanded(n.children[k], true))
  }

  /** The node `collapse(recursive)` leaves: a node with children shows the
    * expand glyph, is collapsed and has had each child's container removed;
    * with `recursive` every child has been collapsed the same way. */
  function Collapsed(n: Node, recursive: bool): (r: Node)
    ensures r.uid == n.uid && r.isLeaf == n.isLeaf && |r.children| == |n.children|
    ensures r.icon.Some? <==> n.icon.Some? || n.children != []
    decreases n
  {
    if n.children == [] then n
    else
      var cs := if recursive then CollapsedNodes(n) else n.children;
      n.(icon := Some(ExpandGlyph), isExpanded := false,
         attached := Filtered(n.attached, ViewsOf(n.children)), children := cs)
  }

  function CollapsedNodes(n: Node): (cs: seq<Node>)
    ensures |cs| == |n.children|
    ensures forall k | 0 <= k < |cs| :: cs[k] == Collapsed(n.children[k], true)
    decreases n, 0
  {
    seq(|n.children|, k requires 0 <= k < |n.children| => Collapsed(n.children[k], true))
  }

  /** What `expand(recursive)` demands: a node with children has an expander,
    * whose icon it changes, and so has every descendant the call reaches. */
  predicate Expandable(n: Node, recursive: bool)
    decreases n
  {
    (n.children != [] ==> n.icon.Some?) &&
    (recursive ==> forall k | 0 <= k < |n.children| :: Expandable(n.children[k], true))
  }

  /** What `collapse(recursive)` demands: besides the expander, `removeChild`
    * throws unless the container it removes is attached, so the children's
    * containers are distinct and attached, in every node the call reaches. */
  predicate Collapsible(n: Node, recursive: bool)
    decreases n
  {
    (n.children != [] ==>
       n.icon.Some? && Distinct(ViewsOf(n.children)) &&
       forall w | w in ViewsOf(n.children) :: w in n.attached) &&
    (recursive ==> forall k | 0 <= k < |n.children| :: Collapsible(n.children[k], true))
  }

  /** A valid node with an expander wherever it has children can be expanded. */
  lemma {:induction false} ValidIsExpandable(n: Node, recursive: bool)
    requires ValidNode(n) && (n.children != [] ==> n.icon.Some?)
    ensures Expandable(n, recursive)
    decreases n
  {
    if recursive {
      forall k | 0 <= k < |n.children| ensures Expandable(n.children[k], true) {
        ValidIsExpandable(n.children[k], true);
      }
    }
  }

  /** A child of a node that can be collapsed recursively can be too. */
  lemma ChildCanCollapse(n: Node, i: nat)
    requires CanCollapse(Abs(n), true) && i < |n.children|
    ensures CanCollapse(Abs(n.children[i]), true)
  {
    assert Abs(n).children[i] == Abs(n.children[i]);
  }

  /** A valid node whose branches are expanded where the model allows
    * collapsing them can be collapsed. */
  lemma {:induction false} ValidIsCollapsible(n: Node, recursive: bool)
    requires ValidNode(n) && CanCollapse(Abs(n), recursive)
    ensures Collapsible(n, recursive)
    decreases n
  {
    ChildViewsDistinct(n);
    if recursive {
      forall k | 0 <= k < |n.children| ensures Collapsible(n.children[k], true) {
        ChildCanCollapse(n, k);
        ValidIsCollapsible(n.children[k], true);
      }
    }
  }

  /** Expanding keeps the node invariant: the containers end up right after
    * the node's own views, whether or not they were attached before. */
  lemma {:induction false} ExpandedIsValid(n: Node, recursive: bool)
    requires ValidNode(n) && (n.children != [] ==> n.icon.Some?)
    ensures ValidNode(Expanded(n, recursive))
    decreases n, 1
  {
    if n.children != [] {
      ExpandedChildrenValid(n, recursive);
      ExpandedAttached(n, recursive);
    }
  }

  /** Expanding keeps every child valid and classified, with its container. */
  lemma {:induction false} ExpandedChildrenValid(n: Node, recursive: bool)
    requires ValidNode(n)
    ensures forall k | 0 <= k < |n.children| ::
      var c := Expanded(n, recursive).children[k];
      ValidNode(c) && (c.isLeaf || c.icon.Some?) && c.uid == n.children[k].uid
    decreases n, 0
  {
    if n.children != [] && recursive {
      forall k | 0 <= k < |n.children|
        ensures ValidNode(Expanded(n.children[k], true))
      {
        ExpandedIsValid(n.children[k], true);
      }
    }
  }

  /** After expanding, the node shows its own views and then its children's
    * containers, in order. */
  lemma ExpandedAttached(n: Node, recursive: bool)
    requires ValidNode(n) && n.children != [] && n.icon.Some?
    ensures Expanded(n, recursive).attached == Head(Some(CollapseGlyph)) + ViewsOf(Expanded(n, recursive).children)
  {
    SameViews(Expanded(n, recursive).children, n.children);
    ChildViewsDistinct(n);
    Reattached(Head(n.icon), ViewsOf(n.children), n.isExpanded);
  }

  /** Expanding changes the node's fields as `AfterExpand` says. */
  lemma {:induction false} ExpandedAbs(n: Node, recursive: bool)
    ensures Abs(Expanded(n, recursive)) == AfterExpand(Abs(n), recursive)
    decreases n
  {
    if n.children != [] && recursive {
      var r := Expanded(n, true);
      forall k | 0 <= k < |n.children| ensures Abs(r).children[k] == AfterExpand(Abs(n), true).children[k] {
        ExpandedAbs(n.children[k], true);
      }
      assert Abs(r).children == AfterExpand(Abs(n), true).children;
    }
  }

  /** Collapsing keeps the node invariant: only the node's own views stay
    * attached, whether or not the containers were attached before. */
  lemma {:induction false} CollapsedIsValid(n: Node, recursive: bool)
    requires ValidNode(n) && (n.children != [] ==> n.icon.Some?)
    ensures ValidNode(Collapsed(n, recursive))
    decreases n
  {
    if n.children != [] {
      if recursive {
        forall k | 0 <= k < |n.children| ensures ValidNode(Collapsed(n.children[k], true)) {
          CollapsedIsValid(n.children[k], true);
        }
      }
      Detached(Head(n.icon), ViewsOf(n.children), n.isExpanded);
    }
  }

  /** Collapsing changes the node's fields as `AfterCollapse` says. */
  lemma {:induction false} CollapsedAbs(n: Node, recursive: bool)
    ensures Abs(Collapsed(n, recursive)) == AfterCollapse(Abs(n), recursive)
    decreases n
  {
    if n.children != [] && recursive {
      var r := Collapsed(n, true);
      forall k | 0 <= k < |n.children| ensures Abs(r).children[k] == AfterCollapse(Abs(n), true).children[k] {
        CollapsedAbs(n.children[k], true);
      }
      assert Abs(r).children == AfterCollapse(Abs(n), true).children;
    }
  }

  /**
   * `expand(recursive)`: on a node with children, switch the icon to the
   * collapse glyph, then for each child in order expand it (if recursive)
   * and append its container, then mark the node expanded.
   */
  method Expand(n: Node, recursive: bool) returns (r: Node)
    requires Expandable(n, recursive)
    ensures r == Expanded(n, recursive)
    decreases n, 1
  {
    r := n;
    if n.children != [] {
      var views := n.attached;
      var done := [];
      ghost var spec := if recursive then ExpandedNodes(n) else n.children;
      var i := 0;
      while i < |n.children|
        invariant 0 <= i <= |n.children| == |spec|
        invariant done == spec[..i]
        invariant views == AppendedUpTo(n.attached, ViewsOf(n.children), i)
      {
        var c;
        c, views := ExpandStep(n, recursive, i, views);
        assert spec[..i + 1] == spec[..i] + [c];
        done := done + [c];
        i := i + 1;
      }
      assert spec[..i] == spec;
      r := n.(icon := Some(CollapseGlyph), attached := views, children := done, isExpanded := true);
    }
  }

  /** One pass of `expand`'s loop: expand the child at `i` (if recursive),
    * then append its container. */
  method ExpandStep(n: Node, recursive: bool, i: nat, views: seq<View>) returns (c: Node, views': seq<View>)
    requires i < |n.children| && Expandable(n, recursive)
    ensures c == (if recursive then ExpandedNodes(n) else n.children)[i]
    ensures views' == Appended(views, ViewsOf(n.children)[i])
    decreases n, 0
  {
    c := n.children[i];
    if recursive {
      c := Expand(c, true);
    }
    views' := Appended(views, Box(n.children[i].uid));
  }

  /**
   * `collapse(recursive)`: on a node with children, switch the icon to the
   * expand glyph, then for each child in order collapse it (if recursive) and
   * remove its container, then mark the node collapsed.
   */
  method Collapse(n: Node, recursive: bool) returns (r: Node)
    requires Collapsible(n, recursive)
    ensures r == Collapsed(n, recursive)
    decreases n, 1
  {
    r := n;
    if n.children != [] {
      var views := n.attached;
      var done := [];
      ghost var spec := if recursive then CollapsedNodes(n) else n.children;
      ghost var vs := ViewsOf(n.children);
      FilteredNoneIn(n.attached, vs[..0]);
      var i := 0;
      while i < |n.children|
        invariant 0 <= i <= |n.children| == |spec|
        invariant done == spec[..i]
        invariant views == Filtered(n.attached, vs[..i])
      {
        var c;
        c, views := CollapseStep(n, recursive, i, views);
        assert spec[..i + 1] == spec[..i] + [c];
        done := done + [c];
        i := i + 1;
      }
      assert spec[..i] == spec && vs[..i] == vs;
      r := n.(icon := Some(ExpandGlyph), attached := views, children := done, isExpanded := false);
    }
  }

  /** One pass of `collapse`'s loop: collapse the child at `i` (if
    * recursive), then remove its container, which is still attached since
    * only the containers of the children before it have been removed. */
  method CollapseStep(n: Node, recursive: bool, i: nat, views: seq<View>) returns (c: Node, views': seq<View>)
    requires i < |n.children| && Collapsible(n, recursive)
    requires views == Filtered(n.attached, ViewsOf(n.children)[..i])
    ensures c == (if recursive then CollapsedNodes(n) else n.children)[i]
    ensures views' == Filtered(n.attached, ViewsOf(n.children)[..i + 1])
    decreases n, 0
  {
    c := n.children[i];
    if recursive {
      c := Collapse(c, true);
    }
    ghost var vs := ViewsOf(n.children);
    var v := Box(n.children[i].uid);
    assert v == vs[i] && v !in vs[..i];
    FilteredHas(n.attached, vs[..i], v);
    views' := Removed(views, v);
    FilteredStep(n.attached, vs, i);
  }

  /** The node `_onNodeToggle` leaves: collapsed when it was expanded,
    * expanded otherwise, never recursively; a node without children stays as
    * it is. */
  function Toggled(n: Node): (r: Node)
    ensures r.uid == n.uid && r.children == n.children
    ensures n.children != [] ==> r.isExpanded == !n.isExpanded
    ensures n.children == [] ==> r == n
  {
    if n.isExpanded then Collapsed(n, false) else Expanded(n, false)
  }

  /** Toggling keeps the node invariant and changes the fields as
    * `AfterToggle` says. */
  lemma {:induction false} ToggledIsValid(n: Node)
    requires ValidNode(n) && n.icon.Some?
    ensures ValidNode(Toggled(n)) && Toggled(n).icon.Some?
    ensures Abs(Toggled(n)) == AfterToggle(Abs(n))
  {
    if n.isExpanded {
      CollapsedIsValid(n, false);
      CollapsedAbs(n, false);
    } else {
      ExpandedIsValid(n, false);
      ExpandedAbs(n, false);
    }
  }

  /** On a collapsed branch, `expand(false)` then `collapse(false)` gives back
    * the node, container included: the collapse removes exactly the
    * containers the expand attached. */
  lemma {:induction false} ExpandCollapseRestores(n: Node)
    requires ValidNode(n) && n.icon.Some? && !n.isExpanded
    ensures Collapsed(Expanded(n, false), false) == n
  {
    ExpandedAttached(n, false);
    Detached(Head(Some(CollapseGlyph)), ViewsOf(n.children), true);
  }

  /** On an expanded branch, `collapse(false)` then `expand(false)` gives back
    * the node: the children's containers return in their old order. */
  lemma {:induction false} CollapseExpandRestores(n: Node)
    requires ValidNode(n) && n.isExpanded
    ensures Expanded(Collapsed(n, false), false) == n
  {
    var head, vs := Head(n.icon), ViewsOf(n.children);
    ChildViewsDistinct(n);
    Detached(head, vs, true);
    Reattached(head, vs, false);
    assert head + [] == head;
    assert Collapsed(n, false).attached == head;
  }

  /** Two clicks on an expander give back the node, container included. */
  lemma {:induction false} ToggledTwice(n: Node)
    requires ValidNode(n) && n.icon.Some?
    ensures Toggled(Toggled(n)) == n
  {
    if n.isExpanded {
      CollapseExpandRestores(n);
    } else {
      ExpandCollapseRestores(n);
    }
  }

  /** `_onNodeToggle`, the expander's click handler: flip this node alone. It
    * is registered only on a node that has an expander. */
  method OnNodeToggle(n: Node) returns (r: Node)
    requires ValidNode(n) && n.icon.Some?
    ensures r == Toggled(n)
    ensures ValidNode(r)
    ensures Abs(r) == AfterToggle(Abs(n))
    ensures r.uid == n.uid && r.icon.Some?
  {
    r := n;
    if |n.children| > 0 {
      if n.isExpanded {
        ValidIsCollapsible(n, false);
        r := Collapse(n, false);
        CollapsedIsValid(n, false);
        CollapsedAbs(n, false);
      } else {
        ValidIsExpandable(n, false);
        r := Expand(n, false);
        ExpandedIsValid(n, false);
        ExpandedAbs(n, false);
      }
    }
  }

  /** `expandAll`: expand the whole subtree. A node with children needs its
    * expander; a childless node, classified or not, is left as it is. */
  method ExpandAll(n: Node) returns (r: Node)
    requires ValidNode(n) && (n.children != [] ==> n.icon.Some?)
    ensures r == Expanded(n, true)
    ensures ValidNode(r) && ((n.isLeaf || n.icon.Some?) ==> (r.isLeaf || r.icon.Some?))
    ensures Abs(r) == AfterExpand(Abs(n), true)
    ensures AllBranchesExpanded(Abs(r))
  {
    ValidIsExpandable(n, true);
    r := Expand(n, true);
    ExpandedIsValid(n, true);
    ExpandedAbs(n, true);
    if n.children != [] {
      ValidNodeIsWellFormed(n);
      ExpandAllReachesEveryBranch(Abs(n));
    }
  }

  /** `collapseAll`: collapse the whole subtree; every branch in it must be
    * expanded, or `removeChild` throws. */
  method CollapseAll(n: Node) returns (r: Node)
    requires ValidNode(n) && (n.children != [] ==> n.icon.Some?)
    requires CanCollapse(Abs(n), true)
    ensures r == Collapsed(n, true)
    ensures ValidNode(r) && ((n.isLeaf || n.icon.Some?) ==> (r.isLeaf || r.icon.Some?))
    ensures Abs(r) == AfterCollapse(Abs(n), true)
    ensures NoneExpanded(Abs(r))
  {
    ValidIsCollapsible(n, true);
    r := Collapse(n, true);
    CollapsedIsValid(n, true);
    CollapsedAbs(n, true);
    if n.children != [] {
      ValidNodeIsWellFormed(n);
      CollapseAllReachesEveryBranch(Abs(n));
    }
  }

  // ---------------------------------------------------------------------
  // Destroying a node

  /** The listener `r` is registered on some node of the subtree. */
  predicate Registered(n: Node, r: Removal)
    decreases n
  {
    (r.uid == n.uid && r.listener in n.listeners) || RegisteredIn(n.children, |n.children|, r)
  }

  /** The listener `r` is registered in the subtree of one of the first `i`
    * nodes of `ns`. */
  predicate RegisteredIn(ns: seq<Node>, i: nat, r: Removal)
    requires i <= |ns|
    decreases ns, i
  {
    i > 0 && (RegisteredIn(ns, i - 1, r) || Registered(ns[i - 1], r))
  }

  /** The `removeEventListener` calls `destroy` makes: the children's, in
    * order, then the label's, then the expander's unless the node is a leaf. */
  function Removals(n: Node): (rs: seq<Removal>)
    ensures |rs| > 0 && rs[|rs| - 1] == Removal(n.uid, if n.isLeaf then LabelClick else ExpanderClick)
    decreases n
  {
    RemovalsOf(n.children, |n.children|) +
    [Removal(n.uid, LabelClick)] +
    (if n.isLeaf then [] else [Removal(n.uid, ExpanderClick)])
  }

  /** The calls made by destroying the first `i` nodes of `ns`, in order. */
  function RemovalsOf(ns: seq<Node>, i: nat): (rs: seq<Removal>)
    requires i <= |ns|
    ensures |rs| >= i
    decreases ns, i
  {
    if i == 0 then [] else RemovalsOf(ns, i - 1) + Removals(ns[i - 1])
  }

  /** Destroying the first `i` nodes of `ns` removes exactly the listeners
    * registered in their subtrees. */
  lemma {:induction false} RemovalsOfRegistered(ns: seq<Node>, i: nat, r: Removal)
    requires i <= |ns|
    requires forall k | 0 <= k < i :: ValidNode(ns[k]) && (ns[k].isLeaf || ns[k].icon.Some?)
    ensures r in RemovalsOf(ns, i) <==> RegisteredIn(ns, i, r)
    decreases ns, i
  {
    if i > 0 {
      RemovalsOfRegistered(ns, i - 1, r);
      RemovalsRegistered(ns[i - 1], r);
    }
  }

  /** `destroy` removes every listener registered in the subtree and no other. */
  lemma {:induction false} RemovalsRegistered(n: Node, r: Removal)
    requires ValidNode(n) && (n.isLeaf || n.icon.Some?)
    ensures r in Removals(n) <==> Registered(n, r)
    decreases n
  {
    RemovalsOfRegistered(n.children, |n.children|, r);
  }

  /**
   * `destroy`: destroy the children in order, then remove the label's
   * listener and, unless the node is a leaf, the expander's; the node's
   * properties are then deleted, so nothing of it is returned. The expander
   * must exist unless the node is a leaf: the source dereferences it.
   */
  method Destroy(n: Node) returns (removed: seq<Removal>)
    requires ValidNode(n) && (n.isLeaf || n.icon.Some?)
    ensures removed == Removals(n)
    ensures forall r :: r in removed <==> Registered(n, r)
    decreases n
  {
    removed := [];
    var i := 0;
    while i < |n.children|
      invariant 0 <= i <= |n.children|
      invariant removed == RemovalsOf(n.children, i)
    {
      var rs := Destroy(n.children[i]);
      removed := removed + rs;
      i := i + 1;
    }
    removed := removed + [Removal(n.uid, LabelClick)];
    if !n.isLeaf {
      removed := removed + [Removal(n.uid, ExpanderClick)];
    }
    forall r ensures r in removed <==> Registered(n, r) {
      RemovalsRegistered(n, r);
    }
  }
}
