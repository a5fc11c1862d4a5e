/**
 * The tree list: the option defaults of its constructor, the recursive build
 * of the nodes from a nested model, the mounting of the root containers, and
 * the whole-tree operations `expandAll`, `collapseAll` and `destroy`.
 */
module TreeLists {
  import opened Wrappers
  import opened Js
  import opened Dom
  import opened NodeModel
  import opened TreeListNodes

  // ---------------------------------------------------------------------
  // Option defaults

  /** The `renderTo` option: kept when it is an object with `appendChild` (an
    * element), the document body otherwise. */
  function MountFor(renderTo: JsVal, body: Surface): (mount: Surface)
    ensures renderTo.Element? ==> mount == renderTo.surface
    ensures !renderTo.Element? ==> mount == body
  {
    if TypeOf(renderTo) != "object" || !renderTo.Element? then body else renderTo.surface
  }

  /** The entries the build loop visits: none when `model` is not an object,
    * and none for an object without `length`. */
  function ModelFor(model: JsVal): (entries: seq<Entry>)
    ensures model.Arr? ==> entries == model.items
    ensures !model.Arr? ==> entries == []
  {
    if TypeOf(model) != "object" then []
    else
      match model
      case Arr(items) => items
      case _ => []
  }

  // ---------------------------------------------------------------------
  // The tree a model describes

  /** The node `_buildNode(e, depth)` returns: a new node with the entry's id
    * and name, the given depth and the tree's callback, its children built one
    * level deeper, then classified by `setExpander`. */
  function Built(e: Entry, depth: int, clicked: Option<Callback>): (s: NodeState)
    ensures s.id == DefaultNumber(e.id) && s.name == DefaultName(e.name)
    ensures s.depth == depth && s.clicked == clicked
    ensures (s.isLeaf <==> |e.children| == 0) && !s.isExpanded && Classified(s)
    ensures |s.children| == |e.children|
    decreases e
  {
    AfterSetExpander(
      Created(DefaultNumber(e.id), DefaultName(e.name), depth, clicked).(children := BuiltChildren(e, depth, clicked)))
  }

  /** The children `_buildNode(e, depth)` pushes, in the model's order. */
  function BuiltChildren(e: Entry, depth: int, clicked: Option<Callback>): (cs: seq<NodeState>)
    ensures |cs| == |e.children|
    ensures forall k | 0 <= k < |cs| :: cs[k] == Built(e.children[k], depth + 1, clicked)
    decreases e, 0
  {
    seq(|e.children|, k requires 0 <= k < |e.children| => Built(e.children[k], depth + 1, clicked))
  }

  /**
   * `s` has the shape of the model entry `e` placed at `depth`: the entry's id
   * and name after defaulting, that depth, the tree's callback, a leaf exactly
   * when the entry has no children, and children that mirror the entry's
   * children, in order, one level deeper.
   */
  predicate Mirrors(s: NodeState, e: Entry, depth: int, clicked: Option<Callback>)
    decreases e
  {
    s.id == DefaultNumber(e.id) && s.name == DefaultName(e.name) && s.depth == depth &&
    s.clicked == clicked && (s.isLeaf <==> |e.children| == 0) &&
    |s.children| == |e.children| &&
    forall k | 0 <= k < |e.children| :: Mirrors(s.children[k], e.children[k], depth + 1, clicked)
  }

  /** A built node mirrors its entry, is well formed and starts fully collapsed. */
  lemma {:induction false} BuiltMirrors(e: Entry, depth: int, clicked: Option<Callback>)
    ensures Mirrors(Built(e, depth, clicked), e, depth, clicked)
    ensures WellFormed(Built(e, depth, clicked))
    ensures NoneExpanded(Built(e, depth, clicked))
    decreases e
  {
    var cs := BuiltChildren(e, depth, clicked);
    forall k | 0 <= k < |cs|
      ensures Mirrors(cs[k], e.children[k], depth + 1, clicked)
      ensures WellFormed(cs[k]) && NoneExpanded(cs[k])
    {
      BuiltMirrors(e.children[k], depth + 1, clicked);
    }
    SetExpanderClassifies(Created(DefaultNumber(e.id), DefaultName(e.name), depth, clicked).(children := cs));
  }

  /** Expanding changes no id, name, depth, callback, leaf flag or child order. */
  lemma {:induction false} ExpandKeepsMirrors(s: NodeState, e: Entry, depth: int, clicked: Option<Callback>, recursive: bool)
    requires Mirrors(s, e, depth, clicked)
    ensures Mirrors(AfterExpand(s, recursive), e, depth, clicked)
    decreases e
  {
    if |s.children| > 0 && recursive {
      forall k | 0 <= k < |e.children|
        ensures Mirrors(AfterExpand(s, true).children[k], e.children[k], depth + 1, clicked)
      {
        ExpandKeepsMirrors(s.children[k], e.children[k], depth + 1, clicked, true);
      }
    }
  }

  /** Collapsing changes no id, name, depth, callback, leaf flag or child order. */
  lemma {:induction false} CollapseKeepsMirrors(s: NodeState, e: Entry, depth: int, clicked: Option<Callback>, recursive: bool)
    requires Mirrors(s, e, depth, clicked)
    ensures Mirrors(AfterCollapse(s, recursive), e, depth, clicked)
    decreases e
  {
    if |s.children| > 0 && recursive {
      forall k | 0 <= k < |e.children|
        ensures Mirrors(AfterCollapse(s, true).children[k], e.children[k], depth + 1, clicked)
      {
        CollapseKeepsMirrors(s.children[k], e.children[k], depth + 1, clicked, true);
      }
    }
  }

  /** On a freshly built tree, `collapseAll` after `expandAll` cannot throw and
    * gives back the tree as it was built. */
  lemma {:induction false} BuiltRoundTrip(e: Entry, clicked: Option<Callback>)
    ensures CanCollapse(AfterExpand(Built(e, 0, clicked), true), true)
    ensures AfterCollapse(AfterExpand(Built(e, 0, clicked), true), true) == Built(e, 0, clicked)
  {
    BuiltMirrors(e, 0, clicked);
    ExpandAllReachesEveryBranch(Built(e, 0, clicked));
    FullyExpandedCanCollapse(AfterExpand(Built(e, 0, clicked), true));
    CollapseAllUndoesExpandAll(Built(e, 0, clicked));
  }

  /** A root of the tree: a valid, classified node with the shape of its entry
    * at depth 0. */
  ghost predicate RootOk(n: Node, e: Entry, clicked: Option<Callback>)
  {
    ValidNode(n) && (n.isLeaf || n.icon.Some?) && Mirrors(Abs(n), e, 0, clicked)
  }

  /** `expand(true)` keeps a root a root of the same entry. */
  lemma {:induction false} ExpandedRootOk(n: Node, e: Entry, clicked: Option<Callback>)
    requires RootOk(n, e, clicked)
    ensures RootOk(Expanded(n, true), e, clicked)
  {
    ExpandedIsValid(n, true);
    ExpandedAbs(n, true);
    ExpandKeepsMirrors(Abs(n), e, 0, clicked, true);
  }

  /** `collapse(true)` keeps a root a root of the same entry. */
  lemma {:induction false} CollapsedRootOk(n: Node, e: Entry, clicked: Option<Callback>)
    requires RootOk(n, e, clicked)
    ensures RootOk(Collapsed(n, true), e, clicked)
  {
    CollapsedIsValid(n, true);
    CollapsedAbs(n, true);
    CollapseKeepsMirrors(Abs(n), e, 0, clicked, true);
  }

  /** The node `_buildNode(e, depth)` holds once it has pushed `i` children. */
  function Building(e: Entry, depth: int, clicked: Option<Callback>, i: nat): (s: NodeState)
    requires i <= |e.children|
    ensures s.children == BuiltChildren(e, depth, clicked)[..i]
  {
    Created(DefaultNumber(e.id), DefaultName(e.name), depth, clicked).(children := BuiltChildren(e, depth, clicked)[..i])
  }

  /** Pushing the next built child takes the build one child further. */
  lemma {:induction false} BuildingStep(e: Entry, depth: int, clicked: Option<Callback>, i: nat)
    requires i < |e.children|
    ensures Building(e, depth, clicked, i + 1) ==
      Building(e, depth, clicked, i).(children := Building(e, depth, clicked, i).children + [Built(e.children[i], depth + 1, clicked)])
  {
    var built := BuiltChildren(e, depth, clicked);
    assert built[..i + 1] == built[..i] + [built[i]];
  }

  /** Part way through `_buildNode(e, depth)`: the node is valid, not yet
    * classified, holds the first `i` children built from the entry, and no
    * container identity among them reaches `next`. */
  ghost predicate Pushed(n: Node, e: Entry, depth: int, clicked: Option<Callback>, i: nat, next: nat)
  {
    i <= |e.children| && |n.children| == i && ValidNode(n) && !n.isLeaf && n.icon == None && n.uid < next &&
    (forall k | 0 <= k < i :: n.children[k].uid < next) &&
    Abs(n) == Building(e, depth, clicked, i)
  }

  /** Pushing the built child `i` onto a node part way through the build
    * advances the build by one child. */
  lemma {:induction false} PushedStep(n: Node, c: Node, e: Entry, depth: int, clicked: Option<Callback>, i: nat, next: nat, after: nat)
    requires i < |e.children| && Pushed(n, e, depth, clicked, i, next)
    requires ValidNode(c) && (c.isLeaf || c.icon.Some?) && next <= c.uid < after
    requires Abs(c) == Built(e.children[i], depth + 1, clicked)
    ensures Pushed(PushChild(n, c), e, depth, clicked, i + 1, after)
  {
    BuildingStep(e, depth, clicked, i);
    var r := PushChild(n, c);
    assert r.children == n.children + [c];
  }

  /** Once every child is pushed, `setExpander` completes the built node. */
  lemma {:induction false} PushedAll(n: Node, e: Entry, depth: int, clicked: Option<Callback>, next: nat)
    requires Pushed(n, e, depth, clicked, |e.children|, next)
    ensures ValidNode(SetExpander(n)) && (SetExpander(n).isLeaf || SetExpander(n).icon.Some?)
    ensures Abs(SetExpander(n)) == Built(e, depth, clicked)
    ensures SetExpander(n).uid == n.uid
  {
    var built := BuiltChildren(e, depth, clicked);
    assert built[..|e.children|] == built;
  }

  /** The roots of a tree built from `es`: one valid, classified root per
    * entry with the shape of its entry, no two sharing a container. */
  ghost predicate RootsOk(ns: seq<Node>, es: seq<Entry>, clicked: Option<Callback>)
  {
    |ns| == |es| && (forall k | 0 <= k < |ns| :: RootOk(ns[k], es[k], clicked)) && Distinct(ViewsOf(ns))
  }

  /** Part way through `_buildModel`: the roots of the first entries are
    * built, in order, on containers numbered upwards from `start`, below `uid`. */
  ghost predicate RootsBuilt(ns: seq<Node>, es: seq<Entry>, clicked: Option<Callback>, start: nat, uid: nat)
  {
    |ns| <= |es| && start <= uid &&
    (forall k | 0 <= k < |ns| ::
       RootOk(ns[k], es[k], clicked) && Abs(ns[k]) == Built(es[k], 0, clicked) && start <= ns[k].uid < uid) &&
    (forall j, k | 0 <= j < k < |ns| :: ns[j].uid < ns[k].uid)
  }

  /** Appending the next built root advances `_buildModel` by one entry. */
  lemma {:induction false} RootsBuiltStep(ns: seq<Node>, n: Node, es: seq<Entry>, clicked: Option<Callback>, start: nat, uid: nat, next: nat)
    requires RootsBuilt(ns, es, clicked, start, uid) && |ns| < |es|
    requires ValidNode(n) && (n.isLeaf || n.icon.Some?) && Abs(n) == Built(es[|ns|], 0, clicked)
    requires uid == n.uid < next
    ensures RootsBuilt(ns + [n], es, clicked, start, next)
  {
    BuiltMirrors(es[|ns|], 0, clicked);
    assert RootOk(n, es[|ns|], clicked);
    var grown := ns + [n];
    forall k | 0 <= k < |grown|
      ensures RootOk(grown[k], es[k], clicked) && Abs(grown[k]) == Built(es[k], 0, clicked)
      ensures start <= grown[k].uid < next
    {
      if k == |ns| {
        assert grown[k] == n;
      } else {
        assert grown[k] == ns[k];
      }
    }
    forall j, k | 0 <= j < k < |grown| ensures grown[j].uid < grown[k].uid {
      assert grown[j] == ns[j];
    }
  }

  /** `expand(true)` on every root keeps the roots those of the same entries,
    * expands every branch, and leaves a tree `collapse(true)` can run on. */
  lemma {:induction false} ExpandedRootsOk(ns: seq<Node>, done: seq<Node>, es: seq<Entry>, clicked: Option<Callback>)
    requires RootsOk(ns, es, clicked) && |done| == |ns|
    requires forall k | 0 <= k < |ns| :: done[k] == Expanded(ns[k], true)
    ensures RootsOk(done, es, clicked)
    ensures forall k | 0 <= k < |done| :: AllBranchesExpanded(Abs(done[k])) && CanCollapse(Abs(done[k]), true)
  {
    forall k | 0 <= k < |ns|
      ensures RootOk(done[k], es[k], clicked)
      ensures AllBranchesExpanded(Abs(done[k])) && CanCollapse(Abs(done[k]), true)
    {
      ExpandedRootOk(ns[k], es[k], clicked);
      ValidNodeIsWellFormed(ns[k]);
      ExpandedAbs(ns[k], true);
      ExpandAllReachesEveryBranch(Abs(ns[k]));
      FullyExpandedCanCollapse(Abs(done[k]));
    }
    SameViews(ns, done);
  }

  /** `collapse(true)` on every root keeps the roots those of the same entries
    * and leaves no node expanded. */
  lemma {:induction false} CollapsedRootsOk(ns: seq<Node>, done: seq<Node>, es: seq<Entry>, clicked: Option<Callback>)
    requires RootsOk(ns, es, clicked) && |done| == |ns|
    requires forall k | 0 <= k < |ns| :: done[k] == Collapsed(ns[k], true)
    ensures RootsOk(done, es, clicked)
    ensures forall k | 0 <= k < |done| :: NoneExpanded(Abs(done[k]))
  {
    forall k | 0 <= k < |ns|
      ensures RootOk(done[k], es[k], clicked) && NoneExpanded(Abs(done[k]))
    {
      CollapsedRootOk(ns[k], es[k], clicked);
      ValidNodeIsWellFormed(ns[k]);
      CollapsedAbs(ns[k], true);
      CollapseAllReachesEveryBranch(Abs(ns[k]));
    }
    SameViews(ns, done);
  }

  /** Every root can be expanded recursively without an exception. */
  lemma {:induction false} RootsExpandable(ns: seq<Node>, es: seq<Entry>, clicked: Option<Callback>)
    requires RootsOk(ns, es, clicked)
    ensures forall k | 0 <= k < |ns| :: Expandable(ns[k], true)
  {
    forall k | 0 <= k < |ns| ensures Expandable(ns[k], true) {
      ValidIsExpandable(ns[k], true);
    }
  }

  /** Every root whose branches are all expanded can be collapsed recursively
    * without an exception. */
  lemma {:induction false} RootsCollapsible(ns: seq<Node>, es: seq<Entry>, clicked: Option<Callback>)
    requires RootsOk(ns, es, clicked)
    requires forall k | 0 <= k < |ns| :: CanCollapse(Abs(ns[k]), true)
    ensures forall k | 0 <= k < |ns| :: Collapsible(ns[k], true)
  {
    forall k | 0 <= k < |ns| ensures Collapsible(ns[k], true) {
      ValidIsCollapsible(ns[k], true);
    }
  }

  // ---------------------------------------------------------------------
  // The loops over the roots

  /** The loop of `expandAll`: `expand(true)` on each root, in order. */
  method ExpandEach(ns: seq<Node>) returns (done: seq<Node>)
    requires forall k | 0 <= k < |ns| :: Expandable(ns[k], true)
    ensures |done| == |ns|
    ensures forall k | 0 <= k < |ns| :: done[k] == Expanded(ns[k], true)
  {
    done := [];
    var i := 0;
    while i < |ns|
      invariant 0 <= i <= |ns| && |done| == i
      invariant forall k | 0 <= k < i :: done[k] == Expanded(ns[k], true)
    {
      var r := Expand(ns[i], true);
      done := done + [r];
      i := i + 1;
    }
  }

  /** The loop of `collapseAll`: `collapse(true)` on each root, in order. */
  method CollapseEach(ns: seq<Node>) returns (done: seq<Node>)
    requires forall k | 0 <= k < |ns| :: Collapsible(ns[k], true)
    ensures |done| == |ns|
    ensures forall k | 0 <= k < |ns| :: done[k] == Collapsed(ns[k], true)
  {
    done := [];
    var i := 0;
    while i < |ns|
      invariant 0 <= i <= |ns| && |done| == i
      invariant forall k | 0 <= k < i :: done[k] == Collapsed(ns[k], true)
    {
      var r := Collapse(ns[i], true);
      done := done + [r];
      i := i + 1;
    }
  }

  /** The loop of `destroy`: destroy each root, in order, collecting the
    * listeners removed. */
  method DestroyEach(ns: seq<Node>) returns (removed: seq<Removal>)
    requires forall k | 0 <= k < |ns| :: ValidNode(ns[k]) && (ns[k].isLeaf || ns[k].icon.Some?)
    ensures removed == RemovalsOf(ns, |ns|)
    ensures forall r :: r in removed <==> RegisteredIn(ns, |ns|, r)
  {
    removed := [];
    var i := 0;
    while i < |ns|
      invariant 0 <= i <= |ns|
      invariant removed == RemovalsOf(ns, i)
    {
      var r := TreeListNodes.Destroy(ns[i]);
      removed := removed + r;
      i := i + 1;
    }
    forall r ensures r in removed <==> RegisteredIn(ns, |ns|, r) {
      RemovalsOfRegistered(ns, |ns|, r);
    }
  }

  // ---------------------------------------------------------------------
  // A click on an expander inside the tree

  /** `path` leads from `n` to one of its descendants: the index of the child
    * taken at each level. */
  predicate OnPath(n: Node, path: seq<nat>)
    decreases |path|
  {
    path == [] || (path[0] < |n.children| && OnPath(n.children[path[0]], path[1..]))
  }

  /** The node `path` leads to. */
  function NodeAt(n: Node, path: seq<nat>): Node
    requires OnPath(n, path)
    decreases |path|
  {
    if path == [] then n else NodeAt(n.children[path[0]], path[1..])
  }

  /** A node of a valid subtree is valid. */
  lemma {:induction false} NodeAtValid(n: Node, path: seq<nat>)
    requires ValidNode(n) && OnPath(n, path)
    ensures ValidNode(NodeAt(n, path))
    decreases |path|
  {
    if path != [] {
      NodeAtValid(n.children[path[0]], path[1..]);
    }
  }

  /**
   * The subtree after a click on the expander of the node `path` leads to:
   * that node is toggled in place, so each ancestor holds the toggled node
   * where the old one was, and every other node is unchanged.
   */
  function ToggledAt(n: Node, path: seq<nat>): (r: Node)
    requires OnPath(n, path)
    ensures OnPath(r, path) && NodeAt(r, path) == Toggled(NodeAt(n, path))
    ensures r.uid == n.uid && |r.children| == |n.children|
    ensures path != [] ==> r == n.(children := r.children)
    ensures path != [] ==> forall k | 0 <= k < |n.children| && k != path[0] :: r.children[k] == n.children[k]
    decreases |path|
  {
    if path == [] then Toggled(n)
    else n.(children := n.children[path[0] := ToggledAt(n.children[path[0]], path[1..])])
  }

  /** A click inside a valid, classified subtree keeps it valid and classified. */
  lemma {:induction false} ToggledAtValid(n: Node, path: seq<nat>)
    requires ValidNode(n) && (n.isLeaf || n.icon.Some?)
    requires OnPath(n, path) && NodeAt(n, path).icon.Some?
    ensures ValidNode(ToggledAt(n, path)) && (ToggledAt(n, path).isLeaf || ToggledAt(n, path).icon.Some?)
    decreases |path|
  {
    if path == [] {
      ToggledIsValid(n);
    } else {
      ToggledAtValid(n.children[path[0]], path[1..]);
      var r := ToggledAt(n, path);
      forall k | 0 <= k < |n.children| ensures r.children[k].uid == n.children[k].uid {
      }
      SameViews(r.children, n.children);
    }
  }

  /** A click changes no id, name, depth, callback, leaf flag or child order
    * anywhere in the subtree. */
  lemma {:induction false} ToggledAtMirrors(n: Node, path: seq<nat>, e: Entry, depth: int, clicked: Option<Callback>)
    requires ValidNode(n) && OnPath(n, path) && NodeAt(n, path).icon.Some?
    requires Mirrors(Abs(n), e, depth, clicked)
    ensures Mirrors(Abs(ToggledAt(n, path)), e, depth, clicked)
    decreases |path|
  {
    if path == [] {
      ToggledIsValid(n);
      if n.isExpanded {
        CollapseKeepsMirrors(Abs(n), e, depth, clicked, false);
      } else {
        ExpandKeepsMirrors(Abs(n), e, depth, clicked, false);
      }
    } else {
      var i := path[0];
      ToggledAtMirrors(n.children[i], path[1..], e.children[i], depth + 1, clicked);
      var r := ToggledAt(n, path);
      forall k | 0 <= k < |e.children|
        ensures Mirrors(Abs(r).children[k], e.children[k], depth + 1, clicked)
      {
        if k != i {
          assert Abs(r).children[k] == Abs(n).children[k];
        }
      }
    }
  }

  /** Two clicks on the same expander give back the whole subtree, every
    * container included. */
  lemma {:induction false} ToggledAtTwice(n: Node, path: seq<nat>)
    requires ValidNode(n) && OnPath(n, path) && NodeAt(n, path).icon.Some?
    ensures ToggledAt(ToggledAt(n, path), path) == n
    decreases |path|
  {
    if path == [] {
      ToggledTwice(n);
    } else {
      var i := path[0];
      NodeAtValid(n, path);
      ToggledIsValid(NodeAt(n, path));
      ToggledAtTwice(n.children[i], path[1..]);
      var r := ToggledAt(n, path);
      assert r.children[i := ToggledAt(r.children[i], path[1..])] == n.children;
    }
  }

  /** A click on an expander below one root keeps the roots those of the
    * same entries. */
  lemma {:induction false} ToggledRootsOk(ns: seq<Node>, root: nat, path: seq<nat>, es: seq<Entry>, clicked: Option<Callback>)
    requires RootsOk(ns, es, clicked) && root < |ns|
    requires OnPath(ns[root], path) && NodeAt(ns[root], path).icon.Some?
    ensures RootsOk(ns[root := ToggledAt(ns[root], path)], es, clicked)
  {
    ToggledAtValid(ns[root], path);
    ToggledAtMirrors(ns[root], path, es[root], 0, clicked);
    var r := ToggledAt(ns[root], path);
    assert RootOk(r, es[root], clicked);
    var done := ns[root := r];
    forall k | 0 <= k < |done| ensures RootOk(done[k], es[k], clicked) && done[k].uid == ns[k].uid {
      if k == root {
        assert done[k] == r;
      } else {
        assert done[k] == ns[k];
      }
    }
    SameViews(done, ns);
  }

  /** The click reaching the node `path` leads to: `_onNodeToggle` runs on
    * that node where it sits in its parent's `children`. */
  method ToggleIn(n: Node, path: seq<nat>) returns (r: Node)
    requires ValidNode(n) && OnPath(n, path) && NodeAt(n, path).icon.Some?
    ensures r == ToggledAt(n, path)
    decreases |path|
  {
    if path == [] {
      r := OnNodeToggle(n);
    } else {
      var c := ToggleIn(n.children[path[0]], path[1..]);
      r := n.(children := n.children[path[0] := c]);
    }
  }

  // ---------------------------------------------------------------------
  // The component

  class TreeList {
    /** The root nodes, in the model's order. */
    var nodes: seq<Node>
    /** The element the roots are rendered into. */
    const mount: Surface
    /** The callback every node shares. */
    const nodeClicked: Option<Callback>
    /** Set once `destroy` has deleted the component's fields. */
    var destroyed: bool
    /** The entries the tree was built from. */
    ghost const model: seq<Entry>

    /** One root per model entry, each a valid classified node with the shape
      * of its entry, no two sharing a container. */
    ghost predicate Valid()
      reads this
    {
      !destroyed && RootsOk(nodes, model, nodeClicked)
    }

    /**
     * `new TreeList({renderTo, model, nodeClicked})`: default the options,
     * build one root per entry of the model at depth 0 and append the roots'
     * containers to the mount in order. `body` stands for `document.body`.
     */
    constructor (renderTo: JsVal, model: JsVal, nodeClicked: JsVal, body: Surface)
      modifies MountFor(renderTo, body)
      ensures Valid()
      ensures mount == MountFor(renderTo, body)
      ensures this.nodeClicked == CallbackOf(nodeClicked)
      ensures this.model == ModelFor(model)
      ensures forall k | 0 <= k < |nodes| :: Abs(nodes[k]) == Built(this.model[k], 0, this.nodeClicked)
      ensures mount.attached == old(MountFor(renderTo, body).attached) + ViewsOf(nodes)
      ensures forall k | 0 <= k < |nodes| :: Box(nodes[k].uid) !in old(MountFor(renderTo, body).attached)
    {
      mount := MountFor(renderTo, body);
      this.nodeClicked := CallbackOf(nodeClicked);
      this.model := ModelFor(model);
      nodes := [];
      destroyed := false;
      new;
      var start := FreshUid(mount.attached);
      BuildModel(ModelFor(model), start);
      BuildUI(start);
    }

    /** `_buildModel`: build one root per entry, in order; every container is
      * created new, so its identity is at least `start`. */
    method BuildModel(entries: seq<Entry>, start: nat)
      requires entries == model && nodes == [] && !destroyed
      modifies this
      ensures Valid()
      ensures forall k | 0 <= k < |nodes| :: Abs(nodes[k]) == Built(model[k], 0, nodeClicked) && start <= nodes[k].uid
    {
      var roots := [];
      var uid := start;
      var i := 0;
      while i < |entries|
        invariant i <= |entries| && |roots| == i
        invariant RootsBuilt(roots, entries, nodeClicked, start, uid)
        modifies {}
      {
        var n, next := BuildNode(entries[i], 0, uid);
        RootsBuiltStep(roots, n, entries, nodeClicked, start, uid, next);
        roots := roots + [n];
        uid := next;
        i := i + 1;
      }
      nodes := roots;
    }

    /** `_buildNode(e, depth)`: create the node, push each child built one
      * level deeper, then classify it. Containers get identities from `uid` on. */
    method BuildNode(e: Entry, depth: int, uid: nat) returns (n: Node, next: nat)
      ensures ValidNode(n) && (n.isLeaf || n.icon.Some?)
      ensures Abs(n) == Built(e, depth, nodeClicked)
      ensures uid == n.uid < next
      decreases e, 1
    {
      n := Create(e.id, e.name, Num(depth), FromCallback(nodeClicked), uid);
      next := uid + 1;
      var i := 0;
      while i < |e.children|
        invariant i <= |e.children|
        invariant Pushed(n, e, depth, nodeClicked, i, next) && n.uid == uid
      {
        n, next := BuildChild(e, depth, n, i, next);
        i := i + 1;
      }
      PushedAll(n, e, depth, nodeClicked, next);
      n := SetExpander(n);
    }

    /** One turn of `_buildNode`'s loop: build child `i` and push it. */
    method BuildChild(e: Entry, depth: int, n: Node, i: nat, next: nat) returns (n': Node, next': nat)
      requires i < |e.children| && Pushed(n, e, depth, nodeClicked, i, next)
      ensures Pushed(n', e, depth, nodeClicked, i + 1, next') && n'.uid == n.uid
      decreases e, 0
    {
      var c;
      c, next' := BuildNode(e.children[i], depth + 1, next);
      PushedStep(n, c, e, depth, nodeClicked, i, next, next');
      n' := PushChild(n, c);
    }

    /** `_buildUI`: append each root's container to the mount, in order. The
      * containers are new, so the mount gains exactly them. */
    method BuildUI(start: nat)
      requires Distinct(ViewsOf(nodes))
      requires forall k | 0 <= k < |nodes| :: start <= nodes[k].uid
      requires forall w | w in mount.attached && w.Box? :: w.uid < start
      modifies mount
      ensures mount.attached == old(mount.attached) + ViewsOf(nodes)
    {
      ghost var vs := ViewsOf(nodes);
      var i := 0;
      while i < |nodes|
        invariant 0 <= i <= |nodes|
        invariant mount.attached == AppendedUpTo(old(mount.attached), vs, i)
      {
        mount.AppendChild(Box(nodes[i].uid));
        i := i + 1;
      }
      forall w | w in vs ensures w !in old(mount.attached) {
        var k :| 0 <= k < |vs| && vs[k] == w;
      }
      AppendedFresh(old(mount.attached), vs);
    }

    /** `expandAll`: `expand(true)` on every root. Every branch ends up
      * expanded; the mount is left alone. */
    method ExpandAll()
      requires Valid()
      modifies this
      ensures Valid()
      ensures |nodes| == |old(nodes)|
      ensures forall k | 0 <= k < |nodes| :: nodes[k] == Expanded(old(nodes)[k], true)
      ensures forall k | 0 <= k < |nodes| :: AllBranchesExpanded(Abs(nodes[k])) && CanCollapse(Abs(nodes[k]), true)
      ensures unchanged(mount)
    {
      RootsExpandable(nodes, model, nodeClicked);
      var done := ExpandEach(nodes);
      ExpandedRootsOk(nodes, done, model, nodeClicked);
      nodes := done;
    }

    /** `collapseAll`: `collapse(true)` on every root; it throws unless every
      * branch is expanded. No node stays expanded. */
    method CollapseAll()
      requires Valid()
      requires forall k | 0 <= k < |nodes| :: CanCollapse(Abs(nodes[k]), true)
      modifies this
      ensures Valid()
      ensures |nodes| == |old(nodes)|
      ensures forall k | 0 <= k < |nodes| :: nodes[k] == Collapsed(old(nodes)[k], true)
      ensures forall k | 0 <= k < |nodes| :: NoneExpanded(Abs(nodes[k]))
      ensures unchanged(mount)
    {
      RootsCollapsible(nodes, model, nodeClicked);
      var done := CollapseEach(nodes);
      CollapsedRootsOk(nodes, done, model, nodeClicked);
      nodes := done;
    }

    /** A click on the expander of a node of the tree: its listener runs
      * `_onNodeToggle` on that node, found by `path` below root `root`. Only
      * a node with an expander listens. */
    method ToggleAt(root: nat, path: seq<nat>)
      requires Valid() && root < |nodes|
      requires OnPath(nodes[root], path) && NodeAt(nodes[root], path).icon.Some?
      modifies this
      ensures Valid()
      ensures nodes == old(nodes)[root := ToggledAt(old(nodes)[root], path)]
      ensures Abs(NodeAt(nodes[root], path)) == AfterToggle(Abs(NodeAt(old(nodes)[root], path)))
      ensures unchanged(mount)
    {
      var r := ToggleIn(nodes[root], path);
      ToggledRootsOk(nodes, root, path, model, nodeClicked);
      NodeAtValid(nodes[root], path);
      ToggledIsValid(NodeAt(nodes[root], path));
      nodes := nodes[root := r];
    }

    /** `destroy`: destroy every root in order, then delete the fields. Exactly
      * the listeners registered anywhere in the tree are removed; the roots'
      * containers stay attached to the mount. */
    method Destroy() returns (removed: seq<Removal>)
      requires Valid()
      modifies this
      ensures destroyed && nodes == []
      ensures removed == RemovalsOf(old(nodes), |old(nodes)|)
      ensures forall r :: r in removed <==> RegisteredIn(old(nodes), |old(nodes)|, r)
      ensures unchanged(mount)
    {
      removed := DestroyEach(nodes);
      nodes := [];
      destroyed := true;
    }
  }
}
