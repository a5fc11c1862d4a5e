# TreeList.js in Dafny

A model of the TreeList.js component. The component turns a nested model of
`{id, name, children}` entries into a tree of nodes. Each node has a label. A
node with children also has an expander that toggles whether the children's
containers are attached to the node's own container. The tree mounts its root
containers into a caller's element and offers `expandAll`, `collapseAll` and
`destroy`.

The project has six modules:

- `Wrappers`: an `Option` type.
- `Js`: the few JavaScript values the component inspects with `typeof`, and
  the shape of a model entry.
- `Dom`: an element reduced to its ordered list of attached views. It gives
  `appendChild`, which moves a view that is already attached to the end, and
  `removeChild`, which takes out a view that must be attached.
- `NodeModel`: a node and its subtree as a plain value (`NodeState`), with
  what each node operation does to that value. Its lemmas state what the
  operations promise about whole subtrees:
  - `expand(true)` reaches every branch;
  - `collapseAll` undoes `expandAll`;
  - two toggles restore the node.
- `TreeListNodes` (`src/TreeListNode.js`): a node as a `Node` value, including
  the views attached to its container and the listeners it has registered.
  - `ValidNode` is the node invariant. It includes the fact that a container
    holds the expander, then the label, then, exactly while the node is
    expanded, its children's containers in order.
  - `expand` and `collapse` are methods. Their loops attach or remove one
    child container per turn and recurse into the child when asked to.
  - Each operation is proved to produce exactly the node that a
    specification function (`Expanded`, `Collapsed`) describes. Lemmas then
    prove that this node is valid, and that its fields are those `NodeModel`
    predicts.
- `TreeLists` (`src/TreeList.js`): the component itself, as a class.
  - It holds the roots (`nodes`), the mount, the shared callback, a
    `destroyed` flag and the model it was built from.
  - `Valid` states the component's invariant: one valid root per model entry,
    each with the shape of its entry at depth 0, and no two roots share a
    container.
  - `Built` is the tree a model describes.
  - The constructor is proved to build `Built` for every entry and to append
    exactly the root containers to the mount, in order.
  - A click on the expander of any node in the tree is `ToggleAt`: the node
    that a path of child indices leads to is toggled in place, the tree stays
    valid, and every other node is unchanged.

Each node's container element is identified by a number (`uid`). One tree
numbers its containers upwards, starting one above the largest container
number attached to the mount (`FreshUid`). A node takes its number before its
children, and every number a subtree uses lies below the next free one. The
model proves these distinctness facts:

- the children of one node have pairwise distinct containers (`ValidNode`);
- the roots have pairwise distinct containers (`Valid`);
- the constructor's roots are new elements: none of their containers was
  attached to the mount before the tree was built. This is a postcondition of
  the constructor, not part of `Valid`, so later operations do not carry it.

Distinctness of all the containers of one tree, across different branches,
follows from the numbering but is not stated as a contract. Containers of two
different trees are not known to be distinct: a second tree built on the same
mount may reuse a number held by a non-root container of the first.

## Model

| member | source | states |
|---|---|---|
| Js.TypeOf | src/TreeList.js:21-29 | `typeof` is "function" exactly for functions, "number" for numbers, "string" for strings, and "object" exactly for elements, plain objects and arrays |
| Js.CallbackOf | src/TreeList.js:27-29 | a `nodeClicked` (and a node's `clicked`) is kept exactly when `typeof` says it is a function, and is undefined otherwise |
| Js.FromCallback | src/TreeList.js:97-102 | the tree's callback handed to each new node passes the node's own `typeof` check unchanged |
| NodeModel.DefaultNumber | src/TreeListNode.js:21-29 | a number `id` or `depth` is kept; anything else becomes -1 |
| NodeModel.DefaultName | src/TreeListNode.js:24-26 | a string `name` is kept; anything else becomes "Invalid model item" |
| NodeModel.Created | src/TreeListNode.js:35-55 | a new node keeps the defaulted options, has no children, is not expanded, and is neither a leaf nor has an expander until `setExpander` runs |
| NodeModel.AfterSetExpander | src/TreeListNode.js:180-198 | `setExpander` classifies the node (leaf, or expander present) and changes neither the children nor the expanded flag |
| NodeModel.AfterExpand | src/TreeListNode.js:208-223 | `expand` changes nothing on a node without children; it keeps id, name, depth, callback, leaf flag and child count, and it leaves the children alone unless recursive |
| NodeModel.AfterCollapse | src/TreeListNode.js:233-248 | the same as `AfterExpand`, for `collapse` |
| NodeModel.AfterToggle | src/TreeListNode.js:155-164 | the toggle flips `isExpanded` exactly when the node has children, never touches the children, and changes nothing on a childless node |
| NodeModel.SetExpanderClassifies | src/TreeListNode.js:180-198 | after `setExpander` on a built node: it is a leaf exactly when it has no children, it has an expander exactly when it has children, and the subtree is well formed |
| NodeModel.ExpandKeepsWellFormed | src/TreeListNode.js:208-223 | `expand`, recursive or not, keeps a subtree well formed: leaf iff childless, and the glyph matches the expanded flag |
| NodeModel.CollapseKeepsWellFormed | src/TreeListNode.js:233-248 | `collapse`, recursive or not, keeps a subtree well formed |
| NodeModel.ExpandAllReachesEveryBranch | src/TreeListNode.js:256-259 | after `expandAll` every branch at every depth is expanded and no leaf is |
| NodeModel.CollapseAllReachesEveryBranch | src/TreeListNode.js:267-270 | after `collapseAll` no node at any depth is expanded |
| NodeModel.FullyExpandedCanCollapse | src/TreeListNode.js:233-248 | on a fully expanded subtree, `collapse(true)` finds every child container attached, so `removeChild` cannot throw |
| NodeModel.CollapseAllUndoesExpandAll | src/TreeListNode.js:256-270 | `collapseAll` after `expandAll` gives back a collapsed subtree exactly |
| NodeModel.ExpandAllUndoesCollapseAll | src/TreeListNode.js:256-270 | `expandAll` after `collapseAll` gives back a fully expanded subtree exactly |
| NodeModel.ExpandIsIdempotent | src/TreeListNode.js:208-223 | expanding twice is the same as expanding once, recursive or not |
| NodeModel.ExpandThenCollapseRestores | src/TreeListNode.js:155-164 | on a collapsed branch, `expand(false)` then `collapse(false)` cannot throw and restores the node |
| NodeModel.ToggleTwiceRestores | src/TreeListNode.js:155-164 | two clicks on the expander leave a well-formed node as it was |
| Dom.Appended | src/TreeListNode.js:218 | after `appendChild(v)`, `v` is the last attached view |
| Dom.FilteredHas | src/TreeListNode.js:243 | after `removeChild`, a view is attached exactly when it was attached and was not the one removed |
| Dom.Removed | src/TreeListNode.js:243 | `removeChild(v)` of an attached view leaves exactly the other views attached |
| Dom.AppendedUpToMoves | src/TreeListNode.js:212-219 | appending distinct views one by one keeps the other views in order and puts the appended ones at the end, in order, without duplicates |
| Dom.AppendedFresh | src/TreeList.js:123-125 | appending new, distinct containers to the mount extends it by exactly those containers |
| Dom.Reattached | src/TreeListNode.js:212-219 | appending the children's containers to a container that already holds them, or holds none of them, leaves the label (and expander) followed by the children in order |
| Dom.Detached | src/TreeListNode.js:237-244 | removing the children's containers leaves the container's own views only |
| Dom.FreshUid | src/TreeListNode.js:118 | a newly created element is none of the views already attached to the mount |
| Dom.Surface.AppendChild | src/TreeList.js:124 | `appendChild` on the mount moves the view to the end |
| TreeListNodes.ValidNodeIsWellFormed | src/TreeListNode.js:180-248 | a valid, classified node is well formed in `NodeModel`'s sense |
| TreeListNodes.BuildUI | src/TreeListNode.js:116-127 | `_buildUI` registers the label's click listener and attaches the label as the container's last view; nothing else changes |
| TreeListNodes.Create | src/TreeListNode.js:19-78 | a new node has defaulted options, is neither leaf nor expanded, has no children, has the label click listener, and its container holds only the label |
| TreeListNodes.PushChild | src/TreeList.js:106 | pushing a built child onto a node being built adds it last to the children and changes nothing else; the node stays valid |
| TreeListNodes.SetExpander | src/TreeListNode.js:180-198 | a childless node becomes a leaf; any other node gets an expander, with its listener, inserted before the label; the result is valid and classified |
| TreeListNodes.OnNodeClick | src/TreeListNode.js:136-147 | a click calls the callback once, with the node's current id, name, depth, leaf and expanded flags, exactly when there is a callback |
| TreeListNodes.Expanded | src/TreeListNode.js:208-223 | `expand` keeps the container, leaf flag and child count, and the node has an expander afterwards exactly when it had one or has children |
| TreeListNodes.Collapsed | src/TreeListNode.js:233-248 | the same as `Expanded`, for `collapse` |
| TreeListNodes.ValidIsExpandable | src/TreeListNode.js:208-223 | on a valid node that has an expander whenever it has children, `expand` (recursive or not) never reaches a missing icon |
| TreeListNodes.ValidIsCollapsible | src/TreeListNode.js:233-248 | on a valid node whose branches are expanded as far as `collapse` will recurse, every container it removes is attached and distinct |
| TreeListNodes.ExpandedIsValid | src/TreeListNode.js:208-223 | `expand` leaves a valid node whose descendants are classified and keep their containers |
| TreeListNodes.ExpandedChildrenValid | src/TreeListNode.js:212-216 | each child is valid and classified after the loop, and keeps its container |
| TreeListNodes.ExpandedAttached | src/TreeListNode.js:212-219 | after `expand` the container holds the expander, the label, then every child container in `_children` order, whether or not the node was already expanded |
| TreeListNodes.ExpandedAbs | src/TreeListNode.js:208-223 | the fields `expand` leaves are exactly those `NodeModel.AfterExpand` predicts |
| TreeListNodes.CollapsedIsValid | src/TreeListNode.js:233-248 | `collapse` leaves a valid node: its container holds only the expander and the label |
| TreeListNodes.CollapsedAbs | src/TreeListNode.js:233-248 | the fields `collapse` leaves are exactly those `NodeModel.AfterCollapse` predicts |
| TreeListNodes.Expand | src/TreeListNode.js:208-223 | the loop sets the collapse glyph, appends each child container in order (expanding the child first when recursive), sets `isExpanded`, and returns exactly `Expanded` |
| TreeListNodes.Collapse | src/TreeListNode.js:233-248 | the loop sets the expand glyph, removes each child container in order (collapsing the child first when recursive), clears `isExpanded`, and returns exactly `Collapsed` |
| TreeListNodes.Toggled | src/TreeListNode.js:155-164 | the toggle keeps the container and the children, flips `isExpanded` exactly when the node has children, and leaves a childless node as it is |
| TreeListNodes.ToggledIsValid | src/TreeListNode.js:155-164 | toggling keeps the node valid with its expander, and changes its fields as `NodeModel.AfterToggle` says |
| TreeListNodes.ExpandCollapseRestores | src/TreeListNode.js:208-248 | on a collapsed branch, `expand(false)` then `collapse(false)` gives back the node, container included: exactly the attached children are detached |
| TreeListNodes.CollapseExpandRestores | src/TreeListNode.js:208-248 | on an expanded branch, `collapse(false)` then `expand(false)` gives back the node, with the children's containers in their old order |
| TreeListNodes.ToggledTwice | src/TreeListNode.js:155-164 | two clicks on an expander give back the node, container included |
| TreeListNodes.OnNodeToggle | src/TreeListNode.js:155-164 | the toggle collapses an expanded node and expands a collapsed one, never recursively, giving exactly `Toggled`; the node stays valid |
| TreeListNodes.ExpandAll | src/TreeListNode.js:256-259 | `expandAll` is `expand(true)`; it runs on any valid node whose branches have an expander, including a fresh childless node it leaves as it is; it keeps the node valid (and classified if it was) and expands every branch |
| TreeListNodes.CollapseAll | src/TreeListNode.js:267-270 | `collapseAll` is `collapse(true)`; it can run only when every branch is expanded, a fresh childless node included; it keeps the node valid (and classified if it was) and leaves nothing expanded |
| TreeListNodes.Removals | src/TreeListNode.js:86-101 | `destroy`'s `removeEventListener` calls end with the node's own last listener: the expander's, or the label's on a leaf |
| TreeListNodes.RemovalsOf | src/TreeListNode.js:88-90 | destroying the first `i` nodes makes at least one call per node |
| TreeListNodes.RemovalsOfRegistered | src/TreeListNode.js:88-90 | destroying a list of nodes in order removes exactly the listeners registered in their subtrees |
| TreeListNodes.RemovalsRegistered | src/TreeListNode.js:86-101 | destroying a node removes exactly the listeners registered in its subtree: the label's, and the expander's unless the node is a leaf |
| TreeListNodes.Destroy | src/TreeListNode.js:86-101 | `destroy` destroys every child first, then removes the node's own listeners; every registered listener is removed and no other |
| TreeLists.MountFor | src/TreeList.js:21-23 | `renderTo` is kept exactly when it is an element; anything else falls back to the default mount |
| TreeLists.ModelFor | src/TreeList.js:24-26 | an array model is built entry by entry; a non-object, or an object without `length`, builds no roots |
| TreeLists.Built | src/TreeList.js:95-112 | `_buildNode` gives the entry's defaulted id and name, the given depth and the tree's callback, one child per entry child, a collapsed node, and a leaf exactly when the entry has no children; the node is classified |
| TreeLists.BuiltChildren | src/TreeList.js:104-108 | a node's children are built from the entry's children, in order, one level deeper |
| TreeLists.BuiltMirrors | src/TreeList.js:95-112 | a built node has the entry's id and name, the given depth, and the tree's callback; it is a leaf exactly when the entry has no children; its children mirror the entry's children in order at depth + 1; it is well formed and fully collapsed |
| TreeLists.ExpandKeepsMirrors | src/TreeList.js:141-145 | expanding changes no id, name, depth, callback, leaf flag or child order anywhere in the subtree |
| TreeLists.CollapseKeepsMirrors | src/TreeList.js:153-157 | collapsing changes no id, name, depth, callback, leaf flag or child order anywhere in the subtree |
| TreeLists.BuiltRoundTrip | src/TreeList.js:141-157 | on a fresh tree, `collapseAll` after `expandAll` cannot throw and gives back the tree as built |
| TreeLists.ExpandedRootOk | src/TreeList.js:143 | `expand(true)` keeps a root valid and the root of the same entry |
| TreeLists.CollapsedRootOk | src/TreeList.js:155 | `collapse(true)` keeps a root valid and the root of the same entry |
| TreeLists.ExpandedRootsOk | src/TreeList.js:141-145 | after `expand(true)` on every root, the roots still satisfy the component invariant, every branch is expanded, and `collapseAll` can run |
| TreeLists.CollapsedRootsOk | src/TreeList.js:153-157 | after `collapse(true)` on every root, the roots still satisfy the component invariant and no node is expanded |
| TreeLists.RootsExpandable | src/TreeList.js:141-145 | `expand(true)` cannot throw on any root of a valid tree |
| TreeLists.RootsCollapsible | src/TreeList.js:153-157 | `collapse(true)` cannot throw on a root whose branches are all expanded |
| TreeLists.ExpandEach | src/TreeList.js:142-144 | the loop of `expandAll` gives each root exactly `expand(true)`'s result, in order |
| TreeLists.CollapseEach | src/TreeList.js:154-156 | the loop of `collapseAll` gives each root exactly `collapse(true)`'s result, in order |
| TreeLists.DestroyEach | src/TreeList.js:52-54 | the loop of `destroy` makes the listener removals of the roots' subtrees, root by root, and so removes exactly the listeners registered anywhere under the roots |
| TreeLists.ToggledAt | src/TreeListNode.js:155-164 | after a click, the node the path leads to is exactly `Toggled` of the old one, its ancestors keep every other field, and every sibling along the way is unchanged |
| TreeLists.NodeAtValid | src/TreeListNode.js:193 | every node of a valid subtree is valid, so a click reaches a valid node |
| TreeLists.ToggledAtValid | src/TreeListNode.js:155-164 | a click anywhere in a valid, classified subtree keeps the whole subtree valid and classified |
| TreeLists.ToggledAtMirrors | src/TreeListNode.js:155-164 | a click changes no id, name, depth, callback, leaf flag or child order anywhere in the subtree |
| TreeLists.ToggledAtTwice | src/TreeListNode.js:155-164 | two clicks on the same expander give back the whole subtree, every container included |
| TreeLists.ToggledRootsOk | src/TreeListNode.js:155-164 | a click below one root keeps the roots those of the same entries, on the same containers |
| TreeLists.ToggleIn | src/TreeListNode.js:155-164 | the click runs `_onNodeToggle` on the node the path leads to, where it sits in its parent's children, giving exactly `ToggledAt` |
| TreeLists.TreeList.constructor | src/TreeList.js:19-42 | the options are defaulted, and one root per entry is built at depth 0 in model order, equal to `Built`; the mount gains exactly the root containers, in order, none of which was attached before; the component is valid |
| TreeLists.TreeList.BuildModel | src/TreeList.js:76-80 | the roots are the built entries, in order, on new containers; the component is valid |
| TreeLists.TreeList.BuildNode | src/TreeList.js:95-112 | `_buildNode` returns a valid, classified node equal to `Built(entry, depth)`, with a new container |
| TreeLists.TreeList.BuildUI | src/TreeList.js:120-126 | the mount's views become its old views followed by the root containers in root order |
| TreeLists.TreeList.ExpandAll | src/TreeList.js:141-145 | every root is replaced by its `expand(true)`; every branch is expanded and no leaf is; the component stays valid; the mount is untouched |
| TreeLists.TreeList.CollapseAll | src/TreeList.js:153-157 | every root is replaced by its `collapse(true)`; no node is expanded; ids, names and leaf flags are kept (validity); the mount is untouched |
| TreeLists.TreeList.ToggleAt | src/TreeListNode.js:193 | a click on the expander of a node of the tree toggles that node in place: its fields change as `AfterToggle` says, every other node and the mount are unchanged, and the tree stays valid |
| TreeLists.TreeList.Destroy | src/TreeList.js:50-59 | every root's subtree is destroyed in order, removing exactly the registered listeners; the component ends destroyed with no roots |

Proof helpers carry no row. They are `TreeListNodes.ExpandStep` and
`TreeListNodes.CollapseStep` (one turn of the loops of `expand` and
`collapse`), `TreeLists.TreeList.BuildChild` (one turn of the loop of
`_buildNode`), and the lemmas `TreeLists.BuildingStep`, `TreeLists.PushedStep`,
`TreeLists.PushedAll` and `TreeLists.RootsBuiltStep`, which carry the build
invariants from one turn to the next.

## Left out

- Nodes are values, not objects. `expand`, `collapse` and `destroy` return the
  new node rather than updating it in place, and a container is known by its
  `uid`. Aliasing is not modelled: a caller keeping a node obtained through the
  `children` getter would not see later changes. The `children` and
  `container` getters are the `children` and `uid` fields. A click on a
  node's expander, which the source delivers to the bound node object, is
  `TreeList.ToggleAt` with the path from a root to that node.
- The tree list itself is a class, but the loops of `expandAll`, `collapseAll`
  and `destroy` run in the value-level methods `ExpandEach`, `CollapseEach`
  and `DestroyEach`. The roots
  are stored back afterwards, so no operation observes the roots half-updated.
- TreeListNodes.Expand: a node with children but no expander (one built
  without `setExpander`) makes the source throw when it updates the icon. The
  model requires an expander (`Expandable`) instead of modelling the exception.
- TreeListNodes.Collapse: `removeChild` throws on a child container that is not
  attached, so collapsing a collapsed branch (or, recursively, any tree with a
  collapsed branch) throws. The model requires the containers to be attached
  (`Collapsible`, `CanCollapse`). It does not model the exception, nor the
  children removed before it.
- TreeListNodes.ExpandAll: like `Expand`, it requires an expander on a node
  with children; a childless node, classified or not, is accepted.
- TreeListNodes.CollapseAll: like `Collapse`, it requires every branch to be
  expanded (`CanCollapse`); a childless node is accepted.
- TreeLists.TreeList.CollapseAll: for the same reason, it requires every
  branch to be expanded. Called on a fresh tree with a branch, or twice in a
  row, the source throws part way.
- TreeListNodes.Destroy: on a node that `setExpander` never classified (not
  a leaf, no expander), the source dereferences the missing expander and
  throws. The model requires a classified node instead of modelling the
  exception. Every node of a built tree is classified.
- TreeListNodes.PushChild: pushing onto a node's `children` after
  `setExpander` is excluded. The component never does it.
- `destroy` is a terminal `destroyed` flag on the tree list. It stands for the
  `delete` of every field. The node-level `Destroy` returns the listener
  removals it makes and leaves no destroyed node behind. Neither detaches any
  container from the DOM, and the source does not either.
- Event listeners are a set of registered listener kinds per node, plus the
  ordered `removeEventListener` calls of `destroy`. `bind` is left out.
- DOM details are left out: CSS classes, `dataset.id`, `innerHTML`,
  `createElementNS`, the SVG path strings and the `fill` attribute. The icon
  is a two-valued glyph.
- `document.body` is the constructor parameter `body`.
- The mutation of the caller's `options` object by the defaulting is not
  modelled; only the values the component keeps are.
- `null` is not a value of `JsVal`. The source lets a `null` `renderTo` or
  `model` through its `typeof` checks and then fails.
- Numbers are integers. Floating-point ids and depths, `NaN` included, are
  not modelled.
- Model entries are well typed: `children` is a sequence of entries (a
  missing `children` is the empty sequence), and a model array holds only
  entries.
