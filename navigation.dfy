/** The navigation engine of `TreeContextProvider` (Tree.tsx:217-300) as a
    function from a state and a key to the next state. The rendered items the
    handler reads from the DOM are `Visible(root, open)`; the active element
    is the focused item. */
module Navigation {
  import opened Options
  import opened Seqs
  import opened TreeData
  import opened OpenList
  import opened Parents

  /** The keys the container forwards to `handleKeyDown` (Tree.tsx:673-684);
      `Other` stands for every key it ignores. */
  datatype Key = Tab(shift: bool) | ArrowDown | ArrowUp | Space | Enter
               | ArrowRight | ArrowLeft | Asterisk | Other

  /** The provider's state: `openTreeItemIds` and `focusedTreeNode`, the
      empty object `{}` being None. */
  datatype Nav = Nav(open: seq<int>, focused: Option<Node>)

  /** `focusedTreeNode.id`, undefined when nothing is focused. */
  function FocusedId(nav: Nav): Option<int> {
    if nav.focused.Some? then Some(nav.focused.value.id) else None
  }

  /** `focusableTreeNodesIds.indexOf(focusedTreeNode.id)`: -1 when nothing is
      focused or the focused id is not rendered. */
  function Position(vis: seq<int>, fid: Option<int>): int {
    if fid.Some? then IndexOf(vis, fid.value) else -1
  }

  /** `confirmFocus(node, canToggle)` (Tree.tsx:120-129): the node becomes the
      focused one and, when toggling is asked for and the node has a
      `children` field, its id is toggled with the current membership. */
  function ConfirmFocus(nav: Nav, node: Option<Node>, canToggle: bool): Nav {
    var open :=
      if canToggle && node.Some? && HasChildrenField(node.value)
      then Toggled(nav.open, node.value.id, node.value.id in nav.open)
      else nav.open;
    Nav(open, node)
  }

  /** How far Tab, Shift+Tab, ArrowDown and ArrowUp move the focused index. */
  function Delta(key: Key): int {
    match key
    case Tab(shift) => if shift then -1 else 1
    case ArrowUp => -1
    case _ => 1
  }

  /** Tab / Shift+Tab / ArrowDown / ArrowUp (Tree.tsx:220-243). The target is
      the item next to the focused one (undefined past either end). A missing
      target, or the id 0, which is falsy, stops the arrows; Tab goes on and
      focuses what the lookup returns, nothing past the ends. */
  function Vertical(root: Node, nav: Nav, key: Key): Nav {
    var vis := Visible(root, nav.open);
    var j := Position(vis, FocusedId(nav)) + Delta(key);
    var target: Option<int> := if 0 <= j < |vis| then Some(vis[j]) else None;
    if (target.None? || target.value == 0) && !key.Tab? then nav
    else ConfirmFocus(nav, if target.Some? then Find(root, target.value) else None, false)
  }

  /** `Vertical` spelled out for a given item list and target index. */
  lemma VerticalAt(root: Node, nav: Nav, key: Key, vis: seq<int>, j: int)
    requires vis == Visible(root, nav.open) && j == Position(vis, FocusedId(nav)) + Delta(key)
    ensures Vertical(root, nav, key)
            == if (!(0 <= j < |vis|) || vis[j] == 0) && !key.Tab? then nav
               else ConfirmFocus(nav, if 0 <= j < |vis| then Find(root, vis[j]) else None, false)
  {
  }

  /** Space / Enter (Tree.tsx:244-250): the focused node is looked up again
      and confirmed with toggling. */
  function Activate(root: Node, nav: Nav): Nav {
    var fid := FocusedId(nav);
    ConfirmFocus(nav, if fid.Some? then Find(root, fid.value) else None, true)
  }

  /** ArrowRight (Tree.tsx:255-273). Only a node with a `children` field
      reacts: closed, it is toggled open; open, the focus moves to what the
      lookup inside the focused node finds for the next rendered item. */
  function Right(root: Node, nav: Nav): Nav {
    if nav.focused.None? || !HasChildrenField(nav.focused.value) then nav
    else
      var f := nav.focused.value;
      if f.id !in nav.open then ConfirmFocus(nav, nav.focused, true)
      else
        var vis := Visible(root, nav.open);
        var j := IndexOf(vis, f.id) + 1;
        ConfirmFocus(nav, if j < |vis| then Find(f, vis[j]) else None, false)
  }

  /** ArrowLeft (Tree.tsx:274-281). An open focused id is toggled through
      `confirmFocus`; otherwise the parent found by the backward scan is
      focused, provided it has children. */
  function Left(root: Node, nav: Nav): Nav {
    var fid := FocusedId(nav);
    if fid.Some? && fid.value in nav.open then ConfirmFocus(nav, nav.focused, true)
    else
      var parent := ParentScan(root, nav.open, fid, true);
      if parent.Some? && HasKids(parent.value) then ConfirmFocus(nav, parent, false) else nav
  }

  /** The ids `*` opens: those of the children that have a `children` field,
      in order, leaving out the focused id. */
  function ExpandableIds(cs: seq<Node>, fid: Option<int>): seq<int> {
    if cs == [] then []
    else
      (if HasChildrenField(cs[0]) && Some(cs[0].id) != fid then [cs[0].id] else [])
      + ExpandableIds(cs[1..], fid)
  }

  /** `*` (Tree.tsx:284-295): the ids of the parent's expandable children are
      appended to the open list, without removing duplicates; nothing happens
      when there are none. */
  function Star(root: Node, nav: Nav): Nav {
    var fid := FocusedId(nav);
    var parent := ParentScan(root, nav.open, fid, false);
    var ids := if parent.Some? then ExpandableIds(Kids(parent.value), fid) else [];
    if |ids| > 0 then nav.(open := nav.open + ids) else nav
  }

  /** `handleKeyDown` (Tree.tsx:217-300). */
  function Step(root: Node, nav: Nav, key: Key): Nav {
    match key
    case Tab(_) => Vertical(root, nav, key)
    case ArrowDown => Vertical(root, nav, key)
    case ArrowUp => Vertical(root, nav, key)
    case Space => Activate(root, nav)
    case Enter => Activate(root, nav)
    case ArrowRight => Right(root, nav)
    case ArrowLeft => Left(root, nav)
    case Asterisk => Star(root, nav)
    case Other => nav
  }

  /** A click on an item's label (Tree.tsx:449-451). */
  function Click(nav: Nav, node: Node): Nav {
    ConfirmFocus(nav, Some(node), true)
  }

  /** `handleFocus` when the tree is entered at its first item
      (Tree.tsx:658-665): the node with id 1 is focused. */
  function FocusEnter(root: Node, nav: Nav): Nav {
    nav.(focused := Find(root, 1))
  }

  /** The tabindex of the item at position `k`: 0 for the focused item
      (Tree.tsx:433), and for the first item while nothing is focused
      (Tree.tsx:621-632, 669-671); -1 otherwise. */
  function TabIndex(vis: seq<int>, fid: Option<int>, k: int): int
    requires 0 <= k < |vis|
  {
    if (fid.Some? && vis[k] == fid.value) || (fid.None? && k == 0) then 0 else -1
  }

  /** The focused node is the one the lookup returns for its id. */
  predicate Consistent(root: Node, nav: Nav) {
    nav.focused.Some? ==> Find(root, nav.focused.value.id) == nav.focused
  }

  /** The focused node is one of the rendered items. */
  predicate Shown(root: Node, nav: Nav) {
    nav.focused.Some? ==> nav.focused.value.id in Visible(root, nav.open)
  }
}
