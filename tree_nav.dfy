/** `TreeContextProvider` (Tree.tsx:70-325) as an object: the tree it was
    given, the open list and the focused node are its fields, and its
    callbacks are methods that replace them step by step. Each method is
    proved against the state machine of module Navigation. */
module TreeNavigator {
  import opened Options
  import opened Seqs
  import opened TreeData
  import opened OpenList
  import opened Parents
  import opened Navigation
  import opened NavigationProps

  /** `getTreeNodeWithId(node, id)` (Tree.tsx:94-112): the node itself, else
      the children's subtrees in order until one returns a node. */
  method GetTreeNodeWithId(node: Node, id: int) returns (result: Option<Node>)
    ensures result == Find(node, id)
    decreases node
  {
    result := None;
    FindUnfold(node, id);
    if node.id == id {
      return Some(node);
    } else if HasKids(node) {
      var cs := node.children.nodes;
      var i := 0;
      while result.None? && i < |cs|
        invariant 0 <= i <= |cs|
        invariant result == FindIn(cs[..i], id)
      {
        FindInPrefixStep(cs, i, id);
        result := GetTreeNodeWithId(cs[i], id);
        i := i + 1;
      }
      FindInPrefixDone(cs, i, id);
      return result;
    }
  }

  class TreeNav {
    /** `data`, the tree handed to the container. */
    const root: Node
    /** `openTreeItemIds` */
    var open: seq<int>
    /** `focusedTreeNode`, None standing for the empty object. */
    var focused: Option<Node>

    function State(): Nav
      reads this
    {
      Nav(open, focused)
    }

    /** The tree's ids are unique and the focused node is the one the lookup
        returns for its id. */
    ghost predicate Valid()
      reads this
    {
      UniqueIds(root) && Consistent(root, State())
    }

    /** The initial state: nothing open, nothing focused. */
    constructor (root: Node)
      requires UniqueIds(root)
      ensures this.root == root && State() == Nav([], None)
      ensures Valid() && Shown(root, State())
    {
      this.root := root;
      open := [];
      focused := None;
    }

    /** `handleSetOpenTreeItemIds(id, open)` (Tree.tsx:137-151): on a copy
        of the list, either `splice(indexOf(id), 1)` or `push(id)`. */
    method HandleSetOpenTreeItemIds(id: int, isOpen: bool)
      modifies this
      ensures open == Toggled(old(open), id, isOpen) && focused == old(focused)
    {
      var copy := open;
      if isOpen {
        copy := SpliceOne(copy, IndexOf(copy, id));
      } else {
        copy := copy + [id];
      }
      open := copy;
    }

    /** `confirmFocus(node, canToggle)` (Tree.tsx:120-129). */
    method ConfirmFocus(node: Option<Node>, canToggle: bool)
      modifies this
      ensures State() == Navigation.ConfirmFocus(old(State()), node, canToggle)
    {
      focused := node;
      if canToggle && node.Some? && HasChildrenField(node.value) {
        HandleSetOpenTreeItemIds(node.value.id, node.value.id in open);
      }
    }

    /** `getParentOfTreeNodeWithId(id, leftArrow)` (Tree.tsx:179-210): the
        root for a top-level item (unless for ArrowLeft), else the node of
        the nearest preceding item whose child list holds the focused item. */
    method GetParentOfTreeNodeWithId(id: Option<int>, leftArrow: bool) returns (parentNode: Option<Node>)
      ensures parentNode == ParentScan(root, open, id, leftArrow)
    {
      var vis := Visible(root, open);
      var k := if id.Some? then IndexOf(vis, id.value) else -1;
      parentNode := None;
      if !leftArrow && 0 <= k && vis[k] in ChildIds(root) {
        parentNode := Some(root);
        return;
      }
      if k < 0 {
        return;
      }
      assert ParentScan(root, open, id, leftArrow) == Scan(root, open, vis[..k], id.value);
      parentNode := ScanBackwards(vis, k, id.value);
    }

    /** The `for` loop of `getParentOfTreeNodeWithId` (Tree.tsx:197-206): from
        the item before position `k` back to the first, the first item whose
        child list holds `x` is looked up from the root, and the loop breaks. */
    method ScanBackwards(vis: seq<int>, k: int, x: int) returns (parentNode: Option<Node>)
      requires 0 <= k <= |vis|
      ensures parentNode == Scan(root, open, vis[..k], x)
    {
      parentNode := None;
      var i := k - 1;
      while i > -1
        invariant -1 <= i < k
        invariant parentNode == None
        invariant Scan(root, open, vis[..k], x) == Scan(root, open, vis[..i + 1], x)
      {
        ScanStep(root, open, vis, i, x);
        if Container(root, open, vis[i], x) {
          parentNode := GetTreeNodeWithId(root, vis[i]);
          break;
        }
        i := i - 1;
      }
      if parentNode.None? {
        assert vis[..i + 1] == [];
      }
    }

    /** `handleKeyDown` (Tree.tsx:217-300): dispatch on the key. */
    method HandleKeyDown(key: Key)
      requires Valid()
      modifies this
      ensures State() == Step(root, old(State()), key)
      ensures Valid()
      ensures old(Shown(root, State())) ==> Shown(root, State())
    {
      ghost var before := State();
      StepKeepsConsistent(root, before, key);
      if Shown(root, before) {
        StepKeepsShown(root, before, key);
      }
      if key.Tab? || key == ArrowDown || key == ArrowUp {
        MoveVertically(key);
      } else if key == Space || key == Enter {
        Activate();
      } else if key == ArrowRight {
        MoveRight();
      } else if key == ArrowLeft {
        MoveLeft();
      } else if key == Asterisk {
        ExpandSiblings();
      }
    }

    /** Tab / Shift+Tab / ArrowDown / ArrowUp (Tree.tsx:220-243), with the
        mutable `focusedIndex`. */
    method MoveVertically(key: Key)
      modifies this
      ensures State() == Vertical(root, old(State()), key)
    {
      ghost var before := State();
      var vis := Visible(root, open);
      var focusedIndex := if focused.Some? then IndexOf(vis, focused.value.id) else -1;
      if key == ArrowUp || (key.Tab? && key.shift) {
        focusedIndex := focusedIndex - 1;
      } else {
        focusedIndex := focusedIndex + 1;
      }
      assert focusedIndex == Position(vis, FocusedId(before)) + Delta(key);
      VerticalAt(root, before, key, vis, focusedIndex);
      if !(0 <= focusedIndex < |vis|) || vis[focusedIndex] == 0 {
        if !key.Tab? {
          return;
        }
      }
      var next: Option<Node> := None;
      if 0 <= focusedIndex < |vis| {
        next := GetTreeNodeWithId(root, vis[focusedIndex]);
      }
      ConfirmFocus(next, false);
    }

    /** Space / Enter (Tree.tsx:244-250). */
    method Activate()
      modifies this
      ensures State() == Navigation.Activate(root, old(State()))
    {
      var navigated: Option<Node> := None;
      if focused.Some? {
        navigated := GetTreeNodeWithId(root, focused.value.id);
      }
      ConfirmFocus(navigated, true);
    }

    /** ArrowRight (Tree.tsx:255-273). */
    method MoveRight()
      modifies this
      ensures State() == Right(root, old(State()))
    {
      var isOpen := focused.Some? && focused.value.id in open;
      if focused.Some? && HasChildrenField(focused.value) {
        if !isOpen {
          ConfirmFocus(focused, true);
        } else {
          var f := focused.value;
          var vis := Visible(root, open);
          var focusedIndex := IndexOf(vis, f.id);
          var next: Option<Node> := None;
          if focusedIndex + 1 < |vis| {
            next := GetTreeNodeWithId(f, vis[focusedIndex + 1]);
          }
          ConfirmFocus(next, false);
        }
      }
    }

    /** ArrowLeft (Tree.tsx:274-281). */
    method MoveLeft()
      modifies this
      ensures State() == Left(root, old(State()))
    {
      var id := FocusedId(State());
      var isOpen := id.Some? && id.value in open;
      if isOpen {
        ConfirmFocus(focused, true);
        return;
      }
      var parentNode := GetParentOfTreeNodeWithId(id, true);
      if parentNode.Some? && HasKids(parentNode.value) {
        ConfirmFocus(parentNode, false);
      }
    }

    /** `*` (Tree.tsx:284-295). */
    method ExpandSiblings()
      modifies this
      ensures State() == Star(root, old(State()))
    {
      var id := FocusedId(State());
      var parentNode := GetParentOfTreeNodeWithId(id, false);
      var childParentNodesIds := if parentNode.Some? then ExpandableIds(Kids(parentNode.value), id) else [];
      if |childParentNodesIds| > 0 {
        open := open + childParentNodesIds;
      }
    }

    /** A click on the label of a rendered item (Tree.tsx:449-451). */
    method Click(node: Node)
      requires Valid()
      requires node in PreOrderList(Kids(root)) && node.id in Visible(root, open)
      modifies this
      ensures State() == Navigation.Click(old(State()), node)
      ensures Valid() && Shown(root, State())
    {
      ClickKeepsInvariant(root, State(), node);
      ConfirmFocus(Some(node), true);
    }

    /** `handleFocus` (Tree.tsx:658-665): entering the tree at its first item
        focuses the node with id 1; focus arriving elsewhere changes no
        state (only a DOM attribute). */
    method HandleFocus(targetIsFirstItem: bool)
      requires Valid()
      modifies this
      ensures State() == if targetIsFirstItem then FocusEnter(root, old(State())) else old(State())
      ensures Valid()
      ensures (if targetIsFirstItem then FirstItemIsOne(root, old(open)) else old(Shown(root, State())))
              ==> Shown(root, State())
    {
      if targetIsFirstItem {
        if FirstItemIsOne(root, open) {
          FocusEnterShown(root, State());
        }
        focused := GetTreeNodeWithId(root, 1);
      }
    }
  }
}
