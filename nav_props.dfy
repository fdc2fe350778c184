/** What each key does to the navigation state, proved against the reference
    definitions (visible order, tree parent, open-list membership). */
module NavigationProps {
  import opened Options
  import opened Seqs
  import opened TreeData
  import opened OpenList
  import opened Parents
  import opened Navigation

  /** Every rendered id belongs to a node below the root, which the lookup
      from the root finds. */
  lemma VisibleIsFound(root: Node, open: seq<int>, y: int)
    requires y in Visible(root, open)
    ensures Find(root, y).Some? && Find(root, y).value.id == y
  {
    VisibleAmongIds(Kids(root), open, y);
    assert AllIds([root]) == [root.id] + AllIds(Kids(root)) + AllIds([]);
  }

  /** The rendered items of a unique-id tree are pairwise different. */
  lemma VisibleOfRootDistinct(root: Node, open: seq<int>)
    requires UniqueIds(root)
    ensures Distinct(Visible(root, open))
  {
    BelowRoot(root);
    VisibleDistinct(Kids(root), open);
  }

  /** A focused node that the lookup returns lies below the root. */
  lemma FocusedBelowRoot(root: Node, f: Node, open: seq<int>)
    requires UniqueIds(root)
    requires Find(root, f.id) == Some(f)
    requires f.id in Visible(root, open)
    ensures f in PreOrderList(Kids(root))
  {
    BelowRoot(root);
    VisibleAmongIds(Kids(root), open, f.id);
    assert PreOrderList([root]) == [root] + PreOrderList(Kids(root)) + PreOrderList([]);
  }

  /** `confirmFocus(node)` with toggling, as Space, Enter and a click use it:
      the node is focused, its open membership flips exactly when it has a
      `children` field (while it is listed at most once), and no other id
      changes membership. */
  lemma ConfirmToggle(nav: Nav, node: Node)
    ensures var r := ConfirmFocus(nav, Some(node), true);
            && r.focused == Some(node)
            && (HasChildrenField(node) && Count(nav.open, node.id) <= 1
                ==> (node.id in r.open <==> node.id !in nav.open))
            && (!HasChildrenField(node) ==> r.open == nav.open)
            && (forall y :: y != node.id ==> (y in r.open <==> y in nav.open))
  {
    var r := ConfirmFocus(nav, Some(node), true);
    ToggleFlips(nav.open, node.id);
    forall y | y != node.id
      ensures y in r.open <==> y in nav.open
    {
      ToggleKeepsOthers(nav.open, node.id, y);
    }
  }

  /** Space and Enter re-confirm the focused node: the focus stays, its open
      membership flips exactly when it has a `children` field (while it is
      listed at most once), and no other id changes membership. With nothing
      focused nothing changes. */
  lemma ActivateToggles(root: Node, nav: Nav, key: Key)
    requires key == Space || key == Enter
    requires Consistent(root, nav)
    ensures var r := Step(root, nav, key);
            && (nav.focused.None? ==> r == nav)
            && (nav.focused.Some? ==>
                  var x := nav.focused.value.id;
                  && r.focused == nav.focused
                  && (HasChildrenField(nav.focused.value) && Count(nav.open, x) <= 1
                      ==> (x in r.open <==> x !in nav.open))
                  && (!HasChildrenField(nav.focused.value) ==> r.open == nav.open)
                  && (forall y :: y != x ==> (y in r.open <==> y in nav.open)))
  {
    if nav.focused.Some? {
      ConfirmToggle(nav, nav.focused.value);
    }
  }

  /** Tab, Shift+Tab, ArrowDown and ArrowUp move the focus exactly one
      rendered position and never touch the open list. The arrows stop at
      either end, and at an item with id 0; Tab past either end clears the
      focus. */
  lemma VerticalMoves(root: Node, nav: Nav, key: Key)
    requires key.Tab? || key == ArrowDown || key == ArrowUp
    requires UniqueIds(root)
    ensures var r := Step(root, nav, key);
            var vis := Visible(root, nav.open);
            var j := Position(vis, FocusedId(nav)) + Delta(key);
            && r.open == nav.open
            && (0 <= j < |vis| && (vis[j] != 0 || key.Tab?)
                ==> r.focused.Some? && r.focused.value.id == vis[j] && Position(vis, FocusedId(r)) == j)
            && (!(0 <= j < |vis|) && key.Tab? ==> r.focused == None)
            && ((!(0 <= j < |vis|) || vis[j] == 0) && !key.Tab? ==> r == nav)
  {
    var vis := Visible(root, nav.open);
    var j := Position(vis, FocusedId(nav)) + Delta(key);
    assert Step(root, nav, key) == Vertical(root, nav, key);
    VerticalAt(root, nav, key, vis, j);
    if 0 <= j < |vis| {
      VisibleIsFound(root, nav.open, vis[j]);
      VisibleOfRootDistinct(root, nav.open);
      IndexOfDistinct(vis, j);
      if vis[j] != 0 || key.Tab? {
        var f := Find(root, vis[j]);
        assert Step(root, nav, key) == Nav(nav.open, f);
        assert f.Some? && f.value.id == vis[j];
      }
    }
  }

  /** With nothing focused, ArrowDown focuses the first rendered item (unless
      its id is 0). */
  lemma ArrowDownFromNothing(root: Node, nav: Nav)
    requires UniqueIds(root)
    requires nav.focused.None?
    requires |Visible(root, nav.open)| > 0 && Visible(root, nav.open)[0] != 0
    ensures Step(root, nav, ArrowDown) == Nav(nav.open, Find(root, Visible(root, nav.open)[0]))
    ensures Step(root, nav, ArrowDown).focused.value.id == Visible(root, nav.open)[0]
  {
    VerticalMoves(root, nav, ArrowDown);
  }

  /** ArrowRight on a closed node with a `children` field opens it and keeps
      the focus. */
  lemma RightOpensClosed(root: Node, nav: Nav)
    requires nav.focused.Some? && HasChildrenField(nav.focused.value)
    requires nav.focused.value.id !in nav.open
    ensures Step(root, nav, ArrowRight) == Nav(nav.open + [nav.focused.value.id], nav.focused)
  {
  }

  /** The item rendered right after an expanded, rendered node is its first
      child. */
  lemma ExpandedNextIsFirstChild(root: Node, open: seq<int>, f: Node)
    requires UniqueIds(root) && Find(root, f.id) == Some(f)
    requires f.id in Visible(root, open) && Expanded(f, open)
    ensures var vis := Visible(root, open);
            var k := IndexOf(vis, f.id);
            k + 1 < |vis| && vis[k + 1] == Kids(f)[0].id
  {
    BelowRoot(root);
    FocusedBelowRoot(root, f, open);
    VisibleNext(Kids(root), open, f, IndexOf(Visible(root, open), f.id));
  }

  /** Looking up a node's first child below that node returns the child. */
  lemma FirstChildFound(root: Node, f: Node)
    requires UniqueIds(root) && Find(root, f.id) == Some(f) && HasKids(f)
    ensures Find(f, Kids(f)[0].id) == Some(Kids(f)[0])
  {
    var c := Kids(f)[0];
    SubtreeDistinct([root], f);
    TopInPreOrder(f.children.nodes, 0);
    assert PreOrderList([f]) == [f] + PreOrderList(f.children.nodes) + PreOrderList([]);
    FindReturnsTheNode([f], c);
  }

  /** ArrowRight on an open node with children moves the focus to its first
      child and leaves the open list alone. */
  lemma RightEntersFirstChild(root: Node, nav: Nav)
    requires UniqueIds(root) && Consistent(root, nav) && Shown(root, nav)
    requires nav.focused.Some? && Expanded(nav.focused.value, nav.open)
    ensures Step(root, nav, ArrowRight) == Nav(nav.open, Some(Kids(nav.focused.value)[0]))
  {
    var f := nav.focused.value;
    var vis := Visible(root, nav.open);
    var k := IndexOf(vis, f.id);
    ExpandedNextIsFirstChild(root, nav.open, f);
    FirstChildFound(root, f);
    assert Right(root, nav) == ConfirmFocus(nav, Find(f, vis[k + 1]), false);
    StepIsKeyHandler(root, nav, ArrowRight);
  }

  /** ArrowRight on an open node whose `children` array is empty loses the
      focus: the next rendered item is not inside that node, so the lookup
      below it finds nothing. */
  lemma RightOnEmptyOpenLosesFocus(root: Node, nav: Nav)
    requires UniqueIds(root) && Consistent(root, nav) && Shown(root, nav)
    requires nav.focused.Some? && HasChildrenField(nav.focused.value)
    requires Kids(nav.focused.value) == [] && nav.focused.value.id in nav.open
    ensures Step(root, nav, ArrowRight) == Nav(nav.open, None)
  {
    var f := nav.focused.value;
    var vis := Visible(root, nav.open);
    var j := IndexOf(vis, f.id) + 1;
    if j < |vis| {
      VisibleOfRootDistinct(root, nav.open);
      IndexOfDistinct(vis, j);
      assert vis[j] != f.id;
    }
  }

  /** ArrowRight does nothing on a node without a `children` field, or with
      nothing focused. */
  lemma RightOnLeafStays(root: Node, nav: Nav)
    requires nav.focused.None? || !HasChildrenField(nav.focused.value)
    ensures Step(root, nav, ArrowRight) == nav
  {
  }

  /** ArrowLeft on an open focused id goes through `confirmFocus`: the focus
      stays and, for a node with a `children` field, one occurrence of its id
      is removed from the open list. */
  lemma LeftClosesOpen(root: Node, nav: Nav)
    requires nav.focused.Some? && nav.focused.value.id in nav.open
    ensures var r := Step(root, nav, ArrowLeft);
            && r.focused == nav.focused
            && r.open == (if HasChildrenField(nav.focused.value)
                          then Toggled(nav.open, nav.focused.value.id, true) else nav.open)
    ensures var r := Step(root, nav, ArrowLeft);
            HasChildrenField(nav.focused.value) ==>
              Count(r.open, nav.focused.value.id) == Count(nav.open, nav.focused.value.id) - 1
  {
    CloseRemovesOne(nav.open, nav.focused.value.id);
  }

  /** Which handler each key runs. */
  lemma StepIsKeyHandler(root: Node, nav: Nav, key: Key)
    ensures key == ArrowLeft ==> Step(root, nav, key) == Left(root, nav)
    ensures key == ArrowRight ==> Step(root, nav, key) == Right(root, nav)
    ensures key == Asterisk ==> Step(root, nav, key) == Star(root, nav)
  {
  }

  /** For ArrowLeft the scan returns the parent among the root's descendants,
      which is missing exactly for a top-level item. */
  lemma LeftScanFindsParent(root: Node, open: seq<int>, x: int)
    requires UniqueIds(root) && x in Visible(root, open)
    ensures ParentScan(root, open, Some(x), true) == ParentIn(Kids(root), x)
    ensures ParentIn(Kids(root), x).None? <==> x in ChildIds(root)
  {
    ParentScanIsTreeParent(root, open, x, true);
    BelowRoot(root);
    VisibleAmongIds(Kids(root), open, x);
    if x in ChildIds(root) {
      TopHasNoParent(Kids(root), x);
    } else {
      ParentInIds(Kids(root), x);
    }
  }

  /** ArrowLeft on a rendered node that is not open moves the focus to its
      tree parent, and does nothing on a top-level node (whose parent is the
      root, never an item). */
  lemma LeftMovesToParent(root: Node, nav: Nav)
    requires UniqueIds(root) && Consistent(root, nav) && Shown(root, nav)
    requires nav.focused.Some? && nav.focused.value.id !in nav.open
    ensures var x := nav.focused.value.id;
            var p := ParentIn(Kids(root), x);
            && Step(root, nav, ArrowLeft) == (if p.Some? then Nav(nav.open, p) else nav)
            && (p.Some? ==> x in ChildIds(p.value))
            && (p.None? <==> x in ChildIds(root))
  {
    var x := nav.focused.value.id;
    var p := ParentIn(Kids(root), x);
    LeftScanFindsParent(root, nav.open, x);
    if p.Some? {
      assert HasKids(p.value) by {
        var ids := IdsOf(Kids(p.value));
        assert x in ids && |ids| == |Kids(p.value)|;
      }
    }
    assert FocusedId(nav) == Some(x);
    assert Left(root, nav) == if p.Some? && HasKids(p.value) then ConfirmFocus(nav, p, false) else nav;
    StepIsKeyHandler(root, nav, ArrowLeft);
    assert p.Some? ==> ConfirmFocus(nav, p, false) == Nav(nav.open, p);
  }

  /** The ids `*` appends are those of the children with a `children` field,
      the focused one excepted. */
  lemma {:induction false} ExpandableIdsMembers(cs: seq<Node>, fid: Option<int>, y: int)
    ensures y in ExpandableIds(cs, fid)
            <==> exists i :: 0 <= i < |cs| && cs[i].id == y && HasChildrenField(cs[i]) && Some(y) != fid
  {
    if cs != [] {
      ExpandableIdsMembers(cs[1..], fid, y);
      if y in ExpandableIds(cs[1..], fid) {
        var i :| 0 <= i < |cs[1..]| && cs[1..][i].id == y && HasChildrenField(cs[1..][i]) && Some(y) != fid;
        assert cs[i + 1] == cs[1..][i];
      }
      if exists i :: 0 <= i < |cs| && cs[i].id == y && HasChildrenField(cs[i]) && Some(y) != fid {
        var i :| 0 <= i < |cs| && cs[i].id == y && HasChildrenField(cs[i]) && Some(y) != fid;
        if i > 0 {
          assert cs[1..][i - 1] == cs[i];
        }
      }
    }
  }

  /** `*` on a rendered node appends, after the existing entries, the ids of
      its siblings (children of its tree parent, the root for a top-level
      node) that have a `children` field; the focus does not move and no entry
      is removed. With nothing focused nothing happens. */
  lemma StarOpensSiblings(root: Node, nav: Nav)
    requires UniqueIds(root) && Consistent(root, nav) && Shown(root, nav)
    ensures nav.focused.None? ==> Step(root, nav, Asterisk) == nav
    ensures nav.focused.Some? ==>
              var x := nav.focused.value.id;
              && TreeParent(root, x).Some?
              && Step(root, nav, Asterisk)
                 == Nav(nav.open + ExpandableIds(Kids(TreeParent(root, x).value), Some(x)), nav.focused)
  {
    if nav.focused.Some? {
      var x := nav.focused.value.id;
      assert ParentScan(root, nav.open, Some(x), false) == TreeParent(root, x) by {
        ParentScanIsTreeParent(root, nav.open, x, false);
      }
      assert TreeParent(root, x).Some? by {
        if x !in ChildIds(root) {
          BelowRoot(root);
          VisibleAmongIds(Kids(root), nav.open, x);
          ParentInIds(Kids(root), x);
        }
      }
      var ids := ExpandableIds(Kids(TreeParent(root, x).value), Some(x));
      if |ids| == 0 {
        assert nav.open + ids == nav.open;
      }
      assert FocusedId(nav) == Some(x);
      assert Star(root, nav) == Nav(nav.open + ids, nav.focused);
    }
    StepIsKeyHandler(root, nav, Asterisk);
  }

  /** Every key keeps the focused node equal to what the lookup returns for
      its id. */
  lemma StepKeepsConsistent(root: Node, nav: Nav, key: Key)
    requires UniqueIds(root) && Consistent(root, nav)
    ensures Consistent(root, Step(root, nav, key))
  {
    match key {
      case ArrowRight =>
        var f := nav.focused;
        if f.Some? && HasChildrenField(f.value) && f.value.id in nav.open {
          var vis := Visible(root, nav.open);
          var j := IndexOf(vis, f.value.id) + 1;
          if j < |vis| && Find(f.value, vis[j]).Some? {
            FoundBelowIsFoundFromRoot(root, f.value, vis[j]);
          }
        }
      case ArrowLeft =>
        var fid := FocusedId(nav);
        if !(fid.Some? && fid.value in nav.open) && fid.Some? {
          var vis := Visible(root, nav.open);
          var k := IndexOf(vis, fid.value);
          if k >= 0 {
            ScanResult(root, nav.open, vis[..k], fid.value);
          }
        }
      case _ =>
    }
  }

  /** Every key keeps the focused node among the rendered items. */
  lemma StepKeepsShown(root: Node, nav: Nav, key: Key)
    requires UniqueIds(root) && Consistent(root, nav) && Shown(root, nav)
    ensures Shown(root, Step(root, nav, key))
  {
    var r := Step(root, nav, key);
    match key {
      case Space =>
        if nav.focused.Some? {
          ActivateKeepsShown(root, nav);
        }
      case Enter =>
        if nav.focused.Some? {
          ActivateKeepsShown(root, nav);
        }
      case ArrowRight =>
        var f := nav.focused;
        if f.Some? && HasChildrenField(f.value) {
          if f.value.id !in nav.open {
            GrowKeepsShown(root, nav, r.open);
          }
        }
      case ArrowLeft =>
        var fid := FocusedId(nav);
        if fid.Some? && fid.value in nav.open {
          ActivateKeepsShown(root, nav);
        } else if fid.Some? {
          var vis := Visible(root, nav.open);
          var k := IndexOf(vis, fid.value);
          ScanResult(root, nav.open, vis[..k], fid.value);
        }
      case Asterisk =>
        GrowKeepsShown(root, nav, r.open);
      case _ =>
    }
  }

  /** Toggling the focused id keeps the focused node rendered: only its
      ancestors decide, and they keep their membership. */
  lemma ActivateKeepsShown(root: Node, nav: Nav)
    requires UniqueIds(root) && Shown(root, nav) && nav.focused.Some?
    ensures Shown(root, ConfirmFocus(nav, nav.focused, true))
  {
    var x := nav.focused.value.id;
    var r := ConfirmFocus(nav, nav.focused, true);
    BelowRoot(root);
    forall y | y != x && y in nav.open
      ensures y in r.open
    {
      ToggleKeepsOthers(nav.open, x, y);
    }
    VisibleKeepsItself(Kids(root), nav.open, r.open, x);
  }

  /** Appending to the open list keeps every rendered item rendered. */
  lemma GrowKeepsShown(root: Node, nav: Nav, open': seq<int>)
    requires Shown(root, nav)
    requires forall y :: y in nav.open ==> y in open'
    ensures Shown(root, nav.(open := open'))
  {
    if nav.focused.Some? {
      VisibleMonotone(Kids(root), nav.open, open', nav.focused.value.id);
    }
  }

  /** A click on a rendered node leaves the state consistent and the focus
      shown, whatever was focused before. */
  lemma ClickKeepsInvariant(root: Node, nav: Nav, node: Node)
    requires UniqueIds(root)
    requires node in PreOrderList(Kids(root)) && node.id in Visible(root, nav.open)
    ensures Consistent(root, Click(nav, node)) && Shown(root, Click(nav, node))
  {
    BelowRoot(root);
    ActivateKeepsShown(root, nav.(focused := Some(node)));
  }

  /** The first rendered item carries the id 1 that `handleFocus` looks up. */
  predicate FirstItemIsOne(root: Node, open: seq<int>) {
    Visible(root, open) != [] && Visible(root, open)[0] == 1
  }

  /** Entering the tree focuses a rendered node when the first rendered item
      has id 1; the lookup then returns the node of that item. */
  lemma FocusEnterShown(root: Node, nav: Nav)
    requires FirstItemIsOne(root, nav.open)
    ensures Shown(root, FocusEnter(root, nav)) && Consistent(root, FocusEnter(root, nav))
    ensures FocusEnter(root, nav).focused.Some? && FocusEnter(root, nav).focused.value.id == Visible(root, nav.open)[0]
  {
    VisibleIsFound(root, nav.open, 1);
  }

  /** The id 1 is hard-coded: in a tree whose ids are unique but not
      numbered in pre-order, entering the tree focuses a node that is not
      rendered. Here the first item is 2 and node 1 sits inside it, closed. */
  lemma FocusEnterCanHide()
    ensures var t := Node(0, "r", Present([Node(2, "a", Present([Node(1, "b", Absent)]))]));
            && UniqueIds(t) && Visible(t, []) == [2]
            && FocusEnter(t, Nav([], None)).focused == Some(Node(1, "b", Absent))
            && !Shown(t, FocusEnter(t, Nav([], None)))
  {
    var b := Node(1, "b", Absent);
    var a := Node(2, "a", Present([b]));
    var t := Node(0, "r", Present([a]));
    assert AllIds([b]) == [1];
    assert AllIds([a]) == [2, 1];
    assert AllIds([t]) == [0, 2, 1];
    DistinctCons(1, []);
    assert [1] + [] == [1];
    DistinctCons(2, [1]);
    DistinctCons(0, [2, 1]);
    assert [0] + [2, 1] == [0, 2, 1];
    VisibleCons([a], []);
    assert [a][1..] == [];
    assert Visible(t, []) == [2];
    FindUnfold(t, 1);
    FindUnfold(a, 1);
    FindUnfold(b, 1);
    assert Find(t, 1) == FindIn([a], 1) == Find(a, 1);
    assert Find(a, 1) == FindIn([b], 1) == Some(b);
  }

  /** The position of the single tab stop: the focused item, or the first
      item while nothing is focused. */
  function TabStop(vis: seq<int>, fid: Option<int>): int {
    if fid.Some? then IndexOf(vis, fid.value) else 0
  }

  /** Roving tabindex: among distinct rendered items exactly one carries
      tabindex 0, the focused one, or the first one while nothing is
      focused. */
  lemma SingleTabStop(vis: seq<int>, fid: Option<int>)
    requires Distinct(vis) && |vis| > 0
    requires fid.Some? ==> fid.value in vis
    ensures 0 <= TabStop(vis, fid) < |vis|
    ensures forall k :: 0 <= k < |vis| ==> (TabIndex(vis, fid, k) == 0 <==> k == TabStop(vis, fid))
  {
    forall k | 0 <= k < |vis|
      ensures TabIndex(vis, fid, k) == 0 <==> k == TabStop(vis, fid)
    {
      if fid.Some? && vis[k] == fid.value {
        IndexOfDistinct(vis, k);
      }
    }
  }

  /** In the tree: while the focused node is rendered (or nothing is
      focused), exactly one rendered item is a tab stop. */
  lemma TreeHasSingleTabStop(root: Node, nav: Nav)
    requires UniqueIds(root) && Shown(root, nav)
    requires |Visible(root, nav.open)| > 0
    ensures var vis := Visible(root, nav.open);
            forall k :: 0 <= k < |vis| ==> (TabIndex(vis, FocusedId(nav), k) == 0 <==> k == TabStop(vis, FocusedId(nav)))
  {
    VisibleOfRootDistinct(root, nav.open);
    SingleTabStop(Visible(root, nav.open), FocusedId(nav));
  }
}
