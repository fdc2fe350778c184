/** `getParentOfTreeNodeWithId` (Tree.tsx:179-210): finding the parent of the
    focused item by scanning the rendered items backwards, and the tree parent
    that scan is meant to find. */
module Parents {
  import opened Options
  import opened Seqs
  import opened TreeData

  /** `DOMRoot.querySelector('#tree-item-list-' + p)?.contains(activeElement)`,
      the active element being the focused item `x`: the item with id `p` is
      rendered with its child list, and `x` is rendered somewhere inside it. */
  predicate Container(root: Node, open: seq<int>, p: int, x: int) {
    var m := Find(root, p);
    m.Some? && Expanded(m.value, open) && x in VisibleList(Kids(m.value), open)
  }

  /** The `for` loop running backwards over the items `s`: the node looked up
      for the last item whose child list holds `x`, or None. */
  function Scan(root: Node, open: seq<int>, s: seq<int>, x: int): Option<Node> {
    if s == [] then None
    else if Container(root, open, s[|s| - 1], x) then Find(root, s[|s| - 1])
    else Scan(root, open, s[..|s| - 1], x)
  }

  /** One step of the backward loop: the scan of the first `i + 1` items
      stops at item `i` when it is a container, else goes on with the first
      `i` items. */
  lemma ScanStep(root: Node, open: seq<int>, s: seq<int>, i: int, x: int)
    requires 0 <= i < |s|
    ensures Scan(root, open, s[..i + 1], x)
            == if Container(root, open, s[i], x) then Find(root, s[i]) else Scan(root, open, s[..i], x)
  {
    assert s[..i + 1][..i] == s[..i];
  }

  /** What the scan returns is the node looked up for one of the scanned
      items, and that item's child list holds `x`. */
  lemma {:induction false} ScanResult(root: Node, open: seq<int>, s: seq<int>, x: int)
    ensures var r := Scan(root, open, s, x);
            r.Some? ==> r.value.id in s && Find(root, r.value.id) == r && Container(root, open, r.value.id, x)
    decreases |s|
  {
    if s != [] && !Container(root, open, s[|s| - 1], x) {
      ScanResult(root, open, s[..|s| - 1], x);
      assert forall y :: y in s[..|s| - 1] ==> y in s;
    }
  }

  /** `getParentOfTreeNodeWithId(id, leftArrow)`. Unless called for ArrowLeft,
      an item placed directly in the root list has the root as parent;
      otherwise the items before it are scanned. An id that is not rendered
      (`indexOf` gives -1) has no parent. */
  function ParentScan(root: Node, open: seq<int>, id: Option<int>, leftArrow: bool): Option<Node> {
    var vis := Visible(root, open);
    var k := if id.Some? then IndexOf(vis, id.value) else -1;
    if !leftArrow && 0 <= k && vis[k] in ChildIds(root) then Some(root)
    else if k < 0 then None
    else Scan(root, open, vis[..k], id.value)
  }

  /** Reference definition: the parent of `x` inside a forest, that is the
      first node in pre-order listing `x` among its children. */
  function ParentIn(ns: seq<Node>, x: int): (r: Option<Node>)
    ensures r.Some? ==> x in ChildIds(r.value) && r.value in PreOrderList(ns)
    decreases ns
  {
    if ns == [] then None
    else if x in ChildIds(ns[0]) then Some(ns[0])
    else
      var inKids := if ns[0].children.Present? then ParentIn(ns[0].children.nodes, x) else None;
      if inKids.Some? then inKids else ParentIn(ns[1..], x)
  }

  /** The parent of an item of the rendered tree: the root for a top-level
      item, else its parent among the root's descendants. */
  function TreeParent(root: Node, x: int): Option<Node> {
    if x in ChildIds(root) then Some(root) else ParentIn(Kids(root), x)
  }

  /** A node has a parent in a forest exactly when it is one of the forest's
      nodes and not a top-level one (for the second half, ids need not even be
      unique). */
  lemma {:induction false} ParentInIds(ns: seq<Node>, x: int)
    ensures ParentIn(ns, x).Some? ==> x in AllIds(ns)
    ensures x in AllIds(ns) && x !in IdsOf(ns) ==> ParentIn(ns, x).Some?
    decreases ns
  {
    if ns != [] {
      var n := ns[0];
      var kids := Kids(n);
      if x in ChildIds(n) {
        TopIdInAll(kids, x);
      } else {
        if n.children.Present? {
          ParentInIds(n.children.nodes, x);
        }
        ParentInIds(ns[1..], x);
        assert IdsOf(ns) == [n.id] + IdsOf(ns[1..]);
      }
    }
  }

  /** With unique ids a top-level node of the forest has no parent in it. */
  lemma {:induction false} TopHasNoParent(ns: seq<Node>, x: int)
    requires Distinct(AllIds(ns))
    requires x in IdsOf(ns)
    ensures ParentIn(ns, x) == None
    decreases ns
  {
    var n := ns[0];
    var ak := AllIds(Kids(n));
    DistinctParts(ns);
    assert IdsOf(ns) == [n.id] + IdsOf(ns[1..]);
    if x == n.id {
      assert x !in ak;
      if n.children.Present? {
        ParentInIds(n.children.nodes, x);
        if x in ChildIds(n) {
          TopIdInAll(n.children.nodes, x);
        }
      }
      ParentInIds(ns[1..], x);
    } else {
      TopIdInAll(ns[1..], x);
      assert x !in ak;
      if n.children.Present? {
        ParentInIds(n.children.nodes, x);
        if x in ChildIds(n) {
          TopIdInAll(n.children.nodes, x);
        }
      }
      TopHasNoParent(ns[1..], x);
    }
  }

  lemma {:induction false} ScanConcat(root: Node, open: seq<int>, a: seq<int>, b: seq<int>, x: int)
    ensures Scan(root, open, a + b, x)
            == if Scan(root, open, b, x).Some? then Scan(root, open, b, x) else Scan(root, open, a, x)
    decreases |b|
  {
    if b == [] {
      assert a + b == a;
    } else {
      assert (a + b)[..|a + b| - 1] == a + b[..|b| - 1];
      assert (a + b)[|a + b| - 1] == b[|b| - 1];
      ScanConcat(root, open, a, b[..|b| - 1], x);
    }
  }

  lemma {:induction false} ScanMisses(root: Node, open: seq<int>, s: seq<int>, x: int)
    requires forall y :: y in s ==> !Container(root, open, y, x)
    ensures Scan(root, open, s, x) == None
    decreases |s|
  {
    if s != [] {
      assert forall y :: y in s[..|s| - 1] ==> y in s;
      ScanMisses(root, open, s[..|s| - 1], x);
    }
  }

  /** Every node of the forest is what the lookup from the root returns for
      its id. */
  ghost predicate FoundAsIs(root: Node, ns: seq<Node>) {
    forall m :: m in PreOrderList(ns) ==> Find(root, m.id) == Some(m)
  }

  /** `FoundAsIs` holds for the parts of a non-empty forest. */
  lemma FoundAsIsParts(root: Node, ns: seq<Node>)
    requires ns != [] && FoundAsIs(root, ns)
    ensures FoundAsIs(root, Kids(ns[0])) && FoundAsIs(root, ns[1..]) && FoundAsIs(root, [ns[0]])
    ensures Find(root, ns[0].id) == Some(ns[0])
  {
    var n := ns[0];
    assert PreOrderList(ns) == [n] + PreOrderList(Kids(n)) + PreOrderList(ns[1..]);
    assert PreOrderList([n]) == [n] + PreOrderList(Kids(n)) + PreOrderList([]);
  }

  /** An item of the forest whose child list holds `x` has `x` in the forest. */
  lemma ContainerInside(root: Node, open: seq<int>, ns: seq<Node>, y: int, x: int)
    requires FoundAsIs(root, ns)
    requires y in AllIds(ns)
    requires Container(root, open, y, x)
    ensures x in AllIds(ns)
  {
    AllIdsArePreOrderIds(ns);
    var i :| 0 <= i < |AllIds(ns)| && AllIds(ns)[i] == y;
    var m := PreOrderList(ns)[i];
    assert Find(root, y) == Some(m);
    VisibleAmongIds(Kids(m), open, x);
    SubtreeIds(ns, m, x);
  }

  /** The items rendered for a non-empty forest: its first node, that node's
      rendered descendants, then the rest. */
  function ExpandedPart(ns: seq<Node>, open: seq<int>): seq<int>
    requires ns != []
  {
    if Expanded(ns[0], open) then VisibleList(Kids(ns[0]), open) else []
  }

  /** The scan over the items rendered before `x` finds the parent of `x` in
      the forest, or nothing for a top-level node: the items split around
      `x` as `pre`, `x`, `post`, and the scan over `pre` gives that parent. */
  lemma {:induction false} ScanFindsParent(root: Node, open: seq<int>, ns: seq<Node>, x: int) returns (pre: seq<int>, post: seq<int>)
    requires FoundAsIs(root, ns)
    requires Distinct(AllIds(ns))
    requires x in VisibleList(ns, open)
    ensures VisibleList(ns, open) == pre + [x] + post
    ensures Scan(root, open, pre, x) == ParentIn(ns, x)
    decreases ns
  {
    var n := ns[0];
    var vk := ExpandedPart(ns, open);
    var vr := VisibleList(ns[1..], open);
    assert VisibleList(ns, open) == [n.id] + vk + vr;
    if x == n.id {
      pre, post := [], vk + vr;
      ConcatAssoc([x], vk, vr);
      assert [] + [x] == [x];
      assert IdsOf(ns)[0] == n.id;
      TopHasNoParent(ns, x);
    } else if x in vk {
      DistinctParts(ns);
      FoundAsIsParts(root, ns);
      assert Expanded(n, open) && vk == VisibleList(n.children.nodes, open);
      var p, q := ScanFindsParent(root, open, n.children.nodes, x);
      pre, post := [n.id] + p, q + vr;
      RegroupMiddle([n.id], p, [x], q, vr);
      ScanInKids(root, open, ns, x, p);
    } else {
      assert x in vr;
      DistinctParts(ns);
      FoundAsIsParts(root, ns);
      var p, q := ScanFindsParent(root, open, ns[1..], x);
      pre, post := [n.id] + vk + p, q;
      RegroupLast([n.id], vk, p, [x], q);
      ScanInRest(root, open, ns, x, p);
    }
  }

  /** `x` is rendered below the forest's first node: prefixing the scanned
      items with that node finds it as the parent exactly when `x` is one of
      its children. */
  lemma ScanInKids(root: Node, open: seq<int>, ns: seq<Node>, x: int, p: seq<int>)
    requires ns != [] && Find(root, ns[0].id) == Some(ns[0])
    requires Distinct(AllIds(Kids(ns[0])))
    requires Expanded(ns[0], open) && x in VisibleList(Kids(ns[0]), open)
    requires Scan(root, open, p, x) == ParentIn(Kids(ns[0]), x)
    ensures Scan(root, open, [ns[0].id] + p, x) == ParentIn(ns, x)
  {
    var n := ns[0];
    ScanConcat(root, open, [n.id], p, x);
    if x in ChildIds(n) {
      TopHasNoParent(Kids(n), x);
      assert Container(root, open, n.id, x);
    } else {
      VisibleAmongIds(Kids(n), open, x);
      ParentInIds(Kids(n), x);
    }
  }

  /** `x` is rendered after the forest's first node and its descendants,
      none of which holds it. */
  lemma ScanInRest(root: Node, open: seq<int>, ns: seq<Node>, x: int, p: seq<int>)
    requires ns != [] && FoundAsIs(root, [ns[0]])
    requires forall y :: y in AllIds(Kids(ns[0])) ==> y !in AllIds(ns[1..])
    requires ns[0].id !in AllIds(ns[1..])
    requires x in VisibleList(ns[1..], open)
    requires Scan(root, open, p, x) == ParentIn(ns[1..], x)
    ensures Scan(root, open, [ns[0].id] + ExpandedPart(ns, open) + p, x) == ParentIn(ns, x)
  {
    var n := ns[0];
    var vk := ExpandedPart(ns, open);
    assert x !in AllIds([n]) by {
      VisibleAmongIds(ns[1..], open, x);
      assert AllIds([n]) == [n.id] + AllIds(Kids(n));
    }
    ParentSkipsFirst(ns, x);
    NothingBeforeHolds(root, open, ns, x);
    ScanConcat(root, open, [n.id] + vk, p, x);
  }

  /** A node outside the first tree of a forest has its parent in the rest. */
  lemma ParentSkipsFirst(ns: seq<Node>, x: int)
    requires ns != [] && x !in AllIds([ns[0]])
    ensures ParentIn(ns, x) == ParentIn(ns[1..], x)
  {
    var n := ns[0];
    assert AllIds([n]) == [n.id] + AllIds(Kids(n));
    if x in ChildIds(n) {
      TopIdInAll(Kids(n), x);
    }
    ParentInIds(Kids(n), x);
  }

  /** No item of the first tree of a forest holds in its child list a node
      outside that tree. */
  lemma NothingBeforeHolds(root: Node, open: seq<int>, ns: seq<Node>, x: int)
    requires ns != [] && FoundAsIs(root, [ns[0]])
    requires x !in AllIds([ns[0]])
    ensures Scan(root, open, [ns[0].id] + ExpandedPart(ns, open), x) == None
  {
    var n := ns[0];
    var vk := ExpandedPart(ns, open);
    assert AllIds([n]) == [n.id] + AllIds(Kids(n));
    forall y | y in [n.id] + vk
      ensures !Container(root, open, y, x)
    {
      if Container(root, open, y, x) {
        if y != n.id {
          VisibleAmongIds(Kids(n), open, y);
        }
        ContainerInside(root, open, [n], y, x);
      }
    }
    ScanMisses(root, open, [n.id] + vk, x);
  }

  /** The items the scan of `getParentOfTreeNodeWithId` visits for a rendered
      item `x`, those before `indexOf(x)`, yield the parent of `x` among the
      root's descendants. */
  lemma ScanBeforeItem(root: Node, open: seq<int>, x: int)
    requires UniqueIds(root)
    requires x in Visible(root, open)
    ensures Scan(root, open, Visible(root, open)[..IndexOf(Visible(root, open), x)], x) == ParentIn(Kids(root), x)
  {
    BelowRoot(root);
    var vis := Visible(root, open);
    var pre, post := ScanFindsParent(root, open, Kids(root), x);
    assert vis[|pre|] == x && vis[..|pre|] == pre;
    VisibleDistinct(Kids(root), open);
    IndexOfDistinct(vis, |pre|);
  }

  /** `getParentOfTreeNodeWithId` on a rendered item of a unique-id tree
      returns its tree parent; for ArrowLeft a top-level item gets none
      instead of the root. */
  lemma ParentScanIsTreeParent(root: Node, open: seq<int>, x: int, leftArrow: bool)
    requires UniqueIds(root)
    requires x in Visible(root, open)
    ensures ParentScan(root, open, Some(x), leftArrow)
            == if leftArrow then ParentIn(Kids(root), x) else TreeParent(root, x)
  {
    ScanBeforeItem(root, open, x);
    if x in ChildIds(root) {
      BelowRoot(root);
      TopHasNoParent(Kids(root), x);
    }
  }
}
