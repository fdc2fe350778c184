/** The tree handed to the Tree component, and the pure traversals the
    navigation engine runs over it: the pre-order lookup by id
    (`getTreeNodeWithId`) and the list of rendered, focusable items. */
module TreeData {
  import opened Options
  import opened Seqs

  /** A tree node. `children` keeps apart a node that has no `children`
      field at all (`Absent`) from one whose field holds an array, possibly
      empty (`Present([])`): the source tests both conditions. The icons are
      opaque payload and are not modelled. */
  datatype Node = Node(id: int, value: string, children: Children)
  datatype Children = Absent | Present(nodes: seq<Node>)

  /** `'children' in node` */
  predicate HasChildrenField(n: Node) {
    n.children.Present?
  }

  /** `node.children ?? []` */
  function Kids(n: Node): seq<Node> {
    if n.children.Present? then n.children.nodes else []
  }

  /** `!!node.children?.length` */
  predicate HasKids(n: Node) {
    |Kids(n)| > 0
  }

  /** The node is rendered with its child list: it has children and its id is open. */
  predicate Expanded(n: Node, open: seq<int>) {
    HasKids(n) && n.id in open
  }

  /** The ids of a flat sequence of nodes, in order. */
  function IdsOf(s: seq<Node>): (r: seq<int>)
    ensures |r| == |s|
    ensures forall i :: 0 <= i < |s| ==> r[i] == s[i].id
  {
    if s == [] then [] else [s[0].id] + IdsOf(s[1..])
  }

  function ChildIds(n: Node): seq<int> {
    IdsOf(Kids(n))
  }

  /** Every node of a forest, in pre-order (a node, then its subtree, then its
      next sibling). */
  function PreOrderList(ns: seq<Node>): seq<Node>
    decreases ns
  {
    if ns == [] then []
    else
      [ns[0]]
      + (if ns[0].children.Present? then PreOrderList(ns[0].children.nodes) else [])
      + PreOrderList(ns[1..])
  }

  function PreOrder(n: Node): seq<Node> {
    PreOrderList([n])
  }

  /** The nodes of a non-empty forest: the first node, its subtree, the rest. */
  lemma PreOrderCons(ns: seq<Node>)
    requires ns != []
    ensures PreOrderList(ns) == [ns[0]] + PreOrderList(Kids(ns[0])) + PreOrderList(ns[1..])
  {
    if ns[0].children.Absent? {
      assert PreOrderList(Kids(ns[0])) == [];
    }
  }

  /** The ids of a forest in pre-order. */
  function AllIds(ns: seq<Node>): seq<int>
    decreases ns
  {
    if ns == [] then []
    else
      [ns[0].id]
      + (if ns[0].children.Present? then AllIds(ns[0].children.nodes) else [])
      + AllIds(ns[1..])
  }

  /** `AllIds` lists the ids of `PreOrderList`, position by position. */
  lemma {:induction false} AllIdsArePreOrderIds(ns: seq<Node>)
    ensures AllIds(ns) == IdsOf(PreOrderList(ns))
    decreases ns
  {
    if ns != [] {
      var n := ns[0];
      var pk := if n.children.Present? then PreOrderList(n.children.nodes) else [];
      if n.children.Present? {
        AllIdsArePreOrderIds(n.children.nodes);
      }
      AllIdsArePreOrderIds(ns[1..]);
      IdsOfConcat([n], pk);
      IdsOfConcat([n] + pk, PreOrderList(ns[1..]));
    }
  }

  /** Ids identify nodes: no id occurs twice in the tree (root included). */
  predicate UniqueIds(root: Node) {
    Distinct(AllIds([root]))
  }

  lemma IdsOfConcat(a: seq<Node>, b: seq<Node>)
    ensures IdsOf(a + b) == IdsOf(a) + IdsOf(b)
  {
  }

  /** Lookup in a forest: each tree in turn, each tree's root before its
      children, stopping at the first match. */
  function FindIn(ns: seq<Node>, id: int): (r: Option<Node>)
    ensures r.Some? ==> r.value.id == id && r.value in PreOrderList(ns)
    ensures r.None? <==> id !in AllIds(ns)
    decreases ns
  {
    if ns == [] then None
    else if ns[0].id == id then Some(ns[0])
    else
      var inKids := if ns[0].children.Present? then FindIn(ns[0].children.nodes, id) else None;
      if inKids.Some? then inKids else FindIn(ns[1..], id)
  }

  /** `getTreeNodeWithId(node, id)` (Tree.tsx:94-112): the node itself when its
      id matches, else the first match among its children's subtrees, else the
      empty "not found" object (`None`). Collapsed branches are searched too. */
  function Find(n: Node, id: int): Option<Node> {
    FindIn([n], id)
  }

  /** The lookup from one node: the node itself, else its children. */
  lemma FindUnfold(n: Node, id: int)
    ensures Find(n, id) == if n.id == id then Some(n) else FindIn(Kids(n), id)
  {
    assert [n][1..] == [];
  }

  /** Extending the searched prefix of a forest by one tree. */
  lemma FindInPrefixStep(ns: seq<Node>, i: int, id: int)
    requires 0 <= i < |ns|
    ensures FindIn(ns[..i + 1], id) == if FindIn(ns[..i], id).Some? then FindIn(ns[..i], id) else Find(ns[i], id)
  {
    FindInConcat(ns[..i], [ns[i]], id);
    assert ns[..i + 1] == ns[..i] + [ns[i]];
  }

  /** A prefix that already finds the id, or the whole forest, answers for
      the forest. */
  lemma FindInPrefixDone(ns: seq<Node>, i: int, id: int)
    requires 0 <= i <= |ns|
    requires FindIn(ns[..i], id).Some? || i == |ns|
    ensures FindIn(ns, id) == FindIn(ns[..i], id)
  {
    FindInConcat(ns[..i], ns[i..], id);
    assert ns[..i] + ns[i..] == ns;
  }

  /** Reference definition of "the first node in `s` carrying `id`". */
  function FirstWithId(s: seq<Node>, id: int): (r: Option<Node>)
    ensures r.Some? <==> id in IdsOf(s)
    ensures r.Some? ==> r.value == s[IndexOf(IdsOf(s), id)]
  {
    if s == [] then None
    else if s[0].id == id then Some(s[0])
    else
      assert IdsOf(s)[1..] == IdsOf(s[1..]);
      FirstWithId(s[1..], id)
  }

  lemma {:induction false} FirstWithIdConcat(a: seq<Node>, b: seq<Node>, id: int)
    ensures FirstWithId(a + b, id) == if FirstWithId(a, id).Some? then FirstWithId(a, id) else FirstWithId(b, id)
  {
    if a == [] {
      assert a + b == b;
    } else {
      assert (a + b)[1..] == a[1..] + b;
      FirstWithIdConcat(a[1..], b, id);
    }
  }

  /** The lookup returns the first node in pre-order whose id matches, over the
      whole forest, hidden branches included. */
  lemma {:induction false} FindIsFirstInPreOrder(ns: seq<Node>, id: int)
    ensures FindIn(ns, id) == FirstWithId(PreOrderList(ns), id)
    decreases ns
  {
    if ns != [] {
      var n := ns[0];
      var pk := if n.children.Present? then PreOrderList(n.children.nodes) else [];
      var pr := PreOrderList(ns[1..]);
      assert PreOrderList(ns) == [n] + (pk + pr);
      if n.id != id {
        assert ([n] + (pk + pr))[1..] == pk + pr;
        FirstWithIdConcat(pk, pr, id);
        if n.children.Present? {
          FindIsFirstInPreOrder(n.children.nodes, id);
        }
        FindIsFirstInPreOrder(ns[1..], id);
      }
    }
  }

  /** In a forest whose ids are unique, the lookup of a node's own id returns
      that very node. */
  lemma {:induction false} FindReturnsTheNode(ns: seq<Node>, m: Node)
    requires Distinct(AllIds(ns))
    requires m in PreOrderList(ns)
    ensures FindIn(ns, m.id) == Some(m)
    decreases ns
  {
    var n := ns[0];
    var ak := if n.children.Present? then AllIds(n.children.nodes) else [];
    var ar := AllIds(ns[1..]);
    assert AllIds(ns) == [n.id] + (ak + ar);
    DistinctConcat([n.id], ak + ar);
    DistinctConcat(ak, ar);
    if m != n {
      InPreOrderHasId(ns, m);
      if n.children.Present? && m in PreOrderList(n.children.nodes) {
        InPreOrderHasId(n.children.nodes, m);
        FindReturnsTheNode(n.children.nodes, m);
      } else {
        assert m in PreOrderList(ns[1..]);
        InPreOrderHasId(ns[1..], m);
        FindReturnsTheNode(ns[1..], m);
      }
    }
  }

  lemma InPreOrderHasId(ns: seq<Node>, m: Node)
    requires m in PreOrderList(ns)
    ensures m.id in AllIds(ns)
  {
    AllIdsArePreOrderIds(ns);
    var i :| 0 <= i < |PreOrderList(ns)| && PreOrderList(ns)[i] == m;
    assert AllIds(ns)[i] == m.id;
  }

  /** The focusable items, in document order: a forest's nodes in pre-order
      where a node's children appear only while it is expanded
      (Tree.tsx:409-418, 486-490, 570-574). */
  function VisibleList(ns: seq<Node>, open: seq<int>): seq<int>
    decreases ns
  {
    if ns == [] then []
    else
      [ns[0].id]
      + (if Expanded(ns[0], open) then VisibleList(ns[0].children.nodes, open) else [])
      + VisibleList(ns[1..], open)
  }

  /** The ids the DOM query returns for the rendered tree: the root's
      descendants, never the root itself. */
  function Visible(root: Node, open: seq<int>): seq<int> {
    VisibleList(Kids(root), open)
  }

  /** The items of a non-empty forest: the first node, its shown subtree, the rest. */
  lemma VisibleCons(ns: seq<Node>, open: seq<int>)
    requires ns != []
    ensures VisibleList(ns, open)
            == [ns[0].id] + (if Expanded(ns[0], open) then VisibleList(Kids(ns[0]), open) else [])
               + VisibleList(ns[1..], open)
  {
  }

  /** Every item shown is a node of the forest. */
  lemma {:induction false} VisibleAmongIds(ns: seq<Node>, open: seq<int>, x: int)
    requires x in VisibleList(ns, open)
    ensures x in AllIds(ns)
    decreases ns
  {
    if ns[0].id != x {
      if Expanded(ns[0], open) && x in VisibleList(ns[0].children.nodes, open) {
        VisibleAmongIds(ns[0].children.nodes, open, x);
      } else {
        VisibleAmongIds(ns[1..], open, x);
      }
    }
  }

  /** With nothing open only the top-level items are shown. */
  lemma {:induction false} VisibleWhenAllClosed(ns: seq<Node>)
    ensures VisibleList(ns, []) == IdsOf(ns)
    decreases ns
  {
    if ns != [] {
      VisibleWhenAllClosed(ns[1..]);
    }
  }

  /** Rendering reads the open list only through membership: two lists with the
      same members render the same items. */
  lemma {:induction false} VisibleDependsOnMembership(ns: seq<Node>, o1: seq<int>, o2: seq<int>)
    requires forall y :: y in o1 <==> y in o2
    ensures VisibleList(ns, o1) == VisibleList(ns, o2)
    decreases ns
  {
    if ns != [] {
      if Expanded(ns[0], o1) {
        VisibleDependsOnMembership(ns[0].children.nodes, o1, o2);
      }
      VisibleDependsOnMembership(ns[1..], o1, o2);
    }
  }

  /** Opening more ids never hides an item. */
  lemma {:induction false} VisibleMonotone(ns: seq<Node>, o1: seq<int>, o2: seq<int>, x: int)
    requires forall y :: y in o1 ==> y in o2
    requires x in VisibleList(ns, o1)
    ensures x in VisibleList(ns, o2)
    decreases ns
  {
    if ns[0].id != x {
      if Expanded(ns[0], o1) && x in VisibleList(ns[0].children.nodes, o1) {
        VisibleMonotone(ns[0].children.nodes, o1, o2, x);
      } else {
        VisibleMonotone(ns[1..], o1, o2, x);
      }
    }
  }

  /** With unique ids, changing whether `x` itself is open keeps `x` visible:
      only its ancestors decide, and they carry other ids. */
  lemma {:induction false} VisibleKeepsItself(ns: seq<Node>, o1: seq<int>, o2: seq<int>, x: int)
    requires Distinct(AllIds(ns))
    requires forall y :: y != x && y in o1 ==> y in o2
    requires x in VisibleList(ns, o1)
    ensures x in VisibleList(ns, o2)
    decreases ns
  {
    var n := ns[0];
    DistinctParts(ns);
    if n.id != x {
      if Expanded(n, o1) && x in VisibleList(n.children.nodes, o1) {
        VisibleAmongIds(Kids(n), o1, x);
        VisibleKeepsItself(n.children.nodes, o1, o2, x);
      } else {
        VisibleKeepsItself(ns[1..], o1, o2, x);
      }
    }
  }

  /** With unique ids no item is listed twice. */
  lemma {:induction false} VisibleDistinct(ns: seq<Node>, open: seq<int>)
    requires Distinct(AllIds(ns))
    ensures Distinct(VisibleList(ns, open))
    decreases ns
  {
    if ns != [] {
      var n := ns[0];
      DistinctParts(ns);
      var vk := if Expanded(n, open) then VisibleList(n.children.nodes, open) else [];
      var vr := VisibleList(ns[1..], open);
      if Expanded(n, open) {
        VisibleDistinct(n.children.nodes, open);
      }
      VisibleDistinct(ns[1..], open);
      forall y | y in vk
        ensures y !in vr
      {
        VisibleAmongIds(Kids(n), open, y);
        if y in vr {
          VisibleAmongIds(ns[1..], open, y);
        }
      }
      DistinctJoin(vk, vr);
      if n.id in vk {
        VisibleAmongIds(Kids(n), open, n.id);
      }
      if n.id in vr {
        VisibleAmongIds(ns[1..], open, n.id);
      }
      assert VisibleList(ns, open) == [n.id] + vk + vr;
      ConcatAssoc([n.id], vk, vr);
      DistinctCons(n.id, vk + vr);
    }
  }

  /** Lookup over two forests: the first forest is searched completely before
      the second. */
  lemma {:induction false} FindInConcat(a: seq<Node>, b: seq<Node>, id: int)
    ensures FindIn(a + b, id) == if FindIn(a, id).Some? then FindIn(a, id) else FindIn(b, id)
    decreases a
  {
    if a == [] {
      assert a + b == b;
    } else {
      assert (a + b)[0] == a[0];
      assert (a + b)[1..] == a[1..] + b;
      FindInConcat(a[1..], b, id);
    }
  }

  lemma {:induction false} AllIdsConcat(a: seq<Node>, b: seq<Node>)
    ensures AllIds(a + b) == AllIds(a) + AllIds(b)
    decreases a
  {
    if a == [] {
      assert a + b == b;
    } else {
      assert (a + b)[0] == a[0];
      assert (a + b)[1..] == a[1..] + b;
      AllIdsConcat(a[1..], b);
    }
  }

  /** The ids of a forest's top-level nodes occur among all its ids. */
  lemma TopIdInAll(ns: seq<Node>, x: int)
    requires x in IdsOf(ns)
    ensures x in AllIds(ns)
  {
    AllIdsArePreOrderIds(ns);
    var i :| 0 <= i < |ns| && ns[i].id == x;
    assert ns[i] in PreOrderList(ns) by { TopInPreOrder(ns, i); }
    InPreOrderHasId(ns, ns[i]);
  }

  lemma {:induction false} TopInPreOrder(ns: seq<Node>, i: int)
    requires 0 <= i < |ns|
    ensures ns[i] in PreOrderList(ns)
    decreases ns
  {
    if i > 0 {
      TopInPreOrder(ns[1..], i - 1);
    }
  }

  /** The ids below a node of a forest are ids of the forest. */
  lemma {:induction false} SubtreeIds(ns: seq<Node>, m: Node, x: int)
    requires m in PreOrderList(ns)
    requires x in AllIds(Kids(m))
    ensures x in AllIds(ns)
    decreases ns
  {
    var n := ns[0];
    if m != n {
      if n.children.Present? && m in PreOrderList(n.children.nodes) {
        SubtreeIds(n.children.nodes, m, x);
      } else {
        SubtreeIds(ns[1..], m, x);
      }
    }
  }

  /** A node of a forest lies, with its whole subtree, inside the forest. */
  lemma {:induction false} SubtreeInside(ns: seq<Node>, m: Node, c: Node)
    requires m in PreOrderList(ns)
    requires c in PreOrderList([m])
    ensures c in PreOrderList(ns)
    decreases ns
  {
    var n := ns[0];
    if m != n {
      if n.children.Present? && m in PreOrderList(n.children.nodes) {
        SubtreeInside(n.children.nodes, m, c);
      } else {
        SubtreeInside(ns[1..], m, c);
      }
    } else {
      assert PreOrderList([m]) == [m] + (if m.children.Present? then PreOrderList(m.children.nodes) else []) + PreOrderList([]);
    }
  }

  /** Unique ids in a forest stay unique in every subtree. */
  lemma {:induction false} SubtreeDistinct(ns: seq<Node>, m: Node)
    requires Distinct(AllIds(ns))
    requires m in PreOrderList(ns)
    ensures Distinct(AllIds([m]))
    decreases ns
  {
    var n := ns[0];
    var ak := if n.children.Present? then AllIds(n.children.nodes) else [];
    var ar := AllIds(ns[1..]);
    assert AllIds(ns) == [n.id] + (ak + ar);
    DistinctConcat([n.id], ak + ar);
    DistinctConcat(ak, ar);
    if m == n {
      assert AllIds([m]) == [n.id] + ak;
      DistinctConcat([n.id], ak);
    } else if n.children.Present? && m in PreOrderList(n.children.nodes) {
      SubtreeDistinct(n.children.nodes, m);
    } else {
      SubtreeDistinct(ns[1..], m);
    }
  }

  /** What unique ids give below the root: the descendants' ids are unique and
      differ from the root's, and looking up a descendant's id finds it. */
  lemma BelowRoot(root: Node)
    requires UniqueIds(root)
    ensures Distinct(AllIds(Kids(root)))
    ensures root.id !in AllIds(Kids(root))
    ensures forall m :: m in PreOrderList(Kids(root)) ==> Find(root, m.id) == Some(m)
  {
    AllIdsCons([root]);
    DistinctCons(root.id, AllIds(Kids(root)));
    assert PreOrderList([root]) == [root] + PreOrderList(Kids(root)) + PreOrderList([]);
    forall m | m in PreOrderList(Kids(root))
      ensures Find(root, m.id) == Some(m)
    {
      FindReturnsTheNode([root], m);
    }
  }

  /** Whatever the lookup finds below a node of a unique-id tree is found again,
      the same node, when looked up from the root. */
  lemma FoundBelowIsFoundFromRoot(root: Node, f: Node, y: int)
    requires UniqueIds(root)
    requires Find(root, f.id) == Some(f)
    requires Find(f, y).Some?
    ensures Find(root, y) == Find(f, y)
  {
    var c := Find(f, y).value;
    SubtreeInside([root], f, c);
    FindReturnsTheNode([root], c);
  }

  /** The ids of a non-empty forest: the first node's, its subtree's, the rest's. */
  lemma AllIdsCons(ns: seq<Node>)
    requires ns != []
    ensures AllIds(ns) == [ns[0].id] + AllIds(Kids(ns[0])) + AllIds(ns[1..])
    ensures AllIds([ns[0]]) == [ns[0].id] + AllIds(Kids(ns[0]))
  {
    if ns[0].children.Absent? {
      assert AllIds(Kids(ns[0])) == [];
    }
    assert [ns[0]][1..] == [];
    assert AllIds([ns[0]]) == [ns[0].id] + AllIds(Kids(ns[0])) + AllIds([]);
  }

  /** Unique ids in a forest, split along its first tree: the first node, the
      ids below it and the ids of the remaining trees are pairwise apart. */
  lemma DistinctParts(ns: seq<Node>)
    requires ns != [] && Distinct(AllIds(ns))
    ensures Distinct(AllIds(Kids(ns[0]))) && Distinct(AllIds(ns[1..]))
    ensures ns[0].id !in AllIds(Kids(ns[0])) && ns[0].id !in AllIds(ns[1..])
    ensures forall y :: y in AllIds(Kids(ns[0])) ==> y !in AllIds(ns[1..])
    ensures Distinct(AllIds([ns[0]]))
  {
    var n := ns[0];
    var ak := AllIds(Kids(n));
    var ar := AllIds(ns[1..]);
    AllIdsCons(ns);
    ConcatAssoc([n.id], ak, ar);
    DistinctCons(n.id, ak + ar);
    DistinctSplit(ak, ar);
    DistinctCons(n.id, ak);
  }

  /** An expanded node that is rendered is followed by its own rendered
      subtree: the items split around it as `pre`, the node, its subtree's
      items, `post`. */
  lemma {:induction false} VisibleSegment(ns: seq<Node>, open: seq<int>, m: Node) returns (pre: seq<int>, post: seq<int>)
    requires Distinct(AllIds(ns))
    requires m in PreOrderList(ns) && Expanded(m, open) && m.id in VisibleList(ns, open)
    ensures VisibleList(ns, open) == pre + ([m.id] + VisibleList(Kids(m), open)) + post
    decreases ns
  {
    var n := ns[0];
    var vk := if Expanded(n, open) then VisibleList(n.children.nodes, open) else [];
    var vr := VisibleList(ns[1..], open);
    assert VisibleList(ns, open) == [n.id] + vk + vr;
    if m == n {
      assert vk == VisibleList(Kids(m), open);
      pre, post := [], vr;
      assert [m.id] + VisibleList(Kids(m), open) == [n.id] + vk;
      assert [] + ([n.id] + vk) == [n.id] + vk;
    } else if m.id in vk {
      assert m in PreOrderList(n.children.nodes) && Distinct(AllIds(n.children.nodes)) by {
        DistinctParts(ns);
        PreOrderCons(ns);
        VisibleAmongIds(n.children.nodes, open, m.id);
        if m in PreOrderList(ns[1..]) {
          InPreOrderHasId(ns[1..], m);
        }
      }
      var p, q := VisibleSegment(n.children.nodes, open, m);
      pre, post := [n.id] + p, q + vr;
      RegroupMiddle([n.id], p, [m.id] + VisibleList(Kids(m), open), q, vr);
    } else {
      assert m.id != n.id by {
        DistinctParts(ns);
        FindReturnsTheNode(ns, m);
        FindReturnsTheNode(ns, n);
      }
      assert m in PreOrderList(ns[1..]) && Distinct(AllIds(ns[1..])) by {
        DistinctParts(ns);
        PreOrderCons(ns);
        VisibleAmongIds(ns[1..], open, m.id);
        if m in PreOrderList(Kids(n)) {
          InPreOrderHasId(Kids(n), m);
        }
      }
      var p, q := VisibleSegment(ns[1..], open, m);
      pre, post := [n.id] + vk + p, q;
      RegroupLast([n.id], vk, p, [m.id] + VisibleList(Kids(m), open), q);
    }
  }

  /** With unique ids, the item rendered right after an expanded node is its
      first child. */
  lemma VisibleNext(ns: seq<Node>, open: seq<int>, m: Node, k: int)
    requires Distinct(AllIds(ns))
    requires m in PreOrderList(ns) && Expanded(m, open)
    requires 0 <= k < |VisibleList(ns, open)| && VisibleList(ns, open)[k] == m.id
    ensures k + 1 < |VisibleList(ns, open)| && VisibleList(ns, open)[k + 1] == Kids(m)[0].id
  {
    var vis := VisibleList(ns, open);
    var sub := VisibleList(Kids(m), open);
    var pre, post := VisibleSegment(ns, open, m);
    VisibleCons(Kids(m), open);
    assert vis[|pre|] == m.id && vis[|pre| + 1] == sub[0];
    if k != |pre| {
      VisibleDistinct(ns, open);
      if k < |pre| {
        DistinctAt(vis, k, |pre|);
      } else {
        DistinctAt(vis, |pre|, k);
      }
    }
  }
}
