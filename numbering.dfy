/** `addIdAttributesToTreeNodes` (Tree.stories.tsx:51-67): a story helper
    that writes pre-order ids into the tree objects in place, with a counter
    shared across the recursive calls. The numbering is specified on values
    (`NumberList`); the in-place traversal works on heap objects and is
    proved to produce that numbering. */
module Numbering {
  import opened Options
  import opened Seqs
  import opened TreeData
  import opened Navigation
  import opened NavigationProps

  /** The forest `ns` with its nodes numbered in pre-order from `k`: each
      node receives the counter, then its subtree is numbered, then the next
      sibling continues from where the subtree stopped. Only ids change. */
  function NumberList(ns: seq<Node>, k: int): (r: seq<Node>)
    ensures |r| == |ns|
    decreases ns
  {
    if ns == [] then []
    else
      var n := ns[0];
      var kids := if n.children.Present? then Present(NumberList(n.children.nodes, k + 1)) else Absent;
      [Node(k, n.value, kids)] + NumberList(ns[1..], k + |AllIds([n])|)
  }

  /** The tree handed to the helper, numbered from 0. */
  function Number(root: Node): Node {
    NumberList([root], 0)[0]
  }

  /** The consecutive integers `k, k + 1, ..., k + len - 1`. */
  function Range(k: int, len: nat): (r: seq<int>)
    ensures |r| == len
    ensures forall i :: 0 <= i < len ==> r[i] == k + i
    decreases len
  {
    if len == 0 then [] else [k] + Range(k + 1, len - 1)
  }

  /** A forest with every id set to 0: what the numbering must leave alone. */
  function Erase(ns: seq<Node>): seq<Node>
    decreases ns
  {
    if ns == [] then []
    else
      var n := ns[0];
      var kids := if n.children.Present? then Present(Erase(n.children.nodes)) else Absent;
      [Node(0, n.value, kids)] + Erase(ns[1..])
  }

  lemma RangeConcat(k: int, a: nat, b: nat)
    ensures Range(k, a) + Range(k + a, b) == Range(k, a + b)
  {
    assert (Range(k, a) + Range(k + a, b)) == Range(k, a + b);
  }

  /** Each node's id is its position in pre-order plus the start value: the
      ids of a numbered forest are exactly `k, k + 1, ...`, one per node. */
  lemma {:induction false} NumberedIds(ns: seq<Node>, k: int)
    ensures AllIds(NumberList(ns, k)) == Range(k, |AllIds(ns)|)
    decreases ns
  {
    if ns != [] {
      var n := ns[0];
      var a := |AllIds(Kids(n))|;
      var b := |AllIds(ns[1..])|;
      AllIdsCons(ns);
      AllIdsCons([n]);
      var nl := NumberList(ns, k);
      var rest := NumberList(ns[1..], k + 1 + a);
      assert nl[0].id == k && nl[1..] == rest;
      assert AllIds(Kids(nl[0])) == Range(k + 1, a) by {
        if n.children.Present? {
          NumberedIds(n.children.nodes, k + 1);
        }
      }
      NumberedIds(ns[1..], k + 1 + a);
      AllIdsCons(nl);
      assert AllIds(nl) == [k] + Range(k + 1, a) + Range(k + 1 + a, b);
      RangeConcat(k + 1, a, b);
      ConcatAssoc([k], Range(k + 1, a), Range(k + 1 + a, b));
      assert Range(k, 1 + a + b) == [k] + Range(k + 1, a + b);
      assert |AllIds(ns)| == 1 + a + b;
      assert AllIds(nl) == Range(k, |AllIds(ns)|);
    }
  }

  /** Numbering keeps the shape, the order and the values: erasing the ids
      gives the same forest before and after. */
  lemma {:induction false} NumberingKeepsShape(ns: seq<Node>, k: int)
    ensures Erase(NumberList(ns, k)) == Erase(ns)
    decreases ns
  {
    if ns != [] {
      var n := ns[0];
      if n.children.Present? {
        NumberingKeepsShape(n.children.nodes, k + 1);
      }
      NumberingKeepsShape(ns[1..], k + |AllIds([n])|);
    }
  }

  lemma DistinctRange(k: int, len: nat)
    ensures Distinct(Range(k, len))
  {
    DistinctFromPositions(Range(k, len));
  }

  /** The numbered tree's ids are 0 .. n-1 for its n nodes, hence distinct:
      the uniqueness the lookup by id relies on. */
  lemma NumberedTreeIds(root: Node)
    ensures AllIds([Number(root)]) == Range(0, |AllIds([root])|)
    ensures UniqueIds(Number(root))
  {
    NumberedIds([root], 0);
    assert NumberList([root], 0) == [Number(root)];
    DistinctRange(0, |AllIds([root])|);
  }

  /** Each node's id is the number of nodes before it in pre-order. */
  lemma NumberedPosition(root: Node, i: int)
    requires 0 <= i < |PreOrder(Number(root))|
    ensures PreOrder(Number(root))[i].id == i
  {
    NumberedTreeIds(root);
    AllIdsArePreOrderIds([Number(root)]);
  }

  /** The root is written before the descent, so it gets 0; a root with
      children passes 1 to its first child, the id the focus handler of the
      tree assumes for the first item (Tree.tsx:660). */
  lemma NumberedRootAndFirstChild(root: Node)
    ensures Number(root).id == 0
    ensures HasKids(root) ==> HasKids(Number(root)) && Kids(Number(root))[0].id == 1
    ensures |Kids(Number(root))| == |Kids(root)|
  {
    NumberingKeepsShape([root], 0);
    if root.children.Present? {
      NumberingKeepsShape(root.children.nodes, 1);
    }
  }

  /** For a numbered tree with children, the first rendered item is the node
      with id 1 whatever is open, the lookup for id 1 returns it, and the
      root's id 0 is never rendered. */
  lemma NumberedFirstItem(root: Node, open: seq<int>)
    requires HasKids(root)
    ensures var t := Number(root);
            && Visible(t, open) != [] && Visible(t, open)[0] == 1
            && Find(t, 1) == Some(Kids(t)[0])
            && 0 !in Visible(t, open)
  {
    var t := Number(root);
    NumberedRootAndFirstChild(root);
    NumberedTreeIds(root);
    BelowRoot(t);
    var first := Kids(t)[0];
    assert first in PreOrderList(Kids(t)) by {
      PreOrderCons(Kids(t));
    }
    VisibleCons(Kids(t), open);
    if 0 in Visible(t, open) {
      VisibleAmongIds(Kids(t), open, 0);
    }
  }

  /** In a numbered tree with children, entering the tree at its first item
      focuses the first child, which is rendered, whatever is open: the
      hard-coded id 1 of `handleFocus` is right for numbered trees. */
  lemma NumberedFocusEnter(root: Node, nav: Nav)
    requires HasKids(root)
    ensures var t := Number(root);
            && FocusEnter(t, nav).focused == Some(Kids(t)[0])
            && Shown(t, FocusEnter(t, nav)) && Consistent(t, FocusEnter(t, nav))
  {
    NumberedFirstItem(root, nav.open);
    FocusEnterShown(Number(root), nav);
  }

  /** The heap object the helper mutates: `id` is written, the rest is
      read-only here. `children` holds the elements of the `children` array
      when the field is present. */
  class TreeObject {
    var id: int
    const value: string
    const hasChildrenField: bool
    const children: seq<TreeObject>
    ghost const Repr: set<object>

    /** The objects form a tree: every child's objects are inside this
        object's and no two children share one. */
    ghost predicate Valid()
      decreases Repr
    {
      && this in Repr
      && (!hasChildrenField ==> children == [])
      && (forall c :: c in children ==> c in Repr && c.Repr <= Repr && this !in c.Repr && c.Valid())
      && (forall i, j :: 0 <= i < j < |children| ==> children[i].Repr !! children[j].Repr)
    }

    constructor (value: string, hasChildrenField: bool, children: seq<TreeObject>)
      requires !hasChildrenField ==> children == []
      requires forall c :: c in children ==> c.Valid()
      requires forall i, j :: 0 <= i < j < |children| ==> children[i].Repr !! children[j].Repr
      ensures Valid() && fresh(Repr - ChildReprs(children))
      ensures this.value == value && this.hasChildrenField == hasChildrenField && this.children == children
    {
      this.id := 0;
      this.value := value;
      this.hasChildrenField := hasChildrenField;
      this.children := children;
      this.Repr := {this} + ChildReprs(children);
      new;
      ChildReprsCover(children);
    }

    /** The value this object stands for. */
    ghost function Abs(): Node
      requires Valid()
      reads Repr
      decreases Repr, |children| + 1
    {
      Node(id, value, if hasChildrenField then Present(KidsFrom(0)) else Absent)
    }

    /** The values of `children[i..]`. */
    ghost function KidsFrom(i: nat): (r: seq<Node>)
      requires Valid() && i <= |children|
      reads Repr
      ensures |r| == |children| - i
      ensures forall j :: i <= j < |children| ==> r[j - i] == children[j].Abs()
      decreases Repr, |children| - i
    {
      if i == |children| then []
      else [children[i].Abs()] + KidsFrom(i + 1)
    }

    /** `traverseTreeNodes(node)`: writes the counter into `id`, increments
        it, then visits the children. */
    method Traverse(counter: int) returns (next: int)
      requires Valid()
      modifies Repr
      ensures Abs() == NumberList([old(Abs())], counter)[0]
      ensures next == counter + |AllIds([old(Abs())])|
      decreases Repr, 1
    {
      ghost var ks := KidsFrom(0);
      ghost var before := Abs();
      id := counter;
      next := counter + 1;
      if |children| > 0 {
        next := VisitChildren(next, ks);
      }
      ghost var now := KidsFrom(0);
      NumberingKeepsShape(ks, counter + 1);
      assert now == NumberList(ks, counter + 1) by {
        forall j | 0 <= j < |children|
          ensures now[j] == NumberList(ks, counter + 1)[j]
        {
          assert now[j - 0] == children[j].Abs();
        }
      }
      assert |AllIds([before])| == 1 + |AllIds(ks)| by {
        assert AllIds([before]) == [before.id] + (if hasChildrenField then AllIds(ks) else []) + AllIds([]);
      }
    }

    /** The `for` loop of `traverseTreeNodes` over the children, the shared
        counter passed along. Its `!result` guard never stops it, because
        the callee returns nothing. `ks` are the children's values before. */
    method VisitChildren(start: int, ghost ks: seq<Node>) returns (next: int)
      requires Valid() && |ks| == |children|
      requires forall j :: 0 <= j < |children| ==> children[j].Abs() == ks[j]
      modifies Repr - {this}
      ensures forall j :: 0 <= j < |children| ==> children[j].Abs() == NumberList(ks, start)[j]
      ensures next == start + |AllIds(ks)|
      decreases Repr, 0
    {
      next := start;
      var i := 0;
      NumberingKeepsShape(ks, start);
      while i < |children|
        invariant 0 <= i <= |children|
        invariant next == start + |AllIds(ks[..i])|
        invariant forall j :: 0 <= j < i ==> children[j].Abs() == NumberList(ks, start)[j]
        invariant forall j :: i <= j < |children| ==> children[j].Abs() == ks[j]
      {
        NumberListAt(ks, start, i);
        AllIdsConcat(ks[..i], [ks[i]]);
        assert ks[..i + 1] == ks[..i] + [ks[i]];
        assert forall j :: 0 <= j < |children| && j != i ==> children[j].Repr !! children[i].Repr;
        next := children[i].Traverse(next);
        i := i + 1;
      }
      assert ks[..i] == ks;
    }
  }

  /** The objects of every tree of `cs`. */
  ghost function ChildReprs(cs: seq<TreeObject>): set<object> {
    if cs == [] then {} else cs[0].Repr + ChildReprs(cs[1..])
  }

  lemma ChildReprsCover(cs: seq<TreeObject>)
    ensures forall c :: c in cs ==> c.Repr <= ChildReprs(cs)
  {
  }

  /** The `j`-th tree of a numbered forest is that tree numbered from the
      count of the nodes before it. */
  lemma {:induction false} NumberListAt(ns: seq<Node>, k: int, j: int)
    requires 0 <= j < |ns|
    ensures |NumberList(ns, k)| == |ns|
    ensures NumberList(ns, k)[j] == NumberList([ns[j]], k + |AllIds(ns[..j])|)[0]
    decreases ns
  {
    NumberingKeepsShape(ns, k);
    if j > 0 {
      NumberListAt(ns[1..], k + |AllIds([ns[0]])|, j - 1);
      assert ns[..j] == [ns[0]] + ns[1..][..j - 1];
      AllIdsConcat([ns[0]], ns[1..][..j - 1]);
    }
  }

  /** `addIdAttributesToTreeNodes(data)`: numbers the caller's tree in place
      from 0 and returns the same object. */
  method AddIdAttributesToTreeNodes(data: TreeObject) returns (r: TreeObject)
    requires data.Valid()
    modifies data.Repr
    ensures r == data
    ensures r.Abs() == Number(old(data.Abs()))
  {
    var uniqueId := 0;
    uniqueId := data.Traverse(uniqueId);
    r := data;
  }
}
