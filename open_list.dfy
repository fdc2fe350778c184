/** The list of expanded node ids (`openTreeItemIds`, Tree.tsx:79) and its one
    mutation, `handleSetOpenTreeItemIds` (Tree.tsx:137-151). It is a list, not
    a set: the same id may be listed more than once. */
module OpenList {
  import opened Seqs

  /** `copy.splice(start, 1)`: removes the element at `start`, where a
      negative start counts back from the end and a start past the end
      removes nothing. */
  function SpliceOne(s: seq<int>, start: int): seq<int> {
    var i := if start < 0 then (if |s| + start < 0 then 0 else |s| + start) else start;
    if i < |s| then s[..i] + s[i + 1..] else s
  }

  /** `handleSetOpenTreeItemIds(id, isOpen)`: when the caller says the id is
      open, the entry at `indexOf(id)` is spliced out; otherwise the id is
      pushed at the end. */
  function Toggled(open: seq<int>, id: int, isOpen: bool): seq<int> {
    if isOpen then SpliceOne(open, IndexOf(open, id)) else open + [id]
  }

  lemma SplitAt(s: seq<int>, i: int)
    requires 0 <= i < |s|
    ensures s == s[..i] + [s[i]] + s[i + 1..]
  {
  }

  /** Dropping one occurrence of `id` leaves the other entries as they were. */
  lemma DropOneWithout(a: seq<int>, b: seq<int>, id: int)
    ensures Without(a + [id] + b, id) == Without(a + b, id)
  {
    WithoutConcat(a + [id], b, id);
    WithoutConcat(a, [id], id);
    assert Without([id], id) == [];
    WithoutConcat(a, b, id);
    assert Without(a + [id], id) == Without(a, id);
  }

  lemma DropOneCount(a: seq<int>, b: seq<int>, id: int)
    ensures Count(a + [id] + b, id) == Count(a + b, id) + 1
  {
    calc {
      Count(a + [id] + b, id);
      { CountConcat(a + [id], b, id); }
      Count(a + [id], id) + Count(b, id);
      { CountConcat(a, [id], id); assert Count([id], id) == 1; }
      Count(a, id) + 1 + Count(b, id);
      { CountConcat(a, b, id); }
      Count(a + b, id) + 1;
    }
  }

  /** Closing a listed id removes exactly one of its occurrences. */
  lemma CloseRemovesOne(open: seq<int>, id: int)
    requires id in open
    ensures Without(Toggled(open, id, true), id) == Without(open, id)
    ensures Count(Toggled(open, id, true), id) == Count(open, id) - 1
  {
    var i := IndexOf(open, id);
    var a, b := open[..i], open[i + 1..];
    assert Toggled(open, id, true) == a + b;
    assert open == a + [id] + b by { SplitAt(open, i); }
    DropOneWithout(a, b, id);
    DropOneCount(a, b, id);
  }

  /** Opening appends one occurrence and leaves the other entries alone. */
  lemma OpenAddsOne(open: seq<int>, id: int)
    ensures Without(Toggled(open, id, false), id) == Without(open, id)
    ensures Count(Toggled(open, id, false), id) == Count(open, id) + 1
  {
    assert Without([id], id) == [] && Count([id], id) == 1;
    WithoutConcat(open, [id], id);
    CountConcat(open, [id], id);
  }

  /** Called as `confirmFocus` calls it, with `isOpen` equal to the current
      membership, the toggle removes one occurrence of `id` or appends one,
      and every other entry keeps its place relative to the others. While the
      id is listed at most once its membership flips. */
  lemma ToggleFlips(open: seq<int>, id: int)
    ensures Without(Toggled(open, id, id in open), id) == Without(open, id)
    ensures Count(Toggled(open, id, id in open), id) == if id in open then Count(open, id) - 1 else 1
    ensures Count(open, id) <= 1 ==> (id in Toggled(open, id, id in open) <==> id !in open)
  {
    if id in open {
      CloseRemovesOne(open, id);
    } else {
      OpenAddsOne(open, id);
    }
  }

  /** Toggling the same id twice restores which ids are open and the order of
      the others. */
  lemma ToggleTwiceRestores(open: seq<int>, id: int)
    requires Count(open, id) <= 1
    ensures var once := Toggled(open, id, id in open);
            var twice := Toggled(once, id, id in once);
            && (id in twice <==> id in open)
            && Without(twice, id) == Without(open, id)
  {
    var once := Toggled(open, id, id in open);
    ToggleFlips(open, id);
    ToggleFlips(once, id);
  }

  /** Opening a closed id and closing it again gives back the exact list. */
  lemma OpenThenCloseRestores(open: seq<int>, id: int)
    requires id !in open
    ensures Toggled(Toggled(open, id, false), id, true) == open
  {
    var once := open + [id];
    assert IndexOf(once, id) == |open| by {
      assert once[|open|] == id;
      assert once[..|open|] == open;
    }
    assert once[..|open|] == open;
  }

  /** The guard the callers keep: asked to close an id that is not listed,
      `splice(-1, 1)` drops the last entry instead. */
  lemma CloseAbsentDropsLast(open: seq<int>, id: int)
    requires id !in open && |open| > 0
    ensures Toggled(open, id, true) == open[..|open| - 1]
  {
  }

  /** A duplicated id (which `*` can produce) stays open after one close. */
  lemma CloseDuplicateStaysOpen(open: seq<int>, id: int)
    requires Count(open, id) >= 2
    ensures id in Toggled(open, id, id in open)
  {
    ToggleFlips(open, id);
  }

  /** Every id other than the toggled one keeps its membership. */
  lemma ToggleKeepsOthers(open: seq<int>, id: int, y: int)
    requires y != id
    ensures y in Toggled(open, id, id in open) <==> y in open
  {
    ToggleFlips(open, id);
    WithoutMembers(open, id, y);
    WithoutMembers(Toggled(open, id, id in open), id, y);
  }
}
