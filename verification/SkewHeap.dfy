/** `skew_heap.h` on the heap: entries with three pointers that the operations overwrite
    in place.  The ghost trees say which object graph the pointers form. */
module SkewHeap {
  import opened SkewTrees
  import Cost = SkewCost

  /** struct skew_heap_entry */
  class Entry {
    var parent: Entry?
    var left: Entry?
    var right: Entry?

    constructor ()
      ensures left == right == parent == null
    {
      left, right, parent := null, null, null;
    }

    /** skew_heap_init */
    method Init()
      modifies this
      ensures left == right == parent == null
    {
      left, right, parent := null, null, null;
    }
  }

  /** A comparison callback as C has it: it may read memory. */
  type Callback = (Entry, Entry) ~> int

  /** It reads no links, and its answer is that of the function comp. */
  ghost predicate Answers(cmp: Callback, comp: Comparator<Entry>, x: Entry, y: Entry)
    reads *
  {
    && cmp.requires(x, y) && cmp(x, y) == comp(x, y)
    && forall o | o in cmp.reads(x, y) :: !(o is Entry)
  }

  /** On s, what cmp finds in memory now makes it the function comp. */
  ghost predicate Computes(cmp: Callback, comp: Comparator<Entry>, s: set<Entry>)
    reads *
  {
    forall x, y | x in s && y in s :: Answers(cmp, comp, x, y)
  }

  function RootOf(t: Tree<Entry>): Entry? {
    if t.Empty? then null else t.root
  }

  /** The three pointers an entry must hold in the graph of t, when the root of t hangs
      from `up`. */
  datatype Links = Links(parent: Entry?, left: Entry?, right: Entry?)

  ghost function LinksOf(t: Tree<Entry>, x: Entry, up: Entry?): Links
    requires x in Nodes(t)
  {
    if t.root == x then Links(up, RootOf(t.left), RootOf(t.right))
    else LinksOf(if x in Nodes(t.left) then t.left else t.right, x, t.root)
  }

  ghost predicate Holds(x: Entry, links: Links)
    reads x
  {
    x.parent == links.parent && x.left == links.left && x.right == links.right
  }

  /** The pointers in the nodes of t are exactly the edges of t, in both directions. */
  ghost predicate Linked(t: Tree<Entry>, up: Entry?)
    reads Nodes(t)
  {
    forall x {:trigger LinksOf(t, x, up)} | x in Nodes(t) :: Holds(x, LinksOf(t, x, up))
  }

  function Up(x: Entry?): Entry?
    reads x
  {
    if x == null then null else x.parent
  }

  /** What a user of the heap holds: a root pointer to an ordered tree. */
  ghost predicate Valid(root: Entry?, t: Tree<Entry>, comp: Comparator<Entry>)
    reads Nodes(t)
  {
    root == RootOf(t) && Distinct(t) && Linked(t, null) && Ordered(t, comp)
  }

  /** Frames speak of allocated entries only; those of a tree are. */
  lemma {:induction false} NodesAllocated(t: Tree<Entry>)
    ensures forall x | x in Nodes(t) :: allocated(x)
  {
    match t
    case Empty =>
    case Branch(_, l, r) =>
      NodesAllocated(l);
      NodesAllocated(r);
  }

  lemma LinkedChildren(t: Tree<Entry>, up: Entry?)
    requires t.Branch? && Distinct(t) && Linked(t, up)
    ensures t.root.parent == up && t.root.left == RootOf(t.left) && t.root.right == RootOf(t.right)
    ensures Linked(t.left, t.root) && Linked(t.right, t.root)
    ensures Up(RootOf(t.left)) == (if t.left.Branch? then t.root else null)
    ensures Up(RootOf(t.right)) == (if t.right.Branch? then t.root else null)
  {
    assert Holds(t.root, LinksOf(t, t.root, up));
    forall x | x in Nodes(t.left) + Nodes(t.right)
      ensures Holds(x, LinksOf(if x in Nodes(t.left) then t.left else t.right, x, t.root))
    {
      assert Holds(x, LinksOf(t, x, up));
    }
    if t.left.Branch? { assert Holds(t.left.root, LinksOf(t.left, t.left.root, t.root)); }
    if t.right.Branch? { assert Holds(t.right.root, LinksOf(t.right, t.right.root, t.root)); }
  }

  lemma LinkedBranch(t: Tree<Entry>, up: Entry?)
    requires t.Branch? && Distinct(t)
    requires t.root.parent == up && t.root.left == RootOf(t.left) && t.root.right == RootOf(t.right)
    requires Linked(t.left, t.root) && Linked(t.right, t.root)
    ensures Linked(t, up)
  {
    forall x | x in Nodes(t) ensures Holds(x, LinksOf(t, x, up)) {
      if x in Nodes(t.left) {
        assert Holds(x, LinksOf(t.left, x, t.root));
      } else if x in Nodes(t.right) {
        assert Holds(x, LinksOf(t.right, x, t.root));
      }
    }
  }

  /** Hanging l, which has the edges of t, under `up`. */
  method Hang(l: Entry?, up: Entry?, ghost t: Tree<Entry>)
    requires l == RootOf(t) && Linked(t, Up(l))
    modifies if l == null then {} else {l}
    ensures Linked(t, up)
    ensures l != null ==> l.left == old(l.left) && l.right == old(l.right)
  {
    if l != null {
      ghost var was := l.parent;
      assert forall x | x in Nodes(t) :: Holds(x, LinksOf(t, x, was));
      l.parent := up;
      assert forall x | x in Nodes(t) && x != l :: Holds(x, LinksOf(t, x, was));
    }
  }

  /** The three stores that end a call of skew_heap_merge: l becomes the left child of
      x, and what was its left child becomes the right one. */
  method Attach(x: Entry, l: Entry?, r: Entry?, ghost tl: Tree<Entry>, ghost tr: Tree<Entry>)
    requires l == RootOf(tl) && Linked(tl, Up(l))
    requires r == RootOf(tr) && Linked(tr, x)
    requires Distinct(Branch(x, tl, tr))
    modifies x, if l == null then {} else {l}
    ensures Linked(Branch(x, tl, tr), x.parent) && x.parent == old(x.parent)
  {
    NodesAllocated(tl);
    NodesAllocated(tr);
    x.left := l;
    x.right := r;
    Hang(l, x, tl);
    LinkedBranch(Branch(x, tl, tr), x.parent);
  }

  /** skew_heap_merge.  Whatever the callback answers, the two trees end up merged; `calls`
      counts this call and all that it makes. */
  method MergeEntries(a: Entry?, b: Entry?, cmp: Callback, ghost comp: Comparator<Entry>,
                      ghost ta: Tree<Entry>, ghost tb: Tree<Entry>)
    returns (m: Entry?, ghost calls: nat)
    requires Computes(cmp, comp, Nodes(ta) + Nodes(tb))
    requires a == RootOf(ta) && Distinct(ta) && Linked(ta, Up(a))
    requires b == RootOf(tb) && Distinct(tb) && Linked(tb, Up(b))
    requires Nodes(ta) !! Nodes(tb)
    modifies Nodes(ta) + Nodes(tb)
    ensures m == RootOf(Merge(ta, tb, comp)) && Linked(Merge(ta, tb, comp), Up(m))
    ensures m != null ==> m in Nodes(ta) + Nodes(tb) && m.parent == old(m.parent)
    ensures calls == Cost.Calls(ta, tb, comp)
    decreases Size(ta) + Size(tb)
  {
    if a == null {
      return b, 1;
    } else if b == null {
      return a, 1;
    }
    var l, r;
    NodesAllocated(ta);
    NodesAllocated(tb);
    assert Answers(cmp, comp, a, b);
    if cmp(a, b) == -1 {
      LinkedChildren(ta, a.parent);
      MergeNodes(ta.right, tb, comp);
      MergeDistinct(ta, tb, comp);
      r := a.left;
      l, calls := MergeEntries(a.right, b, cmp, comp, ta.right, tb);
      Attach(a, l, r, Merge(ta.right, tb, comp), ta.left);
      return a, calls + 1;
    } else {
      LinkedChildren(tb, b.parent);
      MergeNodes(ta, tb.right, comp);
      MergeDistinct(ta, tb, comp);
      r := b.left;
      l, calls := MergeEntries(a, b.right, cmp, comp, ta, tb.right);
      Attach(b, l, r, Merge(ta, tb.right, comp), tb.left);
      return b, calls + 1;
    }
  }

  /** skew_heap_insert */
  method Insert(a: Entry?, b: Entry, cmp: Callback, ghost comp: Comparator<Entry>, ghost t: Tree<Entry>)
    returns (root: Entry?, ghost calls: nat)
    requires Computes(cmp, comp, Nodes(t) + {b})
    requires Valid(a, t, comp) && b !in Nodes(t)
    requires StrictWeakOrder(comp, Nodes(t) + {b})
    modifies Nodes(t), b
    ensures var t' := Merge(t, Branch(b, Empty, Empty), comp);
      Valid(root, t', comp) && Nodes(t') == Nodes(t) + {b}
    ensures calls == Cost.Calls(t, Branch(b, Empty, Empty), comp)
    ensures Computes(cmp, comp, Nodes(t) + {b})
  {
    NodesAllocated(t);
    b.Init();
    assert forall x, y | x in Nodes(t) + {b} && y in Nodes(t) + {b} :: Answers(cmp, comp, x, y);
    assert Linked(t, null);
    InsertFacts(t, b, comp);
    ghost var single := Branch(b, Empty, Empty);
    assert Nodes(single) == {b};
    assert a != null ==> Holds(a, LinksOf(t, a, null));
    root, calls := MergeEntries(a, b, cmp, comp, t, single);
    forall x, y | x in Nodes(t) + {b} && y in Nodes(t) + {b} ensures Answers(cmp, comp, x, y) {
      assert old(Answers(cmp, comp, x, y));
    }
  }

  lemma {:induction false} ParentInTree(t: Tree<Entry>, b: Entry, up: Entry?)
    requires Distinct(t) && b in Nodes(t) && t.root != b
    ensures var p := LinksOf(t, b, up).parent;
      p != null && p in Nodes(t) && p !in Nodes(Subtree(t, b))
      && (LinksOf(t, p, up).left == b || LinksOf(t, p, up).right == b)
  {
    SubtreeFacts(t, b);
    var c := if b in Nodes(t.left) then t.left else t.right;
    if c.root == b {
    } else {
      ParentInTree(c, b, t.root);
    }
  }

  lemma {:induction false} SubtreeLinked(t: Tree<Entry>, b: Entry, up: Entry?)
    requires Distinct(t) && Linked(t, up) && b in Nodes(t)
    ensures Linked(Subtree(t, b), b.parent)
  {
    LinkedChildren(t, up);
    if t.root == b {
    } else {
      SubtreeLinked(if b in Nodes(t.left) then t.left else t.right, b, t.root);
    }
  }

  /** The splice: the links of x after b is cut out, in terms of the links before. */
  ghost function Spliced(t: Tree<Entry>, b: Entry, comp: Comparator<Entry>, up: Entry?, x: Entry): Links
    requires b in Nodes(t) && x in Nodes(t)
  {
    var s := Subtree(t, b);
    var m := Merge(s.left, s.right, comp);
    var p := LinksOf(t, b, up).parent;
    var before := LinksOf(t, x, up);
    if x in Nodes(m) then LinksOf(m, x, p)
    else if x != p then before
    else if before.left == b then before.(left := RootOf(m))
    else before.(right := RootOf(m))
  }

  lemma {:induction false} DeleteLinks(t: Tree<Entry>, b: Entry, comp: Comparator<Entry>, up: Entry?, x: Entry)
    requires Distinct(t) && b in Nodes(t) && x in Nodes(t) && x != b
    ensures x in Nodes(Delete(t, b, comp))
    ensures LinksOf(Delete(t, b, comp), x, up) == Spliced(t, b, comp, up, x)
  {
    DeleteNodes(t, b, comp);
    if t.root == b {
    } else {
      var c := if b in Nodes(t.left) then t.left else t.right;
      if x in Nodes(c) {
        DeleteLinks(c, b, comp, t.root, x);
        DeleteNodes(c, b, comp);
      } else {
        LinksAside(t, c, b, comp, up, x);
      }
    }
  }

  /** An entry outside the child of the root that holds b. */
  lemma LinksAside(t: Tree<Entry>, c: Tree<Entry>, b: Entry, comp: Comparator<Entry>, up: Entry?, x: Entry)
    requires Distinct(t) && b in Nodes(t) && t.root != b && x in Nodes(t) && x !in Nodes(c)
    requires c == if b in Nodes(t.left) then t.left else t.right
    ensures x in Nodes(Delete(t, b, comp))
    ensures LinksOf(Delete(t, b, comp), x, up) == Spliced(t, b, comp, up, x)
  {
    var s := Subtree(t, b);
    assert s == Subtree(c, b);
    MergeNodes(s.left, s.right, comp);
    SubtreeFacts(c, b);
    DeleteNodes(t, b, comp);
    DeleteNodes(c, b, comp);
    assert x !in Nodes(Merge(s.left, s.right, comp));
    if c.root != b {
      ParentInTree(c, b, t.root);
      assert x != LinksOf(t, b, up).parent;
    } else {
      assert LinksOf(t, b, up).parent == t.root;
      assert t.left.Branch? ==> t.left.root in Nodes(t.left);
      assert RootOf(t.left) == b <==> c == t.left;
    }
  }

  /** skew_heap_remove.  It walks up one parent link and down b's subtrees; nothing
      else in the heap is written.  b is never compared: the heap was ordered by `was`, and
      what its keys are now need agree with that on the other entries only. */
  method Remove(a: Entry, b: Entry, cmp: Callback, ghost comp: Comparator<Entry>,
                ghost t: Tree<Entry>, ghost was: Comparator<Entry>)
    returns (root: Entry?, ghost calls: nat)
    requires Computes(cmp, comp, Nodes(t) - {b})
    requires Valid(a, t, was) && b in Nodes(t)
    requires StrictWeakOrder(was, Nodes(t)) && Agree(was, comp, Nodes(t) - {b})
    modifies Nodes(Subtree(t, b)) - {b}, set p: Entry | p in Nodes(t) && p == b.parent
    ensures Valid(root, Delete(t, b, comp), comp) && Nodes(Delete(t, b, comp)) == Nodes(t) - {b}
    ensures calls == Cost.RemoveCalls(t, b, comp)
    ensures Computes(cmp, comp, Nodes(t) - {b}) && StrictWeakOrder(comp, Nodes(t) - {b})
  {
    DeleteNodes(t, b, comp);
    DeleteReordered(t, b, was, comp);
    NodesAllocated(t);
    root, calls := Unlink(a, b, cmp, comp, t);
    forall x, y | x in Nodes(t) - {b} && y in Nodes(t) - {b} ensures Answers(cmp, comp, x, y) {
      assert old(Answers(cmp, comp, x, y));
    }
  }

  /** The pointer work of skew_heap_remove. */
  method Unlink(a: Entry, b: Entry, cmp: Callback, ghost comp: Comparator<Entry>, ghost t: Tree<Entry>)
    returns (root: Entry?, ghost calls: nat)
    requires Computes(cmp, comp, Nodes(t) - {b})
    requires a == RootOf(t) && Distinct(t) && Linked(t, null) && b in Nodes(t)
    modifies Nodes(Subtree(t, b)) - {b}, set p: Entry | p in Nodes(t) && p == b.parent
    ensures root == RootOf(Delete(t, b, comp)) && Linked(Delete(t, b, comp), null)
    ensures calls == Cost.RemoveCalls(t, b, comp)
  {
    ghost var s, d := Subtree(t, b), Delete(t, b, comp);
    ghost var m := Merge(s.left, s.right, comp);
    NodesAllocated(t);
    SubtreeFacts(t, b);
    SubtreeLinked(t, b, null);
    LinkedChildren(s, b.parent);
    DeleteNodes(t, b, comp);
    MergeNodes(s.left, s.right, comp);
    assert Holds(b, LinksOf(t, b, null));
    if t.root != b {
      ParentInTree(t, b, null);
      assert Holds(b.parent, LinksOf(t, b.parent, null));
    }

    var p := b.parent;
    var rep;
    rep, calls := MergeEntries(b.left, b.right, cmp, comp, s.left, s.right);
    Hang(rep, p, m);
    if p != null {
      if p.left == b {
        p.left := rep;
      } else {
        p.right := rep;
      }
      root := a;
    } else {
      root := rep;
    }

    forall x | x in Nodes(d) ensures Holds(x, LinksOf(d, x, null)) {
      DeleteLinks(t, b, comp, null, x);
      if x in Nodes(m) {
        assert Holds(x, LinksOf(m, x, p));
      } else {
        assert x != p ==> Holds(x, LinksOf(t, x, null));
      }
    }
  }
}
