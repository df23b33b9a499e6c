/** The values a skew heap denotes: binary trees of entries, with the merge and the
    deletion that `skew_heap_merge` and `skew_heap_remove` perform on them. */
module SkewTrees {

  datatype Tree<T> = Empty | Branch(root: T, left: Tree<T>, right: Tree<T>)

  /** A comparison callback.  The heap only ever tests whether it returned -1. */
  type Comparator<!T> = (T, T) -> int

  predicate Less<T>(comp: Comparator<T>, x: T, y: T) {
    comp(x, y) == -1
  }

  /** "Returned -1" is a strict weak order on s: it comes from some total preorder. */
  ghost predicate StrictWeakOrder<T>(comp: Comparator<T>, s: set<T>) {
    && (forall x, y {:trigger Less(comp, x, y)} | x in s && y in s :: Less(comp, x, y) ==> !Less(comp, y, x))
    && (forall x, y, z {:trigger Less(comp, x, y), Less(comp, y, z)} | x in s && y in s && z in s ::
          !Less(comp, x, y) && !Less(comp, y, z) ==> !Less(comp, x, z))
  }

  /** The two comparisons tell the same entries of s less than which others. */
  ghost predicate Agree<T>(c: Comparator<T>, d: Comparator<T>, s: set<T>) {
    forall x, y | x in s && y in s :: Less(c, x, y) <==> Less(d, x, y)
  }

  function Size<T>(t: Tree<T>): nat {
    match t
    case Empty => 0
    case Branch(_, l, r) => 1 + Size(l) + Size(r)
  }

  ghost function Nodes<T>(t: Tree<T>): set<T> {
    match t
    case Empty => {}
    case Branch(x, l, r) => {x} + Nodes(l) + Nodes(r)
  }

  /** No entry is reachable along two ways: the shape is a tree, not a DAG or a cycle. */
  ghost predicate Distinct<T>(t: Tree<T>) {
    match t
    case Empty => true
    case Branch(x, l, r) =>
      && x !in Nodes(l) && x !in Nodes(r) && Nodes(l) !! Nodes(r)
      && Distinct(l) && Distinct(r)
  }

  /** Heap order between each entry and its children. */
  ghost predicate Ordered<T>(t: Tree<T>, comp: Comparator<T>) {
    match t
    case Empty => true
    case Branch(x, l, r) =>
      && (l.Branch? ==> !Less(comp, l.root, x))
      && (r.Branch? ==> !Less(comp, r.root, x))
      && Ordered(l, comp) && Ordered(r, comp)
  }

  function Merge<T>(a: Tree<T>, b: Tree<T>, comp: Comparator<T>): Tree<T>
    decreases Size(a) + Size(b)
  {
    if a.Empty? then b
    else if b.Empty? then a
    else if Less(comp, a.root, b.root) then
      Branch(a.root, Merge(a.right, b, comp), a.left)
    else
      Branch(b.root, Merge(a, b.right, comp), b.left)
  }

  /** The subtree hanging from x. */
  ghost function Subtree<T>(t: Tree<T>, x: T): (s: Tree<T>)
    requires x in Nodes(t)
    ensures s.Branch? && s.root == x
  {
    if t.root == x then t
    else if x in Nodes(t.left) then Subtree(t.left, x)
    else Subtree(t.right, x)
  }

  /** t with x cut out and x's two subtrees merged into its place. */
  ghost function Delete<T>(t: Tree<T>, x: T, comp: Comparator<T>): Tree<T>
    requires x in Nodes(t)
  {
    if t.root == x then Merge(t.left, t.right, comp)
    else if x in Nodes(t.left) then t.(left := Delete(t.left, x, comp))
    else t.(right := Delete(t.right, x, comp))
  }

  // ---------- merge ----------

  lemma {:induction false} MergeNodes<T>(a: Tree<T>, b: Tree<T>, comp: Comparator<T>)
    ensures Nodes(Merge(a, b, comp)) == Nodes(a) + Nodes(b)
    ensures Size(Merge(a, b, comp)) == Size(a) + Size(b)
    decreases Size(a) + Size(b)
  {
    if a.Empty? || b.Empty? {
    } else {
      if Less(comp, a.root, b.root) {
        MergeNodes(a.right, b, comp);
      } else {
        MergeNodes(a, b.right, comp);
      }
    }
  }

  lemma {:induction false} MergeDistinct<T>(a: Tree<T>, b: Tree<T>, comp: Comparator<T>)
    requires Distinct(a) && Distinct(b) && Nodes(a) !! Nodes(b)
    ensures Distinct(Merge(a, b, comp))
    decreases Size(a) + Size(b)
  {
    if a.Empty? || b.Empty? {
    } else {
      if Less(comp, a.root, b.root) {
        MergeDistinct(a.right, b, comp);
        MergeNodes(a.right, b, comp);
      } else {
        MergeDistinct(a, b.right, comp);
        MergeNodes(a, b.right, comp);
      }
    }
  }

  lemma {:induction false} MergeOrdered<T>(a: Tree<T>, b: Tree<T>, comp: Comparator<T>)
    requires StrictWeakOrder(comp, Nodes(a) + Nodes(b))
    requires Ordered(a, comp) && Ordered(b, comp)
    ensures Ordered(Merge(a, b, comp), comp)
    decreases Size(a) + Size(b)
  {
    if a.Empty? || b.Empty? {
    } else {
      assert a.root in Nodes(a) && b.root in Nodes(b);
      if Less(comp, a.root, b.root) {
        MergeOrdered(a.right, b, comp);
        assert Merge(a.right, b, comp).root == b.root
            || (a.right.Branch? && Merge(a.right, b, comp).root == a.right.root);
      } else {
        MergeOrdered(a, b.right, comp);
        assert Merge(a, b.right, comp).root == a.root
            || (b.right.Branch? && Merge(a, b.right, comp).root == b.right.root);
      }
    }
  }

  lemma InsertFacts<T>(t: Tree<T>, x: T, comp: Comparator<T>)
    requires Distinct(t) && Ordered(t, comp) && x !in Nodes(t)
    requires StrictWeakOrder(comp, Nodes(t) + {x})
    ensures var t' := Merge(t, Branch(x, Empty, Empty), comp);
      Nodes(t') == Nodes(t) + {x} && Distinct(t') && Ordered(t', comp)
  {
    var single := Branch(x, Empty, Empty);
    assert Nodes(single) == {x};
    MergeNodes(t, single, comp);
    MergeDistinct(t, single, comp);
    MergeOrdered(t, single, comp);
  }

  // ---------- deletion ----------

  lemma {:induction false} SubtreeFacts<T>(t: Tree<T>, x: T)
    requires x in Nodes(t) && Distinct(t)
    ensures var s := Subtree(t, x);
      && Distinct(s) && Nodes(s) <= Nodes(t) && Size(s) <= Size(t)
      && (x != t.root ==> t.root !in Nodes(s))
  {
    if t.root == x {
    } else {
      if x in Nodes(t.left) {
        SubtreeFacts(t.left, x);
      } else {
        SubtreeFacts(t.right, x);
      }
    }
  }

  lemma {:induction false} DeleteNodes<T>(t: Tree<T>, x: T, comp: Comparator<T>)
    requires x in Nodes(t) && Distinct(t)
    ensures Nodes(Delete(t, x, comp)) == Nodes(t) - {x}
    ensures Size(Delete(t, x, comp)) == Size(t) - 1
    ensures Distinct(Delete(t, x, comp))
  {
    if t.root == x {
      MergeNodes(t.left, t.right, comp);
      MergeDistinct(t.left, t.right, comp);
    } else if x in Nodes(t.left) {
      DeleteNodes(t.left, x, comp);
    } else {
      DeleteNodes(t.right, x, comp);
    }
  }

  /** What replaces the root of t when x goes is the old root, or one of x's children. */
  lemma {:induction false} DeleteOrdered<T>(t: Tree<T>, x: T, comp: Comparator<T>)
    requires x in Nodes(t)
    requires StrictWeakOrder(comp, Nodes(t)) && Ordered(t, comp)
    ensures Ordered(Delete(t, x, comp), comp)
    ensures Delete(t, x, comp).Branch? ==>
              && Delete(t, x, comp).root in Nodes(t)
              && !Less(comp, Delete(t, x, comp).root, t.root)
  {
    if t.root == x {
      MergeOrdered(t.left, t.right, comp);
      var m := Merge(t.left, t.right, comp);
      assert m.Branch? ==> (t.left.Branch? && m.root == t.left.root) || (t.right.Branch? && m.root == t.right.root);
    } else {
      var c := if x in Nodes(t.left) then t.left else t.right;
      DeleteOrdered(c, x, comp);
      assert c.root in Nodes(t) && t.root in Nodes(t);
      assert !Less(comp, t.root, t.root);
    }
  }

  // ---------- comparisons that change ----------

  lemma OrderAgrees<T>(c: Comparator<T>, d: Comparator<T>, s: set<T>)
    requires StrictWeakOrder(c, s) && Agree(c, d, s)
    ensures StrictWeakOrder(d, s)
  {
  }

  lemma {:induction false} OrderedAgrees<T>(t: Tree<T>, c: Comparator<T>, d: Comparator<T>)
    requires Ordered(t, c) && Agree(c, d, Nodes(t))
    ensures Ordered(t, d)
  {
    if t.Empty? {
    } else {
      assert t.root in Nodes(t);
      OrderedAgrees(t.left, c, d);
      OrderedAgrees(t.right, c, d);
    }
  }

  lemma {:induction false} MergeAgrees<T>(a: Tree<T>, b: Tree<T>, c: Comparator<T>, d: Comparator<T>)
    requires Agree(c, d, Nodes(a) + Nodes(b))
    ensures Merge(a, b, c) == Merge(a, b, d)
    decreases Size(a) + Size(b)
  {
    if a.Empty? || b.Empty? {
    } else {
      assert a.root in Nodes(a) && b.root in Nodes(b);
      if Less(c, a.root, b.root) {
        MergeAgrees(a.right, b, c, d);
      } else {
        MergeAgrees(a, b.right, c, d);
      }
    }
  }

  lemma {:induction false} DeleteAgrees<T>(t: Tree<T>, x: T, c: Comparator<T>, d: Comparator<T>)
    requires x in Nodes(t) && Distinct(t) && Agree(c, d, Nodes(t) - {x})
    ensures Delete(t, x, c) == Delete(t, x, d)
  {
    if t.root == x {
      MergeAgrees(t.left, t.right, c, d);
    } else if x in Nodes(t.left) {
      DeleteAgrees(t.left, x, c, d);
    } else {
      DeleteAgrees(t.right, x, c, d);
    }
  }

  /** An entry whose key has changed in any way since t was ordered leaves an ordered heap
      when it goes: its key is never looked at. */
  lemma DeleteReordered<T>(t: Tree<T>, x: T, c: Comparator<T>, d: Comparator<T>)
    requires x in Nodes(t) && Distinct(t)
    requires StrictWeakOrder(c, Nodes(t)) && Ordered(t, c)
    requires Agree(c, d, Nodes(t) - {x})
    ensures Ordered(Delete(t, x, d), d) && StrictWeakOrder(d, Nodes(t) - {x})
  {
    DeleteOrdered(t, x, c);
    DeleteAgrees(t, x, c, d);
    DeleteNodes(t, x, c);
    OrderedAgrees(Delete(t, x, c), c, d);
    OrderAgrees(c, d, Nodes(t) - {x});
  }

  // ---------- the root ----------

  lemma {:induction false} RootIsMinimum<T>(t: Tree<T>, comp: Comparator<T>)
    requires t.Branch? && Ordered(t, comp) && StrictWeakOrder(comp, Nodes(t))
    ensures t.root in Nodes(t)
    ensures forall x | x in Nodes(t) :: !Less(comp, x, t.root)
  {
    forall x | x in Nodes(t)
      ensures !Less(comp, x, t.root)
    {
      if x in Nodes(t.left) {
        RootIsMinimum(t.left, comp);
      } else if x in Nodes(t.right) {
        RootIsMinimum(t.right, comp);
      }
    }
  }
}
