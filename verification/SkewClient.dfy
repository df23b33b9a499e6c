/** What any user of the skew heap holds: a root pointer that `skew_heap_insert` and
    `skew_heap_remove` keep up to date.  What is proved of runs on trees holds of it. */
module SkewClient {
  import opened SkewTrees
  import opened SkewCost
  import opened SkewHeap

  class Pool {
    var root: Entry?
    ghost var ops: seq<Op<Entry>>  // the run so far
    ghost var calls: nat           // of skew_heap_merge, so far

    ghost predicate Valid()
      reads this, Nodes(Outcome(ops))
    {
      && Legal(ops) && Coherent(ops)
      && SkewHeap.Valid(root, Outcome(ops), Current(ops))
      && calls == TotalCalls(ops)
    }

    constructor ()
      ensures Valid() && ops == []
    {
      root, ops, calls := null, [], 0;
    }

    /** At every point of every run: the root is a least live entry while the keys compare as
        the last operation found them, there is none just when nothing is live, and the
        calls made are within the amortised bound. */
    lemma Promise(comp: Comparator<Entry>, n: nat)
      requires Valid()
      ensures root == null <==> Live(ops) == {}
      ensures root != null ==> root in Live(ops)
      ensures root != null && Agree(Current(ops), comp, Live(ops)) ==> IsLeast(comp, Live(ops), root)
      ensures AtMostLive(ops, n) ==> calls <= |ops| * Budget(n)
    {
      RunKeepsNodes(ops);
      if Agree(Current(ops), comp, Live(ops)) {
        RunRootIsMinimum(ops, comp);
      }
      if AtMostLive(ops, n) {
        AmortisedBound(ops, n);
      }
    }

    /** The key of b may be anything; those of the live entries compare as before. */
    method Insert(b: Entry, cmp: Callback, ghost comp: Comparator<Entry>)
      requires Valid() && b !in Live(ops)
      requires Computes(cmp, comp, Live(ops) + {b})
      requires Agree(Current(ops), comp, Live(ops)) && StrictWeakOrder(comp, Live(ops) + {b})
      modifies this, Live(ops), b
      ensures Valid() && ops == old(ops) + [Op.Insert(b, comp)]
      ensures Live(ops) == old(Live(ops)) + {b} && Current(ops) == comp
    {
      OneMoreInsert(ops, b, comp);
      ghost var now;
      root, now := SkewHeap.Insert(root, b, cmp, comp, Outcome(ops));
      ops, calls := ops + [Op.Insert(b, comp)], calls + now;
    }

    /** The key of b may have changed; those of the entries that stay compare as before. */
    method Remove(b: Entry, cmp: Callback, ghost comp: Comparator<Entry>)
      requires Valid() && b in Live(ops)
      requires Computes(cmp, comp, Live(ops) - {b}) && Agree(Current(ops), comp, Live(ops) - {b})
      modifies this, Live(ops)
      ensures Valid() && ops == old(ops) + [Op.Remove(b, comp)]
      ensures Live(ops) == old(Live(ops)) - {b} && Current(ops) == comp
    {
      OneMoreRemove(ops, b, comp);
      var a: Entry := root;
      ghost var now;
      root, now := SkewHeap.Remove(a, b, cmp, comp, Outcome(ops), Current(ops));
      ops, calls := ops + [Op.Remove(b, comp)], calls + now;
    }
  }

  ghost predicate IsLeast(comp: Comparator<Entry>, s: set<Entry>, x: Entry) {
    forall y | y in s :: !Less(comp, y, x)
  }

  lemma OneMoreInsert(ops: seq<Op<Entry>>, b: Entry, comp: Comparator<Entry>)
    requires Legal(ops) && Coherent(ops) && b !in Live(ops)
    requires Agree(Current(ops), comp, Live(ops)) && StrictWeakOrder(comp, Live(ops) + {b})
    ensures var t, ops' := Outcome(ops), ops + [Op.Insert(b, comp)];
      && Nodes(t) == Live(ops) && Distinct(t) && Ordered(t, comp)
      && Legal(ops') && Coherent(ops')
      && Live(ops') == Live(ops) + {b} && Current(ops') == comp
      && Outcome(ops') == Merge(t, Branch(b, Tree.Empty, Tree.Empty), comp)
      && TotalCalls(ops') == TotalCalls(ops) + Calls(t, Branch(b, Tree.Empty, Tree.Empty), comp)
  {
    assert (ops + [Op.Insert(b, comp)])[..|ops|] == ops;
    assert Live(ops) - {b} == Live(ops);
    RunKeepsNodes(ops);
    RunKeepsOrder(ops);
    OrderedAgrees(Outcome(ops), Current(ops), comp);
  }

  lemma OneMoreRemove(ops: seq<Op<Entry>>, b: Entry, comp: Comparator<Entry>)
    requires Legal(ops) && Coherent(ops) && b in Live(ops)
    requires Agree(Current(ops), comp, Live(ops) - {b})
    ensures var t, ops' := Outcome(ops), ops + [Op.Remove(b, comp)];
      && Nodes(t) == Live(ops) && Distinct(t) && StrictWeakOrder(Current(ops), Nodes(t))
      && Nodes(Subtree(t, b)) <= Nodes(t)
      && Legal(ops') && Coherent(ops')
      && Live(ops') == Live(ops) - {b} && Current(ops') == comp
      && Outcome(ops') == Delete(t, b, comp)
      && TotalCalls(ops') == TotalCalls(ops) + RemoveCalls(t, b, comp)
  {
    assert (ops + [Op.Remove(b, comp)])[..|ops|] == ops;
    RunKeepsNodes(ops);
    RunKeepsOrder(ops);
    SubtreeFacts(Outcome(ops), b);
    OrderAgrees(Current(ops), comp, Live(ops) - {b});
  }

  method TakeRoot(a: Entry, cmp: Callback, ghost comp: Comparator<Entry>, ghost t: Tree<Entry>) returns (root: Entry?)
    requires SkewHeap.Valid(a, t, comp) && StrictWeakOrder(comp, Nodes(t))
    requires Computes(cmp, comp, Nodes(t))
    modifies Nodes(t)
    ensures SkewHeap.Valid(root, Delete(t, a, comp), comp) && Nodes(Delete(t, a, comp)) == Nodes(t) - {a}
    ensures Computes(cmp, comp, Nodes(t) - {a})
  {
    ghost var calls;
    root, calls := SkewHeap.Remove(a, a, cmp, comp, t, comp);
  }

  /** Taking the root off until none is left yields the entries in order. */
  method Empty(a: Entry?, cmp: Callback, ghost comp: Comparator<Entry>, ghost t: Tree<Entry>) returns (out: seq<Entry>)
    requires SkewHeap.Valid(a, t, comp) && StrictWeakOrder(comp, Nodes(t))
    requires Computes(cmp, comp, Nodes(t))
    modifies Nodes(t)
    ensures out == Drain(t, comp) && Sorted(out, comp)
    ensures |out| == |Nodes(t)| && forall x :: x in out <==> x in Nodes(t)
  {
    out := [];
    var root := a;
    ghost var rest := t;
    while root != null
      invariant SkewHeap.Valid(root, rest, comp) && Nodes(rest) <= Nodes(t)
      invariant Computes(cmp, comp, Nodes(rest))
      invariant Drain(t, comp) == out + Drain(rest, comp)
      decreases Size(rest)
    {
      var first: Entry := root;
      out := out + [first];
      DeleteNodes(rest, first, comp);
      root := TakeRoot(first, cmp, comp, rest);
      rest := Delete(rest, first, comp);
    }
    DrainSorts(t, comp);
  }
}
