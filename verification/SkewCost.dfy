/** Runs of insertions and removals on a skew heap that starts empty: what they keep,
    and how many calls of `skew_heap_merge` they make.  The heap has no balance to lean
    on; its credit is the number of right-heavy entries. */
module SkewCost {
  import opened Arithmetic
  import opened SkewTrees

  /** floor(log2 n), and 0 for n = 0. */
  function Log2(n: nat): nat {
    if n < 2 then 0 else 1 + Log2(n / 2)
  }

  /** It is the exponent of the greatest power of two up to n. */
  lemma {:induction false} Log2IsExponent(n: nat)
    requires n >= 1
    ensures Pow2(Log2(n)) <= n < 2 * Pow2(Log2(n))
  {
    if n < 2 {
      assert Pow2(0) == 1;
    } else {
      Log2IsExponent(n / 2);
      assert Pow2(Log2(n)) == 2 * Pow2(Log2(n / 2));
    }
  }

  lemma {:induction false} Log2Monotone(m: nat, n: nat)
    requires m <= n
    ensures Log2(m) <= Log2(n)
  {
    if m < 2 {
    } else {
      Log2Monotone(m / 2, n / 2);
    }
  }

  /** Doubling the size pays for one more unit of logarithm. */
  lemma Log2Doubles(m: nat, n: nat)
    requires 1 <= m && 2 * m <= n
    ensures Log2(m) + 1 <= Log2(n)
  {
    Log2Monotone(m, n / 2);
  }

  lemma Log2OfParts(m: nat, n: nat)
    requires 1 <= m && 1 <= n
    ensures Log2(m) + Log2(n) + 1 <= 2 * Log2(m + n)
  {
    Log2Monotone(m, m + n);
    Log2Monotone(n, m + n);
    if m <= n {
      Log2Doubles(m, m + n);
    } else {
      Log2Doubles(n, m + n);
    }
  }

  // ---------- counting calls ----------

  /** The calls of `skew_heap_merge` that one call on a and b makes, itself included. */
  function Calls<T>(a: Tree<T>, b: Tree<T>, comp: Comparator<T>): nat
    decreases Size(a) + Size(b)
  {
    if a.Empty? || b.Empty? then 1
    else if Less(comp, a.root, b.root) then 1 + Calls(a.right, b, comp)
    else 1 + Calls(a, b.right, comp)
  }

  /** The calls made when x is removed: one merge, of the two subtrees of x. */
  ghost function RemoveCalls<T>(t: Tree<T>, x: T, comp: Comparator<T>): nat
    requires x in Nodes(t) && Distinct(t)
  {
    SubtreeFacts(t, x);
    Calls(Subtree(t, x).left, Subtree(t, x).right, comp)
  }

  // ---------- the credit ----------

  /** The right child holds more than half of the subtree. */
  predicate Heavy<T>(t: Tree<T>) {
    t.Branch? && 2 * Size(t.right) > Size(t)
  }

  function Count(b: bool): nat { if b then 1 else 0 }

  function Credit<T>(t: Tree<T>): nat {
    match t
    case Empty => 0
    case Branch(_, l, r) => Count(Heavy(t)) + Credit(l) + Credit(r)
  }

  function LightOnSpine<T>(t: Tree<T>): nat {
    if t.Empty? then 0 else Count(!Heavy(t)) + LightOnSpine(t.right)
  }

  /** Entries that are heavy after the merge, on the path the merge has walked. */
  function HeavyOnPath<T>(a: Tree<T>, b: Tree<T>, comp: Comparator<T>): nat
    decreases Size(a) + Size(b)
  {
    if a.Empty? || b.Empty? then 0
    else
      var below := if Less(comp, a.root, b.root) then HeavyOnPath(a.right, b, comp) else HeavyOnPath(a, b.right, comp);
      Count(Heavy(Merge(a, b, comp))) + below
  }

  lemma {:induction false} LightIsLogarithmic<T>(t: Tree<T>)
    requires t.Branch?
    ensures LightOnSpine(t) <= Log2(Size(t)) + 1
  {
    if t.right.Empty? {
    } else {
      LightIsLogarithmic(t.right);
      if Heavy(t) {
        Log2Monotone(Size(t.right), Size(t));
      } else {
        Log2Doubles(Size(t.right), Size(t));
      }
    }
  }

  lemma {:induction false} HeavyIsLogarithmic<T>(a: Tree<T>, b: Tree<T>, comp: Comparator<T>)
    ensures HeavyOnPath(a, b, comp) <= Log2(Size(a) + Size(b))
    decreases Size(a) + Size(b)
  {
    if a.Empty? || b.Empty? {
    } else {
      MergeNodes(a, b, comp);
      var n := Size(a) + Size(b);
      var m;
      if Less(comp, a.root, b.root) {
        HeavyIsLogarithmic(a.right, b, comp);
        MergeNodes(a.right, b, comp);
        m := Size(a.right) + Size(b);
      } else {
        HeavyIsLogarithmic(a, b.right, comp);
        MergeNodes(a, b.right, comp);
        m := Size(a) + Size(b.right);
      }
      if Heavy(Merge(a, b, comp)) {
        Log2Doubles(m, n);
      } else {
        Log2Monotone(m, n);
      }
    }
  }

  lemma {:induction false} MergeCredit<T>(a: Tree<T>, b: Tree<T>, comp: Comparator<T>)
    ensures Calls(a, b, comp) + Credit(Merge(a, b, comp))
         <= Credit(a) + Credit(b) + LightOnSpine(a) + LightOnSpine(b) + HeavyOnPath(a, b, comp) + 1
    decreases Size(a) + Size(b)
  {
    if a.Empty? || b.Empty? {
    } else {
      if Less(comp, a.root, b.root) {
        MergeCredit(a.right, b, comp);
      } else {
        MergeCredit(a, b.right, comp);
      }
    }
  }

  lemma {:induction false} SpinesAreLight<T>(a: Tree<T>, b: Tree<T>)
    requires a.Branch? && b.Branch?
    ensures LightOnSpine(a) + LightOnSpine(b) <= 2 * Log2(Size(a) + Size(b)) + 1
  {
    LightIsLogarithmic(a);
    LightIsLogarithmic(b);
    Log2OfParts(Size(a), Size(b));
  }

  /** A merge is paid for by its own 3 log2 n + 2 and the credit it releases. */
  lemma {:induction false} MergeAmortised<T>(a: Tree<T>, b: Tree<T>, comp: Comparator<T>)
    ensures Calls(a, b, comp) + Credit(Merge(a, b, comp))
         <= Credit(a) + Credit(b) + 3 * Log2(Size(a) + Size(b)) + 2
  {
    if a.Branch? && b.Branch? {
      MergeCredit(a, b, comp);
      HeavyIsLogarithmic(a, b, comp);
      SpinesAreLight(a, b);
    }
  }

  lemma RemoveCallsBelow<T>(t: Tree<T>, c: Tree<T>, x: T, comp: Comparator<T>)
    requires x in Nodes(t) && Distinct(t) && t.root != x
    requires c == if x in Nodes(t.left) then t.left else t.right
    ensures x in Nodes(c) && RemoveCalls(t, x, comp) == RemoveCalls(c, x, comp)
  {
  }

  /** An entry that turns heavy when its left subtree loses one entry is at least twice as
      large as that subtree. */
  lemma {:induction false} CreditLeft<T>(t: Tree<T>, l: Tree<T>)
    requires t.Branch? && t.left.Branch? && Size(l) == Size(t.left) - 1
    ensures Credit(t.(left := l)) + 3 * Log2(Size(t.left))
         <= Credit(t) - Credit(t.left) + Credit(l) + 3 * Log2(Size(t))
  {
    if Heavy(t.(left := l)) {
      Log2Doubles(Size(t.left), Size(t));
    } else {
      Log2Monotone(Size(t.left), Size(t));
    }
  }

  /** Losing an entry on the right makes nothing heavy. */
  lemma {:induction false} CreditRight<T>(t: Tree<T>, r: Tree<T>)
    requires t.Branch? && t.right.Branch? && Size(r) == Size(t.right) - 1
    ensures Credit(t.(right := r)) + 3 * Log2(Size(t.right))
         <= Credit(t) - Credit(t.right) + Credit(r) + 3 * Log2(Size(t))
  {
    Log2Monotone(Size(t.right), Size(t));
  }

  /** Removing any entry, however deep, is no dearer: an ancestor that turns heavy
      on the way at least doubles the size, and that raises the logarithm. */
  lemma {:induction false} RemoveAmortised<T>(t: Tree<T>, x: T, comp: Comparator<T>)
    requires x in Nodes(t) && Distinct(t)
    ensures RemoveCalls(t, x, comp) + Credit(Delete(t, x, comp)) <= Credit(t) + 3 * Log2(Size(t)) + 2
  {
    if t.root == x {
      MergeAmortised(t.left, t.right, comp);
      Log2Monotone(Size(t.left) + Size(t.right), Size(t));
    } else if x in Nodes(t.left) {
      RemoveCallsBelow(t, t.left, x, comp);
      RemoveAmortised(t.left, x, comp);
      DeleteNodes(t.left, x, comp);
      CreditLeft(t, Delete(t.left, x, comp));
    } else {
      RemoveCallsBelow(t, t.right, x, comp);
      RemoveAmortised(t.right, x, comp);
      DeleteNodes(t.right, x, comp);
      CreditRight(t, Delete(t.right, x, comp));
    }
  }

  // ---------- runs ----------

  /** An operation, with what the callback answers while it runs. */
  datatype Op<!T> = Insert(x: T, comp: Comparator<T>) | Remove(x: T, comp: Comparator<T>)

  /** The entries in the heap after a run, from the empty heap, most recent operation last. */
  ghost function Live<T>(ops: seq<Op<T>>): set<T> {
    if ops == [] then {}
    else
      var before := Live(ops[..|ops| - 1]);
      match ops[|ops| - 1]
      case Insert(x, _) => before + {x}
      case Remove(x, _) => before - {x}
  }

  /** What the two operations ask of their callers: only a free entry is inserted,
      only an entry of the heap is removed. */
  ghost predicate Legal<T>(ops: seq<Op<T>>) {
    ops != [] ==>
      var before := ops[..|ops| - 1];
      && Legal(before)
      && match ops[|ops| - 1]
         case Insert(x, _) => x !in Live(before)
         case Remove(x, _) => x in Live(before)
  }

  /** The comparison as the last operation found it. */
  ghost function Current<T>(ops: seq<Op<T>>): Comparator<T> {
    if ops == [] then (x, y) => 0 else ops[|ops| - 1].comp
  }

  /** Keys change only where the heap does not notice: each operation finds the entries that
      it neither inserts nor removes compared as before, and the live ones in a strict weak
      order.  The key of an entry may be anything when it comes in, when it comes back, and
      from some time before it goes. */
  ghost predicate Coherent<T>(ops: seq<Op<T>>) {
    ops != [] ==>
      var before, op := ops[..|ops| - 1], ops[|ops| - 1];
      && Coherent(before)
      && Agree(Current(before), op.comp, Live(before) - {op.x})
      && StrictWeakOrder(op.comp, Live(ops))
  }

  /** The heap that the operations leave. */
  ghost function Outcome<T>(ops: seq<Op<T>>): Tree<T> {
    if ops == [] then Empty
    else
      var t := Outcome(ops[..|ops| - 1]);
      match ops[|ops| - 1]
      case Insert(x, comp) => Merge(t, Branch(x, Empty, Empty), comp)
      case Remove(x, comp) => if x in Nodes(t) then Delete(t, x, comp) else t
  }

  /** Calls of `skew_heap_merge` over the whole run. */
  ghost function TotalCalls<T>(ops: seq<Op<T>>): nat {
    if ops == [] then 0
    else
      var t := Outcome(ops[..|ops| - 1]);
      TotalCalls(ops[..|ops| - 1])
      + match ops[|ops| - 1]
        case Insert(x, comp) => Calls(t, Branch(x, Empty, Empty), comp)
        case Remove(x, comp) => if x in Nodes(t) && Distinct(t) then RemoveCalls(t, x, comp) else 0
  }

  lemma {:induction false} SizeIsCardinality<T>(t: Tree<T>)
    requires Distinct(t)
    ensures Size(t) == |Nodes(t)|
  {
    if t.Empty? {
    } else {
      SizeIsCardinality(t.left);
      SizeIsCardinality(t.right);
    }
  }

  /** Every run keeps the heap a tree that holds exactly the live entries. */
  lemma {:induction false} RunKeepsNodes<T>(ops: seq<Op<T>>)
    requires Legal(ops)
    ensures Nodes(Outcome(ops)) == Live(ops) && Distinct(Outcome(ops))
  {
    if ops == [] {
    } else {
      var before := ops[..|ops| - 1];
      RunKeepsNodes(before);
      var t := Outcome(before);
      match ops[|ops| - 1]
      case Insert(x, comp) =>
        MergeNodes(t, Branch(x, Empty, Empty), comp);
        MergeDistinct(t, Branch(x, Empty, Empty), comp);
      case Remove(x, comp) =>
        DeleteNodes(t, x, comp);
    }
  }

  /** Every run keeps heap order, by the keys of the moment, although keys change on the way. */
  lemma {:induction false} RunKeepsOrder<T>(ops: seq<Op<T>>)
    requires Legal(ops) && Coherent(ops)
    ensures Ordered(Outcome(ops), Current(ops)) && StrictWeakOrder(Current(ops), Live(ops))
  {
    if ops == [] {
    } else {
      var before := ops[..|ops| - 1];
      RunKeepsNodes(before);
      RunKeepsOrder(before);
      StepKeepsOrder(Outcome(before), ops[|ops| - 1], Current(before));
    }
  }

  /** One operation, on a heap that was in order by the keys before. */
  lemma StepKeepsOrder<T>(t: Tree<T>, op: Op<T>, was: Comparator<T>)
    requires Distinct(t) && Ordered(t, was) && StrictWeakOrder(was, Nodes(t))
    requires Agree(was, op.comp, Nodes(t) - {op.x})
    ensures op.Insert? && op.x !in Nodes(t) && StrictWeakOrder(op.comp, Nodes(t) + {op.x}) ==>
              Ordered(t, op.comp) && Ordered(Merge(t, Branch(op.x, Empty, Empty), op.comp), op.comp)
    ensures op.Remove? && op.x in Nodes(t) ==> Ordered(Delete(t, op.x, op.comp), op.comp)
  {
    if op.Remove? && op.x in Nodes(t) {
      DeleteReordered(t, op.x, was, op.comp);
    } else if op.x !in Nodes(t) && StrictWeakOrder(op.comp, Nodes(t) + {op.x}) {
      assert Nodes(t) - {op.x} == Nodes(t);
      OrderedAgrees(t, was, op.comp);
      assert Nodes(Branch(op.x, Empty, Empty)) == {op.x};
      MergeOrdered(t, Branch(op.x, Empty, Empty), op.comp);
    }
  }

  /** Over every run, the root is one of the live entries and no live entry is less, by any
      comparison that still agrees with the last one on them. */
  lemma RunRootIsMinimum<T>(ops: seq<Op<T>>, comp: Comparator<T>)
    requires Legal(ops) && Coherent(ops) && Agree(Current(ops), comp, Live(ops))
    ensures Outcome(ops).Empty? <==> Live(ops) == {}
    ensures Live(ops) != {} ==>
              && Outcome(ops).root in Live(ops)
              && forall x | x in Live(ops) :: !Less(comp, x, Outcome(ops).root)
  {
    RunKeepsNodes(ops);
    RunKeepsOrder(ops);
    if Outcome(ops).Branch? {
      RootIsMinimum(Outcome(ops), Current(ops));
    }
  }

  /** One operation of a run, on the heap t its predecessors have left. */
  lemma {:induction false} StepCredit<T>(ops: seq<Op<T>>, n: nat)
    requires ops != [] && Legal(ops)
    requires |Live(ops[..|ops| - 1])| <= n && |Live(ops)| <= n
    ensures TotalCalls(ops) + Credit(Outcome(ops))
         <= TotalCalls(ops[..|ops| - 1]) + Credit(Outcome(ops[..|ops| - 1])) + 3 * Log2(n) + 2
  {
    var before := ops[..|ops| - 1];
    var t := Outcome(before);
    RunKeepsNodes(before);
    SizeIsCardinality(t);
    Log2Monotone(Size(t), n);
    match ops[|ops| - 1]
    case Insert(x, comp) =>
      RunKeepsNodes(ops);
      SizeIsCardinality(Outcome(ops));
      InsertCredit(t, x, comp, n);
    case Remove(x, comp) =>
      RemoveAmortised(t, x, comp);
  }

  lemma InsertCredit<T>(t: Tree<T>, x: T, comp: Comparator<T>, n: nat)
    requires Size(Merge(t, Branch(x, Empty, Empty), comp)) <= n
    ensures Calls(t, Branch(x, Empty, Empty), comp) + Credit(Merge(t, Branch(x, Empty, Empty), comp))
         <= Credit(t) + 3 * Log2(n) + 2
  {
    var s := Branch(x, Empty, Empty);
    MergeNodes(t, s, comp);
    MergeAmortised(t, s, comp);
    Log2Monotone(Size(t) + Size(s), n);
    assert Credit(s) == 0;
  }

  lemma OneMore(k: nat, c: nat)
    ensures (k + 1) * c == k * c + c
  {
  }

  /** The calls that an operation may make, on average, with n entries live. */
  function Budget(n: nat): nat {
    3 * Log2(n) + 2
  }

  ghost predicate AtMostLive<T>(ops: seq<Op<T>>, n: nat) {
    forall k | 0 <= k <= |ops| :: |Live(ops[..k])| <= n
  }

  lemma {:induction false} AtMostLiveBefore<T>(ops: seq<Op<T>>, n: nat)
    requires ops != [] && AtMostLive(ops, n)
    ensures AtMostLive(ops[..|ops| - 1], n)
    ensures |Live(ops[..|ops| - 1])| <= n && |Live(ops)| <= n
  {
    var before := ops[..|ops| - 1];
    forall k | 0 <= k <= |before| ensures |Live(before[..k])| <= n {
      assert before[..k] == ops[..k];
    }
    assert ops[..|ops|] == ops;
  }

  lemma {:induction false} RunCredit<T>(ops: seq<Op<T>>, n: nat)
    requires Legal(ops) && AtMostLive(ops, n)
    ensures TotalCalls(ops) + Credit(Outcome(ops)) <= |ops| * Budget(n)
  {
    if ops == [] {
    } else {
      AtMostLiveBefore(ops, n);
      RunCredit(ops[..|ops| - 1], n);
      StepCredit(ops, n);
      OneMore(|ops| - 1, Budget(n));
    }
  }

  /** The amortised bound.  Over every run with at most n entries live at a time, the
      calls of `skew_heap_merge` number at most (3 log2 n + 2) for each operation, on
      average; the removals need not be of the root, and the callback may answer anything,
      and something else each time. */
  lemma {:induction false} AmortisedBound<T>(ops: seq<Op<T>>, n: nat)
    requires Legal(ops) && AtMostLive(ops, n)
    ensures TotalCalls(ops) <= |ops| * Budget(n) && Budget(n) == 3 * Log2(n) + 2
  {
    RunCredit(ops, n);
  }

  // ---------- draining ----------

  /** Take the root off until nothing is left. */
  ghost function Drain<T>(t: Tree<T>, comp: Comparator<T>): seq<T>
    requires Distinct(t)
    decreases Size(t)
  {
    if t.Empty? then []
    else
      DeleteNodes(t, t.root, comp);
      [t.root] + Drain(Delete(t, t.root, comp), comp)
  }

  lemma {:induction false} DrainNodes<T>(t: Tree<T>, comp: Comparator<T>)
    requires Distinct(t)
    ensures |Drain(t, comp)| == Size(t)
    ensures forall x :: x in Drain(t, comp) <==> x in Nodes(t)
    decreases Size(t)
  {
    if t.Empty? {
    } else {
      DeleteNodes(t, t.root, comp);
      DrainNodes(Delete(t, t.root, comp), comp);
    }
  }

  /** No entry twice, and none before a lesser one. */
  ghost predicate Sorted<T>(s: seq<T>, comp: Comparator<T>) {
    forall i, j | 0 <= i < j < |s| :: s[i] != s[j] && !Less(comp, s[j], s[i])
  }

  lemma SortedCons<T>(x: T, s: seq<T>, comp: Comparator<T>)
    requires Sorted(s, comp)
    requires forall y | y in s :: y != x && !Less(comp, y, x)
    ensures Sorted([x] + s, comp)
  {
    var t := [x] + s;
    forall i, j | 0 <= i < j < |t| ensures t[i] != t[j] && !Less(comp, t[j], t[i]) {
      assert t[j] == s[j - 1] && s[j - 1] in s;
    }
  }

  /** Draining lists every entry of the heap exactly once, none before a lesser one. */
  lemma {:induction false} DrainSorts<T>(t: Tree<T>, comp: Comparator<T>)
    requires Distinct(t) && Ordered(t, comp) && StrictWeakOrder(comp, Nodes(t))
    ensures |Drain(t, comp)| == |Nodes(t)|
    ensures forall x :: x in Drain(t, comp) <==> x in Nodes(t)
    ensures Sorted(Drain(t, comp), comp)
    decreases Size(t)
  {
    SizeIsCardinality(t);
    DrainNodes(t, comp);
    if t.Empty? {
    } else {
      var d := Delete(t, t.root, comp);
      DeleteNodes(t, t.root, comp);
      DrainNodes(d, comp);
      assert Sorted(Drain(d, comp), comp) by {
        DeleteOrdered(t, t.root, comp);
        DrainSorts(d, comp);
      }
      forall y | y in Drain(d, comp) ensures y != t.root && !Less(comp, y, t.root) {
        RootIsMinimum(t, comp);
      }
      SortedCons(t.root, Drain(d, comp), comp);
    }
  }
}
