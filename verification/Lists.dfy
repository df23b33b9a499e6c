/** `list.h`: intrusive circular lists.  Any number of rings lie on one heap; each stands
    for the sequence of entries met from its first entry on. */
module Lists {

  /** struct list_entry */
  class Entry {
    var prev: Entry?
    var next: Entry?
    constructor () { prev, next := null, null; }
  }

  function Succ(i: nat, n: nat): (j: nat)
    requires i < n
    ensures j < n
  {
    if i + 1 == n then 0 else i + 1
  }

  function Pred(i: nat, n: nat): (j: nat)
    requires i < n
    ensures j < n && Succ(j, n) == i
  {
    if i == 0 then n - 1 else i - 1
  }

  ghost predicate Unique(s: seq<Entry>) {
    forall i, j | 0 <= i < j < |s| :: s[i] != s[j]
  }

  ghost predicate Linked(x: Entry, y: Entry)
    reads x, y
  {
    x.next == y && y.prev == x
  }

  /** Following next from s[0] visits s in order and returns to s[0]; prev goes backwards. */
  ghost predicate Ring(s: seq<Entry>)
    reads s
  {
    && |s| >= 1 && Unique(s)
    && forall i {:trigger Succ(i, |s|)} | 0 <= i < |s| :: Linked(s[i], s[Succ(i, |s|)])
  }

  ghost function Insert(s: seq<Entry>, k: nat, e: Entry): seq<Entry>
    requires k <= |s|
  {
    s[..k] + [e] + s[k..]
  }

  ghost function Remove(s: seq<Entry>, k: nat): seq<Entry>
    requires k < |s|
  {
    s[..k] + s[k + 1..]
  }

  lemma InsertUnique(s: seq<Entry>, k: nat, e: Entry)
    requires Unique(s) && k <= |s| && e !in s
    ensures Unique(Insert(s, k, e))
  {
  }

  lemma RemoveUnique(s: seq<Entry>, k: nat)
    requires Unique(s) && k < |s|
    ensures Unique(Remove(s, k))
    ensures forall e :: e in Remove(s, k) <==> e in s && e != s[k]
  {
    var t := Remove(s, k);
    forall e ensures e in t <==> e in s && e != s[k] {
      if e in s && e != s[k] {
        var i :| 0 <= i < |s| && s[i] == e;
        assert t[if i < k then i else i - 1] == e;
      }
    }
  }

  // ---------- one ring ----------

  /** list_init */
  method ListInit(elm: Entry)
    modifies elm
    ensures Ring([elm])
  {
    elm.next := elm;
    elm.prev := elm;
  }

  /** __list_add, between two neighbours of a ring */
  method LinkBetween(elm: Entry, prev: Entry, next: Entry, ghost s: seq<Entry>, ghost k: nat)
    requires Ring(s) && k < |s| && elm !in s
    requires prev == s[k] && next == s[Succ(k, |s|)]
    modifies elm, prev, next
    ensures Ring(Insert(s, k + 1, elm))
  {
    next.prev := elm;
    prev.next := elm;
    elm.next := next;
    elm.prev := prev;
    ghost var n, t := |s|, Insert(s, k + 1, elm);
    InsertUnique(s, k + 1, elm);
    forall i | 0 <= i < |t| ensures Linked(t[i], t[Succ(i, |t|)]) {
      if i == k {
      } else if i == k + 1 {
      } else {
        var j := if i < k then i else i - 1;
        assert t[i] == s[j] && t[Succ(i, |t|)] == s[Succ(j, n)];
        assert old(Linked(s[j], s[Succ(j, n)]));
      }
    }
  }

  /** What is left of a ring after __list_del; an entry that is alone stays. */
  ghost function Without(s: seq<Entry>, k: nat): seq<Entry>
    requires k < |s|
  {
    if |s| == 1 then s else Remove(s, k)
  }

  /** __list_del, of the entry between two neighbours */
  method UnlinkBetween(prev: Entry, next: Entry, ghost s: seq<Entry>, ghost k: nat)
    requires Ring(s) && k < |s|
    requires prev == s[Pred(k, |s|)] && next == s[Succ(k, |s|)]
    modifies prev, next
    ensures Ring(Without(s, k))
    ensures forall e | e in s && e != prev && e != next :: e.prev == old(e.prev) && e.next == old(e.next)
  {
    prev.next := next;
    next.prev := prev;
    ghost var n, t := |s|, Without(s, k);
    RemoveUnique(s, k);
    forall i | n >= 2 && 0 <= i < |t| ensures Linked(t[i], t[Succ(i, |t|)]) {
      var j := if i < k then i else i + 1;
      assert t[i] == s[j];
      if Succ(j, n) == k {
        assert t[Succ(i, |t|)] == s[Succ(k, n)];
      } else {
        assert t[Succ(i, |t|)] == s[Succ(j, n)];
        assert old(Linked(s[j], s[Succ(j, n)]));
      }
    }
  }

  // ---------- many rings on one heap ----------

  ghost function Members(rs: seq<seq<Entry>>): (es: set<Entry>)
    ensures forall r, e | 0 <= r < |rs| && e in rs[r] :: e in es
    ensures forall e | e in es :: exists r :: 0 <= r < |rs| && e in rs[r]
  {
    set s, e | s in rs && e in s :: e
  }

  ghost predicate Disjoint(s: seq<Entry>, t: seq<Entry>) {
    forall e | e in s :: e !in t
  }

  /** Each is a ring, and no entry is in two. */
  ghost predicate Rings(rs: seq<seq<Entry>>)
    reads Members(rs)
  {
    && (forall r | 0 <= r < |rs| :: Ring(rs[r]))
    && (forall q, r | 0 <= q < |rs| && 0 <= r < |rs| && q != r :: Disjoint(rs[q], rs[r]))
  }

  /** Ring r becomes t, with no entries of other rings; the others are still rings. */
  lemma RingReplaced(rs: seq<seq<Entry>>, r: nat, t: seq<Entry>)
    requires r < |rs| && Ring(t)
    requires forall q | 0 <= q < |rs| && q != r :: Ring(rs[q]) && Disjoint(rs[q], t) && Disjoint(t, rs[q])
    requires forall q, p | 0 <= q < |rs| && 0 <= p < |rs| && q != p :: Disjoint(rs[q], rs[p])
    ensures Rings(rs[r := t])
  {
  }

  lemma InsertMembers(s: seq<Entry>, k: nat, elm: Entry)
    requires k <= |s|
    ensures forall e :: e in Insert(s, k, elm) <==> e in s || e == elm
  {
    var t := Insert(s, k, elm);
    forall e ensures e in t <==> e in s || e == elm {
      if e in s {
        var i :| 0 <= i < |s| && s[i] == e;
        assert t[if i < k then i else i + 1] == e;
      }
      assert t[k] == elm;
    }
  }

  /** Where an operation acts: on entry k of ring r. */
  ghost predicate At(rs: seq<seq<Entry>>, r: nat, k: nat, e: Entry) {
    r < |rs| && k < |rs[r]| && rs[r][k] == e
  }

  /** list_add_after */
  method ListAddAfter(listelm: Entry, elm: Entry, ghost rs: seq<seq<Entry>>, ghost r: nat, ghost k: nat)
    requires Rings(rs) && At(rs, r, k, listelm) && elm !in Members(rs)
    modifies elm, listelm, listelm.next
    ensures Rings(rs[r := Insert(rs[r], k + 1, elm)])
  {
    ghost var s := rs[r];
    assert Linked(s[k], s[Succ(k, |s|)]);
    InsertMembers(s, k + 1, elm);
    LinkBetween(elm, listelm, listelm.next, s, k);
    forall q | 0 <= q < |rs| && q != r ensures Ring(rs[q]) {
      assert Disjoint(rs[r], rs[q]) && elm !in rs[q];
      assert s[k] !in rs[q] && s[Succ(k, |s|)] !in rs[q];
    }
    RingReplaced(rs, r, Insert(s, k + 1, elm));
  }

  /** list_add_before; before the first entry is at the end. */
  method ListAddBefore(listelm: Entry, elm: Entry, ghost rs: seq<seq<Entry>>, ghost r: nat, ghost k: nat)
    requires Rings(rs) && At(rs, r, k, listelm) && elm !in Members(rs)
    modifies elm, listelm, listelm.prev
    ensures Rings(rs[r := Insert(rs[r], if k == 0 then |rs[r]| else k, elm)])
  {
    ghost var s := rs[r];
    assert Linked(s[Pred(k, |s|)], s[k]);
    InsertMembers(s, Pred(k, |s|) + 1, elm);
    LinkBetween(elm, listelm.prev, listelm, s, Pred(k, |s|));
    forall q | 0 <= q < |rs| && q != r ensures Ring(rs[q]) {
      assert Disjoint(rs[r], rs[q]) && elm !in rs[q];
      assert s[k] !in rs[q] && s[Pred(k, |s|)] !in rs[q];
    }
    RingReplaced(rs, r, Insert(s, Pred(k, |s|) + 1, elm));
  }

  /** list_del.  The entry keeps its own two pointers; one that is alone stays as it is. */
  method ListDel(listelm: Entry, ghost rs: seq<seq<Entry>>, ghost r: nat, ghost k: nat)
    requires Rings(rs) && At(rs, r, k, listelm)
    modifies listelm.prev, listelm.next
    ensures listelm.prev == old(listelm.prev) && listelm.next == old(listelm.next)
    ensures Rings(rs[r := Without(rs[r], k)])
  {
    ghost var s := rs[r];
    assert Linked(s[k], s[Succ(k, |s|)]) && Linked(s[Pred(k, |s|)], s[k]);
    RemoveUnique(s, k);
    UnlinkBetween(listelm.prev, listelm.next, s, k);
    forall q | 0 <= q < |rs| && q != r ensures Ring(rs[q]) {
      assert Disjoint(rs[r], rs[q]);
      assert s[Succ(k, |s|)] !in rs[q] && s[Pred(k, |s|)] !in rs[q];
    }
    RingReplaced(rs, r, Without(s, k));
  }

  /** list_empty, asked of any entry of a ring */
  method ListEmpty(list: Entry, ghost rs: seq<seq<Entry>>, ghost r: nat, ghost k: nat) returns (empty: bool)
    requires Rings(rs) && At(rs, r, k, list)
    ensures empty <==> |rs[r]| == 1
  {
    ghost var s := rs[r];
    assert Linked(s[k], s[Succ(k, |s|)]);
    return list.next == list;
  }

  /** list_next */
  method ListNext(listelm: Entry, ghost rs: seq<seq<Entry>>, ghost r: nat, ghost k: nat) returns (e: Entry)
    requires Rings(rs) && At(rs, r, k, listelm)
    ensures e == rs[r][Succ(k, |rs[r]|)]
  {
    ghost var s := rs[r];
    assert Linked(s[k], s[Succ(k, |s|)]);
    return listelm.next;
  }

  /** list_prev */
  method ListPrev(listelm: Entry, ghost rs: seq<seq<Entry>>, ghost r: nat, ghost k: nat) returns (e: Entry)
    requires Rings(rs) && At(rs, r, k, listelm)
    ensures e == rs[r][Pred(k, |rs[r]|)]
  {
    ghost var s := rs[r];
    assert Linked(s[Pred(k, |s|)], s[k]);
    return listelm.prev;
  }

  /** list_del_init: the entry leaves its ring and becomes one of its own. */
  method ListDelInit(listelm: Entry, ghost rs: seq<seq<Entry>>, ghost r: nat, ghost k: nat)
    requires Rings(rs) && At(rs, r, k, listelm)
    modifies listelm, listelm.prev, listelm.next
    ensures Rings(if |rs[r]| == 1 then rs else rs[r := Remove(rs[r], k)] + [[listelm]])
  {
    ghost var rest := rs[r := Without(rs[r], k)];
    RemoveUnique(rs[r], k);
    assert |rs[r]| >= 2 ==> listelm !in Members(rest);
    ListDel(listelm, rs, r, k);
    assert forall q | 0 <= q < |rs| && q != r :: rest[q] == rs[q] && Ring(rest[q]);
    ListInit(listelm);
    if |rs[r]| == 1 {
      assert rs[r] == [listelm];
      forall q | 0 <= q < |rs| && q != r ensures Ring(rs[q]) {
        assert Disjoint(rs[r], rs[q]) && rs[r][0] !in rs[q];
      }
      assert Rings(rs[r := [listelm]]);
      assert rs[r := [listelm]] == rs;
    } else {
      RingAdded(rest, listelm);
    }
  }

  lemma RingAdded(rs: seq<seq<Entry>>, elm: Entry)
    requires elm !in Members(rs) && Ring([elm])
    requires forall r | 0 <= r < |rs| :: Ring(rs[r])
    requires forall q, r | 0 <= q < |rs| && 0 <= r < |rs| && q != r :: Disjoint(rs[q], rs[r])
    ensures Rings(rs + [[elm]])
  {
  }

  // ---------- a queue ----------

  /** A client: entries join before the head and leave after it. */
  class Queue {
    const head: Entry
    ghost var contents: seq<Entry>
    ghost var entered: seq<Entry>  // every entry that ever joined
    ghost var left: seq<Entry>     // every entry that ever left

    /** First in, first out: what has left and then what is waiting is what has entered. */
    ghost predicate Valid()
      reads this, head, contents
    {
      Rings([[head] + contents]) && entered == left + contents
    }

    constructor ()
      ensures Valid() && contents == [] && fresh(head)
    {
      head := new Entry();
      contents, entered, left := [], [], [];
      new;
      ListInit(head);
    }

    method Enqueue(e: Entry)
      requires Valid() && e != head && e !in contents
      modifies this, head, contents, e
      ensures Valid() && contents == old(contents) + [e]
      ensures entered == old(entered) + [e] && left == old(left)
    {
      ghost var ring := [head] + contents;
      assert Ring([ring][0]) && Linked(ring[Pred(0, |ring|)], ring[0]);
      ListAddBefore(head, e, [ring], 0, 0);
      assert Insert(ring, |ring|, e) == [head] + (contents + [e]);
      contents := contents + [e];
      entered := entered + [e];
      assert [ring][0 := Insert(ring, |ring|, e)] == [[head] + contents];
    }

    method Dequeue() returns (e: Entry?)
      requires Valid()
      modifies this, head, contents
      ensures Valid()
      ensures e == null <==> old(contents) == []
      ensures e == null ==> contents == [] && left == old(left)
      ensures e != null ==> e == old(contents)[0] && contents == old(contents)[1..] && left == old(left) + [e]
      ensures entered == old(entered)
    {
      ghost var ring := [head] + contents;
      assert Ring([ring][0]) && Linked(ring[0], ring[Succ(0, |ring|)]);
      var empty := ListEmpty(head, [ring], 0, 0);
      if empty { return null; }
      e := ListNext(head, [ring], 0, 0);
      assert Linked(ring[1], ring[Succ(1, |ring|)]);
      ListDel(e, [ring], 0, 1);
      left := left + [e];
      contents := contents[1..];
      assert [ring][0 := Without(ring, 1)] == [[head] + contents];
    }
  }
}
