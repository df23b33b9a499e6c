/** `string.c`: copying on one memory with overlap, and the three comparisons. */
module StringOps {
  import opened Arithmetic
  import opened CStrings

  // ---------- copying ----------

  /** The memory after n bytes have been moved from src to dst: the destination holds what
      the source held before, and every other byte is as it was. */
  ghost predicate Moved(before: seq<char>, after: seq<char>, dst: nat, src: nat, n: nat)
    requires dst + n <= |before| && src + n <= |before|
  {
    && |after| == |before|
    && forall j {:trigger after[j]} | 0 <= j < |after| ::
         after[j] == if dst <= j < dst + n then before[j - dst + src] else before[j]
  }

  /** memmove */
  method MemMove(mem: array<char>, dst: nat, src: nat, n: nat)
    requires dst + n <= mem.Length && src + n <= mem.Length
    modifies mem
    ensures Moved(old(mem[..]), mem[..], dst, src, n)
  {
    var s, d, left := src, dst, n;
    if s < d && s + n > d {
      s, d := s + n, d + n;
      while left > 0
        invariant 0 <= left <= n && s == src + left && d == dst + left
        invariant forall j | 0 <= j < mem.Length ::
                    mem[j] == if d <= j < dst + n then old(mem[j - dst + src]) else old(mem[j])
      {
        left := left - 1;
        d, s := d - 1, s - 1;
        mem[d] := mem[s];
      }
    } else {
      while left > 0
        invariant 0 <= left <= n && s == src + (n - left) && d == dst + (n - left)
        invariant forall j | 0 <= j < mem.Length ::
                    mem[j] == if dst <= j < d then old(mem[j - dst + src]) else old(mem[j])
      {
        left := left - 1;
        mem[d] := mem[s];
        d, s := d + 1, s + 1;
      }
    }
  }

  /** What memcpy leaves on any memory: byte k is copied after bytes 0 to k - 1. */
  ghost function Copied(m: seq<char>, dst: nat, src: nat, n: nat): (r: seq<char>)
    requires dst + n <= |m| && src + n <= |m|
    ensures |r| == |m|
  {
    if n == 0 then m
    else
      var r := Copied(m, dst, src, n - 1);
      r[dst + n - 1 := r[src + n - 1]]
  }

  /** memcpy, whatever the overlap */
  method MemCpy(mem: array<char>, dst: nat, src: nat, n: nat)
    requires dst + n <= mem.Length && src + n <= mem.Length
    modifies mem
    ensures mem[..] == Copied(old(mem[..]), dst, src, n)
  {
    var k := 0;
    while k < n
      invariant 0 <= k <= n
      invariant mem[..] == Copied(old(mem[..]), dst, src, k)
    {
      mem[dst + k] := mem[src + k];
      k := k + 1;
    }
  }

  /** memcpy does what memmove does if the regions are disjoint or dst <= src ... */
  lemma {:induction false} CopiedIsMoved(m: seq<char>, dst: nat, src: nat, n: nat)
    requires dst + n <= |m| && src + n <= |m|
    requires dst <= src || src + n <= dst
    ensures Moved(m, Copied(m, dst, src, n), dst, src, n)
  {
    if n == 0 {
    } else {
      CopiedIsMoved(m, dst, src, n - 1);
      var before, r := Copied(m, dst, src, n - 1), Copied(m, dst, src, n);
      assert before[src + n - 1] == m[src + n - 1];
      forall j | 0 <= j < |m| ensures r[j] == if dst <= j < dst + n then m[j - dst + src] else m[j] {
        assert forall i | 0 <= i < |m| && i != dst + n - 1 :: r[i] == before[i];
      }
    }
  }

  /** With a destination above the source, memcpy leaves each byte equal to the one it was
      copied from, as that stands afterwards: an overlap is filled periodically. */
  lemma {:induction false} CopiedRepeats(m: seq<char>, dst: nat, src: nat, n: nat, j: nat)
    requires dst + n <= |m| && src + n <= |m| && src < dst && j < |m|
    ensures var r := Copied(m, dst, src, n);
      r[j] == if dst <= j < dst + n then r[j - dst + src] else m[j]
  {
    if n == 0 {
    } else {
      CopiedRepeats(m, dst, src, n - 1, j);
    }
  }

  lemma CopiedDiffers(m: seq<char>, dst: nat, src: nat, n: nat)
    requires dst + n <= |m| && src < dst < src + n && m[dst] != m[src]
    ensures !Moved(m, Copied(m, dst, src, n), dst, src, n)
  {
    var r, j := Copied(m, dst, src, n), dst + (dst - src);
    CopiedRepeats(m, dst, src, n, src);
    CopiedRepeats(m, dst, src, n, dst);
    CopiedRepeats(m, dst, src, n, j);
    assert r[j] == m[src];
  }

  ghost predicate AgreesOn(m: seq<char>, dst: nat, src: nat, n: nat)
    requires dst + n <= |m| && src + n <= |m|
  {
    Moved(m, Copied(m, dst, src, n), dst, src, n)
  }

  /** ... and only then: when the destination starts inside the source, the two differ on
      some memory. */
  lemma CopiedIsMovedIff(length: nat, dst: nat, src: nat, n: nat)
    requires dst + n <= length && src + n <= length
    ensures (forall m: seq<char> | |m| == length :: AgreesOn(m, dst, src, n))
        <==> (dst <= src || src + n <= dst)
  {
    if dst <= src || src + n <= dst {
      forall m: seq<char> | |m| == length ensures AgreesOn(m, dst, src, n) {
        CopiedIsMoved(m, dst, src, n);
      }
    } else {
      var m := Marked(length, dst);
      CopiedDiffers(m, dst, src, n);
      assert !AgreesOn(m, dst, src, n);
    }
  }

  /** A memory with one byte that differs from all others. */
  function Marked(length: nat, at: nat): (m: seq<char>)
    ensures |m| == length && forall i | 0 <= i < length :: m[i] == if i == at then 'b' else 'a'
  {
    seq(length, i => if i == at then 'b' else 'a')
  }

  // ---------- comparing ----------

  /** a and b agree up to place k, and there one of them ends or they differ. */
  ghost predicate Part(a: string, b: string, k: nat) {
    && k <= |a| && k <= |b|
    && (forall i | 0 <= i < k :: a[i] == b[i])
    && (k == |a| || k == |b| || a[k] != b[k])
  }

  /** Lexicographic order by unsigned character value: where they part, a has ended or has
      the lesser character. */
  ghost predicate LexLess(a: string, b: string) {
    exists k: nat :: Part(a, b, k) && k < |b| && (k == |a| || a[k] < b[k])
  }

  /** The sign of r orders a and b. */
  ghost predicate Orders(r: int, a: string, b: string) {
    (r < 0 <==> LexLess(a, b)) && (r == 0 <==> a == b) && (r > 0 <==> LexLess(b, a))
  }

  lemma Decided(a: string, b: string, k: nat)
    requires Part(a, b, k)
    ensures LexLess(a, b) <==> k < |b| && (k == |a| || a[k] < b[k])
    ensures LexLess(b, a) <==> k < |a| && (k == |b| || b[k] < a[k])
    ensures a == b <==> k == |a| == |b|
  {
    assert Part(b, a, k);
    assert forall j: nat :: Part(a, b, j) ==> j == k;
    assert forall j: nat :: Part(b, a, j) ==> j == k;
  }

  lemma PartExists(a: string, b: string) returns (k: nat)
    ensures Part(a, b, k)
  {
    k := 0;
    while k < |a| && k < |b| && a[k] == b[k]
      invariant k <= |a| && k <= |b| && forall i | 0 <= i < k :: a[i] == b[i]
    {
      k := k + 1;
    }
  }

  /** The order is total: exactly one of less, equal and greater holds ... */
  lemma LexTotal(a: string, b: string)
    ensures LexLess(a, b) || a == b || LexLess(b, a)
    ensures !(LexLess(a, b) && LexLess(b, a)) && (LexLess(a, b) ==> a != b)
  {
    var k := PartExists(a, b);
    Decided(a, b, k);
  }

  /** ... and transitive. */
  lemma LexTransitive(a: string, b: string, c: string)
    requires LexLess(a, b) && LexLess(b, c)
    ensures LexLess(a, c)
  {
    var i: nat :| Part(a, b, i) && i < |b| && (i == |a| || a[i] < b[i]);
    var k: nat :| Part(b, c, k) && k < |c| && (k == |b| || b[k] < c[k]);
    assert Part(a, c, if i <= k then i else k);
  }

  /** The order is that of the first characters that differ; a text comes before what it is
      continued to. */
  lemma LexByFirstDifference(p: string, c: char, d: char, s: string, t: string)
    requires c != d
    ensures LexLess(p + [c] + s, p + [d] + t) <==> c < d
    ensures LexLess(p, p + [c] + s) && !LexLess(p + [c] + s, p)
  {
    var a, b := p + [c] + s, p + [d] + t;
    assert Part(a, b, |p|) by {
      assert forall i | 0 <= i < |p| :: a[i] == p[i] == b[i];
    }
    Decided(a, b, |p|);
    assert Part(p, a, |p|);
    Decided(p, a, |p|);
  }

  /** strcmp */
  method StrCmp(s1: CString, s2: CString) returns (r: int)
    ensures Orders(r, Text(s1), Text(s2))
  {
    var i := 0;
    while s1[i] != NUL && s1[i] == s2[i]
      invariant i < |s1| && i < |s2| && forall j | 0 <= j < i :: s1[j] == s2[j]
      decreases |s1| - i
    {
      i := i + 1;
    }
    Decided(Text(s1), Text(s2), i);
    return s1[i] as int - s2[i] as int;
  }

  function Truncate(s: string, n: nat): string {
    s[..Min(|s|, n)]
  }

  /** strncmp, of memories in each of which a NUL or n characters can be read, orders what
      precedes the NUL, cut to n characters; for strings, that is the texts so cut. */
  method StrNCmp(s1: seq<char>, s2: seq<char>, n: nat) returns (r: int)
    requires (n <= |s1| || NUL in s1) && (n <= |s2| || NUL in s2)
    ensures Orders(r, Truncate(UpToNul(s1), n), Truncate(UpToNul(s2), n))
  {
    ghost var t1, t2 := Truncate(UpToNul(s1), n), Truncate(UpToNul(s2), n);
    var left, i := n, 0;
    while left > 0 && s1[i] != NUL && s1[i] == s2[i]
      invariant left == n - i && i <= |t1| && i <= |t2| && forall j | 0 <= j < i :: s1[j] == s2[j]
    {
      left, i := left - 1, i + 1;
    }
    Decided(t1, t2, i);
    return if left == 0 then 0 else s1[i] as int - s2[i] as int;
  }

  /** memcmp */
  method MemCmp(v1: seq<char>, v2: seq<char>, n: nat) returns (r: int)
    requires n <= |v1| && n <= |v2|
    ensures Orders(r, v1[..n], v2[..n])
  {
    var i := 0;
    while i < n
      invariant i <= n && forall j | 0 <= j < i :: v1[j] == v2[j]
    {
      if v1[i] != v2[i] {
        Decided(v1[..n], v2[..n], i);
        return v1[i] as int - v2[i] as int;
      }
      i := i + 1;
    }
    Decided(v1[..n], v2[..n], n);
    return 0;
  }

  /** memcmp over the shorter text and its NUL orders strings as strcmp does. */
  lemma {:induction false} MemCmpIsStrCmp(s1: CString, s2: CString, r: int)
    ensures var n := Min(|Text(s1)|, |Text(s2)|) + 1;
      Orders(r, s1[..n], s2[..n]) <==> Orders(r, Text(s1), Text(s2))
  {
    var a, b := Text(s1), Text(s2);
    var n := Min(|a|, |b|) + 1;
    var k := PartExists(a, b);
    Decided(a, b, k);
    if k == |a| == |b| {
      assert s1 == s2;
      Decided(s1[..n], s2[..n], n);
    } else {
      Decided(s1[..n], s2[..n], k);
    }
  }
}
