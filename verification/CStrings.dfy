/** NUL-terminated strings. */
module CStrings {
  import opened Arithmetic

  const NUL := '\0'

  /** A region of memory up to and with the first NUL.  Indexing it in bounds is reading
      no further than that NUL. */
  ghost predicate IsCString(m: seq<char>) {
    && |m| >= 1 && m[|m| - 1] == NUL
    && forall i | 0 <= i < |m| - 1 :: m[i] != NUL
  }

  type CString = m: seq<char> | IsCString(m) witness [NUL]

  /** The characters before the NUL. */
  function Text(m: CString): string {
    m[..|m| - 1]
  }

  /** Any text without NUL, terminated. */
  function Terminate(s: string): (m: CString)
    requires NUL !in s
    ensures Text(m) == s
  {
    s + [NUL]
  }

  function Repeat(c: char, n: int): (s: string)
    ensures |s| == Max(n, 0)
    ensures forall i | 0 <= i < |s| :: s[i] == c
  {
    if n <= 0 then [] else [c] + Repeat(c, n - 1)
  }

  /** What precedes the first NUL, or all if there is none. */
  function UpToNul(s: seq<char>): (t: string)
    ensures t <= s && NUL !in t
    ensures |t| == |s| || s[|t|] == NUL
  {
    if s == [] || s[0] == NUL then [] else [s[0]] + UpToNul(s[1..])
  }

  lemma UpToNulIs(s: seq<char>, k: nat)
    requires k <= |s| && (k == |s| || s[k] == NUL) && forall i | 0 <= i < k :: s[i] != NUL
    ensures UpToNul(s) == s[..k]
  {
    var t := UpToNul(s);
    assert forall i | 0 <= i < |t| :: t[i] == s[i] && t[i] != NUL;
  }

  lemma {:induction false} UpToNulIsText(m: CString)
    ensures UpToNul(m) == Text(m)
  {
    UpToNulIs(m, |m| - 1);
  }

  /** strlen, of memory in which a NUL can be read. */
  method StrLen(s: seq<char>) returns (cnt: nat)
    requires NUL in s
    ensures cnt == |UpToNul(s)|
  {
    cnt := 0;
    while s[cnt] != NUL
      invariant cnt <= |UpToNul(s)| < |s|
      decreases |s| - cnt
    {
      cnt := cnt + 1;
    }
  }

  /** strnlen, of memory in which a NUL or len characters can be read; len counts as
      unsigned, so it has no negative values. */
  method StrNLen(s: seq<char>, len: nat) returns (cnt: nat)
    requires len <= |s| || NUL in s
    ensures cnt == Min(|UpToNul(s)|, len)
  {
    cnt := 0;
    while cnt < len && s[cnt] != NUL
      invariant cnt <= len && cnt <= |UpToNul(s)|
    {
      cnt := cnt + 1;
    }
  }
}
