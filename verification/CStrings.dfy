/** NUL-terminated text in character arrays. */
module CStrings {
  const NUL := '\0'

  /** The text of a C string: no NUL inside. */
  predicate Plain(s: string) {
    NUL !in s
  }

  /** At p the array holds the C string s. */
  ghost predicate HoldsAt(a: array<char>, p: nat, s: string)
    reads a
  {
    && p + |s| < a.Length && Plain(s) && a[p + |s|] == NUL
    && forall j {:trigger a[j]} :: p <= j < p + |s| ==> a[j] == s[j - p] && a[j] != NUL
  }

  ghost predicate HoldsString(a: array<char>, s: string)
    reads a
  {
    HoldsAt(a, 0, s)
  }

  /** Reading a C string. */
  method LoadString(a: array<char>, ghost s: string) returns (t: string)
    requires HoldsString(a, s)
    ensures t == s
  {
    t := "";
    while a[|t|] != NUL
      invariant |t| <= |s| && t == s[..|t|]
      decreases |s| - |t|
    {
      t := t + [a[|t|]];
    }
  }

  /** strlen */
  method Strlen(a: array<char>, p: nat, ghost s: string) returns (n: nat)
    requires HoldsAt(a, p, s)
    ensures n == |s|
  {
    n := 0;
    while a[p + n] != NUL
      invariant n <= |s|
      decreases |s| - n
    {
      n := n + 1;
    }
  }

  /** !strncmp(a + p, t, strlen(t)): the comparison stops at the first difference. */
  method Begins(a: array<char>, p: nat, ghost s: string, t: string) returns (yes: bool)
    requires HoldsAt(a, p, s) && Plain(t)
    ensures yes <==> t <= s
  {
    var n := 0;
    while n < |t|
      invariant n <= |t| && n <= |s| && t[..n] == s[..n]
    {
      if a[p + n] != t[n] {
        return false;
      }
      n := n + 1;
    }
    yes := true;
  }
}
