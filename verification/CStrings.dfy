/** NUL-terminated strings in character buffers. */
module CStrings {

  const NUL: char := '\0'

  // The string at position p of the buffer runs up to the terminator at position e.
  ghost predicate CStr(s: seq<char>, p: nat, e: nat) {
    p <= e < |s| && s[e] == NUL && forall i :: p <= i < e ==> s[i] != NUL
  }

  method StrLen(a: array<char>, p: nat, ghost e: nat) returns (n: nat)
    requires CStr(a[..], p, e)
    ensures n == e - p
  {
    n := 0;
    while a[p + n] != NUL
      invariant 0 <= n <= e - p
      decreases e - p - n
    {
      n := n + 1;
    }
  }

  // The buffer holds exactly this string.
  ghost predicate Holds(s: seq<char>, t: string) {
    CStr(s, 0, |t|) && s[..|t|] == t
  }
}
