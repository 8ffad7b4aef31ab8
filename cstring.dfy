/**
 * NUL-terminated strings in a character buffer, as C code reads them.
 */
module CString {
  const NUL: char := '\0'

  /** strlen: the index of the first NUL. */
  function Strlen(s: seq<char>): (n: nat)
    requires NUL in s
    ensures n < |s| && s[n] == NUL
    ensures forall i :: 0 <= i < n ==> s[i] != NUL
  {
    if s[0] == NUL then 0 else 1 + Strlen(s[1..])
  }

  /** The string a buffer holds: everything before its first NUL. */
  function CStr(s: seq<char>): (r: string)
    requires NUL in s
    ensures NUL !in r
    ensures r + [NUL] <= s
  {
    s[..Strlen(s)]
  }

  /** A buffer whose first NUL is at index n holds its first n characters. */
  lemma {:induction false} CStrAt(s: seq<char>, n: nat)
    requires n < |s| && s[n] == NUL
    requires forall i :: 0 <= i < n ==> s[i] != NUL
    ensures NUL in s
    ensures Strlen(s) == n && CStr(s) == s[..n]
  {
    if n > 0 {
      CStrAt(s[1..], n - 1);
    }
  }

  /** A buffer that starts with a NUL-free text t followed by a NUL holds t. */
  lemma CStrPrefix(s: seq<char>, t: string)
    requires |t| < |s| && s[..|t|] == t && s[|t|] == NUL && NUL !in t
    ensures NUL in s && CStr(s) == t
  {
    forall i | 0 <= i < |t|
      ensures s[i] != NUL
    {
      assert s[i] == t[i];
    }
    CStrAt(s, |t|);
  }

  /** A buffer whose first NUL follows the text t holds exactly t. */
  lemma CStrOf(t: string, rest: seq<char>)
    requires NUL !in t
    ensures NUL in t + [NUL] + rest
    ensures CStr(t + [NUL] + rest) == t
  {
    var s := t + [NUL] + rest;
    assert s[|t|] == NUL;
  }
}
