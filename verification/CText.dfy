/** NUL-terminated text in buffers. */
module CText {

  const NUL := '\0'
  const SQUOTE := '\''
  const DQUOTE := '\"'

  ghost predicate NulFree(s: string) {
    NUL !in s
  }

  /** `isspace` of the C locale. */
  predicate IsSpace(c: char) {
    c == ' ' || '\t' <= c <= '\r'
  }

  /** The buffer b holds the C string s from position a on. */
  ghost predicate HoldsAt(b: seq<char>, a: nat, s: string) {
    a + |s| < |b| && b[a + |s|] == NUL && forall k :: 0 <= k < |s| ==> b[a + k] == s[k]
  }

  /** What is stored at j does not disturb text that lies above. */
  lemma StoreBelow(b: seq<char>, j: nat, c: char, a: nat, s: string)
    requires HoldsAt(b, a, s) && j < a
    ensures HoldsAt(b[j := c], a, s)
  {
  }

  lemma HoldsTail(b: seq<char>, a: nat, s: string, n: nat)
    requires HoldsAt(b, a, s) && n <= |s|
    ensures HoldsAt(b, a + n, s[n..])
  {
    assert forall k :: 0 <= k < |s| - n ==> s[n..][k] == s[n + k] && b[a + n + k] == b[a + (n + k)];
  }

  lemma StartsHere(b: seq<char>, i: nat, s: string)
    requires HoldsAt(b, i, s) && NulFree(s)
    ensures b[i] == NUL <==> s == []
    ensures s != [] ==> b[i] == s[0]
  {
    if s != [] {
      assert b[i + 0] == s[0] && s[0] in s;
    }
  }

  /** The characters of a C string and the NUL behind them. */
  lemma CharAt(b: seq<char>, a: nat, s: string, n: nat)
    requires HoldsAt(b, a, s) && NulFree(s) && n <= |s|
    ensures b[a + n] == NUL <==> n == |s|
    ensures n < |s| ==> b[a + n] == s[n]
  {
    assert n < |s| ==> s[n] in s;
  }

  /** A NUL stored behind a part of a C string makes that part a C string. */
  lemma HoldsPart(b: seq<char>, a: nat, s: string, from: nat, n: nat)
    requires HoldsAt(b, a, s) && from + n <= |s|
    ensures HoldsAt(b[a + from + n := NUL], a + from, s[from..from + n])
  {
    var part := s[from..from + n];
    forall k | 0 <= k < n ensures b[a + from + k] == part[k] {
      assert part[k] == s[from + k];
      assert b[a + (from + k)] == s[from + k];
    }
  }

  lemma TailNulFree(s: string, n: nat)
    requires NulFree(s) && n <= |s|
    ensures NulFree(s[n..])
  {
    assert forall c :: c in s[n..] ==> c in s;
  }
}
