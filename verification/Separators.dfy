/**
 Texts joined by a separator that one of them does not contain: where they were joined can be told.
 */
module Separators {

  lemma NoneAfter(a: string, b: string, dot: char, k: nat)
    requires dot !in b && |a| < k <= |a| + |b|
    ensures (a + [dot] + b)[k] != dot
  {
    assert (a + [dot] + b)[k] == b[k - |a| - 1];
  }

  /** A split at the last separator is unique. */
  lemma LastSeparator(a: string, b: string, c: string, d: string, dot: char)
    requires a + [dot] + b == c + [dot] + d && dot !in b && dot !in d
    ensures a == c && b == d
  {
    var s := a + [dot] + b;
    if |a| < |c| {
      NoneAfter(a, b, dot, |c|);
    } else if |c| < |a| {
      NoneAfter(c, d, dot, |a|);
    } else {
      assert a == s[..|a|] && c == s[..|a|] && b == s[|a| + 1..] && d == s[|a| + 1..];
    }
  }

  lemma NoneBefore(a: string, b: string, dot: char, k: nat)
    requires dot !in a && k < |a|
    ensures (a + [dot] + b)[k] != dot
  {
    assert (a + [dot] + b)[k] == a[k];
  }

  /** So is a split at the first separator. */
  lemma FirstSeparator(a: string, b: string, c: string, d: string, dot: char)
    requires a + [dot] + b == c + [dot] + d && dot !in a && dot !in c
    ensures a == c && b == d
  {
    var s := a + [dot] + b;
    if |a| < |c| {
      NoneBefore(c, d, dot, |a|);
    } else if |c| < |a| {
      NoneBefore(a, b, dot, |c|);
    } else {
      assert a == s[..|a|] && c == s[..|a|] && b == s[|a| + 1..] && d == s[|a| + 1..];
    }
  }
}
