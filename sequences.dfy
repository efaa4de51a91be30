/** Order-preserving deletion, shared by the phone cleaner and the report. */
module Sequences {
  /** `r` is `s` with some elements deleted, the rest kept in order. */
  ghost predicate IsSubsequence<T>(r: seq<T>, s: seq<T>) {
    if s == [] then r == []
    else (r != [] && r[0] == s[0] && IsSubsequence(r[1..], s[1..])) || IsSubsequence(r, s[1..])
  }

  /** Deleting an element appended to `s` keeps `r` a subsequence ... */
  lemma {:induction false} SubsequenceSkipLast<T>(r: seq<T>, s: seq<T>, x: T)
    requires IsSubsequence(r, s)
    ensures IsSubsequence(r, s + [x])
  {
    if s == [] {
      assert IsSubsequence(r, (s + [x])[1..]);
    } else {
      assert (s + [x])[1..] == s[1..] + [x];
      if r != [] && r[0] == s[0] && IsSubsequence(r[1..], s[1..]) {
        SubsequenceSkipLast(r[1..], s[1..], x);
      } else {
        SubsequenceSkipLast(r, s[1..], x);
      }
    }
  }

  /** ... and keeping it extends `r` by the same element. */
  lemma {:induction false} SubsequenceKeepLast<T>(r: seq<T>, s: seq<T>, x: T)
    requires IsSubsequence(r, s)
    ensures IsSubsequence(r + [x], s + [x])
  {
    if s == [] {
      assert r + [x] == [x] && s + [x] == [x];
      assert IsSubsequence([x][1..], [x][1..]);
    } else {
      assert (s + [x])[1..] == s[1..] + [x];
      if r != [] && r[0] == s[0] && IsSubsequence(r[1..], s[1..]) {
        SubsequenceKeepLast(r[1..], s[1..], x);
        assert (r + [x])[1..] == r[1..] + [x];
      } else {
        SubsequenceKeepLast(r, s[1..], x);
      }
    }
  }
}
