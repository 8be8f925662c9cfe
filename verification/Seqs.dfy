/** Sequences that differ by one element. */
module Seqs {
  /** `s'` is `s` with `x` put in. */
  predicate Inserted<T(==)>(s: seq<T>, s': seq<T>, x: T) {
    exists i :: 0 <= i <= |s| && s' == s[..i] + [x] + s[i..]
  }

  /** `s'` is `s` without `x`. */
  predicate Removed<T(==)>(s: seq<T>, s': seq<T>, x: T) {
    exists i :: 0 <= i < |s| && s[i] == x && s' == s[..i] + s[i + 1..]
  }

  lemma SliceOfSlice<T>(s: seq<T>, a: nat, b: nat, c: nat, d: nat)
    requires a <= b <= |s| && c <= d <= b - a
    ensures s[a..b][c..d] == s[a + c..a + d]
  {
    var t := s[a..b];
    assert t == s[a..][..b - a];
    assert forall i :: 0 <= i < d - c ==> t[c..d][i] == s[a + c + i] == s[a + c..a + d][i];
  }
}
