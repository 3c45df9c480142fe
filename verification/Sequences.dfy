/** What several components need of sequences. */
module Sequences {

  function Reversed<T>(s: seq<T>): (r: seq<T>)
    ensures |r| == |s| && forall i | 0 <= i < |r| :: r[i] == s[|s| - 1 - i]
  {
    seq(|s|, i requires 0 <= i < |s| => s[|s| - 1 - i])
  }

  predicate Distinct<T(==)>(s: seq<T>) {
    forall i, j | 0 <= i < j < |s| :: s[i] != s[j]
  }

  function ToSet<T>(s: seq<T>): set<T> {
    set x | x in s
  }

  /** Counting the different elements tells whether one occurs twice. */
  lemma {:induction false} DistinctSize<T>(s: seq<T>)
    ensures |ToSet(s)| <= |s|
    ensures |ToSet(s)| == |s| <==> Distinct(s)
  {
    if s != [] {
      var n := |s| - 1;
      var t := s[..n];
      DistinctSize(t);
      assert s == t + [s[n]];
      assert ToSet(s) == ToSet(t) + {s[n]};
      if s[n] in ToSet(t) {
        var i :| 0 <= i < n && t[i] == s[n];
        assert s[i] == s[n];
        assert ToSet(s) == ToSet(t);
      } else {
        assert forall i | 0 <= i < n :: t[i] in ToSet(t);
        assert forall i | 0 <= i < n :: s[i] == t[i];
      }
    }
  }
}
