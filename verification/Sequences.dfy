/** Small facts about sequences. */
module Sequences {

  lemma ConcatAssociative<T>(a: seq<T>, b: seq<T>, c: seq<T>)
    ensures (a + b) + c == a + (b + c)
  {
  }

  function Elements<T(==)>(s: seq<T>): set<T> { set x | x in s }

  /** `a` is `b` with some elements left out. */
  ghost predicate IsSubsequence<T>(a: seq<T>, b: seq<T>) {
    || a == []
    || (b != [] && IsSubsequence(a, b[..|b| - 1]))
    || (b != [] && a[|a| - 1] == b[|b| - 1] && IsSubsequence(a[..|a| - 1], b[..|b| - 1]))
  }

  lemma NoneIsSubsequence<T>(b: seq<T>)
    ensures IsSubsequence([], b)
  {
  }

  lemma {:induction false} SubsequencesJoin<T>(a: seq<T>, b: seq<T>, c: seq<T>, d: seq<T>)
    requires IsSubsequence(a, b) && IsSubsequence(c, d)
    ensures IsSubsequence(a + c, b + d)
    decreases |d|
  {
    if d == [] {
      assert a + c == a && b + d == b;
    } else {
      var pre := d[..|d| - 1];
      assert (b + d)[..|b + d| - 1] == b + pre;
      if IsSubsequence(c, pre) {
        SubsequencesJoin(a, b, c, pre);
      } else {
        SubsequencesJoin(a, b, c[..|c| - 1], pre);
        assert (a + c)[..|a + c| - 1] == a + c[..|c| - 1];
      }
    }
  }
}
