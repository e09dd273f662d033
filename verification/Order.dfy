/** Byte-wise order of strings, and what the rest of the model needs from finite
    sets of names: their sorted listing and their greatest element.

    `ORDER BY name ASC` in SQLite and the iteration order of a JSON object both
    compare strings byte by byte. */
module Order {

  predicate Less(a: string, b: string)
    decreases a
  {
    b != [] && (a == [] || a[0] < b[0] || (a[0] == b[0] && Less(a[1..], b[1..])))
  }

  /** At position `i` the strings differ for the first time, and `a` has the smaller character. */
  predicate SmallerAt(a: string, b: string, i: nat) {
    i < |a| && i < |b| && a[..i] == b[..i] && a[i] < b[i]
  }

  lemma SmallerAtTails(a: string, b: string, i: nat)
    requires a != [] && b != [] && a[0] == b[0]
    ensures SmallerAt(a[1..], b[1..], i) <==> SmallerAt(a, b, i + 1)
  {
    if i < |a[1..]| && i < |b[1..]| {
      assert a[..i + 1] == [a[0]] + a[1..][..i] && b[..i + 1] == [b[0]] + b[1..][..i];
    }
  }

  lemma DifferAtStart(a: string, b: string, i: nat)
    requires SmallerAt(a, b, i) && a[0] != b[0]
    ensures i == 0
  {
    if 0 < i { FirstOfPrefix(a, b, i); }
  }

  lemma FirstOfPrefix(a: string, b: string, i: nat)
    requires 0 < i <= |a| && i <= |b| && a[..i] == b[..i]
    ensures a[0] == b[0]
  {
    assert a[..i][0] == b[..i][0];
  }

  /** Byte order: a proper prefix comes first, and otherwise the first difference decides. */
  lemma {:induction false} LessIff(a: string, b: string)
    ensures Less(a, b) <==> (a <= b && a != b) || exists i: nat :: SmallerAt(a, b, i)
    decreases a
  {
    if a != [] && b != [] {
      if a[0] == b[0] {
        LessIff(a[1..], b[1..]);
        assert a == [a[0]] + a[1..] && b == [b[0]] + b[1..];
        forall i: nat ensures SmallerAt(a[1..], b[1..], i) <==> SmallerAt(a, b, i + 1) { SmallerAtTails(a, b, i); }
        if i: nat :| SmallerAt(a, b, i) { assert SmallerAt(a[1..], b[1..], i - 1); }
      } else {
        assert a[0] < b[0] ==> SmallerAt(a, b, 0);
        if i: nat :| SmallerAt(a, b, i) { DifferAtStart(a, b, i); }
      }
    }
  }

  lemma {:induction false} LessTransitive(a: string, b: string, c: string)
    requires Less(a, b) && Less(b, c)
    ensures Less(a, c)
    decreases a
  {
    if a != [] && a[0] == b[0] && b[0] == c[0] {
      LessTransitive(a[1..], b[1..], c[1..]);
    }
  }

  lemma {:induction false} LessTotal(a: string, b: string)
    ensures (if Less(a, b) then 1 else 0) + (if a == b then 1 else 0) + (if Less(b, a) then 1 else 0) == 1
    decreases a
  {
    if a != [] && b != [] && a[0] == b[0] {
      LessTotal(a[1..], b[1..]);
      assert a == [a[0]] + a[1..] && b == [b[0]] + b[1..];
    }
  }

  /** `Less` is a strict total order. */
  lemma LessIsStrictTotalOrder()
    ensures forall a, b, c :: Less(a, b) && Less(b, c) ==> Less(a, c)
    ensures forall a, b :: Less(a, b) ==> !Less(b, a) && a != b
    ensures forall a: string, b: string :: Less(a, b) || a == b || Less(b, a)
  {
    forall a, b, c | Less(a, b) && Less(b, c) ensures Less(a, c) { LessTransitive(a, b, c); }
    forall a: string, b: string ensures Less(a, b) || a == b || Less(b, a) { LessTotal(a, b); }
    forall a, b | Less(a, b) ensures !Less(b, a) && a != b { LessTotal(a, b); }
  }

  predicate IsLeast(m: string, s: set<string>) {
    m in s && forall x :: x in s && x != m ==> Less(m, x)
  }

  predicate IsGreatest(m: string, s: set<string>) {
    m in s && forall x :: x in s && x != m ==> Less(x, m)
  }

  lemma {:induction false} LeastExists(s: set<string>)
    requires s != {}
    ensures exists m :: IsLeast(m, s)
    ensures forall m, n :: IsLeast(m, s) && IsLeast(n, s) ==> m == n
    decreases s
  {
    LessIsStrictTotalOrder();
    var a :| a in s;
    if s == {a} {
      assert IsLeast(a, s);
    } else {
      LeastExists(s - {a});
      var b :| IsLeast(b, s - {a});
      assert IsLeast(if Less(a, b) then a else b, s);
    }
  }

  lemma {:induction false} GreatestExists(s: set<string>)
    requires s != {}
    ensures exists m :: IsGreatest(m, s)
    ensures forall m, n :: IsGreatest(m, s) && IsGreatest(n, s) ==> m == n
    decreases s
  {
    LessIsStrictTotalOrder();
    var a :| a in s;
    if s == {a} {
      assert IsGreatest(a, s);
    } else {
      GreatestExists(s - {a});
      var b :| IsGreatest(b, s - {a});
      assert IsGreatest(if Less(b, a) then a else b, s);
    }
  }

  ghost function Greatest(s: set<string>): (g: string)
    requires s != {}
    ensures IsGreatest(g, s)
  {
    GreatestExists(s);
    var g :| IsGreatest(g, s);
    g
  }

  predicate Ascending(r: seq<string>) {
    forall i, j :: 0 <= i < j < |r| ==> Less(r[i], r[j])
  }

  /** The strictly ascending listing of a finite set of names. */
  function Sorted(s: set<string>): (r: seq<string>)
    ensures Ascending(r)
    ensures forall x :: x in r <==> x in s
    ensures forall i :: 0 <= i < |r| ==> r[i] in s
    ensures |r| == |s|
    decreases s
  {
    if s == {} then []
    else
      LeastExists(s);
      var m :| IsLeast(m, s);
      assert s == {m} + (s - {m});
      [m] + Sorted(s - {m})
  }

  lemma LeastIsFirst(s: set<string>, least: string)
    requires IsLeast(least, s)
    ensures Sorted(s) == [least] + Sorted(s - {least})
  {
    LeastExists(s);
  }

  ghost function Below(s: set<string>, x: string): set<string> {
    set e | e in s && Less(e, x)
  }

  ghost function Above(s: set<string>, x: string): set<string> {
    set e | e in s && Less(x, e)
  }

  /** The position of a name in a listing is the number of smaller names. */
  lemma ListingPosition(s: set<string>, r: seq<string>, i: nat)
    requires Ascending(r) && (forall x :: x in r <==> x in s) && i < |r|
    ensures |Below(s, r[i])| == i
  {
    var prefix := r[..i];
    forall e | e in Below(s, r[i]) ensures e in prefix {
      var j :| 0 <= j < |r| && r[j] == e;
      LessTotal(e, r[i]);
      assert j < i;
      assert prefix[j] == e;
    }
    assert Below(s, r[i]) == set e | e in prefix;
    DistinctSize(prefix);
  }

  lemma {:induction false} DistinctSize(r: seq<string>)
    requires Ascending(r)
    ensures |set e | e in r| == |r|
  {
    if r != [] {
      var n := |r| - 1;
      LessIsStrictTotalOrder();
      DistinctSize(r[..n]);
      assert r == r[..n] + [r[n]];
      assert (set e | e in r) == (set e | e in r[..n]) + {r[n]};
    }
  }

  /** Every member splits its set into the smaller ones, itself and the greater ones. */
  lemma BelowAbove(s: set<string>, x: string)
    requires x in s
    ensures |Below(s, x)| + 1 + |Above(s, x)| == |s|
  {
    LessIsStrictTotalOrder();
    assert s == Below(s, x) + {x} + Above(s, x);
    assert Below(s, x) !! {x} && (Below(s, x) + {x}) !! Above(s, x);
  }

  lemma SubsetSize(a: set<string>, b: set<string>)
    requires a <= b
    ensures |a| <= |b|
  {
    assert b == a + (b - a);
  }
}
