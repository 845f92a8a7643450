/**
  Ordered listings of a finite set of byte positions: what `new TreeSet(keys)`
  and `Collections.sort(new ArrayList(keys))` produce for the resolver.
*/
module Ordering {

  /** Every element is strictly smaller than every later one (so no repeats). */
  predicate StrictlyIncreasing(s: seq<int>)
  {
    forall i, j :: 0 <= i < j < |s| ==> s[i] < s[j]
  }

  /** A set other than the empty one has an element. */
  lemma Inhabited(s: set<int>)
    requires s != {}
    ensures exists x :: x in s
  {
    assert (forall y :: y !in s) ==> s == {};
  }

  /** The smallest element of a non-empty set (`SortedSet.first()`). */
  ghost function Least(s: set<int>): (m: int)
    requires s != {}
    ensures m in s
    ensures forall x :: x in s ==> m <= x
  {
    Inhabited(s);
    var x :| x in s;
    if forall y :: y in s ==> x <= y then x
    else
      var y :| y in s && y < x;
      assert y in s - {x};
      var m := Least(s - {x});
      assert forall z :: z in s ==> z == x || z in s - {x};
      m
  }

  /** The largest element of a non-empty set (`SortedSet.last()`). */
  ghost function Greatest(s: set<int>): (m: int)
    requires s != {}
    ensures m in s
    ensures forall x :: x in s ==> x <= m
  {
    Inhabited(s);
    var x :| x in s;
    if forall y :: y in s ==> y <= x then x
    else
      var y :| y in s && x < y;
      assert y in s - {x};
      var m := Greatest(s - {x});
      assert forall z :: z in s ==> z == x || z in s - {x};
      m
  }

  /** The elements of `s` in ascending order. */
  ghost function SortedKeys(s: set<int>): (r: seq<int>)
    ensures StrictlyIncreasing(r)
    ensures forall x :: x in r <==> x in s
    ensures |r| == |s|
    decreases s
  {
    if s == {} then []
    else
      var m := Least(s);
      [m] + SortedKeys(s - {m})
  }

  /** An ascending listing of a set is unique. */
  lemma {:induction false} SortedUnique(a: seq<int>, b: seq<int>)
    requires StrictlyIncreasing(a) && StrictlyIncreasing(b)
    requires forall x :: x in a <==> x in b
    ensures a == b
  {
    if a != [] {
      assert a[0] in a;
    }
    if b != [] {
      assert b[0] in b;
    }
    if a != [] && b != [] {
      assert a[0] in b && b[0] in a;
      var i :| 0 <= i < |a| && a[i] == b[0];
      var j :| 0 <= j < |b| && b[j] == a[0];
      assert a[0] <= a[i] && b[0] <= b[j];
      assert a[0] == b[0];
      forall x
        ensures x in a[1..] <==> x in b[1..]
      {
        if x in a[1..] {
          var k :| 1 <= k < |a| && a[k] == x;
          assert x in b && x != b[0];
        }
        if x in b[1..] {
          var k :| 1 <= k < |b| && b[k] == x;
          assert x in a && x != a[0];
        }
      }
      SortedUnique(a[1..], b[1..]);
      assert a == [a[0]] + a[1..] && b == [b[0]] + b[1..];
    }
  }

  /** The first element of the ascending listing is the least one. */
  lemma SortedKeysFirst(s: set<int>)
    requires s != {}
    ensures SortedKeys(s)[0] == Least(s)
  {
  }

  /** The last element of the ascending listing is the greatest one. */
  lemma {:induction false} SortedKeysLast(s: set<int>)
    requires s != {}
    ensures SortedKeys(s)[|s| - 1] == Greatest(s)
  {
    var r := SortedKeys(s);
    var g := Greatest(s);
    assert g in r;
    var k :| 0 <= k < |r| && r[k] == g;
    assert r[|s| - 1] in s;
    assert r[k] <= r[|s| - 1];
  }

  /** Insertion of a new element into an ascending listing. */
  function Insert(xs: seq<int>, x: int): (r: seq<int>)
    requires StrictlyIncreasing(xs) && x !in xs
    ensures StrictlyIncreasing(r)
    ensures forall y :: y in r <==> y in xs || y == x
    ensures |r| == |xs| + 1
  {
    if xs == [] || x < xs[0] then [x] + xs
    else
      var t := Insert(xs[1..], x);
      assert forall i :: 0 <= i < |t| ==> t[i] in xs[1..] || t[i] == x;
      assert forall i :: 0 <= i < |t| ==> xs[0] < t[i];
      [xs[0]] + t
  }

  /** Lists the elements of a finite set in ascending order. */
  method SortedPositions(s: set<int>) returns (r: seq<int>)
    ensures r == SortedKeys(s)
  {
    r := [];
    var rest := s;
    while rest != {}
      invariant rest <= s
      invariant StrictlyIncreasing(r)
      invariant forall y :: y in r <==> y in s && y !in rest
      decreases rest
    {
      Inhabited(rest);
      var x :| x in rest;
      r := Insert(r, x);
      rest := rest - {x};
    }
    SortedUnique(r, SortedKeys(s));
  }

  /** The sequence in reverse order (`Collections.reverse`). */
  function Backwards(s: seq<int>): (r: seq<int>)
    ensures |r| == |s|
    ensures forall i :: 0 <= i < |s| ==> r[i] == s[|s| - 1 - i]
  {
    seq(|s|, i requires 0 <= i < |s| => s[|s| - 1 - i])
  }
}
