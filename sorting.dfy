/**
 * `Array.prototype.sort(compare)` on a sequence: a stable insertion sort
 * driven by a comparator that, like a JavaScript comparator, returns a
 * negative number, zero or a positive number.
 */
module Sorting {

  /** `cmp(a, b) <= 0` is a total preorder: the comparator is consistent, as
      `sort` requires of it for a well-defined result. */
  ghost predicate Consistent<T(!new)>(cmp: (T, T) -> int) {
    && (forall a, b :: cmp(a, b) <= 0 || cmp(b, a) <= 0)
    && (forall a, b, c {:trigger cmp(a, b), cmp(b, c), cmp(a, c)} ::
         cmp(a, b) <= 0 && cmp(b, c) <= 0 ==> cmp(a, c) <= 0)
  }

  /** Only equal values compare as equal. */
  ghost predicate Antisymmetric<T(!new)>(cmp: (T, T) -> int) {
    forall a, b :: cmp(a, b) <= 0 && cmp(b, a) <= 0 ==> a == b
  }

  ghost predicate SortedBy<T>(s: seq<T>, cmp: (T, T) -> int) {
    forall i, j :: 0 <= i < j < |s| ==> cmp(s[i], s[j]) <= 0
  }

  /** Puts `x` before the first element it does not compare after. */
  function Insert<T>(x: T, s: seq<T>, cmp: (T, T) -> int): (r: seq<T>)
    ensures multiset(r) == multiset(s) + multiset{x}
  {
    if s == [] then [x]
    else if cmp(x, s[0]) <= 0 then [x] + s
    else
      assert s == [s[0]] + s[1..];
      [s[0]] + Insert(x, s[1..], cmp)
  }

  /** The sorted permutation of `s`; the relative order of elements that
      compare as equal is kept. */
  function SortBy<T>(s: seq<T>, cmp: (T, T) -> int): (r: seq<T>)
    ensures multiset(r) == multiset(s)
  {
    if s == [] then []
    else
      assert s == [s[0]] + s[1..];
      Insert(s[0], SortBy(s[1..], cmp), cmp)
  }

  /** `y` compares before-or-equal every element of `s`. */
  ghost predicate Below<T>(y: T, s: seq<T>, cmp: (T, T) -> int) {
    forall z :: z in s ==> cmp(y, z) <= 0
  }

  lemma ConsSorted<T>(y: T, s: seq<T>, cmp: (T, T) -> int)
    requires SortedBy(s, cmp) && Below(y, s, cmp)
    ensures SortedBy([y] + s, cmp)
  {
    var r := [y] + s;
    forall i, j | 0 <= i < j < |r| ensures cmp(r[i], r[j]) <= 0 {
      if i == 0 {
        assert r[j] == s[j - 1];
      } else {
        assert r[i] == s[i - 1] && r[j] == s[j - 1];
      }
    }
  }

  lemma SortedSplit<T>(s: seq<T>, cmp: (T, T) -> int)
    requires SortedBy(s, cmp) && s != []
    ensures SortedBy(s[1..], cmp) && Below(s[0], s[1..], cmp)
  {
    forall z | z in s[1..] ensures cmp(s[0], z) <= 0 {
      var k :| 0 <= k < |s[1..]| && s[1..][k] == z;
      assert s[k + 1] == z;
    }
    forall i, j | 0 <= i < j < |s[1..]| ensures cmp(s[1..][i], s[1..][j]) <= 0 {
      assert s[1..][i] == s[i + 1] && s[1..][j] == s[j + 1];
    }
  }

  lemma InsertBelow<T>(x: T, s: seq<T>, y: T, cmp: (T, T) -> int)
    requires Below(y, s, cmp) && cmp(y, x) <= 0
    ensures Below(y, Insert(x, s, cmp), cmp)
  {
    var r := Insert(x, s, cmp);
    forall z | z in r ensures cmp(y, z) <= 0 {
      assert z in multiset(r);
      if z != x {
        assert z in multiset(s);
      }
    }
  }

  lemma {:induction false} InsertSorted<T(!new)>(x: T, s: seq<T>, cmp: (T, T) -> int)
    requires Consistent(cmp) && SortedBy(s, cmp)
    ensures SortedBy(Insert(x, s, cmp), cmp)
    decreases |s|
  {
    if s != [] {
      SortedSplit(s, cmp);
      if cmp(x, s[0]) <= 0 {
        forall z | z in s ensures cmp(x, z) <= 0 {
          if z != s[0] { assert z in s[1..]; assert cmp(s[0], z) <= 0; }
        }
        ConsSorted(x, s, cmp);
      } else {
        InsertSorted(x, s[1..], cmp);
        InsertBelow(x, s[1..], s[0], cmp);
        ConsSorted(s[0], Insert(x, s[1..], cmp), cmp);
      }
    }
  }

  lemma {:induction false} SortBySorted<T(!new)>(s: seq<T>, cmp: (T, T) -> int)
    requires Consistent(cmp)
    ensures SortedBy(SortBy(s, cmp), cmp)
    decreases |s|
  {
    if s != [] {
      SortBySorted(s[1..], cmp);
      InsertSorted(s[0], SortBy(s[1..], cmp), cmp);
    }
  }

  /** For an antisymmetric comparator there is only one sorted permutation, so
      the result does not depend on the order of the input. */
  lemma {:induction false} SortedUnique<T(!new)>(a: seq<T>, b: seq<T>, cmp: (T, T) -> int)
    requires Consistent(cmp) && Antisymmetric(cmp)
    requires SortedBy(a, cmp) && SortedBy(b, cmp) && multiset(a) == multiset(b)
    ensures a == b
    decreases |a|
  {
    SameElementsLength(a, b);
    if a != [] {
      SortedHeads(a, b, cmp);
      TailsSameElements(a, b);
      SortedSplit(a, cmp);
      SortedSplit(b, cmp);
      SortedUnique(a[1..], b[1..], cmp);
      SameHeadAndTail(a, b);
    }
  }

  lemma SortedThree<T>(a: T, b: T, c: T, cmp: (T, T) -> int)
    requires cmp(a, b) <= 0 && cmp(b, c) <= 0 && cmp(a, c) <= 0
    ensures SortedBy([a, b, c], cmp)
  {
  }

  lemma SwapFront<T>(a: T, b: T, c: T)
    ensures multiset([a, b, c]) == multiset([b, a, c])
  {
  }

  lemma SameElementsLength<T>(a: seq<T>, b: seq<T>)
    requires multiset(a) == multiset(b)
    ensures |a| == |b|
  {
    assert |a| == |multiset(a)| && |b| == |multiset(b)|;
  }

  lemma TailsSameElements<T>(a: seq<T>, b: seq<T>)
    requires a != [] && b != [] && a[0] == b[0] && multiset(a) == multiset(b)
    ensures multiset(a[1..]) == multiset(b[1..])
  {
    assert a == [a[0]] + a[1..] && b == [b[0]] + b[1..];
    assert multiset(a[1..]) == multiset(a) - multiset{a[0]};
    assert multiset(b[1..]) == multiset(b) - multiset{b[0]};
  }

  lemma SameHeadAndTail<T>(a: seq<T>, b: seq<T>)
    requires a != [] && b != [] && a[0] == b[0] && a[1..] == b[1..]
    ensures a == b
  {
    assert a == [a[0]] + a[1..] && b == [b[0]] + b[1..];
  }

  /** Two sorted permutations start with the same element. */
  lemma SortedHeads<T(!new)>(a: seq<T>, b: seq<T>, cmp: (T, T) -> int)
    requires Consistent(cmp) && Antisymmetric(cmp)
    requires SortedBy(a, cmp) && SortedBy(b, cmp) && multiset(a) == multiset(b)
    requires a != [] && b != []
    ensures a[0] == b[0]
  {
    assert a[0] in multiset(b) && b[0] in multiset(a);
    var i :| 0 <= i < |b| && b[i] == a[0];
    var j :| 0 <= j < |a| && a[j] == b[0];
    assert cmp(b[0], b[i]) <= 0 && cmp(a[0], a[j]) <= 0 by {
      assert cmp(b[0], b[0]) <= 0;
      assert cmp(a[0], a[0]) <= 0;
    }
  }

  /** `a` and `b` compare as equal. */
  predicate Tied<T>(a: T, b: T, cmp: (T, T) -> int) {
    cmp(a, b) <= 0 && cmp(b, a) <= 0
  }

  /** The elements of `s` tied with `y`, in the order `s` holds them. */
  function Ties<T>(s: seq<T>, y: T, cmp: (T, T) -> int): (r: seq<T>)
    ensures |r| <= |s|
  {
    if s == [] then []
    else (if Tied(s[0], y, cmp) then [s[0]] else []) + Ties(s[1..], y, cmp)
  }

  lemma {:induction false} InsertTies<T(!new)>(x: T, s: seq<T>, y: T, cmp: (T, T) -> int)
    requires Consistent(cmp)
    ensures Ties(Insert(x, s, cmp), y, cmp)
         == (if Tied(x, y, cmp) then [x] else []) + Ties(s, y, cmp)
    decreases |s|
  {
    var tx: seq<T> := if Tied(x, y, cmp) then [x] else [];
    if s == [] {
      assert [x][1..] == [];
    } else if cmp(x, s[0]) <= 0 {
      assert ([x] + s)[1..] == s;
    } else {
      var rest := Ties(s[1..], y, cmp);
      InsertTies(x, s[1..], y, cmp);
      var r := [s[0]] + Insert(x, s[1..], cmp);
      assert r[1..] == Insert(x, s[1..], cmp);
      var t0: seq<T> := if Tied(s[0], y, cmp) then [s[0]] else [];
      assert Ties(r, y, cmp) == t0 + (tx + rest);
      if Tied(x, y, cmp) {
        NotTiedAfter(x, s[0], y, cmp);
        assert t0 + (tx + rest) == tx + rest;
        assert t0 + rest == rest;
      } else {
        assert tx + rest == rest;
        assert tx + (t0 + rest) == t0 + rest;
      }
    }
  }

  /** What is tied with `y` and ordered after `x` cannot be tied with `x`. */
  lemma NotTiedAfter<T(!new)>(x: T, z: T, y: T, cmp: (T, T) -> int)
    requires Consistent(cmp) && cmp(x, z) > 0 && Tied(x, y, cmp)
    ensures !Tied(z, y, cmp)
  {
  }

  /** The sort is stable: elements that compare as equal keep their order. */
  lemma {:induction false} SortByStable<T(!new)>(s: seq<T>, y: T, cmp: (T, T) -> int)
    requires Consistent(cmp)
    ensures Ties(SortBy(s, cmp), y, cmp) == Ties(s, y, cmp)
    decreases |s|
  {
    if s != [] {
      InsertTies(s[0], SortBy(s[1..], cmp), y, cmp);
      SortByStable(s[1..], y, cmp);
    }
  }
}
