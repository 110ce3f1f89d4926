/** What callers may rely on in std::sort: some sorted permutation, whichever algorithm finds it. */
module Sorting {
  import opened Sequences

  ghost predicate StrictWeakOrder<T(!new)>(less: (T, T) -> bool) {
    && (forall x, y :: less(x, y) ==> !less(y, x))
    && (forall x, y, z :: !less(y, x) && !less(z, y) ==> !less(z, x))
  }

  ghost predicate SortedBy<T>(less: (T, T) -> bool, s: seq<T>) {
    forall i, j :: 0 <= i < j < |s| ==> !less(s[j], s[i])
  }

  ghost predicate IsSortOf<T>(less: (T, T) -> bool, sorted: seq<T>, s: seq<T>) {
    SortedBy(less, sorted) && multiset(sorted) == multiset(s)
  }

  method Sort<T(!new)>(s: seq<T>, less: (T, T) -> bool) returns (r: seq<T>)
    requires StrictWeakOrder(less)
    ensures IsSortOf(less, r, s)
  {
    r := [];
    for i := 0 to |s|
      invariant IsSortOf(less, r, s[..i])
    {
      var a := FindPlace(less, r, s[i]);
      InsertKeepsSorted(less, r, a, s[i]);
      assert s[..i + 1] == s[..i] + [s[i]];
      r := r[..a] + [s[i]] + r[a..];
    }
    assert s[..|s|] == s;
  }

  /** Behind everything that is not greater. */
  method FindPlace<T(!new)>(less: (T, T) -> bool, r: seq<T>, x: T) returns (a: nat)
    requires StrictWeakOrder(less) && SortedBy(less, r)
    ensures a <= |r|
    ensures forall k :: 0 <= k < a ==> !less(x, r[k])
    ensures forall k :: a <= k < |r| ==> !less(r[k], x)
  {
    a := |r|;
    while a > 0 && less(x, r[a - 1])
      invariant a <= |r|
      invariant forall k :: a <= k < |r| ==> !less(r[k], x)
    {
      a := a - 1;
      LessIsOneWay(less, x, r[a]);
    }
    PlaceFound(less, r, x, a);
  }

  lemma PlaceFound<T(!new)>(less: (T, T) -> bool, r: seq<T>, x: T, a: nat)
    requires StrictWeakOrder(less) && SortedBy(less, r) && a <= |r| && (a > 0 ==> !less(x, r[a - 1]))
    ensures forall k :: 0 <= k < a ==> !less(x, r[k])
  {
    forall k | 0 <= k < a ensures !less(x, r[k]) {
      if k < a - 1 {
        NotLessChains(less, r[k], r[a - 1], x);
      }
    }
  }

  lemma NotLessChains<T(!new)>(less: (T, T) -> bool, x: T, y: T, z: T)
    requires StrictWeakOrder(less) && !less(y, x) && !less(z, y)
    ensures !less(z, x)
  {
  }

  lemma LessIsOneWay<T(!new)>(less: (T, T) -> bool, x: T, y: T)
    requires StrictWeakOrder(less) && less(x, y)
    ensures !less(y, x)
  {
  }

  lemma InsertKeepsSorted<T>(less: (T, T) -> bool, r: seq<T>, a: nat, x: T)
    requires SortedBy(less, r) && a <= |r|
    requires forall k :: 0 <= k < a ==> !less(x, r[k])
    requires forall k :: a <= k < |r| ==> !less(r[k], x)
    ensures SortedBy(less, r[..a] + [x] + r[a..])
    ensures multiset(r[..a] + [x] + r[a..]) == multiset(r + [x])
  {
    var all := r[..a] + [x] + r[a..];
    forall i, j | 0 <= i < j < |all| ensures !less(all[j], all[i]) {
      assert all[i] == if i < a then r[i] else if i == a then x else r[i - 1];
      assert all[j] == if j < a then r[j] else if j == a then x else r[j - 1];
    }
    assert r == r[..a] + r[a..];
  }

  /** The order decides between any two different members. */
  ghost predicate Decides<T>(less: (T, T) -> bool, s: seq<T>) {
    forall x, y :: x in s && y in s && x != y ==> less(x, y) || less(y, x)
  }

  /** Then there is only one sorted permutation. */
  lemma {:induction false} SortIsUnique<T>(less: (T, T) -> bool, a: seq<T>, b: seq<T>)
    requires SortedBy(less, a) && SortedBy(less, b) && multiset(a) == multiset(b) && Decides(less, a)
    ensures a == b
  {
    SameLength(a, b);
    if a != [] {
      SameFirst(less, a, b);
      TailMultiset(a);
      TailMultiset(b);
      SortIsUnique(less, a[1..], b[1..]);
    }
  }

  /* ---- and otherwise there are several ---- */

  ghost predicate Tied<T>(less: (T, T) -> bool, x: T, y: T) {
    !less(x, y) && !less(y, x)
  }

  lemma TiedCompareAlike<T(!new)>(less: (T, T) -> bool, x: T, y: T, z: T)
    requires StrictWeakOrder(less) && Tied(less, x, y)
    ensures less(x, z) <==> less(y, z)
    ensures less(z, x) <==> less(z, y)
  {
  }

  ghost function Swapped<T>(s: seq<T>, p: nat, q: nat): (r: seq<T>)
    requires p < |s| && q < |s|
    ensures |r| == |s|
  {
    s[p := s[q]][q := s[p]]
  }

  lemma SwappedHasSameMembers<T>(s: seq<T>, p: nat, q: nat)
    requires p < q < |s|
    ensures multiset(Swapped(s, p, q)) == multiset(s)
  {
    assert s == s[..p] + [s[p]] + s[p + 1..q] + [s[q]] + s[q + 1..];
    assert Swapped(s, p, q) == s[..p] + [s[q]] + s[p + 1..q] + [s[p]] + s[q + 1..];
  }

  /** Two tied members may change places. */
  lemma SwapKeepsSort<T(!new)>(less: (T, T) -> bool, s: seq<T>, p: nat, q: nat)
    requires StrictWeakOrder(less) && SortedBy(less, s)
    requires p < q < |s| && Tied(less, s[p], s[q])
    ensures IsSortOf(less, Swapped(s, p, q), s)
  {
    var r := Swapped(s, p, q);
    forall i, j | 0 <= i < j < |r| ensures !less(r[j], r[i]) {
      SwapKeepsPair(less, s, p, q, i, j);
    }
    SwappedHasSameMembers(s, p, q);
  }

  lemma SwapKeepsPair<T(!new)>(less: (T, T) -> bool, s: seq<T>, p: nat, q: nat, i: nat, j: nat)
    requires StrictWeakOrder(less) && SortedBy(less, s)
    requires p < q < |s| && Tied(less, s[p], s[q]) && i < j < |s|
    ensures !less(Swapped(s, p, q)[j], Swapped(s, p, q)[i])
  {
    TiedCompareAlike(less, s[p], s[q], s[i]);
    TiedCompareAlike(less, s[p], s[q], s[j]);
  }

  lemma {:induction false} PlaceExists<T(!new)>(less: (T, T) -> bool, r: seq<T>, x: T) returns (a: nat)
    requires StrictWeakOrder(less) && SortedBy(less, r)
    ensures a <= |r|
    ensures forall k :: 0 <= k < a ==> !less(x, r[k])
    ensures forall k :: a <= k < |r| ==> !less(r[k], x)
  {
    var n := |r| - 1;
    if r == [] || !less(x, r[n]) {
      a := |r|;
      PlaceFound(less, r, x, a);
    } else {
      LessIsOneWay(less, x, r[n]);
      a := PlaceExists(less, r[..n], x);
    }
  }

  lemma {:induction false} SortExists<T(!new)>(less: (T, T) -> bool, s: seq<T>) returns (r: seq<T>)
    requires StrictWeakOrder(less)
    ensures IsSortOf(less, r, s)
  {
    r := [];
    if s != [] {
      var n := |s| - 1;
      var before := SortExists(less, s[..n]);
      var a := PlaceExists(less, before, s[n]);
      InsertKeepsSorted(less, before, a, s[n]);
      r := before[..a] + [s[n]] + before[a..];
      assert s == s[..n] + [s[n]];
    }
  }

  /** In a sorted list two different tied members: positions of them, the earlier one first. */
  lemma FindTied<T>(less: (T, T) -> bool, s: seq<T>) returns (p: nat, q: nat)
    requires !Decides(less, s)
    ensures p < q < |s| && Tied(less, s[p], s[q]) && s[p] != s[q]
  {
    var x, y :| x in s && y in s && x != y && !less(x, y) && !less(y, x);
    var i :| 0 <= i < |s| && s[i] == x;
    var j :| 0 <= j < |s| && s[j] == y;
    p, q := if i < j then i else j, if i < j then j else i;
  }

  lemma DecidesMembers<T>(less: (T, T) -> bool, a: seq<T>, b: seq<T>)
    requires multiset(a) == multiset(b)
    ensures Decides(less, a) <==> Decides(less, b)
  {
    SameMembers(a, b);
  }

  /** The outcome of a sort is determined exactly when the order decides between all members. */
  lemma SortIsDeterminedExactly<T(!new)>(less: (T, T) -> bool, s: seq<T>)
    requires StrictWeakOrder(less)
    ensures Decides(less, s) <==> forall a, b :: IsSortOf(less, a, s) && IsSortOf(less, b, s) ==> a == b
  {
    if Decides(less, s) {
      forall a, b | IsSortOf(less, a, s) && IsSortOf(less, b, s) ensures a == b {
        DecidesMembers(less, a, s);
        SortIsUnique(less, a, b);
      }
    } else {
      var a := SortExists(less, s);
      DecidesMembers(less, a, s);
      var p, q := FindTied(less, a);
      SwapKeepsSort(less, a, p, q);
      assert Swapped(a, p, q)[p] != a[p] && IsSortOf(less, Swapped(a, p, q), s);
    }
  }

  lemma SameLength<T>(a: seq<T>, b: seq<T>)
    requires multiset(a) == multiset(b)
    ensures |a| == |b|
  {
    assert |multiset(a)| == |a| && |multiset(b)| == |b|;
  }

  lemma TailMultiset<T>(a: seq<T>)
    requires a != []
    ensures a == [a[0]] + a[1..] && multiset(a[1..]) == multiset(a) - multiset{a[0]}
  {
    assert a == [a[0]] + a[1..];
  }

  lemma SameFirst<T>(less: (T, T) -> bool, a: seq<T>, b: seq<T>)
    requires SortedBy(less, a) && SortedBy(less, b) && multiset(a) == multiset(b) && Decides(less, a)
    requires a != [] && b != []
    ensures a[0] == b[0]
  {
    SameMembers(a, b);
    assert a[0] in a && b[0] in b;
  }

  lemma SameMembers<T>(a: seq<T>, b: seq<T>)
    requires multiset(a) == multiset(b)
    ensures forall x :: x in a <==> x in b
  {
    forall x ensures x in a <==> x in b {
      assert x in a <==> x in multiset(a);
      assert x in b <==> x in multiset(b);
    }
  }

  function Map<T, U>(f: T -> U, s: seq<T>): (r: seq<U>)
    ensures |r| == |s| && forall i :: 0 <= i < |s| ==> r[i] == f(s[i])
  {
    seq(|s|, i requires 0 <= i < |s| => f(s[i]))
  }

  lemma WithoutCounts<T>(b: seq<T>, k: nat)
    requires k < |b|
    ensures multiset(b) == multiset(Without(b, k)) + multiset{b[k]}
  {
    assert b == b[..k] + [b[k]] + b[k + 1..];
  }

  lemma MapWithout<T, U>(f: T -> U, b: seq<T>, k: nat)
    requires k < |b|
    ensures multiset(Map(f, b)) == multiset(Map(f, Without(b, k))) + multiset{f(b[k])}
  {
    var mb := Map(f, b);
    WithoutCounts(mb, k);
    assert Map(f, Without(b, k)) == Without(mb, k);
  }

  /** Mapping forgets the order of its argument. */
  lemma {:induction false} MapKeepsMultisets<T, U>(f: T -> U, a: seq<T>, b: seq<T>)
    requires multiset(a) == multiset(b)
    ensures multiset(Map(f, a)) == multiset(Map(f, b))
  {
    SameLength(a, b);
    if a != [] {
      var k := Find(b, a);
      MapWithout(f, a, 0);
      MapWithout(f, b, k);
      WithoutCounts(a, 0);
      WithoutCounts(b, k);
      Cancel(multiset(Without(a, 0)), multiset(Without(b, k)), a[0]);
      MapKeepsMultisets(f, Without(a, 0), Without(b, k));
    }
  }

  lemma Cancel<T>(a: multiset<T>, b: multiset<T>, x: T)
    requires a + multiset{x} == b + multiset{x}
    ensures a == b
  {
    assert a == (a + multiset{x}) - multiset{x} && b == (b + multiset{x}) - multiset{x};
  }

  lemma Find<T>(b: seq<T>, a: seq<T>) returns (k: nat)
    requires a != [] && multiset(a) == multiset(b)
    ensures k < |b| && b[k] == a[0]
  {
    SameMembers(a, b);
    assert a[0] in a;
    k :| k < |b| && b[k] == a[0];
  }
}
