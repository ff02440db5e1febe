/**
 Bottom-up merge sort on sequences: what the sort macros of utlist.h and uthash.h
 compute, and that it is the stable sort.
 */
module StableSort {

  /** The macros only ask whether cmp(a, b) <= 0. */
  predicate Leq<E>(cmp: (E, E) -> int, a: E, b: E) {
    cmp(a, b) <= 0
  }

  /** The comparison is a total preorder on the elements of s. */
  ghost predicate Preorder<E>(cmp: (E, E) -> int, s: seq<E>) {
    && (forall a, b | a in s && b in s :: Leq(cmp, a, b) || Leq(cmp, b, a))
    && (forall a, b, c | a in s && b in s && c in s && Leq(cmp, a, b) && Leq(cmp, b, c) :: Leq(cmp, a, c))
  }

  ghost predicate Sorted<E>(cmp: (E, E) -> int, s: seq<E>) {
    forall i, j | 0 <= i < j < |s| :: Leq(cmp, s[i], s[j])
  }

  predicate Same<E>(cmp: (E, E) -> int, a: E, b: E) {
    Leq(cmp, a, b) && Leq(cmp, b, a)
  }

  /** The elements of s that compare equal to e, in order. */
  function Class<E>(cmp: (E, E) -> int, e: E, s: seq<E>): seq<E> {
    if s == [] then []
    else Kept(cmp, e, s[0]) + Class(cmp, e, s[1..])
  }

  function Kept<E>(cmp: (E, E) -> int, e: E, f: E): seq<E> {
    if Same(cmp, e, f) then [f] else []
  }

  /** r is s sorted, equal elements keeping their order. */
  ghost predicate StablySorted<E>(cmp: (E, E) -> int, r: seq<E>, s: seq<E>) {
    && Sorted(cmp, r)
    && multiset(r) == multiset(s)
    && forall e | e in s :: Class(cmp, e, r) == Class(cmp, e, s)
  }

  // ----- the algorithm -----

  function Min(a: nat, b: nat): nat { if a < b then a else b }

  /** Merging two runs, the first one winning ties. */
  function Merge<E>(cmp: (E, E) -> int, x: seq<E>, y: seq<E>): (r: seq<E>)
    ensures |r| == |x| + |y|
  {
    if x == [] then y
    else if y == [] then x
    else if Leq(cmp, x[0], y[0]) then [x[0]] + Merge(cmp, x[1..], y)
    else [y[0]] + Merge(cmp, x, y[1..])
  }

  /** One pass: merge neighbouring runs of k elements. */
  function Pass<E>(cmp: (E, E) -> int, s: seq<E>, k: nat): (r: seq<E>)
    requires k > 0
    ensures |r| == |s|
  {
    if s == [] then []
    else
      var a, b := Min(k, |s|), Min(2 * k, |s|);
      Merge(cmp, s[..a], s[a..b]) + Pass(cmp, s[b..], k)
  }

  /** Passes with runs of k, 2k, 4k, ... elements, until one merge does it. */
  function SortFrom<E>(cmp: (E, E) -> int, s: seq<E>, k: nat): seq<E>
    requires k > 0
    decreases |s| - k
  {
    if |s| <= 2 * k then Pass(cmp, s, k) else SortFrom(cmp, Pass(cmp, s, k), 2 * k)
  }

  // ----- merging -----

  lemma PreorderOf<E>(cmp: (E, E) -> int, s: seq<E>, t: seq<E>)
    requires Preorder(cmp, s) && forall e | e in t :: e in s
    ensures Preorder(cmp, t)
  {
  }

  lemma {:induction false} MergeElements<E>(cmp: (E, E) -> int, x: seq<E>, y: seq<E>)
    ensures multiset(Merge(cmp, x, y)) == multiset(x) + multiset(y)
    ensures forall e | e in Merge(cmp, x, y) :: e in x || e in y
    decreases |x| + |y|
  {
    if x != [] && y != [] {
      if Leq(cmp, x[0], y[0]) {
        MergeElements(cmp, x[1..], y);
        Headed(x);
      } else {
        MergeElements(cmp, x, y[1..]);
        Headed(y);
      }
    }
  }

  lemma Headed<E>(s: seq<E>)
    requires s != []
    ensures s == [s[0]] + s[1..] && multiset(s) == multiset{s[0]} + multiset(s[1..])
  {
    assert s == [s[0]] + s[1..];
  }

  lemma ConsSorted<E>(cmp: (E, E) -> int, e: E, s: seq<E>)
    requires Sorted(cmp, s) && forall f | f in s :: Leq(cmp, e, f)
    ensures Sorted(cmp, [e] + s)
  {
  }

  lemma {:induction false} MergeSorted<E>(cmp: (E, E) -> int, x: seq<E>, y: seq<E>)
    requires Preorder(cmp, x + y) && Sorted(cmp, x) && Sorted(cmp, y)
    ensures Sorted(cmp, Merge(cmp, x, y))
    decreases |x| + |y|
  {
    if x != [] && y != [] {
      assert x[0] in x + y && y[0] in x + y;
      if Leq(cmp, x[0], y[0]) {
        PreorderOf(cmp, x + y, x[1..] + y);
        MergeSorted(cmp, x[1..], y);
        MergeElements(cmp, x[1..], y);
        forall f | f in Merge(cmp, x[1..], y)
          ensures Leq(cmp, x[0], f)
        {
          assert f in x + y;
          if f in y {
            assert Leq(cmp, y[0], f);
          }
        }
        ConsSorted(cmp, x[0], Merge(cmp, x[1..], y));
      } else {
        PreorderOf(cmp, x + y, x + y[1..]);
        MergeSorted(cmp, x, y[1..]);
        MergeElements(cmp, x, y[1..]);
        forall f | f in Merge(cmp, x, y[1..])
          ensures Leq(cmp, y[0], f)
        {
          assert f in x + y;
          if f in x {
            assert Leq(cmp, x[0], f);
          }
        }
        ConsSorted(cmp, y[0], Merge(cmp, x, y[1..]));
      }
    }
  }

  lemma {:induction false} ClassConcat<E>(cmp: (E, E) -> int, e: E, s: seq<E>, t: seq<E>)
    ensures Class(cmp, e, s + t) == Class(cmp, e, s) + Class(cmp, e, t)
  {
    if s == [] {
      assert s + t == t;
    } else {
      ClassConcat(cmp, e, s[1..], t);
      assert (s + t)[1..] == s[1..] + t;
      Chained(Kept(cmp, e, s[0]), Class(cmp, e, s[1..]), Class(cmp, e, t));
    }
  }

  lemma Chained<E>(a: seq<E>, b: seq<E>, c: seq<E>)
    ensures a + (b + c) == a + b + c
  {
  }

  lemma {:induction false} ClassEmpty<E>(cmp: (E, E) -> int, e: E, s: seq<E>)
    requires forall f | f in s :: !Same(cmp, e, f)
    ensures Class(cmp, e, s) == []
  {
    if s != [] {
      ClassEmpty(cmp, e, s[1..]);
    }
  }

  /** Merging keeps the order of equal elements, those of the first run first. */
  lemma {:induction false} MergeClass<E>(cmp: (E, E) -> int, e: E, x: seq<E>, y: seq<E>)
    requires Preorder(cmp, [e] + x + y) && Sorted(cmp, x) && Sorted(cmp, y)
    ensures Class(cmp, e, Merge(cmp, x, y)) == Class(cmp, e, x) + Class(cmp, e, y)
    decreases |x| + |y|
  {
    var all := [e] + x + y;
    if x != [] && y != [] {
      if Leq(cmp, x[0], y[0]) {
        PreorderOf(cmp, all, [e] + x[1..] + y);
        MergeClass(cmp, e, x[1..], y);
        Chained(Kept(cmp, e, x[0]), Class(cmp, e, x[1..]), Class(cmp, e, y));
      } else {
        PreorderOf(cmp, all, [e] + x + y[1..]);
        MergeClass(cmp, e, x, y[1..]);
        if Same(cmp, e, y[0]) {
          NoneBefore(cmp, e, x, y);
        }
        Chained(Kept(cmp, e, y[0]), Class(cmp, e, x), Class(cmp, e, y[1..]));
        Chained(Class(cmp, e, x), Kept(cmp, e, y[0]), Class(cmp, e, y[1..]));
      }
    }
  }

  /** When the head of y goes before that of x, nothing in x is equal to it. */
  lemma NoneBefore<E>(cmp: (E, E) -> int, e: E, x: seq<E>, y: seq<E>)
    requires Preorder(cmp, [e] + x + y) && Sorted(cmp, x)
    requires x != [] && y != [] && !Leq(cmp, x[0], y[0]) && Same(cmp, e, y[0])
    ensures Class(cmp, e, x) == []
  {
    var all := [e] + x + y;
    forall f | f in x
      ensures !Same(cmp, e, f)
    {
      assert f in all && e in all && x[0] in all && y[0] in all;
      assert f == x[0] || Leq(cmp, x[0], f);
    }
    ClassEmpty(cmp, e, x);
  }

  // ----- passes -----

  /** Every aligned run of k elements is sorted. */
  ghost predicate RunsSorted<E>(cmp: (E, E) -> int, s: seq<E>, k: nat)
    requires k > 0
  {
    Sorted(cmp, s[..Min(k, |s|)]) && (|s| > k ==> RunsSorted(cmp, s[k..], k))
  }

  lemma {:induction false} SingletonRuns<E>(cmp: (E, E) -> int, s: seq<E>)
    ensures RunsSorted(cmp, s, 1)
  {
    if |s| > 1 {
      SingletonRuns(cmp, s[1..]);
    }
  }

  /** The two runs a pass merges first are sorted, and so are the later ones. */
  lemma FirstRuns<E>(cmp: (E, E) -> int, s: seq<E>, k: nat)
    requires k > 0 && RunsSorted(cmp, s, k)
    ensures var a, b := Min(k, |s|), Min(2 * k, |s|);
      Sorted(cmp, s[..a]) && Sorted(cmp, s[a..b]) && RunsSorted(cmp, s[b..], k)
  {
    if |s| > k {
      assert s[k..][..Min(k, |s| - k)] == s[k..Min(2 * k, |s|)];
      if |s| > 2 * k {
        assert s[k..][k..] == s[2 * k..];
      }
    }
  }

  lemma {:induction false} PassSorted<E>(cmp: (E, E) -> int, s: seq<E>, k: nat)
    requires k > 0 && Preorder(cmp, s) && RunsSorted(cmp, s, k)
    ensures RunsSorted(cmp, Pass(cmp, s, k), 2 * k)
  {
    if s != [] {
      var a, b := Min(k, |s|), Min(2 * k, |s|);
      FirstRuns(cmp, s, k);
      PreorderOf(cmp, s, s[..a] + s[a..b]);
      PreorderOf(cmp, s, s[b..]);
      MergeSorted(cmp, s[..a], s[a..b]);
      PassSorted(cmp, s[b..], k);
      var m, r := Merge(cmp, s[..a], s[a..b]), Pass(cmp, s, k);
      assert r[..b] == m && r[b..] == Pass(cmp, s[b..], k);
    }
  }

  /** A list cut into the two runs merged first and the rest. */
  lemma Cut<E>(s: seq<E>, a: nat, b: nat)
    requires a <= b <= |s|
    ensures s == s[..a] + s[a..b] + s[b..]
    ensures multiset(s) == multiset(s[..a]) + multiset(s[a..b]) + multiset(s[b..])
  {
    assert s == s[..a] + s[a..b] + s[b..];
  }

  lemma {:induction false} PassElements<E>(cmp: (E, E) -> int, s: seq<E>, k: nat)
    requires k > 0
    ensures multiset(Pass(cmp, s, k)) == multiset(s)
  {
    if s != [] {
      var a, b := Min(k, |s|), Min(2 * k, |s|);
      Cut(s, a, b);
      MergeElements(cmp, s[..a], s[a..b]);
      PassElements(cmp, s[b..], k);
    }
  }

  lemma ClassCut<E>(cmp: (E, E) -> int, e: E, s: seq<E>, a: nat, b: nat)
    requires a <= b <= |s|
    ensures Class(cmp, e, s) == Class(cmp, e, s[..a]) + Class(cmp, e, s[a..b]) + Class(cmp, e, s[b..])
  {
    Cut(s, a, b);
    ClassConcat(cmp, e, s[..a] + s[a..b], s[b..]);
    ClassConcat(cmp, e, s[..a], s[a..b]);
  }

  lemma {:induction false} PassClass<E>(cmp: (E, E) -> int, e: E, s: seq<E>, k: nat)
    requires k > 0 && Preorder(cmp, [e] + s) && RunsSorted(cmp, s, k)
    ensures Class(cmp, e, Pass(cmp, s, k)) == Class(cmp, e, s)
  {
    if s != [] {
      var a, b := Min(k, |s|), Min(2 * k, |s|);
      FirstRuns(cmp, s, k);
      PreorderOf(cmp, [e] + s, [e] + s[..a] + s[a..b]);
      PreorderOf(cmp, [e] + s, [e] + s[b..]);
      MergeClass(cmp, e, s[..a], s[a..b]);
      PassClass(cmp, e, s[b..], k);
      ClassConcat(cmp, e, Merge(cmp, s[..a], s[a..b]), Pass(cmp, s[b..], k));
      ClassCut(cmp, e, s, a, b);
    }
  }

  /** Sorting loses no element, whatever the comparison. */
  lemma {:induction false} SortElements<E>(cmp: (E, E) -> int, s: seq<E>, k: nat)
    requires k > 0
    ensures multiset(SortFrom(cmp, s, k)) == multiset(s)
    decreases |s| - k
  {
    PassElements(cmp, s, k);
    if |s| > 2 * k {
      SortElements(cmp, Pass(cmp, s, k), 2 * k);
    }
  }

  lemma {:induction false} SortFromStable<E>(cmp: (E, E) -> int, s: seq<E>, k: nat)
    requires k > 0 && Preorder(cmp, s) && RunsSorted(cmp, s, k)
    ensures StablySorted(cmp, SortFrom(cmp, s, k), s)
    decreases |s| - k
  {
    var r := Pass(cmp, s, k);
    PassSorted(cmp, s, k);
    PassElements(cmp, s, k);
    forall e | e in r
      ensures e in s
    {
      assert e in multiset(r);
    }
    forall e | e in s
      ensures e in r && Class(cmp, e, r) == Class(cmp, e, s)
    {
      assert e in multiset(s);
      PreorderOf(cmp, s, [e] + s);
      PassClass(cmp, e, s, k);
    }
    if |s| > 2 * k {
      PreorderOf(cmp, s, r);
      SortFromStable(cmp, r, 2 * k);
    } else {
      assert r[..Min(2 * k, |r|)] == r;
    }
  }

  /** Bottom-up merge sort sorts stably. */
  lemma SortIsStable<E>(cmp: (E, E) -> int, s: seq<E>)
    requires Preorder(cmp, s)
    ensures StablySorted(cmp, SortFrom(cmp, s, 1), s)
  {
    SingletonRuns(cmp, s);
    SortFromStable(cmp, s, 1);
  }

  lemma {:induction false} ClassMember<E>(cmp: (E, E) -> int, e: E, s: seq<E>)
    ensures forall f | f in Class(cmp, e, s) :: f in s && Same(cmp, e, f)
  {
    if s != [] {
      ClassMember(cmp, e, s[1..]);
    }
  }

  lemma ClassHead<E>(cmp: (E, E) -> int, all: seq<E>, s: seq<E>)
    requires s != [] && s[0] in all && Preorder(cmp, all)
    ensures Class(cmp, s[0], s) != [] && Class(cmp, s[0], s)[0] == s[0]
  {
  }

  /** The stable sort of a list is unique: any other stable sort gives the same. */
  lemma {:induction false} StableUnique<E>(cmp: (E, E) -> int, r: seq<E>, t: seq<E>)
    requires Preorder(cmp, r + t) && Sorted(cmp, r) && Sorted(cmp, t)
    requires forall e | e in r + t :: Class(cmp, e, r) == Class(cmp, e, t)
    ensures r == t
  {
    if t != [] {
      assert t[0] in r + t;
      ClassHead(cmp, r + t, t);
    }
    if r != [] {
      var e := r[0];
      assert e in r + t;
      ClassHead(cmp, r + t, r);
      ClassMember(cmp, e, t);
      assert e in t;
      var f := t[0];
      assert f in r + t;
      ClassHead(cmp, r + t, t);
      ClassMember(cmp, f, r);
      assert f in r;
      assert Leq(cmp, e, f) && Leq(cmp, f, e);
      assert Class(cmp, e, t)[0] == f;
      PreorderOf(cmp, r + t, r[1..] + t[1..]);
      forall g | g in r[1..] + t[1..]
        ensures Class(cmp, g, r[1..]) == Class(cmp, g, t[1..])
      {
        assert g in r + t;
        var head := if Same(cmp, g, e) then [e] else [];
        assert Class(cmp, g, r) == head + Class(cmp, g, r[1..]);
        assert Class(cmp, g, t) == head + Class(cmp, g, t[1..]);
        assert (head + Class(cmp, g, r[1..]))[|head|..] == Class(cmp, g, r[1..]);
      }
      StableUnique(cmp, r[1..], t[1..]);
    }
  }
}
