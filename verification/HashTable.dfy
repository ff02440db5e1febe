/**
 The chained hash table of uthash.h: elements in a doubly linked list in the order
 they were added, and in one doubly linked chain per bucket; the bucket array
 doubles when a chain gets long.
 */
module HashTable {
  import opened Bits

  type Key = string

  const INITIAL_NUM_BUCKETS: nat := 32
  const INITIAL_NUM_BUCKETS_LOG2: nat := 5
  const BKT_CAPACITY_THRESH: nat := 10

  /** An element with its hash handle. */
  class Elem {
    const key: Key
    var hashv: nat
    var prev: Elem?     // in application order
    var next: Elem?
    var hhPrev: Elem?   // in the bucket
    var hhNext: Elem?

    constructor (k: Key)
      ensures key == k
    {
      key := k;
    }
  }

  datatype Bucket = Bucket(head: Elem?, count: nat, expandMult: nat)

  /** HASH_TO_BKT */
  function ToBucket(hashv: nat, numBuckets: nat): nat
    requires numBuckets > 0
  {
    And(hashv, numBuckets - 1)
  }

  lemma BucketInRange(hashv: nat, k: nat)
    ensures ToBucket(hashv, Pow2(k)) == hashv % Pow2(k) < Pow2(k)
  {
    AndMask(hashv, k);
  }

  function Ref(s: seq<Elem>, i: nat): Elem? {
    if i < |s| then s[i] else null
  }

  ghost predicate Distinct<T>(s: seq<T>) {
    forall i, j | 0 <= i < j < |s| :: s[i] != s[j]
  }

  /** The elements of s are linked in application order. */
  ghost predicate OrderLinks(s: seq<Elem>)
    reads s`next, s`prev
  {
    NextLinks(s) && PrevLinks(s)
  }

  ghost predicate NextLinks(s: seq<Elem>)
    reads s`next
  {
    forall i {:trigger s[i].next} | 0 <= i < |s| :: s[i].next == Ref(s, i + 1)
  }

  ghost predicate PrevLinks(s: seq<Elem>)
    reads s`prev
  {
    forall i {:trigger s[i].prev} | 0 <= i < |s| :: s[i].prev == if i == 0 then null else s[i - 1]
  }

  /** The elements of c are linked as a chain from its i-th one on. */
  ghost predicate ChainFrom(c: seq<Elem>, i: nat)
    reads c`hhNext
  {
    forall t {:trigger c[t].hhNext} | i <= t < |c| :: c[t].hhNext == Ref(c, t + 1)
  }

  ghost predicate ChainBack(c: seq<Elem>)
    reads c`hhPrev
  {
    forall t {:trigger c[t].hhPrev} | 0 <= t < |c| :: c[t].hhPrev == if t == 0 then null else c[t - 1]
  }

  /** The elements of c belong in bucket b of n. */
  ghost predicate Belongs(c: seq<Elem>, b: nat, n: nat)
    requires n > 0
    reads c`hashv
  {
    Distinct(c) && forall t | 0 <= t < |c| :: ToBucket(c[t].hashv, n) == b
  }

  /** Bucket b of n holds exactly the chain c. */
  ghost predicate Holds(bucket: Bucket, c: seq<Elem>, b: nat, n: nat)
    requires n > 0
    reads c`hhNext, c`hhPrev, c`hashv
  {
    && bucket.head == Ref(c, 0)
    && bucket.count == |c|
    && ChainFrom(c, 0)
    && ChainBack(c)
    && Belongs(c, b, n)
  }

  /** All elements of all chains, with multiplicity. */
  ghost function Flat(chains: seq<seq<Elem>>): multiset<Elem> {
    if chains == [] then multiset{} else multiset(chains[0]) + Flat(chains[1..])
  }

  lemma {:induction false} FlatUpdate(chains: seq<seq<Elem>>, b: nat, c: seq<Elem>)
    requires b < |chains|
    ensures Flat(chains[b := c]) + multiset(chains[b]) == Flat(chains) + multiset(c)
  {
    var u, rest := chains[b := c], chains[1..];
    assert Flat(u) == multiset(u[0]) + Flat(u[1..]);
    if b == 0 {
      assert u[1..] == rest;
    } else {
      FlatUpdate(rest, b - 1, c);
      assert u[1..] == rest[b - 1 := c] && rest[b - 1] == chains[b] && u[0] == chains[0];
      var a, r, r' := multiset(chains[0]), Flat(rest), Flat(u[1..]);
      assert (a + r') + multiset(chains[b]) == a + (r' + multiset(chains[b])) == a + (r + multiset(c)) == (a + r) + multiset(c);
    }
  }

  lemma FlatPush(chains: seq<seq<Elem>>, b: nat, x: Elem)
    requires b < |chains|
    ensures Flat(chains[b := [x] + chains[b]]) == Flat(chains) + multiset{x}
  {
    var c := chains[b];
    FlatUpdate(chains, b, [x] + c);
    assert multiset([x] + c) == multiset{x} + multiset(c);
    SumChange(Flat(chains), Flat(chains[b := [x] + c]), multiset(c), x);
  }

  lemma SumChange(f: multiset<Elem>, f': multiset<Elem>, c: multiset<Elem>, x: Elem)
    requires f' + c == f + (multiset{x} + c)
    ensures f' == f + multiset{x}
  {
    assert f' == (f' + c) - c;
    assert f + multiset{x} == (f + (multiset{x} + c)) - c;
  }

  lemma FlatDrop(chains: seq<seq<Elem>>, b: nat, k: nat)
    requires b < |chains| && k < |chains[b]|
    ensures Flat(chains) == Flat(chains[b := Without(chains[b], k)]) + multiset{chains[b][k]}
  {
    var c, d := chains[b], Without(chains[b], k);
    FlatUpdate(chains, b, d);
    WithoutCount(c, k);
    SumChange(Flat(chains[b := d]), Flat(chains), multiset(d), c[k]);
  }

  lemma WithoutCount(c: seq<Elem>, k: nat)
    requires k < |c|
    ensures multiset(c) == multiset{c[k]} + multiset(Without(c, k))
  {
    assert c == c[..k] + [c[k]] + c[k + 1..];
  }

  lemma Cancel(a: multiset<Elem>, b: multiset<Elem>, x: Elem)
    requires a + multiset{x} == b + multiset{x}
    ensures a == b
  {
    assert a == (a + multiset{x}) - multiset{x};
    assert b == (b + multiset{x}) - multiset{x};
  }

  lemma {:induction false} FlatMember(chains: seq<seq<Elem>>, b: nat, i: nat)
    requires b < |chains| && i < |chains[b]|
    ensures chains[b][i] in Flat(chains)
  {
    if b > 0 {
      FlatMember(chains[1..], b - 1, i);
    }
  }

  lemma {:induction false} FlatFind(chains: seq<seq<Elem>>, x: Elem) returns (b: nat, i: nat)
    requires x in Flat(chains)
    ensures b < |chains| && i < |chains[b]| && chains[b][i] == x
  {
    if x in multiset(chains[0]) {
      assert x in chains[0];
      b := 0;
      i :| 0 <= i < |chains[0]| && chains[0][i] == x;
    } else {
      b, i := FlatFind(chains[1..], x);
      b := b + 1;
    }
  }

  lemma {:induction false} FlatEmpty(chains: seq<seq<Elem>>)
    requires forall b | 0 <= b < |chains| :: chains[b] == []
    ensures Flat(chains) == multiset{}
  {
    if chains != [] {
      FlatEmpty(chains[1..]);
    }
  }

  ghost function Without<T>(s: seq<T>, k: nat): seq<T>
    requires k < |s|
  {
    s[..k] + s[k + 1..]
  }

  lemma WithoutAt<T>(s: seq<T>, k: nat)
    requires k < |s|
    ensures forall t | 0 <= t < |s| - 1 :: Without(s, k)[t] == s[if t < k then t else t + 1]
    ensures Distinct(s) ==> Distinct(Without(s, k))
  {
  }

  lemma LastWithout(s: seq<Elem>, k: nat)
    requires Distinct(s) && k < |s| && |s| > 1
    ensures s[k] == s[|s| - 1] <==> k == |s| - 1
    ensures Distinct(Without(s, k)) && Without(s, k) != []
    ensures Without(s, k)[|s| - 2] == if k == |s| - 1 then s[k - 1] else s[|s| - 1]
  {
    WithoutAt(s, k);
  }

  /** The forward links without the k-th element, from those of all the others. */
  lemma NextWithout(s: seq<Elem>, k: nat)
    requires k < |s|
    requires forall i {:trigger s[i].next} | 0 <= i < |s| && i != k ::
      s[i].next == Ref(s, if i + 1 == k then k + 1 else i + 1)
    ensures NextLinks(Without(s, k))
  {
    var r := Without(s, k);
    WithoutAt(s, k);
    forall i | 0 <= i < |r|
      ensures r[i].next == Ref(r, i + 1)
    {
      assert r[i] == s[if i < k then i else i + 1];
    }
  }

  lemma PrevWithout(s: seq<Elem>, k: nat)
    requires k < |s|
    requires forall i {:trigger s[i].prev} | 0 <= i < |s| && i != k ::
      s[i].prev == (var j := if i == k + 1 then k else i; if j == 0 then null else s[j - 1])
    ensures PrevLinks(Without(s, k))
  {
    var r := Without(s, k);
    WithoutAt(s, k);
    forall i | 0 <= i < |r|
      ensures r[i].prev == if i == 0 then null else r[i - 1]
    {
      assert r[i] == s[if i < k then i else i + 1];
    }
  }

  lemma BelongsWithout(c: seq<Elem>, k: nat, b: nat, n: nat)
    requires n > 0 && Belongs(c, b, n) && k < |c|
    ensures Belongs(Without(c, k), b, n)
  {
  }

  // ----- one chain -----

  /** HASH_ADD_TO_BKT, without the expansion: put x at the head of a chain. */
  method PushChain(bucket: Bucket, x: Elem, ghost c: seq<Elem>, ghost b: nat, ghost n: nat) returns (bucket': Bucket)
    requires n > 0 && Holds(bucket, c, b, n)
    requires x !in c && ToBucket(x.hashv, n) == b
    modifies x`hhNext, x`hhPrev, c`hhPrev
    ensures Holds(bucket', [x] + c, b, n) && bucket'.expandMult == bucket.expandMult
    ensures forall t | 1 <= t < |c| :: c[t].hhPrev == old(c[t].hhPrev)
  {
    bucket' := bucket.(count := bucket.count + 1);
    x.hhNext := bucket.head;
    x.hhPrev := null;
    if bucket.head != null {
      assert bucket.head == c[0];
      bucket.head.hhPrev := x;
    }
    bucket' := bucket'.(head := x);
  }

  /** HASH_DEL_IN_BKT: unlink x, the k-th element of a chain. */
  method DropFromChain(bucket: Bucket, x: Elem, ghost c: seq<Elem>, ghost k: nat, ghost b: nat, ghost n: nat)
    returns (bucket': Bucket)
    requires n > 0 && Holds(bucket, c, b, n) && k < |c| && c[k] == x
    modifies c`hhNext, c`hhPrev
    ensures Holds(bucket', Without(c, k), b, n)
  {
    BelongsWithout(c, k, b, n);
    bucket' := bucket.(count := bucket.count - 1);
    if bucket'.head == x {
      bucket' := bucket'.(head := x.hhNext);
    }
    assert x.hhPrev == if k == 0 then null else c[k - 1];
    if x.hhPrev != null {
      x.hhPrev.hhNext := x.hhNext;
    }
    assert x.hhNext == Ref(c, k + 1);
    if x.hhNext != null {
      x.hhNext.hhPrev := x.hhPrev;
    }
    ghost var d := Without(c, k);
    forall t | 0 <= t < |d|
      ensures d[t].hhNext == Ref(d, t + 1) && d[t].hhPrev == if t == 0 then null else d[t - 1]
    {
      assert d[t] == c[if t < k then t else t + 1];
    }
  }

  /** HASH_FIND_IN_BKT: the element of a chain with the given key. */
  method FindInChain(bucket: Bucket, key: Key, hashv: nat, ghost c: seq<Elem>, ghost b: nat, ghost n: nat)
    returns (out: Elem?)
    requires n > 0 && Holds(bucket, c, b, n)
    ensures out != null ==> out in c && out.hashv == hashv && out.key == key
    ensures out == null ==> forall t | 0 <= t < |c| :: c[t].hashv != hashv || c[t].key != key
  {
    out := bucket.head;
    ghost var i := 0;
    while out != null
      invariant i <= |c| && out == Ref(c, i)
      invariant forall t | 0 <= t < i :: c[t].hashv != hashv || c[t].key != key
      decreases |c| - i
    {
      if out.hashv == hashv && |out.key| == |key| {
        if out.key == key {
          break;
        }
      }
      assert out.hhNext == Ref(c, i + 1);
      out := out.hhNext;
      i := i + 1;
    }
  }

  // ----- all chains -----

  ghost predicate Inside(c: seq<Elem>, elems: set<Elem>) {
    forall t | 0 <= t < |c| :: c[t] in elems
  }

  /** Bucket b holds chain b, for all b below n; the elements are among `elems`. */
  ghost predicate AllHold(buckets: seq<Bucket>, chains: seq<seq<Elem>>, n: nat, elems: set<Elem>)
    reads elems`hhNext, elems`hhPrev, elems`hashv
  {
    && |buckets| == |chains| == n > 0
    && forall b {:trigger chains[b]} | 0 <= b < n :: Inside(chains[b], elems) && Holds(buckets[b], chains[b], b, n)
  }

  /** The expansion multiplier of a bucket has no part in what it holds. */
  lemma AnyMultiplier(buckets: seq<Bucket>, buckets': seq<Bucket>, chains: seq<seq<Elem>>, n: nat, elems: set<Elem>)
    requires AllHold(buckets, chains, n, elems) && |buckets'| == n
    requires forall b | 0 <= b < n :: buckets'[b].head == buckets[b].head && buckets'[b].count == buckets[b].count
    ensures AllHold(buckets', chains, n, elems)
  {
    forall b | 0 <= b < n
      ensures Inside(chains[b], elems) && Holds(buckets'[b], chains[b], b, n)
    {
      assert Holds(buckets[b], chains[b], b, n);
    }
  }

  /** Put a new element into its bucket. */
  method PushInto(buckets: array<Bucket>, b: nat, x: Elem, ghost chains: seq<seq<Elem>>, ghost n: nat, ghost elems: set<Elem>)
    requires AllHold(buckets[..], chains, n, elems) && x !in elems && b < n && ToBucket(x.hashv, n) == b
    modifies buckets, x`hhNext, x`hhPrev, elems`hhPrev
    ensures AllHold(buckets[..], chains[b := [x] + chains[b]], n, elems + {x})
    ensures buckets[b].expandMult == old(buckets[b].expandMult) && buckets[b].count == |chains[b]| + 1
    ensures forall d | 0 <= d < n && d != b :: buckets[d] == old(buckets[d])
  {
    ghost var c := chains[b];
    AllElsewhere(buckets[..], chains, b, n, elems);
    assert Holds(buckets[..][b], c, b, n);
    var bucket := PushChain(buckets[b], x, c, b, n);
    buckets[b] := bucket;
    ghost var chains' := chains[b := [x] + c];
    forall d | 0 <= d < n
      ensures Holds(buckets[..][d], chains'[d], d, n)
    {
      if d != b {
        assert old(Holds(buckets[..][d], chains[d], d, n));
        assert forall t | 0 <= t < |chains[d]| :: chains[d][t] !in c && chains[d][t] != x;
      }
    }
  }

  /** What is in one bucket is in no other. */
  lemma Elsewhere(chains: seq<seq<Elem>>, b: nat, d: nat, n: nat)
    requires n > 0 && b < |chains| && d < |chains| && b != d
    requires Belongs(chains[b], b, n) && Belongs(chains[d], d, n)
    ensures forall t | 0 <= t < |chains[d]| :: chains[d][t] !in chains[b]
  {
  }

  lemma AllElsewhere(buckets: seq<Bucket>, chains: seq<seq<Elem>>, b: nat, n: nat, elems: set<Elem>)
    requires AllHold(buckets, chains, n, elems) && b < n
    ensures forall d, t | 0 <= d < n && d != b && 0 <= t < |chains[d]| :: chains[d][t] !in chains[b]
  {
    forall d | 0 <= d < n && d != b
      ensures forall t | 0 <= t < |chains[d]| :: chains[d][t] !in chains[b]
    {
      assert Holds(buckets[b], chains[b], b, n) && Holds(buckets[d], chains[d], d, n);
      Elsewhere(chains, b, d, n);
    }
  }

  /** Take an element out of its bucket. */
  method DropFrom(buckets: array<Bucket>, b: nat, x: Elem, ghost chains: seq<seq<Elem>>, ghost k: nat, ghost n: nat, ghost elems: set<Elem>)
    requires AllHold(buckets[..], chains, n, elems) && b < n && k < |chains[b]| && chains[b][k] == x
    modifies buckets, elems`hhNext, elems`hhPrev
    ensures AllHold(buckets[..], chains[b := Without(chains[b], k)], n, elems - {x})
  {
    ghost var c := chains[b];
    ghost var chains' := chains[b := Without(c, k)];
    AllElsewhere(buckets[..], chains, b, n, elems);
    InsideWithout(buckets[..], chains, b, k, n, elems);
    assert Holds(buckets[..][b], c, b, n);
    var bucket := DropFromChain(buckets[b], x, c, k, b, n);
    buckets[b] := bucket;
    forall d | 0 <= d < n
      ensures Holds(buckets[..][d], chains'[d], d, n)
    {
      if d != b {
        assert old(Holds(buckets[..][d], chains[d], d, n));
        assert forall t | 0 <= t < |chains[d]| :: chains[d][t] !in c;
      }
    }
  }

  lemma InsideWithout(buckets: seq<Bucket>, chains: seq<seq<Elem>>, b: nat, k: nat, n: nat, elems: set<Elem>)
    requires AllHold(buckets, chains, n, elems) && b < n && k < |chains[b]|
    ensures var chains' := chains[b := Without(chains[b], k)];
      forall d | 0 <= d < n :: Inside(chains'[d], elems - {chains[b][k]})
  {
    var c, chains' := chains[b], chains[b := Without(chains[b], k)];
    AllElsewhere(buckets, chains, b, n, elems);
    WithoutAt(c, k);
    forall d | 0 <= d < n
      ensures Inside(chains'[d], elems - {c[k]})
    {
      assert Inside(chains[d], elems) && Holds(buckets[d], chains[d], d, n);
      if d == b {
        WithoutGone(c, k);
        assert forall t | 0 <= t < |chains'[d]| :: chains'[d][t] in chains'[d];
      }
    }
  }

  // ----- bucket expansion -----

  /** While expanding: `left` are the chains not yet moved, the first one partly. */
  ghost predicate Left(left: seq<seq<Elem>>, i: nat, n: nat, elems: set<Elem>, moved: set<Elem>)
    reads elems`hhNext, elems`hashv
  {
    && n > 0 && moved <= elems
    && forall d {:trigger left[d]} | 0 <= d < |left| ::
         Inside(left[d], elems - moved) && ChainFrom(left[d], 0) && Belongs(left[d], i + d, n)
  }

  lemma LeftTail(left: seq<seq<Elem>>, i: nat, n: nat, elems: set<Elem>, moved: set<Elem>)
    requires left != [] && left[0] != [] && Left(left, i, n, elems, moved)
    ensures Left(left[0 := left[0][1..]], i, n, elems, moved + {left[0][0]})
  {
    var x, r := left[0][0], left[0][1..];
    var left' := left[0 := r];
    assert Inside(left[0], elems - moved) && Belongs(left[0], i, n) && ChainFrom(left[0], 0);
    assert x in elems;
    forall d | 0 <= d < |left'|
      ensures Inside(left'[d], elems - (moved + {x})) && ChainFrom(left'[d], 0) && Belongs(left'[d], i + d, n)
    {
      if d == 0 {
        assert forall t | 0 <= t < |r| :: r[t] == left[0][t + 1];
      } else {
        assert Inside(left[d], elems - moved) && Belongs(left[d], i + d, n) && ChainFrom(left[d], 0);
      }
    }
  }

  lemma InitialPower()
    ensures INITIAL_NUM_BUCKETS == Pow2(INITIAL_NUM_BUCKETS_LOG2)
  {
    assert Pow2(3) == 8;
  }

  /** c is n/m rounded up. */
  ghost predicate RoundedUp(c: nat, n: nat, m: nat) {
    n <= c * m < n + m
  }

  /** Before the first and after each bucket of the expansion. */
  lemma LeftStart(buckets: seq<Bucket>, chains: seq<seq<Elem>>, n: nat, elems: set<Elem>)
    requires AllHold(buckets, chains, n, elems)
    ensures Left(chains, 0, n, elems, {})
    ensures forall b | 0 <= b < n :: buckets[b].head == Ref(chains[b], 0)
  {
    forall d | 0 <= d < |chains|
      ensures Inside(chains[d], elems - {}) && ChainFrom(chains[d], 0) && Belongs(chains[d], d, n)
      ensures buckets[d].head == Ref(chains[d], 0)
    {
      assert Inside(chains[d], elems) && Holds(buckets[d], chains[d], d, n);
    }
  }

  lemma LeftNext(left: seq<seq<Elem>>, i: nat, n: nat, elems: set<Elem>, moved: set<Elem>)
    requires left != [] && Left(left[0 := []], i, n, elems, moved)
    ensures Left(left[1..], i + 1, n, elems, moved)
    ensures Flat(left[0 := []]) == Flat(left[1..])
  {
    var done, rest := left[0 := []], left[1..];
    assert done[1..] == rest;
    forall d | 0 <= d < |rest|
      ensures Inside(rest[d], elems - moved) && ChainFrom(rest[d], 0) && Belongs(rest[d], i + 1 + d, n)
    {
      assert rest[d] == done[d + 1];
      assert Inside(done[d + 1], elems - moved) && ChainFrom(done[d + 1], 0) && Belongs(done[d + 1], i + (d + 1), n);
    }
  }

  lemma HeadsOf(bs: seq<Bucket>, chains: seq<seq<Elem>>, n: nat, elems: set<Elem>)
    requires AllHold(bs, chains, n, elems)
    ensures |bs| == |chains| == n && forall b | 0 <= b < n :: bs[b].head == Ref(chains[b], 0)
  {
    forall b | 0 <= b < n
      ensures bs[b].head == Ref(chains[b], 0)
    {
      assert Holds(bs[b], chains[b], b, n);
    }
  }

  lemma TailOf(chains: seq<seq<Elem>>, i: nat, left: seq<seq<Elem>>)
    requires i < |chains| && left == chains[i..]
    ensures left != [] && left[0] == chains[i] && left[1..] == chains[i + 1..]
  {
  }

  lemma EmptyHold(buckets: seq<Bucket>, chains: seq<seq<Elem>>, n: nat)
    requires |buckets| == |chains| == n > 0
    requires forall b | 0 <= b < n :: buckets[b] == Bucket(null, 0, 0) && chains[b] == []
    ensures AllHold(buckets, chains, n, {}) && Flat(chains) == multiset{}
  {
    FlatEmpty(chains);
  }

  lemma Widen(buckets: seq<Bucket>, chains: seq<seq<Elem>>, n: nat, elems: set<Elem>, elems': set<Elem>)
    requires AllHold(buckets, chains, n, elems) && elems <= elems'
    ensures AllHold(buckets, chains, n, elems')
  {
    forall b | 0 <= b < n
      ensures Inside(chains[b], elems') && Holds(buckets[b], chains[b], b, n)
    {
      assert Inside(chains[b], elems) && Holds(buckets[b], chains[b], b, n);
    }
  }

  /** The list holds the elements, and each is the one found under its key. */
  ghost predicate Represents(contents: map<Key, Elem>, elems: set<Elem>, order: seq<Elem>) {
    && (forall k | k in contents :: contents[k] in elems && contents[k].key == k)
    && (forall x | x in elems :: x.key in contents && contents[x.key] == x)
    && (forall x | x in elems :: x in multiset(order))
    && (forall x | x in multiset(order) :: x in elems)
  }

  lemma RepresentsAdd(contents: map<Key, Elem>, elems: set<Elem>, order: seq<Elem>, x: Elem)
    requires Represents(contents, elems, order) && x !in elems && x.key !in contents
    ensures Represents(contents[x.key := x], elems + {x}, order + [x])
    ensures multiset(order + [x]) == multiset(order) + multiset{x} && x !in order
  {
  }

  lemma RepresentsDrop(contents: map<Key, Elem>, elems: set<Elem>, order: seq<Elem>, k: nat)
    requires Represents(contents, elems, order) && Distinct(order) && k < |order|
    ensures Represents(contents - {order[k].key}, elems - {order[k]}, Without(order, k))
    ensures multiset(Without(order, k)) + multiset{order[k]} == multiset(order)
  {
    WithoutCount(order, k);
    WithoutGone(order, k);
    assert order[k] in multiset(order);
  }

  lemma WithoutGone(s: seq<Elem>, k: nat)
    requires Distinct(s) && k < |s|
    ensures s[k] !in Without(s, k)
  {
    WithoutAt(s, k);
    forall t | 0 <= t < |s| - 1
      ensures Without(s, k)[t] != s[k]
    {
      assert Without(s, k)[t] == s[if t < k then t else t + 1];
    }
  }

  // ----- how full the buckets are -----

  /** How many elements are beyond the ideal length of their chain. */
  ghost function Excess(chains: seq<seq<Elem>>, ideal: nat): nat {
    if chains == [] then 0
    else (if |chains[0]| > ideal then |chains[0]| - ideal else 0) + Excess(chains[1..], ideal)
  }

  /** The multiplier of a bucket after an expansion: its length in ideal lengths, if it exceeds one. */
  ghost predicate Multiplied(bs: seq<Bucket>, chains: seq<seq<Elem>>, ideal: nat)
    requires ideal > 0
  {
    && |bs| == |chains|
    && forall b | 0 <= b < |bs| :: bs[b].expandMult == if |chains[b]| > ideal then |chains[b]| / ideal else 0
  }

  ghost predicate Counted(bs: seq<Bucket>, chains: seq<seq<Elem>>, ideal: nat, nonideal: nat)
    requires ideal > 0
  {
    Multiplied(bs, chains, ideal) && nonideal == Excess(chains, ideal)
  }

  lemma {:induction false} ExcessPush(chains: seq<seq<Elem>>, b: nat, x: Elem, ideal: nat)
    requires b < |chains|
    ensures Excess(chains[b := [x] + chains[b]], ideal) == Excess(chains, ideal) + if |chains[b]| >= ideal then 1 else 0
  {
    var u := chains[b := [x] + chains[b]];
    if b == 0 {
      assert u[1..] == chains[1..];
    } else {
      ExcessPush(chains[1..], b - 1, x, ideal);
      assert u[1..] == chains[1..][b - 1 := [x] + chains[1..][b - 1]] && u[0] == chains[0];
    }
  }

  lemma {:induction false} NoExcess(n: nat, ideal: nat)
    ensures Excess(seq(n, _ => []), ideal) == 0
  {
    if n > 0 {
      NoExcess(n - 1, ideal);
      var none: seq<seq<Elem>> := seq(n, _ => []);
      assert none[1..] == seq(n - 1, _ => []);
    }
  }

  /** The chain of one more element with this hash value would be too long: it would have ten
      elements, or ten more for each unit of the multiplier of its bucket. */
  ghost predicate Full(bs: seq<Bucket>, chains: seq<seq<Elem>>, n: nat, hashv: nat) {
    && n > 0 && ToBucket(hashv, n) < |chains| && ToBucket(hashv, n) < |bs|
    && |chains[ToBucket(hashv, n)]| + 1 >= 10 * (bs[ToBucket(hashv, n)].expandMult + 1)
  }

  lemma FirstBuckets(bs: seq<Bucket>, chains: seq<seq<Elem>>)
    requires |bs| == |chains| == 32
    requires forall b | 0 <= b < 32 :: bs[b] == Bucket(null, 0, 0) && chains[b] == []
    ensures AllHold(bs, chains, 32, {}) && Flat(chains) == multiset{}
  {
    EmptyHold(bs, chains, 32);
  }

  /** One more element in bucket b. */
  lemma CountOne(bs: seq<Bucket>, bs': seq<Bucket>, chains: seq<seq<Elem>>, b: nat, x: Elem, ideal: nat, nonideal: nat)
    requires ideal > 0 && Counted(bs, chains, ideal, nonideal) && b < |bs| == |bs'|
    requires forall d | 0 <= d < |bs| && d != b :: bs'[d].expandMult == bs[d].expandMult
    requires bs'[b].expandMult == if |chains[b]| >= ideal then (|chains[b]| + 1) / ideal else bs[b].expandMult
    ensures Counted(bs', chains[b := [x] + chains[b]], ideal, nonideal + if |chains[b]| >= ideal then 1 else 0)
  {
    ExcessPush(chains, b, x, ideal);
  }

  // ----- counting the elements -----

  ghost function Total(chains: seq<seq<Elem>>): nat {
    if chains == [] then 0 else Total(chains[..|chains| - 1]) + |chains[|chains| - 1]|
  }

  lemma TotalNext(chains: seq<seq<Elem>>, i: nat)
    requires i < |chains|
    ensures Total(chains[..i + 1]) == Total(chains[..i]) + |chains[i]|
  {
    assert chains[..i + 1][..i] == chains[..i];
  }

  lemma {:induction false} FlatTotal(chains: seq<seq<Elem>>)
    ensures |Flat(chains)| == Total(chains)
  {
    if chains != [] {
      var before, last := chains[..|chains| - 1], chains[|chains| - 1];
      FlatTotal(before);
      assert before + [last] == chains;
      FlatEnd(before, last);
    }
  }

  lemma {:induction false} FlatEnd(chains: seq<seq<Elem>>, c: seq<Elem>)
    ensures Flat(chains + [c]) == Flat(chains) + multiset(c)
  {
    if chains == [] {
      assert chains + [c] == [c] && [c][1..] == [];
    } else {
      FlatEnd(chains[1..], c);
      assert (chains + [c])[1..] == chains[1..] + [c];
    }
  }

  class Table {
    const hash: Key -> nat
    var head: Elem?                 // first element; NULL when there is no table
    var tail: Elem?
    var buckets: array<Bucket>
    var numBuckets: nat
    var log2NumBuckets: nat
    var numItems: nat
    var idealChainMaxlen: nat
    var nonidealItems: nat
    var ineffExpands: nat
    var noexpand: bool
    ghost var order: seq<Elem>
    ghost var chains: seq<seq<Elem>>
    ghost var elems: set<Elem>
    ghost var contents: map<Key, Elem>

    /** The buckets and their number. */
    ghost predicate BucketsOk()
      reads `buckets, `numBuckets, `log2NumBuckets, `chains, `elems, buckets
      reads elems`hhNext, elems`hhPrev, elems`hashv
    {
      && numBuckets == Pow2(log2NumBuckets)
      && AllHold(buckets[..], chains, numBuckets, elems)
    }

    /** The body of the expansion loop: move one element to its new bucket. */
    method MoveToNew(newBuckets: array<Bucket>, x: Elem, ghost newChains: seq<seq<Elem>>, ghost moved: set<Elem>, ghost k: nat)
      returns (ghost newChains': seq<seq<Elem>>)
      requires AllHold(newBuckets[..], newChains, newBuckets.Length, moved) && x !in moved
      requires newBuckets.Length == Pow2(k) && idealChainMaxlen > 0
      requires Counted(newBuckets[..], newChains, idealChainMaxlen, nonidealItems)
      modifies newBuckets, x`hhNext, x`hhPrev, moved`hhPrev, `nonidealItems
      ensures AllHold(newBuckets[..], newChains', newBuckets.Length, moved + {x})
      ensures Counted(newBuckets[..], newChains', idealChainMaxlen, nonidealItems)
      ensures Flat(newChains') == Flat(newChains) + multiset{x}
    {
      BucketInRange(x.hashv, k);
      var bkt := ToBucket(x.hashv, newBuckets.Length);
      ghost var before, nonideal := newBuckets[..], nonidealItems;
      PushInto(newBuckets, bkt, x, newChains, newBuckets.Length, moved);
      newChains' := newChains[bkt := [x] + newChains[bkt]];
      FlatPush(newChains, bkt, x);
      NoteLength(newBuckets, bkt, newChains', moved + {x});
      CountOne(before, newBuckets[..], newChains, bkt, x, idealChainMaxlen, nonideal);
    }

    /** Count an element beyond the ideal chain length; the division is by no zero. */
    method NoteLength(newBuckets: array<Bucket>, bkt: nat, ghost newChains: seq<seq<Elem>>, ghost moved: set<Elem>)
      requires AllHold(newBuckets[..], newChains, newBuckets.Length, moved) && bkt < newBuckets.Length
      requires idealChainMaxlen > 0
      modifies newBuckets, `nonidealItems
      ensures AllHold(newBuckets[..], newChains, newBuckets.Length, moved)
      ensures nonidealItems == old(nonidealItems) + if |newChains[bkt]| > idealChainMaxlen then 1 else 0
      ensures forall d | 0 <= d < newBuckets.Length && d != bkt :: newBuckets[d] == old(newBuckets[d])
      ensures newBuckets[bkt].expandMult ==
        if |newChains[bkt]| > idealChainMaxlen then |newChains[bkt]| / idealChainMaxlen else old(newBuckets[bkt].expandMult)
    {
      ghost var before := newBuckets[..];
      assert Holds(before[bkt], newChains[bkt], bkt, newBuckets.Length);
      if newBuckets[bkt].count > idealChainMaxlen {
        nonidealItems := nonidealItems + 1;
        newBuckets[bkt] := newBuckets[bkt].(expandMult := newBuckets[bkt].count / idealChainMaxlen);
        AnyMultiplier(before, newBuckets[..], newChains, newBuckets.Length, moved);
      }
    }

    /** One turn of the inner loop. */
    method MoveOne(newBuckets: array<Bucket>, x: Elem, ghost newChains: seq<seq<Elem>>, ghost moved: set<Elem>,
                   ghost left: seq<seq<Elem>>, ghost i: nat, ghost n: nat, ghost k: nat)
      returns (next: Elem?, ghost newChains': seq<seq<Elem>>, ghost left': seq<seq<Elem>>)
      requires AllHold(newBuckets[..], newChains, newBuckets.Length, moved)
      requires newBuckets.Length == Pow2(k) && idealChainMaxlen > 0
      requires left != [] && Left(left, i, n, elems, moved) && left[0] != [] && x == left[0][0]
      requires Counted(newBuckets[..], newChains, idealChainMaxlen, nonidealItems)
      modifies newBuckets, elems`hhNext, elems`hhPrev, `nonidealItems
      ensures Counted(newBuckets[..], newChains', idealChainMaxlen, nonidealItems)
      ensures AllHold(newBuckets[..], newChains', newBuckets.Length, moved + {x})
      ensures left' == left[0 := left[0][1..]] && Left(left', i, n, elems, moved + {x})
      ensures next == Ref(left'[0], 0)
      ensures Flat(newChains') + Flat(left') == Flat(newChains) + Flat(left)
    {
      LeftTail(left, i, n, elems, moved);
      FlatDrop(left, 0, 0);
      left' := left[0 := left[0][1..]];
      assert Inside(left[0], elems - moved) && ChainFrom(left[0], 0);
      assert Without(left[0], 0) == left'[0];
      next := x.hhNext;
      newChains' := MoveToNew(newBuckets, x, newChains, moved, k);
    }

    /** Moving all of one old chain to the new buckets. */
    method MoveChain(newBuckets: array<Bucket>, first: Elem?, ghost newChains0: seq<seq<Elem>>, ghost moved0: set<Elem>,
                     ghost left0: seq<seq<Elem>>, ghost i: nat, ghost n: nat, ghost k: nat)
      returns (ghost newChains: seq<seq<Elem>>, ghost moved: set<Elem>)
      requires AllHold(newBuckets[..], newChains0, newBuckets.Length, moved0)
      requires newBuckets.Length == Pow2(k) && idealChainMaxlen > 0
      requires left0 != [] && Left(left0, i, n, elems, moved0) && first == Ref(left0[0], 0)
      requires Counted(newBuckets[..], newChains0, idealChainMaxlen, nonidealItems)
      modifies newBuckets, elems`hhNext, elems`hhPrev, `nonidealItems
      ensures Counted(newBuckets[..], newChains, idealChainMaxlen, nonidealItems)
      ensures AllHold(newBuckets[..], newChains, newBuckets.Length, moved)
      ensures Left(left0[1..], i + 1, n, elems, moved)
      ensures Flat(newChains) + Flat(left0[1..]) == Flat(newChains0) + Flat(left0)
    {
      var thh := first;
      ghost var left, goal := left0, Flat(newChains0) + Flat(left0);
      newChains, moved := newChains0, moved0;
      while thh != null
        invariant left != [] && left[1..] == left0[1..] && thh == Ref(left[0], 0)
        invariant AllHold(newBuckets[..], newChains, newBuckets.Length, moved)
        invariant Counted(newBuckets[..], newChains, idealChainMaxlen, nonidealItems)
        invariant Left(left, i, n, elems, moved)
        invariant Flat(newChains) + Flat(left) == goal
        decreases |left[0]|
      {
        ghost var x := left[0][0];
        thh, newChains, left := MoveOne(newBuckets, thh, newChains, moved, left, i, n, k);
        moved := moved + {x};
      }
      assert left == left0[0 := []];
      LeftNext(left0, i, n, elems, moved);
    }

    /** The ideal chain length for the doubled number of buckets: items per bucket, rounded up. */
    method SetIdealLength()
      requires numBuckets == Pow2(log2NumBuckets) && numItems > 0
      modifies `idealChainMaxlen
      ensures RoundedUp(idealChainMaxlen, numItems, 2 * numBuckets)
      ensures idealChainMaxlen > 0
    {
      CeilByMask(numItems, log2NumBuckets + 1);
      idealChainMaxlen := ShiftRight(numItems, log2NumBuckets + 1)
        + if And(numItems, numBuckets * 2 - 1) != 0 then 1 else 0;
    }

    /** An expansion is ineffective if more than half of the elements are beyond the ideal length; after
        two of them in a row there will be no more. */
    predicate GaveUp(before: nat, noexpand0: bool)
      reads `ineffExpands, `noexpand, `nonidealItems, `numItems
    {
      && ineffExpands == (if 2 * nonidealItems > numItems then before + 1 else 0)
      && noexpand == (noexpand0 || ineffExpands > 1)
    }

    /** Make the doubled bucket array the table's, and give up expanding when it
        did not help twice in a row. */
    method Install(newBuckets: array<Bucket>, ghost newChains: seq<seq<Elem>>)
      requires numBuckets == Pow2(log2NumBuckets)
      requires newBuckets.Length == 2 * numBuckets && AllHold(newBuckets[..], newChains, 2 * numBuckets, elems)
      modifies `buckets, `numBuckets, `log2NumBuckets, `chains, `ineffExpands, `noexpand
      ensures BucketsOk() && buckets == newBuckets && chains == newChains
      ensures numBuckets == 2 * old(numBuckets) && log2NumBuckets == old(log2NumBuckets) + 1
      ensures GaveUp(old(ineffExpands), old(noexpand))
    {
      buckets := newBuckets;
      numBuckets := 2 * numBuckets;
      log2NumBuckets := log2NumBuckets + 1;
      chains := newChains;
      ineffExpands := if nonidealItems > numItems / 2 then ineffExpands + 1 else 0;
      if ineffExpands > 1 {
        noexpand := true;
      }
    }

    /** HASH_EXPAND_BUCKETS */
    method ExpandBuckets()
      requires BucketsOk() && numItems > 0
      modifies `buckets, `numBuckets, `log2NumBuckets, `idealChainMaxlen, `nonidealItems, `ineffExpands, `noexpand, `chains
      modifies elems`hhNext, elems`hhPrev
      ensures BucketsOk() && fresh(buckets)
      ensures numBuckets == 2 * old(numBuckets) && log2NumBuckets == old(log2NumBuckets) + 1
      ensures Flat(chains) == old(Flat(chains))
      ensures RoundedUp(idealChainMaxlen, numItems, numBuckets) && idealChainMaxlen > 0
      ensures Counted(buckets[..], chains, idealChainMaxlen, nonidealItems)
      ensures GaveUp(old(ineffExpands), old(noexpand))
    {
      SetIdealLength();
      DoubleBuckets();
    }

    /** The buckets part of the expansion. */
    method DoubleBuckets()
      requires BucketsOk() && idealChainMaxlen > 0
      modifies `buckets, `numBuckets, `log2NumBuckets, `nonidealItems, `ineffExpands, `noexpand, `chains
      modifies elems`hhNext, elems`hhPrev
      ensures BucketsOk() && fresh(buckets)
      ensures numBuckets == 2 * old(numBuckets) && log2NumBuckets == old(log2NumBuckets) + 1
      ensures Flat(chains) == old(Flat(chains))
      ensures Counted(buckets[..], chains, idealChainMaxlen, nonidealItems)
      ensures GaveUp(old(ineffExpands), old(noexpand))
    {
      nonidealItems := 0;
      var newBuckets;
      ghost var newChains;
      newBuckets, newChains := Redistribute();
      Install(newBuckets, newChains);
    }

    /** All elements in a fresh bucket array of double length. */
    method Redistribute() returns (newBuckets: array<Bucket>, ghost newChains: seq<seq<Elem>>)
      requires BucketsOk() && idealChainMaxlen > 0 && nonidealItems == 0
      modifies elems`hhNext, elems`hhPrev, `nonidealItems
      ensures Counted(newBuckets[..], newChains, idealChainMaxlen, nonidealItems)
      ensures fresh(newBuckets) && newBuckets.Length == 2 * numBuckets
      ensures AllHold(newBuckets[..], newChains, 2 * numBuckets, elems)
      ensures Flat(newChains) == Flat(chains)
    {
      newBuckets := new Bucket[2 * numBuckets](_ => Bucket(null, 0, 0));
      ghost var moved;
      newChains, moved := MoveAll(newBuckets);
      Widen(newBuckets[..], newChains, newBuckets.Length, moved, elems);
    }

    /** The loop over the old buckets. */
    method MoveAll(newBuckets: array<Bucket>) returns (ghost newChains: seq<seq<Elem>>, ghost moved: set<Elem>)
      requires BucketsOk() && newBuckets.Length == 2 * numBuckets && idealChainMaxlen > 0 && newBuckets != buckets
      requires forall b | 0 <= b < newBuckets.Length :: newBuckets[b] == Bucket(null, 0, 0)
      requires nonidealItems == 0
      modifies newBuckets, elems`hhNext, elems`hhPrev, `nonidealItems
      ensures Counted(newBuckets[..], newChains, idealChainMaxlen, nonidealItems)
      ensures AllHold(newBuckets[..], newChains, newBuckets.Length, moved) && moved <= elems
      ensures Flat(newChains) == Flat(chains)
    {
      newChains, moved := seq(newBuckets.Length, _ => []), {};
      EmptyHold(newBuckets[..], newChains, newBuckets.Length);
      NoExcess(newBuckets.Length, idealChainMaxlen);
      LeftStart(buckets[..], chains, numBuckets, elems);
      newChains, moved := MoveBuckets(newBuckets, newChains, moved);
    }

    method MoveBuckets(newBuckets: array<Bucket>, ghost newChains0: seq<seq<Elem>>, ghost moved0: set<Elem>)
      returns (ghost newChains: seq<seq<Elem>>, ghost moved: set<Elem>)
      requires BucketsOk() && newBuckets.Length == 2 * numBuckets && idealChainMaxlen > 0 && newBuckets != buckets
      requires AllHold(newBuckets[..], newChains0, newBuckets.Length, moved0) && Flat(newChains0) == multiset{}
      requires Counted(newBuckets[..], newChains0, idealChainMaxlen, nonidealItems)
      requires Left(chains, 0, numBuckets, elems, moved0)
      modifies newBuckets, elems`hhNext, elems`hhPrev, `nonidealItems
      ensures Counted(newBuckets[..], newChains, idealChainMaxlen, nonidealItems)
      ensures AllHold(newBuckets[..], newChains, newBuckets.Length, moved) && moved <= elems
      ensures Flat(newChains) == Flat(chains)
    {
      ghost var left, goal := chains, Flat(chains);
      newChains, moved := newChains0, moved0;
      HeadsOf(buckets[..], chains, numBuckets, elems);
      var i := 0;
      while i < numBuckets
        invariant i <= numBuckets && left == chains[i..] && Heads()
        invariant Moving(newBuckets, newChains, moved, left, i)
        invariant Flat(newChains) + Flat(left) == goal
      {
        newChains, moved := MoveNext(newBuckets, newChains, moved, left, i);
        left, i := left[1..], i + 1;
      }
      assert left == [];
    }

    /** Every bucket still has its chain at its head. */
    ghost predicate Heads()
      reads `buckets, `chains, `numBuckets, buckets
    {
      && buckets.Length == |chains| == numBuckets
      && forall b | 0 <= b < numBuckets :: buckets[b].head == Ref(chains[b], 0)
    }

    /** What is in the new buckets, and what is left from bucket i on. */
    ghost predicate Moving(newBuckets: array<Bucket>, newChains: seq<seq<Elem>>, moved: set<Elem>, left: seq<seq<Elem>>, i: nat)
      reads `numBuckets, `elems, `idealChainMaxlen, `nonidealItems, newBuckets
      reads elems`hhNext, elems`hhPrev, elems`hashv, moved`hhNext, moved`hhPrev, moved`hashv
    {
      && AllHold(newBuckets[..], newChains, newBuckets.Length, moved)
      && idealChainMaxlen > 0 && Counted(newBuckets[..], newChains, idealChainMaxlen, nonidealItems)
      && Left(left, i, numBuckets, elems, moved)
    }

    /** The chain of bucket i. */
    method MoveNext(newBuckets: array<Bucket>, ghost newChains0: seq<seq<Elem>>, ghost moved0: set<Elem>,
                    ghost left: seq<seq<Elem>>, i: nat)
      returns (ghost newChains: seq<seq<Elem>>, ghost moved: set<Elem>)
      requires numBuckets == Pow2(log2NumBuckets) && newBuckets.Length == 2 * numBuckets && newBuckets != buckets
      requires Heads() && i < numBuckets && left == chains[i..] && Moving(newBuckets, newChains0, moved0, left, i)
      modifies newBuckets, elems`hhNext, elems`hhPrev, `nonidealItems
      ensures left != [] && left[1..] == chains[i + 1..] && Heads()
      ensures Moving(newBuckets, newChains, moved, left[1..], i + 1)
      ensures Flat(newChains) + Flat(left[1..]) == Flat(newChains0) + Flat(left)
    {
      TailOf(chains, i, left);
      newChains, moved := MoveChain(newBuckets, buckets[i].head, newChains0, moved0, left, i, numBuckets, log2NumBuckets + 1);
    }

    // ----- the table as a whole -----

    /** The list in application order. */
    ghost predicate OrderOk()
      reads `head, `tail, `order, order`next, order`prev
    {
      && Distinct(order)
      && OrderLinks(order)
      && head == Ref(order, 0)
      && (order != [] ==> tail == order[|order| - 1])
    }

    /** Every element was added with the hash of its key. */
    ghost predicate HashesOk()
      reads `elems, elems`hashv
    {
      forall x | x in elems :: x.hashv == hash(x.key)
    }

    /** HASH_FSCK, and that the contents are what the chains and the list hold. */
    ghost predicate Valid()
      reads this, order, buckets, elems
    {
      && OrderOk()
      && HashesOk()
      && Represents(contents, elems, order)
      && (head != null ==> numItems == |order| && BucketsOk() && Flat(chains) == multiset(order))
    }

    /** What is left to show after adding or deleting. */
    lemma WholeTable()
      requires OrderOk() && HashesOk() && Represents(contents, elems, order) && numItems == |order|
      requires BucketsOk() && Flat(chains) == multiset(order)
      ensures Valid()
    {
    }

    /** An empty hash: the head pointer is NULL and nothing is allocated. */
    constructor (h: Key -> nat)
      ensures Valid() && contents == map[] && order == [] && hash == h
    {
      hash, head, tail := h, null, null;
      buckets := new Bucket[0];
      numBuckets, log2NumBuckets, numItems := 0, 0, 0;
      idealChainMaxlen, nonidealItems, ineffExpands, noexpand := 0, 0, 0, false;
      order, chains, elems, contents := [], [], {}, map[];
    }

    /** The bucket part of HASH_MAKE_TABLE */
    method MakeBuckets()
      modifies `numBuckets, `log2NumBuckets, `numItems, `buckets, `idealChainMaxlen, `nonidealItems, `ineffExpands, `noexpand
      modifies `chains, `elems
      ensures BucketsOk() && Flat(chains) == multiset{} && fresh(buckets)
      ensures elems == {} && numItems == 0 && SameBuckets(true)
    {
      numBuckets, log2NumBuckets, numItems := INITIAL_NUM_BUCKETS, INITIAL_NUM_BUCKETS_LOG2, 0;
      idealChainMaxlen, nonidealItems, ineffExpands, noexpand := 0, 0, 0, false;
      buckets := new Bucket[INITIAL_NUM_BUCKETS](_ => Bucket(null, 0, 0));
      elems, chains := {}, seq(INITIAL_NUM_BUCKETS, _ => []);
      InitialPower();
      FirstBuckets(buckets[..], chains);
    }

    /** HASH_MAKE_TABLE, for the first element */
    method MakeTable(x: Elem)
      requires order == [] && x.next == null && x.prev == null
      modifies this
      ensures OrderOk() && order == [x] && head == x
      ensures BucketsOk() && Flat(chains) == multiset{} && numItems == 0 && fresh(buckets)
      ensures elems == {} && contents == old(contents) && SameBuckets(true)
    {
      head, tail, order := x, x, [x];
      MakeBuckets();
    }

    /** HASH_APPEND_LIST */
    method AppendToList(x: Elem)
      requires OrderOk() && order != [] && x !in order
      modifies x`next, x`prev, order`next, `tail, `order
      ensures OrderOk() && order == old(order) + [x]
    {
      assert tail in order;
      x.next := null;
      x.prev := tail;
      tail.next := x;
      tail := x;
      order := order + [x];
    }

    /** The element becomes the head of the chain of its bucket. */
    method PushToBucket(x: Elem) returns (bkt: nat)
      requires BucketsOk() && x !in elems
      modifies `chains, `elems, buckets, x`hhNext, x`hhPrev, elems`hhNext, elems`hhPrev
      ensures BucketsOk() && elems == old(elems) + {x} && bkt < buckets.Length
      ensures Flat(chains) == old(Flat(chains)) + multiset{x}
      ensures bkt == ToBucket(x.hashv, numBuckets) && bkt < |old(chains)|
      ensures buckets[bkt].count == |old(chains)[bkt]| + 1 && buckets[bkt].expandMult == old(buckets[bkt].expandMult)
    {
      BucketInRange(x.hashv, log2NumBuckets);
      bkt := ToBucket(x.hashv, numBuckets);
      PushAt(bkt, x);
    }

    method PushAt(bkt: nat, x: Elem)
      requires BucketsOk() && x !in elems && bkt < numBuckets && bkt == ToBucket(x.hashv, numBuckets)
      modifies `chains, `elems, buckets, x`hhNext, x`hhPrev, elems`hhNext, elems`hhPrev
      ensures BucketsOk() && elems == old(elems) + {x} && bkt < buckets.Length && bkt < |old(chains)|
      ensures Flat(chains) == old(Flat(chains)) + multiset{x}
      ensures buckets[bkt].count == |old(chains)[bkt]| + 1 && buckets[bkt].expandMult == old(buckets[bkt].expandMult)
    {
      ghost var pushed := chains[bkt := [x] + chains[bkt]];
      FlatPush(chains, bkt, x);
      PushInto(buckets, bkt, x, chains, numBuckets, elems);
      assert AllHold(buckets[..], pushed, numBuckets, elems + {x});
      chains, elems := pushed, elems + {x};
    }

    /** One more element with this hash value calls for an expansion. */
    ghost predicate Expands(hashv: nat)
      reads `buckets, `numBuckets, `chains, `noexpand, buckets
    {
      !noexpand && Full(buckets[..], chains, numBuckets, hashv)
    }

    /** The number of buckets, which was n0, is doubled when asked for, and else nothing of that is touched. */
    ghost predicate Grown(doubled: bool, n0: nat, buckets0: array<Bucket>, ineff0: nat, noexpand0: bool)
      reads `buckets, `numBuckets, `idealChainMaxlen, `nonidealItems, `ineffExpands, `noexpand, `numItems, `chains, buckets
    {
      if doubled then
        && numBuckets == 2 * n0 && RoundedUp(idealChainMaxlen, numItems, numBuckets)
        && idealChainMaxlen > 0 && Counted(buckets[..], chains, idealChainMaxlen, nonidealItems)
        && GaveUp(ineff0, noexpand0)
      else
        numBuckets == n0 && buckets == buckets0 && ineffExpands == ineff0 && noexpand == noexpand0
    }

    /** Before the bucket part of adding: a new table, or the one there was. */
    ghost predicate Ready(hashv: nat, made: bool, expands0: bool, n0: nat, buckets0: array<Bucket>, ineff0: nat, noexpand0: bool)
      reads `buckets, `numBuckets, `chains, `ineffExpands, `noexpand, buckets
    {
      if made then numBuckets == 32 && !Expands(hashv)
      else
        && numBuckets == n0 && buckets == buckets0 && ineffExpands == ineff0 && noexpand == noexpand0
        && Expands(hashv) == expands0
    }

    /** The buckets of a table are as they were; a new table has 32 empty ones. */
    twostate predicate SameBuckets(made: bool)
      reads `buckets, `numBuckets, `chains, `ineffExpands, `noexpand, buckets
    {
      if made then
        && numBuckets == |chains| == buckets.Length == 32 && !noexpand && ineffExpands == 0
        && forall b | 0 <= b < buckets.Length :: chains[b] == [] && buckets[b].expandMult == 0
      else
        && buckets == old(buckets) && buckets[..] == old(buckets[..]) && numBuckets == old(numBuckets)
        && chains == old(chains) && ineffExpands == old(ineffExpands) && noexpand == old(noexpand)
    }

    /** HASH_ADD_TO_BKT */
    method AddToBucket(x: Elem)
      requires BucketsOk() && x !in elems && numItems > 0
      modifies `buckets, `numBuckets, `log2NumBuckets, `idealChainMaxlen, `nonidealItems, `ineffExpands, `noexpand
      modifies `chains, `elems, buckets, x`hhNext, x`hhPrev, elems`hhNext, elems`hhPrev
      ensures BucketsOk() && elems == old(elems) + {x}
      ensures Flat(chains) == old(Flat(chains)) + multiset{x}
      ensures Grown(old(Expands(x.hashv)), old(numBuckets), old(buckets), old(ineffExpands), old(noexpand))
    {
      BucketInRange(x.hashv, log2NumBuckets);
      var bkt := PushToBucket(x);
      if buckets[bkt].count >= (buckets[bkt].expandMult + 1) * BKT_CAPACITY_THRESH && !noexpand {
        ExpandBuckets();
      }
    }

    /** Put the element at the end of the list; the first one makes the table. */
    method AddToList(x: Elem)
      requires Valid() && x !in order
      modifies this, x`next, x`prev, order`next
      ensures OrderOk() && order == old(order) + [x]
      ensures BucketsOk() && Flat(chains) == multiset(old(order)) && numItems == |old(order)|
      ensures elems == old(elems) && contents == old(contents) && HashesOk()
      ensures buckets == old(buckets) || fresh(buckets)
      ensures SameBuckets(old(order) == [])
    {
      if head == null {
        x.next := null;
        x.prev := null;
        MakeTable(x);
      } else {
        AppendKeepingBuckets(x);
      }
    }

    /** Appending leaves the buckets and the hash values alone. */
    method AppendKeepingBuckets(x: Elem)
      requires OrderOk() && HashesOk() && BucketsOk() && order != [] && x !in order
      modifies x`next, x`prev, order`next, `tail, `order
      ensures OrderOk() && HashesOk() && BucketsOk() && order == old(order) + [x]
    {
      AppendToList(x);
    }

    /** An element outside the table may get any hash value. */
    method SetHash(x: Elem)
      requires Valid() && x !in elems
      modifies x`hashv
      ensures Valid() && x.hashv == hash(x.key)
    {
      x.hashv := hash(x.key);
    }

    /** The list part of adding. */
    method Link(x: Elem)
      requires Valid() && x !in order
      modifies this, x`next, x`prev, order`next
      ensures OrderOk() && order == old(order) + [x]
      ensures BucketsOk() && Flat(chains) == multiset(old(order)) && numItems == |order|
      ensures HashesOk()
      ensures elems == old(elems) && contents == old(contents)[x.key := x]
      ensures buckets == old(buckets) || fresh(buckets)
      ensures SameBuckets(old(order) == [])
    {
      AddToList(x);
      NoteAdded(x);
    }

    method NoteAdded(x: Elem)
      requires OrderOk() && BucketsOk() && HashesOk()
      modifies `numItems, `contents
      ensures OrderOk() && BucketsOk() && HashesOk()
      ensures numItems == old(numItems) + 1 && contents == old(contents)[x.key := x]
    {
      numItems, contents := numItems + 1, contents[x.key := x];
    }

    /** All of adding but the bucket. */
    method HashAndLink(x: Elem)
      requires Valid() && x !in order && x !in elems
      modifies this, x`hashv, x`next, x`prev, order`next
      ensures OrderOk() && order == old(order) + [x]
      ensures BucketsOk() && Flat(chains) == multiset(old(order)) && numItems == |order|
      ensures HashesOk() && x.hashv == hash(x.key)
      ensures elems == old(elems) && contents == old(contents)[x.key := x]
      ensures buckets == old(buckets) || fresh(buckets)
      ensures Ready(x.hashv, old(order) == [], old(Expands(hash(x.key))), old(numBuckets), old(buckets), old(ineffExpands), old(noexpand))
    {
      SetHash(x);
      Link(x);
      BucketInRange(x.hashv, log2NumBuckets);
    }

    /** Adding to a bucket leaves the list and the hash values alone. */
    method AddKeepingList(x: Elem)
      requires OrderOk() && HashesOk() && x.hashv == hash(x.key)
      requires BucketsOk() && x !in elems && numItems > 0
      modifies `buckets, `numBuckets, `log2NumBuckets, `idealChainMaxlen, `nonidealItems, `ineffExpands, `noexpand
      modifies `chains, `elems, buckets, x`hhNext, x`hhPrev, elems`hhNext, elems`hhPrev
      ensures OrderOk() && HashesOk()
      ensures BucketsOk() && elems == old(elems) + {x}
      ensures Flat(chains) == old(Flat(chains)) + multiset{x}
      ensures Grown(old(Expands(x.hashv)), old(numBuckets), old(buckets), old(ineffExpands), old(noexpand))
    {
      AddToBucket(x);
    }

    /** HASH_ADD_KEYPTR_BYHASHVALUE */
    method Add(x: Elem)
      requires Valid() && x !in elems && x.key !in contents
      modifies this, buckets, x, elems
      ensures Valid()
      ensures contents == old(contents)[x.key := x] && order == old(order) + [x]
      ensures if old(order) == [] then numBuckets == 32 else Grown(old(Expands(hash(x.key))), old(numBuckets), old(buckets), old(ineffExpands), old(noexpand))
    {
      RepresentsAdd(contents, elems, order, x);
      AddParts(x, order == [], Expands(hash(x.key)), numBuckets, buckets, ineffExpands, noexpand);
      WholeTable();
    }

    /** The list part and the bucket part of adding. */
    method AddParts(x: Elem, ghost made: bool, ghost expands0: bool, ghost n0: nat, ghost b0: array<Bucket>, ghost i0: nat, ghost e0: bool)
      requires Valid() && x !in order && x !in elems
      requires made == (order == []) && expands0 == Expands(hash(x.key))
      requires n0 == numBuckets && b0 == buckets && i0 == ineffExpands && e0 == noexpand
      modifies this, buckets, x, elems
      ensures OrderOk() && HashesOk() && BucketsOk() && numItems == |order|
      ensures Flat(chains) == multiset(old(order)) + multiset{x}
      ensures contents == old(contents)[x.key := x] && elems == old(elems) + {x} && order == old(order) + [x]
      ensures if made then numBuckets == 32 else Grown(expands0, n0, b0, i0, e0)
    {
      HashAndLink(x);
      AddReady(x, made, expands0, n0, b0, i0, e0);
    }

    method AddReady(x: Elem, ghost made: bool, ghost expands0: bool, ghost n0: nat, ghost b0: array<Bucket>, ghost i0: nat, ghost e0: bool)
      requires OrderOk() && HashesOk() && x.hashv == hash(x.key)
      requires BucketsOk() && x !in elems && numItems > 0 && Ready(x.hashv, made, expands0, n0, b0, i0, e0)
      modifies `buckets, `numBuckets, `log2NumBuckets, `idealChainMaxlen, `nonidealItems, `ineffExpands, `noexpand
      modifies `chains, `elems, buckets, x`hhNext, x`hhPrev, elems`hhNext, elems`hhPrev
      ensures OrderOk() && HashesOk()
      ensures BucketsOk() && elems == old(elems) + {x}
      ensures Flat(chains) == old(Flat(chains)) + multiset{x}
      ensures if made then numBuckets == 32 else Grown(expands0, n0, b0, i0, e0)
    {
      AddKeepingList(x);
    }

    /** HASH_FIND */
    method Find(key: Key) returns (out: Elem?)
      requires Valid()
      ensures out == if key in contents then contents[key] else null
    {
      out := null;
      if head != null {
        var hashv := hash(key);
        BucketInRange(hashv, log2NumBuckets);
        var bkt := ToBucket(hashv, numBuckets);
        assert Inside(chains[bkt], elems) && Holds(buckets[..][bkt], chains[bkt], bkt, numBuckets);
        out := FindInChain(buckets[bkt], key, hashv, chains[bkt], bkt, numBuckets);
        if key in contents {
          var b, i := Where(contents[key]);
        }
      }
    }

    /** Every element is in the chain of its bucket. */
    lemma Where(x: Elem) returns (b: nat, i: nat)
      requires Valid() && x in elems
      ensures numBuckets > 0 && b == ToBucket(x.hashv, numBuckets)
      ensures b < |chains| && i < |chains[b]| && chains[b][i] == x
    {
      assert x in multiset(order);
      b, i := FlatFind(chains, x);
      assert Holds(buckets[..][b], chains[b], b, numBuckets);
    }

    /** The list part of deleting: unlink x, the k-th of at least two elements. */
    method Unlink(x: Elem, ghost k: nat)
      requires OrderOk() && k < |order| && |order| > 1 && order[k] == x
      modifies `head, `tail, `order, order`next, order`prev
      ensures OrderOk() && order == Without(old(order), k)
    {
      assert x.prev == (if k == 0 then null else order[k - 1]) && x.next == Ref(order, k + 1);
      LastWithout(order, k);
      if x == tail {
        tail := x.prev;
      }
      Relink(x, k);
      order := Without(order, k);
    }

    method Relink(x: Elem, ghost k: nat)
      requires Distinct(order) && NextLinks(order) && PrevLinks(order) && head == Ref(order, 0)
      requires k < |order| && order[k] == x
      requires x.prev == (if k == 0 then null else order[k - 1]) && x.next == Ref(order, k + 1)
      modifies `head, order`next, order`prev
      ensures NextLinks(Without(order, k)) && PrevLinks(Without(order, k)) && head == Ref(Without(order, k), 0)
    {
      RelinkNext(x, k);
      RelinkPrev(x, k);
    }

    /** The element before x, or the head, gets the element behind x. */
    method RelinkNext(x: Elem, ghost k: nat)
      requires Distinct(order) && NextLinks(order) && k < |order| && order[k] == x && head == Ref(order, 0)
      requires x.prev == if k == 0 then null else order[k - 1]
      modifies `head, order`next
      ensures NextLinks(Without(order, k)) && head == Ref(Without(order, k), 0)
      ensures x.next == old(x.next)
    {
      WithoutAt(order, k);
      assert x.next == Ref(order, k + 1);
      if x.prev != null {
        x.prev.next := x.next;
      } else {
        head := x.next;
      }
      NextWithout(order, k);
    }

    /** The element behind x gets the element before x. */
    method RelinkPrev(x: Elem, ghost k: nat)
      requires Distinct(order) && PrevLinks(order) && k < |order| && order[k] == x && x.next == Ref(order, k + 1)
      modifies order`prev
      ensures PrevLinks(Without(order, k))
    {
      assert x.prev == if k == 0 then null else order[k - 1];
      if x.next != null {
        x.next.prev := x.prev;
      }
      PrevWithout(order, k);
    }

    /** The bucket part of deleting. */
    method DropFromBucket(x: Elem, ghost b: nat, ghost i: nat)
      requires BucketsOk() && b < numBuckets && b == ToBucket(x.hashv, numBuckets)
      requires i < |chains[b]| && chains[b][i] == x
      modifies `chains, `elems, buckets, elems`hhNext, elems`hhPrev
      ensures BucketsOk() && elems == old(elems) - {x}
      ensures Flat(chains) + multiset{x} == old(Flat(chains))
    {
      var bkt := ToBucket(x.hashv, numBuckets);
      ghost var dropped := chains[bkt := Without(chains[bkt], i)];
      FlatDrop(chains, bkt, i);
      DropFrom(buckets, bkt, x, chains, i, numBuckets, elems);
      assert AllHold(buckets[..], dropped, numBuckets, elems - {x});
      chains, elems := dropped, elems - {x};
    }

    /** Dropping from a bucket leaves the list and the hash values alone. */
    method DropKeepingList(x: Elem, ghost b: nat, ghost i: nat, ghost rest: multiset<Elem>)
      requires OrderOk() && HashesOk() && rest + multiset{x} == Flat(chains)
      requires BucketsOk() && b < numBuckets && b == ToBucket(x.hashv, numBuckets)
      requires i < |chains[b]| && chains[b][i] == x
      modifies `chains, `elems, buckets, elems`hhNext, elems`hhPrev
      ensures OrderOk() && HashesOk()
      ensures BucketsOk() && elems == old(elems) - {x} && Flat(chains) == rest
    {
      DropFromBucket(x, b, i);
      Cancel(Flat(chains), rest, x);
    }

    /** All of deleting but the bucket. */
    method UnlinkAndForget(x: Elem, ghost k: nat)
      requires OrderOk() && HashesOk() && BucketsOk() && numItems == |order|
      requires k < |order| && |order| > 1 && order[k] == x
      modifies `head, `tail, `order, `numItems, `contents, order`next, order`prev
      ensures OrderOk() && HashesOk() && BucketsOk() && head != null
      ensures order == Without(old(order), k) && contents == old(contents) - {x.key}
      ensures numItems == |order|
    {
      UnlinkKeepingBuckets(x, k);
      NoteDeleted(x);
    }

    /** Unlinking leaves the buckets and the hash values alone. */
    method UnlinkKeepingBuckets(x: Elem, ghost k: nat)
      requires OrderOk() && HashesOk() && BucketsOk() && k < |order| && |order| > 1 && order[k] == x
      modifies `head, `tail, `order, order`next, order`prev
      ensures OrderOk() && HashesOk() && BucketsOk() && order == Without(old(order), k)
    {
      Unlink(x, k);
    }

    method NoteDeleted(x: Elem)
      requires OrderOk() && BucketsOk() && HashesOk() && numItems > 0
      modifies `numItems, `contents
      ensures OrderOk() && BucketsOk() && HashesOk()
      ensures numItems == old(numItems) - 1 && contents == old(contents) - {x.key}
    {
      numItems, contents := numItems - 1, contents - {x.key};
    }

    /** Deleting the only element frees the table. */
    method DeleteLast(x: Elem)
      requires Valid() && order == [x]
      modifies `head, `order, `elems, `contents
      ensures Valid() && order == [] && contents == old(contents) - {x.key}
    {
      RepresentsDrop(contents, elems, order, 0);
      head := null;
      order, elems, contents := [], elems - {x}, contents - {x.key};
    }

    /** Deleting one of several elements. */
    method DeleteOneOf(x: Elem, ghost k: nat, ghost b: nat, ghost i: nat)
      requires OrderOk() && HashesOk() && BucketsOk() && numItems == |order|
      requires k < |order| && |order| > 1 && order[k] == x
      requires b < numBuckets && b == ToBucket(x.hashv, numBuckets) && i < |chains[b]| && chains[b][i] == x
      requires multiset(Without(order, k)) + multiset{x} == Flat(chains)
      modifies `head, `tail, `order, `numItems, `contents, `chains, `elems
      modifies buckets, order`next, order`prev, elems`hhNext, elems`hhPrev
      ensures OrderOk() && HashesOk() && BucketsOk() && numItems == |order|
      ensures Flat(chains) == multiset(order)
      ensures contents == old(contents) - {x.key} && elems == old(elems) - {x} && order == Without(old(order), k)
    {
      UnlinkAndForget(x, k);
      DropKeepingList(x, b, i, multiset(order));
    }

    lemma InList(x: Elem) returns (k: nat)
      requires Valid() && x in elems
      ensures k < |order| && order[k] == x
      ensures x.prev == null && x.next == null <==> |order| == 1
    {
      assert x in multiset(order);
      k :| 0 <= k < |order| && order[k] == x;
      assert x.prev == (if k == 0 then null else order[k - 1]) && x.next == Ref(order, k + 1);
    }

    /** HASH_DELETE; x was the k-th element of the list. */
    method Delete(x: Elem) returns (ghost k: nat)
      requires Valid() && x in elems
      modifies this, buckets, elems
      ensures Valid()
      ensures contents == old(contents) - {x.key}
      ensures k < |old(order)| && old(order)[k] == x && order == Without(old(order), k)
    {
      k := InList(x);
      if x.prev == null && x.next == null {
        DeleteLast(x);
      } else {
        RepresentsDrop(contents, elems, order, k);
        ghost var b, i := Where(x);
        DeleteOneOf(x, k, b, i);
        WholeTable();
      }
    }

    /** The walk over one bucket in HASH_FSCK: it counts the chain, and sees whether the back
        links are right. */
    method CheckChain(bucket: Bucket, ghost c: seq<Elem>) returns (ok: bool, count: nat)
      requires bucket.head == Ref(c, 0) && ChainFrom(c, 0)
      ensures count == |c| && (ok <==> ChainBack(c) && bucket.count == |c|)
    {
      ok, count := true, 0;
      var thh, prev: Elem? := bucket.head, null;
      while thh != null
        invariant count <= |c| && thh == Ref(c, count) && prev == if count == 0 then null else c[count - 1]
        invariant ok <==> forall t {:trigger c[t].hhPrev} | 0 <= t < count :: c[t].hhPrev == if t == 0 then null else c[t - 1]
        decreases |c| - count
      {
        assert thh == c[count] && thh.hhNext == Ref(c, count + 1);
        if thh.hhPrev != prev { ok := false; }
        count := count + 1;
        prev := thh;
        thh := thh.hhNext;
      }
      if bucket.count != count { ok := false; }
    }

    /** The walk over the list in HASH_FSCK. */
    method CheckList() returns (ok: bool, count: nat)
      requires head == Ref(order, 0) && NextLinks(order)
      ensures count == |order| && (ok <==> PrevLinks(order))
    {
      ok, count := true, 0;
      var thh, prev: Elem? := head, null;
      while thh != null
        invariant count <= |order| && thh == Ref(order, count)
        invariant prev == if count == 0 then null else order[count - 1]
        invariant ok <==> forall t {:trigger order[t].prev} | 0 <= t < count :: order[t].prev == if t == 0 then null else order[t - 1]
        decreases |order| - count
      {
        assert thh == order[count] && thh.next == Ref(order, count + 1);
        if thh.prev != prev { ok := false; }
        count := count + 1;
        prev := thh;
        thh := thh.next;
      }
    }

    /** The forward links of the list and of all chains end somewhere, whatever else may be wrong. */
    ghost predicate Walkable()
      reads `head, `order, `buckets, `numBuckets, `chains, buckets, order`next, (set b, t | 0 <= b < |chains| && 0 <= t < |chains[b]| :: chains[b][t])`hhNext
    {
      && head == Ref(order, 0) && NextLinks(order)
      && (head != null ==>
            && numBuckets == |chains| == buckets.Length
            && forall b {:trigger chains[b]} | 0 <= b < numBuckets :: buckets[b].head == Ref(chains[b], 0) && ChainFrom(chains[b], 0))
    }

    /** The first b buckets have the right counts and back links. */
    ghost predicate ChainsSound(b: nat)
      reads `buckets, `chains, buckets, (set b, t | 0 <= b < |chains| && 0 <= t < |chains[b]| :: chains[b][t])`hhPrev
    {
      && b <= |chains| && b <= buckets.Length
      && forall d {:trigger chains[d]} | 0 <= d < b :: buckets[d].count == |chains[d]| && ChainBack(chains[d])
    }

    /** HASH_FSCK finds something exactly when a count or a back link is wrong. */
    method Fsck() returns (ok: bool)
      requires Walkable()
      ensures ok <==> (head != null ==>
        ChainsSound(numBuckets) && Total(chains) == numItems && PrevLinks(order) && |order| == numItems)
    {
      ok := true;
      if head != null {
        var count, i := 0, 0;
        while i < numBuckets
          invariant i <= numBuckets && count == Total(chains[..i])
          invariant ok <==> ChainsSound(i)
        {
          var good, bucketCount := CheckChain(buckets[i], chains[i]);
          if !good { ok := false; }
          TotalNext(chains, i);
          count := count + bucketCount;
          i := i + 1;
        }
        assert chains[..i] == chains;
        if count != numItems { ok := false; }
        var good, listCount := CheckList();
        if !good || listCount != numItems { ok := false; }
      }
    }

    /** It never finds anything in a table that was built by adding and deleting. */
    lemma NeverUnsound()
      requires Valid()
      ensures Walkable()
      ensures head != null ==> ChainsSound(numBuckets) && Total(chains) == numItems && PrevLinks(order) && |order| == numItems
    {
      if head != null {
        forall b | 0 <= b < numBuckets
          ensures Holds(buckets[b], chains[b], b, numBuckets)
        {
          assert Holds(buckets[..][b], chains[b], b, numBuckets);
        }
        FlatTotal(chains);
        assert |multiset(order)| == |order|;
      }
    }
  }
}
