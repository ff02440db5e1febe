/**
 The in-place list sorts LL_SORT2, DL_SORT2, CDL_SORT2 (utlist.h) and HASH_SRT
 (uthash.h).  They are one algorithm on next pointers; `Kind` says which links each
 of them keeps besides.
 */
module LinkedListSort {
  import opened StableSort

  datatype Kind =
    | LL    // next only
    | DL    // prev too; the first element's prev is the last element
    | CDL   // prev too; the last element's next is the first and the other way round
    | Hash  // prev too, NULL at the first element; the last element is reported

  /** A list element; the comparison knows elements, not links. */
  class Node {
    var next: Node?
    var prev: Node?
  }

  function Ref(s: seq<Node>, i: nat): Node? {
    if i < |s| then s[i] else null
  }

  ghost predicate Distinct(s: seq<Node>) {
    forall i, j | 0 <= i < j < |s| :: s[i] != s[j]
  }

  /** Element i still has the link to its neighbour in s. */
  ghost predicate LinkAt(kind: Kind, s: seq<Node>, i: nat)
    requires i < |s|
    reads s[i]
  {
    s[i].next == if i + 1 < |s| then s[i + 1] else if kind.CDL? then s[0] else null
  }

  /** The elements of s are linked in this order. */
  ghost predicate NextLinks(kind: Kind, s: seq<Node>)
    reads s
  {
    forall i {:trigger LinkAt(kind, s, i)} | 0 <= i < |s| :: LinkAt(kind, s, i)
  }

  ghost predicate PrevLinks(kind: Kind, s: seq<Node>)
    reads s
  {
    !kind.LL? ==>
      && (forall i {:trigger s[i].prev} | 0 < i < |s| :: s[i].prev == s[i - 1])
      && (s != [] ==> s[0].prev == if kind.Hash? then null else s[|s| - 1])
  }

  /** The element after x in the input, NULL at its end. */
  function Step(kind: Kind, oldhead: Node, x: Node): Node?
    reads x
  {
    if kind.CDL? && x.next == oldhead then null else x.next
  }

  lemma StepIs(kind: Kind, s: seq<Node>, i: nat)
    requires i < |s| && Distinct(s) && LinkAt(kind, s, i)
    ensures Step(kind, s[0], s[i]) == Ref(s, i + 1)
  {
  }

  /** The part of the output built so far, with its head and tail pointers; `used`
      is the set of its elements. */
  ghost predicate Built(kind: Kind, out: seq<Node>, used: set<Node>, list: Node?, tail: Node?)
    reads out
  {
    && Distinct(out)
    && (forall i | 0 <= i < |out| :: out[i] in used)
    && list == Ref(out, 0)
    && tail == (if out == [] then null else out[|out| - 1])
    && (forall i {:trigger out[i].next} | 0 <= i < |out| - 1 :: out[i].next == out[i + 1])
    && (!kind.LL? ==> forall i {:trigger out[i].prev} | 0 <= i < |out| :: out[i].prev == if i == 0 then null else out[i - 1])
  }

  /** Elements from..to of s are not used yet and still linked as in s. */
  ghost predicate Waiting(kind: Kind, s: seq<Node>, used: set<Node>, from: nat, to: nat)
    requires to <= |s|
    reads s
  {
    && (forall t | from <= t < to :: s[t] !in used)
    && (forall t {:trigger LinkAt(kind, s, t)} | from <= t < to :: LinkAt(kind, s, t))
  }

  /** Append one element to the output. */
  method Emit(kind: Kind, e: Node, list: Node?, tail: Node?, ghost out: seq<Node>, ghost used: set<Node>,
              ghost s: seq<Node>, ghost nodes: set<Node>)
    returns (list': Node?, tail': Node?)
    requires Built(kind, out, used, list, tail) && e !in used
    requires e in nodes && used <= nodes && forall i | 0 <= i < |s| :: s[i] in nodes
    modifies nodes
    ensures Built(kind, out + [e], used + {e}, list', tail')
    ensures forall t {:trigger LinkAt(kind, s, t)} | 0 <= t < |s| && s[t] !in used :: LinkAt(kind, s, t) == old(LinkAt(kind, s, t))
  {
    list' := list;
    if tail != null {
      tail.next := e;
    } else {
      list' := e;
    }
    if !kind.LL? {
      e.prev := tail;
    }
    tail' := e;
  }

  /** The counting loop: step over a run of at most `insize` elements. */
  method StepOver(kind: Kind, oldhead: Node, p: Node, insize: nat, ghost s: seq<Node>, ghost a: nat) returns (psize: nat, q: Node?)
    requires insize > 0 && a < |s| && oldhead == s[0] && p == s[a] && Distinct(s)
    requires exists used :: Waiting(kind, s, used, a, |s|)
    ensures psize == Min(insize, |s| - a)
    ensures q == Ref(s, a + psize)
  {
    q := p;
    psize := 0;
    var i := 0;
    while i < insize
      invariant psize == i <= insize && a + i < |s| && q == s[a + i]
    {
      StepIs(kind, s, a + i);
      psize := psize + 1;
      q := Step(kind, oldhead, q);
      if q == null { break; }
      i := i + 1;
    }
  }

  lemma Assoc<E>(out: seq<E>, m: seq<E>, rest: seq<E>)
    ensures out + (m + rest) == (out + m) + rest
  {
  }

  lemma MoveHead<E>(out: seq<E>, rest: seq<E>)
    requires rest != []
    ensures out + rest == (out + [rest[0]]) + rest[1..]
  {
  }

  /** Which element comes next when the runs s[a..a1] and s[b..b1] are merged. */
  lemma MergeStep(cmp: (Node, Node) -> int, s: seq<Node>, a: nat, a1: nat, b: nat, b1: nat)
    requires a <= a1 <= |s| && b <= b1 <= |s|
    ensures var r := Merge(cmp, s[a..a1], s[b..b1]);
      && |r| == a1 - a + b1 - b
      && (a < a1 && (b == b1 || Leq(cmp, s[a], s[b])) ==> r[0] == s[a] && r[1..] == Merge(cmp, s[a + 1..a1], s[b..b1]))
      && (b < b1 && (a == a1 || !Leq(cmp, s[a], s[b])) ==> r[0] == s[b] && r[1..] == Merge(cmp, s[a..a1], s[b + 1..b1]))
  {
    if a < a1 { assert s[a..a1] == [s[a]] + s[a + 1..a1]; }
    if b < b1 { assert s[b..b1] == [s[b]] + s[b + 1..b1]; }
  }

  /** Where the merging loop is: s[a..a1] and s[b..b1] are left of the two runs. */
  datatype Place = Place(s: seq<Node>, a: nat, a1: nat, b: nat, b1: nat, out: seq<Node>, used: set<Node>)
  {
    ghost predicate Ok(nodes: set<Node>) {
      && a <= a1 <= b <= b1 <= |s| && Distinct(s)
      && (forall i | 0 <= i < |s| :: s[i] in nodes)
      && used <= nodes
    }

    /** What the loop will have put out at its end. */
    ghost function Goal(cmp: (Node, Node) -> int): seq<Node>
      requires a <= a1 <= b <= b1 <= |s|
    {
      out + Merge(cmp, s[a..a1], s[b..b1])
    }

    /** After the next element of the first, or of the second, run is moved. */
    ghost function First(): Place
      requires a < |s|
    {
      Place(s, a + 1, a1, b, b1, out + [s[a]], used + {s[a]})
    }

    ghost function Second(): Place
      requires b < |s|
    {
      Place(s, a, a1, b + 1, b1, out + [s[b]], used + {s[b]})
    }
  }

  lemma FirstGoal(cmp: (Node, Node) -> int, g: Place)
    requires g.a < g.a1 <= g.b <= g.b1 <= |g.s| && (g.b == g.b1 || Leq(cmp, g.s[g.a], g.s[g.b]))
    ensures g.First().Goal(cmp) == g.Goal(cmp)
  {
    MergeStep(cmp, g.s, g.a, g.a1, g.b, g.b1);
    MoveHead(g.out, Merge(cmp, g.s[g.a..g.a1], g.s[g.b..g.b1]));
  }

  lemma SecondGoal(cmp: (Node, Node) -> int, g: Place)
    requires g.a <= g.a1 <= g.b < g.b1 <= |g.s| && (g.a == g.a1 || !Leq(cmp, g.s[g.a], g.s[g.b]))
    ensures g.Second().Goal(cmp) == g.Goal(cmp)
  {
    MergeStep(cmp, g.s, g.a, g.a1, g.b, g.b1);
    MoveHead(g.out, Merge(cmp, g.s[g.a..g.a1], g.s[g.b..g.b1]));
  }

  ghost predicate InLoop(kind: Kind, g: Place, nodes: set<Node>, p: Node?, q: Node?, list: Node?, tail: Node?)
    reads g.s, g.out
  {
    && g.Ok(nodes)
    && (g.a < g.a1 ==> p == g.s[g.a])
    && q == Ref(g.s, g.b)
    && Built(kind, g.out, g.used, list, tail)
    && Waiting(kind, g.s, g.used, g.a, g.a1)
    && Waiting(kind, g.s, g.used, g.b, |g.s|)
  }

  /** Move the next element of the first run to the output. */
  method TakeFirst(kind: Kind, ghost cmp: (Node, Node) -> int, oldhead: Node, p: Node?, ghost q: Node?,
                   list: Node?, tail: Node?, ghost g: Place, ghost nodes: set<Node>)
    returns (p': Node?, list': Node?, tail': Node?, ghost g': Place)
    requires InLoop(kind, g, nodes, p, q, list, tail)
    requires g.a < g.a1 && (g.b == g.b1 || Leq(cmp, g.s[g.a], g.s[g.b])) && oldhead == g.s[0]
    modifies nodes
    ensures g' == g.First()
    ensures InLoop(kind, g', nodes, p', q, list', tail')
    ensures g'.Goal(cmp) == g.Goal(cmp)
  {
    var e := p;
    StepIs(kind, g.s, g.a);
    p' := Step(kind, oldhead, p);
    list', tail' := Emit(kind, e, list, tail, g.out, g.used, g.s, nodes);
    g' := g.First();
    FirstGoal(cmp, g);
  }

  /** Move the next element of the second run to the output. */
  method TakeSecond(kind: Kind, ghost cmp: (Node, Node) -> int, oldhead: Node, ghost p: Node?, q: Node?,
                    list: Node?, tail: Node?, ghost g: Place, ghost nodes: set<Node>)
    returns (q': Node?, list': Node?, tail': Node?, ghost g': Place)
    requires InLoop(kind, g, nodes, p, q, list, tail)
    requires g.b < g.b1 && (g.a == g.a1 || !Leq(cmp, g.s[g.a], g.s[g.b])) && oldhead == g.s[0]
    modifies nodes
    ensures g' == g.Second()
    ensures InLoop(kind, g', nodes, p, q', list', tail')
    ensures g'.Goal(cmp) == g.Goal(cmp)
  {
    var e := q;
    StepIs(kind, g.s, g.b);
    q' := Step(kind, oldhead, q);
    list', tail' := Emit(kind, e, list, tail, g.out, g.used, g.s, nodes);
    g' := g.Second();
    SecondGoal(cmp, g);
  }

  /** The merging loop: move two neighbouring runs to the output in order. */
  method MergeRuns(kind: Kind, cmp: (Node, Node) -> int, oldhead: Node, p0: Node, psize0: nat, q0: Node?, insize: nat,
                   list0: Node?, tail0: Node?, ghost g0: Place, ghost nodes: set<Node>)
    returns (q: Node?, list: Node?, tail: Node?, ghost g: Place)
    requires InLoop(kind, g0, nodes, p0, q0, list0, tail0)
    requires g0.a < g0.a1 == g0.b && psize0 == g0.a1 - g0.a && g0.b1 == Min(g0.b + insize, |g0.s|) && oldhead == g0.s[0]
    modifies nodes
    ensures g.s == g0.s && g.a == g0.a1 && g.b == g.b1 == g0.b1
    ensures g.out == g0.Goal(cmp)
    ensures q == Ref(g.s, g.b) && g.used <= nodes
    ensures Built(kind, g.out, g.used, list, tail) && Waiting(kind, g.s, g.used, g.b, |g.s|)
  {
    q, list, tail, g := q0, list0, tail0, g0;
    var p: Node?, psize, qsize := p0, psize0, insize;
    while psize > 0 || (qsize > 0 && q != null)
      invariant g.s == g0.s && g.a1 == g0.a1 && g.b1 == g0.b1
      invariant psize == g.a1 - g.a && qsize == g.a1 + insize - g.b
      invariant InLoop(kind, g, nodes, p, q, list, tail)
      invariant g.Goal(cmp) == g0.Goal(cmp)
      decreases psize + qsize
    {
      if psize == 0 {
        q, list, tail, g := TakeSecond(kind, cmp, oldhead, p, q, list, tail, g, nodes);
        qsize := qsize - 1;
      } else if qsize == 0 || q == null {
        p, list, tail, g := TakeFirst(kind, cmp, oldhead, p, q, list, tail, g, nodes);
        psize := psize - 1;
      } else if cmp(p, q) <= 0 {
        p, list, tail, g := TakeFirst(kind, cmp, oldhead, p, q, list, tail, g, nodes);
        psize := psize - 1;
      } else {
        q, list, tail, g := TakeSecond(kind, cmp, oldhead, p, q, list, tail, g, nodes);
        qsize := qsize - 1;
      }
    }
    MergeStep(cmp, g.s, g.a, g.a1, g.b, g.b1);
    assert Merge(cmp, g.s[g.a..g.a1], g.s[g.b..g.b1]) == [];
  }

  /** The links at the two ends, set after each pass. */
  method CloseList(kind: Kind, list: Node, tail: Node, ghost out: seq<Node>, ghost used: set<Node>, ghost nodes: set<Node>)
    requires out != [] && Built(kind, out, used, list, tail) && used <= nodes
    modifies nodes
    ensures NextLinks(kind, out) && PrevLinks(kind, out)
  {
    tail.next := null;
    match kind {
      case LL =>
      case DL => list.prev := tail;
      case CDL => list.prev := tail; tail.next := list;
      case Hash =>
    }
  }

  /** Before and after merging two runs: s[a..] is left. */
  ghost predicate InPass(kind: Kind, s: seq<Node>, a: nat, out: seq<Node>, used: set<Node>, nodes: set<Node>,
                         list: Node?, tail: Node?)
    reads s, out
  {
    && a <= |s| && Distinct(s)
    && (forall i | 0 <= i < |s| :: s[i] in nodes)
    && used <= nodes
    && Built(kind, out, used, list, tail)
    && Waiting(kind, s, used, a, |s|)
  }

  /** What the pass will have put out at its end. */
  ghost function PassGoal(cmp: (Node, Node) -> int, s: seq<Node>, k: nat, a: nat, out: seq<Node>): seq<Node>
    requires k > 0 && a <= |s|
  {
    out + Pass(cmp, s[a..], k)
  }

  /** Merging the next two runs brings the pass nearer to its goal. */
  lemma PairGoal(cmp: (Node, Node) -> int, k: nat, g: Place)
    requires k > 0 && g.a < g.a1 == g.b <= g.b1 <= |g.s|
    requires g.a1 == Min(g.a + k, |g.s|) && g.b1 == Min(g.a1 + k, |g.s|)
    ensures PassGoal(cmp, g.s, k, g.b1, g.Goal(cmp)) == PassGoal(cmp, g.s, k, g.a, g.out)
    ensures |g.Goal(cmp)| == |g.out| + g.b1 - g.a
  {
    PassFrom(cmp, g.s, k, g.a, g.a1, g.b1);
    Assoc(g.out, Merge(cmp, g.s[g.a..g.a1], g.s[g.b..g.b1]), Pass(cmp, g.s[g.b1..], k));
  }

  /** The body of the pass: delimit the next two runs and merge them. */
  method MergePair(kind: Kind, cmp: (Node, Node) -> int, head: Node, p: Node, insize: nat, list0: Node?, tail0: Node?,
                   ghost s: seq<Node>, ghost a: nat, ghost out0: seq<Node>, ghost used0: set<Node>, ghost nodes: set<Node>)
    returns (q: Node?, list: Node?, tail: Node?, ghost b: nat, ghost out: seq<Node>, ghost used: set<Node>)
    requires InPass(kind, s, a, out0, used0, nodes, list0, tail0)
    requires insize > 0 && a < |s| && head == s[0] && p == s[a]
    modifies nodes
    ensures InPass(kind, s, b, out, used, nodes, list, tail)
    ensures b == Min(a + 2 * insize, |s|) && q == Ref(s, b) && |out| == |out0| + b - a
    ensures PassGoal(cmp, s, insize, b, out) == PassGoal(cmp, s, insize, a, out0)
  {
    var psize;
    psize, q := StepOver(kind, head, p, insize, s, a);
    ghost var g := Place(s, a, a + psize, a + psize, Min(a + psize + insize, |s|), out0, used0);
    PairGoal(cmp, insize, g);
    q, list, tail, g := MergeRuns(kind, cmp, head, p, psize, q, insize, list0, tail0, g, nodes);
    b, out, used := g.b, g.out, g.used;
  }

  /** The loop over the pairs of runs. */
  method MergePairs(kind: Kind, cmp: (Node, Node) -> int, head: Node, insize: nat, ghost s: seq<Node>, ghost nodes: set<Node>)
    returns (list: Node?, tail: Node?, nmerges: nat, ghost out: seq<Node>, ghost used: set<Node>)
    requires InPass(kind, s, 0, [], {}, nodes, null, null)
    requires insize > 0 && s != [] && head == s[0]
    modifies nodes
    ensures InPass(kind, s, |s|, out, used, nodes, list, tail)
    ensures out == PassGoal(cmp, s, insize, 0, [])
    ensures nmerges <= 1 <==> |s| <= 2 * insize
  {
    var p: Node? := head;
    ghost var a := 0;
    list, tail, nmerges, out, used := null, null, 0, [], {};
    while p != null
      invariant InPass(kind, s, a, out, used, nodes, list, tail)
      invariant p == Ref(s, a)
      invariant PassGoal(cmp, s, insize, a, out) == PassGoal(cmp, s, insize, 0, [])
      invariant if nmerges == 0 then a == 0 else if nmerges == 1 then a == Min(2 * insize, |s|) else a > 2 * insize
      decreases |s| - a
    {
      nmerges := nmerges + 1;
      p, list, tail, a, out, used := MergePair(kind, cmp, head, p, insize, list, tail, s, a, out, used, nodes);
    }
    assert Pass(cmp, s[a..], insize) == [];
  }

  /** One pass of the outer loop: merge all neighbouring runs of `insize` elements. */
  method MergePass(kind: Kind, cmp: (Node, Node) -> int, head: Node, insize: nat, ghost s: seq<Node>, ghost nodes: set<Node>)
    returns (list: Node, tail: Node, nmerges: nat, ghost out: seq<Node>)
    requires insize > 0 && s != [] && head == s[0] && Distinct(s) && NextLinks(kind, s)
    requires forall i | 0 <= i < |s| :: s[i] in nodes
    modifies nodes
    ensures out == Pass(cmp, s, insize) && list == out[0] && tail == out[|out| - 1]
    ensures Distinct(out) && NextLinks(kind, out) && PrevLinks(kind, out)
    ensures nmerges <= 1 <==> |s| <= 2 * insize
    ensures forall i | 0 <= i < |out| :: out[i] in nodes
  {
    var list', tail';
    ghost var used;
    list', tail', nmerges, out, used := MergePairs(kind, cmp, head, insize, s, nodes);
    assert s[0..] == s;
    list, tail := list', tail';
    CloseList(kind, list, tail, out, used, nodes);
  }

  lemma PassFrom<E>(cmp: (E, E) -> int, s: seq<E>, k: nat, a: nat, a1: nat, b1: nat)
    requires k > 0 && a < |s| && a1 == Min(a + k, |s|) && b1 == Min(a1 + k, |s|)
    ensures Pass(cmp, s[a..], k) == Merge(cmp, s[a..a1], s[a1..b1]) + Pass(cmp, s[b1..], k)
  {
    Slices(s, a, a1, b1);
    PassOnce(cmp, s[a..], k, a1 - a, b1 - a, s[a..a1], s[a1..b1], s[b1..]);
  }

  lemma PassOnce<E>(cmp: (E, E) -> int, s: seq<E>, k: nat, a: nat, b: nat, x: seq<E>, y: seq<E>, rest: seq<E>)
    requires k > 0 && s != [] && a == Min(k, |s|) && b == Min(a + k, |s|)
    requires x == s[..a] && y == s[a..b] && rest == s[b..]
    ensures Pass(cmp, s, k) == Merge(cmp, x, y) + Pass(cmp, rest, k)
  {
    assert b == Min(2 * k, |s|);
  }

  lemma Slices<E>(s: seq<E>, a: nat, a1: nat, b1: nat)
    requires a <= a1 <= b1 <= |s|
    ensures s[a..][..a1 - a] == s[a..a1] && s[a..][a1 - a..b1 - a] == s[a1..b1] && s[a..][b1 - a..] == s[b1..]
  {
  }

  /** What is left to do after one more pass. */
  lemma SortStep<E>(cmp: (E, E) -> int, s: seq<E>, k: nat)
    requires k > 0
    ensures SortFrom(cmp, s, k) == if |s| <= 2 * k then Pass(cmp, s, k) else SortFrom(cmp, Pass(cmp, s, k), k * 2)
  {
    assert k * 2 == 2 * k;
  }

  /** The sort macros: afterwards the elements are linked in the order of the stable
      sort, with all the links of that kind of list; `s` is the order before. */
  method Sort(kind: Kind, cmp: (Node, Node) -> int, head: Node?, ghost s: seq<Node>)
    returns (list: Node?, tail: Node?, ghost out: seq<Node>)
    requires head == Ref(s, 0) && Distinct(s) && NextLinks(kind, s)
    modifies s
    ensures out == if s == [] then [] else SortFrom(cmp, s, 1)
    ensures multiset(out) == multiset(s)
    ensures Preorder(cmp, s) ==> StablySorted(cmp, out, s)
    ensures list == Ref(out, 0) && tail == if out == [] then null else out[|out| - 1]
    ensures Distinct(out) && NextLinks(kind, out) && PrevLinks(kind, out)
    ensures forall x | x in out :: x in s
  {
    list, tail, out := head, null, s;
    ghost var nodes := set x | x in s;
    if list != null {
      var insize, looping := 1, true;
      while looping
        invariant insize > 0 && out != [] && list == out[0]
        invariant Distinct(out) && NextLinks(kind, out)
        invariant if looping then SortFrom(cmp, out, insize) == SortFrom(cmp, s, 1)
                  else out == SortFrom(cmp, s, 1) && PrevLinks(kind, out) && tail == out[|out| - 1]
        invariant forall i | 0 <= i < |out| :: out[i] in nodes
        decreases looping, |out| - insize
      {
        var nmerges;
        SortStep(cmp, out, insize);
        list, tail, nmerges, out := MergePass(kind, cmp, list, insize, out, nodes);
        if nmerges <= 1 {
          looping := false;
        }
        insize := insize * 2;
      }
      SortElements(cmp, s, 1);
      if Preorder(cmp, s) {
        SortIsStable(cmp, s);
      }
    }
  }
}
