/**
 The indices of a view (index.c) and the functions that decide which record of a name
 an index keeps (dictionary.c).  The red-black tree is a map from names.
 */
module RecordIndex {
  import opened Common
  import opened Records
  import opened Decimal

  /** The indices keyed by name, by their key names: nameready, nameupcoming,
      namenoserial, namenewserial and validnow. */
  datatype Kind = Ready | Upcoming | NoSerial | NewSerial | ValidNow

  type Tree = map<string, Record>

  predicate Usable(d: Record) { d.name.Some? }

  function NameOf(d: Record): string
    requires Usable(d)
  {
    d.name.value
  }

  /** strcmp of the printed revisions */
  function Order(d: Record, e: Record): int {
    Compare(Numeral(d.revision), Numeral(e.revision))
  }

  // ----- the accept functions -----

  predicate Stale(d: Record, cur: Option<Record>)
    requires Usable(d) && (cur.Some? ==> Usable(cur.value))
  {
    cur.Some? && Compare(NameOf(d), NameOf(cur.value)) == 0 && Order(d, cur.value) <= 0
  }

  /** acceptfunc(d, cur, cmp) */
  function Accept(kind: Kind, d: Record, cur: Option<Record>): (rc: int)
    requires Usable(d) && (cur.Some? ==> Usable(cur.value))
    ensures rc == 0 || rc == 1 || rc == 2
  {
    match kind
    case Ready =>
      if Stale(d, cur) then 0
      else if d.validupto.Some? then 0
      else if d.validfrom.None? then 0
      else if d.expiry.Some? then 0
      else 1
    case Upcoming =>
      if Stale(d, cur) then 0 else 1
    case NoSerial =>
      if d.validfrom.Some? then
        (if cur.Some? && Compare(NameOf(d), NameOf(cur.value)) == 0 then 2 else 0)
      else if Stale(d, cur) then 0
      else 1
    case NewSerial =>
      if d.validupto.Some? then 0
      else if d.validfrom.None? then 0
      else 1
    case ValidNow =>
      if d.validupto.Some? then 0
      else if d.validfrom.None? then 0
      else if d.expiry.None? then 0
      else 1
  }

  /** A record accepted on its own is never answered with 2 beside another, so that
      case of names_indexinsert is never taken. */
  lemma AcceptedNotTwo(kind: Kind, d: Record, cur: Record)
    requires Usable(d) && Usable(cur) && Accept(kind, d, None) != 0
    ensures Accept(kind, d, Some(cur)) != 2
  {
  }

  // ----- what an insertion means -----

  /** The records an index is about. */
  predicate Eligible(kind: Kind, d: Record) {
    match kind
    case Ready => d.validupto.None? && d.validfrom.Some? && d.expiry.None?
    case Upcoming => true
    case NoSerial => d.validfrom.None?
    case NewSerial => d.validupto.None? && d.validfrom.Some?
    case ValidNow => d.validupto.None? && d.validfrom.Some? && d.expiry.Some?
  }

  /** Whether the kind keeps the greatest revision, or the last one inserted. */
  predicate ByRevision(kind: Kind) { kind.Ready? || kind.Upcoming? || kind.NoSerial? }

  /** The index after an insertion.  A record the index is not about ends the stay of
      its name, except in namenoserial, where only a marked record does, or the very
      record stored. */
  function InsertInto(kind: Kind, tree: Tree, d: Record, same: bool): Tree
    requires Usable(d)
  {
    var n := NameOf(d);
    if !Eligible(kind, d) then
      if kind.NoSerial? && d.marker == 0 && !same then tree else tree - {n}
    else if n !in tree then tree[n := d]
    else if ByRevision(kind) && Order(d, tree[n]) <= 0 then tree
    else if d.marker != 0 then tree - {n}
    else tree[n := d]
  }

  /** One call of names_indexinsert: the record as it is then, and whether it is the very
      record stored for its name. */
  datatype Insertion = Insertion(record: Record, same: bool)

  ghost predicate AllUsable(ins: seq<Insertion>) {
    forall i | i in ins :: Usable(i.record)
  }

  /** Only named records without a deletion marker. */
  ghost predicate Unmarked(ins: seq<Insertion>) {
    forall i | i in ins :: Usable(i.record) && i.record.marker == 0
  }

  /** The index after a sequence of insertions. */
  ghost function FoldInsertions(kind: Kind, ins: seq<Insertion>): Tree
    requires AllUsable(ins)
  {
    if ins == [] then map[]
    else
      var last := ins[|ins| - 1];
      InsertInto(kind, FoldInsertions(kind, ins[..|ins| - 1]), last.record, last.same)
  }

  function Inserted(ins: seq<Insertion>): (ds: seq<Record>)
    ensures |ds| == |ins| && forall i | 0 <= i < |ins| :: ds[i] == ins[i].record
  {
    seq(|ins|, i requires 0 <= i < |ins| => ins[i].record)
  }

  ghost predicate WellKeyed(tree: Tree) {
    forall n | n in tree :: Usable(tree[n]) && NameOf(tree[n]) == n
  }

  class Index {
    const kind: Kind
    var tree: Tree
    ghost var history: seq<Insertion>   // every insertion so far

    ghost predicate Valid()
      reads this
    {
      AllUsable(history) && tree == FoldInsertions(kind, history) && WellKeyed(tree)
    }

    constructor (k: Kind)
      ensures Valid() && kind == k && history == []
    {
      kind, tree, history := k, map[], [];
    }

    /** names_indexinsert */
    method Insert(d: Record, same: bool) returns (rc: int)
      requires Usable(d) && Valid()
      modifies this
      ensures Valid()
      ensures tree == InsertInto(kind, old(tree), d, same) && history == old(history) + [Insertion(d, same)]
      ensures rc == 1 <==> Eligible(kind, d)
                           && (NameOf(d) in old(tree) && ByRevision(kind) ==> Order(d, old(tree)[NameOf(d)]) > 0)
      ensures rc == 0 || rc == 1
      ensures rc == 1 ==>
        tree == if d.marker != 0 && NameOf(d) in old(tree) then old(tree) - {NameOf(d)} else old(tree)[NameOf(d) := d]
      ensures rc == 0 && (Eligible(kind, d) || (kind.NoSerial? && d.marker == 0 && !same)) ==> tree == old(tree)
      ensures !Eligible(kind, d) && (kind.NoSerial? ==> d.marker != 0 || same) ==> tree == old(tree) - {NameOf(d)}
    {
      rc := InsertInTree(d, same);
      ghost var ins := history + [Insertion(d, same)];
      assert ins[..|ins| - 1] == history;
      history := ins;
    }

    method InsertInTree(d: Record, same: bool) returns (rc: int)
      requires Usable(d) && WellKeyed(tree)
      modifies `tree
      ensures WellKeyed(tree)
      ensures tree == InsertInto(kind, old(tree), d, same)
      ensures rc == 1 <==> Eligible(kind, d)
                           && (NameOf(d) in old(tree) && ByRevision(kind) ==> Order(d, old(tree)[NameOf(d)]) > 0)
      ensures rc == 0 || rc == 1
      ensures rc == 1 ==>
        tree == if d.marker != 0 && NameOf(d) in old(tree) then old(tree) - {NameOf(d)} else old(tree)[NameOf(d) := d]
      ensures rc == 0 && (Eligible(kind, d) || (kind.NoSerial? && d.marker == 0 && !same)) ==> tree == old(tree)
      ensures !Eligible(kind, d) && (kind.NoSerial? ==> d.marker != 0 || same) ==> tree == old(tree) - {NameOf(d)}
    {
      var n := NameOf(d);
      CompareZero(n, n);
      if Accept(kind, d, None) != 0 {
        if n !in tree {
          tree := tree[n := d];
          return 1;
        }
        AcceptedNotTwo(kind, d, tree[n]);
        if Accept(kind, d, Some(tree[n])) == 0 {
          return 0;
        }
        if d.marker != 0 {
          tree := tree - {n};
        } else {
          tree := tree[n := d];
        }
        return 1;
      } else {
        if n in tree {
          if d.marker != 0 || Accept(kind, d, Some(tree[n])) == 0 || same {
            tree := tree - {n};
          }
        }
        return 0;
      }
    }

    /** names_indexlookup: what it finds, in terms of everything ever inserted. */
    method Lookup(find: Record) returns (found: Option<Record>)
      requires Usable(find) && Valid()
      ensures found.Some? ==> found.value.name == find.name
      ensures !ByRevision(kind) ==>
        var i := LastOf(history, NameOf(find));
        && (found.Some? <==> i >= 0 && Eligible(kind, history[i].record)
                             && !(history[i].record.marker != 0 && PresentAt(kind, history, NameOf(find), i)))
        && (found.Some? ==> found.value == history[i].record)
      ensures ByRevision(kind) ==>
        && (found.Some? <==> exists i :: Suits(kind, history, NameOf(find), i) && Stays(kind, history, NameOf(find), i, |history|))
        && (found.Some? ==> exists i :: BestOf(kind, history, NameOf(find), i) && found.value == history[i].record)
      ensures Removed(kind, history, NameOf(find)) ==> found.None?
      ensures Unmarked(history) && kind.NoSerial? ==>
        && (found.Some? <==> exists i :: WaitsAt(history, NameOf(find), i))
        && var up := Fold(Upcoming, Waiting(history, NameOf(find)));
        found == if NameOf(find) in up then Some(up[NameOf(find)]) else None
    {
      var n := NameOf(find);
      found := if n in tree then Some(tree[n]) else None;
      if ByRevision(kind) {
        PresentExactly(kind, history, n);
        if n in tree {
          ghost var i := KeepsBestOf(kind, history, n);
        }
      } else {
        LastUnlessMarked(kind, history, n);
      }
      RemovedGone(kind, history, n);
      if Unmarked(history) && kind.NoSerial? {
        NoSerialExactly(history, n);
        NoSerialWaits(history, n);
      }
    }
  }

  /** The last insertion was of a marked record of the name, which the index is about, and which
      exceeded the one stored, where revisions count. */
  ghost predicate Removed(kind: Kind, ins: seq<Insertion>, n: string)
    requires AllUsable(ins)
  {
    && ins != [] && PresentAt(kind, ins, n, |ins| - 1)
    && var d := ins[|ins| - 1].record;
       && NameOf(d) == n && Eligible(kind, d) && d.marker != 0
       && (ByRevision(kind) ==> Order(d, FoldInsertions(kind, ins[..|ins| - 1])[n]) > 0)
  }

  lemma RemovedGone(kind: Kind, ins: seq<Insertion>, n: string)
    requires AllUsable(ins)
    ensures Removed(kind, ins, n) ==> n !in FoldInsertions(kind, ins)
  {
    if Removed(kind, ins, n) {
      DropsExactly(kind, ins, n, |ins| - 1);
      FoldAll(kind, ins);
    }
  }

  // ----- whole runs of insertions -----

  /** Only named records without a deletion marker. */
  ghost predicate Plain(ds: seq<Record>) {
    forall d | d in ds :: Usable(d) && d.marker == 0
  }

  /** The index after inserting the records one by one, none of them stored already. */
  ghost function Fold(kind: Kind, ds: seq<Record>): Tree
    requires Plain(ds)
  {
    if ds == [] then map[]
    else InsertInto(kind, Fold(kind, ds[..|ds| - 1]), ds[|ds| - 1], false)
  }

  lemma PlainInserted(ins: seq<Insertion>)
    ensures Plain(Inserted(ins)) <==> Unmarked(ins)
  {
    forall i | i in ins
      ensures i.record in Inserted(ins)
    {
      var k :| 0 <= k < |ins| && ins[k] == i;
      assert Inserted(ins)[k] == i.record;
    }
  }

  /** Only namenoserial asks whether a record is the one stored. */
  lemma {:induction false} SameIrrelevant(kind: Kind, ins: seq<Insertion>)
    requires Unmarked(ins) && Plain(Inserted(ins)) && !kind.NoSerial?
    ensures FoldInsertions(kind, ins) == Fold(kind, Inserted(ins))
  {
    if ins != [] {
      var before := ins[..|ins| - 1];
      PlainInserted(before);
      assert Inserted(ins)[..|ins| - 1] == Inserted(before);
      SameIrrelevant(kind, before);
    }
  }

  /** Where the last record of a name is, or -1. */
  ghost function Last(ds: seq<Record>, n: string): (i: int)
    requires Plain(ds)
    ensures -1 <= i < |ds|
    ensures i >= 0 ==> NameOf(ds[i]) == n
    ensures forall j | i < j < |ds| :: NameOf(ds[j]) != n
  {
    if ds == [] then -1
    else if NameOf(ds[|ds| - 1]) == n then |ds| - 1
    else Last(ds[..|ds| - 1], n)
  }

  /** A name is in an index exactly when the index is about its last record. */
  lemma {:induction false} Members(kind: Kind, ds: seq<Record>, n: string)
    requires Plain(ds) && !kind.NoSerial?
    ensures n in Fold(kind, ds) <==> Last(ds, n) >= 0 && Eligible(kind, ds[Last(ds, n)])
  {
    if ds != [] {
      Members(kind, ds[..|ds| - 1], n);
    }
  }

  /** namenewserial and validnow hold the last record inserted for a name, if it is
      one of theirs. */
  lemma {:induction false} LastAccepted(kind: Kind, ds: seq<Record>, n: string)
    requires Plain(ds) && !ByRevision(kind)
    ensures n in Fold(kind, ds) <==> Last(ds, n) >= 0 && Eligible(kind, ds[Last(ds, n)])
    ensures n in Fold(kind, ds) ==> Fold(kind, ds)[n] == ds[Last(ds, n)]
  {
    if ds != [] {
      LastAccepted(kind, ds[..|ds| - 1], n);
    }
  }

  /** Every name with a new serial is either ready to be signed or valid now, and never
      both; and no other name is either. */
  lemma {:induction false} ReadyOrValid(ds: seq<Record>)
    requires Plain(ds)
    ensures Fold(NewSerial, ds).Keys == Fold(Ready, ds).Keys + Fold(ValidNow, ds).Keys
    ensures Fold(Ready, ds).Keys !! Fold(ValidNow, ds).Keys
  {
    forall n
      ensures n in Fold(NewSerial, ds) <==> n in Fold(Ready, ds) || n in Fold(ValidNow, ds)
      ensures !(n in Fold(Ready, ds) && n in Fold(ValidNow, ds))
    {
      Members(NewSerial, ds, n);
      Members(Ready, ds, n);
      Members(ValidNow, ds, n);
    }
  }

  /** Record i is the one to keep for name n: of all records of the name inserted since
      the index last dropped it, the first with the greatest revision. */
  ghost predicate Best(kind: Kind, ds: seq<Record>, n: string, i: int)
    requires Plain(ds)
  {
    && 0 <= i < |ds| && NameOf(ds[i]) == n && Eligible(kind, ds[i])
    && (forall j | i < j < |ds| && NameOf(ds[j]) == n :: Eligible(kind, ds[j]) && Order(ds[j], ds[i]) <= 0)
    && (forall j | 0 <= j < i && NameOf(ds[j]) == n && Unbroken(kind, ds, n, j, i) :: Order(ds[j], ds[i]) < 0)
  }

  /** No record from j up to i made the index drop the name. */
  ghost predicate Unbroken(kind: Kind, ds: seq<Record>, n: string, j: int, i: int)
    requires Plain(ds) && 0 <= j <= i <= |ds|
  {
    forall k | j <= k < i && NameOf(ds[k]) == n :: Eligible(kind, ds[k])
  }

  /** nameready and nameupcoming keep the greatest revision since the name was dropped. */
  lemma {:induction false} KeepsBest(kind: Kind, ds: seq<Record>, n: string) returns (i: int)
    requires Plain(ds) && (kind.Ready? || kind.Upcoming?)
    requires n in Fold(kind, ds)
    ensures Best(kind, ds, n, i) && Fold(kind, ds)[n] == ds[i]
  {
    var m := |ds| - 1;
    var before, d := ds[..m], ds[m];
    if NameOf(d) != n {
      i := KeepsBest(kind, before, n);
      BestStays(kind, ds, n, i);
    } else if n !in Fold(kind, before) {
      i := m;
      Members(kind, before, n);
      BestStarts(kind, ds, n);
    } else {
      i := KeepsBest(kind, before, n);
      if Order(d, ds[i]) <= 0 {
        BestStays(kind, ds, n, i);
      } else {
        BestMoves(kind, ds, n, i);
        i := m;
      }
    }
  }

  lemma BestStarts(kind: Kind, ds: seq<Record>, n: string)
    requires ds != [] && Plain(ds)
    requires var d := ds[|ds| - 1]; NameOf(d) == n && Eligible(kind, d)
    requires var l := Last(ds[..|ds| - 1], n); l >= 0 ==> !Eligible(kind, ds[l])
    ensures Best(kind, ds, n, |ds| - 1)
  {
    var m := |ds| - 1;
    var l := Last(ds[..m], n);
    forall j | 0 <= j < m && NameOf(ds[j]) == n
      ensures !Unbroken(kind, ds, n, j, m)
    {
      assert ds[..m][j] == ds[j] && j <= l && ds[..m][l] == ds[l];
    }
  }

  lemma BestStays(kind: Kind, ds: seq<Record>, n: string, i: int)
    requires ds != [] && Plain(ds) && Best(kind, ds[..|ds| - 1], n, i)
    requires var d := ds[|ds| - 1]; NameOf(d) == n ==> Eligible(kind, d) && Order(d, ds[i]) <= 0
    ensures Best(kind, ds, n, i)
  {
    var before := ds[..|ds| - 1];
    assert before[i] == ds[i];
    forall j | i < j < |ds| && NameOf(ds[j]) == n
      ensures Eligible(kind, ds[j]) && Order(ds[j], ds[i]) <= 0
    {
      assert j < |before| ==> before[j] == ds[j];
    }
    forall j | 0 <= j < i && NameOf(ds[j]) == n && Unbroken(kind, ds, n, j, i)
      ensures Order(ds[j], ds[i]) < 0
    {
      assert Unbroken(kind, before, n, j, i);
      assert before[j] == ds[j];
    }
  }

  lemma BestMoves(kind: Kind, ds: seq<Record>, n: string, i: int)
    requires ds != [] && Plain(ds) && Best(kind, ds[..|ds| - 1], n, i)
    requires var d := ds[|ds| - 1]; NameOf(d) == n && Eligible(kind, d) && Order(d, ds[i]) > 0
    ensures Best(kind, ds, n, |ds| - 1)
  {
    var m := |ds| - 1;
    var before, d := ds[..m], ds[m];
    CompareSwap(Numeral(d.revision), Numeral(ds[i].revision));
    forall j | 0 <= j < m && NameOf(ds[j]) == n && Unbroken(kind, ds, n, j, m)
      ensures Order(ds[j], d) < 0
    {
      assert before[j] == ds[j];
      if j < i {
        assert Unbroken(kind, before, n, j, i);
      }
      if j != i {
        CompareTransitive(Numeral(ds[j].revision), Numeral(ds[i].revision), Numeral(d.revision));
      }
    }
  }

  // ----- the upcoming records -----

  /** nameupcoming holds, for every inserted name and for no other, a record with the
      greatest revision, in the order of the printed revisions. */
  lemma UpcomingGreatest(ds: seq<Record>, n: string)
    requires Plain(ds)
    ensures n in Fold(Upcoming, ds) <==> exists d :: d in ds && NameOf(d) == n
    ensures n in Fold(Upcoming, ds) ==>
      var r := Fold(Upcoming, ds)[n];
      r in ds && NameOf(r) == n && forall d | d in ds && NameOf(d) == n :: Order(d, r) <= 0
  {
    Members(Upcoming, ds, n);
    if n in Fold(Upcoming, ds) {
      var i := KeepsBest(Upcoming, ds, n);
      assert ds[i] in ds;
      forall d | d in ds && NameOf(d) == n
        ensures Order(d, ds[i]) <= 0
      {
        var j :| 0 <= j < |ds| && ds[j] == d;
        if j == i {
          CompareZero(Numeral(d.revision), Numeral(d.revision));
        } else if j < i {
          assert Unbroken(Upcoming, ds, n, j, i);
        }
      }
    }
  }

  /** The order of insertion does not change the names or revisions of nameupcoming. */
  lemma UpcomingOrderFree(ds: seq<Record>, es: seq<Record>)
    requires Plain(ds) && Plain(es) && multiset(ds) == multiset(es)
    ensures Fold(Upcoming, ds).Keys == Fold(Upcoming, es).Keys
    ensures forall n | n in Fold(Upcoming, ds) && n in Fold(Upcoming, es) ::
      Fold(Upcoming, ds)[n].revision == Fold(Upcoming, es)[n].revision
  {
    assert forall d :: d in ds <==> d in multiset(ds);
    assert forall d :: d in es <==> d in multiset(es);
    forall n
      ensures n in Fold(Upcoming, ds) <==> n in Fold(Upcoming, es)
    {
      UpcomingGreatest(ds, n);
      UpcomingGreatest(es, n);
    }
    forall n | n in Fold(Upcoming, ds) && n in Fold(Upcoming, es)
      ensures Fold(Upcoming, ds)[n].revision == Fold(Upcoming, es)[n].revision
    {
      UpcomingGreatest(ds, n);
      UpcomingGreatest(es, n);
      var a, b := Numeral(Fold(Upcoming, ds)[n].revision), Numeral(Fold(Upcoming, es)[n].revision);
      CompareSwap(a, b);
      CompareZero(a, b);
      NumeralInjective(Fold(Upcoming, ds)[n].revision, Fold(Upcoming, es)[n].revision);
    }
  }

  /** Among non-negative revisions of a name, m being the greatest number, nameupcoming
      keeps revision m exactly when every revision with fewer digits is at most the
      number formed by as many leading digits of m. */
  lemma UpcomingNumeric(ds: seq<Record>, n: string, m: Record)
    requires Plain(ds) && m in ds && NameOf(m) == n
    requires forall d | d in ds && NameOf(d) == n :: 0 <= d.revision <= m.revision
    ensures n in Fold(Upcoming, ds)
    ensures Fold(Upcoming, ds)[n].revision == m.revision <==>
      forall d | d in ds && NameOf(d) == n :: InStep(d.revision, m.revision)
  {
    UpcomingGreatest(ds, n);
    var r := Fold(Upcoming, ds)[n];
    if r.revision == m.revision {
      forall d | d in ds && NameOf(d) == n
        ensures InStep(d.revision, m.revision)
      {
        if d.revision < m.revision {
          CompareZero(Numeral(d.revision), Numeral(m.revision));
          if Order(d, m) == 0 {
            NumeralInjective(d.revision, m.revision);
          }
          NumericOrder(d.revision, m.revision);
        }
      }
    } else {
      NumericOrder(r.revision, m.revision);
      CompareSwap(Numeral(r.revision), Numeral(m.revision));
      CompareZero(Numeral(r.revision), Numeral(m.revision));
      if Order(m, r) == 0 {
        NumeralInjective(r.revision, m.revision);
      }
      assert !InStep(r.revision, m.revision);
    }
  }

  /** Revision 10 of a name does not replace revision 9. */
  lemma TenAfterNine(d: Record)
    requires Usable(d) && d.marker == 0
    ensures var nine, ten := d.(revision := 9), d.(revision := 10);
            Plain([nine, ten]) && NameOf(d) in Fold(Upcoming, [nine, ten])
            && Fold(Upcoming, [nine, ten])[NameOf(d)].revision == 9
  {
    var nine, ten := d.(revision := 9), d.(revision := 10);
    var ds := [nine, ten];
    assert nine in ds && ten in ds;
    UpcomingNumeric(ds, NameOf(d), ten);
    assert Cut(10, 1) == Cut(1, 0) == 1;
    assert Digits(10) == Digits(1) + [Digit(0)];
    assert !InStep(9, 10);
    UpcomingGreatest(ds, NameOf(d));
  }

  // ----- a name amended again and again -----

  predicate AllNines(n: nat) {
    n == 0 || (n % 10 == 9 && AllNines(n / 10))
  }

  function Nines(len: nat): (n: nat)
    ensures AllNines(n)
    ensures len > 0 ==> |Digits(n)| == len
  {
    if len == 0 then 0 else 10 * Nines(len - 1) + 9
  }

  lemma {:induction false} NinesGreatest(n: nat, r: nat)
    requires AllNines(n) && n > 0 && |Digits(r)| <= |Digits(n)|
    ensures r <= n
  {
    if r >= 10 {
      NinesGreatest(n / 10, r / 10);
    }
  }

  lemma {:induction false} CutNines(n: nat, k: nat)
    requires AllNines(n) && n > 0 && k < |Digits(n)|
    ensures AllNines(Cut(n, k)) && Cut(n, k) > 0
  {
    if k > 0 {
      CutNines(n / 10, k - 1);
    }
  }

  /** Revision k stands behind all before it exactly when its digits are nines, but
      for the last. */
  lemma AllInStep(k: nat)
    requires k > 0
    ensures (forall r: nat | r <= k :: InStep(r, k)) <==> AllNines(k / 10)
  {
    if AllNines(k / 10) {
      forall r: nat | r <= k
        ensures InStep(r, k)
      {
        var j := |Digits(k)| - |Digits(r)|;
        if j > 0 {
          CutNines(k / 10, j - 1);
          CutDigits(k, j);
          NinesGreatest(Cut(k, j), r);
        }
      }
    } else {
      var r := Nines(|Digits(k / 10)|);
      FewerDigits(r, k);
      assert Cut(k, 1) == Cut(k / 10, 0) == k / 10;
      if InStep(r, k) {
        NinesGreatest(r, k / 10);
      }
    }
  }

  ghost predicate Occurs(ds: seq<Record>, n: string, r: int)
    requires Plain(ds)
  {
    exists d :: d in ds && NameOf(d) == n && d.revision == r
  }

  /** When the revisions of a name run from 1 to k without gap, as amending a name
      numbers them, nameupcoming has the newest exactly when all digits of k but the
      last are nines: 1 to 9, 90 to 99, 990 to 999, and so on. */
  lemma UpcomingAmended(ds: seq<Record>, n: string, k: nat)
    requires Plain(ds) && k > 0
    requires forall r | 0 < r <= k :: Occurs(ds, n, r)
    requires forall d | d in ds && NameOf(d) == n :: 0 < d.revision <= k
    ensures n in Fold(Upcoming, ds)
    ensures Fold(Upcoming, ds)[n].revision == k <==> AllNines(k / 10)
  {
    assert Occurs(ds, n, k);
    var m :| m in ds && NameOf(m) == n && m.revision == k;
    UpcomingNumeric(ds, n, m);
    AllInStep(k);
    assert InStep(0, k) by {
      assert |Digits(k)| > 1 ==> |Digits(0)| == 1;
    }
    if forall d | d in ds && NameOf(d) == n :: InStep(d.revision, k) {
      forall r: nat | r <= k
        ensures InStep(r, k)
      {
        if r > 0 {
          assert Occurs(ds, n, r);
          var d :| d in ds && NameOf(d) == n && d.revision == r;
        }
      }
    }
  }

  // ----- records waiting for a serial -----

  /** The stored record of the name is inserted again, now with a serial. */
  predicate Drops(i: Insertion, n: string)
    requires Usable(i.record)
  {
    NameOf(i.record) == n && i.record.validfrom.Some? && i.same
  }

  /** The records without a serial inserted since the name was last dropped, in order. */
  ghost function Waiting(ins: seq<Insertion>, n: string): (ws: seq<Record>)
    requires Unmarked(ins)
    ensures Plain(ws)
  {
    if ins == [] then []
    else
      var last, ws := ins[|ins| - 1], Waiting(ins[..|ins| - 1], n);
      if Drops(last, n) then []
      else if last.record.validfrom.None? then ws + [last.record]
      else ws
  }

  /** namenoserial keeps, for a name, what nameupcoming would of the waiting records
      inserted since the name was last dropped. */
  lemma {:induction false} NoSerialWaits(ins: seq<Insertion>, n: string)
    requires Unmarked(ins)
    ensures var up := Fold(Upcoming, Waiting(ins, n));
      && (n in FoldInsertions(NoSerial, ins) <==> n in up)
      && (n in up ==> FoldInsertions(NoSerial, ins)[n] == up[n])
  {
    if ins != [] {
      var before, last := ins[..|ins| - 1], ins[|ins| - 1];
      NoSerialWaits(before, n);
      if !Drops(last, n) && last.record.validfrom.None? {
        FoldOne(Waiting(before, n), last.record);
      }
    }
  }

  lemma FoldOne(ds: seq<Record>, d: Record)
    requires Plain(ds) && Usable(d) && d.marker == 0
    ensures Plain(ds + [d]) && Fold(Upcoming, ds + [d]) == InsertInto(Upcoming, Fold(Upcoming, ds), d, false)
  {
    assert (ds + [d])[..|ds|] == ds;
  }

  /** Insertion i is of a waiting record of the name, and no later one drops it. */
  ghost predicate WaitsAt(ins: seq<Insertion>, n: string, i: int)
    requires AllUsable(ins)
  {
    && 0 <= i < |ins| && NameOf(ins[i].record) == n && ins[i].record.validfrom.None?
    && forall j | i < j < |ins| :: !Drops(ins[j], n)
  }

  /** A name is waiting exactly when a waiting record of it was inserted and the stored
      record was not inserted again with a serial since. */
  lemma {:induction false} NoSerialExactly(ins: seq<Insertion>, n: string)
    requires Unmarked(ins)
    ensures n in FoldInsertions(NoSerial, ins) <==> exists i :: WaitsAt(ins, n, i)
  {
    if ins != [] {
      var before, last := ins[..|ins| - 1], ins[|ins| - 1];
      NoSerialExactly(before, n);
      WaitsNext(ins, n);
    }
  }

  lemma WaitsNext(ins: seq<Insertion>, n: string)
    requires ins != [] && Unmarked(ins)
    ensures var before, last := ins[..|ins| - 1], ins[|ins| - 1];
      (exists i :: WaitsAt(ins, n, i)) <==>
        !Drops(last, n) && ((NameOf(last.record) == n && last.record.validfrom.None?)
                            || exists i :: WaitsAt(before, n, i))
  {
    var before, last := ins[..|ins| - 1], ins[|ins| - 1];
    if NameOf(last.record) == n && last.record.validfrom.None? {
      assert WaitsAt(ins, n, |ins| - 1);
    }
    if i :| WaitsAt(ins, n, i) {
      assert i < |ins| - 1 ==> WaitsAt(before, n, i);
    }
    if i :| WaitsAt(before, n, i) {
      assert !Drops(last, n) ==> WaitsAt(ins, n, i);
    }
  }

  ghost function AllWaiting(ins: seq<Insertion>): (ws: seq<Record>)
    requires Unmarked(ins)
    ensures Plain(ws)
  {
    if ins == [] then []
    else
      var last, ws := ins[|ins| - 1], AllWaiting(ins[..|ins| - 1]);
      if last.record.validfrom.None? then ws + [last.record] else ws
  }

  lemma {:induction false} WaitingAll(ins: seq<Insertion>, n: string)
    requires Unmarked(ins) && forall k | 0 <= k < |ins| :: !ins[k].same
    ensures Waiting(ins, n) == AllWaiting(ins)
  {
    if ins != [] {
      WaitingAll(ins[..|ins| - 1], n);
    }
  }

  /** Where no stored record is inserted again, namenoserial is what nameupcoming would
      be, were the records with a serial never inserted. */
  lemma NoSerialUndropped(ins: seq<Insertion>)
    requires Unmarked(ins) && forall k | 0 <= k < |ins| :: !ins[k].same
    ensures FoldInsertions(NoSerial, ins) == Fold(Upcoming, AllWaiting(ins))
  {
    var t, up := FoldInsertions(NoSerial, ins), Fold(Upcoming, AllWaiting(ins));
    forall n
      ensures n in t <==> n in up
      ensures n in t && n in up ==> t[n] == up[n]
    {
      WaitingAll(ins, n);
      NoSerialWaits(ins, n);
    }
  }

  // ----- runs with marked records -----

  /** Where the last insertion of a name is, or -1. */
  ghost function LastOf(ins: seq<Insertion>, n: string): (i: int)
    requires AllUsable(ins)
    ensures -1 <= i < |ins|
    ensures i >= 0 ==> NameOf(ins[i].record) == n
    ensures forall j | i < j < |ins| :: NameOf(ins[j].record) != n
  {
    if ins == [] then -1
    else if NameOf(ins[|ins| - 1].record) == n then |ins| - 1
    else LastOf(ins[..|ins| - 1], n)
  }

  /** The name is in the index after the first k insertions. */
  ghost predicate PresentAt(kind: Kind, ins: seq<Insertion>, n: string, k: int)
    requires AllUsable(ins)
  {
    0 <= k <= |ins| && n in FoldInsertions(kind, ins[..k])
  }

  /** The k-th insertion takes the name out of the index. */
  ghost predicate DropsAt(kind: Kind, ins: seq<Insertion>, n: string, k: int)
    requires AllUsable(ins)
  {
    0 <= k < |ins| && PresentAt(kind, ins, n, k) && !PresentAt(kind, ins, n, k + 1)
  }

  lemma FoldNext(kind: Kind, ins: seq<Insertion>, k: nat)
    requires AllUsable(ins) && k < |ins|
    ensures FoldInsertions(kind, ins[..k + 1])
         == InsertInto(kind, FoldInsertions(kind, ins[..k]), ins[k].record, ins[k].same)
  {
    assert ins[..k + 1][..k] == ins[..k] && ins[..k + 1][k] == ins[k];
  }

  lemma FoldAll(kind: Kind, ins: seq<Insertion>)
    requires AllUsable(ins)
    ensures FoldInsertions(kind, ins[..|ins|]) == FoldInsertions(kind, ins)
  {
    assert ins[..|ins|] == ins;
  }

  /** A name that is there is dropped by an insertion of it exactly when the index is about the
      record, it is marked, and, where revisions count, it exceeds the one stored; or when the
      index is not about it.  In namenoserial the latter needs a marker or the stored record itself. */
  lemma DropsExactly(kind: Kind, ins: seq<Insertion>, n: string, k: nat)
    requires AllUsable(ins) && k < |ins| && PresentAt(kind, ins, n, k)
    ensures var d := ins[k].record;
      DropsAt(kind, ins, n, k) <==>
        NameOf(d) == n
        && if Eligible(kind, d) then
             d.marker != 0 && (ByRevision(kind) ==> Order(d, FoldInsertions(kind, ins[..k])[n]) > 0)
           else kind.NoSerial? ==> d.marker != 0 || ins[k].same
  {
    FoldNext(kind, ins, k);
  }

  /** A name that is not there comes in with every record that the index is about, marked or
      not, and with nothing else. */
  lemma EntersExactly(kind: Kind, ins: seq<Insertion>, n: string, k: nat)
    requires AllUsable(ins) && k < |ins| && !PresentAt(kind, ins, n, k)
    ensures PresentAt(kind, ins, n, k + 1) <==> NameOf(ins[k].record) == n && Eligible(kind, ins[k].record)
  {
    FoldNext(kind, ins, k);
  }

  /** namenewserial and validnow have a name exactly when they are about its last record, and
      that was not marked while the name was there; and then they have that record. */
  lemma {:induction false} LastUnlessMarked(kind: Kind, ins: seq<Insertion>, n: string)
    requires AllUsable(ins) && !ByRevision(kind)
    ensures var i, tree := LastOf(ins, n), FoldInsertions(kind, ins);
      && (n in tree <==> i >= 0 && Eligible(kind, ins[i].record)
                         && !(ins[i].record.marker != 0 && PresentAt(kind, ins, n, i)))
      && (n in tree ==> tree[n] == ins[i].record)
  {
    if ins != [] {
      var m := |ins| - 1;
      var before, i := ins[..m], LastOf(ins, n);
      FoldNext(kind, ins, m);
      FoldAll(kind, ins);
      if NameOf(ins[m].record) != n {
        LastUnlessMarked(kind, before, n);
        assert i >= 0 ==> before[..i] == ins[..i];
      }
    }
  }

  /** A record removed twice is back: the second marked record is stored as if it were new. */
  lemma RemovedTwice(kind: Kind, ins: seq<Insertion>, d: Record)
    requires AllUsable(ins) && Usable(d) && d.marker != 0 && Eligible(kind, d) && !ByRevision(kind)
    requires NameOf(d) in FoldInsertions(kind, ins)
    ensures var once, twice := ins + [Insertion(d, false)], ins + [Insertion(d, false), Insertion(d, false)];
      && NameOf(d) !in FoldInsertions(kind, once)
      && NameOf(d) in FoldInsertions(kind, twice) && FoldInsertions(kind, twice)[NameOf(d)] == d
  {
    var once, twice := ins + [Insertion(d, false)], ins + [Insertion(d, false), Insertion(d, false)];
    assert once[..|ins|] == ins && twice[..|ins| + 1] == once;
    LastUnlessMarked(kind, once, NameOf(d));
    LastUnlessMarked(kind, twice, NameOf(d));
  }

  /** No insertion from j up to i dropped the name. */
  ghost predicate Stays(kind: Kind, ins: seq<Insertion>, n: string, j: int, i: int)
    requires AllUsable(ins)
  {
    forall k | j <= k < i :: !DropsAt(kind, ins, n, k)
  }

  ghost predicate Suits(kind: Kind, ins: seq<Insertion>, n: string, j: int)
    requires AllUsable(ins)
  {
    0 <= j < |ins| && NameOf(ins[j].record) == n && Eligible(kind, ins[j].record)
  }

  /** Insertion i is the one to keep for the name: since the name was last dropped it is the first
      with the greatest revision of those the index is about. */
  ghost predicate BestOf(kind: Kind, ins: seq<Insertion>, n: string, i: int)
    requires AllUsable(ins)
  {
    && Suits(kind, ins, n, i) && Stays(kind, ins, n, i, |ins|)
    && (forall j | i < j < |ins| && Suits(kind, ins, n, j) :: Order(ins[j].record, ins[i].record) <= 0)
    && (forall j | 0 <= j < i && Suits(kind, ins, n, j) && Stays(kind, ins, n, j, i) ::
          Order(ins[j].record, ins[i].record) < 0)
  }

  /** A name is there from a record the index is about until it is dropped. */
  lemma {:induction false} PresentWhile(kind: Kind, ins: seq<Insertion>, n: string, j: nat, i: nat)
    requires AllUsable(ins) && j < i <= |ins| && Suits(kind, ins, n, j) && Stays(kind, ins, n, j, i)
    ensures PresentAt(kind, ins, n, i)
  {
    var k := i - 1;
    if k > j {
      PresentWhile(kind, ins, n, j, k);
    } else if !PresentAt(kind, ins, n, j) {
      EntersExactly(kind, ins, n, j);
    }
    assert !DropsAt(kind, ins, n, k);
  }

  lemma StaysBefore(kind: Kind, ins: seq<Insertion>, n: string, m: nat, j: int, i: int)
    requires AllUsable(ins) && i <= m <= |ins|
    ensures Stays(kind, ins[..m], n, j, i) <==> Stays(kind, ins, n, j, i)
  {
    forall k | j <= k < i
      ensures DropsAt(kind, ins[..m], n, k) <==> DropsAt(kind, ins, n, k)
    {
      if k >= 0 {
        assert ins[..m][..k] == ins[..k] && ins[..m][..k + 1] == ins[..k + 1];
      }
    }
  }

  /** The kinds that keep the greatest revision, with marked records as with others. */
  lemma {:induction false} KeepsBestOf(kind: Kind, ins: seq<Insertion>, n: string) returns (i: int)
    requires AllUsable(ins) && ByRevision(kind) && n in FoldInsertions(kind, ins)
    ensures BestOf(kind, ins, n, i) && FoldInsertions(kind, ins)[n] == ins[i].record
  {
    var m := |ins| - 1;
    var before, d := ins[..m], ins[m].record;
    FoldNext(kind, ins, m);
    FoldAll(kind, ins);
    assert !DropsAt(kind, ins, n, m);
    if n !in FoldInsertions(kind, before) {
      i := m;
      NewBest(kind, ins, n);
    } else {
      i := KeepsBestOf(kind, before, n);
      if Suits(kind, ins, n, m) && Order(d, ins[i].record) > 0 {
        BetterBest(kind, ins, n, i);
        i := m;
      } else {
        SameBest(kind, ins, n, i);
      }
    }
  }

  lemma NewBest(kind: Kind, ins: seq<Insertion>, n: string)
    requires AllUsable(ins) && ins != []
    requires !PresentAt(kind, ins, n, |ins| - 1) && PresentAt(kind, ins, n, |ins|)
    ensures BestOf(kind, ins, n, |ins| - 1)
  {
    var m := |ins| - 1;
    EntersExactly(kind, ins, n, m);
    forall j | 0 <= j < m && Suits(kind, ins, n, j)
      ensures !Stays(kind, ins, n, j, m)
    {
      if Stays(kind, ins, n, j, m) {
        PresentWhile(kind, ins, n, j, m);
      }
    }
  }

  lemma SameBest(kind: Kind, ins: seq<Insertion>, n: string, i: int)
    requires AllUsable(ins) && ins != [] && BestOf(kind, ins[..|ins| - 1], n, i)
    requires !DropsAt(kind, ins, n, |ins| - 1)
    requires Suits(kind, ins, n, |ins| - 1) ==> Order(ins[|ins| - 1].record, ins[i].record) <= 0
    ensures BestOf(kind, ins, n, i)
  {
    var m := |ins| - 1;
    var before := ins[..m];
    StaysBefore(kind, ins, n, m, i, m);
    forall j | i < j < |ins| && Suits(kind, ins, n, j)
      ensures Order(ins[j].record, ins[i].record) <= 0
    {
      assert j < m ==> before[j] == ins[j] && Suits(kind, before, n, j);
    }
    forall j | 0 <= j < i && Suits(kind, ins, n, j) && Stays(kind, ins, n, j, i)
      ensures Order(ins[j].record, ins[i].record) < 0
    {
      StaysBefore(kind, ins, n, m, j, i);
      assert before[j] == ins[j] && Suits(kind, before, n, j);
    }
  }

  lemma BetterBest(kind: Kind, ins: seq<Insertion>, n: string, i: int)
    requires AllUsable(ins) && ins != [] && BestOf(kind, ins[..|ins| - 1], n, i)
    requires Suits(kind, ins, n, |ins| - 1) && !DropsAt(kind, ins, n, |ins| - 1)
    requires Order(ins[|ins| - 1].record, ins[i].record) > 0
    ensures BestOf(kind, ins, n, |ins| - 1)
  {
    forall j | 0 <= j < |ins| - 1 && Suits(kind, ins, n, j) && Stays(kind, ins, n, j, |ins| - 1)
      ensures Order(ins[j].record, ins[|ins| - 1].record) < 0
    {
      NotBetter(kind, ins, n, i, j);
    }
    LastStays(kind, ins, n);
  }

  lemma LastStays(kind: Kind, ins: seq<Insertion>, n: string)
    requires AllUsable(ins) && !DropsAt(kind, ins, n, |ins| - 1)
    ensures Stays(kind, ins, n, |ins| - 1, |ins|)
  {
  }

  /** A record that was there does not exceed the one kept, so that it is below one that does. */
  lemma NotBetter(kind: Kind, ins: seq<Insertion>, n: string, i: int, j: int)
    requires AllUsable(ins) && ins != [] && BestOf(kind, ins[..|ins| - 1], n, i)
    requires 0 <= j < |ins| - 1 && Suits(kind, ins, n, j) && Stays(kind, ins, n, j, |ins| - 1)
    requires Order(ins[|ins| - 1].record, ins[i].record) > 0
    ensures Order(ins[j].record, ins[|ins| - 1].record) < 0
  {
    var before := ins[..|ins| - 1];
    StaysBefore(kind, ins, n, |ins| - 1, j, |ins| - 1);
    assert before[j] == ins[j] && before[i] == ins[i] && Suits(kind, before, n, j);
    if j < i {
      assert Stays(kind, before, n, j, i);
    } else if j == i {
      CompareZero(Numeral(ins[j].record.revision), Numeral(ins[j].record.revision));
    }
    Smaller(ins[j].record, ins[i].record, ins[|ins| - 1].record);
  }

  lemma Smaller(a: Record, b: Record, c: Record)
    requires Order(a, b) <= 0 && Order(c, b) > 0
    ensures Order(a, c) < 0
  {
    CompareSwap(Numeral(c.revision), Numeral(b.revision));
    CompareTransitive(Numeral(a.revision), Numeral(b.revision), Numeral(c.revision));
  }

  /** A name is in such an index exactly when it has had a record the index is about, and was
      not dropped since. */
  lemma PresentExactly(kind: Kind, ins: seq<Insertion>, n: string)
    requires AllUsable(ins) && ByRevision(kind)
    ensures n in FoldInsertions(kind, ins) <==> exists i :: Suits(kind, ins, n, i) && Stays(kind, ins, n, i, |ins|)
  {
    FoldAll(kind, ins);
    if n in FoldInsertions(kind, ins) {
      var i := KeepsBestOf(kind, ins, n);
      assert Suits(kind, ins, n, i) && Stays(kind, ins, n, i, |ins|);
    }
    if i :| Suits(kind, ins, n, i) && Stays(kind, ins, n, i, |ins|) {
      PresentWhile(kind, ins, n, i, |ins|);
    }
  }

  /** What every index holds, whatever was inserted: nameready records with a serial to be signed,
      validnow those that are signed, namenewserial both, none of them with an end of validity;
      namenoserial records without a serial. */
  lemma {:induction false} HoldsOnly(kind: Kind, ins: seq<Insertion>, n: string)
    requires AllUsable(ins) && n in FoldInsertions(kind, ins)
    ensures var d := FoldInsertions(kind, ins)[n];
      && Usable(d) && NameOf(d) == n
      && (kind.Ready? || kind.ValidNow? || kind.NewSerial? ==> d.validupto.None? && d.validfrom.Some?)
      && (kind.Ready? ==> d.expiry.None?) && (kind.ValidNow? ==> d.expiry.Some?)
      && (kind.NoSerial? ==> d.validfrom.None?)
  {
    var before := FoldInsertions(kind, ins[..|ins| - 1]);
    if n in before {
      HoldsOnly(kind, ins[..|ins| - 1], n);
    }
  }

  // ----- identifiers -----

  /** The key "namerevision" of a record, which is also its identifier in a change log. */
  function Identifier(d: Record): string
    requires Usable(d)
  {
    NameOf(d) + " " + Numeral(d.revision)
  }

  lemma NoBlank(n: int)
    ensures ' ' !in Numeral(n)
  {
  }

  /** comparenamerevision finds two records equal exactly when name and revision are. */
  lemma IdentifierInjective(d: Record, e: Record)
    requires Usable(d) && Usable(e)
    ensures Compare(Identifier(d), Identifier(e)) == 0 <==> d.name == e.name && d.revision == e.revision
  {
    var s, t := Identifier(d), Identifier(e);
    CompareZero(s, t);
    if s == t {
      BlankAt(d, e);
      BlankAt(e, d);
      var k := |NameOf(d)|;
      assert NameOf(d) == s[..k] == t[..k] == NameOf(e);
      assert Numeral(d.revision) == s[k + 1..] == t[k + 1..] == Numeral(e.revision);
      NumeralInjective(d.revision, e.revision);
    }
  }

  /** The last blank of an identifier ends the name. */
  lemma BlankAt(d: Record, e: Record)
    requires Usable(d) && Usable(e) && Identifier(d) == Identifier(e)
    ensures |NameOf(d)| >= |NameOf(e)|
  {
    var s, t, i := Identifier(d), Identifier(e), |NameOf(e)|;
    assert t[i] == ' ';
    BehindName(d, i);
    NoBlank(d.revision);
  }

  lemma BehindName(d: Record, i: nat)
    requires Usable(d) && i < |Identifier(d)|
    ensures i > |NameOf(d)| ==> Identifier(d)[i] in Numeral(d.revision)
  {
    if i > |NameOf(d)| {
      assert Identifier(d)[i] == Numeral(d.revision)[i - |NameOf(d)| - 1];
    }
  }
}
