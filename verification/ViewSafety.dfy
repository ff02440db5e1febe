/**
 What holds of every run of the views of a zone: delivery, reclamation, optimistic
 commit and the store.
 */
module ViewSafety {
  import opened Common
  import opened ChangeChain
  import opened Records
  import opened Views

  /** A state some run from an opened zone ends in. */
  ghost predicate Reached(z0: Zone, run: seq<Action>) {
    Initial(z0) && Runs(z0, run)
  }

  lemma ReachedInv(z0: Zone, run: seq<Action>)
    requires Reached(z0, run)
    ensures Inv(End(z0, run))
  {
    InitialInv(z0);
    RunKeeps(z0, run);
  }

  // ----- delivery -----

  /** Every view has applied the logs published after it was created, in order and
      none twice, up to its cursor or one further; all of them once it is idle and
      its cursor is past the end. */
  lemma ExactlyOnceInOrder(z0: Zone, run: seq<Action>, v: nat)
    requires Reached(z0, run) && v < |End(z0, run).views|
    ensures var z := End(z0, run);
      var w, h := z.views[v], z.chain.published;
      && v < |z.chain.consumed|
      && w.start <= w.Done() <= |h|
      && w.applied == h[w.start..w.Done()]
      && (forall i, j | 0 <= i < j < |w.applied| :: w.applied[i] != w.applied[j])
      && z.chain.consumed[v] <= w.Done() <= z.chain.consumed[v] + 1
      && (w.phase.Idle? && z.chain.Pending(v).None? ==> w.applied == h[w.start..])
  {
    ReachedInv(z0, run);
    var z := End(z0, run);
    var w, h := z.views[v], z.chain.published;
    assert ViewOk(z, v);
    forall i, j | 0 <= i < j < |w.applied|
      ensures w.applied[i] != w.applied[j]
    {
      assert w.applied[i] == h[w.start + i] && w.applied[j] == h[w.start + j];
    }
  }

  /** z' has all the history of z. */
  ghost predicate Grown(z: Zone, z': Zone) {
    && z.chain.published <= z'.chain.published
    && |z.views| <= |z'.views|
    && z.discarded <= z'.discarded && z.resolved <= z'.resolved
    && forall v | 0 <= v < |z.views| :: Further(z.views[v], z'.views[v])
  }

  ghost predicate Further(w: View, w': View) {
    w'.start == w.start && w.applied <= w'.applied
  }

  lemma StepGrows(z: Zone, a: Action)
    requires Inv(z) && Enabled(z, a)
    ensures Inv(Do(z, a)) && Grown(z, Do(z, a))
  {
    StepKeeps(z, a);
    if a.Poll? || a.Close? {
      CallGrows(z, a);
    }
  }

  lemma CallGrows(z: Zone, a: Action)
    requires Inv(z) && Enabled(z, a) && (a.Poll? || a.Close?)
    ensures Grown(z, Do(z, a))
  {
    CallHistory(z, a.v);
    forall v | 0 <= v < |z.views|
      ensures Further(z.views[v], Do(z, a).views[v])
    {
    }
  }

  lemma GrownFurther(z: Zone, m: Zone, z': Zone)
    requires Grown(z, m) && Grown(m, z')
    ensures Grown(z, z')
  {
    forall v | 0 <= v < |z.views|
      ensures Further(z.views[v], z'.views[v])
    {
      assert Further(z.views[v], m.views[v]) && Further(m.views[v], z'.views[v]);
    }
  }

  /** History is only ever added to: what was published and applied stays so. */
  lemma {:induction false} HistoryGrows(z: Zone, run: seq<Action>)
    requires Inv(z) && Runs(z, run)
    ensures Grown(z, End(z, run))
    decreases |run|
  {
    if run != [] {
      StepGrows(z, run[0]);
      HistoryGrows(Do(z, run[0]), run[1..]);
      GrownFurther(z, Do(z, run[0]), End(z, run));
    }
  }

  predicate ByOther(a: Action, v: nat) {
    a.Subscribe? || a.v != v
  }

  /** The steps of others leave a view and its cursor alone. */
  lemma OtherStep(z: Zone, a: Action, v: nat)
    requires Inv(z) && Enabled(z, a) && v < |z.views| && ByOther(a, v)
    ensures var z' := Do(z, a);
      && Inv(z') && v < |z'.views|
      && z'.views[v] == z.views[v] && z'.chain.consumed[v] == z.chain.consumed[v]
      && z.chain.published <= z'.chain.published && z.discarded <= z'.discarded && z.resolved <= z'.resolved
  {
    StepKeeps(z, a);
  }

  lemma {:induction false} OtherSteps(z: Zone, run: seq<Action>, v: nat)
    requires Inv(z) && Runs(z, run) && v < |z.views|
    requires forall a | a in run :: ByOther(a, v)
    ensures var z' := End(z, run);
      && Inv(z') && v < |z'.views|
      && z'.views[v] == z.views[v] && z'.chain.consumed[v] == z.chain.consumed[v]
      && z.chain.published <= z'.chain.published
    decreases |run|
  {
    if run != [] {
      OtherStep(z, run[0], v);
      OtherSteps(Do(z, run[0]), run[1..], v);
    }
  }

  /** An idle view that updates is first handed the log its cursor is at. */
  lemma FirstHanded(z: Zone, v: nat, submit: bool)
    requires Inv(z) && v < |z.views| && z.views[v].phase.Idle?
    requires z.chain.consumed[v] < |z.chain.published|
    ensures var m := Do(z, Begin(v, submit));
      && Enabled(m, Poll(v))
      && Do(m, Poll(v)).views[v].phase == Handed(z.chain.published[z.chain.consumed[v]], submit, false)
  {
    var m := Do(z, Begin(v, submit));
    StepKeeps(z, Begin(v, submit));
    assert ViewOk(z, v);
    CallHistory(m, v);
  }

  /** The second poppush of a commit may hand out a log that is then ignored; the
      same log is handed out first when the view next updates, whatever the other
      views do in between. */
  lemma IgnoredLogComesBack(z: Zone, v: nat, run: seq<Action>, submit: bool)
    requires Inv(z) && Enabled(z, Close(v))
    requires CallPopPush(z, v).1.more
    requires Runs(Do(z, Close(v)), run)
    requires forall a | a in run :: ByOther(a, v)
    ensures var z2 := End(Do(z, Close(v)), run);
      && Enabled(z2, Begin(v, submit))
      && Enabled(Do(z2, Begin(v, submit)), Poll(v))
      && Do(Do(z2, Begin(v, submit)), Poll(v)).views[v].phase
           == Handed(CallPopPush(z, v).1.handed.value, submit, false)
  {
    CallHistory(z, v);
    StepKeeps(z, Close(v));
    var z1 := Do(z, Close(v));
    OtherSteps(z1, run, v);
    FirstHanded(End(z1, run), v, submit);
  }

  // ----- reclamation -----

  /** A log is in the list exactly as long as some view has not finished with it. */
  lemma RetainedWhileNeeded(z0: Zone, run: seq<Action>, k: nat)
    requires Reached(z0, run) && k < |End(z0, run).chain.published|
    ensures var c := End(z0, run).chain;
      c.WellFormed() && (c.published[k] in c.Retained() <==> exists v | 0 <= v < |c.consumed| :: c.consumed[v] <= k)
  {
    ReachedInv(z0, run);
    var c := End(z0, run).chain;
    LeastProperties(c.consumed);
    if c.Base() <= k {
      assert c.Retained()[k - c.Base()] == c.published[k];
    }
    forall i | k < c.Base() <= i < |c.published|
      ensures c.published[i] != c.published[k]
    {
      assert c.published[k].tag != c.published[i].tag;
    }
  }

  /** A view never works on a log that has been freed. */
  lemma NeverFreedInUse(z0: Zone, run: seq<Action>, v: nat)
    requires Reached(z0, run) && v < |End(z0, run).views|
    ensures var z := End(z0, run);
      && z.chain.WellFormed()
      && var phase := z.views[v].phase;
         && (phase.Handed? || phase.OwnPass? || phase.Closing? ==> phase.log in z.chain.Retained())
         && (phase.Polling? && phase.held.Some? ==> phase.held.value in z.chain.Retained())
  {
    ReachedInv(z0, run);
    var z := End(z0, run);
    assert ViewOk(z, v);
    LeastProperties(z.chain.consumed);
    var n := z.chain.consumed[v];
    if n < |z.chain.published| {
      assert z.chain.Retained()[n - z.chain.Base()] == z.chain.published[n];
    }
  }

  /** updateview meets the demands of poppush on every call: what it gives back is
      what it was handed, and what it submits was never published before. */
  lemma DisciplineKept(z0: Zone, run: seq<Action>, v: nat)
    requires Reached(z0, run) && v < |End(z0, run).views|
    ensures var z := End(z0, run);
      var w := z.views[v];
      && z.chain.WellFormed() && v < |z.chain.consumed|
      && Discipline(z.chain, v, GivenBack(w), Submission(w))
      && (Submission(w).Some? ==> Submission(w).value !in z.chain.published)
      && (GivenBack(w).Some? ==> z.chain.Pending(v).Some?)
  {
    ReachedInv(z0, run);
    var z := End(z0, run);
    assert ViewOk(z, v);
    LeastProperties(z.chain.consumed);
    forall k | 0 <= k < |z.chain.published|
      ensures z.chain.published[k] != z.views[v].changelog
    {
      assert z.views[v].changelog.tag != z.chain.published[k].tag;
    }
  }

  // ----- optimistic commit -----

  /** First committer wins, as far as the code compares: the record a published change
      is filed under is in no log published between the moment its view entered the
      change and its own publication. */
  lemma FirstCommitterWins(z0: Zone, run: seq<Action>, k: nat, key: Id, j: nat)
    requires Reached(z0, run)
    requires k < |End(z0, run).chain.published| && key in End(z0, run).chain.published[k].changes
    requires End(z0, run).chain.published[k].changes[key].since <= j < k
    ensures !Refers(End(z0, run).chain.published[j], key)
  {
    ReachedInv(z0, run);
    assert LogOk(End(z0, run).chain.published, k);
  }

  /** Where an earlier log has the record a later log's change is filed under, the later
      view had applied the earlier log when it entered the change. */
  lemma OverlapWasSeen(z0: Zone, run: seq<Action>, j: nat, k: nat, key: Id)
    requires Reached(z0, run)
    requires j < k < |End(z0, run).chain.published|
    requires key in End(z0, run).chain.published[k].changes && Refers(End(z0, run).chain.published[j], key)
    ensures j < End(z0, run).chain.published[k].changes[key].since <= k
  {
    ReachedInv(z0, run);
    assert LogOk(End(z0, run).chain.published, k);
  }

  /** The log has a change filed under the record, or has the record in a change. */
  ghost predicate Touches(log: Log, id: Id) {
    id in log.changes || Refers(log, id)
  }

  /** The change and the other log have a record in common, old or new. */
  ghost predicate Overlaps(mine: Log, key: Id, other: Log)
    requires key in mine.changes
  {
    || Touches(other, key)
    || (var r := FinalRecord(key, mine.changes[key]); r.Some? && Touches(other, r.value))
  }

  /** What goes unnoticed: a change and a log published between its entering and its
      publication have a record in common exactly when that log holds a copy made of
      the same record, or the change holds a copy and that log has the same revision.
      So views that only amend and remove records never overlap. */
  lemma OverlapExactly(z0: Zone, run: seq<Action>, k: nat, key: Id, j: nat)
    requires Reached(z0, run)
    requires k < |End(z0, run).chain.published| && key in End(z0, run).chain.published[k].changes
    requires End(z0, run).chain.published[k].changes[key].since <= j < k
    ensures var h := End(z0, run).chain.published;
      && (key in h[j].changes <==> Owned(h[j], key))
      && (Overlaps(h[k], key, h[j]) <==> Owned(h[j], key) || (Owned(h[k], key) && Touches(h[j], Next(key))))
  {
    ReachedInv(z0, run);
    var h := End(z0, run).chain.published;
    assert LogOk(h, k) && LogOk(h, j);
    if key in h[j].changes {
      assert FinalRecord(key, h[j].changes[key]) != None && FinalRecord(key, h[j].changes[key]) != Some(key);
    }
  }

  /** The changes of a published log are filed under no record of the logs published
      since it was last empty. */
  ghost predicate ComparedSinceEmpty(h: seq<Log>, k: nat)
    requires k < |h|
  {
    forall key, j | key in h[k].changes && h[k].openedAt <= j < k :: !Refers(h[j], key)
  }

  /** All changes were entered with the same logs applied: the view did not update
      between its first and its last edit. */
  ghost predicate EnteredTogether(log: Log) {
    forall a, b | a in log.changes && b in log.changes :: log.changes[a].since == log.changes[b].since
  }

  /** The comparison with everything since the log was empty fails exactly for a change
      entered after the view applied a log that was published after the first edit and
      has the record of that change. */
  lemma ComparedSinceEmptyExactly(z0: Zone, run: seq<Action>, k: nat)
    requires Reached(z0, run) && k < |End(z0, run).chain.published|
    ensures var h := End(z0, run).chain.published;
      && (ComparedSinceEmpty(h, k) <==>
            forall key, j | key in h[k].changes && h[k].openedAt <= j < h[k].changes[key].since <= k :: !Refers(h[j], key))
      && (EnteredTogether(h[k]) ==> ComparedSinceEmpty(h, k))
  {
    ReachedInv(z0, run);
    assert LogOk(End(z0, run).chain.published, k);
  }

  // ----- runs in which it fails -----

  lemma {:induction false} Extend(z: Zone, run: seq<Action>, a: Action)
    requires Runs(z, run) && Enabled(End(z, run), a)
    ensures Runs(z, run + [a]) && End(z, run + [a]) == Do(End(z, run), a)
    decreases |run|
  {
    if run == [] {
      assert run + [a] == [a];
      assert Runs(Do(z, a), []);
    } else {
      Extend(Do(z, run[0]), run[1..], a);
      assert (run + [a])[1..] == run[1..] + [a];
    }
  }

  /** A zone with two views and no store. */
  function Two(h: seq<Log>, c0: nat, c1: nat, w0: View, w1: View, tag: nat, resolved: set<(nat, Id)>): Zone {
    Zone(Chain(h, [c0, c1]), [w0, w1], None, tag, {}, resolved)
  }

  lemma Step(z0: Zone, run: seq<Action>, a: Action, z: Zone)
    requires Runs(z0, run) && Enabled(End(z0, run), a) && Do(End(z0, run), a) == z
    ensures Runs(z0, run + [a]) && End(z0, run + [a]) == z
  {
    Extend(z0, run, a);
  }

  /** Two records both views have, and changes of them. */
  const IdA: Id := Id("a", 1)
  const IdB: Id := Id("b", 1)
  const Amended: Change := Change(Some(IdA), true, 0)
  const Copied: Change := Change(Some(Next(IdA)), true, 0)

  function One(tag: nat, id: Id, c: Change): Log { Log(tag, map[id := c], 0) }

  /** View 1 commits a log. */
  lemma OtherCommits(z0: Zone, run: seq<Action>, w0: View, l: Log, id: Id, c: Change) returns (run': seq<Action>)
    requires l == One(1, id, c) && c.record.Some?
    requires Runs(z0, run) && End(z0, run) == Two([], 0, 0, w0, View(0, [], l, Idle, false), 2, {})
    ensures Runs(z0, run')
      && End(z0, run') == Two([l, NewLog(2)], 0, 1, w0, View(0, [l], NewLog(3), Idle, false), 4, {(0, id)})
  {
    var passing := View(0, [], NewLog(2), OwnPass(l), false);
    Step(z0, run, Begin(1, true), Two([], 0, 0, w0, View(0, [], l, Polling(None, true, false), false), 2, {}));
    run' := run + [Begin(1, true)];
    Step(z0, run', Poll(1), Two([l], 0, 0, w0, passing, 3, {}));
    run' := run' + [Poll(1)];
    Step(z0, run', Resolve(1, id), Two([l], 0, 0, w0, passing, 3, {(0, id)}));
    run' := run' + [Resolve(1, id)];
    Step(z0, run', PassOwn(1), Two([l], 0, 0, w0, View(0, [l], NewLog(2), Closing(l), false), 3, {(0, id)}));
    run' := run' + [PassOwn(1)];
    Step(z0, run', Close(1), Two([l, NewLog(2)], 0, 1, w0, View(0, [l], NewLog(3), Idle, false), 4, {(0, id)}));
    run' := run' + [Close(1)];
  }

  /** View 0, with changes of its own that do not clash, updates: the log, */
  lemma DrainFirst(z0: Zone, run: seq<Action>, w1: View, l: Log, id: Id, c: Change, mine: Log, submit: bool)
    returns (run': seq<Action>)
    requires l == One(1, id, c) && c.record.Some? && !Clash(l, mine)
    requires Runs(z0, run) && End(z0, run) == Two([l, NewLog(2)], 0, 1, View(0, [], mine, Idle, false), w1, 4, {(0, id)})
    ensures Runs(z0, run')
      && End(z0, run') == Two([l, NewLog(2)], 0, 1, View(0, [l], mine, Polling(Some(l), submit, false), false), w1, 4, {(0, id)})
  {
    var none: seq<Log> := [];
    var h, r := [l, NewLog(2)], {(0, id)};
    assert none + [l] == [l];
    Step(z0, run, Begin(0, submit), Two(h, 0, 1, View(0, [], mine, Polling(None, submit, false), false), w1, 4, r));
    run' := run + [Begin(0, submit)];
    Step(z0, run', Poll(0), Two(h, 0, 1, View(0, [], mine, Handed(l, submit, false), false), w1, 4, r));
    run' := run' + [Poll(0)];
    Step(z0, run', Apply(0), Two(h, 0, 1, View(0, [l], mine, Polling(Some(l), submit, false), false), w1, 4, r));
    run' := run' + [Apply(0)];
  }

  /** then the empty one; the next poppush will have nothing more to hand out. */
  lemma Drain(z0: Zone, run: seq<Action>, w1: View, l: Log, id: Id, c: Change, mine: Log, submit: bool)
    returns (run': seq<Action>)
    requires l == One(1, id, c) && c.record.Some? && !Clash(l, mine)
    requires Runs(z0, run) && End(z0, run) == Two([l, NewLog(2)], 0, 1, View(0, [], mine, Idle, false), w1, 4, {(0, id)})
    ensures Runs(z0, run')
      && End(z0, run') == Two([l, NewLog(2)], 1, 1, View(0, [l, NewLog(2)], mine, Polling(Some(NewLog(2)), submit, false), false),
                              w1, 4, {(0, id)})
  {
    run' := DrainFirst(z0, run, w1, l, id, c, mine, submit);
    var n, r := NewLog(2), {(0, id)};
    var h := [l, n];
    assert [l] + [n] == h && !Clash(n, mine);
    Step(z0, run', Poll(0), Two(h, 1, 1, View(0, [l], mine, Handed(n, submit, false), false), w1, 4, r));
    run' := run' + [Poll(0)];
    Step(z0, run', Apply(0), Two(h, 1, 1, View(0, h, mine, Polling(Some(n), submit, false), false), w1, 4, r));
    run' := run' + [Apply(0)];
  }

  /** The zone with a second view; view 0 and then view 1 make a change. */
  lemma BothEdit(kind0: EditKind, id0: Id, kind1: EditKind, id1: Id) returns (z0: Zone, run: seq<Action>)
    ensures Reached(z0, run)
    ensures End(z0, run) == Two([], 0, 0, View(0, [], One(0, id0, Changed(None, kind0, id0, 0)), Idle, false),
                                View(0, [], One(1, id1, Changed(None, kind1, id1, 0)), Idle, false), 2, {})
  {
    var w0, w1 := View(0, [], NewLog(0), Idle, false), View(0, [], NewLog(1), Idle, false);
    var v0 := w0.(changelog := One(0, id0, Changed(None, kind0, id0, 0)));
    var v1 := w1.(changelog := One(1, id1, Changed(None, kind1, id1, 0)));
    z0 := Zone(Chain([], [0]), [w0], None, 1, {}, {});
    Step(z0, [], Subscribe, Two([], 0, 0, w0, w1, 2, {}));
    run := [Subscribe];
    Step(z0, run, Edit(0, kind0, id0), Two([], 0, 0, v0, w1, 2, {}));
    run := run + [Edit(0, kind0, id0)];
    Step(z0, run, Edit(1, kind1, id1), Two([], 0, 0, v0, v1, 2, {}));
    run := run + [Edit(1, kind1, id1)];
  }

  /** Two views own the same record and both commit, without a conflict: the second log
      takes the place of the first, which its view had not seen when it made its copy. */
  lemma TwoOwnersBothCommit() returns (z0: Zone, run: seq<Action>)
    ensures Reached(z0, run)
    ensures End(z0, run).chain.published == [One(1, IdA, Copied), NewLog(2), One(0, IdA, Copied)]
    ensures |End(z0, run).views| == 2 && End(z0, run).views[0].phase.OwnPass?
  {
    var mine, l := One(0, IdA, Copied), One(1, IdA, Copied);
    z0, run := BothEdit(Own, IdA, Own, IdA);
    run := OtherCommits(z0, run, View(0, [], mine, Idle, false), l, IdA, Copied);
    var w1, h := View(0, [l], NewLog(3), Idle, false), [l, NewLog(2)];
    CopiesDoNotClash();
    run := Drain(z0, run, w1, l, IdA, Copied, mine, true);
    run := PublishLast(z0, run, w1, l, mine);
  }

  /** The record of one copy is not what the other copy is filed under. */
  lemma CopiesDoNotClash()
    ensures !Clash(One(1, IdA, Copied), One(0, IdA, Copied))
  {
    assert Next(IdA) != IdA;
  }

  lemma PublishLast(z0: Zone, run: seq<Action>, w1: View, l: Log, mine: Log) returns (run': seq<Action>)
    requires Runs(z0, run)
    requires End(z0, run) == Two([l, NewLog(2)], 1, 1,
      View(0, [l, NewLog(2)], mine, Polling(Some(NewLog(2)), true, false), false), w1, 4, {(0, IdA)})
    ensures Runs(z0, run')
    ensures End(z0, run') ==
      Two([l, NewLog(2), mine], 2, 1, View(0, [l, NewLog(2)], NewLog(4), OwnPass(mine), false), w1, 5, {(0, IdA)})
  {
    var h := [l, NewLog(2)];
    assert h + [mine] == [l, NewLog(2), mine];
    Step(z0, run, Poll(0), Two(h + [mine], 2, 1, View(0, h, NewLog(4), OwnPass(mine), false), w1, 5, {(0, IdA)}));
    run' := run + [Poll(0)];
  }

  /** View 0 amends one record; names_viewpersist drains the log of another view with
      another record, and saves; view 0 then amends that record too and commits: not
      all of its log was compared with all logs since it was empty. */
  lemma PersistBetweenEdits() returns (z0: Zone, run: seq<Action>)
    ensures Reached(z0, run) && |End(z0, run).chain.published| == 3
    ensures !ComparedSinceEmpty(End(z0, run).chain.published, 2)
  {
    var c := Change(Some(IdB), true, 0);
    var mine, l := One(0, IdA, Amended), One(1, IdB, c);
    z0, run := BothEdit(Amend, IdA, Amend, IdB);
    run := OtherCommits(z0, run, View(0, [], mine, Idle, false), l, IdB, c);
    var w1, h := View(0, [l], NewLog(3), Idle, false), [l, NewLog(2)];
    Different();
    run := Drain(z0, run, w1, l, IdB, c, mine, false);
    run := SaveAll(z0, run, w1, l, mine);
    run := CommitLast(z0, run, w1, l, mine);
    NotCompared(End(z0, run).chain.published, mine);
  }

  /** The end of the drain, and the rest of names_viewpersist. */
  lemma SaveAll(z0: Zone, run: seq<Action>, w1: View, l: Log, mine: Log) returns (run': seq<Action>)
    requires Runs(z0, run)
    requires var h := [l, NewLog(2)];
      End(z0, run) == Two(h, 1, 1, View(0, h, mine, Polling(Some(NewLog(2)), false, false), false), w1, 4, {(0, IdB)})
    ensures Runs(z0, run')
    ensures var h := [l, NewLog(2)];
      End(z0, run') == Two(h, 2, 1, View(0, h, mine, Idle, false), w1, 4, {(0, IdB)})
                         .(store := Some(Store(Snapshot(0, h), [], 2)))
  {
    var h, r := [l, NewLog(2)], {(0, IdB)};
    var w := View(0, h, mine, Idle, false);
    assert h[2..] == [];
    Step(z0, run, Poll(0), Two(h, 2, 1, w, w1, 4, r));
    run' := run + [Poll(0)];
    Step(z0, run', Save(0), Two(h, 2, 1, w.(phase := Saving(Snapshot(0, h))), w1, 4, r));
    run' := run' + [Save(0)];
    Step(z0, run', Switch(0), Two(h, 2, 1, w, w1, 4, r).(store := Some(Store(Snapshot(0, h), [], 2))));
    run' := run' + [Switch(0)];
  }

  lemma NotCompared(h: seq<Log>, mine: Log)
    requires |h| == 3 && h[0] == One(1, IdB, Change(Some(IdB), true, 0))
    requires h[2] == Log(0, mine.changes[IdB := Change(Some(IdB), true, 2)], 0)
    ensures !ComparedSinceEmpty(h, 2)
  {
    assert IdB in h[0].changes && Refers(h[0], IdB);
    assert IdB in h[2].changes;
  }

  lemma Different()
    ensures IdA != IdB
  {
    assert "a"[0] != "b"[0];
  }

  lemma CommitLast(z0: Zone, run: seq<Action>, w1: View, l: Log, mine: Log) returns (run': seq<Action>)
    requires Runs(z0, run) && mine == One(0, IdA, Amended)
    requires var h := [l, NewLog(2)];
      End(z0, run) == Two(h, 2, 1, View(0, h, mine, Idle, false), w1, 4, {(0, IdB)})
                        .(store := Some(Store(Snapshot(0, h), [], 2)))
    ensures Runs(z0, run')
    ensures End(z0, run').chain.published == [l, NewLog(2), Log(0, mine.changes[IdB := Change(Some(IdB), true, 2)], 0)]
  {
    var h, both, r := [l, NewLog(2)], Log(0, mine.changes[IdB := Change(Some(IdB), true, 2)], 0), {(0, IdB)};
    var w, st := View(0, h, both, Idle, false), Store(Snapshot(0, h), [], 2);
    var none: seq<Log> := [];
    Different();
    assert IdA in mine.changes && IdB !in mine.changes;
    assert Enter(mine, Amend, IdB, 2, 2) == both;
    Step(z0, run, Edit(0, Amend, IdB), Two(h, 2, 1, w, w1, 4, r).(store := Some(st)));
    run' := run + [Edit(0, Amend, IdB)];
    Step(z0, run', Begin(0, true), Two(h, 2, 1, w.(phase := Polling(None, true, false)), w1, 4, r).(store := Some(st)));
    run' := run' + [Begin(0, true)];
    assert none + [both] == [both];
    Step(z0, run', Poll(0),
      Two(h + [both], 2, 1, View(0, h, NewLog(4), OwnPass(both), false), w1, 5, r).(store := Some(st.(logs := [both]))));
    run' := run' + [Poll(0)];
  }

  // ----- NULL records -----

  /** A view finds a NULL record in the log it was handed exactly when another view, its
      publisher, is still on its pass and has not come to some removal of the log. */
  lemma NullExactly(z0: Zone, run: seq<Action>, v: nat)
    requires Reached(z0, run) && v < |End(z0, run).views| && End(z0, run).views[v].phase.Handed?
    ensures var z := End(z0, run);
      var log := z.views[v].phase.log;
      && v < |z.chain.consumed|
      && (NullNow(z, log, z.chain.consumed[v]) <==>
            && (exists u :: 0 <= u < |z.views| && u != v && z.views[u].phase == OwnPass(log))
            && exists key | key in log.changes ::
                 log.changes[key].record.None? && (z.chain.consumed[v], key) !in z.resolved)
  {
    ReachedInv(z0, run);
    var z := End(z0, run);
    var log, h, n := z.views[v].phase.log, z.chain.published, z.chain.consumed[v];
    assert ViewOk(z, v);
    if NullNow(z, log, n) {
      var key :| key in log.changes && SeenRecord(z, log, n, key) == None;
      assert (n, key) !in z.resolved && !Passed(z, log, n) && Awaited(z, n);
      var u :| 0 <= u < |z.views| && z.views[u].phase.OwnPass? && z.chain.consumed[u] == n;
      assert ViewOk(z, u);
    }
    if key :| key in log.changes && log.changes[key].record.None? && (n, key) !in z.resolved {
      assert SeenRecord(z, log, n, key) == None;
    }
  }

  /** So a log without removals, and a log whose publisher has finished, is safe to read. */
  lemma SafeToRead(z0: Zone, run: seq<Action>, v: nat)
    requires Reached(z0, run) && v < |End(z0, run).views| && End(z0, run).views[v].phase.Handed?
    ensures var z := End(z0, run);
      var log := z.views[v].phase.log;
      !HasRemoval(log) || (forall u | 0 <= u < |z.views| :: z.views[u].phase != OwnPass(log)) ==> Enabled(z, Apply(v))
  {
    NullExactly(z0, run, v);
    ReachedInv(z0, run);
  }

  /** And this does happen: view 0 commits a removal, and view 1 is handed the log before
      view 0 has passed over it. */
  lemma RemovalInFlight() returns (z0: Zone, run: seq<Action>)
    ensures Reached(z0, run)
    ensures var z := End(z0, run);
      && |z.views| == |z.chain.consumed| == 2
      && z.views[0].phase.OwnPass? && z.views[1].phase.Handed? && z.views[1].phase.log == z.views[0].phase.log
      && NullNow(z, z.views[1].phase.log, z.chain.consumed[1])
  {
    var l := One(0, IdA, Change(None, true, 0));
    var passing, w1 := View(0, [], NewLog(2), OwnPass(l), false), View(0, [], NewLog(1), Idle, false);
    z0, run := RemovalPublished(l);
    Step(z0, run, Begin(1, false), Two([l], 0, 0, passing, w1.(phase := Polling(None, false, false)), 3, {}));
    run := run + [Begin(1, false)];
    Step(z0, run, Poll(1), Two([l], 0, 0, passing, w1.(phase := Handed(l, false, false)), 3, {}));
    run := run + [Poll(1)];
    var z := End(z0, run);
    assert IdA in l.changes && SeenRecord(z, l, 0, IdA) == None;
  }

  lemma RemovalPublished(l: Log) returns (z0: Zone, run: seq<Action>)
    requires l == One(0, IdA, Change(None, true, 0))
    ensures Reached(z0, run)
    ensures End(z0, run) == Two([l], 0, 0, View(0, [], NewLog(2), OwnPass(l), false), View(0, [], NewLog(1), Idle, false), 3, {})
  {
    var w0, w1 := View(0, [], NewLog(0), Idle, false), View(0, [], NewLog(1), Idle, false);
    z0 := Zone(Chain([], [0]), [w0], None, 1, {}, {});
    Step(z0, [], Subscribe, Two([], 0, 0, w0, w1, 2, {}));
    run := [Subscribe];
    Step(z0, run, Edit(0, Remove, IdA), Two([], 0, 0, w0.(changelog := l), w1, 2, {}));
    run := run + [Edit(0, Remove, IdA)];
    Step(z0, run, Begin(0, true), Two([], 0, 0, View(0, [], l, Polling(None, true, false), false), w1, 2, {}));
    run := run + [Begin(0, true)];
    Step(z0, run, Poll(0), Two([l], 0, 0, View(0, [], NewLog(2), OwnPass(l), false), w1, 3, {}));
    run := run + [Poll(0)];
  }

  /** Unless it fails, a view sees the same records whenever it looks at a log: those
      the log has once its publisher has passed over it. */
  lemma SeenIsFinal(z: Zone, log: Log, n: nat, key: Id)
    requires key in log.changes && SeenRecord(z, log, n, key) != None
    ensures SeenRecord(z, log, n, key) == FinalRecord(key, log.changes[key])
  {
  }

  /** Nothing of a change log that met a conflict, or was reset, is ever published. */
  lemma DiscardedNeverPublished(z0: Zone, run: seq<Action>, later: seq<Action>, tag: nat)
    requires Reached(z0, run) && Runs(End(z0, run), later)
    requires tag in End(z0, run).discarded
    ensures forall l | l in End(End(z0, run), later).chain.published :: l.tag != tag
  {
    ReachedInv(z0, run);
    RunKeeps(End(z0, run), later);
    HistoryGrows(End(z0, run), later);
  }

  // ----- the store -----

  /** Since names_viewpersist switched to it, the store holds a snapshot with the effect
      of the logs up to some point, and then exactly the logs from that point on. */
  lemma StoreWithoutGap(z0: Zone, run: seq<Action>)
    requires Reached(z0, run) && End(z0, run).store.Some?
    ensures var z := End(z0, run);
      var st, h := z.store.value, z.chain.published;
      && st.snapshot.view < |z.views|
      && z.views[st.snapshot.view].start <= st.from <= |h|
      && st.snapshot.applied + st.logs == h[z.views[st.snapshot.view].start..]
      && |st.snapshot.applied| == st.from - z.views[st.snapshot.view].start
  {
    ReachedInv(z0, run);
  }

  // ----- updateview -----

  /** Whatever of `acts` other views can do, in turn. */
  function Others(z: Zone, v: nat, acts: seq<Action>): Zone
    decreases |acts|
  {
    if acts == [] then z
    else if ByOther(acts[0], v) && Enabled(z, acts[0]) then Others(Do(z, acts[0]), v, acts[1..])
    else Others(z, v, acts[1..])
  }

  lemma {:induction false} OthersKeep(z: Zone, v: nat, acts: seq<Action>)
    requires Inv(z) && v < |z.views|
    ensures var z' := Others(z, v, acts);
      && Inv(z') && v < |z'.views|
      && z'.views[v] == z.views[v] && z'.chain.consumed[v] == z.chain.consumed[v]
      && z.chain.published <= z'.chain.published && z.discarded <= z'.discarded && z.resolved <= z'.resolved
    decreases |acts|
  {
    if acts != [] {
      if ByOther(acts[0], v) && Enabled(z, acts[0]) {
        OtherStep(z, acts[0], v);
        OthersKeep(Do(z, acts[0]), v, acts[1..]);
      } else {
        OthersKeep(z, v, acts[1..]);
      }
    }
  }

  /** The zone while a view runs updateview; `schedule` is what the other views do
      each time the view is between two steps. */
  class Run {
    var zone: Zone
    var schedule: seq<seq<Action>>

    constructor (z: Zone, s: seq<seq<Action>>)
      ensures zone == z && schedule == s
    {
      zone, schedule := z, s;
    }

    /** Let the other views run. */
    method Interfere(v: nat)
      requires Inv(zone) && v < |zone.views|
      modifies this
      ensures Inv(zone) && v < |zone.views|
      ensures zone.views[v] == old(zone).views[v] && zone.chain.consumed[v] == old(zone).chain.consumed[v]
      ensures old(zone).chain.published <= zone.chain.published && old(zone).discarded <= zone.discarded
      ensures old(zone).resolved <= zone.resolved
      ensures if old(schedule) == [] then zone == old(zone) && schedule == [] else |schedule| < |old(schedule)|
    {
      if schedule != [] {
        OthersKeep(zone, v, schedule[0]);
        zone := Others(zone, v, schedule[0]);
        schedule := schedule[1..];
      }
    }

    method Step(a: Action)
      requires Inv(zone) && Enabled(zone, a)
      modifies `zone
      ensures Inv(zone) && zone == Do(old(zone), a)
    {
      StepKeeps(zone, a);
      zone := Do(zone, a);
    }

    /** The loop's poppush, after the other views ran. */
    method CallInLoop(v: nat, ghost log: Log, ghost done0: nat, ghost total: nat, ghost submit: bool)
      requires Inv(zone) && v < |zone.views| && zone.views[v].phase.Polling?
      requires Progress(zone, v, log, done0, total, submit)
      modifies this
      ensures Inv(zone) && v < |zone.views| && !zone.views[v].phase.Polling?
      ensures Progress(zone, v, log, done0, total, submit)
      ensures old(zone).chain.published <= zone.chain.published
      ensures zone.views[v].Done() == old(zone).views[v].Done()
      ensures if old(schedule) != [] then |schedule| < |old(schedule)|
              else schedule == [] && (zone.views[v].phase.Handed? ==> zone.chain.published == old(zone).chain.published)
    {
      Interfere(v);
      PollProgress(zone, v, log, done0, total, submit);
      Step(Poll(v));
    }

    /** The loop's body, after the other views ran; it fails on a NULL record. */
    method ApplyInLoop(v: nat, ghost log: Log, ghost done0: nat, ghost total: nat, ghost submit: bool) returns (fault: bool)
      requires Inv(zone) && v < |zone.views| && zone.views[v].phase.Handed?
      requires Progress(zone, v, log, done0, total, submit)
      modifies this
      ensures Inv(zone) && v < |zone.views|
      ensures old(zone).chain.published <= zone.chain.published
      ensures if old(schedule) != [] then |schedule| < |old(schedule)|
              else schedule == [] && zone.chain.published == old(zone).chain.published
      ensures fault ==> zone.views[v].phase.Handed? && Faults(zone, v)
      ensures !fault ==> zone.views[v].phase.Polling? && Progress(zone, v, log, done0, total, submit)
      ensures !fault ==> zone.views[v].Done() == old(zone).views[v].Done() + 1 <= |zone.chain.published|
    {
      Interfere(v);
      if NullNow(zone, zone.views[v].phase.log, zone.chain.consumed[v]) {
        return true;
      }
      ApplyProgress(zone, v, log, done0, total, submit);
      Step(Apply(v));
      fault := false;
    }

    /** The view's pass over the log it published, one change at a time, and the second
        poppush; it fails on a change without any record. */
    method FinishCommit(v: nat, ghost log: Log, ghost upto: nat) returns (fault: bool)
      requires Inv(zone) && v < |zone.views| && zone.views[v].phase == OwnPass(log)
      requires zone.views[v].Done() == upto
      modifies this
      ensures Inv(zone) && v < |zone.views|
      ensures old(zone).chain.published <= zone.chain.published
      ensures fault <==> Hollow(log)
      ensures fault ==> Faults(zone, v)
      ensures !fault ==> zone.views[v].phase.Idle? && !zone.views[v].conflict && zone.views[v].changelog.changes == map[]
      ensures !fault ==> zone.views[v].Done() == upto + 1 <= |zone.chain.published| && zone.chain.published[upto] == log
    {
      assert ViewOk(zone, v);
      var todo := zone.views[v].phase.log.changes.Keys;
      while todo != {}
        invariant Inv(zone) && v < |zone.views| && zone.views[v].phase == OwnPass(log) && zone.views[v].Done() == upto
        invariant old(zone).chain.published <= zone.chain.published
        invariant todo <= log.changes.Keys && PassedBut(zone, log, zone.chain.consumed[v], todo)
        decreases |todo|
      {
        var key :| key in todo;
        fault := PassOne(v, key, log, todo);
        if fault {
          return;
        }
        todo := todo - {key};
      }
      assert !Hollow(log);
      assert Passed(zone, log, zone.chain.consumed[v]);
      Step(PassOwn(v));
      fault := false;
      SecondCall(v, log, upto);
    }

    /** One change of the pass, after the other views ran. */
    method PassOne(v: nat, key: Id, ghost log: Log, ghost todo: set<Id>) returns (fault: bool)
      requires Inv(zone) && v < |zone.views| && zone.views[v].phase == OwnPass(log) && v < |zone.chain.consumed|
      requires key in todo && todo <= log.changes.Keys && PassedBut(zone, log, zone.chain.consumed[v], todo)
      modifies this
      ensures Inv(zone) && v < |zone.views| && v < |zone.chain.consumed|
      ensures zone.views[v] == old(zone).views[v]
      ensures old(zone).chain.published <= zone.chain.published
      ensures fault ==> Hollow(log)
      ensures !fault ==> PassedBut(zone, log, zone.chain.consumed[v], todo - {key})
    {
      Interfere(v);
      if FinalRecord(key, zone.views[v].phase.log.changes[key]).None? {
        return true;
      }
      Step(Resolve(v, key));
      fault := false;
    }

    /** The second poppush, after the other views ran. */
    method SecondCall(v: nat, ghost log: Log, ghost upto: nat)
      requires Inv(zone) && v < |zone.views| && zone.views[v].phase == Closing(log)
      requires zone.views[v].Done() == upto + 1
      modifies this
      ensures Inv(zone) && v < |zone.views|
      ensures old(zone).chain.published <= zone.chain.published
      ensures zone.views[v].phase.Idle? && !zone.views[v].conflict && zone.views[v].changelog.changes == map[]
      ensures zone.views[v].Done() == upto + 1 <= |zone.chain.published| && zone.chain.published[upto] == log
    {
      Interfere(v);
      CloseProgress(zone, v, log, upto);
      Step(Close(v));
    }

    /** The loop of updateview: it ends with nothing more handed out, or in a fault. */
    method DrainLoop(v: nat, ghost log: Log, ghost done0: nat, ghost total: nat, ghost submit: bool) returns (fault: bool)
      requires Inv(zone) && v < |zone.views| && zone.views[v].phase.Polling?
      requires Progress(zone, v, log, done0, total, submit)
      modifies this
      ensures Inv(zone) && v < |zone.views|
      ensures old(zone).chain.published <= zone.chain.published
      ensures if fault then Faults(zone, v) && zone.views[v].phase.Handed?
              else !zone.views[v].phase.Handed? && !zone.views[v].phase.Polling? && Progress(zone, v, log, done0, total, submit)
    {
      CallInLoop(v, log, done0, total, submit);
      while zone.views[v].phase.Handed?
        invariant Inv(zone) && v < |zone.views| && !zone.views[v].phase.Polling?
        invariant old(zone).chain.published <= zone.chain.published
        invariant Progress(zone, v, log, done0, total, submit)
        decreases |schedule|, if zone.views[v].phase.Handed? then |zone.chain.published| - zone.views[v].Done() + 1 else 0
      {
        fault := ApplyInLoop(v, log, done0, total, submit);
        if fault {
          return;
        }
        CallInLoop(v, log, done0, total, submit);
      }
      fault := false;
    }

    /** updateview.  Either it follows a NULL pointer, in a log whose publisher has not
        passed over it yet or in its own pass over a hollow change; or it returns, having
        applied everything that was published when it was called.  The changes are
        published, all at once, exactly when no log handed out up to that point has a
        record they are filed under; otherwise they are thrown away.  `upto` is how many
        logs they were compared with. */
    method UpdateView(v: nat, submit: bool) returns (conflict: bool, fault: bool, ghost upto: nat)
      requires Inv(zone) && Enabled(zone, Begin(v, submit))
      modifies this
      ensures Inv(zone) && v < |zone.views|
      ensures old(zone).chain.published <= zone.chain.published
      ensures fault ==> Faults(zone, v)
      ensures !fault ==> zone.views[v].phase.Idle? && conflict == zone.views[v].conflict
      ensures !fault ==> old(zone).views[v].Done() <= upto <= zone.views[v].Done() <= |zone.chain.published|
      ensures !fault ==> |old(zone).chain.published| <= upto
      ensures !fault ==>
        (conflict <==> ClashIn(zone.chain.published, old(zone).views[v].Done(), upto, old(zone).views[v].changelog))
      ensures var before, after := old(zone).views[v].changelog, zone.views[v].changelog;
        !fault ==>
          if conflict then before.tag in zone.discarded && after.changes == map[]
          else if submit then
            upto < zone.views[v].Done() && zone.chain.published[upto] == before && after.changes == map[]
          else after == before
    {
      ghost var log, done0, total := zone.views[v].changelog, zone.views[v].Done(), |zone.chain.published|;
      assert ViewOk(zone, v);
      Step(Begin(v, submit));
      conflict, upto := false, 0;
      fault := DrainLoop(v, log, done0, total, submit);
      if fault {
        return;
      }
      upto := zone.views[v].Done();
      ghost var seen := zone.chain.published;
      if zone.views[v].phase.OwnPass? {
        fault := FinishCommit(v, log, upto);
        if fault {
          return;
        }
      }
      conflict := zone.views[v].conflict;
      SameClashes(seen, zone.chain.published, done0, upto, log);
    }
  }

  /** The publisher has passed over all changes but some. */
  ghost predicate PassedBut(z: Zone, log: Log, n: nat, todo: set<Id>) {
    forall key | key in log.changes && key !in todo ::
      (n, key) in z.resolved && FinalRecord(key, log.changes[key]).Some?
  }

  /** The view stands where the code follows a NULL pointer. */
  ghost predicate Faults(z: Zone, v: nat)
    requires v < |z.views|
  {
    var phase := z.views[v].phase;
    || (phase.Handed? && v < |z.chain.consumed| && NullNow(z, phase.log, z.chain.consumed[v]))
    || (phase.OwnPass? && Hollow(phase.log))
  }

  lemma SameClashes(h: seq<Log>, h': seq<Log>, from: nat, to: nat, log: Log)
    requires h <= h' && from <= to <= |h|
    ensures ClashIn(h, from, to, log) == ClashIn(h', from, to, log)
  {
  }

  /** A log between two points of the history has a change of the given one. */
  ghost predicate ClashIn(h: seq<Log>, from: nat, to: nat, log: Log)
    requires from <= to <= |h|
  {
    exists j | from <= j < to :: Clash(h[j], log)
  }

  /** How far updateview has come with a change log that was `log` at the start. */
  ghost predicate Progress(z: Zone, v: nat, log: Log, done0: nat, total: nat, submit: bool)
    requires v < |z.views|
  {
    var w, h := z.views[v], z.chain.published;
    && done0 <= w.Done() <= |h|
    && total <= |h|
    && var clash := ClashIn(h, done0, w.Done(), log);
       match w.phase
       case Polling(_, s, c) =>
         c == clash && if c then log.tag in z.discarded else s == submit && w.changelog == log
       case Handed(_, s, c) =>
         c == clash && if c then log.tag in z.discarded else s == submit && w.changelog == log
       case OwnPass(l) => submit && !clash && l == log && total <= w.Done()
       case Idle =>
         w.conflict == clash && total <= w.Done()
         && if clash then log.tag in z.discarded && w.changelog.changes == map[] else !submit && w.changelog == log
       case _ => false
  }

  lemma PollProgress(z: Zone, v: nat, log: Log, done0: nat, total: nat, submit: bool)
    requires Inv(z) && Enabled(z, Poll(v)) && Progress(z, v, log, done0, total, submit)
    ensures Progress(Do(z, Poll(v)), v, log, done0, total, submit)
    ensures Do(z, Poll(v)).views[v].Done() == z.views[v].Done()
    ensures Do(z, Poll(v)).views[v].phase.Handed? ==> Do(z, Poll(v)).chain.published == z.chain.published
  {
    CallHistory(z, v);
    assert ViewOk(z, v);
  }

  lemma CloseProgress(z: Zone, v: nat, log: Log, upto: nat)
    requires Inv(z) && Enabled(z, Close(v)) && z.views[v].phase == Closing(log) && z.views[v].Done() == upto + 1
    ensures var z' := Do(z, Close(v));
      && z.chain.published <= z'.chain.published
      && z'.views[v].phase.Idle? && !z'.views[v].conflict && z'.views[v].changelog.changes == map[]
      && z'.views[v].Done() == upto + 1 <= |z'.chain.published| && z'.chain.published[upto] == log
  {
    CallHistory(z, v);
    assert ViewOk(z, v);
  }

  lemma ApplyProgress(z: Zone, v: nat, log: Log, done0: nat, total: nat, submit: bool)
    requires Inv(z) && Enabled(z, Apply(v)) && Progress(z, v, log, done0, total, submit)
    ensures Progress(Do(z, Apply(v)), v, log, done0, total, submit)
    ensures Do(z, Apply(v)).views[v].Done() == z.views[v].Done() + 1
  {
    assert ViewOk(z, v);
    var w, h := z.views[v], z.chain.published;
    if Clash(h[w.Done()], log) {
      assert ClashIn(h, done0, w.Done() + 1, log);
    }
    if w.phase.conflict {
      var j :| done0 <= j < w.Done() && Clash(h[j], log);
    }
  }

  // ----- the loop over the changes of a log -----

  /** One of the first n changes has a record that a change of mine is filed under. */
  ghost predicate Met(keys: seq<Id>, n: nat, handed: Log, mine: Log)
    requires n <= |keys| && forall key | key in keys :: key in handed.changes
  {
    exists i | 0 <= i < n ::
      var r := FinalRecord(keys[i], handed.changes[keys[i]]); r.Some? && r.value in mine.changes
  }

  /** The body of the loop of updateview looks at one change at a time, looks up the
      record it sees in it, and may throw the view's own changes away halfway; it comes
      to what the step Apply says of the log as a whole. */
  method ApplyChanges(z: Zone, v: nat, keys: seq<Id>)
    returns (changelog: Log, submit: bool, conflict: bool)
    requires Inv(z) && Enabled(z, Apply(v))
    requires forall key :: key in keys <==> key in z.views[v].phase.log.changes
    ensures var w := Do(z, Apply(v)).views[v];
      w.changelog == changelog && w.phase == Polling(Some(z.views[v].phase.log), submit, conflict)
  {
    var w, n := z.views[v], z.chain.consumed[v];
    var handed := w.phase.log;
    changelog, submit, conflict := w.changelog, w.phase.submit, w.phase.conflict;
    assert ViewOk(z, v);
    NotHollow(z, handed, n);
    var i := 0;
    while i < |keys|
      invariant 0 <= i <= |keys|
      invariant var met := Met(keys, i, handed, w.changelog);
        && changelog == (if met && !w.phase.conflict then NewLog(z.nextTag) else w.changelog)
        && submit == (w.phase.submit && !met) && conflict == (w.phase.conflict || met)
    {
      assert keys[i] in keys;
      var name := SeenRecord(z, handed, n, keys[i]).value;
      if name in changelog.changes {
        if !conflict {
          changelog := NewLog(z.nextTag);
        }
        conflict := true;
        submit := false;
      }
      i := i + 1;
    }
    MetIsClash(keys, handed, w.changelog);
  }

  lemma MetIsClash(keys: seq<Id>, handed: Log, mine: Log)
    requires forall key :: key in keys <==> key in handed.changes
    ensures Met(keys, |keys|, handed, mine) <==> Clash(handed, mine)
  {
    if Clash(handed, mine) {
      var key :| key in handed.changes
        && var r := FinalRecord(key, handed.changes[key]); r.Some? && r.value in mine.changes;
      var i :| 0 <= i < |keys| && keys[i] == key;
    }
    if Met(keys, |keys|, handed, mine) {
      var i :| 0 <= i < |keys|
        && var r := FinalRecord(keys[i], handed.changes[keys[i]]); r.Some? && r.value in mine.changes;
      assert keys[i] in keys;
    }
  }
}
