/**
 The zone on the heap: the commit log of commitlog.c together with what views.c keeps for
 each view, its change log and the pointers updateview holds between two calls.  Every
 operation is the step of the state machine in Views; in particular each call of poppush
 meets what commitlog.c demands, and no freed log is ever read.
 */
module LiveZone {
  import opened Common
  import opened ChangeChain
  import opened Records
  import C = CommitLog
  import V = Views

  /** poppush looks at the cursors and the number of logs only, and not at the logs. */
  lemma SameCalls<A, B>(c: Chain<A>, d: Chain<B>, v: nat, p: Option<A>, q: Option<B>, s: Option<A>, t: Option<B>)
    requires c.consumed == d.consumed && |c.published| == |d.published| && v < |c.consumed|
    requires (p.Some? <==> q.Some?) && (s.Some? <==> t.Some?)
    ensures var x, y := PopPush(c, v, p, s), PopPush(d, v, q, t);
      && x.chain.consumed == y.chain.consumed && x.more == y.more && x.pushed == y.pushed
      && (x.handed.Some? <==> y.handed.Some?)
  {
  }

  /** What is handed out is the log the cursor is at after the call. */
  lemma HandedAt<A>(c: Chain<A>, v: nat, p: Option<A>, s: Option<A>)
    requires v < |c.consumed| && c.consumed[v] <= |c.published|
    ensures var x := PopPush(c, v, p, s);
      && v < |x.chain.consumed|
      && x.handed == (if x.chain.consumed[v] < |x.chain.published| then Some(x.chain.published[x.chain.consumed[v]]) else None)
      && (x.pushed ==> s.Some?)
  {
  }

  /** What updateview holds is the log its cursor is at. */
  ghost predicate HeldFor(phase: V.Phase, submits: bool, held: C.Changelog?, at: C.Changelog?) {
    match phase
    case Polling(h, submit, _) => submits == submit && (if h.Some? then held == at != null else held == null)
    case Handed(_, submit, _) => submits == submit && held == at != null
    case OwnPass(_) => held == at != null
    case Closing(_) => held == at != null
    case _ => true
  }

  class LiveZone {
    const log: C.CommitLog
    var changelogs: seq<C.Changelog>    // view->changelog
    var held: seq<C.Changelog?>         // the variable changelog of updateview
    var submits: seq<bool>              // whether its parameter mychangelog is not NULL
    ghost var zone: V.Zone
    ghost var tagOf: map<C.Changelog, nat>

    /** The history is the same on both sides. */
    ghost predicate SameHistory()
      reads `zone, `tagOf, log`consumed, log`published
    {
      && zone.chain.consumed == log.consumed
      && |zone.chain.published| == |log.published|
      && forall k | 0 <= k < |log.published| ::
           log.published[k] in tagOf && tagOf[log.published[k]] == zone.chain.published[k].tag
    }

    /** The change log of each view is in nobody else's hands. */
    ghost predicate OwnLogs()
      reads `changelogs, `tagOf, `zone, changelogs`next, changelogs`freed
    {
      && |changelogs| == |zone.views|
      && forall v {:trigger changelogs[v]} | 0 <= v < |changelogs| :: OwnLog(v, zone.views[v].changelog.tag)
    }

    ghost predicate OwnLog(v: nat, tag: nat)
      requires v < |changelogs|
      reads `changelogs, `tagOf, changelogs`next, changelogs`freed
    {
      && changelogs[v] in tagOf && tagOf[changelogs[v]] == tag
      && !changelogs[v].freed && changelogs[v].next == null
    }

    ghost predicate HeldOk(v: nat)
      requires v < |zone.views| && v < |held| && v < |submits| && v < |log.consumed|
      reads `zone, `held, `submits, log`consumed, log`published
    {
      HeldFor(zone.views[v].phase, submits[v], held[v], C.At(log.published, log.consumed[v]))
    }

    ghost predicate Valid()
      reads this, log, log.published`next, log.published`freed, changelogs`next, changelogs`freed
    {
      && log.Valid() && V.Inv(zone)
      && SameHistory() && OwnLogs()
      && |held| == |submits| == |zone.views| == |log.consumed|
      && forall v {:trigger HeldOk(v)} | 0 <= v < |zone.views| :: HeldOk(v)
    }

    /** Change logs with different tags are different. */
    lemma NotPublished(v: nat)
      requires Valid() && v < |changelogs|
      ensures changelogs[v] !in log.published
      ensures forall u | 0 <= u < |changelogs| && u != v :: changelogs[u] != changelogs[v]
    {
      forall k | 0 <= k < |log.published|
        ensures log.published[k] != changelogs[v]
      {
        assert zone.views[v].changelog.tag != zone.chain.published[k].tag;
      }
      forall u | 0 <= u < |changelogs| && u != v
        ensures changelogs[u] != changelogs[v]
      {
        assert zone.views[u].changelog.tag != zone.views[v].changelog.tag;
      }
    }

    /** A log a view works on is not freed. */
    lemma NotFreed(v: nat)
      requires Valid() && v < |zone.views|
      requires var phase := zone.views[v].phase; phase.Handed? || phase.OwnPass? || phase.Closing?
      ensures held[v] != null && !held[v].freed
    {
      assert HeldOk(v);
    }

    /** The demands of poppush. */
    lemma CallAllowed(v: nat, submit: C.Changelog?)
      requires Valid() && v < |zone.views|
      requires zone.views[v].phase.Polling? || zone.views[v].phase.Closing?
      requires submit == null || submit == changelogs[v]
      ensures log.History().WellFormed() && v < |log.cursors|
      ensures Discipline(log.History(), v, C.FromRef(held[v]), C.FromRef(submit))
      ensures submit != null ==> !submit.freed && submit.next == null
    {
      log.ValidHistory();
      assert HeldOk(v);
      if submit != null {
        NotPublished(v);
      }
    }

    /** Opening the zone: the base view subscribes to a commit log that is not there yet. */
    constructor ()
      ensures Valid() && V.Initial(zone) && fresh(log) && log.store == null
      ensures |changelogs| == 1 && fresh(changelogs[0]) && changelogs[0].changes == [] && log.published == []
    {
      log := new C.CommitLog();
      var own := new C.Changelog();
      changelogs, held, submits := [own], [null], [false];
      zone := V.Zone(Chain([], [0]), [V.View(0, [], V.NewLog(0), V.Idle, false)], None, 1, {}, {});
      tagOf := map[own := 0];
      new;
      V.InitialInv(zone);
      assert OwnLog(0, 0) && HeldOk(0);
    }

    /** The call that z and o describe is the call on the heap: both agree on the cursors,
        on what is handed out and on whether the submitted log is published. */
    ghost predicate Agreed(v: nat, submit: C.Changelog?, z: V.Zone, o: Outcome<V.Log>)
      requires v < |held| && v < |log.consumed| && v < |zone.views|
      reads this, log
    {
      var heap := PopPush(log.History(), v, C.FromRef(held[v]), C.FromRef(submit));
      && heap.chain.consumed == z.chain.consumed
      && heap.more == o.more && heap.pushed == o.pushed && (o.pushed ==> submit != null)
      && heap.handed == C.FromRef(if o.handed.Some? then C.At(heap.chain.published, z.chain.consumed[v]) else null)
      && (heap.handed.Some? <==> o.handed.Some?)
    }

    /** What the call does to the abstract zone. */
    ghost predicate Moved(v: nat, z: V.Zone, o: Outcome<V.Log>)
      requires v < |zone.views|
      reads `zone
    {
      && z.chain.published == (if o.pushed then zone.chain.published + [zone.views[v].changelog] else zone.chain.published)
      && z.views == (if o.pushed then zone.views[v := zone.views[v].(changelog := V.NewLog(zone.nextTag))] else zone.views)
    }

    lemma Moves(v: nat)
      requires V.Inv(zone) && v < |zone.views|
      requires zone.views[v].phase.Polling? || zone.views[v].phase.Closing?
      ensures Moved(v, V.CallPopPush(zone, v).0, V.CallPopPush(zone, v).1)
    {
      V.CallHistory(zone, v);
    }

    lemma Agree(v: nat, submit: C.Changelog?)
      requires Valid() && v < |zone.views|
      requires zone.views[v].phase.Polling? || zone.views[v].phase.Closing?
      requires submit == if V.Submission(zone.views[v]).Some? then changelogs[v] else null
      ensures Agreed(v, submit, V.CallPopPush(zone, v).0, V.CallPopPush(zone, v).1)
    {
      assert HeldOk(v);
      V.CallHistory(zone, v);
      SameCalls(log.History(), zone.chain, v, C.FromRef(held[v]), V.GivenBack(zone.views[v]),
                C.FromRef(submit), V.Submission(zone.views[v]));
      HandedAt(log.History(), v, C.FromRef(held[v]), C.FromRef(submit));
    }

    /** The change logs of the views are not in the list, and each view has its own. */
    ghost predicate Apart()
      reads this, log
    {
      && (forall u | 0 <= u < |changelogs| :: changelogs[u] !in log.published)
      && (forall u, x | 0 <= u < x < |changelogs| :: changelogs[u] != changelogs[x])
    }

    lemma AllApart()
      requires Valid()
      ensures Apart()
    {
      forall u | 0 <= u < |changelogs|
        ensures changelogs[u] !in log.published
        ensures forall x | 0 <= x < |changelogs| && x != u :: changelogs[x] != changelogs[u]
      {
        NotPublished(u);
      }
    }

    /** What a call writes: the change log of the view goes to the end of the history and to
        the store, if it is published, and an empty one takes its place. */
    ghost predicate Wrote(v: nat, pushed: bool, logs: seq<C.Changelog>, published: seq<C.Changelog>,
                          changes: seq<C.Change>, items: seq<Option<Record>>)
      reads `changelogs, log`published, log`store, log.store, changelogs`changes
    {
      && v < |changelogs| == |logs|
      && (forall u | 0 <= u < |changelogs| && u != v :: changelogs[u] == logs[u])
      && (if pushed
          then changelogs[v].changes == [] && log.published == published + [logs[v]]
          else changelogs[v] == logs[v] && log.published == published)
      && (log.store != null ==> Items() == items + if pushed then C.PersistedForm(changes) else [])
    }

    /** What the store has been given. */
    ghost function Items(): seq<Option<Record>>
      reads log`store, log.store
    {
      if log.store == null then [] else log.store.items
    }

    /** The changes of a view's own log. */
    ghost function Own(v: nat): seq<C.Change>
      reads `changelogs, changelogs`changes
    {
      if v < |changelogs| then changelogs[v].changes else []
    }

    /** The call of poppush; the view has not moved on yet. */
    method Call(v: nat, submit: C.Changelog?, ghost z: V.Zone, ghost o: Outcome<V.Log>) returns (more: bool)
      requires log.Valid() && SameHistory() && OwnLogs() && Apart() && v < |zone.views| == |held|
      requires log.History().WellFormed() && v < |log.cursors| == |log.consumed|
      requires Discipline(log.History(), v, C.FromRef(held[v]), C.FromRef(submit))
      requires submit == null || submit == changelogs[v]
      requires Agreed(v, submit, z, o) && Moved(v, z, o)
      modifies `changelogs, `held, `zone, `tagOf, log, log.published`next, log.published`freed, log.store
      ensures log.Valid() && log.store == old(log.store)
      ensures zone == z && more == o.more && SameHistory() && OwnLogs()
      ensures held == old(held)[v := if o.handed.Some? then C.At(log.published, log.consumed[v]) else null]
      ensures held[v] != null <==> o.handed.Some?
      ensures old(log.published) <= log.published && Wrote(v, o.pushed, old(changelogs), old(log.published), old(Own(v)), old(Items()))
    {
      ghost var before, own0, items0 := log.published, Own(v), Items();
      var handed, next;
      more, handed, next := Pop(v, submit, z, o);
      Settle(v, submit, handed, next, z, o, before, own0, items0);
      assert log.Valid();
    }

    method Pop(v: nat, submit: C.Changelog?, ghost z: V.Zone, ghost o: Outcome<V.Log>)
      returns (more: bool, handed: C.Changelog?, next: C.Changelog?)
      requires log.Valid() && OwnLogs() && Apart() && v < |zone.views| == |held|
      requires log.History().WellFormed() && v < |log.cursors| == |log.consumed|
      requires Discipline(log.History(), v, C.FromRef(held[v]), C.FromRef(submit))
      requires (submit == null || submit == changelogs[v]) && Agreed(v, submit, z, o)
      modifies log, log.published`next, log.published`freed, log.store
      ensures log.Valid() && log.store == old(log.store) && OwnLogs()
      ensures more == o.more && log.consumed == z.chain.consumed
      ensures log.published == if o.pushed then old(log.published) + [submit] else old(log.published)
      ensures handed == if o.handed.Some? then C.At(log.published, log.consumed[v]) else null
      ensures handed != null <==> o.handed.Some?
      ensures o.pushed ==> submit != null && next != null && fresh(next) && next.next == null && !next.freed && next.changes == []
      ensures log.store != null ==>
        log.store.items == old(log.store.items) + if o.pushed then C.PersistedForm(old(submit.changes)) else []
      ensures !o.pushed ==> next == submit
    {
      more, handed, next := log.PopPush(v, held[v], submit);
    }

    /** What the view keeps after a call. */
    method Settle(v: nat, submit: C.Changelog?, handed: C.Changelog?, next: C.Changelog?,
                  ghost z: V.Zone, ghost o: Outcome<V.Log>, ghost before: seq<C.Changelog>,
                  ghost own0: seq<C.Change>, ghost items0: seq<Option<Record>>)
      requires log.store != null ==> Items() == items0 + if o.pushed then C.PersistedForm(own0) else []
      requires o.pushed ==> next != null && next.changes == []
      requires OwnLogs() && v < |changelogs| == |held| && Moved(v, z, o)
      requires |before| == |zone.chain.published|
      requires forall k | 0 <= k < |before| :: before[k] in tagOf && tagOf[before[k]] == zone.chain.published[k].tag
      requires log.consumed == z.chain.consumed
      requires submit == null || submit == changelogs[v]
      requires o.pushed ==> submit != null && next != null && next.next == null && !next.freed
      requires o.pushed ==> next !in before && next !in changelogs
      requires !o.pushed ==> next == submit
      requires log.published == if o.pushed then before + [submit] else before
      modifies `changelogs, `held, `zone, `tagOf
      ensures zone == z && held == old(held)[v := handed] && SameHistory() && OwnLogs()
      ensures Wrote(v, o.pushed, old(changelogs), before, own0, items0)
    {
      ghost var tag := zone.nextTag;
      held := held[v := handed];
      if submit != null {
        if next != submit {
          tagOf := tagOf[next := tag];
        }
        changelogs := changelogs[v := next];
      }
      zone := z;
      forall u | 0 <= u < |changelogs|
        ensures OwnLog(u, zone.views[u].changelog.tag)
      {
        assert u != v ==> changelogs[u] == old(changelogs)[u];
        assert old(OwnLog(u, zone.views[u].changelog.tag));
      }
    }

    /** The caller moves on after a call. */
    method MoveOn(v: nat, ghost done: V.Zone, ghost consumed0: seq<nat>, ghost published0: seq<C.Changelog>, ghost views0: seq<V.View>)
      requires log.Valid() && SameHistory() && V.Inv(done) && |changelogs| == |zone.views|
      requires forall u | 0 <= u < |changelogs| && u != v :: OwnLog(u, zone.views[u].changelog.tag)
      requires v < |done.views| && v < |changelogs| && OwnLog(v, done.views[v].changelog.tag)
      requires |held| == |submits| == |zone.views| == |log.consumed| == |consumed0| == |views0|
      requires done.chain == zone.chain && |done.views| == |zone.views| && v < |zone.views|
      requires done.views == zone.views[v := done.views[v]]
      requires published0 <= log.published && log.consumed == consumed0[v := log.consumed[v]]
      requires forall u | 0 <= u < |views0| && u != v :: zone.views[u] == views0[u]
      requires forall u | 0 <= u < |views0| && u != v ::
        HeldFor(views0[u].phase, submits[u], held[u], C.At(published0, consumed0[u]))
      requires HeldFor(done.views[v].phase, submits[v], held[v], C.At(log.published, log.consumed[v]))
      modifies `zone
      ensures Valid() && zone == done
    {
      zone := done;
      forall u | 0 <= u < |zone.views|
        ensures HeldOk(u) && OwnLog(u, zone.views[u].changelog.tag)
      {
      }
    }

    /** A call of poppush, and moving on, is the step of the state machine. */
    method CallStep(v: nat, submit: C.Changelog?, ghost a: V.Action) returns (more: bool)
      requires Valid() && V.Enabled(zone, a) && (a == V.Poll(v) || a == V.Close(v))
      requires submit == if V.Submission(zone.views[v]).Some? then changelogs[v] else null
      modifies `changelogs, `held, `zone, `tagOf, log, log.published`next, log.published`freed, log.store
      ensures Valid() && zone == V.Do(old(zone), a) && log.store == old(log.store)
      ensures more == V.CallPopPush(old(zone), v).1.more && Wrote(v, V.CallPopPush(old(zone), v).1.pushed, old(changelogs), old(log.published), old(Own(v)), old(Items()))
    {
      assert HeldOk(v);
      CallAllowed(v, submit);
      Agree(v, submit);
      Moves(v);
      AfterCall(zone, a);
      AllApart();
      OthersHeld(v);
      more := CallAndMove(v, submit, V.CallPopPush(zone, v).0, V.CallPopPush(zone, v).1, V.Do(zone, a));
    }

    method CallAndMove(v: nat, submit: C.Changelog?, ghost z: V.Zone, ghost o: Outcome<V.Log>, ghost done: V.Zone)
      returns (more: bool)
      requires log.Valid() && SameHistory() && OwnLogs() && Apart() && v < |zone.views| && log.History().WellFormed()
      requires |held| == |submits| == |zone.views| == |log.consumed|
      requires forall u | 0 <= u < |zone.views| && u != v ::
        HeldFor(zone.views[u].phase, submits[u], held[u], C.At(log.published, log.consumed[u]))
      requires v < |log.cursors| && Discipline(log.History(), v, C.FromRef(held[v]), C.FromRef(submit))
      requires submit == null || submit == changelogs[v]
      requires Agreed(v, submit, z, o) && Moved(v, z, o) && Follows(zone, v, z, o, done)
      requires done.views[v].phase.Handed? ==> submits[v] == done.views[v].phase.submit
      modifies `changelogs, `held, `zone, `tagOf, log, log.published`next, log.published`freed, log.store
      ensures Valid() && zone == done && log.store == old(log.store) && more == o.more && Wrote(v, o.pushed, old(changelogs), old(log.published), old(Own(v)), old(Items()))
    {
      ghost var z0, published0, logs0, own0, items0 := zone, log.published, changelogs, Own(v), Items();
      more := Call(v, submit, z, o);
      MoveAfterCall(v, z0, o, done, published0, logs0, own0, items0);
    }

    method MoveAfterCall(v: nat, ghost z0: V.Zone, ghost o: Outcome<V.Log>, ghost done: V.Zone, ghost published0: seq<C.Changelog>,
                         ghost logs0: seq<C.Changelog>, ghost own0: seq<C.Change>, ghost items0: seq<Option<Record>>)
      requires Wrote(v, o.pushed, logs0, published0, own0, items0)
      requires log.Valid() && SameHistory() && OwnLogs() && Follows(z0, v, zone, o, done)
      requires |held| == |submits| == |zone.views| == |log.consumed| == |z0.chain.consumed|
      requires published0 <= log.published
      requires forall u | 0 <= u < |z0.views| && u != v ::
        HeldFor(z0.views[u].phase, submits[u], held[u], C.At(published0, z0.chain.consumed[u]))
      requires held[v] == (if o.handed.Some? then C.At(log.published, log.consumed[v]) else null)
      requires held[v] != null <==> o.handed.Some?
      requires done.views[v].phase.Handed? ==> submits[v] == done.views[v].phase.submit
      modifies `zone
      ensures Valid() && zone == done && Wrote(v, o.pushed, logs0, published0, own0, items0)
    {
      assert OwnLog(v, zone.views[v].changelog.tag);
      MoveOn(v, done, z0.chain.consumed, published0, z0.views);
    }

    lemma OthersHeld(v: nat)
      requires Valid()
      ensures forall u | 0 <= u < |zone.views| && u != v ::
        HeldFor(zone.views[u].phase, submits[u], held[u], C.At(log.published, log.consumed[u]))
    {
      forall u | 0 <= u < |zone.views| && u != v
        ensures HeldFor(zone.views[u].phase, submits[u], held[u], C.At(log.published, log.consumed[u]))
      {
        assert HeldOk(u);
      }
    }

    /** A call of poppush in the loop of updateview. */
    method Poll(v: nat) returns (more: bool)
      requires Valid() && V.Enabled(zone, V.Poll(v))
      modifies `changelogs, `held, `zone, `tagOf, log, log.published`next, log.published`freed, log.store
      ensures Valid() && zone == V.Do(old(zone), V.Poll(v)) && log.store == old(log.store)
      ensures more == V.CallPopPush(old(zone), v).1.more && Wrote(v, V.CallPopPush(old(zone), v).1.pushed, old(changelogs), old(log.published), old(Own(v)), old(Items()))
    {
      assert HeldOk(v);
      more := CallStep(v, if submits[v] then changelogs[v] else null, V.Poll(v));
    }

    /** The second call of poppush in a commit. */
    method Close(v: nat) returns (more: bool)
      requires Valid() && V.Enabled(zone, V.Close(v))
      modifies `changelogs, `held, `zone, `tagOf, log, log.published`next, log.published`freed, log.store
      ensures Valid() && zone == V.Do(old(zone), V.Close(v)) && log.store == old(log.store)
      ensures more == V.CallPopPush(old(zone), v).1.more && Wrote(v, V.CallPopPush(old(zone), v).1.pushed, old(changelogs), old(log.published), old(Own(v)), old(Items()))
    {
      more := CallStep(v, changelogs[v], V.Close(v));
    }

    /** A step of one view that does not take the mutex. */
    ghost predicate Local(v: nat, done: V.Zone)
      reads `zone
    {
      && V.Inv(done) && v < |zone.views| == |done.views|
      && done.chain == zone.chain && done.views == zone.views[v := done.views[v]]
    }

    method MoveLocal(v: nat, ghost done: V.Zone)
      requires log.Valid() && SameHistory() && Local(v, done)
      requires |changelogs| == |held| == |submits| == |zone.views| == |log.consumed|
      requires forall u | 0 <= u < |changelogs| && u != v :: OwnLog(u, zone.views[u].changelog.tag)
      requires OwnLog(v, done.views[v].changelog.tag)
      requires forall u | 0 <= u < |zone.views| && u != v ::
        HeldFor(zone.views[u].phase, submits[u], held[u], C.At(log.published, log.consumed[u]))
      requires HeldFor(done.views[v].phase, submits[v], held[v], C.At(log.published, log.consumed[v]))
      modifies `zone
      ensures Valid() && zone == done
    {
      MoveOn(v, done, log.consumed, log.published, zone.views);
    }

    /** Entering updateview: the variable starts as NULL. */
    method Begin(v: nat, submit: bool)
      requires Valid() && V.Enabled(zone, V.Begin(v, submit))
      modifies `held, `submits, `zone
      ensures Valid() && zone == V.Do(old(zone), V.Begin(v, submit))
    {
      AfterLocal(zone, V.Begin(v, submit));
      OthersHeld(v);
      Enter(v, submit, V.Do(zone, V.Begin(v, submit)));
    }

    method Enter(v: nat, submit: bool, ghost done: V.Zone)
      requires log.Valid() && SameHistory() && OwnLogs()
      requires |held| == |submits| == |zone.views| == |log.consumed|
      requires forall u | 0 <= u < |zone.views| && u != v ::
        HeldFor(zone.views[u].phase, submits[u], held[u], C.At(log.published, log.consumed[u]))
      requires Local(v, done) && done.views[v].phase == V.Polling(None, submit, false)
      requires done.views[v].changelog.tag == zone.views[v].changelog.tag
      modifies `held, `submits, `zone
      ensures Valid() && zone == done
    {
      assert OwnLog(v, zone.views[v].changelog.tag);
      held := held[v := null];
      submits := submits[v := submit];
      MoveLocal(v, done);
    }

    /** An edit, the pass of a view over its own log, or writing the index: nothing that
        the views share changes its place. */
    method Work(v: nat, ghost a: V.Action)
      requires Valid() && V.Enabled(zone, a) && (a.Edit? || a.Resolve? || a.PassOwn? || a.Save?) && a.v == v
      modifies `zone
      ensures Valid() && zone == V.Do(old(zone), a)
    {
      assert HeldOk(v) && OwnLog(v, zone.views[v].changelog.tag);
      AfterLocal(zone, a);
      OthersHeld(v);
      MoveLocal(v, V.Do(zone, a));
    }

    /** The view has a new, empty change log. */
    ghost predicate Renewed(v: nat, logs: seq<C.Changelog>)
      reads `changelogs, changelogs`changes
    {
      && v < |changelogs| == |logs| && changelogs[v].changes == []
      && forall u | 0 <= u < |changelogs| && u != v :: changelogs[u] == logs[u]
    }

    /** resetchangelog: the change log is destroyed, which nobody else has. */
    method Renew(v: nat)
      requires log.Valid() && SameHistory() && OwnLogs() && Apart() && v < |zone.views|
      modifies `changelogs, `tagOf, changelogs`freed
      ensures log.Valid() && SameHistory() && |changelogs| == |old(changelogs)|
      ensures old(changelogs)[v].freed && v < |changelogs| && OwnLog(v, zone.nextTag)
      ensures Renewed(v, old(changelogs))
      ensures forall u | 0 <= u < |changelogs| && u != v :: OwnLog(u, zone.views[u].changelog.tag)
    {
      changelogs[v].Destroy();
      var fresh' := new C.Changelog();
      tagOf := tagOf[fresh' := zone.nextTag];
      changelogs := changelogs[v := fresh'];
    }

    method Reset(v: nat)
      requires Valid() && V.Enabled(zone, V.Reset(v))
      modifies `changelogs, `tagOf, `zone, changelogs`freed
      ensures Valid() && zone == V.Do(old(zone), V.Reset(v)) && old(changelogs)[v].freed && Renewed(v, old(changelogs))
    {
      AfterLocal(zone, V.Reset(v));
      ghost var done := V.Do(zone, V.Reset(v));
      OthersHeld(v);
      AllApart();
      Renew(v);
      MoveLocal(v, done);
    }

    /** The body of the loop of updateview: the log is read, and it is not freed; on the
        first conflict the change log of the view is destroyed. */
    method Apply(v: nat, clash: bool) returns (changes: seq<C.Change>)
      requires Valid() && V.Enabled(zone, V.Apply(v))
      requires clash == V.Clash(zone.views[v].phase.log, zone.views[v].changelog)
      modifies `changelogs, `tagOf, `zone, `submits, changelogs`freed
      ensures Valid() && zone == V.Do(old(zone), V.Apply(v))
      ensures held == old(held) && held[v] != null && !old(held[v].freed) && changes == old(held[v].changes)
      ensures if clash then Renewed(v, old(changelogs)) else changelogs == old(changelogs)
    {
      NotFreed(v);
      changes := Read(held[v]);
      if clash {
        Conflict(v);
      } else {
        NoConflict(v);
      }
    }

    method Conflict(v: nat)
      requires Valid() && V.Enabled(zone, V.Apply(v))
      requires V.Clash(zone.views[v].phase.log, zone.views[v].changelog)
      modifies `changelogs, `tagOf, `zone, `submits, changelogs`freed
      ensures Valid() && zone == V.Do(old(zone), V.Apply(v)) && Renewed(v, old(changelogs))
    {
      assert HeldOk(v);
      AfterLocal(zone, V.Apply(v));
      AfterApply(zone, v);
      OthersHeld(v);
      AllApart();
      GiveUp(v, V.Do(zone, V.Apply(v)));
    }

    method GiveUp(v: nat, ghost done: V.Zone)
      requires log.Valid() && SameHistory() && OwnLogs() && Apart()
      requires |held| == |submits| == |zone.views| == |log.consumed|
      requires forall u | 0 <= u < |zone.views| && u != v ::
        HeldFor(zone.views[u].phase, submits[u], held[u], C.At(log.published, log.consumed[u]))
      requires Local(v, done) && done.views[v].changelog.tag == zone.nextTag
      requires v < |held| && v < |log.consumed| && HeldFor(done.views[v].phase, false, held[v], C.At(log.published, log.consumed[v]))
      modifies `changelogs, `tagOf, `zone, `submits, changelogs`freed
      ensures Valid() && zone == done && Renewed(v, old(changelogs))
    {
      Renew(v);
      submits := submits[v := false];
      MoveLocal(v, done);
    }

    method NoConflict(v: nat)
      requires Valid() && V.Enabled(zone, V.Apply(v))
      requires !V.Clash(zone.views[v].phase.log, zone.views[v].changelog)
      modifies `zone
      ensures Valid() && zone == V.Do(old(zone), V.Apply(v))
    {
      assert HeldOk(v) && OwnLog(v, zone.views[v].changelog.tag);
      AfterLocal(zone, V.Apply(v));
      AfterApply(zone, v);
      OthersHeld(v);
      MoveLocal(v, V.Do(zone, V.Apply(v)));
    }

    /** The new view's change log is fresh, and it is caught up. */
    method Subscribe() returns (viewid: nat)
      requires Valid()
      modifies `changelogs, `held, `submits, `zone, `tagOf, log
      ensures Valid() && zone == V.Do(old(zone), V.Subscribe) && viewid == |old(zone).views|
      ensures log.store == old(log.store) && log.published == old(log.published) && log.base == old(log.base)
      ensures |changelogs| == |old(changelogs)| + 1 && changelogs[..|old(changelogs)|] == old(changelogs)
      ensures changelogs[|old(changelogs)|].changes == []
    {
      AfterSubscribe(zone);
      OthersHeld(|zone.views|);
      viewid := Join(V.Do(zone, V.Subscribe));
    }

    method Join(ghost done: V.Zone) returns (viewid: nat)
      requires log.Valid() && SameHistory() && OwnLogs() && Joins(zone, done)
      requires |held| == |submits| == |zone.views| == |log.consumed|
      requires forall u | 0 <= u < |zone.views| ::
        HeldFor(zone.views[u].phase, submits[u], held[u], C.At(log.published, log.consumed[u]))
      modifies `changelogs, `held, `submits, `zone, `tagOf, log
      ensures Valid() && zone == done && viewid == |old(zone).views|
      ensures log.store == old(log.store) && log.published == old(log.published) && log.base == old(log.base)
      ensures |changelogs| == |old(changelogs)| + 1 && changelogs[..|old(changelogs)|] == old(changelogs)
      ensures changelogs[|old(changelogs)|].changes == []
    {
      ghost var n := |changelogs|;
      var own;
      viewid, own := JoinLog();
      AddView(own, done);
      Settled(n, done);
    }

    method JoinLog() returns (viewid: nat, own: C.Changelog)
      requires log.Valid() && OwnLogs()
      modifies log
      ensures log.Valid() && log.store == old(log.store) && viewid == |old(log.consumed)|
      ensures log.published == old(log.published) && log.consumed == old(log.consumed) + [|log.published|]
      ensures fresh(own) && own.next == null && !own.freed && own.changes == [] && OwnLogs() && log.base == old(log.base)
    {
      own := new C.Changelog();
      viewid := log.Subscribe();
    }

    method AddView(own: C.Changelog, ghost done: V.Zone)
      requires OwnLogs() && Joins(zone, done) && |held| == |submits| == |changelogs|
      requires own !in tagOf && own.next == null && !own.freed
      requires |log.published| == |zone.chain.published|
      requires forall k | 0 <= k < |log.published| ::
        log.published[k] in tagOf && tagOf[log.published[k]] == zone.chain.published[k].tag
      modifies `changelogs, `held, `submits, `tagOf
      ensures changelogs == old(changelogs) + [own] && held == old(held) + [null] && submits == old(submits) + [false]
      ensures forall k | 0 <= k < |log.published| ::
        log.published[k] in tagOf && tagOf[log.published[k]] == done.chain.published[k].tag
      ensures forall u | 0 <= u < |zone.views| :: OwnLog(u, zone.views[u].changelog.tag)
      ensures OwnLog(|zone.views|, done.views[|zone.views|].changelog.tag)
    {
      assert forall u | 0 <= u < |changelogs| :: OwnLog(u, zone.views[u].changelog.tag);
      changelogs, held, submits := changelogs + [own], held + [null], submits + [false];
      tagOf := tagOf[own := zone.nextTag];
      forall u | 0 <= u < |zone.views|
        ensures OwnLog(u, zone.views[u].changelog.tag)
      {
        assert changelogs[u] == old(changelogs)[u] && old(OwnLog(u, zone.views[u].changelog.tag));
      }
    }

    method Settled(ghost n: nat, ghost done: V.Zone)
      requires log.Valid() && Joins(zone, done) && n == |zone.views|
      requires |done.views| == |changelogs| == |held| == |submits| == |log.consumed|
      requires log.consumed == done.chain.consumed && |log.published| == |done.chain.published|
      requires forall k | 0 <= k < |log.published| ::
        log.published[k] in tagOf && tagOf[log.published[k]] == done.chain.published[k].tag
      requires forall u | 0 <= u < n :: OwnLog(u, zone.views[u].changelog.tag)
      requires OwnLog(n, done.views[n].changelog.tag)
      requires forall u | 0 <= u < n ::
        HeldFor(zone.views[u].phase, submits[u], held[u], C.At(log.published, log.consumed[u]))
      modifies `zone
      ensures Valid() && zone == done
    {
      zone := done;
      forall u | 0 <= u < |zone.views|
        ensures HeldOk(u) && OwnLog(u, zone.views[u].changelog.tag)
      {
      }
    }

    /** names_viewpersist switches to a new store, which it has written the index to. */
    method Switch(v: nat, newstore: C.Store) returns (oldstore: C.Store?)
      requires Valid() && V.Enabled(zone, V.Switch(v))
      modifies `zone, log`store, newstore
      ensures Valid() && zone == V.Do(old(zone), V.Switch(v))
      ensures oldstore == old(log.store) && log.store == newstore
      ensures newstore.items == old(newstore.items) + log.PersistedLogs(log.consumed[v], |log.published|)
    {
      AfterLocal(zone, V.Switch(v));
      oldstore := SwitchTo(v, newstore, V.Do(zone, V.Switch(v)));
    }

    method SwitchTo(v: nat, newstore: C.Store, ghost done: V.Zone) returns (oldstore: C.Store?)
      requires Valid() && Local(v, done) && done.views[v].phase.Idle?
      requires done.views[v].changelog.tag == zone.views[v].changelog.tag
      modifies `zone, log`store, newstore
      ensures Valid() && zone == done
      ensures oldstore == old(log.store) && log.store == newstore
      ensures newstore.items == old(newstore.items) + log.PersistedLogs(log.consumed[v], |log.published|)
    {
      assert OwnLog(v, zone.views[v].changelog.tag);
      OthersHeld(v);
      MoveLocal(v, done);
      oldstore := SwitchStore(v, newstore);
    }

    method SwitchStore(v: nat, newstore: C.Store) returns (oldstore: C.Store?)
      requires Valid() && v < |log.cursors|
      modifies log`store, newstore
      ensures Valid() && oldstore == old(log.store) && log.store == newstore
      ensures newstore.items == old(newstore.items) + log.PersistedLogs(log.consumed[v], |log.published|)
    {
      ghost var n := |zone.views|;
      assert forall u | 0 <= u < n :: OwnLog(u, zone.views[u].changelog.tag) && HeldOk(u);
      oldstore := log.PersistFull(v, newstore);
      assert log.published == old(log.published) && log.consumed == old(log.consumed);
      forall u | 0 <= u < n
        ensures OwnLog(u, zone.views[u].changelog.tag) && HeldOk(u)
      {
        assert old(OwnLog(u, zone.views[u].changelog.tag)) && old(HeldOk(u));
      }
    }

    /** Only a log that is not freed may be read. */
    method Read(l: C.Changelog) returns (changes: seq<C.Change>)
      requires !l.freed
      ensures changes == l.changes
    {
      changes := l.changes;
    }
  }

  /** A new view has joined. */
  ghost predicate Joins(z: V.Zone, done: V.Zone) {
    && V.Inv(done) && |done.views| == |z.views| + 1 && z.views == done.views[..|z.views|]
    && done.chain == ChangeChain.Subscribe(z.chain)
    && done.views[|z.views|].phase.Idle? && done.views[|z.views|].changelog.tag == z.nextTag
  }

  lemma AfterSubscribe(z: V.Zone)
    requires V.Inv(z)
    ensures Joins(z, V.Do(z, V.Subscribe))
  {
    V.StepKeeps(z, V.Subscribe);
  }

  lemma AfterApply(z: V.Zone, v: nat)
    requires V.Enabled(z, V.Apply(v))
    ensures var p, p' := z.views[v].phase, V.Do(z, V.Apply(v)).views[v].phase;
      p'.Polling? && p'.held.Some? && p'.submit == (p.submit && !V.Clash(p.log, z.views[v].changelog))
  {
  }

  /** What a step without a call does in the state machine. */
  lemma AfterLocal(z: V.Zone, a: V.Action)
    requires V.Inv(z) && V.Enabled(z, a)
    requires a.Edit? || a.Begin? || a.Resolve? || a.PassOwn? || a.Save? || a.Reset? || a.Apply? || a.Switch?
    ensures var done := V.Do(z, a);
      && V.Inv(done) && done.chain == z.chain && |done.views| == |z.views|
      && a.v < |z.views| && done.views == z.views[a.v := done.views[a.v]]
      && done.views[a.v].changelog.tag ==
           if a.Reset? || (a.Apply? && V.Clash(z.views[a.v].phase.log, z.views[a.v].changelog))
           then z.nextTag else z.views[a.v].changelog.tag
  {
    V.StepKeeps(z, a);
    assert V.ViewOk(z, a.v);
  }

  /** From z a call of view v leads to m, with outcome o, and the view moves on to done. */
  ghost predicate Follows(z: V.Zone, v: nat, m: V.Zone, o: Outcome<V.Log>, done: V.Zone) {
    && V.Inv(done) && done.chain == m.chain && v < |done.views| == |m.views| == |z.views|
    && done.views == m.views[v := done.views[v]] && done.views[v].changelog == m.views[v].changelog
    && (forall u | 0 <= u < |z.views| && u != v :: m.views[u] == z.views[u])
    && v < |m.chain.consumed| && v < |z.chain.consumed| && m.chain.consumed == z.chain.consumed[v := m.chain.consumed[v]]
    && z.chain.published <= m.chain.published
    && (done.views[v].phase.Handed? || done.views[v].phase.OwnPass? ==> o.handed.Some?)
    && (done.views[v].phase.Handed? || done.views[v].phase.OwnPass? || done.views[v].phase.Idle?)
  }

  /** What a call and moving on do in the state machine. */
  lemma AfterCall(z: V.Zone, a: V.Action)
    requires V.Inv(z) && (a.Poll? || a.Close?) && V.Enabled(z, a)
    ensures var (m, o) := V.CallPopPush(z, a.v);
      var done := V.Do(z, a);
      && Follows(z, a.v, m, o, done)
      && (done.views[a.v].phase.Handed? ==> a.Poll? && done.views[a.v].phase.submit == z.views[a.v].phase.submit)
  {
    V.StepKeeps(z, a);
    V.CallHistory(z, a.v);
  }

}
