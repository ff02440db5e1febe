/**
 views.c: several views of one zone run updateview concurrently over the commit
 log.  The zone is a state machine whose steps are the pieces of code between two
 takings of the mutex; any number of views may be at any step, in any order.
 */
module Views {
  import opened Common
  import opened ChangeChain
  import opened Records

  /** names_recordcopy: the next revision of a record. */
  function Next(id: Id): Id { Id(id.name, id.revision + 1) }

  /** What a change holds: the identifier of its record, None for NULL; whether there
      is an old record, which is the one the change is filed under; and how many logs
      the view had applied when the change was entered, counted from the first log
      ever published. */
  datatype Change = Change(record: Option<Id>, prior: bool, since: nat)

  /** A change log: each change is filed under the identifier its record had when the
      change was entered.  `tag` is the identity of the log (each names_tablecreate
      makes a new one); `openedAt` is how many logs were published when the first
      change was entered. */
  datatype Log = Log(tag: nat, changes: map<Id, Change>, openedAt: nat)

  /** The record of a change once its publisher has passed over it. */
  function FinalRecord(key: Id, c: Change): Option<Id> {
    if c.record.Some? then c.record else if c.prior then Some(key) else None
  }

  /** The log has the record with this identifier. */
  predicate Refers(log: Log, id: Id) {
    exists key | key in log.changes :: FinalRecord(key, log.changes[key]) == Some(id)
  }

  /** A change with neither a record nor an old record: a record placed but not owned. */
  predicate Hollow(log: Log) {
    exists key | key in log.changes :: FinalRecord(key, log.changes[key]) == None
  }

  /** A change whose record is NULL until the publisher's pass. */
  predicate HasRemoval(log: Log) {
    exists key | key in log.changes :: log.changes[key].record.None?
  }

  /** The copy of the record, and not the record itself, is in the change. */
  predicate Owned(log: Log, key: Id) {
    key in log.changes && log.changes[key].record == Some(Next(key))
  }

  /** When names_viewpersist writes the index: by which view, and the logs it had
      applied.  What the index holds besides is the subject of module FirstIndex. */
  datatype Snapshot = Snapshot(view: nat, applied: seq<Log>)

  /** Where a view is in updateview or names_viewpersist. */
  datatype Phase =
    | Idle
    | Polling(held: Option<Log>, submit: bool, conflict: bool)   // about to call poppush in the loop
    | Handed(log: Log, submit: bool, conflict: bool)             // applying a log of another view
    | OwnPass(log: Log)                                          // applying the log it just published
    | Closing(log: Log)                                          // about to call poppush after the loop
    | Saving(snapshot: Snapshot)                                 // index written, store not yet switched

  /** `start` is how many logs were published when the view was created; `applied`
      is the history of logs it has applied to its indices. */
  datatype View = View(start: nat, applied: seq<Log>, changelog: Log, phase: Phase, conflict: bool)
  {
    /** How far in the history of the zone this view has applied logs. */
    function Done(): nat { start + |applied| }
  }

  /** The current store: a snapshot, then logs; it was switched to after `from` logs. */
  datatype Store = Store(snapshot: Snapshot, logs: seq<Log>, from: nat)

  /** `resolved` are the changes their publisher has passed over, by the place of the log
      in the history: there, a NULL record has become the old record. */
  datatype Zone = Zone(chain: Chain<Log>, views: seq<View>, store: Option<Store>, nextTag: nat, discarded: set<nat>,
                       resolved: set<(nat, Id)>)

  /** names_place, names_own, names_amend and names_remove */
  datatype EditKind = Place | Own | Amend | Remove

  datatype Action =
    | Subscribe
    | Edit(v: nat, kind: EditKind, id: Id)
    | Reset(v: nat)
    | Begin(v: nat, submit: bool)
    | Poll(v: nat)
    | Apply(v: nat)
    | Resolve(v: nat, key: Id)
    | PassOwn(v: nat)
    | Close(v: nat)
    | Save(v: nat)
    | Switch(v: nat)

  function NewLog(tag: nat): Log { Log(tag, map[], 0) }

  /** Opening the zone: the base view, and possibly a store to append to. */
  ghost predicate Initial(z: Zone) {
    && z.chain == Chain([], [0])
    && z.views == [View(0, [], NewLog(0), Idle, false)]
    && z.nextTag == 1 && z.discarded == {} && z.resolved == {}
    && (z.store.Some? ==> z.store.value == Store(Snapshot(0, []), [], 0))
  }

  /** The record of a change in the log at place n, as another view sees it now. */
  function SeenRecord(z: Zone, log: Log, n: nat, key: Id): Option<Id>
    requires key in log.changes
  {
    if (n, key) in z.resolved then FinalRecord(key, log.changes[key]) else log.changes[key].record
  }

  /** The publisher has passed over all changes of the log at place n. */
  predicate Passed(z: Zone, log: Log, n: nat) {
    forall key | key in log.changes :: (n, key) in z.resolved
  }

  /** A view that looks at the log at place n now finds a NULL record, and fails. */
  predicate NullNow(z: Zone, log: Log, n: nat) {
    exists key | key in log.changes :: SeenRecord(z, log, n, key) == None
  }

  /** A step is taken only where the code does not follow a NULL pointer. */
  predicate Enabled(z: Zone, a: Action) {
    if a.Subscribe? then true
    else a.v < |z.views| && a.v < |z.chain.consumed| && var phase := z.views[a.v].phase;
      match a
      case Edit(_, _, _) => phase.Idle?
      case Reset(_) => phase.Idle?
      case Begin(_, _) => phase.Idle?
      case Poll(_) => phase.Polling?
      case Apply(_) => phase.Handed? && !NullNow(z, phase.log, z.chain.consumed[a.v])
      case Resolve(_, key) =>
        phase.OwnPass? && key in phase.log.changes && FinalRecord(key, phase.log.changes[key]).Some?
      case PassOwn(_) => phase.OwnPass? && Passed(z, phase.log, z.chain.consumed[a.v])
      case Close(_) => phase.Closing?
      case Save(_) => phase.Idle?
      case Switch(_) => phase.Saving?
  }

  /** changed(): what is filed under the identifier, after the caller completed it. */
  function Changed(before: Option<Change>, kind: EditKind, id: Id, done: nat): Change {
    match before
    case None =>
      (match kind
       case Place => Change(None, false, done)
       case Own => Change(Some(Next(id)), true, done)
       case Amend => Change(Some(id), true, done)
       case Remove => Change(None, true, done))
    case Some(c) =>
      if kind.Remove? then c.(record := None) else c.(record := Some(id))
  }

  function Enter(log: Log, kind: EditKind, id: Id, done: nat, published: nat): Log {
    var before := if id in log.changes then Some(log.changes[id]) else None;
    Log(log.tag, log.changes[id := Changed(before, kind, id, done)],
        if log.changes == map[] then published else log.openedAt)
  }

  /** A record of the log handed out is one that a change is filed under. */
  predicate Clash(handed: Log, mine: Log) {
    exists key | key in handed.changes ::
      var r := FinalRecord(key, handed.changes[key]); r.Some? && r.value in mine.changes
  }

  /** The log a poppush call of view v submits, given where the view is. */
  function Submission(w: View): Option<Log> {
    if w.phase.Closing? || (w.phase.Polling? && w.phase.submit) then Some(w.changelog) else None
  }

  /** The log a poppush call of view v gives back. */
  function GivenBack(w: View): Option<Log> {
    if w.phase.Closing? then Some(w.phase.log) else if w.phase.Polling? then w.phase.held else None
  }

  /** The poppush call of a view, with its effect on the store and on the pointer
      to the submitted log; `phase` is where the view continues. */
  function CallPopPush(z: Zone, v: nat): (Zone, Outcome<Log>)
    requires v < |z.views| && v < |z.chain.consumed|
  {
    var w := z.views[v];
    var o := PopPush(z.chain, v, GivenBack(w), Submission(w));
    if o.pushed then
      (z.(chain := o.chain,
          views := z.views[v := w.(changelog := NewLog(z.nextTag))],
          nextTag := z.nextTag + 1,
          store := if z.store.None? then None else Some(z.store.value.(logs := z.store.value.logs + [w.changelog]))),
       o)
    else
      (z.(chain := o.chain), o)
  }

  function WithView(z: Zone, v: nat, w: View): Zone
    requires v < |z.views|
  {
    z.(views := z.views[v := w])
  }

  function Do(z: Zone, a: Action): Zone
    requires Enabled(z, a)
  {
    match a
    case Subscribe =>
      z.(chain := ChangeChain.Subscribe(z.chain),
         views := z.views + [View(|z.chain.published|, [], NewLog(z.nextTag), Idle, false)],
         nextTag := z.nextTag + 1)
    case Edit(v, kind, id) =>
      var w := z.views[v];
      WithView(z, v, w.(changelog := Enter(w.changelog, kind, id, w.Done(), |z.chain.published|)))
    case Reset(v) =>
      var w := z.views[v];
      WithView(z, v, w.(changelog := NewLog(z.nextTag)))
        .(nextTag := z.nextTag + 1, discarded := z.discarded + {w.changelog.tag})
    case Begin(v, submit) =>
      WithView(z, v, z.views[v].(phase := Polling(None, submit, false)))
    case Poll(v) =>
      var p := z.views[v].phase;
      var (z', o) := CallPopPush(z, v);
      var w := z'.views[v];
      WithView(z', v,
        if o.more then w.(phase := Handed(o.handed.value, p.submit, p.conflict))
        else if o.pushed then w.(phase := OwnPass(o.handed.value))
        else w.(phase := Idle, conflict := p.conflict))
    case Apply(v) =>
      var w := z.views[v];
      var p := w.phase;
      var clash := Clash(p.log, w.changelog);
      var w' := w.(applied := w.applied + [p.log],
                   phase := Polling(Some(p.log), p.submit && !clash, p.conflict || clash));
      if clash && !p.conflict then
        WithView(z, v, w'.(changelog := NewLog(z.nextTag)))
          .(nextTag := z.nextTag + 1, discarded := z.discarded + {w.changelog.tag})
      else
        WithView(z, v, w')
    case Resolve(v, key) =>
      z.(resolved := z.resolved + {(z.chain.consumed[v], key)})
    case PassOwn(v) =>
      var w := z.views[v];
      WithView(z, v, w.(applied := w.applied + [w.phase.log], phase := Closing(w.phase.log)))
    case Close(v) =>
      var (z', _) := CallPopPush(z, v);
      WithView(z', v, z'.views[v].(phase := Idle, conflict := false))
    case Save(v) =>
      var w := z.views[v];
      WithView(z, v, w.(phase := Saving(Snapshot(v, w.applied))))
    case Switch(v) =>
      var w := z.views[v];
      var n := z.chain.consumed[v];
      var logs := if n <= |z.chain.published| then z.chain.published[n..] else [];
      WithView(z, v, w.(phase := Idle))
        .(store := Some(Store(w.phase.snapshot, logs, n)))
  }

  /** A run: a sequence of enabled actions, and the state it ends in. */
  predicate Runs(z: Zone, run: seq<Action>)
    decreases |run|
  {
    run == [] || (Enabled(z, run[0]) && Runs(Do(z, run[0]), run[1..]))
  }

  function End(z: Zone, run: seq<Action>): Zone
    requires Runs(z, run)
    decreases |run|
  {
    if run == [] then z else End(Do(z, run[0]), run[1..])
  }

  // ----- the invariant -----

  /** The applied history is a contiguous part of the published history, and the
      phase says how it stands to the cursor. */
  ghost predicate InPlace(c: Chain<Log>, v: nat, w: View)
    requires v < |c.consumed|
  {
    var n, h := c.consumed[v], c.published;
    && w.start <= n <= |h|
    && w.Done() <= |h|
    && w.applied == h[w.start..w.Done()]
    && match w.phase
       case Idle => w.Done() == n
       case Polling(held, submit, conflict) =>
         (if held.Some? then n < |h| && h[n] == held.value && w.Done() == n + 1 else w.Done() == n)
         && (conflict ==> !submit && w.changelog.changes == map[])
       case Handed(log, submit, conflict) =>
         n < |h| && h[n] == log && w.Done() == n && (conflict ==> !submit && w.changelog.changes == map[])
       case OwnPass(log) => n < |h| && h[n] == log && w.Done() == n && w.changelog.changes == map[]
       case Closing(log) => n < |h| && h[n] == log && w.Done() == n + 1 && w.changelog.changes == map[]
       case Saving(snapshot) => w.Done() == n && snapshot == Snapshot(v, w.applied)
  }

  /** No log from where each change was entered up to `end` has the record that the
      change is filed under. */
  ghost predicate Unchallenged(log: Log, h: seq<Log>, end: nat)
    requires end <= |h|
  {
    forall key, j | key in log.changes && log.changes[key].since <= j < end :: !Refers(h[j], key) && !Hollow(h[j])
  }

  /** Every change was entered no later than `end`, the first one before `openedAt`. */
  ghost predicate Dated(log: Log, end: nat, published: nat) {
    && (forall key | key in log.changes :: log.changes[key].since <= end)
    && (log.changes != map[] ==>
          log.openedAt <= published && exists key | key in log.changes :: log.changes[key].since <= log.openedAt)
  }

  /** The record of a change is the one it is filed under, or the next revision. */
  ghost predicate Formed(log: Log) {
    forall key | key in log.changes && log.changes[key].record.Some? ::
      log.changes[key].record.value == key || log.changes[key].record.value == Next(key)
  }

  ghost predicate ViewOk(z: Zone, v: nat)
    requires v < |z.views| && v < |z.chain.consumed|
  {
    var w := z.views[v];
    && InPlace(z.chain, v, w)
    && Unchallenged(w.changelog, z.chain.published, w.Done())
    && Dated(w.changelog, w.Done(), |z.chain.published|)
    && Formed(w.changelog)
    && w.changelog.tag < z.nextTag
    && w.changelog.tag !in z.discarded
  }

  ghost predicate LogOk(h: seq<Log>, k: nat)
    requires k < |h|
  {
    Dated(h[k], k, k) && Unchallenged(h[k], h, k) && Formed(h[k])
  }

  /** All change logs in existence are different ones. */
  ghost predicate Tagged(z: Zone) {
    && (forall v, u | 0 <= v < u < |z.views| :: z.views[v].changelog.tag != z.views[u].changelog.tag)
    && (forall v, k | 0 <= v < |z.views| && 0 <= k < |z.chain.published| ::
          z.views[v].changelog.tag != z.chain.published[k].tag)
    && (forall j, k | 0 <= j < k < |z.chain.published| :: z.chain.published[j].tag != z.chain.published[k].tag)
    && (forall k | 0 <= k < |z.chain.published| ::
          z.chain.published[k].tag < z.nextTag && z.chain.published[k].tag !in z.discarded)
    && (forall t | t in z.discarded :: t < z.nextTag)
  }

  ghost predicate StoreOk(z: Zone) {
    z.store.Some? ==>
      var st, h := z.store.value, z.chain.published;
      && st.snapshot.view < |z.views|
      && z.views[st.snapshot.view].start <= st.from <= |h|
      && st.snapshot.applied == h[z.views[st.snapshot.view].start..st.from]
      && st.logs == h[st.from..]
  }

  /** A log in the history is waiting for the pass of a view, its publisher, or the pass
      is done, or there is nothing to do. */
  ghost predicate PassOk(z: Zone)
    requires |z.views| == |z.chain.consumed|
  {
    var h := z.chain.published;
    && (forall p, key | (p, key) in z.resolved ::
          p < |h| && key in h[p].changes && FinalRecord(key, h[p].changes[key]).Some?)
    && (forall p | 0 <= p < |h| :: Passed(z, h[p], p) || Awaited(z, p))
  }

  ghost predicate Awaited(z: Zone, p: nat)
    requires |z.views| == |z.chain.consumed|
  {
    exists u :: 0 <= u < |z.views| && z.views[u].phase.OwnPass? && z.chain.consumed[u] == p
  }

  ghost predicate Inv(z: Zone) {
    && z.chain.WellFormed()
    && |z.views| == |z.chain.consumed|
    && (forall v | 0 <= v < |z.views| :: ViewOk(z, v))
    && (forall k | 0 <= k < |z.chain.published| :: LogOk(z.chain.published, k))
    && Tagged(z)
    && StoreOk(z)
    && PassOk(z)
  }

  // ----- every step keeps the invariant -----

  /** A view that is not touched stays in order while the history grows. */
  lemma Untouched(z: Zone, z': Zone, u: nat)
    requires Inv(z) && u < |z.views|
    requires u < |z'.views| && u < |z'.chain.consumed|
    requires z'.views[u] == z.views[u] && z'.chain.consumed[u] == z.chain.consumed[u]
    requires z.chain.published <= z'.chain.published
    requires z.nextTag <= z'.nextTag && z.views[u].changelog.tag !in z'.discarded
    ensures ViewOk(z', u)
  {
    var w := z.views[u];
    assert ViewOk(z, u);
    assert z'.chain.published[w.start..w.Done()] == z.chain.published[w.start..w.Done()];
  }

  lemma LogsStayOk(h: seq<Log>, h': seq<Log>)
    requires forall k | 0 <= k < |h| :: LogOk(h, k)
    requires h <= h'
    ensures forall k | 0 <= k < |h| :: LogOk(h', k)
  {
    forall k | 0 <= k < |h|
      ensures LogOk(h', k)
    {
      assert LogOk(h, k);
    }
  }

  /** A local step of one view: the history and the store are not touched. */
  lemma LocalStep(z: Zone, z': Zone, v: nat)
    requires Inv(z) && v < |z.views|
    requires |z'.views| == |z.views| && z' == z.(views := z.views[v := z'.views[v]], nextTag := z'.nextTag, discarded := z'.discarded)
    requires z'.views[v].start == z.views[v].start
    requires !z.views[v].phase.OwnPass?
    requires
      || (z'.views[v].changelog.tag == z.views[v].changelog.tag && z'.nextTag == z.nextTag && z'.discarded == z.discarded)
      || (z'.views[v].changelog.tag == z.nextTag && z'.nextTag == z.nextTag + 1
          && z'.discarded == z.discarded + {z.views[v].changelog.tag})
    requires ViewOk(z', v)
    ensures Inv(z')
  {
    forall u | 0 <= u < |z'.views|
      ensures ViewOk(z', u)
    {
      if u != v {
        assert ViewOk(z, u);
        Untouched(z, z', u);
      }
    }
    assert ViewOk(z, v);
    forall u | 0 <= u < |z.views|
      ensures z.views[u].changelog.tag < z.nextTag
    {
      assert ViewOk(z, u);
    }
    PassUnmoved(z, z');
  }

  /** No view comes to or leaves its own pass, and no cursor in a pass moves. */
  lemma PassUnmoved(z: Zone, z': Zone)
    requires |z.views| == |z.chain.consumed| && PassOk(z)
    requires |z.views| <= |z'.views| == |z'.chain.consumed|
    requires z'.chain.published == z.chain.published && z'.resolved == z.resolved
    requires forall u | 0 <= u < |z.views| ::
      z.views[u].phase.OwnPass? ==> z'.views[u].phase.OwnPass? && z'.chain.consumed[u] == z.chain.consumed[u]
    ensures PassOk(z')
  {
    var h := z.chain.published;
    forall p | 0 <= p < |h|
      ensures Passed(z', h[p], p) || Awaited(z', p)
    {
      if Awaited(z, p) {
        var u :| 0 <= u < |z.views| && z.views[u].phase.OwnPass? && z.chain.consumed[u] == p;
        assert z'.views[u].phase.OwnPass? && z'.chain.consumed[u] == p;
      } else {
        assert Passed(z, h[p], p);
      }
    }
  }

  lemma SubscribeKeeps(z: Zone)
    requires Inv(z)
    ensures Inv(Do(z, Subscribe))
  {
    var z' := Do(z, Subscribe);
    forall u | 0 <= u < |z'.views|
      ensures ViewOk(z', u)
    {
      if u < |z.views| {
        assert ViewOk(z, u);
        Untouched(z, z', u);
      }
    }
    forall u | 0 <= u < |z.views|
      ensures z.views[u].changelog.tag < z.nextTag
    {
      assert ViewOk(z, u);
    }
    PassUnmoved(z, z');
  }

  lemma EnterKeeps(log: Log, kind: EditKind, id: Id, done: nat, h: seq<Log>)
    requires done <= |h| && Unchallenged(log, h, done) && Dated(log, done, |h|) && Formed(log)
    ensures var log' := Enter(log, kind, id, done, |h|);
      Unchallenged(log', h, done) && Dated(log', done, |h|) && Formed(log')
  {
    var log' := Enter(log, kind, id, done, |h|);
    assert forall key | key in log'.changes && key != id :: key in log.changes && log'.changes[key] == log.changes[key];
    assert id in log'.changes;
    if log.changes != map[] {
      var key :| key in log.changes && log.changes[key].since <= log.openedAt;
      assert key in log'.changes && log'.changes[key].since <= log'.openedAt;
    }
  }

  lemma EditKeeps(z: Zone, v: nat, kind: EditKind, id: Id)
    requires Inv(z) && Enabled(z, Edit(v, kind, id))
    ensures Inv(Do(z, Edit(v, kind, id)))
  {
    assert ViewOk(z, v);
    EnterKeeps(z.views[v].changelog, kind, id, z.views[v].Done(), z.chain.published);
    LocalStep(z, Do(z, Edit(v, kind, id)), v);
  }

  lemma LocalKeeps(z: Zone, a: Action)
    requires Inv(z) && Enabled(z, a)
    requires a.Reset? || a.Begin? || a.Save?
    ensures Inv(Do(z, a))
  {
    assert ViewOk(z, a.v);
    LocalStep(z, Do(z, a), a.v);
  }

  /** The publisher passes over one change. */
  lemma ResolveKeeps(z: Zone, v: nat, key: Id)
    requires Inv(z) && Enabled(z, Resolve(v, key))
    ensures Inv(Do(z, Resolve(v, key)))
  {
    var z' := Do(z, Resolve(v, key));
    var h := z.chain.published;
    assert ViewOk(z, v);
    forall u | 0 <= u < |z.views|
      ensures ViewOk(z', u)
    {
      assert ViewOk(z, u);
    }
    forall p | 0 <= p < |h|
      ensures Passed(z', h[p], p) || Awaited(z', p)
    {
      if Awaited(z, p) {
        var u :| 0 <= u < |z.views| && z.views[u].phase.OwnPass? && z.chain.consumed[u] == p;
        assert z'.views[u] == z.views[u];
      } else {
        assert Passed(z, h[p], p);
      }
    }
  }

  /** The publisher is done with its log. */
  lemma PassOwnKeeps(z: Zone, v: nat)
    requires Inv(z) && Enabled(z, PassOwn(v))
    ensures Inv(Do(z, PassOwn(v)))
  {
    var z' := Do(z, PassOwn(v));
    var w, h, n := z.views[v], z.chain.published, z.chain.consumed[v];
    assert ViewOk(z, v);
    assert h[w.start..n] + [h[n]] == h[w.start..n + 1];
    forall key | key in h[n].changes
      ensures FinalRecord(key, h[n].changes[key]) != None
    {
      assert (n, key) in z.resolved;
    }
    forall u | 0 <= u < |z.views|
      ensures ViewOk(z', u)
    {
      assert ViewOk(z, u);
    }
    PassDone(z, v);
  }

  lemma PassDone(z: Zone, v: nat)
    requires Inv(z) && Enabled(z, PassOwn(v))
    ensures PassOk(Do(z, PassOwn(v)))
  {
    var z' := Do(z, PassOwn(v));
    var h := z.chain.published;
    assert ViewOk(z, v);
    forall p | 0 <= p < |h|
      ensures Passed(z', h[p], p) || Awaited(z', p)
    {
      if p == z.chain.consumed[v] || Passed(z, h[p], p) {
        assert Passed(z, h[p], p);
      } else {
        var u :| 0 <= u < |z.views| && z.views[u].phase.OwnPass? && z.chain.consumed[u] == p;
        assert z'.views[u] == z.views[u];
      }
    }
  }

  lemma ApplyKeeps(z: Zone, v: nat)
    requires Inv(z) && Enabled(z, Apply(v))
    ensures Inv(Do(z, Apply(v)))
  {
    var z' := Do(z, Apply(v));
    var w, h := z.views[v], z.chain.published;
    assert ViewOk(z, v);
    var n := w.Done();
    assert h[w.start..n] + [h[n]] == h[w.start..n + 1];
    NotHollow(z, h[n], n);
    ClashIsReference(h[n], w.changelog);
    LocalStep(z, z', v);
  }

  /** A log that can be read now has no hollow change. */
  lemma NotHollow(z: Zone, log: Log, n: nat)
    requires !NullNow(z, log, n)
    ensures !Hollow(log)
    ensures forall key | key in log.changes :: SeenRecord(z, log, n, key) == FinalRecord(key, log.changes[key]) != None
  {
    forall key | key in log.changes
      ensures SeenRecord(z, log, n, key) == FinalRecord(key, log.changes[key]) != None
    {
      assert SeenRecord(z, log, n, key) != None;
    }
  }

  lemma ClashIsReference(handed: Log, mine: Log)
    ensures Clash(handed, mine) <==> exists id :: id in mine.changes && Refers(handed, id)
  {
    if Clash(handed, mine) {
      var key :| key in handed.changes
        && var r := FinalRecord(key, handed.changes[key]); r.Some? && r.value in mine.changes;
      assert Refers(handed, FinalRecord(key, handed.changes[key]).value);
    }
  }

  /** What one poppush call does to the history: it hands out the next log the
      view has not applied, or publishes after all logs were applied. */
  lemma CallHistory(z: Zone, v: nat)
    requires Inv(z) && v < |z.views|
    requires z.views[v].phase.Polling? || z.views[v].phase.Closing?
    ensures var (z', o) := CallPopPush(z, v);
      var h, w := z.chain.published, z.views[v];
      && z'.chain.published == (if o.pushed then h + [w.changelog] else h)
      && z'.chain.consumed == z.chain.consumed[v := w.Done()]
      && z'.chain.WellFormed()
      && (o.pushed <==> w.Done() == |h| && Submission(w).Some?)
      && (o.more <==> w.Done() < |h|)
      && o.handed == (if o.more then Some(h[w.Done()]) else Submission(w))
  {
    assert ViewOk(z, v);
  }

  /** A poppush call keeps everything but the place of the calling view. */
  lemma CallKeeps(z: Zone, v: nat)
    requires Inv(z) && v < |z.views|
    requires z.views[v].phase.Polling? || z.views[v].phase.Closing?
    ensures var z' := CallPopPush(z, v).0;
      && (forall u | 0 <= u < |z.views| && u != v :: ViewOk(z', u))
      && (forall k | 0 <= k < |z'.chain.published| :: LogOk(z'.chain.published, k))
  {
    var z' := CallPopPush(z, v).0;
    CallHistory(z, v);
    assert ViewOk(z, v);
    LogsStayOk(z.chain.published, z'.chain.published);
    forall u | 0 <= u < |z.views| && u != v
      ensures ViewOk(z', u)
    {
      assert ViewOk(z, u);
      Untouched(z, z', u);
    }
  }

  lemma CallKeepsTags(z: Zone, v: nat)
    requires Inv(z) && v < |z.views|
    requires z.views[v].phase.Polling? || z.views[v].phase.Closing?
    ensures Tagged(CallPopPush(z, v).0)
  {
    CallHistory(z, v);
    forall u | 0 <= u < |z.views|
      ensures z.views[u].changelog.tag < z.nextTag && z.views[u].changelog.tag !in z.discarded
    {
      assert ViewOk(z, u);
    }
  }

  lemma CallKeepsStore(z: Zone, v: nat)
    requires Inv(z) && v < |z.views|
    requires z.views[v].phase.Polling? || z.views[v].phase.Closing?
    ensures StoreOk(CallPopPush(z, v).0)
  {
    var (z', o) := CallPopPush(z, v);
    CallHistory(z, v);
    if z.store.Some? {
      var st, h, h' := z.store.value, z.chain.published, z'.chain.published;
      var start := z.views[st.snapshot.view].start;
      assert h'[start..st.from] == h[start..st.from];
      if o.pushed {
        assert h'[st.from..] == h[st.from..] + [z.views[v].changelog];
      }
    }
  }

  /** Moving one view to another phase says nothing about the others. */
  lemma OthersKept(m: Zone, z: Zone, v: nat)
    requires v < |m.views| == |m.chain.consumed|
    requires z == m.(views := z.views) && |z.views| == |m.views| && z.views == m.views[v := z.views[v]]
    requires z.views[v].changelog == m.views[v].changelog && z.views[v].start == m.views[v].start
    requires forall u | 0 <= u < |m.views| && u != v :: ViewOk(m, u)
    ensures forall u | 0 <= u < |z.views| && u != v :: ViewOk(z, u)
    ensures Tagged(m) ==> Tagged(z)
    ensures StoreOk(m) ==> StoreOk(z)
  {
    forall u | 0 <= u < |z.views| && u != v
      ensures ViewOk(z, u)
    {
      assert ViewOk(m, u);
    }
  }

  /** After a poppush call the caller moves on; only its own place is to be shown. */
  lemma MoveOn(z: Zone, v: nat, w': View)
    requires Inv(z) && v < |z.views|
    requires z.views[v].phase.Polling? || z.views[v].phase.Closing?
    requires var w := CallPopPush(z, v).0.views[v]; w' == w.(phase := w'.phase, conflict := w'.conflict)
    requires InPlace(CallPopPush(z, v).0.chain, v, w')
    requires w'.phase.OwnPass? <==> z.views[v].phase.Polling? && CallPopPush(z, v).1.pushed
    ensures Inv(WithView(CallPopPush(z, v).0, v, w'))
  {
    var m := CallPopPush(z, v).0;
    CallHistory(z, v);
    CallKeeps(z, v);
    CallKeepsTags(z, v);
    CallKeepsStore(z, v);
    assert ViewOk(z, v);
    assert ViewOk(WithView(m, v, w'), v);
    OthersKept(m, WithView(m, v, w'), v);
    CallKeepsPass(z, v, w');
  }

  /** A log with changes is published by a view that then makes its pass over it. */
  lemma CallKeepsPass(z: Zone, v: nat, w': View)
    requires Inv(z) && v < |z.views|
    requires z.views[v].phase.Polling? || z.views[v].phase.Closing?
    requires var o := CallPopPush(z, v).1;
      w'.phase.OwnPass? <==> z.views[v].phase.Polling? && o.pushed
    ensures PassOk(WithView(CallPopPush(z, v).0, v, w'))
  {
    var (m, o) := CallPopPush(z, v);
    var z' := WithView(m, v, w');
    CallHistory(z, v);
    assert ViewOk(z, v);
    var h, h' := z.chain.published, z'.chain.published;
    forall u | 0 <= u < |z.views| && u != v && z.views[u].phase.OwnPass?
      ensures z'.views[u] == z.views[u] && z'.chain.consumed[u] == z.chain.consumed[u] < |h|
    {
      assert ViewOk(z, u);
    }
    forall p | 0 <= p < |h'|
      ensures Passed(z', h'[p], p) || Awaited(z', p)
    {
      if p == |h| {
        assert z'.chain.consumed[v] == p;
        assert w'.phase.OwnPass? || h'[p].changes == map[];
        assert w'.phase.OwnPass? ==> Awaited(z', p);
      } else if Passed(z, h[p], p) {
        assert Passed(z', h'[p], p);
      } else {
        var u :| 0 <= u < |z.views| && z.views[u].phase.OwnPass? && z.chain.consumed[u] == p;
        assert z'.views[u].phase.OwnPass? && z'.chain.consumed[u] == p;
      }
    }
  }

  lemma PollKeeps(z: Zone, v: nat)
    requires Inv(z) && Enabled(z, Poll(v))
    ensures Inv(Do(z, Poll(v)))
  {
    CallHistory(z, v);
    var w, h, h' := z.views[v], z.chain.published, CallPopPush(z, v).0.chain.published;
    assert ViewOk(z, v);
    assert h'[w.start..w.Done()] == h[w.start..w.Done()];
    MoveOn(z, v, Do(z, Poll(v)).views[v]);
  }

  lemma CloseKeeps(z: Zone, v: nat)
    requires Inv(z) && Enabled(z, Close(v))
    ensures Inv(Do(z, Close(v)))
  {
    CallHistory(z, v);
    var w, h, h' := z.views[v], z.chain.published, CallPopPush(z, v).0.chain.published;
    assert ViewOk(z, v);
    assert h'[w.start..w.Done()] == h[w.start..w.Done()];
    MoveOn(z, v, Do(z, Close(v)).views[v]);
  }

  lemma SwitchKeeps(z: Zone, v: nat)
    requires Inv(z) && Enabled(z, Switch(v))
    ensures Inv(Do(z, Switch(v)))
  {
    var z' := Do(z, Switch(v));
    assert ViewOk(z, v);
    assert ViewOk(z', v);
    forall u | 0 <= u < |z.views| && u != v
      ensures ViewOk(z', u)
    {
      assert ViewOk(z, u);
      Untouched(z, z', u);
    }
    PassUnmoved(z, z');
  }

  lemma StepKeeps(z: Zone, a: Action)
    requires Inv(z) && Enabled(z, a)
    ensures Inv(Do(z, a))
  {
    match a
    case Subscribe => SubscribeKeeps(z);
    case Edit(v, kind, id) => EditKeeps(z, v, kind, id);
    case Apply(v) => ApplyKeeps(z, v);
    case Resolve(v, key) => ResolveKeeps(z, v, key);
    case PassOwn(v) => PassOwnKeeps(z, v);
    case Poll(v) => PollKeeps(z, v);
    case Close(v) => CloseKeeps(z, v);
    case Switch(v) => SwitchKeeps(z, v);
    case _ => LocalKeeps(z, a);
  }

  lemma {:induction false} RunKeeps(z: Zone, run: seq<Action>)
    requires Inv(z) && Runs(z, run)
    ensures Inv(End(z, run))
    decreases |run|
  {
    if run != [] {
      StepKeeps(z, run[0]);
      RunKeeps(Do(z, run[0]), run[1..]);
    }
  }

  lemma InitialInv(z: Zone)
    requires Initial(z)
    ensures Inv(z)
  {
    assert ViewOk(z, 0);
  }

  // ----- what a change holds after several edits -----

  /** The change after edits of one record, by kind. */
  function Edited(kinds: seq<EditKind>, id: Id, done: nat): Option<Change> {
    if kinds == [] then None
    else Some(Changed(Edited(kinds[..|kinds| - 1], id, done), kinds[|kinds| - 1], id, done))
  }

  /** A change holds a copy exactly after a single names_own, and is hollow exactly when
      the record was placed and then nothing, or in the end a removal, followed. */
  lemma {:induction false} EditedExactly(kinds: seq<EditKind>, id: Id, done: nat)
    requires kinds != []
    ensures var c := Edited(kinds, id, done).value;
      && (c.record == Some(Next(id)) <==> kinds == [Own])
      && (c.record == Some(id) <==> if |kinds| == 1 then kinds == [Amend] else !kinds[|kinds| - 1].Remove?)
      && (c.prior <==> !kinds[0].Place?)
      && (FinalRecord(id, c) == None <==> kinds[0].Place? && (|kinds| == 1 || kinds[|kinds| - 1].Remove?))
  {
    var before := kinds[..|kinds| - 1];
    if before != [] {
      EditedExactly(before, id, done);
      assert before[0] == kinds[0];
    } else {
      assert kinds == [kinds[0]];
      assert Edited(before, id, done) == None;
    }
  }
}
