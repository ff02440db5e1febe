/**
 The first index of every view, which names_viewpersist writes to the store: what edits
 put into it, or change in its records, before they are committed, and what stays in it
 when they never are.  The machine of module Views runs along, unchanged.
 */
module FirstIndex {
  import opened Common
  import opened ChangeChain
  import opened Records
  import opened Views

  /** A record in memory, which views share by pointer; `serial` is its identity. */
  datatype Obj = Obj(serial: nat, id: Id)

  /** A record was changed where it is: by an edit, or by its deletion marker. */
  datatype Touch = Touch(obj: Obj, tag: nat)

  /** A log as a view applied it: which records had a deletion marker then. */
  datatype Seen = Seen(log: Log, marked: set<Obj>)

  /** An index as written: its records; its drafts, which an edit put there and no applied log
      has settled since, with the change log of the edit; all records touched until then; and
      the logs the view had, as it applied them. */
  datatype Copy = Copy(index: map<Id, Obj>, drafts: map<Id, nat>, touched: set<Touch>, past: seq<Seen>)

  /** `inherited` is how many logs the base view had applied when the view was created, and
      `past` are those and the ones the view has applied itself; `marked` are the records with
      a deletion marker;
      `out` and `olds` are the record and the old record of the changes of each change
      log, by its tag and the identifier of the record; `given` is the index of the base
      view at the start, and `stored` the index in the current store. */
  datatype Memory = Memory(
    zone: Zone,
    index: seq<map<Id, Obj>>,
    drafts: seq<map<Id, nat>>,
    inherited: seq<nat>,
    past: seq<seq<Seen>>,
    saved: seq<Copy>,
    stored: Copy,
    out: map<(nat, Id), Obj>,
    olds: map<(nat, Id), Obj>,
    touched: set<Touch>,
    marked: set<Obj>,
    nextSerial: nat,
    given: map<Id, Obj>)

  /** An action, and the record an edit is given. */
  datatype Step = Step(action: Action, obj: Obj)

  /** The identifiers of the records of a log, once it is passed over. */
  function FinalIds(l: Log): set<Id> {
    set key | key in l.changes && FinalRecord(key, l.changes[key]).Some? :: FinalRecord(key, l.changes[key]).value
  }

  /** What a log puts into an index. */
  function Entries(l: Log, out: map<(nat, Id), Obj>): map<Id, Obj> {
    map id | id in FinalIds(l) && (l.tag, id) in out :: out[(l.tag, id)]
  }

  /** names_indexinsert of all records of a log: a marked record deletes the one it meets, any
      other takes its place; where there is none both are inserted. */
  function Put(index: map<Id, Obj>, s: Seen, out: map<(nat, Id), Obj>): map<Id, Obj> {
    var e := Entries(s.log, out);
    map id | id in index.Keys + e.Keys && !(id in e && id in index && e[id] in s.marked) ::
      if id in e then e[id] else index[id]
  }

  /** The index after some logs, and nothing else. */
  function Replay(given: map<Id, Obj>, p: seq<Seen>, out: map<(nat, Id), Obj>): map<Id, Obj> {
    if p == [] then given else Put(Replay(given, p[..|p| - 1], out), p[|p| - 1], out)
  }

  /** A log settles a record of an index unless it removes it and only one of the index and
      its replay has it: in the other one the removal inserts it. */
  predicate Settles(index: map<Id, Obj>, replay: map<Id, Obj>, s: Seen, out: map<(nat, Id), Obj>, id: Id) {
    var e := Entries(s.log, out);
    id in e && (e[id] !in s.marked || (id in index <==> id in replay))
  }

  function StillDrafts(drafts: map<Id, nat>, index: map<Id, Obj>, replay: map<Id, Obj>, s: Seen, out: map<(nat, Id), Obj>): map<Id, nat> {
    map id | id in drafts && !Settles(index, replay, s, out, id) :: drafts[id]
  }

  function Logs(p: seq<Seen>): (h: seq<Log>)
    ensures |h| == |p| && forall k | 0 <= k < |p| :: h[k] == p[k].log
  {
    seq(|p|, k requires 0 <= k < |p| => p[k].log)
  }

  /** The logs whose effect a view has: those the base view had applied at its creation,
      and those it has applied itself. */
  function Had(m: Memory, v: nat): seq<Log>
    requires v < |m.zone.views| && v < |m.inherited|
  {
    (if m.inherited[v] <= |m.zone.chain.published| then m.zone.chain.published[..m.inherited[v]] else [])
      + m.zone.views[v].applied
  }

  predicate Sized(m: Memory) {
    0 < |m.zone.views| == |m.index| == |m.drafts| == |m.inherited| == |m.past| == |m.saved|
  }

  /** An edit is of a record that exists. */
  predicate Possible(m: Memory, s: Step) {
    && Sized(m) && Enabled(m.zone, s.action)
    && (s.action.Edit? && !s.action.kind.Place? ==> s.obj.id == s.action.id && s.obj.serial < m.nextSerial)
  }

  /** names_place, names_own, names_amend and names_remove with what their callers do to
      the record they are given back. */
  function EditMemory(m: Memory, v: nat, kind: EditKind, id: Id, obj: Obj): Memory
    requires Sized(m) && v < |m.zone.views|
  {
    var log := m.zone.views[v].changelog;
    var tag, new' := log.tag, id !in log.changes;
    match kind
    case Place =>
      PutDraft(m, v, tag, id)
    case Own =>
      if new' then
        var d := PutDraft(m, v, tag, Next(id));
        d.(olds := m.olds[(tag, id) := obj])
      else
        m.(out := m.out[(tag, id) := obj], touched := m.touched + {Touch(obj, tag)})
    case Amend =>
      m.(out := m.out[(tag, id) := obj], touched := m.touched + {Touch(obj, tag)},
         olds := if new' then m.olds[(tag, id) := obj] else m.olds)
    case Remove =>
      if new' then m.(out := m.out[(tag, id) := obj], olds := m.olds[(tag, id) := obj])
      else if (tag, id) in m.olds then m.(out := m.out[(tag, id) := m.olds[(tag, id)]])
      else m
  }

  /** A new record in the index. */
  function PutDraft(m: Memory, v: nat, tag: nat, id: Id): Memory
    requires Sized(m) && v < |m.zone.views|
  {
    var o := Obj(m.nextSerial, id);
    m.(index := m.index[v := m.index[v][id := o]],
       drafts := m.drafts[v := WithDraft(m.drafts[v], id, tag)],
       out := m.out[(tag, id) := o],
       nextSerial := m.nextSerial + 1)
  }

  function WithDraft(drafts: map<Id, nat>, id: Id, tag: nat): map<Id, nat> { drafts[id := tag] }

  /** A view inserts the records of a log. */
  function ApplyMemory(m: Memory, v: nat, l: Log): Memory
    requires Sized(m) && v < |m.zone.views|
  {
    var s := Seen(l, m.marked);
    m.(index := m.index[v := Put(m.index[v], s, m.out)],
       drafts := m.drafts[v := StillDrafts(m.drafts[v], m.index[v], Replay(m.given, m.past[v], m.out), s, m.out)],
       past := m.past[v := m.past[v] + [s]])
  }

  function After(m: Memory, s: Step): Memory
    requires Possible(m, s)
  {
    var z := Do(m.zone, s.action);
    match s.action
    case Subscribe =>
      m.(zone := z, index := m.index + [m.index[0]], drafts := m.drafts + [m.drafts[0]],
         inherited := m.inherited + [m.zone.views[0].Done()], past := m.past + [m.past[0]], saved := m.saved + [Copy(map[], map[], {}, [])])
    case Edit(v, kind, id) =>
      EditMemory(m, v, kind, id, s.obj).(zone := z)
    case Apply(v) =>
      ApplyMemory(m, v, m.zone.views[v].phase.log).(zone := z)
    case PassOwn(v) =>
      ApplyMemory(m, v, m.zone.views[v].phase.log).(zone := z)
    case Resolve(v, key) =>
      var l := m.zone.views[v].phase.log;
      if l.changes[key].record.None? && (l.tag, key) in m.out then
        m.(zone := z, marked := m.marked + {m.out[(l.tag, key)]},
           touched := m.touched + {Touch(m.out[(l.tag, key)], l.tag)})
      else
        m.(zone := z)
    case Save(v) =>
      m.(zone := z, saved := m.saved[v := Copy(m.index[v], m.drafts[v], m.touched, m.past[v])])
    case Switch(v) =>
      m.(zone := z, stored := m.saved[v])
    case _ =>
      m.(zone := z)
  }

  /** Opening the zone: the base view has the restored records. */
  ghost predicate Opened(m: Memory) {
    && Initial(m.zone)
    && m.index == [m.given] && m.drafts == [map[]] && m.inherited == [0] && m.past == [[]] && |m.saved| == 1
    && m.stored == Copy(m.given, map[], {}, [])
    && m.out == map[] && m.olds == map[] && m.touched == {}
    && Older(m.given, m.nextSerial) && Named(m.given) && m.marked <= m.given.Values
  }

  predicate RunsIn(m: Memory, run: seq<Step>)
    decreases |run|
  {
    run == [] || (Possible(m, run[0]) && RunsIn(After(m, run[0]), run[1..]))
  }

  function EndIn(m: Memory, run: seq<Step>): Memory
    requires RunsIn(m, run)
    decreases |run|
  {
    if run == [] then m else EndIn(After(m, run[0]), run[1..])
  }

  // ----- the invariant -----

  /** Every change log is a view's, or published, or thrown away. */
  ghost predicate Known(z: Zone, t: nat) {
    || t in z.discarded
    || (exists u :: 0 <= u < |z.views| && z.views[u].changelog.tag == t)
    || (exists k :: 0 <= k < |z.chain.published| && z.chain.published[k].tag == t)
  }

  ghost predicate AllKnown(z: Zone) {
    forall t | 0 <= t < z.nextTag :: Known(z, t)
  }

  /** Every record is found under its own identifier. */
  ghost predicate Named(index: map<Id, Obj>) {
    forall id | id in index :: index[id].id == id
  }

  ghost predicate AllNamed(out: map<(nat, Id), Obj>) {
    forall p: (nat, Id) | p in out :: out[p].id == p.1
  }

  /** The records of the changes of a log are in memory. */
  ghost predicate InMemory(l: Log, out: map<(nat, Id), Obj>, olds: map<(nat, Id), Obj>) {
    forall key | key in l.changes ::
      var c := l.changes[key];
      && (c.record.Some? ==> (l.tag, c.record.value) in out)
      && (c.prior ==> (l.tag, key) in olds)
      && (c.prior && c.record.None? ==> (l.tag, key) in out)
  }

  ghost predicate Alike(index: map<Id, Obj>, replay: map<Id, Obj>, id: Id) {
    (id in index <==> id in replay) && (id in index && id in replay ==> index[id] == replay[id])
  }

  /** An index is what the logs make of it, but for the drafts. */
  ghost predicate ButDrafts(index: map<Id, Obj>, drafts: map<Id, nat>, replay: map<Id, Obj>) {
    && Named(index)
    && (forall id | id !in drafts :: Alike(index, replay, id))
    && (forall id | id in drafts :: !Alike(index, replay, id))
  }

  /** A log the view has had does not have the drafts of its own change log, unless to remove them. */
  ghost predicate Dropped(drafts: map<Id, nat>, past: seq<Seen>, out: map<(nat, Id), Obj>) {
    forall id, s | id in drafts && s in past && s.log.tag == drafts[id] && (s.log.tag, id) in out ::
      id !in FinalIds(s.log) || out[(s.log.tag, id)] in s.marked
  }

  ghost predicate Older(index: map<Id, Obj>, serial: nat) {
    forall id | id in index :: index[id].serial < serial
  }

  /** Records of the past, each under its own identifier. */
  ghost predicate Sound(out: map<(nat, Id), Obj>, serial: nat) {
    (forall p | p in out :: out[p].serial < serial) && AllNamed(out)
  }

  ghost predicate SerialsOk(m: Memory) {
    && Sound(m.out, m.nextSerial) && Sound(m.olds, m.nextSerial)
    && (forall t | t in m.touched :: t.obj.serial < m.nextSerial)
    && (forall o | o in m.marked :: o.serial < m.nextSerial)
    && Older(m.given, m.nextSerial)
  }

  ghost predicate LogsInMemory(m: Memory) {
    && (forall v | 0 <= v < |m.zone.views| :: InMemory(m.zone.views[v].changelog, m.out, m.olds))
    && (forall k | 0 <= k < |m.zone.chain.published| :: InMemory(m.zone.chain.published[k], m.out, m.olds))
  }

  ghost predicate IndexOk(m: Memory, v: nat)
    requires Sized(m) && v < |m.zone.views|
  {
    && m.inherited[v] <= m.zone.views[v].start <= |m.zone.chain.published|
    && Logs(m.past[v]) == Had(m, v)
    && ButDrafts(m.index[v], m.drafts[v], Replay(m.given, m.past[v], m.out))
    && Dropped(m.drafts[v], m.past[v], m.out)
    && (forall id | id in m.drafts[v] :: m.drafts[v][id] < m.zone.nextTag)
  }

  ghost predicate CopyOk(m: Memory, c: Copy) {
    && (forall s | s in c.past :: s.log in m.zone.chain.published)
    && ButDrafts(c.index, c.drafts, Replay(m.given, c.past, m.out))
    && Dropped(c.drafts, c.past, m.out)
    && (forall id | id in c.drafts :: c.drafts[id] < m.zone.nextTag)
    && (forall t | t in c.touched :: t.tag < m.zone.nextTag)
  }

  /** What is being saved, and what is stored. */
  ghost predicate CopiesOk(m: Memory)
    requires Sized(m)
  {
    && (forall v | 0 <= v < |m.zone.views| && m.zone.views[v].phase.Saving? ::
          CopyOk(m, m.saved[v]) && Logs(m.saved[v].past) == Had(m, v))
    && (m.zone.store.Some? ==>
          var sv := m.zone.store.value.snapshot.view;
          && CopyOk(m, m.stored) && sv < |m.zone.views| && m.inherited[sv] <= |m.zone.chain.published|
          && Logs(m.stored.past) == m.zone.chain.published[..m.inherited[sv]] + m.zone.store.value.snapshot.applied)
  }

  ghost predicate MemoryOk(m: Memory) {
    && Inv(m.zone) && Sized(m) && AllKnown(m.zone)
    && m.zone.views[0].start == 0 && m.inherited[0] == 0
    && SerialsOk(m) && LogsInMemory(m)
    && (forall v | 0 <= v < |m.zone.views| :: IndexOk(m, v))
    && (forall t | t in m.touched :: t.tag < m.zone.nextTag)
    && CopiesOk(m)
  }

  // ----- replaying -----

  lemma RefersIs(l: Log, id: Id)
    ensures id in FinalIds(l) <==> Refers(l, id)
  {
    if Refers(l, id) {
      var key :| key in l.changes && FinalRecord(key, l.changes[key]) == Some(id);
      assert FinalRecord(key, l.changes[key]).value in FinalIds(l);
    }
  }

  /** The records of a log that is in memory are all there. */
  lemma RecordsAll(l: Log, out: map<(nat, Id), Obj>, olds: map<(nat, Id), Obj>)
    requires InMemory(l, out, olds)
    ensures Entries(l, out).Keys == FinalIds(l)
  {
    forall id | id in FinalIds(l)
      ensures (l.tag, id) in out
    {
      var key :| key in l.changes && FinalRecord(key, l.changes[key]) == Some(id);
    }
  }

  /** Only the records of the logs replayed matter. */
  lemma {:induction false} ReplaySame(given: map<Id, Obj>, p: seq<Seen>, out: map<(nat, Id), Obj>, out': map<(nat, Id), Obj>)
    requires forall s, id | s in p :: ((s.log.tag, id) in out <==> (s.log.tag, id) in out')
    requires forall s, id | s in p && (s.log.tag, id) in out :: out[(s.log.tag, id)] == out'[(s.log.tag, id)]
    ensures Replay(given, p, out) == Replay(given, p, out')
  {
    if p != [] {
      ReplaySame(given, p[..|p| - 1], out, out');
      assert p[|p| - 1] in p;
      assert Entries(p[|p| - 1].log, out) == Entries(p[|p| - 1].log, out');
    }
  }

  lemma {:induction false} ReplayOlder(given: map<Id, Obj>, p: seq<Seen>, out: map<(nat, Id), Obj>, serial: nat)
    requires Older(given, serial) && forall k | k in out :: out[k].serial < serial
    ensures Older(Replay(given, p, out), serial)
  {
    if p != [] {
      ReplayOlder(given, p[..|p| - 1], out, serial);
    }
  }

  lemma ReplayNext(given: map<Id, Obj>, p: seq<Seen>, s: Seen, out: map<(nat, Id), Obj>)
    ensures Replay(given, p + [s], out) == Put(Replay(given, p, out), s, out)
  {
    assert (p + [s])[..|p|] == p;
  }

  /** Applying a log to an index does to it what replaying the log does, but for the drafts
      that it does not settle. */
  lemma PutKeeps(index: map<Id, Obj>, drafts: map<Id, nat>, replay: map<Id, Obj>, s: Seen, out: map<(nat, Id), Obj>)
    requires ButDrafts(index, drafts, replay) && AllNamed(out)
    ensures ButDrafts(Put(index, s, out), StillDrafts(drafts, index, replay, s, out), Put(replay, s, out))
  {
    var now, drafts', then' := Put(index, s, out), StillDrafts(drafts, index, replay, s, out), Put(replay, s, out);
    forall id
      ensures id !in drafts' ==> Alike(now, then', id)
      ensures id in drafts' ==> !Alike(now, then', id)
    {
      PutOne(index, replay, s, out, id);
    }
    NamedPut(index, s, out);
  }

  /** A record that was alike is alike after the log, and one that was not is so exactly when the log settles it. */
  lemma PutOne(index: map<Id, Obj>, replay: map<Id, Obj>, s: Seen, out: map<(nat, Id), Obj>, id: Id)
    ensures Alike(Put(index, s, out), Put(replay, s, out), id) <==> Alike(index, replay, id) || Settles(index, replay, s, out, id)
  {
  }

  lemma NamedPut(index: map<Id, Obj>, s: Seen, out: map<(nat, Id), Obj>)
    requires Named(index) && AllNamed(out)
    ensures Named(Put(index, s, out))
  {
    forall id | id in Entries(s.log, out)
      ensures Entries(s.log, out)[id].id == id
    {
      assert (s.log.tag, id).1 == id;
    }
  }

  /** The index is what the logs make of it exactly when there are no drafts. */
  lemma NoDrafts(index: map<Id, Obj>, drafts: map<Id, nat>, replay: map<Id, Obj>)
    requires ButDrafts(index, drafts, replay)
    ensures index == replay <==> drafts == map[]
  {
    if drafts != map[] {
      var id :| id in drafts;
      assert !Alike(index, replay, id);
    } else {
      forall id
        ensures (id in index <==> id in replay) && (id in index && id in replay ==> index[id] == replay[id])
      {
        assert Alike(index, replay, id);
      }
    }
  }

  // ----- every step keeps the invariant -----

  /** A change log is never lost. */
  lemma TagsKept(z: Zone, a: Action)
    requires Inv(z) && Enabled(z, a) && AllKnown(z)
    ensures AllKnown(Do(z, a))
  {
    var z' := Do(z, a);
    if a.Poll? || a.Close? {
      CallTags(z, a);
    } else {
      forall t | 0 <= t < z'.nextTag
        ensures Known(z', t)
      {
        if t < z.nextTag {
          assert Known(z, t);
          if u :| 0 <= u < |z.views| && z.views[u].changelog.tag == t {
            assert z'.views[u].changelog.tag == t || t in z'.discarded;
          }
        } else if a.Subscribe? {
          assert z'.views[|z.views|].changelog.tag == t;
        } else {
          assert z'.views[a.v].changelog.tag == t;
        }
      }
    }
  }

  lemma CallTags(z: Zone, a: Action)
    requires Inv(z) && Enabled(z, a) && AllKnown(z) && (a.Poll? || a.Close?)
    ensures AllKnown(Do(z, a))
  {
    var z' := Do(z, a);
    var h, h' := z.chain.published, z'.chain.published;
    CallHistory(z, a.v);
    assert h <= h';
    forall t | 0 <= t < z'.nextTag
      ensures Known(z', t)
    {
      if t < z.nextTag {
        assert Known(z, t);
        if u :| 0 <= u < |z.views| && z.views[u].changelog.tag == t {
          assert z'.views[u].changelog.tag == t || (|h'| > |h| && h'[|h|].tag == t);
        } else if k :| 0 <= k < |h| && h[k].tag == t {
          assert h'[k].tag == t;
        }
      } else {
        assert z'.views[a.v].changelog.tag == t;
      }
    }
  }

  /** Only entries of one change log differ. */
  ghost predicate OnlyTag(out: map<(nat, Id), Obj>, out': map<(nat, Id), Obj>, tag: nat) {
    forall p: (nat, Id) | p.0 != tag :: (p in out <==> p in out') && (p in out && p in out' ==> out[p] == out'[p])
  }

  ghost predicate Unpublished(h: seq<Log>, tag: nat) {
    forall k | 0 <= k < |h| :: h[k].tag != tag
  }

  lemma HadPublished(m: Memory, v: nat)
    requires Inv(m.zone) && Sized(m) && v < |m.zone.views| && m.inherited[v] <= |m.zone.chain.published|
    requires Logs(m.past[v]) == Had(m, v)
    ensures forall s | s in m.past[v] :: s.log in m.zone.chain.published
  {
    assert ViewOk(m.zone, v);
    forall s | s in m.past[v]
      ensures s.log in Had(m, v)
    {
      var k :| 0 <= k < |m.past[v]| && m.past[v][k] == s;
      assert Logs(m.past[v])[k] == s.log;
    }
  }

  lemma ReplayFrame(given: map<Id, Obj>, p: seq<Seen>, all: seq<Log>, out: map<(nat, Id), Obj>, out': map<(nat, Id), Obj>, tag: nat)
    requires (forall s | s in p :: s.log in all) && Unpublished(all, tag) && OnlyTag(out, out', tag)
    ensures Replay(given, p, out) == Replay(given, p, out')
  {
    forall s, id | s in p
      ensures (s.log.tag, id) in out <==> (s.log.tag, id) in out'
      ensures (s.log.tag, id) in out ==> out[(s.log.tag, id)] == out'[(s.log.tag, id)]
    {
      var k :| 0 <= k < |all| && all[k] == s.log;
      assert (s.log.tag, id).0 != tag;
    }
    ReplaySame(given, p, out, out');
  }

  lemma DroppedFrame(drafts: map<Id, nat>, p: seq<Seen>, all: seq<Log>, out: map<(nat, Id), Obj>, out': map<(nat, Id), Obj>, tag: nat)
    requires (forall s | s in p :: s.log in all) && Unpublished(all, tag) && OnlyTag(out, out', tag) && Dropped(drafts, p, out)
    ensures Dropped(drafts, p, out')
  {
    forall id, s | id in drafts && s in p && s.log.tag == drafts[id] && (s.log.tag, id) in out'
      ensures id !in FinalIds(s.log) || out'[(s.log.tag, id)] in s.marked
    {
      var k :| 0 <= k < |all| && all[k] == s.log;
      assert (s.log.tag, id).0 != tag;
    }
  }

  /** What a step of view v that only concerns one unpublished change log leaves alone. */
  ghost predicate Framed(m: Memory, m': Memory, v: nat, tag: nat)
    requires Sized(m) && Sized(m')
  {
    && |m'.zone.views| == |m.zone.views| && v < |m.zone.views|
    && m'.given == m.given && m'.inherited == m.inherited
    && m.zone.chain.published <= m'.zone.chain.published && m.zone.nextTag <= m'.zone.nextTag
    && OnlyTag(m.out, m'.out, tag) && Unpublished(m.zone.chain.published, tag)
    && forall u | 0 <= u < |m.zone.views| && u != v ::
         m'.zone.views[u] == m.zone.views[u] && m'.index[u] == m.index[u] && m'.drafts[u] == m.drafts[u] && m'.past[u] == m.past[u]
  }

  lemma SameHad(m: Memory, m': Memory, u: nat)
    requires Inv(m.zone) && Sized(m) && Sized(m') && u < |m.zone.views| == |m'.zone.views|
    requires m'.inherited == m.inherited && m'.zone.views[u].applied == m.zone.views[u].applied
    requires m.inherited[u] <= |m.zone.chain.published| && m.zone.chain.published <= m'.zone.chain.published
    ensures Had(m', u) == Had(m, u)
  {
    assert m'.zone.chain.published[..m.inherited[u]] == m.zone.chain.published[..m.inherited[u]];
  }

  lemma OtherIndices(m: Memory, m': Memory, v: nat, tag: nat)
    requires MemoryOk(m) && Sized(m') && Framed(m, m', v, tag)
    ensures forall u | 0 <= u < |m.zone.views| && u != v :: IndexOk(m', u)
  {
    forall u | 0 <= u < |m.zone.views| && u != v
      ensures IndexOk(m', u)
    {
      assert IndexOk(m, u);
      SameHad(m, m', u);
      HadPublished(m, u);
      ReplayFrame(m.given, m.past[u], m.zone.chain.published, m.out, m'.out, tag);
      DroppedFrame(m.drafts[u], m.past[u], m.zone.chain.published, m.out, m'.out, tag);
    }
  }

  lemma CopyKept(m: Memory, m': Memory, v: nat, tag: nat, c: Copy)
    requires Sized(m) && Sized(m') && Framed(m, m', v, tag) && CopyOk(m, c)
    ensures CopyOk(m', c)
  {
    ReplayFrame(m.given, c.past, m.zone.chain.published, m.out, m'.out, tag);
    DroppedFrame(c.drafts, c.past, m.zone.chain.published, m.out, m'.out, tag);
  }

  /** A step of view v, once its own index and copy are shown. */
  lemma Settle(m: Memory, m': Memory, v: nat, tag: nat)
    requires MemoryOk(m) && Sized(m') && Framed(m, m', v, tag)
    requires Inv(m'.zone) && AllKnown(m'.zone) && m'.zone.views[v].start == m.zone.views[v].start
    requires SerialsOk(m') && LogsInMemory(m') && IndexOk(m', v)
    requires forall t | t in m'.touched :: t.tag < m'.zone.nextTag
    requires forall u | 0 <= u < |m.zone.views| && u != v :: m'.saved[u] == m.saved[u]
    requires m'.zone.views[v].phase.Saving? ==> CopyOk(m', m'.saved[v]) && Logs(m'.saved[v].past) == Had(m', v)
    requires m'.zone.store.Some? ==>
      || (m.zone.store.Some? && m'.zone.store.value.snapshot == m.zone.store.value.snapshot && m'.stored == m.stored)
      || (m.zone.views[v].phase.Saving? && m'.stored == m.saved[v]
          && m'.zone.store.value.snapshot == Snapshot(v, m.zone.views[v].applied))
    ensures MemoryOk(m')
  {
    OtherIndices(m, m', v, tag);
    forall u | 0 <= u < |m'.zone.views| && m'.zone.views[u].phase.Saving?
      ensures CopyOk(m', m'.saved[u]) && Logs(m'.saved[u].past) == Had(m', u)
    {
      if u != v {
        CopyKept(m, m', v, tag, m.saved[u]);
        assert IndexOk(m, u);
        SameHad(m, m', u);
      }
    }
    if m'.zone.store.Some? {
      CopyKept(m, m', v, tag, m'.stored);
      StoredHad(m, m', v);
    }
  }

  lemma StoredHad(m: Memory, m': Memory, v: nat)
    requires MemoryOk(m) && Sized(m') && v < |m.zone.views| == |m'.zone.views| && m'.zone.store.Some?
    requires m'.inherited == m.inherited && m.zone.chain.published <= m'.zone.chain.published
    requires
      || (m.zone.store.Some? && m'.zone.store.value.snapshot == m.zone.store.value.snapshot && m'.stored == m.stored)
      || (m.zone.views[v].phase.Saving? && m'.stored == m.saved[v]
          && m'.zone.store.value.snapshot == Snapshot(v, m.zone.views[v].applied))
    ensures var sv := m'.zone.store.value.snapshot.view;
      && sv < |m'.zone.views| && m'.inherited[sv] <= |m'.zone.chain.published|
      && Logs(m'.stored.past) == m'.zone.chain.published[..m'.inherited[sv]] + m'.zone.store.value.snapshot.applied
  {
    var sv := m'.zone.store.value.snapshot.view;
    SavedBy(m, v);
    assert sv < |m.zone.views| && IndexOk(m, sv);
    assert m'.zone.chain.published[..m.inherited[sv]] == m.zone.chain.published[..m.inherited[sv]];
  }

  lemma SavedBy(m: Memory, v: nat)
    requires MemoryOk(m) && v < |m.zone.views|
    ensures m.inherited[v] <= |m.zone.chain.published|
    ensures m.zone.views[v].phase.Saving? ==>
      Logs(m.saved[v].past) == m.zone.chain.published[..m.inherited[v]] + m.zone.views[v].applied
    ensures m.zone.store.Some? ==>
      var st := m.zone.store.value.snapshot;
      && st.view < |m.zone.views| && m.inherited[st.view] <= |m.zone.chain.published|
      && Logs(m.stored.past) == m.zone.chain.published[..m.inherited[st.view]] + st.applied
  {
    assert IndexOk(m, v);
  }

  lemma NewTag(z: Zone)
    requires Inv(z)
    ensures Unpublished(z.chain.published, z.nextTag)
    ensures forall v | 0 <= v < |z.views| :: Unpublished(z.chain.published, z.views[v].changelog.tag)
    ensures forall v | 0 <= v < |z.views| :: z.views[v].changelog.tag < z.nextTag
  {
    forall v | 0 <= v < |z.views|
      ensures z.views[v].changelog.tag < z.nextTag
    {
      assert ViewOk(z, v);
    }
  }

  /** The index of a view is left alone. */
  lemma IndexSame(m: Memory, m': Memory, v: nat)
    requires Inv(m.zone) && Sized(m) && Sized(m') && v < |m.zone.views| == |m'.zone.views| && IndexOk(m, v)
    requires m'.index[v] == m.index[v] && m'.drafts[v] == m.drafts[v] && m'.past[v] == m.past[v]
    requires m'.out == m.out && m'.given == m.given && m'.inherited == m.inherited
    requires m.zone.chain.published <= m'.zone.chain.published && m.zone.nextTag <= m'.zone.nextTag
    requires m'.zone.views[v].applied == m.zone.views[v].applied && m'.zone.views[v].start == m.zone.views[v].start
    ensures IndexOk(m', v) && Had(m', v) == Had(m, v)
  {
    SameHad(m, m', v);
  }

  /** Steps that leave index and records alone. */
  lemma ZoneStep(m: Memory, s: Step)
    requires MemoryOk(m) && Possible(m, s)
    requires s.action.Reset? || s.action.Begin? || s.action.Poll? || s.action.Close?
    ensures MemoryOk(After(m, s))
  {
    var a, m' := s.action, After(m, s);
    var v, z, z' := a.v, m.zone, m'.zone;
    StepKeeps(z, a);
    TagsKept(z, a);
    NewTag(z);
    if a.Poll? || a.Close? {
      CallStep(m, s);
    } else {
      assert IndexOk(m, v);
      SameHad(m, m', v);
      Settle(m, m', v, z.nextTag);
    }
  }

  lemma CallStep(m: Memory, s: Step)
    requires MemoryOk(m) && Possible(m, s) && (s.action.Poll? || s.action.Close?)
    requires Inv(After(m, s).zone) && AllKnown(After(m, s).zone)
    ensures MemoryOk(After(m, s))
  {
    var m', v := After(m, s), s.action.v;
    PublishedInMemory(m, s);
    CallRest(m, s);
    CallIndex(m, s);
    Settle(m, m', v, m.zone.nextTag);
  }

  lemma CallRest(m: Memory, s: Step)
    requires MemoryOk(m) && Possible(m, s) && (s.action.Poll? || s.action.Close?)
    ensures var m', v := After(m, s), s.action.v;
      && Sized(m') && Framed(m, m', v, m.zone.nextTag) && SerialsOk(m')
      && m'.zone.views[v].start == m.zone.views[v].start && !m'.zone.views[v].phase.Saving?
      && m'.saved == m.saved && m'.stored == m.stored && m'.touched == m.touched
      && (m'.zone.store.Some? ==> m.zone.store.Some? && m'.zone.store.value.snapshot == m.zone.store.value.snapshot)
  {
    NewTag(m.zone);
    CallHistory(m.zone, s.action.v);
  }

  lemma CallIndex(m: Memory, s: Step)
    requires MemoryOk(m) && Possible(m, s) && (s.action.Poll? || s.action.Close?)
    ensures Sized(After(m, s)) && IndexOk(After(m, s), s.action.v)
  {
    var m', v := After(m, s), s.action.v;
    CallHistory(m.zone, v);
    assert IndexOk(m, v);
    SameHad(m, m', v);
  }

  lemma PublishedInMemory(m: Memory, s: Step)
    requires MemoryOk(m) && Possible(m, s) && (s.action.Poll? || s.action.Close?)
    ensures LogsInMemory(After(m, s))
  {
    var m' := After(m, s);
    var v, h, h' := s.action.v, m.zone.chain.published, m'.zone.chain.published;
    CallHistory(m.zone, v);
    forall k | 0 <= k < |h'|
      ensures InMemory(h'[k], m'.out, m'.olds)
    {
      if k < |h| {
        assert h'[k] == h[k];
      } else {
        assert h'[k] == m.zone.views[v].changelog;
      }
    }
  }

  lemma ResolveStep(m: Memory, s: Step)
    requires MemoryOk(m) && Possible(m, s) && s.action.Resolve?
    ensures MemoryOk(After(m, s))
  {
    StepKeeps(m.zone, s.action);
    TagsKept(m.zone, s.action);
    ResolveRest(m, s);
    Settle(m, After(m, s), s.action.v, m.zone.nextTag);
  }

  /** All that a turn of the publisher's pass changes. */
  lemma ResolveSame(m: Memory, s: Step)
    requires Possible(m, s) && s.action.Resolve?
    ensures var m', l, key := After(m, s), m.zone.views[s.action.v].phase.log, s.action.key;
      && m'.zone == m.zone.(resolved := m'.zone.resolved)
      && m' == m.(zone := m'.zone, marked := m'.marked, touched := m'.touched)
      && if l.changes[key].record.None? && (l.tag, key) in m.out then
           && m'.marked == m.marked + {m.out[(l.tag, key)]}
           && m'.touched == m.touched + {Touch(m.out[(l.tag, key)], l.tag)}
         else m'.marked == m.marked && m'.touched == m.touched
  {
  }

  lemma ResolveRest(m: Memory, s: Step)
    requires MemoryOk(m) && Possible(m, s) && s.action.Resolve?
    ensures var m', v := After(m, s), s.action.v;
      && Sized(m') && Framed(m, m', v, m.zone.nextTag) && SerialsOk(m') && LogsInMemory(m') && IndexOk(m', v)
      && m'.zone.views == m.zone.views && m'.zone.store == m.zone.store && m'.saved == m.saved && m'.stored == m.stored
      && !m'.zone.views[v].phase.Saving?
      && forall t | t in m'.touched :: t.tag < m'.zone.nextTag
  {
    var m', v := After(m, s), s.action.v;
    ResolveSame(m, s);
    NewTag(m.zone);
    HandedLog(m, v);
    ResolvedRest(m, m', v, m.zone.views[v].phase.log, s.action.key);
  }

  lemma ResolvedRest(m: Memory, m': Memory, v: nat, l: Log, key: Id)
    requires MemoryOk(m) && v < |m.zone.views| && !m.zone.views[v].phase.Saving?
    requires l.tag < m.zone.nextTag && key in l.changes && Unpublished(m.zone.chain.published, m.zone.nextTag)
    requires m'.zone == m.zone.(resolved := m'.zone.resolved)
    requires m' == m.(zone := m'.zone, marked := m'.marked, touched := m'.touched)
    requires m'.marked == m.marked || ((l.tag, key) in m.out && m'.marked == m.marked + {m.out[(l.tag, key)]})
    requires m'.touched == m.touched || ((l.tag, key) in m.out && m'.touched == m.touched + {Touch(m.out[(l.tag, key)], l.tag)})
    ensures Sized(m') && Framed(m, m', v, m.zone.nextTag) && SerialsOk(m') && LogsInMemory(m') && IndexOk(m', v)
    ensures forall t | t in m'.touched :: t.tag < m'.zone.nextTag
  {
    assert IndexOk(m, v);
    IndexSame(m, m', v);
  }

  /** A view inserts the records of a log: its index is what the logs it now has make of
      it, but for drafts that the log does not write. */
  lemma ApplyStep(m: Memory, s: Step)
    requires MemoryOk(m) && Possible(m, s) && (s.action.Apply? || s.action.PassOwn?)
    ensures MemoryOk(After(m, s))
  {
    StepKeeps(m.zone, s.action);
    TagsKept(m.zone, s.action);
    AppliedIndex(m, s);
    AppliedRest(m, s);
    AppliedSerials(m, s);
    AppliedSame(m, s);
    AppliedLogs(m, s);
    Settle(m, After(m, s), s.action.v, m.zone.nextTag);
  }

  lemma AppliedRest(m: Memory, s: Step)
    requires Inv(m.zone) && Possible(m, s) && (s.action.Apply? || s.action.PassOwn?)
    ensures var m', v := After(m, s), s.action.v;
      && Sized(m') && Framed(m, m', v, m.zone.nextTag)
  {
    NewTag(m.zone);
    AppliedSame(m, s);
    AppliedZone(m.zone, s.action);
  }

  lemma AppliedZone(z: Zone, a: Action)
    requires Enabled(z, a) && (a.Apply? || a.PassOwn?)
    ensures var z' := Do(z, a);
      && |z'.views| == |z.views| && z'.chain == z.chain && z'.nextTag >= z.nextTag
      && (z'.views[a.v].changelog == z.views[a.v].changelog || z'.views[a.v].changelog.changes == map[])
      && z'.views[a.v].applied == z.views[a.v].applied + [z.views[a.v].phase.log] && z'.views[a.v].start == z.views[a.v].start
      && forall u | 0 <= u < |z.views| && u != a.v :: z'.views[u] == z.views[u]
  {
  }

  lemma AppliedSerials(m: Memory, s: Step)
    requires MemoryOk(m) && Possible(m, s) && (s.action.Apply? || s.action.PassOwn?)
    ensures SerialsOk(After(m, s))
  {
    AppliedSame(m, s);
  }

  lemma AppliedSame(m: Memory, s: Step)
    requires Possible(m, s) && (s.action.Apply? || s.action.PassOwn?)
    ensures var m', v := After(m, s), s.action.v;
      && v < |m'.zone.views| == |m.zone.views|
      && m'.zone.views[v].start == m.zone.views[v].start && !m'.zone.views[v].phase.Saving?
      && m'.zone.store == m.zone.store && m'.saved == m.saved && m'.stored == m.stored && m'.touched == m.touched
      && m'.out == m.out && m'.olds == m.olds && m'.given == m.given && m'.nextSerial == m.nextSerial && m'.marked == m.marked
      && m'.zone.nextTag >= m.zone.nextTag
  {
  }

  /** The change log of a view is kept, or a new one takes its place. */
  lemma AppliedLogs(m: Memory, s: Step)
    requires MemoryOk(m) && Possible(m, s) && (s.action.Apply? || s.action.PassOwn?)
    ensures LogsInMemory(After(m, s))
  {
    var m', v := After(m, s), s.action.v;
    AppliedSame(m, s);
    AppliedZone(m.zone, s.action);
    forall u | 0 <= u < |m'.zone.views|
      ensures InMemory(m'.zone.views[u].changelog, m'.out, m'.olds)
    {
      assert InMemory(m.zone.views[u].changelog, m.out, m.olds);
    }
  }

  /** The log a view applies is in the history and in memory. */
  lemma HandedLog(m: Memory, v: nat)
    requires MemoryOk(m) && v < |m.zone.views| && v < |m.zone.chain.consumed|
    requires m.zone.views[v].phase.Handed? || m.zone.views[v].phase.OwnPass?
    ensures var l, n := m.zone.views[v].phase.log, m.zone.chain.consumed[v];
      n < |m.zone.chain.published| && l == m.zone.chain.published[n] && InMemory(l, m.out, m.olds) && l.tag < m.zone.nextTag
  {
    assert ViewOk(m.zone, v);
  }

  lemma AppliedIndex(m: Memory, s: Step)
    requires MemoryOk(m) && Possible(m, s) && (s.action.Apply? || s.action.PassOwn?)
    ensures IndexOk(After(m, s), s.action.v)
  {
    AppliedPut(m, s);
    AppliedZone(m.zone, s.action);
    HandedLog(m, s.action.v);
    assert IndexOk(m, s.action.v);
    LogApplied(m, After(m, s), s.action.v, m.zone.views[s.action.v].phase.log);
  }

  lemma LogApplied(m: Memory, m': Memory, v: nat, l: Log)
    requires Sized(m) && v < |m.zone.views| == |m'.zone.views| && IndexOk(m, v)
    requires InMemory(l, m.out, m.olds) && AllNamed(m.out)
    requires m' == m.(zone := m'.zone, index := m'.index, drafts := m'.drafts, past := m'.past)
    requires m'.zone.chain == m.zone.chain && m'.zone.nextTag >= m.zone.nextTag
    requires m'.zone.views[v].applied == m.zone.views[v].applied + [l] && m'.zone.views[v].start == m.zone.views[v].start
    requires var seen := Seen(l, m.marked);
      && m'.index == m.index[v := Put(m.index[v], seen, m.out)]
      && m'.drafts == m.drafts[v := StillDrafts(m.drafts[v], m.index[v], Replay(m.given, m.past[v], m.out), seen, m.out)]
      && m'.past == m.past[v := m.past[v] + [seen]]
    ensures Sized(m') && IndexOk(m', v)
  {
    MoreHad(m, m', v, l);
    IndexNext(m, m', v, l);
  }

  /** The index with one more log. */
  lemma IndexNext(m: Memory, m': Memory, v: nat, l: Log)
    requires Sized(m) && Sized(m') && v < |m.zone.views| == |m'.zone.views| && IndexOk(m, v)
    requires InMemory(l, m.out, m.olds) && AllNamed(m.out)
    requires m'.given == m.given && m'.out == m.out && m'.inherited == m.inherited && m'.zone.nextTag >= m.zone.nextTag
    requires m'.zone.chain == m.zone.chain && m'.zone.views[v].start == m.zone.views[v].start
    requires Had(m', v) == Had(m, v) + [l]
    requires m'.past[v] == m.past[v] + [Seen(l, m.marked)]
    requires m'.index[v] == Put(m.index[v], Seen(l, m.marked), m.out)
    requires m'.drafts[v] ==
      StillDrafts(m.drafts[v], m.index[v], Replay(m.given, m.past[v], m.out), Seen(l, m.marked), m.out)
    ensures IndexOk(m', v)
  {
    var s, replay := Seen(l, m.marked), Replay(m.given, m.past[v], m.out);
    ReplayNext(m.given, m.past[v], s, m.out);
    PutKeeps(m.index[v], m.drafts[v], replay, s, m.out);
    MoreLogs(m.past[v], s);
    DroppedNext(m.drafts[v], m.index[v], replay, m.past[v], s, m.out, m.olds);
  }

  lemma MoreLogs(p: seq<Seen>, s: Seen)
    ensures Logs(p + [s]) == Logs(p) + [s.log]
  {
  }

  lemma DroppedNext(drafts: map<Id, nat>, index: map<Id, Obj>, replay: map<Id, Obj>, p: seq<Seen>, s: Seen,
                    out: map<(nat, Id), Obj>, olds: map<(nat, Id), Obj>)
    requires Dropped(drafts, p, out)
    ensures Dropped(StillDrafts(drafts, index, replay, s, out), p + [s], out)
  {
    var drafts' := StillDrafts(drafts, index, replay, s, out);
    forall id, x | id in drafts' && x in p + [s] && x.log.tag == drafts'[id] && (x.log.tag, id) in out
      ensures id !in FinalIds(x.log) || out[(x.log.tag, id)] in x.marked
    {
      if x !in p {
        assert x == s && !Settles(index, replay, s, out, id);
      }
    }
  }

  lemma MoreHad(m: Memory, m': Memory, v: nat, l: Log)
    requires v < |m.zone.views| == |m'.zone.views| == |m.inherited| && m'.inherited == m.inherited
    requires m'.zone.chain.published == m.zone.chain.published
    requires m'.zone.views[v].applied == m.zone.views[v].applied + [l]
    ensures Had(m', v) == Had(m, v) + [l]
  {
  }

  lemma SaveStep(m: Memory, s: Step)
    requires MemoryOk(m) && Possible(m, s) && (s.action.Save? || s.action.Switch?)
    ensures MemoryOk(After(m, s))
  {
    StepKeeps(m.zone, s.action);
    TagsKept(m.zone, s.action);
    SaveSame(m, s);
    SaveRest(m, s);
    Settle(m, After(m, s), s.action.v, m.zone.nextTag);
  }

  /** All that saving and switching change. */
  lemma SaveSame(m: Memory, s: Step)
    requires Possible(m, s) && (s.action.Save? || s.action.Switch?)
    ensures var m', v := After(m, s), s.action.v;
      && m' == m.(zone := m'.zone, saved := m'.saved, stored := m'.stored)
      && m'.zone.chain == m.zone.chain && |m'.zone.views| == |m.zone.views| && m'.zone.nextTag == m.zone.nextTag
      && (forall u | 0 <= u < |m.zone.views| && u != v :: m'.zone.views[u] == m.zone.views[u])
      && m'.zone.views[v] == m.zone.views[v].(phase := m'.zone.views[v].phase)
      && (s.action.Save? ==>
            && m'.zone.store == m.zone.store && m'.stored == m.stored && m'.zone.views[v].phase.Saving?
            && m'.saved == m.saved[v := Copy(m.index[v], m.drafts[v], m.touched, m.past[v])])
      && (s.action.Switch? ==>
            && m.zone.views[v].phase.Saving? && m'.zone.views[v].phase.Idle? && m'.saved == m.saved
            && m'.stored == m.saved[v] && m'.zone.store.Some?
            && m'.zone.store.value.snapshot == m.zone.views[v].phase.snapshot)
  {
  }

  lemma SaveRest(m: Memory, s: Step)
    requires MemoryOk(m) && Possible(m, s) && (s.action.Save? || s.action.Switch?)
    ensures var m', v := After(m, s), s.action.v;
      && Sized(m') && Framed(m, m', v, m.zone.nextTag) && SerialsOk(m') && LogsInMemory(m') && IndexOk(m', v)
      && (m'.zone.views[v].phase.Saving? ==> CopyOk(m', m'.saved[v]) && Logs(m'.saved[v].past) == Had(m', v))
      && (m.zone.views[v].phase.Saving? ==> m.zone.views[v].phase.snapshot == Snapshot(v, m.zone.views[v].applied))
  {
    var m', v := After(m, s), s.action.v;
    SaveSame(m, s);
    NewTag(m.zone);
    assert ViewOk(m.zone, v);
    SavedRest(m, m', v);
    if s.action.Save? {
      SavedCopy(m, m', v);
    }
  }

  lemma SavedRest(m: Memory, m': Memory, v: nat)
    requires MemoryOk(m) && v < |m.zone.views| && Unpublished(m.zone.chain.published, m.zone.nextTag)
    requires m' == m.(zone := m'.zone, saved := m'.saved, stored := m'.stored) && |m'.saved| == |m.saved|
    requires m'.zone.chain == m.zone.chain && |m'.zone.views| == |m.zone.views| && m'.zone.nextTag == m.zone.nextTag
    requires forall u | 0 <= u < |m.zone.views| && u != v :: m'.zone.views[u] == m.zone.views[u]
    requires m'.zone.views[v] == m.zone.views[v].(phase := m'.zone.views[v].phase)
    ensures Sized(m') && Framed(m, m', v, m.zone.nextTag) && SerialsOk(m') && LogsInMemory(m') && IndexOk(m', v)
    ensures Had(m', v) == Had(m, v)
  {
    assert IndexOk(m, v);
    IndexSame(m, m', v);
  }

  lemma SavedCopy(m: Memory, m': Memory, v: nat)
    requires MemoryOk(m) && Sized(m') && v < |m.zone.views| == |m'.zone.views| && IndexOk(m', v) && Had(m', v) == Had(m, v)
    requires m'.zone.chain == m.zone.chain && m'.zone.nextTag == m.zone.nextTag && m'.out == m.out && m'.given == m.given
    requires m'.saved[v] == Copy(m.index[v], m.drafts[v], m.touched, m.past[v])
    ensures CopyOk(m', m'.saved[v]) && Logs(m'.saved[v].past) == Had(m', v)
  {
    assert IndexOk(m, v);
    HadPublished(m, v);
  }

  // ----- edits -----

  /** What an edit does to the records in memory. */
  lemma EditFacts(m: Memory, v: nat, kind: EditKind, id: Id, obj: Obj)
    requires Sized(m) && v < |m.zone.views| && (!kind.Place? ==> obj.serial < m.nextSerial && obj.id == id) && SerialsOk(m)
    ensures var m', tag := EditMemory(m, v, kind, id, obj), m.zone.views[v].changelog.tag;
      && OnlyTag(m.out, m'.out, tag) && OnlyTag(m.olds, m'.olds, tag) && SerialsOk(m')
      && (forall t | t in m'.touched :: t in m.touched || t.tag == tag)
  {
    EditSerials(m, v, kind, id, obj);
    EditTagged(m, v, kind, id, obj);
  }

  lemma EditTagged(m: Memory, v: nat, kind: EditKind, id: Id, obj: Obj)
    requires Sized(m) && v < |m.zone.views|
    ensures var m', tag := EditMemory(m, v, kind, id, obj), m.zone.views[v].changelog.tag;
      && OnlyTag(m.out, m'.out, tag) && OnlyTag(m.olds, m'.olds, tag)
      && (forall t | t in m'.touched :: t in m.touched || t.tag == tag)
  {
  }

  lemma EditSerials(m: Memory, v: nat, kind: EditKind, id: Id, obj: Obj)
    requires Sized(m) && v < |m.zone.views| && (!kind.Place? ==> obj.serial < m.nextSerial && obj.id == id) && SerialsOk(m)
    ensures SerialsOk(EditMemory(m, v, kind, id, obj))
  {
    var tag, n := m.zone.views[v].changelog.tag, m.nextSerial;
    MoreSound(m.out, n, (tag, id), obj);
    MoreSound(m.olds, n, (tag, id), obj);
    if (tag, id) in m.olds {
      MoreSound(m.out, n, (tag, id), m.olds[(tag, id)]);
    }
    MoreSound(m.out, n, (tag, NewId(kind, id)), Obj(n, NewId(kind, id)));
  }

  lemma MoreSound(out: map<(nat, Id), Obj>, n: nat, p: (nat, Id), o: Obj)
    requires Sound(out, n)
    ensures Sound(out, n + 1)
    ensures o.id == p.1 && o.serial < n ==> Sound(out[p := o], n)
    ensures o.id == p.1 && o.serial <= n ==> Sound(out[p := o], n + 1)
  {
  }

  lemma EditRest(m: Memory, v: nat, kind: EditKind, id: Id, obj: Obj)
    requires Sized(m) && v < |m.zone.views|
    ensures var m' := EditMemory(m, v, kind, id, obj);
      && m'.zone == m.zone && m'.given == m.given && m'.inherited == m.inherited
      && m'.saved == m.saved && m'.stored == m.stored && m'.past == m.past && m'.marked == m.marked
      && |m'.index| == |m.index| && |m'.drafts| == |m.drafts|
      && (forall u | 0 <= u < |m.index| && u != v :: m'.index[u] == m.index[u] && m'.drafts[u] == m.drafts[u])
  {
  }

  /** The edit puts a new record into the index of the view. */
  predicate Puts(m: Memory, v: nat, kind: EditKind, id: Id)
    requires Sized(m) && v < |m.zone.views|
  {
    kind.Place? || (kind.Own? && id !in m.zone.views[v].changelog.changes)
  }

  function NewId(kind: EditKind, id: Id): Id { if kind.Place? then id else Next(id) }

  /** The index of the view itself: as it was, or with one more draft, of a new record. */
  lemma EditIndex(m: Memory, v: nat, kind: EditKind, id: Id, obj: Obj)
    requires Sized(m) && v < |m.zone.views|
    ensures var m', tag := EditMemory(m, v, kind, id, obj), m.zone.views[v].changelog.tag;
      if !Puts(m, v, kind, id) then m'.index[v] == m.index[v] && m'.drafts[v] == m.drafts[v]
      else m'.index[v] == m.index[v][NewId(kind, id) := Obj(m.nextSerial, NewId(kind, id))]
           && m'.drafts[v] == WithDraft(m.drafts[v], NewId(kind, id), tag) && m'.touched == m.touched
  {
  }

  lemma EditInMemory(m: Memory, v: nat, kind: EditKind, id: Id, obj: Obj, done: nat, published: nat)
    requires Sized(m) && v < |m.zone.views| && InMemory(m.zone.views[v].changelog, m.out, m.olds)
    ensures var m' := EditMemory(m, v, kind, id, obj);
      InMemory(Enter(m.zone.views[v].changelog, kind, id, done, published), m'.out, m'.olds)
  {
    var log := m.zone.views[v].changelog;
    var log', m' := Enter(log, kind, id, done, published), EditMemory(m, v, kind, id, obj);
    forall key | key in log'.changes
      ensures var c := log'.changes[key];
        && (c.record.Some? ==> (log.tag, c.record.value) in m'.out)
        && (c.prior ==> (log.tag, key) in m'.olds)
        && (c.prior && c.record.None? ==> (log.tag, key) in m'.out)
    {
      if key != id {
        assert key in log.changes && log'.changes[key] == log.changes[key];
      }
    }
  }

  lemma MemoryFrame(l: Log, out: map<(nat, Id), Obj>, olds: map<(nat, Id), Obj>,
                    out': map<(nat, Id), Obj>, olds': map<(nat, Id), Obj>, tag: nat)
    requires InMemory(l, out, olds) && OnlyTag(out, out', tag) && OnlyTag(olds, olds', tag) && l.tag != tag
    ensures InMemory(l, out', olds')
  {
    forall key | key in l.changes
      ensures var c := l.changes[key];
        && (c.record.Some? ==> (l.tag, c.record.value) in out')
        && (c.prior ==> (l.tag, key) in olds')
        && (c.prior && c.record.None? ==> (l.tag, key) in out')
    {
      var c := l.changes[key];
      assert (l.tag, key).0 != tag;
      if c.record.Some? {
        assert (l.tag, c.record.value).0 != tag;
      }
    }
  }

  lemma DraftKeeps(index: map<Id, Obj>, drafts: map<Id, nat>, replay: map<Id, Obj>, r: Id, serial: nat, tag: nat)
    requires ButDrafts(index, drafts, replay) && Older(replay, serial)
    ensures ButDrafts(index[r := Obj(serial, r)], WithDraft(drafts, r, tag), replay)
  {
  }

  lemma EditStep(m: Memory, s: Step)
    requires MemoryOk(m) && Possible(m, s) && s.action.Edit?
    ensures MemoryOk(After(m, s))
  {
    var a := s.action;
    StepKeeps(m.zone, a);
    TagsKept(m.zone, a);
    NewTag(m.zone);
    EditFacts(m, a.v, a.kind, a.id, s.obj);
    EditRest(m, a.v, a.kind, a.id, s.obj);
    EditedLogs(m, s);
    EditedIndex(m, s, After(m, s));
    Settle(m, After(m, s), a.v, m.zone.views[a.v].changelog.tag);
  }

  lemma EditedLogs(m: Memory, s: Step)
    requires MemoryOk(m) && Possible(m, s) && s.action.Edit?
    ensures LogsInMemory(After(m, s))
  {
    var a, m' := s.action, After(m, s);
    var tag, h := m.zone.views[a.v].changelog.tag, m.zone.chain.published;
    NewTag(m.zone);
    EditFacts(m, a.v, a.kind, a.id, s.obj);
    EditRest(m, a.v, a.kind, a.id, s.obj);
    EditInMemory(m, a.v, a.kind, a.id, s.obj, m.zone.views[a.v].Done(), |h|);
    forall u | 0 <= u < |m.zone.views| && u != a.v
      ensures InMemory(m.zone.views[u].changelog, m'.out, m'.olds)
    {
      MemoryFrame(m.zone.views[u].changelog, m.out, m.olds, m'.out, m'.olds, tag);
    }
    forall k | 0 <= k < |h|
      ensures InMemory(h[k], m'.out, m'.olds)
    {
      MemoryFrame(h[k], m.out, m.olds, m'.out, m'.olds, tag);
    }
  }

  lemma EditedIndex(m: Memory, s: Step, m': Memory)
    requires MemoryOk(m) && Possible(m, s) && s.action.Edit? && m' == After(m, s)
    ensures Sized(m') && IndexOk(m', s.action.v)
  {
    var a := s.action;
    var v, tag, h := a.v, m.zone.views[a.v].changelog.tag, m.zone.chain.published;
    NewTag(m.zone);
    EditFacts(m, v, a.kind, a.id, s.obj);
    EditRest(m, v, a.kind, a.id, s.obj);
    EditIndex(m, v, a.kind, a.id, s.obj);
    assert IndexOk(m, v);
    SameHad(m, m', v);
    HadPublished(m, v);
    ReplayFrame(m.given, m.past[v], h, m.out, m'.out, tag);
    DroppedFrame(m.drafts[v], m.past[v], h, m.out, m'.out, tag);
    ReplayOlder(m.given, m.past[v], m.out, m.nextSerial);
    if Puts(m, v, a.kind, a.id) {
      DraftKeeps(m.index[v], m.drafts[v], Replay(m.given, m.past[v], m.out), NewId(a.kind, a.id), m.nextSerial, tag);
    }
  }

  // ----- a new view -----

  lemma SubscribeStep(m: Memory, s: Step)
    requires MemoryOk(m) && Possible(m, s) && s.action.Subscribe?
    ensures MemoryOk(After(m, s))
  {
    StepKeeps(m.zone, s.action);
    TagsKept(m.zone, s.action);
    JoinedRest(m, s);
    JoinedIndices(m, s);
    JoinedCopies(m, s);
  }

  lemma JoinedRest(m: Memory, s: Step)
    requires MemoryOk(m) && Possible(m, s) && s.action.Subscribe?
    ensures var m' := After(m, s);
      && Sized(m') && SerialsOk(m') && LogsInMemory(m') && m'.touched == m.touched && m'.zone.nextTag >= m.zone.nextTag
      && m'.zone.views[0].start == 0 && m'.inherited[0] == 0
  {
  }

  lemma JoinedIndices(m: Memory, s: Step)
    requires MemoryOk(m) && Possible(m, s) && s.action.Subscribe?
    ensures Sized(After(m, s)) && |After(m, s).zone.views| == |m.zone.views| + 1
    ensures forall u | 0 <= u < |m.zone.views| :: Had(After(m, s), u) == Had(m, u)
    ensures forall u | 0 <= u <= |m.zone.views| :: IndexOk(After(m, s), u)
  {
    var m', n := After(m, s), |m.zone.views|;
    NewView(m, s);
    forall u | 0 <= u < n
      ensures IndexOk(m', u) && Had(m', u) == Had(m, u)
    {
      assert IndexOk(m, u);
      assert Had(m', u) == Had(m, u);
    }
  }

  lemma JoinedCopies(m: Memory, s: Step)
    requires MemoryOk(m) && Possible(m, s) && s.action.Subscribe?
    requires Sized(After(m, s)) && forall u | 0 <= u < |m.zone.views| :: Had(After(m, s), u) == Had(m, u)
    ensures CopiesOk(After(m, s))
  {
    JoinedCopy(m, s);
  }

  lemma JoinedCopy(m: Memory, s: Step)
    requires Possible(m, s) && s.action.Subscribe?
    ensures forall c | CopyOk(m, c) :: CopyOk(After(m, s), c)
  {
  }

  /** The new view has what the base view has. */
  lemma NewView(m: Memory, s: Step)
    requires MemoryOk(m) && Possible(m, s) && s.action.Subscribe?
    ensures IndexOk(After(m, s), |m.zone.views|) && Had(After(m, s), |m.zone.views|) == Had(m, 0)
  {
    InheritedHad(m, s);
    assert IndexOk(m, 0);
  }

  lemma InheritedHad(m: Memory, s: Step)
    requires MemoryOk(m) && Possible(m, s) && s.action.Subscribe?
    ensures var m', n := After(m, s), |m.zone.views|;
      && Sized(m') && |m'.zone.views| == n + 1 && m'.inherited[n] <= m'.zone.views[n].start <= |m'.zone.chain.published|
      && Had(m', n) == Had(m, 0)
  {
    var m', n, h := After(m, s), |m.zone.views|, m.zone.chain.published;
    assert ViewOk(m.zone, 0);
    BaseHad(h, m.zone.views[0].Done());
    assert Had(m, 0) == h[..0] + h[..m.zone.views[0].Done()];
    assert Had(m', n) == h[..m.zone.views[0].Done()] + [];
  }

  lemma BaseHad(h: seq<Log>, d: nat)
    requires d <= |h|
    ensures h[..0] + h[0..d] == h[..d] + []
  {
  }

  lemma MemoryStep(m: Memory, s: Step)
    requires MemoryOk(m) && Possible(m, s)
    ensures MemoryOk(After(m, s))
  {
    match s.action
    case Subscribe => SubscribeStep(m, s);
    case Edit(_, _, _) => EditStep(m, s);
    case Apply(_) => ApplyStep(m, s);
    case PassOwn(_) => ApplyStep(m, s);
    case Resolve(_, _) => ResolveStep(m, s);
    case Save(_) => SaveStep(m, s);
    case Switch(_) => SaveStep(m, s);
    case _ => ZoneStep(m, s);
  }

  /** What holds of the first index in every run. */
  lemma {:induction false} MemoryRun(m: Memory, run: seq<Step>)
    requires MemoryOk(m) && RunsIn(m, run)
    ensures MemoryOk(EndIn(m, run))
    decreases |run|
  {
    if run != [] {
      MemoryStep(m, run[0]);
      MemoryRun(After(m, run[0]), run[1..]);
    }
  }

  lemma OpenedOk(m: Memory)
    requires Opened(m)
    ensures MemoryOk(m)
  {
    InitialInv(m.zone);
    OpenedIndex(m);
    assert m.zone.views[0].changelog.tag == 0;
  }

  lemma OpenedIndex(m: Memory)
    requires Opened(m)
    ensures Sized(m) && IndexOk(m, 0) && CopiesOk(m)
  {
    assert Had(m, 0) == [];
  }

  // ----- what is in the store -----

  /** A state some run from an opened zone ends in. */
  ghost predicate ReachedIn(m0: Memory, run: seq<Step>) {
    Opened(m0) && RunsIn(m0, run)
  }

  lemma ReachedOk(m0: Memory, run: seq<Step>)
    requires ReachedIn(m0, run)
    ensures MemoryOk(EndIn(m0, run))
  {
    OpenedOk(m0);
    MemoryRun(m0, run);
  }

  predicate Had1(had: seq<Log>, tag: nat) {
    exists l :: l in had && l.tag == tag
  }

  /** The change logs under which a record was changed where it is. */
  function Tags(o: Obj, touched: set<Touch>): set<nat> {
    set t | t in touched && t.obj == o :: t.tag
  }

  /** What an index shows: which records, and whose changes are in them. */
  function Content(index: map<Id, Obj>, touched: set<Touch>): map<Id, (Obj, set<nat>)> {
    map id | id in index :: (index[id], Tags(index[id], touched))
  }

  /** The index shows what it would show if there had never been other edits than those
      of the logs the view had. */
  ghost predicate Exact(c: Copy, given: map<Id, Obj>, out: map<(nat, Id), Obj>) {
    Content(c.index, c.touched) == Content(Replay(given, c.past, out), set t | t in c.touched && Had1(Logs(c.past), t.tag))
  }

  /** No draft is left, and no record was changed under another log than those. */
  ghost predicate Clean(c: Copy) {
    c.drafts == map[] && forall t | t in c.touched && t.obj in c.index.Values :: Had1(Logs(c.past), t.tag)
  }

  lemma TagsSame(o: Obj, touched: set<Touch>, had: seq<Log>)
    ensures Tags(o, touched) == Tags(o, set t | t in touched && Had1(had, t.tag))
      <==> forall t | t in touched && t.obj == o :: Had1(had, t.tag)
  {
    var mine := set t | t in touched && Had1(had, t.tag);
    if Tags(o, touched) == Tags(o, mine) {
      forall t | t in touched && t.obj == o
        ensures Had1(had, t.tag)
      {
        assert t.tag in Tags(o, mine);
      }
    } else {
      var tag :| tag in Tags(o, touched) && tag !in Tags(o, mine);
    }
  }

  /** The same records, and the same changes in each. */
  lemma ContentSame(x: map<Id, Obj>, y: map<Id, Obj>, touched: set<Touch>, had: seq<Log>)
    ensures Content(x, touched) == Content(y, set t | t in touched && Had1(had, t.tag))
      <==> x == y && forall t | t in touched && t.obj in x.Values :: Had1(had, t.tag)
  {
    var mine := set t | t in touched && Had1(had, t.tag);
    if Content(x, touched) == Content(y, mine) {
      assert Content(x, touched).Keys == x.Keys && Content(y, mine).Keys == y.Keys;
      forall id | id in x
        ensures id in y && x[id] == y[id] && Tags(x[id], touched) == Tags(x[id], mine)
      {
        assert Content(x, touched)[id] == Content(y, mine)[id];
      }
      forall t | t in touched && t.obj in x.Values
        ensures Had1(had, t.tag)
      {
        TagsSame(t.obj, touched, had);
      }
    } else if x == y && forall t | t in touched && t.obj in x.Values :: Had1(had, t.tag) {
      forall id | id in x
        ensures Tags(x[id], touched) == Tags(x[id], mine)
      {
        TagsSame(x[id], touched, had);
      }
    }
  }

  lemma ExactWhen(c: Copy, given: map<Id, Obj>, out: map<(nat, Id), Obj>)
    requires ButDrafts(c.index, c.drafts, Replay(given, c.past, out))
    ensures Exact(c, given, out) <==> Clean(c)
  {
    NoDrafts(c.index, c.drafts, Replay(given, c.past, out));
    ContentSame(c.index, Replay(given, c.past, out), c.touched, Logs(c.past));
  }

  /** The first index of a view shows the logs it has, and nothing else, exactly when every
      record it placed or copied has since been written by a log it applied, and every
      record in it that any view changed in place was changed under such a log. */
  lemma IndexExactly(m0: Memory, run: seq<Step>, v: nat)
    requires ReachedIn(m0, run) && v < |EndIn(m0, run).zone.views|
    ensures var m := EndIn(m0, run);
      && Sized(m)
      && var c := Copy(m.index[v], m.drafts[v], m.touched, m.past[v]);
         Exact(c, m.given, m.out) <==> Clean(c)
  {
    ReachedOk(m0, run);
    var m := EndIn(m0, run);
    assert IndexOk(m, v);
    ExactWhen(Copy(m.index[v], m.drafts[v], m.touched, m.past[v]), m.given, m.out);
  }

  /** So it is with the index in the store. */
  lemma StoreExactly(m0: Memory, run: seq<Step>)
    requires ReachedIn(m0, run) && EndIn(m0, run).zone.store.Some?
    ensures var m := EndIn(m0, run);
      Exact(m.stored, m.given, m.out) <==> Clean(m.stored)
  {
    ReachedOk(m0, run);
    var m := EndIn(m0, run);
    ExactWhen(m.stored, m.given, m.out);
  }

  /** The logs behind the index in the store are those published since: together with
      those the index was written with, they are all its view has and will be handed. */
  lemma StoreSpan(m0: Memory, run: seq<Step>)
    requires ReachedIn(m0, run) && EndIn(m0, run).zone.store.Some?
    ensures var m := EndIn(m0, run);
      var st, h := m.zone.store.value, m.zone.chain.published;
      && Sized(m) && st.snapshot.view < |m.zone.views|
      && m.inherited[st.snapshot.view] <= m.zone.views[st.snapshot.view].start <= |h|
      && Logs(m.stored.past) + st.logs == h[..m.inherited[st.snapshot.view]] + h[m.zone.views[st.snapshot.view].start..]
  {
    ReachedOk(m0, run);
    var m := EndIn(m0, run);
    Span(m);
  }

  lemma Span(m: Memory)
    requires MemoryOk(m) && m.zone.store.Some?
    ensures var st, h := m.zone.store.value, m.zone.chain.published;
      && st.snapshot.view < |m.zone.views|
      && m.inherited[st.snapshot.view] <= m.zone.views[st.snapshot.view].start <= |h|
      && Logs(m.stored.past) + st.logs == h[..m.inherited[st.snapshot.view]] + h[m.zone.views[st.snapshot.view].start..]
  {
    var st, h := m.zone.store.value, m.zone.chain.published;
    var a, n := m.inherited[st.snapshot.view], m.zone.views[st.snapshot.view].start;
    assert IndexOk(m, st.snapshot.view);
    Joined(h, a, n, st.from);
  }

  lemma Joined(h: seq<Log>, a: nat, n: nat, from: nat)
    requires a <= n <= from <= |h|
    ensures (h[..a] + h[n..from]) + h[from..] == h[..a] + h[n..]
  {
  }

  /** What becomes of a change in the store that is not of the logs the view had: exactly
      one of not committed yet, thrown away and never published, or published. */
  lemma DraftFate(m0: Memory, run: seq<Step>, tag: nat)
    requires ReachedIn(m0, run) && EndIn(m0, run).zone.store.Some?
    requires var c := EndIn(m0, run).stored;
      (exists id :: id in c.drafts && c.drafts[id] == tag) || (exists t :: t in c.touched && t.tag == tag)
    ensures var z := EndIn(m0, run).zone;
      var pending := exists u :: 0 <= u < |z.views| && z.views[u].changelog.tag == tag;
      var never := tag in z.discarded;
      var published := Had1(z.chain.published, tag);
      && (pending || never || published)
      && !(pending && never) && !(pending && published) && !(never && published)
  {
    ReachedOk(m0, run);
    var m := EndIn(m0, run);
    var z := m.zone;
    assert Known(z, tag);
    if k :| 0 <= k < |z.chain.published| && z.chain.published[k].tag == tag {
      assert z.chain.published[k] in z.chain.published;
    }
    if Had1(z.chain.published, tag) {
      var l :| l in z.chain.published && l.tag == tag;
      var k :| 0 <= k < |z.chain.published| && z.chain.published[k] == l;
    }
    forall u | 0 <= u < |z.views|
      ensures z.views[u].changelog.tag !in z.discarded
    {
      assert ViewOk(z, u);
    }
  }

  /** A draft in the store whose log was among those its view had is not in that log, as the
      change was made one of another record before it was published; or it is removed by it. */
  lemma DraftDropped(m0: Memory, run: seq<Step>, id: Id)
    requires ReachedIn(m0, run) && EndIn(m0, run).zone.store.Some? && id in EndIn(m0, run).stored.drafts
    ensures var m := EndIn(m0, run);
      var c := m.stored;
      forall s | s in c.past && s.log.tag == c.drafts[id] && Refers(s.log, id) ::
        (s.log.tag, id) in m.out && m.out[(s.log.tag, id)] in s.marked
  {
    ReachedOk(m0, run);
    var m := EndIn(m0, run);
    var c := m.stored;
    forall s | s in c.past && s.log.tag == c.drafts[id] && Refers(s.log, id)
      ensures (s.log.tag, id) in m.out && m.out[(s.log.tag, id)] in s.marked
    {
      RefersIs(s.log, id);
      var k :| 0 <= k < |m.zone.chain.published| && m.zone.chain.published[k] == s.log;
      RecordsAll(s.log, m.out, m.olds);
    }
  }

  // ----- which record is found -----

  /** What becomes of one record when a log is inserted: a removal takes away the record there
      is, or else comes in itself; any other change is found; all else is as before. */
  ghost predicate Inserted(was: map<Id, Obj>, now: map<Id, Obj>, l: Log, out: map<(nat, Id), Obj>, marked: set<Obj>, id: Id) {
    if Refers(l, id) then
      && (l.tag, id) in out
      && (id in now <==> out[(l.tag, id)] !in marked || id !in was)
      && (id in now ==> now[id] == out[(l.tag, id)])
    else
      (id in now <==> id in was) && (id in was && id in now ==> now[id] == was[id])
  }

  lemma PutShows(index: map<Id, Obj>, s: Seen, out: map<(nat, Id), Obj>, olds: map<(nat, Id), Obj>, id: Id)
    requires InMemory(s.log, out, olds)
    ensures Inserted(index, Put(index, s, out), s.log, out, s.marked, id)
  {
    RefersIs(s.log, id);
    RecordsAll(s.log, out, olds);
  }

  /** A view that applies a log, or passes over its own, finds the record of each change of
      the log afterwards, or does not find it if it is removed; all else it finds as before, and
      so do the other views. */
  lemma AppliedShows(m: Memory, s: Step, id: Id)
    requires MemoryOk(m) && Possible(m, s) && (s.action.Apply? || s.action.PassOwn?)
    ensures var m', v := After(m, s), s.action.v;
      && Inserted(m.index[v], m'.index[v], m.zone.views[v].phase.log, m.out, m.marked, id)
      && (id in m'.drafts[v] ==> id in m.drafts[v])
      && (forall u | 0 <= u < |m.index| && u != v :: m'.index[u] == m.index[u] && m'.drafts[u] == m.drafts[u])
      && m'.out == m.out && m'.touched == m.touched && m'.marked == m.marked
  {
    HandedLog(m, s.action.v);
    ShowsAfter(m, s, id);
  }

  lemma ShowsAfter(m: Memory, s: Step, id: Id)
    requires Possible(m, s) && (s.action.Apply? || s.action.PassOwn?)
    requires InMemory(m.zone.views[s.action.v].phase.log, m.out, m.olds)
    ensures var m', v := After(m, s), s.action.v;
      && Inserted(m.index[v], m'.index[v], m.zone.views[v].phase.log, m.out, m.marked, id)
      && (id in m'.drafts[v] ==> id in m.drafts[v])
      && (forall u | 0 <= u < |m.index| && u != v :: m'.index[u] == m.index[u] && m'.drafts[u] == m.drafts[u])
      && m'.out == m.out && m'.touched == m.touched && m'.marked == m.marked
  {
    AppliedPut(m, s);
    LogShows(m, After(m, s), s.action.v, m.zone.views[s.action.v].phase.log, id);
  }

  lemma LogShows(m: Memory, m': Memory, v: nat, l: Log, id: Id)
    requires Sized(m) && v < |m.index| == |m.drafts| && InMemory(l, m.out, m.olds)
    requires m'.index == m.index[v := Put(m.index[v], Seen(l, m.marked), m.out)] && |m'.drafts| == |m.drafts|
    requires m'.drafts[v] == StillDrafts(m.drafts[v], m.index[v], Replay(m.given, m.past[v], m.out), Seen(l, m.marked), m.out)
    ensures Inserted(m.index[v], m'.index[v], l, m.out, m.marked, id)
    ensures id in m'.drafts[v] ==> id in m.drafts[v]
  {
    PutShows(m.index[v], Seen(l, m.marked), m.out, m.olds, id);
  }

  lemma AppliedPut(m: Memory, s: Step)
    requires Possible(m, s) && (s.action.Apply? || s.action.PassOwn?)
    ensures var m', v, seen := After(m, s), s.action.v, Seen(m.zone.views[s.action.v].phase.log, m.marked);
      && m'.index == m.index[v := Put(m.index[v], seen, m.out)]
      && m'.drafts == m.drafts[v := StillDrafts(m.drafts[v], m.index[v], Replay(m.given, m.past[v], m.out), seen, m.out)]
      && m'.past == m.past[v := m.past[v] + [seen]] && m'.marked == m.marked
      && m' == m.(zone := Do(m.zone, s.action), index := m'.index, drafts := m'.drafts, past := m'.past)
  {
  }

  /** The k-th log is the last one that has the record. */
  ghost predicate LastWith(p: seq<Seen>, id: Id, k: int) {
    0 <= k < |p| && Refers(p[k].log, id) && forall j | k < j < |p| :: !Refers(p[j].log, id)
  }

  /** No log has the record. */
  ghost predicate NoneWith(p: seq<Seen>, id: Id) {
    forall k | 0 <= k < |p| :: !Refers(p[k].log, id)
  }

  lemma LastNext(p: seq<Seen>, s: Seen, id: Id)
    ensures Refers(s.log, id) ==> forall k :: LastWith(p + [s], id, k) <==> k == |p|
    ensures !Refers(s.log, id) ==> forall k :: LastWith(p + [s], id, k) <==> LastWith(p, id, k)
    ensures NoneWith(p + [s], id) <==> NoneWith(p, id) && !Refers(s.log, id)
  {
    var all := p + [s];
    assert all[|p|] == s;
    assert forall k | 0 <= k < |p| :: all[k] == p[k];
    forall k
      ensures Refers(s.log, id) ==> (LastWith(all, id, k) <==> k == |p|)
      ensures !Refers(s.log, id) ==> (LastWith(all, id, k) <==> LastWith(p, id, k))
    {
      if LastWith(p, id, k) && !Refers(s.log, id) {
        assert all[k] == p[k];
      }
    }
  }

  /** What is found: what the last log that has the record made of it, else the one given. */
  ghost predicate FoundIn(index: map<Id, Obj>, given: map<Id, Obj>, p: seq<Seen>, out: map<(nat, Id), Obj>, id: Id) {
    && (forall k | LastWith(p, id, k) :: Inserted(Replay(given, p[..k], out), index, p[k].log, out, p[k].marked, id))
    && (NoneWith(p, id) ==> (id in index <==> id in given) && (id in given && id in index ==> index[id] == given[id]))
  }

  /** A record that was found stays so with a log that does not have it. */
  lemma StaysInserted(was: map<Id, Obj>, now: map<Id, Obj>, next: map<Id, Obj>, l: Log, x: Log, out: map<(nat, Id), Obj>,
                      marked: set<Obj>, other: set<Obj>, id: Id)
    requires Inserted(was, now, l, out, marked, id) && Inserted(now, next, x, out, other, id) && Refers(l, id) && !Refers(x, id)
    ensures Inserted(was, next, l, out, marked, id)
  {
  }

  lemma FoundNext(given: map<Id, Obj>, p: seq<Seen>, s: Seen, out: map<(nat, Id), Obj>, olds: map<(nat, Id), Obj>, id: Id)
    requires InMemory(s.log, out, olds) && FoundIn(Replay(given, p, out), given, p, out, id)
    ensures FoundIn(Put(Replay(given, p, out), s, out), given, p + [s], out, id)
  {
    var was := Replay(given, p, out);
    var now, all := Put(was, s, out), p + [s];
    PutShows(was, s, out, olds, id);
    LastNext(p, s, id);
    forall k | LastWith(all, id, k)
      ensures Inserted(Replay(given, all[..k], out), now, all[k].log, out, all[k].marked, id)
    {
      if Refers(s.log, id) {
        assert all[..k] == p && all[k] == s;
      } else {
        assert all[..k] == p[..k] && all[k] == p[k];
        StaysInserted(Replay(given, p[..k], out), was, now, p[k].log, s.log, out, p[k].marked, s.marked, id);
      }
    }
  }

  lemma {:induction false} ReplayFinds(given: map<Id, Obj>, p: seq<Seen>, out: map<(nat, Id), Obj>, olds: map<(nat, Id), Obj>, id: Id)
    requires AllInMemory(p, out, olds)
    ensures FoundIn(Replay(given, p, out), given, p, out, id)
  {
    if p == [] {
      assert Replay(given, p, out) == given;
    } else {
      var before, s := p[..|p| - 1], p[|p| - 1];
      assert before + [s] == p;
      assert AllInMemory(before, out, olds) && InMemory(s.log, out, olds);
      ReplayFinds(given, before, out, olds, id);
      FoundNext(given, before, s, out, olds, id);
      ReplayNext(given, before, s, out);
    }
  }

  ghost predicate AllInMemory(p: seq<Seen>, out: map<(nat, Id), Obj>, olds: map<(nat, Id), Obj>) {
    forall s | s in p :: InMemory(s.log, out, olds)
  }

  lemma HadInMemory(m: Memory, p: seq<Seen>)
    requires LogsInMemory(m) && forall s | s in p :: s.log in m.zone.chain.published
    ensures AllInMemory(p, m.out, m.olds)
  {
  }

  /** In every run, what is found in the first index of a view of a record that is no draft is what
      the last log the view has had with that record made of it: the record of its change, or, if
      that was a removal, nothing, unless there was nothing before; and without such a log the restored one. */
  lemma IndexFinds(m0: Memory, run: seq<Step>, v: nat, id: Id)
    requires ReachedIn(m0, run) && v < |EndIn(m0, run).zone.views|
    ensures var m := EndIn(m0, run);
      && Sized(m) && Logs(m.past[v]) == Had(m, v)
      && (id !in m.drafts[v] ==> FoundIn(m.index[v], m.given, m.past[v], m.out, id))
  {
    ReachedOk(m0, run);
    var m := EndIn(m0, run);
    assert IndexOk(m, v);
    HadPublished(m, v);
    Finds(m, m.index[v], m.drafts[v], m.past[v], id);
  }

  /** And so it is in the store. */
  lemma StoreFinds(m0: Memory, run: seq<Step>, id: Id)
    requires ReachedIn(m0, run) && EndIn(m0, run).zone.store.Some?
    ensures var m := EndIn(m0, run);
      id !in m.stored.drafts ==> FoundIn(m.stored.index, m.given, m.stored.past, m.out, id)
  {
    ReachedOk(m0, run);
    var m := EndIn(m0, run);
    Finds(m, m.stored.index, m.stored.drafts, m.stored.past, id);
  }

  lemma Finds(m: Memory, index: map<Id, Obj>, drafts: map<Id, nat>, p: seq<Seen>, id: Id)
    requires LogsInMemory(m) && forall s | s in p :: s.log in m.zone.chain.published
    requires ButDrafts(index, drafts, Replay(m.given, p, m.out))
    ensures id !in drafts ==> FoundIn(index, m.given, p, m.out, id)
  {
    HadInMemory(m, p);
    ReplayFinds(m.given, p, m.out, m.olds, id);
    if id !in drafts {
      assert Alike(index, Replay(m.given, p, m.out), id);
    }
  }

  // ----- what an edit shows, and what it files -----

  /** At once an edit shows like this: placing, or owning a record for the first time, adds a
      record that nobody has changed to the index of that view alone; a removal shows nowhere;
      any other edit leaves all indices alone, but in all of them the record has the change. */
  lemma EditShows(m: Memory, s: Step)
    requires MemoryOk(m) && Possible(m, s) && s.action.Edit?
    ensures var m', v, tag := After(m, s), s.action.v, m.zone.views[s.action.v].changelog.tag;
      && Sized(m') && |m'.index| == |m.index|
      && (forall u | 0 <= u < |m.index| && u != v :: m'.index[u] == m.index[u] && m'.drafts[u] == m.drafts[u])
      && if Puts(m, v, s.action.kind, s.action.id) then
           var r := NewId(s.action.kind, s.action.id);
           && m'.index[v].Keys == m.index[v].Keys + {r} && m'.index[v][r].id == r
           && (forall x | x in m.index[v] && x != r :: m'.index[v][x] == m.index[v][x])
           && m'.drafts[v] == m.drafts[v][r := tag]
           && Tags(m'.index[v][r], m'.touched) == {} && m'.touched == m.touched && m'.index[v][r] !in m'.marked
         else
           && m'.index[v] == m.index[v] && m'.drafts[v] == m.drafts[v]
           && forall o :: Tags(o, m'.touched) ==
                Tags(o, m.touched) + if o == s.obj && !s.action.kind.Remove? then {tag} else {}
  {
    var a := s.action;
    EditRest(m, a.v, a.kind, a.id, s.obj);
    EditIndex(m, a.v, a.kind, a.id, s.obj);
    if Puts(m, a.v, a.kind, a.id) {
      assert Tags(Obj(m.nextSerial, NewId(a.kind, a.id)), m.touched) == {};
    } else {
      EditTags(m, s);
    }
  }

  lemma EditTags(m: Memory, s: Step)
    requires Possible(m, s) && s.action.Edit? && !Puts(m, s.action.v, s.action.kind, s.action.id)
    ensures var tag := m.zone.views[s.action.v].changelog.tag;
      forall o :: Tags(o, After(m, s).touched) ==
        Tags(o, m.touched) + if o == s.obj && !s.action.kind.Remove? then {tag} else {}
  {
    var m', tag := After(m, s), m.zone.views[s.action.v].changelog.tag;
    if s.action.kind.Remove? {
      assert m'.touched == m.touched;
    } else {
      assert m'.touched == m.touched + {Touch(s.obj, tag)};
      forall o
        ensures Tags(o, m'.touched) == Tags(o, m.touched) + if o == s.obj then {tag} else {}
      {
        MoreTags(o, m.touched, Touch(s.obj, tag));
      }
    }
  }

  lemma MoreTags(o: Obj, touched: set<Touch>, t: Touch)
    ensures Tags(o, touched + {t}) == Tags(o, touched) + if o == t.obj then {t.tag} else {}
  {
    if o == t.obj {
      assert t in touched + {t};
    }
  }

  /** The change filed has the record: the new one in the index of the view, or the one the
      edit was given; a removal has the old record, which is the one the change was entered with. */
  lemma EditFiles(m: Memory, s: Step)
    requires MemoryOk(m) && Possible(m, s) && s.action.Edit?
    ensures var m', v, id, log := After(m, s), s.action.v, s.action.id, m.zone.views[s.action.v].changelog;
      var log' := m'.zone.views[v].changelog;
      && Sized(m') && log'.tag == log.tag && id in log'.changes
      && FilesRecord(m'.out, log.tag, log'.changes[id].record, if Puts(m, v, s.action.kind, id) then None else Some(s.obj), m'.index[v])
      && FilesPrior(m'.out, m'.olds, log.tag, id, log'.changes[id],
                    if id in log.changes && (log.tag, id) in m.olds then m.olds[(log.tag, id)] else s.obj)
  {
    assert InMemory(m.zone.views[s.action.v].changelog, m.out, m.olds);
    RecordFiled(m, s);
    PriorFiled(m, s);
  }

  /** The change has the record that the edit was given, or else the one in the index. */
  ghost predicate FilesRecord(out: map<(nat, Id), Obj>, tag: nat, record: Option<Id>, obj: Option<Obj>, index: map<Id, Obj>) {
    record.Some? ==>
      && (tag, record.value) in out
      && if obj.Some? then out[(tag, record.value)] == obj.value
         else record.value in index && out[(tag, record.value)] == index[record.value]
  }

  /** The old record is the one given; and it is the record to be of a removal. */
  ghost predicate FilesPrior(out: map<(nat, Id), Obj>, olds: map<(nat, Id), Obj>, tag: nat, id: Id, c: Change, obj: Obj) {
    c.prior ==>
      && (tag, id) in olds && olds[(tag, id)] == obj
      && (c.record.None? ==> (tag, id) in out && out[(tag, id)] == obj)
  }

  lemma RecordFiled(m: Memory, s: Step)
    requires Possible(m, s) && s.action.Edit?
    ensures var m', v, id, log := After(m, s), s.action.v, s.action.id, m.zone.views[s.action.v].changelog;
      var log' := m'.zone.views[v].changelog;
      && Sized(m') && log'.tag == log.tag && id in log'.changes
      && FilesRecord(m'.out, log.tag, log'.changes[id].record, if Puts(m, v, s.action.kind, id) then None else Some(s.obj), m'.index[v])
  {
  }

  lemma PriorFiled(m: Memory, s: Step)
    requires Possible(m, s) && s.action.Edit?
    requires InMemory(m.zone.views[s.action.v].changelog, m.out, m.olds)
    ensures var m', v, id, log := After(m, s), s.action.v, s.action.id, m.zone.views[s.action.v].changelog;
      var log' := m'.zone.views[v].changelog;
      && id in log'.changes
      && FilesPrior(m'.out, m'.olds, log.tag, id, log'.changes[id],
                    if id in log.changes && (log.tag, id) in m.olds then m.olds[(log.tag, id)] else s.obj)
  {
  }

  /** The marker that a publisher sets shows in every view that has the record. */
  lemma ResolveShows(m: Memory, s: Step)
    requires MemoryOk(m) && Possible(m, s) && s.action.Resolve?
    ensures var m', l, key := After(m, s), m.zone.views[s.action.v].phase.log, s.action.key;
      && m'.index == m.index && m'.drafts == m.drafts
      && m'.marked == m.marked + (if l.changes[key].record.None? && (l.tag, key) in m.out then {m.out[(l.tag, key)]} else {})
      && (l.changes[key].record.None? ==> (l.tag, key) in m.out)
      && forall o :: Tags(o, m'.touched) == Tags(o, m.touched) +
           if l.changes[key].record.None? && o == m.out[(l.tag, key)] then {l.tag} else {}
  {
    var m', l, key := After(m, s), m.zone.views[s.action.v].phase.log, s.action.key;
    assert ViewOk(m.zone, s.action.v);
    assert InMemory(l, m.out, m.olds);
    if l.changes[key].record.None? {
      forall o
        ensures Tags(o, m'.touched) == Tags(o, m.touched) + if o == m.out[(l.tag, key)] then {l.tag} else {}
      {
        MoreTags(o, m.touched, Touch(m.out[(l.tag, key)], l.tag));
      }
    }
  }

  // ----- what a new view inherits -----

  /** What a view has and what it will be handed make up the history exactly when the base
      view had applied everything published when the view was created. */
  lemma InheritsExactly(m0: Memory, run: seq<Step>, v: nat)
    requires ReachedIn(m0, run) && v < |EndIn(m0, run).zone.views|
    ensures var m := EndIn(m0, run);
      && Sized(m)
      && var w, h := m.zone.views[v], m.zone.chain.published;
         && m.inherited[v] <= w.start <= |h|
         && (h[..m.inherited[v]] + h[w.start..] == h <==> m.inherited[v] == w.start)
         && forall k | m.inherited[v] <= k < w.start :: h[k] !in Had(m, v)
  {
    ReachedOk(m0, run);
    var m := EndIn(m0, run);
    var h, w := m.zone.chain.published, m.zone.views[v];
    assert IndexOk(m, v);
    Whole(h, m.inherited[v], w.start);
    forall k | m.inherited[v] <= k < w.start
      ensures h[k] !in Had(m, v)
    {
      Missed(m, v, k);
    }
  }

  lemma Whole(h: seq<Log>, a: nat, b: nat)
    requires a <= b <= |h|
    ensures h[..a] + h[b..] == h <==> a == b
  {
    if a == b {
      assert h[..a] + h[b..] == h;
    } else {
      assert |h[..a] + h[b..]| < |h|;
    }
  }

  lemma Missed(m: Memory, v: nat, k: nat)
    requires MemoryOk(m) && v < |m.zone.views| && m.inherited[v] <= k < m.zone.views[v].start
    requires k < |m.zone.chain.published|
    ensures m.zone.chain.published[k] !in Had(m, v)
  {
    var w, h := m.zone.views[v], m.zone.chain.published;
    assert IndexOk(m, v) && ViewOk(m.zone, v);
    forall j | 0 <= j < |h| && j != k
      ensures h[j] != h[k]
    {
      Differ(m.zone, j, k);
    }
    NotBetween(h, m.inherited[v], w.start, w.Done(), k);
  }

  lemma NotBetween(h: seq<Log>, a: nat, b: nat, d: nat, k: nat)
    requires a <= k < b <= d <= |h| && forall j | 0 <= j < |h| && j != k :: h[j] != h[k]
    ensures h[k] !in h[..a] + h[b..d]
  {
  }

  lemma Differ(z: Zone, j: nat, k: nat)
    requires Inv(z) && j < |z.chain.published| && k < |z.chain.published| && j != k
    ensures z.chain.published[j] != z.chain.published[k]
  {
    assert z.chain.published[j].tag != z.chain.published[k].tag;
  }

  // ----- runs of the code -----

  lemma {:induction false} ExtendIn(m: Memory, run: seq<Step>, s: Step)
    requires RunsIn(m, run) && Possible(EndIn(m, run), s)
    ensures RunsIn(m, run + [s]) && EndIn(m, run + [s]) == After(EndIn(m, run), s)
    decreases |run|
  {
    if run == [] {
      assert run + [s] == [s];
      assert RunsIn(After(m, s), []);
    } else {
      ExtendIn(After(m, run[0]), run[1..], s);
      assert (run + [s])[1..] == run[1..] + [s];
    }
  }

  const IdA: Id := Id("a", 1)
  const RecordA: Obj := Obj(0, IdA)

  /** The action of an edit of record a, or one that is given no record. */
  function Of(a: Action): Step { Step(a, RecordA) }

  lemma StepIn(m0: Memory, run: seq<Step>, a: Action, m: Memory) returns (run': seq<Step>)
    requires RunsIn(m0, run) && Possible(EndIn(m0, run), Of(a)) && After(EndIn(m0, run), Of(a)) == m
    ensures RunsIn(m0, run') && EndIn(m0, run') == m
  {
    ExtendIn(m0, run, Of(a));
    run' := run + [Of(a)];
  }

  /** The store and the written index after names_viewpersist of the base view, when there is nothing to
      drain. */
  function Persisted(m: Memory): Memory
    requires Sized(m)
  {
    var w, c := m.zone.views[0], Copy(m.index[0], m.drafts[0], m.touched, m.past[0]);
    m.(zone := m.zone.(store := Some(Views.Store(Snapshot(0, w.applied), [], |m.zone.chain.published|))),
       saved := m.saved[0 := c], stored := c)
  }

  lemma PersistIn(m0: Memory, run: seq<Step>, m: Memory) returns (run': seq<Step>)
    requires RunsIn(m0, run) && EndIn(m0, run) == m && Sized(m) && 0 < |m.zone.chain.consumed|
    requires m.zone.views[0].phase.Idle? && !m.zone.views[0].conflict
    requires m.zone.chain.consumed[0] == |m.zone.chain.published|
    ensures RunsIn(m0, run') && EndIn(m0, run') == Persisted(m)
  {
    var z, w := m.zone, m.zone.views[0];
    var c := Copy(m.index[0], m.drafts[0], m.touched, m.past[0]);
    var polling := WithView(z, 0, w.(phase := Polling(None, false, false)));
    run' := StepIn(m0, run, Begin(0, false), m.(zone := polling));
    Drained(z);
    run' := StepIn(m0, run', Poll(0), m);
    var saving := WithView(z, 0, w.(phase := Saving(Snapshot(0, w.applied))));
    var m1 := m.(zone := saving, saved := m.saved[0 := c]);
    run' := StepIn(m0, run', Save(0), m1);
    Switched(z);
    run' := StepIn(m0, run', Switch(0), Persisted(m));
  }

  lemma Drained(z: Zone)
    requires 0 < |z.views| && 0 < |z.chain.consumed| && z.views[0].phase.Idle? && !z.views[0].conflict
    requires z.chain.consumed[0] == |z.chain.published|
    ensures var p := WithView(z, 0, z.views[0].(phase := Polling(None, false, false)));
      Enabled(p, Poll(0)) && Do(p, Poll(0)) == z
  {
    var p := WithView(z, 0, z.views[0].(phase := Polling(None, false, false)));
    assert z.chain.consumed[0 := z.chain.consumed[0]] == z.chain.consumed;
    assert p.views[0 := z.views[0]] == z.views;
  }

  lemma Switched(z: Zone)
    requires 0 < |z.views| && 0 < |z.chain.consumed| && z.views[0].phase.Idle?
    requires z.chain.consumed[0] == |z.chain.published|
    ensures var w := z.views[0];
      var s := WithView(z, 0, w.(phase := Saving(Snapshot(0, w.applied))));
      && Enabled(s, Switch(0))
      && Do(s, Switch(0)) == z.(store := Some(Views.Store(Snapshot(0, w.applied), [], |z.chain.published|)))
  {
    var w := z.views[0];
    var s := WithView(z, 0, w.(phase := Saving(Snapshot(0, w.applied))));
    assert s.views[0 := w] == z.views;
    assert z.chain.published[|z.chain.published|..] == [];
  }

  /** A zone opened on a store with record a. */
  function OneView(): Memory {
    Memory(Zone(Chain([], [0]), [View(0, [], NewLog(0), Idle, false)], Some(Views.Store(Snapshot(0, []), [], 0)), 1, {}, {}),
           [map[IdA := RecordA]], [map[]], [0], [[]], [Copy(map[], map[], {}, [])], Copy(map[IdA := RecordA], map[], {}, []),
           map[], map[], {}, {}, 1, map[IdA := RecordA])
  }

  /** A copy that is thrown away stays in the index and is saved: nothing was published,
      nothing is uncommitted, and yet the store is not what the logs make of it. */
  lemma ThrownAwaySaved() returns (m0: Memory, run: seq<Step>)
    ensures ReachedIn(m0, run)
    ensures var m := EndIn(m0, run);
      && m.zone.chain.published == [] && m.zone.store.Some?
      && |m.zone.views| == 1 && m.zone.views[0].changelog.changes == map[]
      && Next(IdA) in m.stored.drafts && m.stored.drafts[Next(IdA)] in m.zone.discarded
      && !Exact(m.stored, m.given, m.out)
  {
    m0, run := OneView(), [];
    var edited := After(m0, Of(Edit(0, Own, IdA)));
    run := StepIn(m0, run, Edit(0, Own, IdA), edited);
    var reset := After(edited, Of(Reset(0)));
    run := StepIn(m0, run, Reset(0), reset);
    run := PersistIn(m0, run, reset);
    assert Next(IdA) in reset.drafts[0];
    StoreExactly(m0, run);
  }

  /** A record that another view amends, and has not committed or never will, is saved:
      the views share it. */
  lemma AmendedElsewhereSaved() returns (m0: Memory, run: seq<Step>)
    ensures ReachedIn(m0, run)
    ensures var m := EndIn(m0, run);
      && m.zone.chain.published == [] && m.zone.store.Some?
      && |m.zone.views| == 2 && m.zone.views[0].changelog.changes == map[]
      && m.stored.drafts == map[] && !Exact(m.stored, m.given, m.out)
  {
    m0, run := OneView(), [];
    var two := After(m0, Of(Subscribe));
    run := StepIn(m0, run, Subscribe, two);
    var edited := After(two, Of(Edit(1, Amend, IdA)));
    run := StepIn(m0, run, Edit(1, Amend, IdA), edited);
    run := PersistIn(m0, run, edited);
    var m := EndIn(m0, run);
    assert Touch(RecordA, 1) in m.stored.touched;
    assert m.stored.index[IdA] == RecordA && Logs(m.stored.past) == [];
    StoreExactly(m0, run);
    assert RecordA in m.stored.index.Values && !Had1(Logs(m.stored.past), 1);
  }

  /** A removal is not in the index before it is published: with nothing but a removal uncommitted the store
      is exact. */
  lemma RemovalNotSaved() returns (m0: Memory, run: seq<Step>)
    ensures ReachedIn(m0, run)
    ensures var m := EndIn(m0, run);
      && |m.zone.views| == 1 && m.zone.views[0].changelog.changes != map[] && m.zone.store.Some?
      && Exact(m.stored, m.given, m.out)
  {
    m0, run := OneView(), [];
    var edited := After(m0, Of(Edit(0, Remove, IdA)));
    run := StepIn(m0, run, Edit(0, Remove, IdA), edited);
    run := PersistIn(m0, run, edited);
    assert IdA in edited.zone.views[0].changelog.changes;
    StoreExactly(m0, run);
  }

  /** A copy that is saved with the index and then committed is in the store twice. */
  lemma SavedTwice() returns (m0: Memory, run: seq<Step>)
    ensures ReachedIn(m0, run)
    ensures var m := EndIn(m0, run);
      && m.zone.store.Some? && |m.zone.store.value.logs| == 1
      && Next(IdA) in m.stored.drafts && m.stored.drafts[Next(IdA)] == m.zone.store.value.logs[0].tag
      && Refers(m.zone.store.value.logs[0], Next(IdA))
  {
    m0, run := OneView(), [];
    var edited := After(m0, Of(Edit(0, Own, IdA)));
    run := StepIn(m0, run, Edit(0, Own, IdA), edited);
    run := PersistIn(m0, run, edited);
    assert Next(IdA) in edited.drafts[0];
    run := Committed(m0, run, Persisted(edited));
    var l := edited.zone.views[0].changelog;
    assert IdA in l.changes && Refers(l, Next(IdA));
  }

  /** The base view commits when there is nothing to drain. */
  lemma Committed(m0: Memory, run: seq<Step>, m: Memory) returns (run': seq<Step>)
    requires RunsIn(m0, run) && EndIn(m0, run) == m && Sized(m) && 0 < |m.zone.chain.consumed|
    requires m.zone.views[0].phase.Idle? && m.zone.chain.consumed[0] == |m.zone.chain.published|
    requires m.zone.store.Some? && m.zone.store.value.logs == []
    ensures RunsIn(m0, run')
    ensures var m' := EndIn(m0, run');
      && m'.stored == m.stored
      && m'.zone.store.Some? && m'.zone.store.value.logs == [m.zone.views[0].changelog]
  {
    var begun := After(m, Of(Begin(0, true)));
    run' := StepIn(m0, run, Begin(0, true), begun);
    run' := StepIn(m0, run', Poll(0), After(begun, Of(Poll(0))));
  }

  /** A view created while the base view has a log to apply: neither the index it inherits
      nor the logs it will be handed have it. */
  lemma MissedByNewView() returns (m0: Memory, run: seq<Step>)
    ensures ReachedIn(m0, run)
    ensures var m := EndIn(m0, run);
      && |m.zone.views| == 3 == |m.inherited| && |m.zone.chain.published| == 1
      && m.inherited[2] == 0 && m.zone.views[2].start == 1
  {
    m0, run := OneView(), [];
    var two := After(m0, Of(Subscribe));
    run := StepIn(m0, run, Subscribe, two);
    var pushed;
    run, pushed := OtherAmends(m0, run, two);
    run := StepIn(m0, run, Subscribe, After(pushed, Of(Subscribe)));
  }

  /** The other of two views amends record a and commits. */
  lemma OtherAmends(m0: Memory, run: seq<Step>, m: Memory) returns (run': seq<Step>, m': Memory)
    requires RunsIn(m0, run) && EndIn(m0, run) == m && Sized(m) && m.nextSerial > 0
    requires |m.zone.views| == 2 && m.zone.chain == Chain([], [0, 0]) && m.zone.views[1].phase.Idle?
    ensures RunsIn(m0, run') && EndIn(m0, run') == m' && Sized(m') && |m'.zone.views| == 2
    ensures |m'.zone.chain.published| == 1 && |m'.zone.chain.consumed| == 2
    ensures m'.zone.views[0] == m.zone.views[0] && m'.inherited == m.inherited
  {
    var edited := After(m, Of(Edit(1, Amend, IdA)));
    run' := StepIn(m0, run, Edit(1, Amend, IdA), edited);
    var begun := After(edited, Of(Begin(1, true)));
    run' := StepIn(m0, run', Begin(1, true), begun);
    m' := After(begun, Of(Poll(1)));
    run' := StepIn(m0, run', Poll(1), m');
  }
}
