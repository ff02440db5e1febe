/**
 What the change logs on the heap hold, and the code of views.c that reads and writes it:
 edits, the comparison of a log handed out with the changes of a view, and the pass of a
 publisher over its log.  Each is a step of module Views.
 */
module LiveContents {
  import opened Common
  import opened Records
  import opened ChangeChain
  import C = CommitLog
  import V = Views
  import L = LiveZone

  function IdOf(r: Option<Record>): Option<Id> {
    if r.None? then None else Some(r.value.Identity())
  }

  /** An entry of a change log; once its publisher has passed over it, only its record
      counts. */
  predicate ShowsChange(c: C.Change, a: V.Change, done: bool) {
    if done then IdOf(c.record) == V.FinalRecord(c.key, a)
    else IdOf(c.record) == a.record && IdOf(c.prior) == if a.prior then Some(c.key) else None
  }

  /** The entries are the changes of the log, each under its own identifier. */
  ghost predicate Shows(cs: seq<C.Change>, l: V.Log, done: set<Id>) {
    && (forall i, j | 0 <= i < j < |cs| :: cs[i].key != cs[j].key)
    && (forall i | 0 <= i < |cs| :: cs[i].key in l.changes && ShowsChange(cs[i], l.changes[cs[i].key], cs[i].key in done))
    && (forall key | key in l.changes :: Filed(cs, key))
  }

  ghost predicate Filed(cs: seq<C.Change>, key: Id) {
    exists i :: 0 <= i < |cs| && cs[i].key == key
  }

  /** What the pass of a publisher makes of an entry: a removal gets its old record back,
      the same but for the deletion marker. */
  ghost predicate Resolved(before: C.Change, after: C.Change) {
    if before.record.Some? then after == before
    else
      && before.prior.Some? && after.key == before.key && after.prior.None?
      && after.record == Some(before.prior.value.(marker := 1))
  }

  /** The entries of a log as they were published, and now that its publisher has passed over
      some of them. */
  ghost predicate PassedOver(before: seq<C.Change>, now: seq<C.Change>, done: set<Id>) {
    && |now| == |before|
    && forall i | 0 <= i < |now| ::
         && now[i].key == before[i].key
         && if now[i].key in done then Resolved(before[i], now[i]) else now[i] == before[i]
  }

  /** A published log on the heap. */
  ghost predicate LogShown(now: seq<C.Change>, before: seq<C.Change>, l: V.Log, done: set<Id>) {
    Shows(now, l, done) && PassedOver(before, now, done)
  }

  /** What an edit makes of the entries: the new one, or the one filed under that record, has
      the record itself, or the copy, or NULL; the others stay. */
  ghost predicate Edited(cs: seq<C.Change>, cs': seq<C.Change>, kind: V.EditKind, record: Record, copy: Record, at: nat) {
    var key := record.Identity();
    if Filed(cs, key) then
      && |cs'| == |cs|
      && forall i | 0 <= i < |cs| ::
           cs'[i] == if cs[i].key != key then cs[i]
                     else C.Change(key, if kind.Remove? then None else Some(record), cs[i].prior)
    else
      && at <= |cs| && |cs'| == |cs| + 1 && cs'[..at] == cs[..at] && cs'[at + 1..] == cs[at..]
      && cs'[at].key == key
      && cs'[at].record == (if kind.Own? then Some(copy) else if kind.Amend? then Some(record) else None)
      && cs'[at].prior == (if kind.Place? then None else Some(record))
  }

  /** The changes of the log at place n that its publisher has passed over. */
  function DoneAt(z: V.Zone, n: nat): set<Id> {
    set p | p in z.resolved && p.0 == n :: p.1
  }

  /** names_tableget and names_tableput: where a change is filed. */
  method Find(cs: seq<C.Change>, key: Id) returns (i: nat)
    ensures i <= |cs| && (i < |cs| ==> cs[i].key == key)
    ensures i < |cs| <==> Filed(cs, key)
  {
    i := 0;
    while i < |cs| && cs[i].key != key
      invariant i <= |cs| && forall j | 0 <= j < i :: cs[j].key != key
    {
      i := i + 1;
    }
  }

  /** changed(), with what names_own makes of the record; a new entry comes to stand at
      some place in the order of the table. */
  method EnterChange(cs: seq<C.Change>, kind: V.EditKind, record: Record, copy: Record, at: nat,
                     ghost l: V.Log, ghost done: nat, ghost published: nat)
    returns (cs': seq<C.Change>)
    requires at <= |cs| && Shows(cs, l, {})
    requires kind.Own? ==> copy.Identity() == V.Next(record.Identity())
    ensures Shows(cs', V.Enter(l, kind, record.Identity(), done, published), {})
    ensures Edited(cs, cs', kind, record, copy, at)
  {
    var key := record.Identity();
    ghost var l' := V.Enter(l, kind, key, done, published);
    var i := Find(cs, key);
    if i == |cs| {
      var c;
      match kind {
        case Place => c := C.Change(key, None, None);
        case Own => c := C.Change(key, Some(copy), Some(record));
        case Amend => c := C.Change(key, Some(record), Some(record));
        case Remove => c := C.Change(key, None, Some(record));
      }
      InsertShows(cs, l, c, at, l');
      cs' := cs[..at] + [c] + cs[at..];
    } else {
      var c := cs[i].(record := if kind.Remove? then None else Some(record));
      UpdateShows(cs, l, i, c, l');
      cs' := cs[i := c];
    }
  }

  lemma InsertShows(cs: seq<C.Change>, l: V.Log, c: C.Change, at: nat, l': V.Log)
    requires at <= |cs| && Shows(cs, l, {}) && !Filed(cs, c.key)
    requires c.key in l'.changes && l'.changes == l.changes[c.key := l'.changes[c.key]]
    requires ShowsChange(c, l'.changes[c.key], false)
    ensures Shows(cs[..at] + [c] + cs[at..], l', {})
  {
    var cs' := cs[..at] + [c] + cs[at..];
    InsertAt(cs, c, at);
    StillShow(cs, l, c, l');
    forall key | key in l'.changes
      ensures Filed(cs', key)
    {
      assert key != c.key ==> Filed(cs, key);
    }
  }

  /** The entries there show what they did, and none has the new key. */
  lemma StillShow(cs: seq<C.Change>, l: V.Log, c: C.Change, l': V.Log)
    requires Shows(cs, l, {}) && !Filed(cs, c.key)
    requires c.key in l'.changes && l'.changes == l.changes[c.key := l'.changes[c.key]]
    ensures forall i | 0 <= i < |cs| ::
      cs[i].key != c.key && cs[i].key in l'.changes && ShowsChange(cs[i], l'.changes[cs[i].key], false)
  {
    forall i | 0 <= i < |cs|
      ensures cs[i].key != c.key && cs[i].key in l'.changes && ShowsChange(cs[i], l'.changes[cs[i].key], false)
    {
      assert cs[i].key == c.key ==> Filed(cs, c.key);
    }
  }

  lemma InsertAt(cs: seq<C.Change>, c: C.Change, at: nat)
    requires at <= |cs|
    ensures var cs' := cs[..at] + [c] + cs[at..];
      && |cs'| == |cs| + 1
      && (forall i | 0 <= i < |cs'| :: cs'[i] == if i < at then cs[i] else if i == at then c else cs[i - 1])
      && forall key :: Filed(cs', key) <==> Filed(cs, key) || key == c.key
  {
    var cs' := cs[..at] + [c] + cs[at..];
    forall key
      ensures Filed(cs', key) <==> Filed(cs, key) || key == c.key
    {
      if Filed(cs', key) {
        var i :| 0 <= i < |cs'| && cs'[i].key == key;
        assert i != at ==> cs[if i < at then i else i - 1].key == key;
      }
      if i :| 0 <= i < |cs| && cs[i].key == key {
        assert cs'[if i < at then i else i + 1].key == key;
      }
      assert cs'[at].key == c.key;
    }
  }

  lemma UpdateShows(cs: seq<C.Change>, l: V.Log, i: nat, c: C.Change, l': V.Log)
    requires i < |cs| && Shows(cs, l, {}) && c.key == cs[i].key
    requires c.key in l'.changes && l'.changes == l.changes[c.key := l'.changes[c.key]]
    requires ShowsChange(c, l'.changes[c.key], false)
    ensures Shows(cs[i := c], l', {})
  {
    var cs' := cs[i := c];
    forall key | key in l'.changes
      ensures Filed(cs', key)
    {
      if key == c.key {
        assert cs'[i].key == key;
      } else {
        assert Filed(cs, key);
        var j :| 0 <= j < |cs| && cs[j].key == key;
        assert cs'[j].key == key;
      }
    }
  }

  /** The publisher passes over one more change. */
  lemma PassShows(cs: seq<C.Change>, before: seq<C.Change>, l: V.Log, i: nat, c: C.Change, done: set<Id>)
    requires i < |cs| && LogShown(cs, before, l, done) && Resolved(cs[i], c)
    ensures c.key in l.changes && LogShown(cs[i := c], before, l, done + {c.key})
  {
    ResolvedShows(cs[i], c, l.changes[c.key], c.key in done);
    OneShows(cs, l, i, c, done);
    OnePasses(cs, before, i, c, done);
  }

  lemma OneShows(cs: seq<C.Change>, l: V.Log, i: nat, c: C.Change, done: set<Id>)
    requires i < |cs| && Shows(cs, l, done) && c.key == cs[i].key && c.key in l.changes
    requires ShowsChange(c, l.changes[c.key], true)
    ensures Shows(cs[i := c], l, done + {c.key})
  {
    var cs' := cs[i := c];
    forall key | key in l.changes
      ensures Filed(cs', key)
    {
      assert Filed(cs, key);
      var j :| 0 <= j < |cs| && cs[j].key == key;
      assert cs'[j].key == key;
    }
  }

  lemma OnePasses(cs: seq<C.Change>, before: seq<C.Change>, i: nat, c: C.Change, done: set<Id>)
    requires i < |cs| && PassedOver(before, cs, done) && Resolved(cs[i], c)
    requires forall k, j | 0 <= k < j < |cs| :: cs[k].key != cs[j].key
    ensures PassedOver(before, cs[i := c], done + {c.key})
  {
    var cs' := cs[i := c];
    forall j | 0 <= j < |cs'|
      ensures cs'[j].key == before[j].key
      ensures if cs'[j].key in done + {c.key} then Resolved(before[j], cs'[j]) else cs'[j] == before[j]
    {
      if j != i {
        assert cs'[j] == cs[j] && cs[j].key != cs[i].key;
      }
    }
  }

  /** A resolved entry shows the change, as the record only has a marker more. */
  lemma ResolvedShows(c: C.Change, c': C.Change, a: V.Change, done: bool)
    requires ShowsChange(c, a, done) && Resolved(c, c') && (done ==> c.record.Some?)
    ensures ShowsChange(c', a, true)
  {
  }

  /** The loop of updateview over a log handed out: a NULL record is followed, or the
      records are looked up among the changes of the view. */
  method Compare(cs: seq<C.Change>, mine: seq<C.Change>, ghost z: V.Zone, ghost handed: V.Log, ghost own: V.Log, ghost n: nat)
    returns (fault: bool, clash: bool)
    requires Shows(cs, handed, DoneAt(z, n)) && Shows(mine, own, {})
    ensures fault <==> V.NullNow(z, handed, n)
    ensures !fault ==> (clash <==> V.Clash(handed, own))
  {
    fault, clash := false, false;
    var i := 0;
    while i < |cs|
      invariant i <= |cs| && !fault
      invariant forall j | 0 <= j < i :: cs[j].record.Some?
      invariant clash <==> exists j :: 0 <= j < i && cs[j].record.Some? && cs[j].record.value.Identity() in own.changes
    {
      SeenHere(cs, z, handed, n, i);
      if cs[i].record.None? {
        fault := true;
        return;
      }
      var name := cs[i].record.value.Identity();
      var at := Find(mine, name);
      FiledIs(mine, own, name);
      if at < |mine| {
        clash := true;
      }
      i := i + 1;
    }
    NoneNull(cs, z, handed, n);
    ClashSeen(cs, z, handed, own, n);
  }

  lemma FiledIs(cs: seq<C.Change>, l: V.Log, key: Id)
    requires Shows(cs, l, {})
    ensures Filed(cs, key) <==> key in l.changes
  {
  }

  /** The entry holds the record another view sees. */
  lemma SeenHere(cs: seq<C.Change>, z: V.Zone, l: V.Log, n: nat, i: nat)
    requires Shows(cs, l, DoneAt(z, n)) && i < |cs|
    ensures cs[i].key in l.changes && IdOf(cs[i].record) == V.SeenRecord(z, l, n, cs[i].key)
    ensures cs[i].record.None? ==> V.NullNow(z, l, n)
  {
    var key := cs[i].key;
    assert key in l.changes && ShowsChange(cs[i], l.changes[key], key in DoneAt(z, n));
    if (n, key) in z.resolved {
      assert (n, key).1 in DoneAt(z, n);
    }
    if key in DoneAt(z, n) {
      var p :| p in z.resolved && p.0 == n && p.1 == key;
      assert p == (n, key);
    }
  }

  lemma NoneNull(cs: seq<C.Change>, z: V.Zone, l: V.Log, n: nat)
    requires Shows(cs, l, DoneAt(z, n)) && forall j | 0 <= j < |cs| :: cs[j].record.Some?
    ensures !V.NullNow(z, l, n)
  {
    forall key | key in l.changes
      ensures V.SeenRecord(z, l, n, key) != None
    {
      assert Filed(cs, key);
      var i :| 0 <= i < |cs| && cs[i].key == key;
      SeenHere(cs, z, l, n, i);
    }
  }

  lemma ClashSeen(cs: seq<C.Change>, z: V.Zone, handed: V.Log, own: V.Log, n: nat)
    requires Shows(cs, handed, DoneAt(z, n)) && forall j | 0 <= j < |cs| :: cs[j].record.Some?
    ensures V.Clash(handed, own) <==> exists j :: 0 <= j < |cs| && cs[j].record.Some? && cs[j].record.value.Identity() in own.changes
  {
    NoneNull(cs, z, handed, n);
    V.NotHollow(z, handed, n);
    forall j | 0 <= j < |cs|
      ensures cs[j].key in handed.changes
      ensures V.FinalRecord(cs[j].key, handed.changes[cs[j].key]) == Some(cs[j].record.value.Identity())
    {
      SeenHere(cs, z, handed, n, j);
    }
    if V.Clash(handed, own) {
      var key :| key in handed.changes
        && var r := V.FinalRecord(key, handed.changes[key]); r.Some? && r.value in own.changes;
      assert Filed(cs, key);
      var j :| 0 <= j < |cs| && cs[j].key == key;
      assert cs[j].record.value.Identity() in own.changes;
    }
  }

  function CallAction(v: nat, closing: bool): V.Action {
    if closing then V.Close(v) else V.Poll(v)
  }

  /** The zone on the heap with what its change logs hold. */
  class Contents {
    const live: L.LiveZone
    ghost var entered: seq<seq<C.Change>>   // the published logs as they were then

    /** The change logs of the views. */
    ghost predicate OwnShown()
      reads live`changelogs, live`zone, live.changelogs`changes
    {
      && |live.changelogs| == |live.zone.views|
      && forall u {:trigger live.changelogs[u]} | 0 <= u < |live.changelogs| ::
           Shows(live.changelogs[u].changes, live.zone.views[u].changelog, {})
    }

    /** The published logs that are not freed. */
    ghost predicate PublishedShown()
      reads `entered, live`zone, live.log`base, live.log`published, live.log.published`changes
    {
      && |entered| == |live.log.published| == |live.zone.chain.published|
      && forall k {:trigger live.log.published[k]} | live.log.base <= k < |live.log.published| ::
           LogShown(live.log.published[k].changes, entered[k], live.zone.chain.published[k], DoneAt(live.zone, k))
    }

    ghost predicate Valid()
      reads this, live, live.log, live.log.published, live.changelogs
    {
      live.Valid() && OwnShown() && PublishedShown()
    }

    constructor ()
      ensures Valid() && V.Initial(live.zone) && fresh(live) && fresh(live.log)
    {
      live := new L.LiveZone();
      entered := [];
    }

    /** names_place, names_own, names_amend and names_remove. */
    method Edit(v: nat, kind: V.EditKind, record: Record, copy: Record, at: nat)
      requires Valid() && V.Enabled(live.zone, V.Edit(v, kind, record.Identity()))
      requires v < |live.changelogs| && at <= |live.changelogs[v].changes|
      requires kind.Own? ==> copy.Identity() == V.Next(record.Identity())
      modifies live`zone, live.changelogs`changes
      ensures Valid() && live.zone == V.Do(old(live.zone), V.Edit(v, kind, record.Identity()))
      ensures Edited(old(live.changelogs[v].changes), live.changelogs[v].changes, kind, record, copy, at)
    {
      ghost var a := V.Edit(v, kind, record.Identity());
      ghost var z := live.zone;
      live.AllApart();
      var own := live.changelogs[v];
      var cs := EnterChange(own.changes, kind, record, copy, at, z.views[v].changelog, z.views[v].Done(), |z.chain.published|);
      EditedZone(z, a);
      Write(v, own, cs, a);
      PublishedSame(v);
      OwnEdited(v);
    }

    /** The change log of one view has changed. */
    twostate lemma OwnEdited(v: nat)
      requires old(OwnShown()) && live.changelogs == old(live.changelogs) && |live.zone.views| == |old(live.zone).views|
      requires v < |live.changelogs| && Shows(live.changelogs[v].changes, live.zone.views[v].changelog, {})
      requires forall u | 0 <= u < |live.zone.views| && u != v :: live.zone.views[u] == old(live.zone).views[u]
      requires forall u | 0 <= u < |live.changelogs| && u != v :: live.changelogs[u].changes == old(live.changelogs[u].changes)
      ensures OwnShown()
    {
      forall u | 0 <= u < |live.changelogs|
        ensures Shows(live.changelogs[u].changes, live.zone.views[u].changelog, {})
      {
        assert old(Shows(live.changelogs[u].changes, live.zone.views[u].changelog, {}));
      }
    }

    /** The history is as it was. */
    twostate lemma PublishedSame(v: nat)
      requires old(PublishedShown()) && entered == old(entered) && live.log.base == old(live.log.base) && live.log.published == old(live.log.published)
      requires live.zone.resolved == old(live.zone).resolved
      requires live.zone.chain.published == old(live.zone).chain.published
      requires forall l | l in live.log.published :: l.changes == old(l.changes)
      ensures PublishedShown()
    {
      forall k | live.log.base <= k < |live.log.published|
        ensures LogShown(live.log.published[k].changes, entered[k], live.zone.chain.published[k], DoneAt(live.zone, k))
      {
        assert old(LogShown(live.log.published[k].changes, entered[k], live.zone.chain.published[k], DoneAt(live.zone, k)));
      }
    }

    /** The change logs of the views are as they were. */
    twostate lemma OwnSame(v: nat)
      requires old(OwnShown()) && live.changelogs == old(live.changelogs) && |live.zone.views| == |old(live.zone).views|
      requires forall u | 0 <= u < |live.zone.views| :: live.zone.views[u].changelog == old(live.zone).views[u].changelog
      requires forall l | l in live.changelogs :: l.changes == old(l.changes)
      ensures OwnShown()
    {
      forall u | 0 <= u < |live.changelogs|
        ensures Shows(live.changelogs[u].changes, live.zone.views[u].changelog, {})
      {
        assert old(Shows(live.changelogs[u].changes, live.zone.views[u].changelog, {}));
      }
    }

    /** The body of the loop of updateview: the log is read from the heap, compared with the
        changes of the view, and the answer decides; or a NULL record is followed. */
    method Apply(v: nat) returns (fault: bool)
      requires Valid() && v < |live.zone.views| && live.zone.views[v].phase.Handed?
      modifies live`changelogs, live`tagOf, live`zone, live`submits, live.changelogs`freed
      ensures Valid() && v < |old(live.zone).chain.consumed|
      ensures fault <==> V.NullNow(old(live.zone), old(live.zone).views[v].phase.log, old(live.zone).chain.consumed[v])
      ensures if fault then live.zone == old(live.zone) else live.zone == V.Do(old(live.zone), V.Apply(v))
    {
      ghost var z := live.zone;
      var cs := ReadHeld(v);
      var clash;
      fault, clash := Compare(cs, live.changelogs[v].changes, z, z.views[v].phase.log, z.views[v].changelog, z.chain.consumed[v]);
      if fault {
        return;
      }
      Decide(v, clash);
    }

    /** The log of the view stays, or it is given up. */
    method Decide(v: nat, clash: bool)
      requires Valid() && V.Enabled(live.zone, V.Apply(v))
      requires clash == V.Clash(live.zone.views[v].phase.log, live.zone.views[v].changelog)
      modifies live`changelogs, live`tagOf, live`zone, live`submits, live.changelogs`freed
      ensures Valid() && live.zone == V.Do(old(live.zone), V.Apply(v))
    {
      AppliedZone(live.zone, v);
      var _ := live.Apply(v, clash);
      OwnKept(v);
      PublishedSame(v);
    }

    /** One change of the pass of a publisher over its log: a NULL record becomes the old
        record, with a deletion marker; with no old record, NULL is followed. */
    method Resolve(v: nat, i: nat) returns (fault: bool)
      requires Valid() && v < |live.zone.views| && live.zone.views[v].phase.OwnPass?
      requires v < |live.held| && live.held[v] != null && i < |live.held[v].changes|
      modifies live`zone, live.log.published`changes
      ensures Valid()
      ensures var key := old(live.held[v].changes[i].key);
        var l := old(live.zone).views[v].phase.log;
        && key in l.changes
        && (fault <==> V.FinalRecord(key, l.changes[key]) == None)
        && (if fault then live.zone == old(live.zone) else live.zone == V.Do(old(live.zone), V.Resolve(v, key)))
      ensures live.held == old(live.held)
      ensures var was, now := old(live.held[v].changes), live.held[v].changes;
        && |now| == |was| && (forall j | 0 <= j < |was| && j != i :: now[j] == was[j])
        && (fault <==> was[i].record.None? && was[i].prior.None?)
        && (fault || was[i].record.Some? ==> now[i] == was[i])
        && (!fault && was[i].record.None? ==>
              now[i] == C.Change(was[i].key, Some(was[i].prior.value.(marker := 1)), None))
    {
      var c := ReadOwn(v, i);
      if c.record.None? && c.prior.None? {
        return true;
      }
      if c.record.None? {
        c := c.(record := Some(c.prior.value.(marker := 1)), prior := None);
      }
      fault := false;
      Pass(v, i, c);
    }

    /** A change of the log a view has published. */
    method ReadOwn(v: nat, i: nat) returns (c: C.Change)
      requires Valid() && v < |live.zone.views| && live.zone.views[v].phase.OwnPass?
      requires v < |live.held| && live.held[v] != null && i < |live.held[v].changes|
      ensures v < |live.zone.chain.consumed|
      ensures var l, n := live.zone.views[v].phase.log, live.zone.chain.consumed[v];
        && c == live.held[v].changes[i] && c.key in l.changes
        && ShowsChange(c, l.changes[c.key], c.key in DoneAt(live.zone, n))
        && (c.key in DoneAt(live.zone, n) ==> V.FinalRecord(c.key, l.changes[c.key]).Some?)
    {
      live.NotFreed(v);
      assert live.HeldOk(v) && V.ViewOk(live.zone, v);
      c := live.held[v].changes[i];
    }

    /** The change is written back. */
    method Pass(v: nat, i: nat, c: C.Change)
      requires Valid() && v < |live.zone.views| && live.zone.views[v].phase.OwnPass?
      requires v < |live.held| && live.held[v] != null && i < |live.held[v].changes| && c.key == live.held[v].changes[i].key
      requires Resolved(live.held[v].changes[i], c)
      requires var l := live.zone.views[v].phase.log; c.key in l.changes && V.FinalRecord(c.key, l.changes[c.key]).Some?
      modifies live`zone, live.log.published`changes
      ensures Valid() && live.zone == V.Do(old(live.zone), V.Resolve(v, c.key))
      ensures live.held == old(live.held) && live.held[v].changes == old(live.held[v].changes)[i := c]
    {
      PassReady(v, i, c);
      ghost var n := live.zone.chain.consumed[v];
      WriteBack(v, live.held[v], n, live.held[v].changes[i := c], V.Resolve(v, c.key));
      OwnSame(v);
      PublishedPassed(n);
    }

    /** What writing a change back will bring about. */
    lemma PassReady(v: nat, i: nat, c: C.Change)
      requires Valid() && v < |live.zone.views| && live.zone.views[v].phase.OwnPass?
      requires v < |live.held| && live.held[v] != null && i < |live.held[v].changes| && c.key == live.held[v].changes[i].key
      requires Resolved(live.held[v].changes[i], c)
      requires var l := live.zone.views[v].phase.log; c.key in l.changes && V.FinalRecord(c.key, l.changes[c.key]).Some?
      ensures V.Enabled(live.zone, V.Resolve(v, c.key)) && live.held[v] !in live.changelogs
      ensures var z, z', n := live.zone, V.Do(live.zone, V.Resolve(v, c.key)), live.zone.chain.consumed[v];
        && z'.chain == z.chain && z'.views == z.views
        && n < |live.log.published| == |z.chain.published| && live.held[v] == live.log.published[n]
        && (forall k | 0 <= k < |live.log.published| && k != n :: live.log.published[k] != live.held[v])
        && (forall k | k != n :: DoneAt(z', k) == DoneAt(z, k))
        && n < |entered| && LogShown(live.held[v].changes[i := c], entered[n], z.chain.published[n], DoneAt(z', n))
    {
      HeldAlone(v);
      var z, n := live.zone, live.zone.chain.consumed[v];
      PassShows(live.held[v].changes, entered[n], z.views[v].phase.log, i, c, DoneAt(z, n));
      DoneNext(z, n, c.key);
    }

    /** The log a publisher passes over is in the history once, and is no view's own. */
    lemma HeldAlone(v: nat)
      requires live.Valid() && PublishedShown()
      requires v < |live.zone.views| && live.zone.views[v].phase.OwnPass? && v < |live.held|
      ensures v < |live.zone.chain.consumed| && live.held[v] != null && live.held[v] !in live.changelogs
      ensures var n := live.zone.chain.consumed[v];
        && n < |live.log.published| && live.held[v] == live.log.published[n]
        && (forall k | 0 <= k < |live.log.published| && k != n :: live.log.published[k] != live.held[v])
        && n < |live.zone.chain.published| && live.zone.chain.published[n] == live.zone.views[v].phase.log
        && n < |entered| && LogShown(live.held[v].changes, entered[n], live.zone.views[v].phase.log, DoneAt(live.zone, n))
    {
      live.NotFreed(v);
      live.AllApart();
      assert live.HeldOk(v) && V.ViewOk(live.zone, v);
    }

    /** The entries of a view's own log are written. */
    method Write(v: nat, own: C.Changelog, changes: seq<C.Change>, ghost a: V.Action)
      requires live.Valid() && V.Enabled(live.zone, a) && a.Edit? && a.v == v
      requires v < |live.changelogs| && own == live.changelogs[v]
      modifies live`zone, own`changes
      ensures live.Valid() && live.zone == V.Do(old(live.zone), a) && own.changes == changes
    {
      own.changes := changes;
      live.Work(v, a);
    }

    method WriteBack(v: nat, own: C.Changelog, ghost n: nat, changes: seq<C.Change>, ghost a: V.Action)
      requires live.Valid() && V.Enabled(live.zone, a) && a.Resolve? && a.v == v
      requires n < |live.log.published| && own == live.log.published[n] && own !in live.changelogs
      requires forall k | 0 <= k < |live.log.published| && k != n :: live.log.published[k] != own
      modifies live`zone, own`changes
      ensures live.Valid() && live.zone == V.Do(old(live.zone), a) && own.changes == changes
    {
      own.changes := changes;
      live.Work(v, a);
    }

    /** One log of the history has changed, as its publisher has passed over a change. */
    twostate lemma PublishedPassed(n: nat)
      requires old(PublishedShown()) && entered == old(entered) && live.log.base == old(live.log.base) && live.log.published == old(live.log.published)
      requires live.zone.chain == old(live.zone).chain && n < |live.log.published|
      requires forall k | 0 <= k < |live.log.published| && k != n ::
        live.log.published[k].changes == old(live.log.published[k].changes) && DoneAt(live.zone, k) == DoneAt(old(live.zone), k)
      requires n < |live.zone.chain.published|
      requires LogShown(live.log.published[n].changes, entered[n], live.zone.chain.published[n], DoneAt(live.zone, n))
      ensures PublishedShown()
    {
      forall k | live.log.base <= k < |live.log.published|
        ensures LogShown(live.log.published[k].changes, entered[k], live.zone.chain.published[k], DoneAt(live.zone, k))
      {
        assert old(LogShown(live.log.published[k].changes, entered[k], live.zone.chain.published[k], DoneAt(live.zone, k)));
      }
    }

    /** Entering updateview. */
    method Begin(v: nat, submit: bool)
      requires Valid() && V.Enabled(live.zone, V.Begin(v, submit))
      modifies live`held, live`submits, live`zone
      ensures Valid() && live.zone == V.Do(old(live.zone), V.Begin(v, submit))
    {
      QuietZone(live.zone, V.Begin(v, submit));
      live.Begin(v, submit);
      OwnSame(v);
      PublishedSame(v);
    }

    /** The log at the cursor of a view is, entry by entry, what was published, but every
        removal is a marked copy of its old record. */
    ghost predicate AllPassed(v: nat, now: seq<C.Change>)
      reads `entered, live`zone
    {
      && v < |live.zone.chain.consumed| && live.zone.chain.consumed[v] < |entered|
      && var before := entered[live.zone.chain.consumed[v]];
         |now| == |before| && forall i | 0 <= i < |now| :: Resolved(before[i], now[i])
    }

    /** When the publisher has passed over all changes. */
    lemma PassEnds(v: nat)
      requires Valid() && V.Enabled(live.zone, V.PassOwn(v)) && v < |live.held|
      ensures live.held[v] != null && AllPassed(v, live.held[v].changes)
    {
      HeldAlone(v);
      var n, l, now := live.zone.chain.consumed[v], live.zone.views[v].phase.log, live.held[v].changes;
      forall i | 0 <= i < |now|
        ensures now[i].key in DoneAt(live.zone, n)
      {
        assert now[i].key in l.changes && (n, now[i].key) in live.zone.resolved;
        assert (n, now[i].key).1 in DoneAt(live.zone, n);
      }
    }

    /** The end of the pass of a publisher, and the writing of the index. */
    method Finish(v: nat, ghost a: V.Action)
      requires Valid() && V.Enabled(live.zone, a) && (a.PassOwn? || a.Save?) && a.v == v
      modifies live`zone
      ensures Valid() && live.zone == V.Do(old(live.zone), a)
      ensures a.PassOwn? ==> v < |live.held| && live.held[v] != null && AllPassed(v, live.held[v].changes)
    {
      QuietZone(live.zone, a);
      if a.PassOwn? {
        PassEnds(v);
      }
      live.Work(v, a);
      OwnSame(v);
      PublishedSame(v);
    }

    /** resetchangelog. */
    method Reset(v: nat)
      requires Valid() && V.Enabled(live.zone, V.Reset(v))
      modifies live`changelogs, live`tagOf, live`zone, live.changelogs`freed
      ensures Valid() && live.zone == V.Do(old(live.zone), V.Reset(v))
    {
      ResetZone(live.zone, v);
      live.Reset(v);
      forall u | 0 <= u < |live.changelogs|
        ensures Shows(live.changelogs[u].changes, live.zone.views[u].changelog, {})
      {
        assert u != v ==> old(Shows(live.changelogs[u].changes, live.zone.views[u].changelog, {}));
      }
      forall k | live.log.base <= k < |live.log.published|
        ensures LogShown(live.log.published[k].changes, entered[k], live.zone.chain.published[k], DoneAt(live.zone, k))
      {
        assert old(LogShown(live.log.published[k].changes, entered[k], live.zone.chain.published[k], DoneAt(live.zone, k)));
      }
    }

    /** The two calls of poppush.  A log that is published is written to the store in the
        same step, as it is on the heap then. */
    method Call(v: nat, closing: bool) returns (more: bool)
      requires Valid() && V.Enabled(live.zone, CallAction(v, closing))
      modifies live`changelogs, live`held, live`zone, live`tagOf, live.log
      modifies `entered
      modifies live.log.published`next, live.log.published`freed, live.log.store
      ensures Valid() && live.zone == V.Do(old(live.zone), CallAction(v, closing))
      ensures more == V.CallPopPush(old(live.zone), v).1.more
      ensures live.Wrote(v, V.CallPopPush(old(live.zone), v).1.pushed, old(live.changelogs), old(live.log.published),
                         old(live.Own(v)), old(live.Items()))
      ensures entered == old(entered) + if V.CallPopPush(old(live.zone), v).1.pushed then [old(live.Own(v))] else []
    {
      CalledZone(live.zone, v, closing);
      more := CallTo(v, closing, V.Do(live.zone, CallAction(v, closing)), V.CallPopPush(live.zone, v).1.pushed);
    }

    method CallTo(v: nat, closing: bool, ghost done: V.Zone, ghost pushed: bool) returns (more: bool)
      requires Valid() && Calls(live.zone, v, closing, done, pushed)
      modifies live`changelogs, live`held, live`zone, live`tagOf, live.log
      modifies `entered
      modifies live.log.published`next, live.log.published`freed, live.log.store
      ensures Valid() && live.zone == done
      ensures more == V.CallPopPush(old(live.zone), v).1.more
      ensures live.Wrote(v, pushed, old(live.changelogs), old(live.log.published), old(live.Own(v)), old(live.Items()))
      ensures entered == old(entered) + if pushed then [old(live.Own(v))] else []
    {
      ghost var z, base := live.zone, live.log.base;
      more := CallLive(v, closing, done, pushed);
      BaseGrows(z, done, base);
      OwnKept(v);
      PublishedKept(v);
    }

    method CallLive(v: nat, closing: bool, ghost done: V.Zone, ghost pushed: bool) returns (more: bool)
      requires live.Valid() && Calls(live.zone, v, closing, done, pushed)
      modifies live`changelogs, live`held, live`zone, live`tagOf, live.log
      modifies `entered
      modifies live.log.published`next, live.log.published`freed, live.log.store
      ensures live.Valid() && live.zone == done
      ensures more == V.CallPopPush(old(live.zone), v).1.more
      ensures live.Wrote(v, pushed, old(live.changelogs), old(live.log.published), old(live.Own(v)), old(live.Items()))
      ensures entered == old(entered) + if pushed then [old(live.Own(v))] else []
    {
      entered := entered + if pushed then [live.Own(v)] else [];
      if closing {
        more := live.Close(v);
      } else {
        more := live.Poll(v);
      }
    }

    /** After a call every view has its change log, or a new one. */
    twostate lemma OwnKept(v: nat)
      requires old(OwnShown()) && v < |live.changelogs| == |old(live.changelogs)| == |live.zone.views| == |old(live.zone).views|
      requires forall u | 0 <= u < |live.changelogs| && u != v :: live.changelogs[u] == old(live.changelogs)[u]
      requires forall u | 0 <= u < |live.zone.views| && u != v :: live.zone.views[u] == old(live.zone).views[u]
      requires forall l | l in old(live.changelogs) :: l.changes == old(l.changes)
      requires
        || (live.changelogs[v] == old(live.changelogs)[v] && live.zone.views[v].changelog == old(live.zone).views[v].changelog)
        || (live.changelogs[v].changes == [] && live.zone.views[v].changelog.changes == map[])
      ensures OwnShown()
    {
      forall u | 0 <= u < |live.changelogs|
        ensures Shows(live.changelogs[u].changes, live.zone.views[u].changelog, {})
      {
        assert old(Shows(live.changelogs[u].changes, live.zone.views[u].changelog, {}));
      }
    }

    /** After a call the history is as it was, or ends with the change log of the view. */
    twostate lemma PublishedKept(v: nat)
      requires old(OwnShown()) && old(PublishedShown()) && v < |old(live.changelogs)| == |old(live.zone).views|
      requires old(live.log.base) <= live.log.base && live.zone.resolved == old(live.zone).resolved
      requires forall l | l in old(live.log.published) :: l.changes == old(l.changes)
      requires old(live.changelogs)[v].changes == old(live.changelogs[v].changes)
      requires
        || (live.log.published == old(live.log.published) && entered == old(entered)
            && live.zone.chain.published == old(live.zone).chain.published)
        || (live.log.published == old(live.log.published) + [old(live.changelogs)[v]]
            && entered == old(entered) + [old(live.changelogs[v].changes)]
            && live.zone.chain.published == old(live.zone).chain.published + [old(live.zone).views[v].changelog]
            && DoneAt(live.zone, |old(live.log.published)|) == {})
      ensures PublishedShown()
    {
      forall k | live.log.base <= k < |live.log.published|
        ensures LogShown(live.log.published[k].changes, entered[k], live.zone.chain.published[k], DoneAt(live.zone, k))
      {
        if k < |old(live.log.published)| {
          assert live.log.published[k] == old(live.log.published)[k];
          assert old(LogShown(live.log.published[k].changes, entered[k], live.zone.chain.published[k], DoneAt(live.zone, k)));
        } else {
          assert old(Shows(live.changelogs[v].changes, live.zone.views[v].changelog, {}));
        }
      }
    }

    /** No view goes back, so that no freed log comes back. */
    lemma BaseGrows(z: V.Zone, done: V.Zone, base: nat)
      requires live.Valid() && live.zone == done && |done.chain.consumed| == |z.chain.consumed|
      requires forall u | 0 <= u < |z.chain.consumed| :: base <= z.chain.consumed[u] <= done.chain.consumed[u]
      ensures base <= live.log.base
    {
      var u :| 0 <= u < |live.log.consumed| && live.log.consumed[u] == live.log.base;
      assert z.chain.consumed[u] <= live.log.consumed[u];
    }

    /** A new view. */
    method Subscribe() returns (viewid: nat)
      requires Valid()
      modifies live`changelogs, live`held, live`submits, live`zone, live`tagOf, live.log
      ensures Valid() && live.zone == V.Do(old(live.zone), V.Subscribe) && viewid == |old(live.zone).views|
    {
      ghost var n := |live.changelogs|;
      JoinedZone(live.zone);
      viewid := live.Subscribe();
      OwnJoined(n);
      PublishedSame(n);
    }

    /** The views have their change logs, and the new one a new log. */
    twostate lemma OwnJoined(n: nat)
      requires old(OwnShown()) && n == |old(live.changelogs)| && |live.changelogs| == |live.zone.views| == n + 1
      requires live.changelogs[..n] == old(live.changelogs)
      requires forall u | 0 <= u < n :: live.zone.views[u] == old(live.zone).views[u]
      requires forall l | l in old(live.changelogs) :: l.changes == old(l.changes)
      requires live.changelogs[n].changes == [] && live.zone.views[n].changelog.changes == map[]
      ensures OwnShown()
    {
      forall u | 0 <= u < |live.changelogs|
        ensures Shows(live.changelogs[u].changes, live.zone.views[u].changelog, {})
      {
        if u < n {
          assert live.changelogs[u] == old(live.changelogs)[u];
          assert old(Shows(live.changelogs[u].changes, live.zone.views[u].changelog, {}));
        }
      }
    }

    /** The switch to a new store: it gets the logs the view has not finished with, as they
        are on the heap then. */
    method Switch(v: nat, newstore: C.Store) returns (oldstore: C.Store?)
      requires Valid() && V.Enabled(live.zone, V.Switch(v))
      modifies live`zone, live.log`store, newstore
      ensures Valid() && live.zone == V.Do(old(live.zone), V.Switch(v)) && live.log.store == newstore
      ensures v < |live.log.consumed| && live.log.consumed[v] <= |live.log.published|
      ensures newstore.items == old(newstore.items) + live.log.PersistedLogs(live.log.consumed[v], |live.log.published|)
    {
      QuietZone(live.zone, V.Switch(v));
      oldstore := live.Switch(v, newstore);
      OwnSame(v);
      PublishedSame(v);
    }

    /** The log in hand is the one its cursor is at, and is not freed. */
    method ReadHeld(v: nat) returns (cs: seq<C.Change>)
      requires Valid() && v < |live.zone.views| && live.zone.views[v].phase.Handed?
      ensures v < |live.zone.chain.consumed| && v < |live.changelogs|
      ensures Shows(cs, live.zone.views[v].phase.log, DoneAt(live.zone, live.zone.chain.consumed[v]))
      ensures Shows(live.changelogs[v].changes, live.zone.views[v].changelog, {})
    {
      live.NotFreed(v);
      assert live.HeldOk(v) && V.ViewOk(live.zone, v);
      cs := live.Read(live.held[v]);
    }
  }

  /** What an edit changes in the state machine. */
  lemma EditedZone(z: V.Zone, a: V.Action)
    requires V.Enabled(z, a) && a.Edit?
    ensures var z' := V.Do(z, a);
      && z'.chain == z.chain && z'.resolved == z.resolved && |z'.views| == |z.views|
      && (forall u | 0 <= u < |z.views| && u != a.v :: z'.views[u] == z.views[u])
      && z'.views[a.v].changelog ==
           V.Enter(z.views[a.v].changelog, a.kind, a.id, z.views[a.v].Done(), |z.chain.published|)
  {
  }

  /** What applying a log changes. */
  lemma AppliedZone(z: V.Zone, v: nat)
    requires V.Inv(z) && V.Enabled(z, V.Apply(v))
    ensures var z' := V.Do(z, V.Apply(v));
      && z'.chain == z.chain && z'.resolved == z.resolved && |z'.views| == |z.views|
      && (forall u | 0 <= u < |z.views| && u != v :: z'.views[u] == z.views[u])
      && z'.views[v].changelog ==
           if V.Clash(z.views[v].phase.log, z.views[v].changelog) then V.NewLog(z.nextTag) else z.views[v].changelog
  {
    assert V.ViewOk(z, v);
  }

  lemma DoneNext(z: V.Zone, n: nat, key: Id)
    ensures var z' := z.(resolved := z.resolved + {(n, key)});
      && DoneAt(z', n) == DoneAt(z, n) + {key}
      && forall k | k != n :: DoneAt(z', k) == DoneAt(z, k)
  {
    var z' := z.(resolved := z.resolved + {(n, key)});
    forall k, x
      ensures x in DoneAt(z', k) <==> x in DoneAt(z, k) || (k == n && x == key)
    {
      if x in DoneAt(z, k) {
        var p :| p in z.resolved && p.0 == k && p.1 == x;
        assert p in z'.resolved;
      }
      if k == n && x == key {
        assert (n, key) in z'.resolved && (n, key).1 == x;
      }
    }
  }

  lemma QuietZone(z: V.Zone, a: V.Action)
    requires V.Enabled(z, a) && (a.Begin? || a.PassOwn? || a.Save? || a.Switch?)
    ensures var z' := V.Do(z, a);
      && z'.chain == z.chain && z'.resolved == z.resolved && |z'.views| == |z.views|
      && forall u | 0 <= u < |z.views| :: z'.views[u].changelog == z.views[u].changelog
  {
  }

  lemma ResetZone(z: V.Zone, v: nat)
    requires V.Enabled(z, V.Reset(v))
    ensures var z' := V.Do(z, V.Reset(v));
      && z'.chain == z.chain && z'.resolved == z.resolved && |z'.views| == |z.views|
      && (forall u | 0 <= u < |z.views| && u != v :: z'.views[u] == z.views[u])
      && z'.views[v].changelog == V.NewLog(z.nextTag)
  {
  }

  /** What a call of poppush changes. */
  ghost predicate Calls(z: V.Zone, v: nat, closing: bool, z': V.Zone, pushed: bool) {
    var h := z.chain.published;
    && V.Enabled(z, CallAction(v, closing)) && z' == V.Do(z, CallAction(v, closing))
    && v < |z.views| && v < |z.chain.consumed| && pushed == V.CallPopPush(z, v).1.pushed
    && z'.resolved == z.resolved && |z'.views| == |z.views|
    && (forall u | 0 <= u < |z.views| && u != v :: z'.views[u] == z.views[u])
    && z'.views[v].changelog == (if pushed then V.NewLog(z.nextTag) else z.views[v].changelog)
    && z'.chain.published == (if pushed then h + [z.views[v].changelog] else h)
    && |z'.chain.consumed| == |z.chain.consumed|
    && (forall u | 0 <= u < |z.chain.consumed| :: z.chain.consumed[u] <= z'.chain.consumed[u])
    && DoneAt(z', |h|) == {}
  }

  lemma CalledZone(z: V.Zone, v: nat, closing: bool)
    requires V.Inv(z) && V.Enabled(z, CallAction(v, closing))
    ensures Calls(z, v, closing, V.Do(z, CallAction(v, closing)), V.CallPopPush(z, v).1.pushed)
  {
    V.CallHistory(z, v);
    assert V.ViewOk(z, v);
  }

  lemma JoinedZone(z: V.Zone)
    requires V.Enabled(z, V.Subscribe)
    ensures var z' := V.Do(z, V.Subscribe);
      && z'.resolved == z.resolved && z'.chain.published == z.chain.published && |z'.views| == |z.views| + 1
      && (forall u | 0 <= u < |z.views| :: z'.views[u] == z.views[u])
      && z'.views[|z.views|].changelog == V.NewLog(z.nextTag)
  {
  }
}
