/**
 commitlog.c: the linked list of change logs shared by the views of a zone, with
 one cursor per view.  The mutex makes each method one atomic step.
 */
module CommitLog {
  import opened Common
  import opened Records
  import opened ChangeChain

  /** One entry of a change log, filed under an identifier; a NULL record is a removal. */
  datatype Change = Change(key: Id, record: Option<Record>, prior: Option<Record>)

  /** A change log: its changes in key order, and the link to the next log.
      `freed` says that its memory has been given back. */
  class Changelog {
    var next: Changelog?
    var changes: seq<Change>
    ghost var freed: bool

    /** names_tablecreate */
    constructor ()
      ensures next == null && changes == [] && !freed
    {
      next, changes, freed := null, [], false;
    }

    /** Following the link of a log is only allowed while it is not freed. */
    function Next(): Changelog?
      requires !freed
      reads this
    {
      next
    }

    /** names_commitlogdestroy */
    ghost method Destroy()
      requires !freed
      modifies `freed
      ensures freed
    {
      freed := true;
    }
  }

  /** What is written to a store: records, each log closed by a NULL record. */
  function PersistedForm(changes: seq<Change>): seq<Option<Record>> {
    seq(|changes|, i requires 0 <= i < |changes| => changes[i].record) + [None]
  }

  /** What a log adds to a store: the new record of every change, in order, and a NULL. */
  ghost predicate Added(items: seq<Option<Record>>, before: seq<Option<Record>>, changes: seq<Change>) {
    && |items| == |before| + |changes| + 1
    && items[..|before|] == before
    && (forall k | 0 <= k < |changes| :: items[|before| + k] == changes[k].record)
    && items[|before| + |changes|] == None
  }

  lemma FormAdded(before: seq<Option<Record>>, changes: seq<Change>)
    ensures Added(before + PersistedForm(changes), before, changes)
  {
    var items := before + PersistedForm(changes);
    forall k | 0 <= k < |changes|
      ensures items[|before| + k] == changes[k].record
    {
      assert items[|before| + k] == PersistedForm(changes)[k];
    }
  }

  lemma AddedForm(items: seq<Option<Record>>, before: seq<Option<Record>>, changes: seq<Change>)
    requires Added(items, before, changes)
    ensures items == before + PersistedForm(changes)
  {
    assert items == items[..|before|] + items[|before|..];
    assert items[|before|..] == PersistedForm(changes);
  }

  /** Several logs, one behind the other. */
  ghost predicate AllAdded(items: seq<Option<Record>>, before: seq<Option<Record>>, logs: seq<seq<Change>>)
    decreases |logs|
  {
    if logs == [] then items == before
    else
      var last := logs[|logs| - 1];
      && |last| < |items|
      && Added(items, items[..|items| - |last| - 1], last)
      && AllAdded(items[..|items| - |last| - 1], before, logs[..|logs| - 1])
  }

  lemma OneMoreAdded(items: seq<Option<Record>>, mid: seq<Option<Record>>, before: seq<Option<Record>>,
                     logs: seq<seq<Change>>, changes: seq<Change>)
    requires AllAdded(mid, before, logs) && Added(items, mid, changes)
    ensures AllAdded(items, before, logs + [changes])
  {
    assert (logs + [changes])[..|logs|] == logs;
    assert items[..|items| - |changes| - 1] == mid;
  }

  /** Reading a persisted log up to the first NULL gives the whole log exactly when it has
      no NULL record, that is, no removal. */
  lemma EndsAtFirstNull(changes: seq<Change>)
    ensures var form := PersistedForm(changes);
      && form[|form| - 1] == None
      && ((forall i | 0 <= i < |form| - 1 :: form[i] != None) <==> forall c | c in changes :: c.record != None)
  {
    var form := PersistedForm(changes);
    forall c | c in changes
      ensures exists i :: 0 <= i < |form| - 1 && form[i] == c.record
    {
      var i :| 0 <= i < |changes| && changes[i] == c;
      assert form[i] == c.record;
    }
    assert forall i | 0 <= i < |changes| :: changes[i] in changes && form[i] == changes[i].record;
  }

  /** The store handle: everything handed to names_recordmarshall so far. */
  class Store {
    var items: seq<Option<Record>>

    constructor ()
      ensures items == []
    {
      items := [];
    }

    /** persistfn of views.c */
    method Persist(log: Changelog)
      requires !log.freed
      modifies this
      ensures items == old(items) + PersistedForm(log.changes)
      ensures Added(items, old(items), log.changes)
    {
      var i, n := 0, |log.changes|;
      ghost var form := PersistedForm(log.changes);
      while i < n
        invariant i <= n
        invariant items == old(items) + form[..i]
      {
        items := items + [log.changes[i].record];
        i := i + 1;
      }
      items := items + [None];
      assert form == form[..n] + [None];
      FormAdded(old(items), log.changes);
    }

    /** One more log behind several. */
    method PersistNext(log: Changelog, ghost before: seq<Option<Record>>, ghost logs: seq<seq<Change>>)
      requires !log.freed && AllAdded(items, before, logs)
      modifies this
      ensures AllAdded(items, before, logs + [log.changes])
    {
      Persist(log);
      OneMoreAdded(items, old(items), before, logs, log.changes);
    }
  }

  ghost predicate Distinct<T>(s: seq<T>) {
    forall i, j | 0 <= i < j < |s| :: s[i] != s[j]
  }

  ghost function FromRef(log: Changelog?): Option<Changelog> {
    if log == null then None else Some(log)
  }

  /** The k-th published log, or NULL past the end. */
  ghost function At(published: seq<Changelog>, k: nat): Changelog? {
    if k < |published| then published[k] else null
  }

  class CommitLog {
    var cursors: seq<Changelog?>
    var first: Changelog?
    var last: Changelog?
    var store: Store?
    ghost var published: seq<Changelog>
    ghost var consumed: seq<nat>
    ghost var base: nat

    ghost function History(): Chain<Changelog>
      reads this
    {
      Chain(published, consumed)
    }

    /** The list holds exactly the logs from the slowest view onward, linked in
        publication order; all earlier logs, and no others, are freed. */
    ghost predicate Valid()
      reads this, published`next, published`freed
    {
      && |cursors| == |consumed|
      && Distinct(published)
      && base in consumed
      && (forall v | 0 <= v < |consumed| :: base <= consumed[v] <= |published|)
      && (forall v | 0 <= v < |consumed| :: cursors[v] == At(published, consumed[v]))
      && first == At(published, base)
      && last == (if base < |published| then published[|published| - 1] else null)
      && (forall k {:trigger published[k].freed} | 0 <= k < |published| :: published[k].freed == (k < base))
      && (forall k {:trigger published[k].next} | base <= k < |published| :: published[k].next == At(published, k + 1))
    }

    /** What Valid means for the history: the list is what it calls retained. */
    lemma ValidHistory()
      requires Valid()
      ensures History().WellFormed() && History().Base() == base
      ensures History().Retained() == published[base..]
      ensures forall l | l in published :: l.freed <==> l !in History().Retained()
    {
      LeastIs(consumed, base);
      forall l | l in published
        ensures l.freed <==> l !in published[base..]
      {
        var k :| 0 <= k < |published| && published[k] == l;
        if k >= base {
          assert published[base..][k - base] == l;
        }
      }
    }

    /** names_commitlogsubscribe on a missing commit log */
    constructor ()
      ensures Valid() && store == null
      ensures History() == Chain([], [0])
    {
      cursors, first, last, store := [null], null, null, null;
      published, consumed, base := [], [0], 0;
    }

    /** names_commitlogsubscribe on an existing commit log */
    method Subscribe() returns (viewid: nat)
      requires Valid()
      modifies this
      ensures Valid() && store == old(store)
      ensures viewid == |old(cursors)| && base == old(base)
      ensures History() == ChangeChain.Subscribe(old(History()))
    {
      viewid := |cursors|;
      cursors := cursors + [null];
      consumed := consumed + [|published|];
    }

    /** The loops over the views that look for a cursor still at a log. */
    method FindCursor(log: Changelog?) returns (i: nat)
      ensures i <= |cursors|
      ensures i < |cursors| ==> cursors[i] == log
      ensures forall v | 0 <= v < i :: cursors[v] != log
    {
      i := 0;
      while i < |cursors|
        invariant i <= |cursors|
        invariant forall v | 0 <= v < i :: cursors[v] != log
      {
        if cursors[i] == log {
          break;
        }
        i := i + 1;
      }
    }

    /** Drop the first log of the list when no cursor is at it. */
    method Reclaim()
      requires first != null && !first.freed
      modifies this`first, this`last, first`freed
      ensures if old(first) in cursors then
                first == old(first) && last == old(last) && first.freed == old(first.freed)
              else
                first == old(first.next) && old(first).freed
                && last == if first == null then null else old(last)
    {
      var i := FindCursor(first);
      if i == |cursors| {
        var dropped := first;
        first := first.Next();
        if first == null {
          last := null;
        }
        dropped.Destroy();
      }
    }

    /** names_commitlogrelease frees nothing in any reachable state. */
    method Release(log: Changelog?)
      requires Valid()
      modifies this`first, this`last, published
      ensures Valid()
      ensures first == old(first) && last == old(last)
      ensures forall l | l in published :: l.freed == old(l.freed) && l.next == old(l.next) && l.changes == old(l.changes)
    {
      if log == first {
        ghost var v :| 0 <= v < |consumed| && consumed[v] == base;
        assert cursors[v] == first;
        var i := FindCursor(log);
        assert i < |cursors|;
      }
    }

    /** Give back the log a view was handed and step its cursor. */
    method Advance(viewid: nat, previous: Changelog)
      requires Valid() && viewid < |cursors|
      requires cursors[viewid] == previous
      modifies this`cursors, this`first, this`last, this`consumed, this`base, previous`freed
      ensures Valid()
      ensures consumed == old(consumed)[viewid := old(consumed)[viewid] + 1]
    {
      ghost var n := consumed[viewid];
      assert previous == published[n] && previous.next == At(published, n + 1);
      cursors := cursors[viewid := previous.Next()];
      consumed := consumed[viewid := n + 1];
      if previous == first {
        assert n == base;
        Reclaim();
        if previous !in cursors {
          base := base + 1;
          assert consumed[viewid] == base;
          forall v | 0 <= v < |consumed|
            ensures base <= consumed[v]
          {
            assert cursors[v] == At(published, consumed[v]);
          }
        } else {
          ghost var v :| 0 <= v < |cursors| && cursors[v] == previous;
          assert consumed[v] == base;
        }
      } else {
        ghost var v :| 0 <= v < |consumed| && old(consumed)[v] == base;
        assert consumed[v] == base;
      }
    }

    /** Append a log; every view that was caught up now has it pending. */
    method Append(viewid: nat, log: Changelog)
      requires Valid() && viewid < |cursors| && cursors[viewid] == null
      requires log !in published && !log.freed && log.next == null
      modifies this`cursors, this`first, this`last, this`published, published`next
      ensures Valid()
      ensures published == old(published) + [log]
    {
      if first == null {
        assert last == null;
        first, last := log, log;
      } else {
        assert last != log;
        last.next := log;
        last := log;
      }
      var i := 0;
      while i < |cursors|
        invariant i <= |cursors| == |old(cursors)|
        invariant forall v | 0 <= v < i :: cursors[v] == if old(cursors)[v] == null then log else old(cursors)[v]
        invariant forall v | i <= v < |cursors| :: cursors[v] == old(cursors)[v]
        modifies this`cursors
      {
        if i != viewid {
          if cursors[i] == null {
            cursors := cursors[i := log];
          }
        } else {
          assert cursors[viewid] == null;
          cursors := cursors[i := log];
        }
        i := i + 1;
      }
      published := published + [log];
    }

    /** The part of poppush that publishes: the caller is caught up. */
    method Push(viewid: nat, log: Changelog) returns (next: Changelog)
      requires Valid() && viewid < |cursors| && cursors[viewid] == null
      requires log !in published && !log.freed && log.next == null
      modifies this`cursors, this`first, this`last, this`published, published`next, store
      ensures Valid()
      ensures published == old(published) + [log]
      ensures fresh(next) && next.changes == [] && next.next == null && !next.freed
      ensures store != null ==>
        store.items == old(store.items) + PersistedForm(log.changes) && Added(store.items, old(store.items), log.changes)
    {
      next := new Changelog();
      Append(viewid, log);
      PersistIncrement(log);
    }

    /** names_commitlogpoppush */
    method PopPush(viewid: nat, previous: Changelog?, submit: Changelog?)
      returns (more: bool, handed: Changelog?, submit': Changelog?)
      requires Valid() && viewid < |cursors|
      requires History().WellFormed() && Discipline(History(), viewid, FromRef(previous), FromRef(submit))
      requires submit != null ==> !submit.freed && submit.next == null
      modifies this`cursors, this`first, this`last, this`published, this`consumed, this`base
      modifies published`next, published`freed, store
      ensures Valid()
      ensures var o := ChangeChain.PopPush(old(History()), viewid, FromRef(previous), FromRef(submit));
        && History() == o.chain && more == o.more && FromRef(handed) == o.handed
        && (if o.pushed then fresh(submit') && submit'.changes == [] && submit'.next == null && !submit'.freed
            else submit' == submit)
        && (store != null ==>
              store.items == old(store.items) + if o.pushed then PersistedForm(submit.changes) else [])
        && (store != null && o.pushed ==> Added(store.items, old(store.items), submit.changes))
    {
      ValidHistory();
      assert submit == null || submit !in published;
      submit' := submit;
      var popped := cursors[viewid];
      assert popped == At(published, consumed[viewid]);
      if popped != null {
        if previous != null {
          assert previous == popped;
          Advance(viewid, previous);
          popped := cursors[viewid];
          assert popped == At(published, consumed[viewid]);
          // The branch for a submitted log that is already next in the list is never taken.
          assert submit == null || popped != submit;
        }
        handed := popped;
      } else {
        handed := null;
      }
      if handed == null {
        if submit != null {
          handed := submit;
          submit' := Push(viewid, submit);
        }
        more := false;
      } else {
        more := true;
      }
    }

    /** names_commitlogpersistincr */
    method PersistIncrement(log: Changelog)
      requires !log.freed
      modifies store
      ensures store != null ==>
        store.items == old(store.items) + PersistedForm(log.changes) && Added(store.items, old(store.items), log.changes)
    {
      if store == null {
        return;
      }
      store.Persist(log);
    }

    /** names_commitlogpersistappend: what is published from now on goes to the store. */
    method PersistAppend(newstore: Store?)
      requires Valid()
      modifies this`store
      ensures store == newstore && Valid() && History() == old(History())
    {
      store := newstore;
    }

    /** The published logs from the k-th up to `end`, as written to a store. */
    ghost function PersistedLogs(k: nat, end: nat): seq<Option<Record>>
      requires k <= end <= |published|
      reads `published, published`changes
    {
      if k == end then [] else PersistedLogs(k, end - 1) + PersistedForm(published[end - 1].changes)
    }

    /** What these logs hold, in order. */
    ghost function LogsOf(k: nat, end: nat): seq<seq<Change>>
      requires k <= end <= |published|
      reads `published, published`changes
    {
      if k == end then [] else LogsOf(k, end - 1) + [published[end - 1].changes]
    }

    lemma {:induction false} LogsAdded(items: seq<Option<Record>>, before: seq<Option<Record>>, k: nat, end: nat)
      requires k <= end <= |published| && AllAdded(items, before, LogsOf(k, end))
      ensures items == before + PersistedLogs(k, end)
      decreases end
    {
      if k < end {
        var logs, last := LogsOf(k, end), published[end - 1].changes;
        var mid := items[..|items| - |last| - 1];
        assert logs[..|logs| - 1] == LogsOf(k, end - 1);
        LogsAdded(mid, before, k, end - 1);
        AddedForm(items, mid, last);
        assert before + PersistedLogs(k, end - 1) + PersistedForm(last) == before + (PersistedLogs(k, end - 1) + PersistedForm(last));
      }
    }

    /** names_commitlogpersistfull: write everything the view has not finished
        with, then make `newstore` the store, without releasing the mutex. */
    method PersistFull(viewid: nat, newstore: Store) returns (oldstore: Store?)
      requires Valid() && viewid < |cursors|
      modifies this`store, newstore
      ensures Valid() && History() == old(History())
      ensures oldstore == old(store) && store == newstore
      ensures newstore.items == old(newstore.items) + PersistedLogs(consumed[viewid], |published|)
      ensures AllAdded(newstore.items, old(newstore.items), LogsOf(consumed[viewid], |published|))
    {
      WriteLogs(cursors[viewid], newstore, consumed[viewid]);
      LogsAdded(newstore.items, old(newstore.items), consumed[viewid], |published|);
      oldstore := store;
      store := newstore;
    }

    /** The loop over the logs from a cursor on. */
    method WriteLogs(cursor: Changelog?, newstore: Store, ghost start: nat)
      requires Valid() && base <= start <= |published| && cursor == At(published, start)
      modifies newstore
      ensures AllAdded(newstore.items, old(newstore.items), LogsOf(start, |published|))
    {
      var log := cursor;
      ghost var k := start;
      while log != null
        invariant start <= k <= |published|
        invariant log == At(published, k)
        invariant AllAdded(newstore.items, old(newstore.items), LogsOf(start, k))
        decreases |published| - k
        modifies newstore
      {
        assert !log.freed && log == published[k] && log.next == At(published, k + 1);
        newstore.PersistNext(log, old(newstore.items), LogsOf(start, k));
        log := log.Next();
        k := k + 1;
      }
    }
  }
}
