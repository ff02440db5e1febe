/**
 The commit log seen as a history: every log ever published, in order, and for
 each view the number of logs it has finished with.  This is the reference the
 pointer structure of commitlog.c is proved against, and the shared part of the
 protocol in module Views.
 */
module ChangeChain {
  import opened Common

  datatype Chain<L> = Chain(published: seq<L>, consumed: seq<nat>)
  {
    ghost predicate WellFormed() {
      && |consumed| > 0
      && forall v | 0 <= v < |consumed| :: consumed[v] <= |published|
    }

    /** The log a view is handed next, if there is one. */
    function Pending(v: nat): Option<L>
      requires v < |consumed|
    {
      if consumed[v] < |published| then Some(published[consumed[v]]) else None
    }

    /** Number of logs every view has finished with. */
    ghost function Base(): nat
      requires WellFormed()
    {
      Least(consumed)
    }

    /** The logs some view may still be handed, or be working on. */
    ghost function Retained(): seq<L>
      requires WellFormed()
    {
      LeastProperties(consumed);
      published[Base()..]
    }
  }

  /** What a caller of poppush owes: the log it gives back is the one it was
      handed, and the log it submits is not in the list. */
  ghost predicate Discipline<L>(c: Chain<L>, v: nat, previous: Option<L>, submit: Option<L>)
    requires c.WellFormed() && v < |c.consumed|
  {
    && (previous.Some? && c.Pending(v).Some? ==> previous == c.Pending(v))
    && (submit.Some? ==> submit.value !in c.Retained())
  }

  datatype Outcome<L> = Outcome(chain: Chain<L>, handed: Option<L>, pushed: bool, more: bool)

  /** One poppush: give back the previous log, if any; then either be handed the
      next unseen log or, when there is none, publish the submitted one. */
  function PopPush<L>(c: Chain<L>, v: nat, previous: Option<L>, submit: Option<L>): Outcome<L>
    requires v < |c.consumed|
  {
    var n := c.consumed[v] + if previous.Some? && c.Pending(v).Some? then 1 else 0;
    var c' := c.(consumed := c.consumed[v := n]);
    if n < |c.published| then
      Outcome(c', Some(c.published[n]), false, true)
    else if submit.Some? then
      Outcome(c'.(published := c.published + [submit.value]), submit, true, false)
    else
      Outcome(c', None, false, false)
  }

  /** A new view starts caught up. */
  function Subscribe<L>(c: Chain<L>): Chain<L> {
    c.(consumed := c.consumed + [|c.published|])
  }

  ghost function Least(s: seq<nat>): nat
    requires |s| > 0
  {
    if |s| == 1 then s[0]
    else if s[0] <= Least(s[1..]) then s[0] else Least(s[1..])
  }

  lemma {:induction false} LeastProperties(s: seq<nat>)
    requires |s| > 0
    ensures forall i | 0 <= i < |s| :: Least(s) <= s[i]
    ensures Least(s) in s
  {
    if |s| > 1 {
      LeastProperties(s[1..]);
      assert forall i | 0 < i < |s| :: s[i] == s[1..][i - 1];
    }
  }

  lemma LeastIs(s: seq<nat>, m: nat)
    requires m in s
    requires forall i | 0 <= i < |s| :: m <= s[i]
    ensures Least(s) == m
  {
    LeastProperties(s);
  }

  /** A step frees at most the one log the caller gave back, exactly when
      the caller was the last view at it. */
  lemma ReclaimedBySteps<L>(c: Chain<L>, v: nat, previous: Option<L>, submit: Option<L>)
    requires c.WellFormed() && v < |c.consumed|
    ensures var o := PopPush(c, v, previous, submit);
      && o.chain.WellFormed()
      && (o.chain.Base() == c.Base() || o.chain.Base() == c.Base() + 1)
      && (o.chain.Base() == c.Base() + 1 <==>
            && previous.Some? && c.Pending(v).Some? && c.consumed[v] == c.Base()
            && forall w | 0 <= w < |c.consumed| && w != v :: c.consumed[w] > c.Base())
  {
    var o := PopPush(c, v, previous, submit);
    var before, after := c.consumed, o.chain.consumed;
    LeastProperties(before);
    LeastProperties(after);
    if previous.Some? && c.Pending(v).Some? && before[v] == c.Base()
      && forall w | 0 <= w < |before| && w != v :: before[w] > c.Base()
    {
      assert after[v] == c.Base() + 1;
      LeastIs(after, c.Base() + 1);
    } else {
      var w :| 0 <= w < |before| && before[w] == c.Base()
        && (w != v || !(previous.Some? && c.Pending(v).Some?));
      assert after[w] == c.Base();
      LeastIs(after, c.Base());
    }
  }
}
