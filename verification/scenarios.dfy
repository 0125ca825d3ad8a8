/**
 Worked examples of the ordering on small concrete queues.
 */
module Scenarios {
  import opened JavaInt
  import opened Items
  import opened Priority
  import opened QueueSort

  /** A project configured with priority `p` and one action holding `causes`. */
  function Job(p: Int32, causes: seq<Cause>): Item
  {
    Project(Some(p), Some([Some(causes)]))
  }

  /** Of two queued items, the one with the strictly higher priority is moved to the front. */
  lemma HigherPriorityMovesAhead(a: Item, b: Item, w: Weights)
    requires GetPriority(a, w) < GetPriority(b, w)
    ensures SortBuildableItems([a, b], w) == [b, a]
  {
    var key := PriorityKey(w);
    forall k
      ensures StableSort.WithKey([b, a], k, key) == StableSort.WithKey([a, b], k, key)
    {
      assert [b, a][1..] == [a] && [a, b][1..] == [b];
    }
    AnyStableSortAgrees([a, b], [b, a], w);
  }

  /** An unconfigured project (default 100) goes ahead of one configured at 50. */
  lemma UnconfiguredProjectOutranksLowPriority(w: Weights)
    ensures SortBuildableItems([Job(50, []), Project(None, None)], w) == [Project(None, None), Job(50, [])]
  {
    SingleActionCauses([]);
    assert GetPriority(Job(50, []), w) == 50;
    HigherPriorityMovesAhead(Job(50, []), Project(None, None), w);
  }

  /** With user weight 10 and SCM weight 5, a user-started build goes ahead of an SCM-triggered one. */
  lemma UserCauseOutranksScmCause()
    ensures SortBuildableItems([Job(0, [Scm]), Job(0, [User])], Weights(10, 5, 1))
         == [Job(0, [User]), Job(0, [Scm])]
  {
    var w := Weights(10, 5, 1);
    SingleActionCauses([Scm]);
    SingleActionCauses([User]);
    assert Weighted([Scm], w) == 5 && Weighted([User], w) == 10;
    HigherPriorityMovesAhead(Job(0, [Scm]), Job(0, [User]), w);
  }

  /** Two timer causes at weight 3 raise priority 10 to 16. */
  lemma TwoTimerCausesAddTwice(w: Weights)
    requires w.timer == 3
    ensures GetPriority(Job(10, [Timer, Timer]), w) == 16
  {
    SingleActionCauses([Timer, Timer]);
    assert Weighted([Timer, Timer], w) == 3 + Weighted([Timer], w);
  }

  /** Items of equal priority keep their queue order. */
  lemma EqualPrioritiesKeepQueueOrder(a: Item, b: Item, w: Weights)
    requires GetPriority(a, w) == GetPriority(b, w)
    ensures SortBuildableItems([a, b], w) == [a, b]
  {
    SortedQueueUnchanged([a, b], w);
  }
}
