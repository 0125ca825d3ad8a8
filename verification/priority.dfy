/**
 The effective-priority resolver of the queue sorter: `getPriority` and
 `adjustPriorityForCause`. The Java loops are modelled as left folds that
 perform the same wrapping `+=` steps in the same order; their contracts
 relate them to a reference definition that simply counts causes.
 */
module Priority {
  import opened JavaInt
  import opened Items

  /** The weight one cause contributes: the global weight of its kind, or nothing for `Other`. */
  function CauseWeight(c: Cause, w: Weights): Int32
  {
    match c
    case Scm => w.scm
    case Timer => w.timer
    case User => w.user
    case Other => 0
  }

  /**
   Reference definition of a cause list's total weight: the plain sum of
   the weights of its causes, computed without overflow.
   */
  function Weighted(cs: seq<Cause>, w: Weights): int
  {
    if cs == [] then 0 else CauseWeight(cs[0], w) + Weighted(cs[1..], w)
  }

  /** Index of the first null cause list, or the length when there is none. */
  function FirstNull(actions: seq<Option<seq<Cause>>>): (k: nat)
    ensures k <= |actions|
    ensures forall i :: 0 <= i < k ==> actions[i].Some?
    ensures k < |actions| ==> actions[k].None?
  {
    if actions == [] || actions[0].None? then 0 else 1 + FirstNull(actions[1..])
  }

  /**
   The causes of the given actions, in order. It is only applied to the
   prefix before the first null cause list (see `EffectiveCauses`), so its
   `None` case never decides a result of the model.
   */
  function Flatten(actions: seq<Option<seq<Cause>>>): seq<Cause>
  {
    if actions == [] then []
    else
      match actions[0]
      case None => Flatten(actions[1..])
      case Some(cs) => cs + Flatten(actions[1..])
  }

  /**
   The causes that the adjustment actually visits: none when the action list
   is null, otherwise those of the actions before the first null cause list.
   */
  function EffectiveCauses(causeActions: Option<seq<Option<seq<Cause>>>>): seq<Cause>
  {
    match causeActions
    case None => []
    case Some(actions) => Flatten(actions[..FirstNull(actions)])
  }

  lemma {:induction false} WeightedAppend(a: seq<Cause>, b: seq<Cause>, w: Weights)
    ensures Weighted(a + b, w) == Weighted(a, w) + Weighted(b, w)
  {
    if a == [] {
      assert a + b == b;
    } else {
      assert (a + b)[0] == a[0];
      assert (a + b)[1..] == a[1..] + b;
      WeightedAppend(a[1..], b, w);
    }
  }

  /** Peeling a non-null first action off the prefix before the first null cause list. */
  lemma EffectivePrefixStep(actions: seq<Option<seq<Cause>>>, w: Weights)
    requires actions != [] && actions[0].Some?
    ensures FirstNull(actions) == 1 + FirstNull(actions[1..])
    ensures Weighted(Flatten(actions[..FirstNull(actions)]), w)
         == Weighted(actions[0].value, w) + Weighted(Flatten(actions[1..][..FirstNull(actions[1..])]), w)
  {
    var rest := actions[1..];
    var k := FirstNull(rest);
    assert actions[..1 + k] == [actions[0]] + rest[..k];
    assert Flatten(actions[..1 + k]) == actions[0].value + Flatten(rest[..k]);
    WeightedAppend(actions[0].value, Flatten(rest[..k]), w);
  }

  /** One iteration of the inner loop: the `instanceof` chain SCM, timer, user, with a wrapping `+=`. */
  function AddCause(acc: Int32, c: Cause, w: Weights): (r: Int32)
    ensures r == Wrap(acc + CauseWeight(c, w))
  {
    match c
    case Scm => Add(acc, w.scm)
    case Timer => Add(acc, w.timer)
    case User => Add(acc, w.user)
    case Other => acc
  }

  /** One step of the inner loop agrees with the reference weight of the whole list. */
  lemma SumCausesStep(acc: Int32, cs: seq<Cause>, w: Weights, r: Int32)
    requires cs != []
    requires r == Wrap(AddCause(acc, cs[0], w) + Weighted(cs[1..], w))
    ensures r == Wrap(acc + Weighted(cs, w))
  {
    WrapChain(acc, CauseWeight(cs[0], w), Weighted(cs[1..], w), AddCause(acc, cs[0], w), r);
  }

  /** The inner loop over one cause list, continuing from the running total `acc`. */
  function SumCauses(acc: Int32, cs: seq<Cause>, w: Weights): (r: Int32)
    ensures r == Wrap(acc + Weighted(cs, w))
    decreases |cs|
  {
    if cs == [] then acc
    else
      var r := SumCauses(AddCause(acc, cs[0], w), cs[1..], w);
      SumCausesStep(acc, cs, w, r);
      r
  }

  /** Wrapped weight of the causes of the actions before the first null cause list, added to `acc`. */
  function PrefixTotal(acc: int, actions: seq<Option<seq<Cause>>>, w: Weights): Int32
  {
    Wrap(acc + Weighted(Flatten(actions[..FirstNull(actions)]), w))
  }

  /** One step of the outer loop, over an action with a cause list, agrees with the reference weight. */
  lemma SumActionsStep(acc: Int32, actions: seq<Option<seq<Cause>>>, w: Weights, mid: Int32, r: Int32)
    requires actions != [] && actions[0].Some?
    requires mid == Wrap(acc + Weighted(actions[0].value, w))
    requires r == PrefixTotal(mid, actions[1..], w)
    ensures r == PrefixTotal(acc, actions, w)
  {
    var here := Weighted(actions[0].value, w);
    var later := Weighted(Flatten(actions[1..][..FirstNull(actions[1..])]), w);
    var total := Weighted(Flatten(actions[..FirstNull(actions)]), w);
    EffectivePrefixStep(actions, w);
    assert acc + total == acc + (here + later);
    WrapChain(acc, here, later, mid, r);
  }

  /** The outer loop over the cause actions; a null cause list ends it, keeping the total so far. */
  function SumActions(acc: Int32, actions: seq<Option<seq<Cause>>>, w: Weights): (r: Int32)
    ensures r == PrefixTotal(acc, actions, w)
    decreases |actions|
  {
    if actions == [] then acc
    else
      match actions[0]
      case None => acc
      case Some(cs) =>
        var mid := SumCauses(acc, cs, w);
        var r := SumActions(mid, actions[1..], w);
        SumActionsStep(acc, actions, w, mid, r);
        r
  }

  /**
   `adjustPriorityForCause`: the wrapped total weight of the effective causes;
   a null action list adjusts by nothing.
   */
  function AdjustPriorityForCause(causeActions: Option<seq<Option<seq<Cause>>>>, w: Weights): (r: Int32)
    ensures r == Wrap(Weighted(EffectiveCauses(causeActions), w))
    ensures causeActions.None? ==> r == 0
  {
    match causeActions
    case None => 0
    case Some(actions) => SumActions(0, actions, w)
  }

  /**
   `getPriority`: a non-project item gets 0, a project without a priority
   property gets the default 100, and a project with priority `p` gets `p`
   plus the weights of its effective causes, wrapped to 32 bits.
   */
  function GetPriority(item: Item, w: Weights): (r: Int32)
    ensures item.NonProject? ==> r == NON_PROJECT_PRIORITY
    ensures item.Project? && item.prop.None? ==> r == DEFAULT_PRIORITY
    ensures item.Project? && item.prop.Some? ==>
              r == Wrap(item.prop.value + Weighted(EffectiveCauses(item.causeActions), w))
  {
    match item
    case NonProject => NON_PROJECT_PRIORITY
    case Project(None, _) => DEFAULT_PRIORITY
    case Project(Some(p), causeActions) =>
      var adjustment := AdjustPriorityForCause(causeActions, w);
      AddWrapped(p, Weighted(EffectiveCauses(causeActions), w));
      Add(p, adjustment)
  }

  lemma {:induction false} OtherCausesWeighNothing(cs: seq<Cause>, w: Weights)
    requires forall i :: 0 <= i < |cs| ==> cs[i] == Other
    ensures Weighted(cs, w) == 0
  {
    if cs != [] {
      OtherCausesWeighNothing(cs[1..], w);
    }
  }

  /** With no weighted cause among the effective ones, a project's priority is exactly its configured one. */
  lemma UnweightedCausesKeepBasePriority(p: Int32, causeActions: Option<seq<Option<seq<Cause>>>>, w: Weights)
    requires forall c :: c in EffectiveCauses(causeActions) ==> c == Other
    ensures GetPriority(Project(Some(p), causeActions), w) == p
  {
    var cs := EffectiveCauses(causeActions);
    assert forall i :: 0 <= i < |cs| ==> cs[i] in cs;
    OtherCausesWeighNothing(cs, w);
  }

  /** A null cause list in an action ends the adjustment: later actions never count. */
  lemma {:induction false} NullCauseListSkipsLaterActions(acc: Int32, before: seq<Option<seq<Cause>>>,
                                                           after: seq<Option<seq<Cause>>>, w: Weights)
    ensures SumActions(acc, before + [None] + after, w) == SumActions(acc, before, w)
    decreases |before|
  {
    if before == [] {
      assert before + [None] + after == [None] + after;
    } else {
      assert (before + [None] + after)[1..] == before[1..] + [None] + after;
      match before[0]
      case None =>
      case Some(cs) =>
        NullCauseListSkipsLaterActions(SumCauses(acc, cs, w), before[1..], after, w);
    }
  }

  /** The same at the level of `adjustPriorityForCause`. */
  lemma NullCauseListIgnoresLaterActions(before: seq<Option<seq<Cause>>>, after: seq<Option<seq<Cause>>>, w: Weights)
    ensures AdjustPriorityForCause(Some(before + [None] + after), w) == AdjustPriorityForCause(Some(before), w)
  {
    NullCauseListSkipsLaterActions(0, before, after, w);
  }

  /** A single action with a non-null cause list visits exactly those causes. */
  lemma SingleActionCauses(cs: seq<Cause>)
    ensures EffectiveCauses(Some([Some(cs)])) == cs
  {
    var actions := [Some(cs)];
    assert FirstNull(actions) == 1;
    assert actions[..1] == actions;
    assert Flatten(actions) == cs + Flatten([]);
  }

  /** `n` copies of the same cause. */
  function Repeat(c: Cause, n: nat): (cs: seq<Cause>)
    ensures |cs| == n
    ensures forall i :: 0 <= i < n ==> cs[i] == c
  {
    if n == 0 then [] else [c] + Repeat(c, n - 1)
  }

  lemma {:induction false} RepeatCount(c: Cause, n: nat, w: Weights)
    ensures Weighted(Repeat(c, n), w) == n * CauseWeight(c, w)
  {
    if n > 0 {
      var weight := CauseWeight(c, w);
      RepeatCount(c, n - 1, w);
      WeightedAppend([c], Repeat(c, n - 1), w);
      assert Weighted([c], w) == weight;
      assert (n - 1) * weight + weight == n * weight;
    }
  }

  /** Causes are summed, not deduplicated: `n` equal causes add `n` times their weight. */
  lemma RepeatedCausesAccumulate(p: Int32, c: Cause, n: nat, w: Weights)
    ensures GetPriority(Project(Some(p), Some([Some(Repeat(c, n))])), w) == Wrap(p + n * CauseWeight(c, w))
  {
    SingleActionCauses(Repeat(c, n));
    RepeatCount(c, n, w);
  }

  lemma WrappedWeightSnoc(acc: Int32, cs: seq<Cause>, c: Cause, w: Weights, longer: Int32, shorter: Int32)
    requires longer == Wrap(acc + Weighted(cs + [c], w))
    requires shorter == Wrap(acc + Weighted(cs, w))
    ensures longer == AddCause(shorter, c, w)
  {
    var weight, before := CauseWeight(c, w), Weighted(cs, w);
    WeightedAppend(cs, [c], w);
    assert Weighted([c], w) == weight + Weighted([], w);
    assert acc + Weighted(cs + [c], w) == acc + (before + weight);
    WrapChain(acc, before, weight, shorter, AddCause(shorter, c, w));
  }

  /** The inner loop over `cs` followed by `c` is the loop over `cs` and then one more step for `c`. */
  lemma OneMoreCauseAddsItsWeight(acc: Int32, cs: seq<Cause>, c: Cause, w: Weights)
    ensures SumCauses(acc, cs + [c], w) == AddCause(SumCauses(acc, cs, w), c, w)
  {
    WrappedWeightSnoc(acc, cs, c, w, SumCauses(acc, cs + [c], w), SumCauses(acc, cs, w));
  }

  lemma CountStep(n: int, m: int, x: int)
    requires m == n + 1
    ensures m * x == n * x + x
  {
  }

  /** The reference weight counts the causes of each weighted kind. */
  lemma {:induction false} WeightedByKind(cs: seq<Cause>, w: Weights)
    ensures Weighted(cs, w) == multiset(cs)[Scm] * w.scm + multiset(cs)[Timer] * w.timer + multiset(cs)[User] * w.user
  {
    if cs != [] {
      var rest := cs[1..];
      WeightedByKind(rest, w);
      assert cs == [cs[0]] + rest;
      var m, mr := multiset(cs), multiset(rest);
      assert m == multiset{cs[0]} + mr;
      match cs[0]
      case Scm =>
        assert m[Timer] == mr[Timer] && m[User] == mr[User];
        CountStep(mr[Scm], m[Scm], w.scm);
      case Timer =>
        assert m[Scm] == mr[Scm] && m[User] == mr[User];
        CountStep(mr[Timer], m[Timer], w.timer);
      case User =>
        assert m[Scm] == mr[Scm] && m[Timer] == mr[Timer];
        CountStep(mr[User], m[User], w.user);
      case Other =>
        assert m[Scm] == mr[Scm] && m[Timer] == mr[Timer] && m[User] == mr[User];
    }
  }

  /** The order in which causes are met does not matter: only how many of each kind there are. */
  lemma CauseOrderIrrelevant(p: Int32, a: Option<seq<Option<seq<Cause>>>>, b: Option<seq<Option<seq<Cause>>>>, w: Weights)
    requires multiset(EffectiveCauses(a)) == multiset(EffectiveCauses(b))
    ensures GetPriority(Project(Some(p), a), w) == GetPriority(Project(Some(p), b), w)
  {
    WeightedByKind(EffectiveCauses(a), w);
    WeightedByKind(EffectiveCauses(b), w);
  }
}
