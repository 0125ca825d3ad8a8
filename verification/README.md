# Priority sorter queue ordering — a Dafny model

This project models the build-queue ordering policy of the Hudson Priority Sorter plugin
(`PrioritySorterQueueSorter`). It has two layers.

- **Effective priority** (`getPriority` and `adjustPriorityForCause`). An item whose task is not a
  project gets 0. A project with no priority property gets the default 100. Otherwise the result is
  the configured priority plus one global weight per cause. The weights are SCM, timer and user, and
  any other cause adds nothing. The sum uses Java 32-bit `int` arithmetic, which wraps.
- **Queue ordering** (`BuildableComparitor.compare` and `sortBuildableItems`). The comparator puts a
  higher effective priority first. The list is sorted with a stable sort.

Java `null` is modelled with `Option`. Java's `instanceof` tests are replaced by the closed datatypes
`Item` (`NonProject | Project`) and `Cause` (`Scm | Timer | User | Other`). The three descriptor
weights `userBuildPriority`, `scmPriority` and `timerPriority` are passed in as one `Weights` value.

Files:

- `javaint.dfy`, module `JavaInt`: Java `int` values, the wrapping `+`, and `Integer.compareTo`.
- `items.dfy`, module `Items`: the `Item`, `Cause` and `Weights` datatypes and the two priority constants.
- `priority.dfy`, module `Priority`: the resolver. The Java loops are modelled as left folds that take
  the same wrapping steps in the same order. Their contracts tie them to a reference definition: the
  wrapped, unbounded sum of the weights of the *effective causes*. The effective causes are the causes
  of the actions before the first null cause list.
- `stable_sort.dfy`, module `StableSort`: a stable insertion sort into non-increasing key order. It
  stands for `Collections.sort`. It is proved to return a permutation of its input, in order, with every
  key class in input order. It is also proved to be the only list with those properties, so every
  stable sort by the same comparator, including the library's merge sort, gives the same queue.
- `queue_sort.dfy`, module `QueueSort`: the comparator and `sortBuildableItems`, built on `StableSort`
  with the effective priority as the key.
- `scenarios.dfy`, module `Scenarios`: worked examples on small queues.

Two behaviours of the code are worth stating directly:

- A non-project item gets 0, not the default 100 (`PrioritySorterQueueSorter.java:54-58`); see `GetPriority`.
- A null cause list inside one action ends the whole outer loop (`PrioritySorterQueueSorter.java:94-96`).
  The earlier actions' total is kept and every later action is skipped; see `SumActions` and
  `Priority.NullCauseListIgnoresLaterActions`.

## Model

| member | source | states |
|---|---|---|
| JavaInt.Wrap | src/main/java/hudson/queueSorter/PrioritySorterQueueSorter.java:67-71 | Reducing an integer to a Java `int` leaves values already in the `int` range unchanged |
| JavaInt.WrapKeepsLowBits | src/main/java/hudson/queueSorter/PrioritySorterQueueSorter.java:67-71 | The reduced value differs from the exact one by a multiple of 2^32, so the low 32 bits are kept as in two's complement |
| JavaInt.WrapOfWrappedSum | src/main/java/hudson/queueSorter/PrioritySorterQueueSorter.java:99-103 | Wrapping a partial sum before adding more gives the same `int` as wrapping only the final exact sum |
| JavaInt.Add | src/main/java/hudson/queueSorter/PrioritySorterQueueSorter.java:67-71 | Java `int` `+` is exact when the sum fits, and is off by exactly 2^32 when it overflows or underflows |
| JavaInt.AddAssociativeCommutative | src/main/java/hudson/queueSorter/PrioritySorterQueueSorter.java:98-103 | Wrapping addition is associative and commutative, so the order in which weights are added cannot change the total |
| JavaInt.CompareTo | src/main/java/hudson/queueSorter/PrioritySorterQueueSorter.java:50 | `Integer.compareTo` returns -1, 0 or 1, negative iff less, zero iff equal, positive iff greater |
| Priority.FirstNull | src/main/java/hudson/queueSorter/PrioritySorterQueueSorter.java:93-96 | The outer loop stops at the first action whose cause list is null; every earlier action has a cause list |
| Priority.AddCause | src/main/java/hudson/queueSorter/PrioritySorterQueueSorter.java:98-103 | One cause adds the SCM, timer or user weight to the running total with wrap-around, and any other cause adds nothing |
| Priority.SumCauses | src/main/java/hudson/queueSorter/PrioritySorterQueueSorter.java:97-104 | The inner loop ends with the running total plus the summed weights of all causes in the list, wrapped to 32 bits |
| Priority.SumActions | src/main/java/hudson/queueSorter/PrioritySorterQueueSorter.java:92-107 | The outer loop ends with the wrapped total weight of the causes of the actions before the first null cause list |
| Priority.AdjustPriorityForCause | src/main/java/hudson/queueSorter/PrioritySorterQueueSorter.java:87-109 | The adjustment is the wrapped weight of the effective causes, and a null action list gives 0 |
| Priority.GetPriority | src/main/java/hudson/queueSorter/PrioritySorterQueueSorter.java:53-77 | A non-project item gets 0, a project without a property gets 100, and a configured project gets its priority plus its effective cause weights, wrapped |
| Priority.UnweightedCausesKeepBasePriority | src/main/java/hudson/queueSorter/PrioritySorterQueueSorter.java:64-71 | A project with no weighted effective cause, including one with no causes at all, has exactly its configured priority |
| Priority.NullCauseListSkipsLaterActions | src/main/java/hudson/queueSorter/PrioritySorterQueueSorter.java:94-96 | Whatever follows a null cause list never changes the outer loop's result |
| Priority.NullCauseListIgnoresLaterActions | src/main/java/hudson/queueSorter/PrioritySorterQueueSorter.java:87-109 | The adjustment for actions `before`, a null cause list, then `after` equals the adjustment for `before` alone |
| Priority.RepeatedCausesAccumulate | src/main/java/hudson/queueSorter/PrioritySorterQueueSorter.java:97-104 | Causes are not deduplicated: `n` equal causes add `n` times their weight, wrapped |
| Priority.OneMoreCauseAddsItsWeight | src/main/java/hudson/queueSorter/PrioritySorterQueueSorter.java:97-104 | Running the inner loop over a list with one more cause at the end equals one more loop step, which adds exactly that cause's weight with wrap-around |
| Priority.WeightedByKind | src/main/java/hudson/queueSorter/PrioritySorterQueueSorter.java:98-103 | The total cause weight equals the number of SCM causes times the SCM weight, plus the same for timer and user causes |
| Priority.CauseOrderIrrelevant | src/main/java/hudson/queueSorter/PrioritySorterQueueSorter.java:92-105 | Two projects whose effective causes are equal as multisets get the same priority, whatever the order or grouping of their causes |
| StableSort.Insert | src/main/java/hudson/queueSorter/PrioritySorterQueueSorter.java:84 | Insertion adds exactly one element: the result's multiset is the old one plus `x` |
| StableSort.InsertKeepsSorted | src/main/java/hudson/queueSorter/PrioritySorterQueueSorter.java:84 | Inserting into a list in non-increasing key order keeps it in that order |
| StableSort.InsertKeepsClasses | src/main/java/hudson/queueSorter/PrioritySorterQueueSorter.java:84 | Insertion puts `x` at the head of its key class and leaves every other key class unchanged |
| StableSort.Sort | src/main/java/hudson/queueSorter/PrioritySorterQueueSorter.java:84 | The sort returns a permutation of its input, of the same length, in non-increasing key order |
| StableSort.SortIsStable | src/main/java/hudson/queueSorter/PrioritySorterQueueSorter.java:84 | For every key, the elements with that key appear in the output in the same order as in the input |
| StableSort.SortOfSortedIsIdentity | src/main/java/hudson/queueSorter/PrioritySorterQueueSorter.java:84 | Sorting a list that is already in order returns it unchanged |
| StableSort.SortedIsDeterminedByClasses | src/main/java/hudson/queueSorter/PrioritySorterQueueSorter.java:84 | Two ordered lists with the same key classes, in the same order within each class, are equal |
| StableSort.StableSortIsUnique | src/main/java/hudson/queueSorter/PrioritySorterQueueSorter.java:84 | Any ordered list that keeps the input order within each key class is exactly the sort's output |
| QueueSort.Compare | src/main/java/hudson/queueSorter/PrioritySorterQueueSorter.java:46-51 | `compare(a, b)` is negative iff `a` has the higher priority, zero iff the priorities are equal, and positive otherwise |
| QueueSort.CompareIsTotalPreorder | src/main/java/hudson/queueSorter/PrioritySorterQueueSorter.java:46-51 | The comparator is reflexive, antisymmetric in sign, total and transitive, and two items that compare equal compare alike against every third item, as `java.util.Comparator` requires |
| QueueSort.SortBuildableItems | src/main/java/hudson/queueSorter/PrioritySorterQueueSorter.java:83-85 | The sorted queue is a permutation of the input in non-increasing priority, and equal-priority items keep their input order |
| QueueSort.SortedQueueUnchanged | src/main/java/hudson/queueSorter/PrioritySorterQueueSorter.java:83-85 | Sorting a queue that is already in priority order leaves it unchanged, including empty and one-item queues |
| QueueSort.AnyStableSortAgrees | src/main/java/hudson/queueSorter/PrioritySorterQueueSorter.java:84 | Any priority-ordered rearrangement that keeps equal-priority items in input order equals `SortBuildableItems` |
| Scenarios.HigherPriorityMovesAhead | src/main/java/hudson/queueSorter/PrioritySorterQueueSorter.java:46-51 | Of two items, the one with the strictly higher priority is moved to the front |
| Scenarios.UnconfiguredProjectOutranksLowPriority | src/main/java/hudson/queueSorter/PrioritySorterQueueSorter.java:72-75 | An unconfigured project (priority 100) is placed ahead of a project configured at 50 |
| Scenarios.UserCauseOutranksScmCause | src/main/java/hudson/queueSorter/PrioritySorterQueueSorter.java:98-103 | With weights user 10, SCM 5 and timer 1, a user-started build is placed ahead of an SCM-triggered one |
| Scenarios.TwoTimerCausesAddTwice | src/main/java/hudson/queueSorter/PrioritySorterQueueSorter.java:97-104 | Two timer causes at weight 3 raise a configured priority of 10 to 16 |
| Scenarios.EqualPrioritiesKeepQueueOrder | src/main/java/hudson/queueSorter/PrioritySorterQueueSorter.java:84 | Two items of equal priority keep their queue order |

## Left out

- Extension registration (`@Extension` on the sorter and on the descriptor) is framework plumbing.
- The runtime type tests against Hudson classes (`instanceof AbstractProject`, `SCMTriggerCause`, `TimerTriggerCause`, `UserCause`) are replaced by the closed `Item` and `Cause` datatypes. The `getProperty` and `getActions` lookups are not modelled; their results are fields of `Item`.
- Descriptor persistence and form handling (`load`, `save`, `configure`) are I/O. So is the `Integer.valueOf` coercion of non-numeric input to 0, which is library parsing. The weights are given integers.
- `getPriority` re-reads the shared descriptor weights on every call, so a concurrent reconfiguration could be seen halfway through a sort. The model passes one immutable `Weights` value to the whole sort instead.
- `sortBuildableItems` reorders the caller's `List` in place. The model returns a new sequence.
- The merge sort inside `Collections.sort` is replaced by an insertion sort. `StableSort.StableSortIsUnique` shows that every stable sort by the same comparator gives the same result.
- The exception `Collections.sort` may throw for a comparator that breaks its contract is not modelled. `QueueSort.CompareIsTotalPreorder` shows that this comparator keeps the contract, so the case does not arise.
