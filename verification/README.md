# DFA minimization by table filling

A Dafny model of the minimization core of a small automata library:

- `DFA._remove_unreachable_states` searches depth-first from the start state. It then keeps only the reached states, final states and transitions.
- `DFA.minimize` has four steps:
  1. It sorts the remaining states.
  2. It marks each pair `(p, q)` with `p < q` when exactly one of the two is final.
  3. It repeats passes over the pairs until a pass marks nothing. A pass marks an unmarked pair when some symbol leads both states to distinct, defined successors whose pair is already marked.
  4. It unions every unmarked pair in a `DisjointSet`. It then renames each state to the 1-based position of its group.
- `DisjointSet` is a union-find stored as a list of lists. `find_set` is the group position plus one. `union` appends one group to another and deletes it.

The automaton is an immutable record `Dfa(states, alphabet, start, transitions, finals)`. States are `int`, symbols are `string`, the state lists are sequences, and the transition dict is a `map<(State, Symbol), State>`. Minimization is a method that returns a new record. It also returns the renaming `labels` of old states to new ones, which is the `find_set` the source applies.

Modules, one per file:

- `Automata` (`automaton.dfy`) holds the record, well-formedness, totality and run semantics.
- `Reachability` (`reachability.dfy`) holds the search and the pruning.
- `Sorting` (`sorting.dfy`) models `sorted`.
- `TableFilling` (`table_filling.dfy`) holds the pairs, initialization, passes and fixpoint.
- `DisjointSets` (`disjoint_set.dfy`) holds the union-find.
- `Equivalence` (`equivalence.dfy`) holds the quotient theory that links the table to languages.
- `Minimization` (`minimize.dfy`) holds the union loop, the rebuild and `minimize` itself.
- `Example` (`example.dfy`) is the four-state worked example.
- `Idempotence` (`idempotence.dfy`) covers minimizing twice.

## Model

| member | source | states |
|---|---|---|
| Reachability.ReachableStates | dfa.py:58-74 | The search terminates, and the set it returns holds exactly the states that some word leads to from the start state. That set contains the start state and is closed under transitions. |
| Reachability.ClosedContainsReachable | dfa.py:64-74 | Any set that holds the start state and is closed under transitions holds every reachable state. |
| Reachability.ReachesStep | dfa.py:71-72 | The target of a transition out of a reachable state is reachable. |
| Reachability.SearchStep | dfa.py:68-74 | One pop keeps the search invariant: everything seen is reachable, and transitions out of visited states lead to seen states. Either the unvisited part of the finite universe shrinks, or the stack shrinks. |
| Reachability.SearchVisit | dfa.py:69-74 | Popping an unvisited state and pushing its successors keeps the invariant and visits one more state of the finite universe. |
| Reachability.SearchSkip | dfa.py:69-74 | Popping an already visited state pushes nothing and keeps the invariant. |
| Reachability.SuccessorsReached | dfa.py:58-72 | The adjacency list of a reachable state holds only reachable states of the universe. |
| Reachability.ClosedContainsRuns | dfa.py:64-74 | A set closed under transitions holds the end of every defined run that starts inside it. |
| Reachability.Filter | dfa.py:76-80 | The list comprehension keeps exactly the elements in the kept set, each with its original multiplicity, and never lengthens the list. |
| Reachability.FilterAppend | dfa.py:76-80 | Filtering distributes over concatenation, so the kept elements stay in their original order. |
| Reachability.Prune | dfa.py:76-84 | Start state and alphabet are unchanged. States and finals are the filtered lists. A transition is kept, unchanged, exactly when its source is kept. |
| Reachability.PruneWellFormed | dfa.py:76-84 | Pruning on a closed set leaves a well-formed automaton, in particular finals ⊆ states, and a total automaton stays total. |
| Reachability.PruneKeepsRuns | dfa.py:83-84 | From a kept state, every word runs the same in the pruned automaton as in the original. |
| Reachability.PruneKeepsLanguage | dfa.py:53-84 | Pruning on a closed set accepts exactly the words the original accepts. |
| Reachability.RemoveUnreachable | dfa.py:53-84 | The pruned automaton lists exactly the reachable states and the reachable finals. It keeps exactly the transitions with a reachable source, and it is well-formed when the input is. |
| TableFilling.Order | dfa.py:92-93 | `order_tuple` returns its two arguments, smaller first. |
| Sorting.Insert | dfa.py:97 | Inserting into a sorted list keeps it sorted and adds exactly one occurrence of the element. |
| Sorting.Sort | dfa.py:97 | `sorted` returns an ascending permutation of the states. |
| Sorting.SortKeepsElements | dfa.py:97 | The sorted list holds exactly the states. |
| TableFilling.Pairs | dfa.py:100-101 | The nested loops visit only pairs of listed states. |
| TableFilling.PairsComplete | dfa.py:100-101 | Every pair of positions `i < j` is visited. |
| TableFilling.PairsAscending | dfa.py:97-101 | On the sorted list every visited pair is in ascending order. |
| TableFilling.PairsCount | dfa.py:100-101 | There are n(n-1)/2 visits for n states. |
| TableFilling.PairsCoverSorted | dfa.py:97-101 | Every pair of states `p < q` is a table key. |
| TableFilling.InitTable | dfa.py:99-103 | After initialization the keys are exactly the visited pairs. An entry is marked exactly when the empty word separates the pair, which means exactly one state is final. |
| TableFilling.ScanSymbols | dfa.py:118-128 | The `for w` loop with its `break` marks the pair exactly when some symbol leads both states to distinct, defined successors whose pair is marked. |
| TableFilling.SeparatesPrefix | dfa.py:118-125 | A word separates the successors on `c` exactly when that word, prefixed by `c`, separates the pair. |
| TableFilling.SplitSound | dfa.py:119-125 | A mark set because of a marked successor pair is justified: the pair is distinguishable. |
| TableFilling.MarkShrinksUnmarked | dfa.py:124-125 | Marking an unmarked pair removes exactly that pair from the unmarked set. |
| TableFilling.MarkKeepsSound | dfa.py:125 | Marking a distinguishable pair keeps every mark justified. |
| TableFilling.VisitPair | dfa.py:114-128 | A visit skips a marked pair, leaves the keys alone, and marks only that pair. It reports a mark exactly when the pair was unmarked and some symbol splits it. |
| TableFilling.PassStep | dfa.py:111-128 | One visit keeps the pass invariant: marks are never reset, they stay justified, and the unmarked set only shrinks. The flag is set only if the unmarked set shrank, and an unset flag means the table is untouched. |
| TableFilling.PassMark | dfa.py:118-128 | A visit that marks a pair keeps the pass invariant with the flag set. |
| TableFilling.PassSkip | dfa.py:114-128 | A visit that marks nothing keeps the pass invariant with the flag unchanged. |
| TableFilling.Pass | dfa.py:109-128 | A pass never resets a mark and sets `flag` only when it strictly shrank the unmarked set. When `flag` stays false the table is unchanged and no unmarked pair is split by any symbol. |
| TableFilling.FillTable | dfa.py:105-128 | The `while flag` loop terminates, with the count of unmarked pairs decreasing, and it keeps the initial marks. At exit no unmarked pair is split, and a pair is marked exactly when some word distinguishes its states. |
| TableFilling.ClosedTableComplete | dfa.py:105-128 | In a table that no symbol can split further, no word separates an unmarked pair. |
| TableFilling.UnmarkedRelationClosed | dfa.py:114-128 | The equal-or-unmarked pairs of a closed table are not separated by the empty word, and they are closed under taking successors. |
| TableFilling.ClosedUnderNotSeparated | dfa.py:114-128 | No word separates a pair in a relation that is closed under successors and unseparated by the empty word. |
| TableFilling.UnmarkedBase | dfa.py:99-103 | The initial marks survive the fixpoint, so an unmarked pair agrees on finality. |
| TableFilling.UnmarkedSuccessors | dfa.py:119-125 | In a closed table, the defined successors of an unmarked pair are equal or unmarked. |
| TableFilling.DistinguishabilityTable | dfa.py:95-128 | The table has one key per ascending pair of states, and every pair `p < q` has one. An entry is marked exactly when the pair is distinguishable, and pairs that differ in finality are marked. |
| DisjointSets.Make | disjoint_set.py:5-11 | The constructor makes one singleton group per distinct item, for any iteration order of `set(items)`. The groups partition the items, and their count is the number of distinct items. |
| DisjointSets.Dedup | disjoint_set.py:10 | An iteration order for `set(items)`: every item exactly once. |
| DisjointSets.DistinctCardinality | disjoint_set.py:9-11 | A list without duplicates has as many distinct elements as entries. |
| DisjointSets.FirstWith | disjoint_set.py:14-18 | The scan returns the first group that holds the item, or None when no group does. |
| DisjointSets.IndexOf | disjoint_set.py:17 | `list.index` returns the first position that holds an equal group. |
| DisjointSets.GetIndex | disjoint_set.py:13-18 | `_get_index` returns None exactly for a non-member. Otherwise it returns the position of a group that holds the item. In a valid partition that is the only such group. |
| DisjointSets.Find | disjoint_set.py:20-24 | `find` returns a group holding the item, and only None when the item is in no group. In a valid partition it is the item's unique group. |
| DisjointSets.FindSet | disjoint_set.py:26-30 | `find_set` returns a label in `1..len(groups)` whose group holds the item, and None exactly for non-members. In a valid partition it is the unique group position plus one. |
| DisjointSets.Get | disjoint_set.py:40-41 | `get` returns as many groups as the structure has, and group `m` is the one `find_set` labels `m + 1`. |
| DisjointSets.Merge | disjoint_set.py:37-38 | Appending group j to group i and deleting j leaves one group fewer. |
| DisjointSets.UnionShape | disjoint_set.py:37-38 | After the merge, the group at each new position is either an old group shifted down past j, or the concatenation of groups i and j. |
| DisjointSets.UnionPlaces | disjoint_set.py:37-38 | After the merge every member sits in the shifted position of its old group, with group j's members in group i. The result is still a partition. |
| DisjointSets.Union | disjoint_set.py:32-38 | `union` changes nothing when the items already share a group, or when neither is a member. Otherwise it keeps the members and the partition invariant, drops exactly one group, and joins `a` and `b`. Two members share a group afterwards exactly when they did before or they sit with `a` and `b`. Every group holding neither item survives unchanged. |
| DisjointSets.UnionFacts | disjoint_set.py:36-38 | When the two items are in different groups, the merge has every effect `union` promises. |
| DisjointSets.UnionKeepsMembers | disjoint_set.py:37-38 | The merge keeps exactly the same members. |
| DisjointSets.UnionRegroups | disjoint_set.py:37-38 | After the merge two members share a group exactly when they did before or they sit with `a` and `b`. |
| DisjointSets.UnionRegroupsPair | disjoint_set.py:37-38 | The same regrouping fact, for one given pair of members. |
| DisjointSets.SameGroupByIndex | disjoint_set.py:13-18 | Two members share a `find_set` label exactly when `_get_index` gives them one position. |
| DisjointSets.UnionKeepsOthers | disjoint_set.py:37-38 | Every group holding neither item survives the merge. |
| DisjointSets.UnionTransitive | disjoint_set.py:32-38 | After `union(a, b)` and `union(b, c)`, `find_set(a) == find_set(c)`. |
| DisjointSets.UnionCommutes | disjoint_set.py:32-38 | `union(a, b)` and `union(b, a)` group the members the same way. |
| DisjointSets.UnionCoarsens | disjoint_set.py:32-38 | `union` only merges: members and validity are kept, there are never more groups, the two items end up together, and items that were together stay together. |
| DisjointSets.UnionWithin | disjoint_set.py:32-38 | Unioning two related members keeps every group inside one class of an equivalence. |
| DisjointSets.GroupCountBound | disjoint_set.py:5-11 | A partition has no more groups than members. |
| Equivalence.DistinguishableSymmetric | dfa.py:92-93 | Distinguishability does not depend on the order of the pair, which is why `order_tuple` may normalize it. |
| Equivalence.IndistinguishableTransitive | dfa.py:130-135 | In a total automaton indistinguishability is transitive, so unioning the unmarked pairs merges only indistinguishable states. |
| Equivalence.CompatibleIsEquivalence | dfa.py:130-135 | Agreeing on finality, and additionally being indistinguishable when the automaton is total, is an equivalence on the states. |
| Equivalence.IndistinguishableSuccessors | dfa.py:147-148 | Indistinguishable states have indistinguishable successors on every common symbol. |
| Equivalence.PruneKeepsDistinguishable | dfa.py:90 | Pruning on a closed set changes no distinguishability between kept states. |
| Equivalence.QuotientRun | dfa.py:147-148 | In the renamed automaton a run is the renaming of the original run. |
| Equivalence.SuccessorsAgree | dfa.py:147-148 | When states are merged exactly up to indistinguishability, transitions on one symbol out of one new state agree on the new target. The dict comprehension therefore writes one value per key. |
| Equivalence.QuotientRenames | dfa.py:147-148 | Under the same condition, every rebuilt transition is the renaming of each old transition it replaces. |
| Equivalence.QuotientTotal | dfa.py:147-148 | The rebuilt automaton of a total automaton is total. |
| Equivalence.QuotientLanguage | dfa.py:137-150 | The consistently renamed total automaton accepts exactly the same words. |
| Equivalence.QuotientReaches | dfa.py:139-148 | The name of a reachable state is reachable. |
| Equivalence.QuotientSeparates | dfa.py:141-148 | The names of distinguishable states are distinguishable. |
| Equivalence.QuotientMinimal | dfa.py:130-150 | The rebuilt automaton is minimal: all its states are reachable, and any two distinct ones are distinguishable. |
| Equivalence.OntoLifts | dfa.py:137 | Facts about the names of old states hold for every new state, since every new state is a name. |
| Minimization.UnionDoneStep | dfa.py:133-135 | A coarser grouping that also joins the current unmarked pair extends the loop's progress by one pair. |
| Minimization.UnionStep | dfa.py:133-135 | One iteration of the union loop keeps the partition, keeps groups inside the equivalence and does not add groups. It keeps every unmarked pair seen so far together. |
| Minimization.UnionUnmarked | dfa.py:130-135 | After the loop every unmarked pair shares a group, and items that started together stay together. Groups stay inside any equivalence that relates the unmarked pairs, and there are no more groups than at the start. |
| Minimization.Label | dfa.py:139-147 | `find_set` of a member is a label in `1..len(groups)` whose group holds it. |
| Minimization.NameStates | dfa.py:139-148 | Every listed state gets a name, and only listed states do. The name is in `1..len(groups)` and its group holds the state. |
| Minimization.NamingComplete | dfa.py:137-148 | Naming the listed states of a partition of them gives every member of group `j` the name `j + 1`. |
| Minimization.NameIsFindSet | dfa.py:139-147 | The name of a state is its `find_set`. |
| Minimization.SameGroupSameName | dfa.py:144-148 | Two states share a group exactly when they share a name. |
| Minimization.FirstFinal | dfa.py:142-145 | The inner loop finds a final state of the group exactly when the group holds one. |
| Minimization.FinalLabels | dfa.py:138-145 | `new_final_states` holds exactly the labels of the groups that contain a final state, each once and in group order. |
| Minimization.RebuildTransitions | dfa.py:147-148 | Every old transition gives a new key, renamed at its source. Every new entry is the renaming of some old transition, whatever order the dict is walked in. |
| Minimization.Assemble | dfa.py:137-150 | New states `1..k`, one per group. The start state is the name of the old start, and the finals are the labels of the groups with a final state. Transitions are renamed both ways, and the result is well-formed with no repeated final. |
| Minimization.Rebuild | dfa.py:137-150 | Names every listed state by its group, then builds the renamed automaton with all the properties of `Assemble`. |
| Minimization.SingletonsWithin | disjoint_set.py:9-11 | Fresh singleton groups lie inside any reflexive relation. |
| Minimization.UnmarkedCompatible | dfa.py:133-134 | After the fixpoint every unmarked pair is indistinguishable, so it is compatible. |
| Minimization.MergesIndistinguishable | dfa.py:130-135 | Every pair of indistinguishable listed states ends in one group. |
| Minimization.GroupsToNames | dfa.py:137-148 | States sharing a name are compatible, and indistinguishable states share a name. |
| Minimization.GroupFinality | dfa.py:141-145 | A group holds a final state exactly when each of its members is final, so each group has uniform finality. |
| Minimization.QuotientStates | dfa.py:137 | Each name is a new state, each new state is a name, and there are no more new states than old ones. |
| Minimization.QuotientFinals | dfa.py:141-145 | A new state is final exactly when the old states it names are. |
| Minimization.QuotientMerges | dfa.py:133-135 | In a total automaton, states that share a name are indistinguishable. |
| Minimization.GroupsGiveQuotient | dfa.py:137-150 | The rebuilt automaton is a renaming of the pruned one onto its new states, with no more states. |
| Minimization.MergeEquivalent | dfa.py:95-150 | On the pruned automaton, table, union loop and rebuild give a well-formed renaming onto states `1..k`, with `k` at most the number of states. Indistinguishable states share a name, and in a total automaton only they do. |
| Minimization.PrunedView | dfa.py:90 | Pruning on the reachable states keeps finality, distinguishability, kept transitions, totality and the language, and it leaves every kept state reachable. |
| Minimization.LiftMerges | dfa.py:130-135 | The merging facts on the pruned automaton hold for the original automaton's distinguishability. |
| Minimization.LiftTransitions | dfa.py:147-148 | The renamed transitions are exactly the renamings of the original transitions out of reachable states. |
| Minimization.Minimize | dfa.py:88-150 | The result is well-formed over the same alphabet, with new states `1..k`. Here `k` is at most the number of reachable states, and exactly the reachable states are renamed. The start state and finality are renamed consistently, finals are listed once each, and indistinguishable states are merged. Every old transition out of a reachable state gives a new key, and every new entry is the renaming of some old transition. For a total automaton, states merge exactly when indistinguishable, each new entry holds the name of the old target, the result is total, accepts the same words, and is minimal. |
| Minimization.TotalRenamesTransitions | dfa.py:147-148 | In a total automaton named up to indistinguishability, the new entry for a renamed old transition holds the name of the old target, whichever old transition wrote it last. |
| Minimization.TotalQuotient | dfa.py:88-150 | For a total automaton the rebuilt one is total, accepts the same language as the original, has only reachable states, and has pairwise distinguishable states. |
| Example.SampleReachable | dfa.py:64-74 | In the worked example every state is reachable. |
| Example.MiddleEquivalent | dfa.py:114-128 | In the worked example the two middle states are indistinguishable. |
| Example.OthersDistinct | dfa.py:99-128 | In the worked example the start state, a middle state and the final state are pairwise distinguishable. |
| Example.SampleNames | dfa.py:133-148 | Minimization gives the two middle states one name, and the start, middle and final states three different names. |
| Example.CountNames | dfa.py:137 | Three different names over new states `1..n` mean exactly three new states. |
| Example.SampleFinals | dfa.py:141-145 | Only the name of the old final state is final. |
| Example.MinimizeSample | dfa.py:88-150 | Minimizing the worked example merges its middle states and leaves three states. The start is the start's class, and the only final is the final state's class. |
| Idempotence.MinimalKeepsCount | dfa.py:88-150 | Minimizing an automaton that is already minimal renames its states one to one and keeps their number. |
| Idempotence.MinimizeTwice | dfa.py:88-150 | On a total automaton, minimizing the result again only renames its states: the renaming is one to one on all of them and onto the new states, and it carries over the start state, finality and every transition, with no other transitions. Both results accept the same words. |

## Left out

- `DFA.draw` (dfa.py:34-51) is not modelled: it only draws the automaton through graph and plotting libraries.
- `DFA._get_graph_from_file` (dfa.py:172-213) is not modelled: it is file I/O and text parsing.
- `DFA.__str__` (dfa.py:160-169) is not modelled: it is presentation only.
- The `isinstance` checks of `__init__` (dfa.py:17-32) become the `WellFormed` predicate.
  - Well-formedness is a precondition of `Minimize`, because dfa.py:123 raises `KeyError` when a successor is not a listed state.
  - `RemoveUnreachable` needs no such precondition, since the search and the filters work on any record.
- States are integers, not strings. Python's `<` on state names becomes integer order.
- The new states are the integers `1..k`, not the strings `str(x)`.
- Minimization returns a new record instead of mutating the automaton in place.
- `DisjointSets.Make` takes the iteration order of `set(items)` as a parameter, since Python leaves that order unspecified.
  - `MergeEquivalent` passes one particular order (`Dedup`).
  - No property depends on which label a group receives.
- Reachability.ReachableStates: the stack is modelled as a set of pending states popped in any order. Pop order and repeated pushes do not change the reached set, so the result is the same; the intermediate stack contents are not modelled.
- Minimization.RebuildTransitions: walks the old transitions in an arbitrary order rather than dict insertion order. Its contract holds for every order. For total automata `SuccessorsAgree` shows that every write to one key agrees, so the order does not matter.
- Minimization.Rebuild: looks up `find_set` once per state into a map, rather than once per use. `NameIsFindSet` shows the two agree.
- Minimization.Assemble: takes the group count from the groups directly instead of through `get()`. `Get` shows these are the same list.
- DisjointSets.Union: requires both arguments or neither to be members. With exactly one member, disjoint_set.py:37 indexes a list with `None` and raises. With two non-members it does nothing and reports nothing.
- DisjointSets.FindSet: labels are not claimed stable across unions, since `del` at disjoint_set.py:38 shifts them.
- Minimization.Minimize: language equivalence, totality of the result and minimality are proved only for total automata.
  - With undefined transitions, dfa.py:122 gains no information from a missing successor. The unmarked relation then need not be transitive.
  - The union loop can then merge a marked pair, and the dict comprehension at dfa.py:147-148 keeps whichever write comes last.
  - For partial automata the model proves that groups have uniform finality and that indistinguishable states merge.
- Idempotence.MinimizeTwice: is stated for total automata only, for the same reason. It shows the second result is a renaming of the first, not that it is equal to it: the new names follow group order, not the first result's names.
- The table's dict insertion order is modelled by the pair sequence `Pairs(sorted(states))`. The union loop walks that sequence.
