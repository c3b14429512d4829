/**
 The partition-and-rebuild half of `DFA.minimize`: union every unmarked pair,
 then rename the states to their 1-based group positions.
 */
module Minimization {
  import opened Wrappers
  import opened Automata
  import opened DisjointSets
  import opened TableFilling
  import opened Reachability
  import opened Equivalence

  /** The listed states as a set. */
  function StateSet(a: Dfa): set<State> {
    set s | s in a.states
  }

  /** What the union loop keeps after the first `i` pairs. */
  ghost predicate UnionInvariant(a: Dfa, t: Table, pairs: seq<(State, State)>, d0: DisjointSet<State>,
                                 R: (State, State) -> bool, d: DisjointSet<State>, i: nat)
  {
    && i <= |pairs|
    && (forall k :: k in pairs ==> k in t)
    && Partition(d, StateSet(a))
    && GroupsWithin(d, R)
    && UnionDone(t, pairs, d0, d, i)
    && |d.groups| <= |d0.groups|
  }

  /** The grouping facts of the union loop after the first `i` pairs: every
      unmarked pair seen so far shares a group, and so do the elements that
      shared one at the start. */
  ghost predicate UnionDone(t: Table, pairs: seq<(State, State)>, d0: DisjointSet<State>,
                            d: DisjointSet<State>, i: nat)
    requires i <= |pairs| && forall k :: k in pairs ==> k in t
  {
    && (forall j :: 0 <= j < i && !t[pairs[j]] ==> SameGroup(d, pairs[j].0, pairs[j].1))
    && (forall x, y :: SameGroup(d0, x, y) ==> SameGroup(d, x, y))
  }

  /** A coarser grouping that also joins the pair at `i` keeps `UnionDone`
      one step further. */
  lemma UnionDoneStep(t: Table, pairs: seq<(State, State)>, d0: DisjointSet<State>,
                      d: DisjointSet<State>, r: DisjointSet<State>, i: nat)
    requires i < |pairs| && forall k :: k in pairs ==> k in t
    requires UnionDone(t, pairs, d0, d, i)
    requires forall x, y :: SameGroup(d, x, y) ==> SameGroup(r, x, y)
    requires !t[pairs[i]] ==> SameGroup(r, pairs[i].0, pairs[i].1)
    ensures UnionDone(t, pairs, d0, r, i + 1)
  {
    forall j | 0 <= j < i + 1 && !t[pairs[j]] ensures SameGroup(r, pairs[j].0, pairs[j].1) {
      if j < i {
        assert SameGroup(d, pairs[j].0, pairs[j].1);
      }
    }
  }

  lemma UnionStep(a: Dfa, t: Table, pairs: seq<(State, State)>, d0: DisjointSet<State>,
                  R: (State, State) -> bool, d: DisjointSet<State>, i: nat)
    requires UnionInvariant(a, t, pairs, d0, R, d, i)
    requires i < |pairs|
    requires forall k :: k in t ==> k.0 in a.states && k.1 in a.states
    requires IsEquivalenceOn(R, StateSet(a))
    requires forall k :: k in t && !t[k] ==> R(k.0, k.1)
    ensures !t[pairs[i]] ==> UnionInvariant(a, t, pairs, d0, R, Union(d, pairs[i].0, pairs[i].1), i + 1)
    ensures t[pairs[i]] ==> UnionInvariant(a, t, pairs, d0, R, d, i + 1)
  {
    var k := pairs[i];
    if !t[k] {
      assert k.0 in StateSet(a) && k.1 in StateSet(a);
      UnionWithin(d, k.0, k.1, R);
      UnionCoarsens(d, k.0, k.1);
      UnionDoneStep(t, pairs, d0, d, Union(d, k.0, k.1), i);
    } else {
      UnionDoneStep(t, pairs, d0, d, d, i);
    }
  }

  /** The union loop of dfa.py:133-135: every unmarked pair is unioned. The
      table's keys were inserted in the order of `pairs`, so the loop walks
      `pairs`.
      The result holds every unmarked pair in one group, and merges nothing
      else: each group stays inside any equivalence `R` that relates the
      unmarked pairs and contains the starting groups. */
  method UnionUnmarked(a: Dfa, t: Table, pairs: seq<(State, State)>, d0: DisjointSet<State>,
                       ghost R: (State, State) -> bool)
    returns (d: DisjointSet<State>)
    requires Partition(d0, StateSet(a))
    requires forall k :: k in t <==> k in pairs
    requires forall k :: k in t ==> k.0 in a.states && k.1 in a.states
    requires IsEquivalenceOn(R, StateSet(a)) && GroupsWithin(d0, R)
    requires forall k :: k in t && !t[k] ==> R(k.0, k.1)
    ensures Partition(d, StateSet(a))
    ensures forall k :: k in t && !t[k] ==> SameGroup(d, k.0, k.1)
    ensures forall x, y :: SameGroup(d0, x, y) ==> SameGroup(d, x, y)
    ensures GroupsWithin(d, R)
    ensures |d.groups| <= |d0.groups|
  {
    d := d0;
    var i := 0;
    while i < |pairs|
      invariant UnionInvariant(a, t, pairs, d0, R, d, i)
    {
      UnionStep(a, t, pairs, d0, R, d, i);
      var k := pairs[i];
      if !t[k] {
        d := Union(d, k.0, k.1);
      }
      i := i + 1;
    }
    forall k | k in t && !t[k] ensures SameGroup(d, k.0, k.1) {
      var j :| 0 <= j < |pairs| && pairs[j] == k;
    }
  }

  /** `d.find_set(x)`: the new name of the state `x`. */
  function Label(d: DisjointSet<State>, x: State): (l: State)
    requires x in Members(d)
    ensures 1 <= l <= |d.groups| && x in d.groups[l - 1]
  {
    FindSet(d, x).value
  }

  /** `labels` gives every member of every group the 1-based position of
      that group. */
  ghost predicate NamesGroups(d: DisjointSet<State>, labels: map<State, State>) {
    forall j, y :: 0 <= j < |d.groups| && y in d.groups[j] ==> y in labels && labels[y] == j + 1
  }

  lemma NameOfGroup(d: DisjointSet<State>, labels: map<State, State>, j: nat, y: State)
    requires NamesGroups(d, labels)
    requires j < |d.groups| && y in d.groups[j]
    ensures y in labels && labels[y] == j + 1
  {
  }

  /** `labels` names exactly the listed states of `p`, each by the 1-based
      position of the group holding it. */
  ghost predicate Naming(p: Dfa, d: DisjointSet<State>, labels: map<State, State>) {
    && (forall s :: s in labels <==> s in p.states)
    && (forall s :: s in labels ==> 1 <= labels[s] <= |d.groups| && s in d.groups[labels[s] - 1])
    && NamesGroups(d, labels)
  }

  /** `find_set` of every state of `states`, looked up once per state: the
      new name of each old state. */
  method NameStates(states: seq<State>, d: DisjointSet<State>) returns (labels: map<State, State>)
    requires forall s :: s in states ==> s in Members(d)
    ensures forall s :: s in labels <==> s in states
    ensures forall s :: s in labels ==> 1 <= labels[s] <= |d.groups| && s in d.groups[labels[s] - 1]
  {
    labels := map[];
    var i := 0;
    while i < |states|
      invariant i <= |states|
      invariant forall s :: s in labels <==> s in states[..i]
      invariant forall s :: s in labels ==> 1 <= labels[s] <= |d.groups| && s in d.groups[labels[s] - 1]
    {
      assert states[..i + 1] == states[..i] + [states[i]];
      labels := labels[states[i] := Label(d, states[i])];
      i := i + 1;
    }
    assert states[..i] == states;
  }

  lemma StatesAreMembers(p: Dfa, d: DisjointSet<State>)
    requires Partition(d, StateSet(p))
    ensures forall s :: s in p.states ==> s in Members(d)
  {
    assert forall s :: s in p.states ==> s in StateSet(p);
  }

  /** Naming the listed states of a partition of them names every group. */
  lemma NamingComplete(p: Dfa, d: DisjointSet<State>, labels: map<State, State>)
    requires Partition(d, StateSet(p))
    requires forall s :: s in labels <==> s in p.states
    requires forall s :: s in labels ==> 1 <= labels[s] <= |d.groups| && s in d.groups[labels[s] - 1]
    ensures Naming(p, d, labels)
  {
    forall j, y | 0 <= j < |d.groups| && y in d.groups[j] ensures y in labels && labels[y] == j + 1 {
      MemberOfGroup(d, j, y);
      assert y in StateSet(p);
    }
  }

  /** The name of a state is its `find_set`. */
  lemma NameIsFindSet(d: DisjointSet<State>, labels: map<State, State>, s: State)
    requires Valid(d)
    requires s in labels && 1 <= labels[s] <= |d.groups| && s in d.groups[labels[s] - 1]
    ensures FindSet(d, s) == Some(labels[s])
  {
    var l := labels[s];
    assert s in d.groups[l - 1];
  }

  /** The group holds some final state. */
  predicate HasFinal(g: seq<State>, finals: seq<State>) {
    exists i :: 0 <= i < |g| && g[i] in finals
  }

  /** The inner loop of dfa.py:142-145, which stops at the first final state
      of a group. */
  function FirstFinal(g: seq<State>, finals: seq<State>): (r: Option<State>)
    ensures r.Some? ==> r.value in g && r.value in finals
    ensures r.None? <==> !HasFinal(g, finals)
  {
    if g == [] then None
    else if g[0] in finals then
      Some(g[0])
    else
      var r := FirstFinal(g[1..], finals);
      assert forall i :: 1 <= i < |g| ==> g[i] == g[1..][i - 1];
      r
  }

  /** The `new_final_states` loop over the groups from position `i` on: the
      name of every group holding a final state, once each, in group order. */
  function FinalLabels(d: DisjointSet<State>, labels: map<State, State>, finals: seq<State>, i: nat)
    : (r: seq<State>)
    requires NamesGroups(d, labels)
    ensures forall x :: x in r <==> i < x <= |d.groups| && HasFinal(d.groups[x - 1], finals)
    ensures forall j, k :: 0 <= j < k < |r| ==> r[j] < r[k]
    ensures forall j :: 0 <= j < |r| ==> r[j] > i
    decreases |d.groups| - i
  {
    if i >= |d.groups| then []
    else
      var rest := FinalLabels(d, labels, finals, i + 1);
      match FirstFinal(d.groups[i], finals)
      case None => rest
      case Some(y) =>
        assert labels[y] == i + 1;
        [labels[y]] + rest
  }

  /** The dict comprehension over the old transitions, renaming source and
      target. The comprehension walks the dict in insertion order and a later
      entry overwrites an earlier one with the same new key; the loop here
      walks the keys in an arbitrary order, so what it proves holds for every
      order. */
  method RebuildTransitions(labels: map<State, State>, trans: map<(State, Symbol), State>)
    returns (nt: map<(State, Symbol), State>)
    requires forall k :: k in trans ==> k.0 in labels && trans[k] in labels
    ensures forall k :: k in trans ==> (labels[k.0], k.1) in nt
    ensures forall nk :: nk in nt ==>
              exists k :: k in trans && nk == (labels[k.0], k.1) && nt[nk] == labels[trans[k]]
  {
    nt := map[];
    var todo := trans.Keys;
    while todo != {}
      invariant todo <= trans.Keys
      invariant forall k :: k in trans && k !in todo ==> (labels[k.0], k.1) in nt
      invariant forall nk :: nk in nt ==>
                  exists k :: k in trans && nk == (labels[k.0], k.1) && nt[nk] == labels[trans[k]]
      decreases |todo|
    {
      ghost var picked := SomeElement(todo);
      var k :| k in todo;
      var nk := (labels[k.0], k.1);
      nt := nt[nk := labels[trans[k]]];
      todo := todo - {k};
    }
  }

  /** What lines 137-150 of `minimize` build from the groups of `d`, with
      `labels` the new name of each old state. */
  ghost predicate RebuiltBy(p: Dfa, d: DisjointSet<State>, m: Dfa, labels: map<State, State>)
    requires p.start in labels
    requires forall k :: k in p.transitions ==> k.0 in labels && p.transitions[k] in labels
  {
    && |m.states| == |d.groups|
    && (forall i :: 0 <= i < |m.states| ==> m.states[i] == i + 1)
    && m.alphabet == p.alphabet
    && m.start == labels[p.start]
    && (forall x :: x in m.finals <==> 1 <= x <= |d.groups| && HasFinal(d.groups[x - 1], p.finals))
    && (forall k :: k in p.transitions ==> (labels[k.0], k.1) in m.transitions)
    && (forall nk :: nk in m.transitions ==>
          exists k :: k in p.transitions && nk == (labels[k.0], k.1) &&
                      m.transitions[nk] == labels[p.transitions[k]])
    && WellFormed(m)
  }

  /** Lines 137-150 of `minimize`: the states become `1..k`, one per group;
      the start state, the final states and the transitions are renamed
      through `find_set`, here looked up once per state into `labels`. */
  method Rebuild(a: Dfa, d: DisjointSet<State>) returns (m: Dfa, labels: map<State, State>)
    requires WellFormed(a)
    requires Partition(d, StateSet(a))
    ensures Naming(a, d, labels)
    ensures a.start in labels
    ensures forall k :: k in a.transitions ==> k.0 in labels && a.transitions[k] in labels
    ensures RebuiltBy(a, d, m, labels)
    ensures NoDuplicates(m.finals)
  {
    StatesAreMembers(a, d);
    labels := NameStates(a.states, d);
    NamingComplete(a, d, labels);
    m := Assemble(a, d, labels);
  }

  lemma NameInRange(a: Dfa, d: DisjointSet<State>, labels: map<State, State>, s: State)
    requires Naming(a, d, labels) && s in labels
    ensures 1 <= labels[s] <= |d.groups|
  {
  }

  /** The new automaton from the groups of `d` and the new names. */
  method Assemble(a: Dfa, d: DisjointSet<State>, labels: map<State, State>) returns (m: Dfa)
    requires WellFormed(a) && Naming(a, d, labels)
    requires a.start in labels
    requires forall k :: k in a.transitions ==> k.0 in labels && a.transitions[k] in labels
    ensures RebuiltBy(a, d, m, labels)
    ensures NoDuplicates(m.finals)
  {
    // `get` (disjoint_set.py:40-41) hands back the groups themselves; only
    // their number is needed here
    var n := |d.groups|;
    var states := seq(n, i requires 0 <= i < n => i + 1);
    var start := labels[a.start];
    var finals := FinalLabels(d, labels, a.finals, 0);
    var nt := RebuildTransitions(labels, a.transitions);
    m := Dfa(states, a.alphabet, start, nt, finals);
    assert forall x :: x in m.states <==> 1 <= x <= |d.groups| by {
      forall x | 1 <= x <= |d.groups| ensures x in m.states {
        assert m.states[x - 1] == x;
      }
    }
    forall nk | nk in m.transitions
      ensures nk.0 in m.states && nk.1 in m.alphabet && m.transitions[nk] in m.states
    {
      var k :| k in a.transitions && nk == (labels[k.0], k.1) && nt[nk] == labels[a.transitions[k]];
      NameInRange(a, d, labels, k.0);
      NameInRange(a, d, labels, a.transitions[k]);
    }
    assert WellFormed(m);
  }

  /** The listed states that some word reaches from the start state. */
  ghost function Live(a: Dfa): set<State> {
    set s | s in a.states && Reaches(a, s)
  }

  /** `DisjointSet(states)` starts with singletons, which lie inside any
      reflexive relation. */
  lemma SingletonsWithin(d: DisjointSet<State>, R: (State, State) -> bool)
    requires Valid(d)
    requires forall m :: 0 <= m < |d.groups| ==> |d.groups[m]| == 1
    requires forall x :: x in Members(d) ==> R(x, x)
    ensures GroupsWithin(d, R)
  {
    forall x, y | x in Members(d) && y in Members(d) && SameGroup(d, x, y) ensures R(x, y) {
      var l := Label(d, x);
      assert Label(d, y) == l;
      assert x == d.groups[l - 1][0] == y;
    }
  }

  /** An unmarked pair after the fixpoint is compatible. */
  lemma UnmarkedCompatible(p: Dfa, t: Table)
    requires forall k :: k in t ==> (t[k] <==> Distinguishable(p, k.0, k.1))
    ensures forall k :: k in t && !t[k] ==> CompatibleWith(p)(k.0, k.1)
  {
    forall k | k in t && !t[k] ensures CompatibleWith(p)(k.0, k.1) {
      assert !Separates(p, k.0, k.1, []);
    }
  }

  /** Every pair of indistinguishable listed states ends in one group: for
      `x < y` the pair is a table key, and `x == y` is trivial. */
  lemma MergesIndistinguishable(p: Dfa, t: Table, d: DisjointSet<State>)
    requires Partition(d, StateSet(p))
    requires forall k :: k in t ==> (t[k] <==> Distinguishable(p, k.0, k.1))
    requires forall x, y :: x in p.states && y in p.states && x < y ==> (x, y) in t
    requires forall k :: k in t && !t[k] ==> SameGroup(d, k.0, k.1)
    ensures forall x, y :: x in p.states && y in p.states && !Distinguishable(p, x, y) ==> SameGroup(d, x, y)
  {
    forall x, y | x in p.states && y in p.states && !Distinguishable(p, x, y) ensures SameGroup(d, x, y) {
      if x < y {
        assert (x, y) in t;
      } else if y < x {
        DistinguishableSymmetric(p, x, y);
        assert (y, x) in t;
      } else {
        assert x in Members(d);
      }
    }
  }

  /** Two states share a group exactly when they share a name. */
  lemma SameGroupSameName(p: Dfa, d: DisjointSet<State>, labels: map<State, State>, s: State, s': State)
    requires Valid(d) && Naming(p, d, labels)
    requires s in labels && s' in labels
    ensures SameGroup(d, s, s') <==> labels[s] == labels[s']
  {
    NameIsFindSet(d, labels, s);
    NameIsFindSet(d, labels, s');
  }

  /** What the groups give once the union loop is done, stated through the
      names: states with one name are compatible, and indistinguishable
      states have one name. */
  lemma GroupsToNames(p: Dfa, d: DisjointSet<State>, labels: map<State, State>)
    requires Partition(d, StateSet(p)) && Naming(p, d, labels)
    requires GroupsWithin(d, CompatibleWith(p))
    requires forall x, y :: x in p.states && y in p.states && !Distinguishable(p, x, y) ==> SameGroup(d, x, y)
    ensures forall s, s' :: s in labels && s' in labels && labels[s] == labels[s'] ==> Compatible(p, s, s')
    ensures MergesAllEquivalent(p, labels)
  {
    forall s, s' | s in labels && s' in labels && labels[s] == labels[s'] ensures Compatible(p, s, s') {
      SameGroupSameName(p, d, labels, s, s');
      assert s in Members(d) && s' in Members(d);
      assert CompatibleWith(p)(s, s');
    }
    forall s, s' | s in p.states && s' in p.states && !Distinguishable(p, s, s') ensures labels[s] == labels[s'] {
      SameGroupSameName(p, d, labels, s, s');
    }
  }

  /** A group holds a final state exactly when its members are final. */
  lemma GroupFinality(p: Dfa, d: DisjointSet<State>, labels: map<State, State>, s: State)
    requires WellFormed(p) && Partition(d, StateSet(p)) && Naming(p, d, labels)
    requires forall s, s' :: s in labels && s' in labels && labels[s] == labels[s'] ==> Compatible(p, s, s')
    requires s in labels
    ensures HasFinal(d.groups[labels[s] - 1], p.finals) <==> IsFinal(p, s)
  {
    var l := labels[s];
    var g := d.groups[l - 1];
    if HasFinal(g, p.finals) {
      var i :| 0 <= i < |g| && g[i] in p.finals;
      NameOfGroup(d, labels, l - 1, g[i]);
      assert Compatible(p, s, g[i]);
    }
    if IsFinal(p, s) {
      var i :| 0 <= i < |g| && g[i] == s;
      assert g[i] in p.finals;
    }
  }

  /** The names are exactly the new states, and there are no more of them
      than listed states. */
  lemma QuotientStates(p: Dfa, d: DisjointSet<State>, m: Dfa, labels: map<State, State>)
    requires WellFormed(p) && Partition(d, StateSet(p)) && Naming(p, d, labels)
    requires |m.states| == |d.groups| && (forall i :: 0 <= i < |m.states| ==> m.states[i] == i + 1)
    ensures forall s :: s in labels ==> labels[s] in m.states
    ensures Onto(m, labels)
    ensures |m.states| <= |StateSet(p)|
  {
    forall s | s in labels ensures labels[s] in m.states {
      assert m.states[labels[s] - 1] == labels[s];
    }
    forall x | x in m.states ensures exists s :: s in labels && labels[s] == x {
      var i :| 0 <= i < |m.states| && m.states[i] == x;
      var s := d.groups[i][0];
      assert s in labels && labels[s] == i + 1;
    }
    GroupCountBound(d);
  }

  /** A new state is final exactly when the states it names are. */
  lemma QuotientFinals(p: Dfa, d: DisjointSet<State>, m: Dfa, labels: map<State, State>)
    requires WellFormed(p) && Partition(d, StateSet(p)) && Naming(p, d, labels)
    requires forall s, s' :: s in labels && s' in labels && labels[s] == labels[s'] ==> Compatible(p, s, s')
    requires forall x :: x in m.finals <==> 1 <= x <= |d.groups| && HasFinal(d.groups[x - 1], p.finals)
    ensures forall s :: s in labels ==> (IsFinal(m, labels[s]) <==> IsFinal(p, s))
  {
    forall s | s in labels ensures IsFinal(m, labels[s]) <==> IsFinal(p, s) {
      GroupFinality(p, d, labels, s);
    }
  }

  /** In a total automaton states with one name are indistinguishable. */
  lemma QuotientMerges(p: Dfa, labels: map<State, State>)
    requires forall s, s' :: s in labels && s' in labels && labels[s] == labels[s'] ==> Compatible(p, s, s')
    ensures Total(p) ==> MergesOnlyEquivalent(p, labels)
  {
  }

  /** The groups give a renaming of `p` into `m`. */
  lemma GroupsGiveQuotient(p: Dfa, d: DisjointSet<State>, m: Dfa, labels: map<State, State>)
    requires WellFormed(p) && Partition(d, StateSet(p)) && Naming(p, d, labels)
    requires forall k :: k in p.transitions ==> k.0 in labels && p.transitions[k] in labels
    requires forall s, s' :: s in labels && s' in labels && labels[s] == labels[s'] ==> Compatible(p, s, s')
    requires RebuiltBy(p, d, m, labels)
    ensures QuotientMap(p, m, labels) && Onto(m, labels)
    ensures |m.states| <= |StateSet(p)|
  {
    QuotientStates(p, d, m, labels);
    QuotientFinals(p, d, m, labels);
  }

  /** Lines 97-150 of `minimize` on an automaton whose unreachable states
      are gone: fill the table, union the unmarked pairs, rebuild. */
  method MergeEquivalent(p: Dfa) returns (m: Dfa, labels: map<State, State>)
    requires WellFormed(p)
    ensures QuotientMap(p, m, labels) && Onto(m, labels)
    ensures MergesAllEquivalent(p, labels)
    ensures Total(p) ==> MergesOnlyEquivalent(p, labels)
    ensures forall i :: 0 <= i < |m.states| ==> m.states[i] == i + 1
    ensures |m.states| <= |StateSet(p)|
    ensures NoDuplicates(m.finals)
  {
    var t, pairs := DistinguishabilityTable(p);
    var d := Make(p.states, Dedup(p.states));
    ghost var R := CompatibleWith(p);
    CompatibleIsEquivalence(p);
    SingletonsWithin(d, R);
    UnmarkedCompatible(p, t);
    d := UnionUnmarked(p, t, pairs, d, R);
    MergesIndistinguishable(p, t, d);
    m, labels := Rebuild(p, d);
    GroupsToNames(p, d, labels);
    QuotientMerges(p, labels);
    GroupsGiveQuotient(p, d, m, labels);
  }

  /** Pruning on the reachable states keeps finality, distinguishability,
      the transitions of kept states, totality and the language, and leaves
      every kept state reachable. */
  lemma PrunedView(a: Dfa, reached: set<State>)
    requires WellFormed(a)
    requires forall s :: s in reached <==> Reaches(a, s)
    requires ClosedFromStart(a, reached)
    ensures var p := Prune(a, reached);
            && WellFormed(p)
            && (forall s :: s in p.states <==> s in a.states && Reaches(a, s))
            && StateSet(p) == Live(a)
            && (forall s :: s in p.states ==> (IsFinal(p, s) <==> IsFinal(a, s)))
            && (forall s, s' :: s in p.states && s' in p.states ==>
                  (Distinguishable(p, s, s') <==> Distinguishable(a, s, s')))
            && (forall k :: k in p.transitions <==> k in a.transitions && k.0 in p.states)
            && (forall k :: k in p.transitions ==> p.transitions[k] == a.transitions[k])
            && (Total(a) ==> Total(p))
            && (forall w :: Accepts(p, w) <==> Accepts(a, w))
            && (forall s :: s in p.states ==> Reaches(p, s))
  {
    var p := Prune(a, reached);
    PruneWellFormed(a, reached);
    forall s, s' | s in p.states && s' in p.states
      ensures Distinguishable(p, s, s') <==> Distinguishable(a, s, s')
    {
      PruneKeepsDistinguishable(a, reached, s, s');
    }
    forall w ensures Accepts(p, w) <==> Accepts(a, w) {
      PruneKeepsLanguage(a, reached, w);
    }
    forall s | s in p.states ensures Reaches(p, s) {
      var w :| Run(a, a.start, w) == Some(s);
      PruneKeepsRuns(a, reached, a.start, w);
      assert Run(p, p.start, w) == Some(s);
    }
  }

  /** Renaming after pruning, stated on the original automaton's states. */
  lemma LiftMerges(a: Dfa, p: Dfa, labels: map<State, State>)
    requires forall s :: s in labels <==> s in p.states
    requires forall s, s' :: s in p.states && s' in p.states ==>
               (Distinguishable(p, s, s') <==> Distinguishable(a, s, s'))
    requires MergesAllEquivalent(p, labels)
    requires Total(p) ==> MergesOnlyEquivalent(p, labels)
    requires Total(a) ==> Total(p)
    ensures forall s, s' :: s in labels && s' in labels && !Distinguishable(a, s, s') ==> labels[s] == labels[s']
    ensures Total(a) ==>
              forall s, s' :: s in labels && s' in labels ==> (labels[s] == labels[s'] <==> !Distinguishable(a, s, s'))
  {
    forall s, s' | s in labels && s' in labels
      ensures !Distinguishable(a, s, s') ==> labels[s] == labels[s']
      ensures Total(a) && labels[s] == labels[s'] ==> !Distinguishable(a, s, s')
    {
      assert s in p.states && s' in p.states;
      assert Distinguishable(p, s, s') == Distinguishable(a, s, s');
    }
  }

  lemma LiftTransitions(a: Dfa, p: Dfa, m: Dfa, labels: map<State, State>)
    requires QuotientMap(p, m, labels)
    requires forall k :: k in p.transitions <==> k in a.transitions && k.0 in p.states
    requires forall k :: k in p.transitions ==> p.transitions[k] == a.transitions[k]
    ensures forall k :: k in a.transitions && k.0 in labels ==> (labels[k.0], k.1) in m.transitions
    ensures forall nk :: nk in m.transitions ==>
              exists k :: && k in a.transitions && k.0 in labels && a.transitions[k] in labels
                          && nk == (labels[k.0], k.1) && m.transitions[nk] == labels[a.transitions[k]]
  {
    forall k | k in a.transitions && k.0 in labels ensures (labels[k.0], k.1) in m.transitions {
      assert QuotientMap(p, m, labels);
      assert forall s :: s in labels ==> s in p.states;
      assert k.0 in p.states;
      assert k in p.transitions;
    }
    forall nk | nk in m.transitions
      ensures exists k :: && k in a.transitions && k.0 in labels && a.transitions[k] in labels
                          && nk == (labels[k.0], k.1) && m.transitions[nk] == labels[a.transitions[k]]
    {
      var k :| k in p.transitions && nk == (labels[k.0], k.1) && m.transitions[nk] == labels[p.transitions[k]];
      assert k in a.transitions && k.0 in labels && a.transitions[k] in labels;
    }
  }

  /** `DFA.minimize`: drop the unreachable states, fill the distinguishability
      table, union the unmarked pairs and rebuild on the groups. `labels` is
      the renaming `find_set` performs. */
  method Minimize(a: Dfa) returns (m: Dfa, labels: map<State, State>)
    requires WellFormed(a)
    ensures WellFormed(m)
    ensures forall i :: 0 <= i < |m.states| ==> m.states[i] == i + 1
    ensures |m.states| <= |Live(a)|
    ensures m.alphabet == a.alphabet
    ensures forall s :: s in labels <==> s in a.states && Reaches(a, s)
    ensures forall s :: s in labels ==> labels[s] in m.states
    ensures forall x :: x in m.states ==> exists s :: s in labels && labels[s] == x
    ensures a.start in labels && m.start == labels[a.start]
    ensures forall s :: s in labels ==> (IsFinal(m, labels[s]) <==> IsFinal(a, s))
    ensures NoDuplicates(m.finals)
    ensures forall s, s' :: s in labels && s' in labels && !Distinguishable(a, s, s') ==> labels[s] == labels[s']
    ensures forall k :: k in a.transitions && k.0 in labels ==> (labels[k.0], k.1) in m.transitions
    ensures forall nk :: nk in m.transitions ==>
              exists k :: && k in a.transitions && k.0 in labels && a.transitions[k] in labels
                          && nk == (labels[k.0], k.1) && m.transitions[nk] == labels[a.transitions[k]]
    ensures Total(a) ==>
              forall s, s' :: s in labels && s' in labels ==> (labels[s] == labels[s'] <==> !Distinguishable(a, s, s'))
    ensures Total(a) ==> Total(m)
    ensures Total(a) ==> forall w :: Accepts(m, w) <==> Accepts(a, w)
    ensures Total(a) ==> forall x, y :: x in m.states && y in m.states && x != y ==> Distinguishable(m, x, y)
    ensures Total(a) ==> forall x :: x in m.states ==> Reaches(m, x)
    ensures Total(a) ==>
              forall k :: k in a.transitions && k.0 in labels ==>
                a.transitions[k] in labels && m.transitions[(labels[k.0], k.1)] == labels[a.transitions[k]]
  {
    var p;
    ghost var reached;
    p, reached := RemoveUnreachable(a);
    PrunedView(a, reached);
    m, labels := MergeEquivalent(p);
    LiftMerges(a, p, labels);
    LiftTransitions(a, p, m, labels);
    if Total(a) {
      TotalQuotient(a, p, m, labels);
      TotalRenamesTransitions(a, m, labels);
    }
  }

  /** In a total automaton whose states share a name exactly when they are
      indistinguishable, every old transition out of a named state is renamed
      into the new automaton: the one value the rebuilt dict holds for the new
      key is the name of the old target, whichever old transition wrote it. */
  lemma TotalRenamesTransitions(a: Dfa, m: Dfa, labels: map<State, State>)
    requires WellFormed(a) && Total(a)
    requires forall s :: s in labels <==> s in a.states && Reaches(a, s)
    requires forall s, s' :: s in labels && s' in labels ==>
               (labels[s] == labels[s'] <==> !Distinguishable(a, s, s'))
    requires forall k :: k in a.transitions && k.0 in labels ==> (labels[k.0], k.1) in m.transitions
    requires forall nk :: nk in m.transitions ==>
               exists k :: && k in a.transitions && k.0 in labels && a.transitions[k] in labels
                           && nk == (labels[k.0], k.1) && m.transitions[nk] == labels[a.transitions[k]]
    ensures forall k :: k in a.transitions && k.0 in labels ==>
              a.transitions[k] in labels && m.transitions[(labels[k.0], k.1)] == labels[a.transitions[k]]
  {
    forall k | k in a.transitions && k.0 in labels
      ensures a.transitions[k] in labels && m.transitions[(labels[k.0], k.1)] == labels[a.transitions[k]]
    {
      ReachesStep(a, k.0, k.1);
      var nk := (labels[k.0], k.1);
      var k' :| && k' in a.transitions && k'.0 in labels && a.transitions[k'] in labels
                && nk == (labels[k'.0], k'.1) && m.transitions[nk] == labels[a.transitions[k']];
      assert k' == (k'.0, k.1);
      IndistinguishableSuccessors(a, k.0, k'.0, k.1);
    }
  }

  /** For a total automaton the rebuilt one is total, accepts the same words,
      and is minimal: every state reachable, distinct states distinguishable. */
  lemma TotalQuotient(a: Dfa, p: Dfa, m: Dfa, labels: map<State, State>)
    requires QuotientMap(p, m, labels) && Onto(m, labels)
    requires MergesAllEquivalent(p, labels) && MergesOnlyEquivalent(p, labels)
    requires Total(p)
    requires forall w :: Accepts(p, w) <==> Accepts(a, w)
    requires forall s :: s in p.states ==> Reaches(p, s)
    ensures Total(m)
    ensures forall w :: Accepts(m, w) <==> Accepts(a, w)
    ensures forall x, y :: x in m.states && y in m.states && x != y ==> Distinguishable(m, x, y)
    ensures forall x :: x in m.states ==> Reaches(m, x)
  {
    QuotientRenames(p, m, labels);
    QuotientTotal(p, m, labels);
    QuotientLanguage(p, m, labels);
    QuotientMinimal(p, m, labels);
  }
}
