/**
 Facts about distinguishability and quotients that connect the table to the
 languages of the original and the minimized automaton.
 */
module Equivalence {
  import opened Wrappers
  import opened Automata
  import opened TableFilling
  import opened Reachability
  import opened DisjointSets

  lemma DistinguishableSymmetric(a: Dfa, p: State, q: State)
    ensures Distinguishable(a, p, q) <==> Distinguishable(a, q, p)
  {
    if Distinguishable(a, p, q) {
      var w :| Separates(a, p, q, w);
      assert Separates(a, q, p, w);
    }
    if Distinguishable(a, q, p) {
      var w :| Separates(a, q, p, w);
      assert Separates(a, p, q, w);
    }
  }

  /** The relation the rebuild may merge along: same finality, and in a total
      automaton no separating word. */
  ghost predicate Compatible(a: Dfa, x: State, y: State) {
    && IsFinal(a, x) == IsFinal(a, y)
    && (Total(a) ==> !Distinguishable(a, x, y))
  }

  /** In a total automaton indistinguishability is transitive: a word that
      separates `x` from `z` runs from `y` too, and so separates `y` from one
      of them. */
  lemma IndistinguishableTransitive(a: Dfa, x: State, y: State, z: State)
    requires WellFormed(a) && Total(a)
    requires x in a.states && y in a.states && z in a.states
    requires !Distinguishable(a, x, y) && !Distinguishable(a, y, z)
    ensures !Distinguishable(a, x, z)
  {
    forall w ensures !Separates(a, x, z, w) {
      if Run(a, x, w).Some? && Run(a, z, w).Some? {
        RunStaysInStates(a, x, w);
        TotalRunDefined(a, y, w);
        assert !Separates(a, x, y, w);
        assert !Separates(a, y, z, w);
      }
    }
  }

  /** `Compatible` as a relation value, for the union-find lemmas. */
  ghost function CompatibleWith(a: Dfa): (State, State) -> bool {
    (x: State, y: State) => Compatible(a, x, y)
  }

  lemma CompatibleIsEquivalence(a: Dfa)
    requires WellFormed(a)
    ensures IsEquivalenceOn(CompatibleWith(a), set s | s in a.states)
  {
    var R := CompatibleWith(a);
    var u := set s | s in a.states;
    forall x | x in u ensures R(x, x) {
      assert forall w :: !Separates(a, x, x, w);
    }
    forall x, y | x in u && y in u && R(x, y) ensures R(y, x) {
      DistinguishableSymmetric(a, x, y);
    }
    forall x, y, z | x in u && y in u && z in u && R(x, y) && R(y, z) ensures R(x, z) {
      if Total(a) {
        IndistinguishableTransitive(a, x, y, z);
      }
    }
  }

  /** Indistinguishable states have indistinguishable successors. */
  lemma IndistinguishableSuccessors(a: Dfa, x: State, y: State, c: Symbol)
    requires (x, c) in a.transitions && (y, c) in a.transitions
    requires !Distinguishable(a, x, y)
    ensures !Distinguishable(a, a.transitions[(x, c)], a.transitions[(y, c)])
  {
    forall w ensures !Separates(a, a.transitions[(x, c)], a.transitions[(y, c)], w) {
      SeparatesPrefix(a, x, y, c, w);
      assert !Separates(a, x, y, [c] + w);
    }
  }

  /** Pruning on a closed set changes no separating word between kept states. */
  lemma PruneKeepsDistinguishable(a: Dfa, keep: set<State>, x: State, y: State)
    requires ClosedFromStart(a, keep)
    requires x in keep && y in keep
    ensures Distinguishable(Prune(a, keep), x, y) <==> Distinguishable(a, x, y)
  {
    var p := Prune(a, keep);
    forall w ensures Separates(p, x, y, w) <==> Separates(a, x, y, w) {
      PruneKeepsRuns(a, keep, x, w);
      PruneKeepsRuns(a, keep, y, w);
      ClosedContainsRuns(a, keep, x, w);
      ClosedContainsRuns(a, keep, y, w);
    }
    if Distinguishable(p, x, y) {
      var w :| Separates(p, x, y, w);
      assert Separates(a, x, y, w);
    }
    if Distinguishable(a, x, y) {
      var w :| Separates(a, x, y, w);
      assert Separates(p, x, y, w);
    }
  }

  /** `m` is `a` with its states renamed by `labels`: every transition out of
      a labelled state appears renamed, and `m` has no other transitions. */
  ghost predicate RenamedTransitions(a: Dfa, m: Dfa, labels: map<State, State>) {
    && (forall k :: k in a.transitions && k.0 in labels ==>
          && a.transitions[k] in labels
          && (labels[k.0], k.1) in m.transitions
          && m.transitions[(labels[k.0], k.1)] == labels[a.transitions[k]])
    && (forall nk :: nk in m.transitions ==>
          exists k :: k in a.transitions && k.0 in labels && nk == (labels[k.0], k.1))
  }

  /** Runs in the renamed automaton are the renamed runs. */
  lemma {:induction false} QuotientRun(a: Dfa, m: Dfa, labels: map<State, State>, s: State, w: seq<Symbol>)
    requires WellFormed(a) && Total(a)
    requires forall x :: x in labels ==> x in a.states
    requires RenamedTransitions(a, m, labels)
    requires s in labels
    ensures Run(a, s, w).Some? ==> Run(a, s, w).value in labels
    ensures Run(m, labels[s], w) ==
            (match Run(a, s, w)
             case None => None
             case Some(x) => Some(labels[x]))
    decreases |w|
  {
    if w != [] {
      var c := w[0];
      if (s, c) in a.transitions {
        QuotientRun(a, m, labels, a.transitions[(s, c)], w[1..]);
      } else {
        assert c !in a.alphabet;
        if (labels[s], c) in m.transitions {
          assert false;
        }
      }
    }
  }

  /** `labels` renames the listed states of `p` into the states of `m`,
      keeping the alphabet, the start state, finality and the transitions. */
  ghost predicate QuotientMap(p: Dfa, m: Dfa, labels: map<State, State>) {
    && WellFormed(p) && WellFormed(m)
    && (forall s :: s in labels <==> s in p.states)
    && (forall k :: k in p.transitions ==> k.0 in labels && p.transitions[k] in labels)
    && (forall s :: s in labels ==> labels[s] in m.states)
    && m.alphabet == p.alphabet
    && m.start == labels[p.start]
    && (forall s :: s in labels ==> (IsFinal(m, labels[s]) <==> IsFinal(p, s)))
    && (forall k :: k in p.transitions ==> (labels[k.0], k.1) in m.transitions)
    && (forall nk :: nk in m.transitions ==>
          exists k :: && k in p.transitions && nk == (labels[k.0], k.1)
                      && m.transitions[nk] == labels[p.transitions[k]])
  }

  /** Every state of `m` is the name of some state. */
  ghost predicate Onto(m: Dfa, labels: map<State, State>) {
    forall x :: x in m.states ==> exists s :: s in labels && labels[s] == x
  }

  /** Indistinguishable states share a name. */
  ghost predicate MergesAllEquivalent(p: Dfa, labels: map<State, State>) {
    forall s, s' :: s in labels && s' in labels && !Distinguishable(p, s, s') ==> labels[s] == labels[s']
  }

  /** Only indistinguishable states share a name. */
  ghost predicate MergesOnlyEquivalent(p: Dfa, labels: map<State, State>) {
    forall s, s' :: s in labels && s' in labels && labels[s] == labels[s'] ==> !Distinguishable(p, s, s')
  }

  /** When only indistinguishable states share a name, transitions on one
      symbol out of states with one name lead to states with one name. */
  lemma SuccessorsAgree(p: Dfa, labels: map<State, State>)
    requires forall k :: k in p.transitions ==> k.0 in labels && p.transitions[k] in labels
    requires MergesAllEquivalent(p, labels) && MergesOnlyEquivalent(p, labels)
    ensures forall k, k' :: k in p.transitions && k' in p.transitions && k.1 == k'.1 && labels[k.0] == labels[k'.0] ==>
              labels[p.transitions[k]] == labels[p.transitions[k']]
  {
    forall k, k' | k in p.transitions && k' in p.transitions && k.1 == k'.1 && labels[k.0] == labels[k'.0]
      ensures labels[p.transitions[k]] == labels[p.transitions[k']]
    {
      assert k' == (k'.0, k.1);
      IndistinguishableSuccessors(p, k.0, k'.0, k.1);
    }
  }

  /** Merging only indistinguishable states makes the renaming consistent:
      every new transition is the renaming of each old transition it stands
      for. */
  lemma QuotientRenames(p: Dfa, m: Dfa, labels: map<State, State>)
    requires QuotientMap(p, m, labels)
    requires MergesAllEquivalent(p, labels) && MergesOnlyEquivalent(p, labels)
    ensures RenamedTransitions(p, m, labels)
  {
    SuccessorsAgree(p, labels);
    forall k | k in p.transitions && k.0 in labels
      ensures p.transitions[k] in labels
      ensures m.transitions[(labels[k.0], k.1)] == labels[p.transitions[k]]
    {
      var nk := (labels[k.0], k.1);
      var k' :| && k' in p.transitions && nk == (labels[k'.0], k'.1)
                && m.transitions[nk] == labels[p.transitions[k']];
    }
  }

  /** The quotient of a total automaton is total. */
  lemma QuotientTotal(p: Dfa, m: Dfa, labels: map<State, State>)
    requires QuotientMap(p, m, labels) && Onto(m, labels)
    requires Total(p)
    ensures Total(m)
  {
    forall x, c | x in m.states && c in m.alphabet ensures (x, c) in m.transitions {
      var s :| s in labels && labels[s] == x;
      assert (s, c) in p.transitions;
    }
  }

  /** A consistent renaming of a total automaton accepts the same words. */
  lemma QuotientLanguage(p: Dfa, m: Dfa, labels: map<State, State>)
    requires QuotientMap(p, m, labels)
    requires Total(p) && RenamedTransitions(p, m, labels)
    ensures forall w :: Accepts(m, w) <==> Accepts(p, w)
  {
    forall w ensures Accepts(m, w) <==> Accepts(p, w) {
      QuotientRun(p, m, labels, p.start, w);
    }
  }

  /** The name of a reachable state is reachable. */
  lemma QuotientReaches(p: Dfa, m: Dfa, labels: map<State, State>, s: State)
    requires QuotientMap(p, m, labels)
    requires Total(p) && RenamedTransitions(p, m, labels)
    requires s in labels && Reaches(p, s)
    ensures Reaches(m, labels[s])
  {
    var w :| Run(p, p.start, w) == Some(s);
    QuotientRun(p, m, labels, p.start, w);
    assert Run(m, m.start, w) == Some(labels[s]);
  }

  /** The names of distinguishable states are distinguishable. */
  lemma QuotientSeparates(p: Dfa, m: Dfa, labels: map<State, State>, s: State, s': State)
    requires QuotientMap(p, m, labels)
    requires Total(p) && RenamedTransitions(p, m, labels)
    requires s in labels && s' in labels && Distinguishable(p, s, s')
    ensures Distinguishable(m, labels[s], labels[s'])
  {
    var w :| Separates(p, s, s', w);
    QuotientRun(p, m, labels, s, w);
    QuotientRun(p, m, labels, s', w);
    assert Separates(m, labels[s], labels[s'], w);
  }

  /** A consistent renaming of a total automaton whose states are all
      reachable and merged exactly when indistinguishable is minimal: every
      state is reachable and any two states are distinguishable. */
  lemma QuotientMinimal(p: Dfa, m: Dfa, labels: map<State, State>)
    requires QuotientMap(p, m, labels) && Onto(m, labels)
    requires MergesAllEquivalent(p, labels)
    requires Total(p) && RenamedTransitions(p, m, labels)
    requires forall s :: s in p.states ==> Reaches(p, s)
    ensures forall x :: x in m.states ==> Reaches(m, x)
    ensures forall x, y :: x in m.states && y in m.states && x != y ==> Distinguishable(m, x, y)
  {
    forall s | s in labels ensures Reaches(m, labels[s]) {
      QuotientReaches(p, m, labels, s);
    }
    forall s, s' | s in labels && s' in labels && labels[s] != labels[s']
      ensures Distinguishable(m, labels[s], labels[s'])
    {
      QuotientSeparates(p, m, labels, s, s');
    }
    OntoLifts(m, labels);
  }

  /** Facts about the names of states are facts about every state of `m`. */
  lemma OntoLifts(m: Dfa, labels: map<State, State>)
    requires Onto(m, labels)
    requires forall s :: s in labels ==> Reaches(m, labels[s])
    requires forall s, s' :: s in labels && s' in labels && labels[s] != labels[s'] ==>
               Distinguishable(m, labels[s], labels[s'])
    ensures forall x :: x in m.states ==> Reaches(m, x)
    ensures forall x, y :: x in m.states && y in m.states && x != y ==> Distinguishable(m, x, y)
  {
    forall x, y | x in m.states && y in m.states && x != y ensures Distinguishable(m, x, y) {
      var s :| s in labels && labels[s] == x;
      var s' :| s' in labels && labels[s'] == y;
    }
  }
}
