/**
 Minimizing twice: on a total automaton the second `minimize` only renames the
 states of the first result, one to one.
 */
module Idempotence {
  import opened Automata
  import opened TableFilling
  import opened Reachability
  import opened DisjointSets
  import opened Minimization

  /** A map that is one to one on `u` has an image as large as `u`. */
  lemma {:induction false} InjectiveImage(u: set<State>, f: map<State, State>)
    requires u <= f.Keys
    requires forall x, y :: x in u && y in u && f[x] == f[y] ==> x == y
    ensures |set x | x in u :: f[x]| == |u|
    decreases |u|
  {
    if u != {} {
      var x := SomeElement(u);
      var u' := u - {x};
      InjectiveImage(u', f);
      assert (set y | y in u :: f[y]) == (set y | y in u' :: f[y]) + {f[x]};
      assert f[x] !in (set y | y in u' :: f[y]);
    }
  }

  /** Renaming a minimal automaton up to indistinguishability, onto new
      states `1..n`, is one to one and keeps the number of states. */
  lemma MinimalKeepsCount(m: Dfa, m2: Dfa, labels: map<State, State>)
    requires NoDuplicates(m.states)
    requires forall x :: x in m.states ==> Reaches(m, x)
    requires forall x, y :: x in m.states && y in m.states && x != y ==> Distinguishable(m, x, y)
    requires forall s :: s in labels <==> s in m.states && Reaches(m, s)
    requires forall s, s' :: s in labels && s' in labels ==>
               (labels[s] == labels[s'] <==> !Distinguishable(m, s, s'))
    requires forall s :: s in labels ==> labels[s] in m2.states
    requires forall x :: x in m2.states ==> exists s :: s in labels && labels[s] == x
    requires forall i :: 0 <= i < |m2.states| ==> m2.states[i] == i + 1
    ensures forall s, s' :: s in labels && s' in labels && labels[s] == labels[s'] ==> s == s'
    ensures |m2.states| == |m.states|
  {
    var u := set s | s in m.states;
    forall s | s in u ensures s in labels {
      assert s in m.states && Reaches(m, s);
    }
    InjectiveImage(u, labels);
    assert (set s | s in u :: labels[s]) == (set x | x in m2.states) by {
      forall x | x in m2.states ensures x in (set s | s in u :: labels[s]) {
        var s :| s in labels && labels[s] == x;
        assert s in u;
      }
    }
    assert NoDuplicates(m2.states);
    DistinctCardinality(m.states);
    DistinctCardinality(m2.states);
  }

  /** `minimize` applied to its own result on a total automaton: the second
      result is the first one with its states renamed one to one. The
      renaming covers the first result's states and is onto the second's,
      it carries the start state, the final states and every transition
      over, the second result has no other transitions, and both accept
      the same words. */
  method MinimizeTwice(a: Dfa) returns (m: Dfa, m2: Dfa, labels2: map<State, State>)
    requires WellFormed(a) && Total(a)
    ensures |m2.states| == |m.states|
    ensures m2.alphabet == m.alphabet
    ensures forall s :: s in labels2 <==> s in m.states
    ensures forall s :: s in labels2 ==> labels2[s] in m2.states
    ensures forall x :: x in m2.states ==> exists s :: s in labels2 && labels2[s] == x
    ensures forall s, s' :: s in labels2 && s' in labels2 && labels2[s] == labels2[s'] ==> s == s'
    ensures m.start in labels2 && m2.start == labels2[m.start]
    ensures forall s :: s in labels2 ==> (IsFinal(m2, labels2[s]) <==> IsFinal(m, s))
    ensures forall k :: k in m.transitions ==>
              && k.0 in labels2 && m.transitions[k] in labels2
              && (labels2[k.0], k.1) in m2.transitions
              && m2.transitions[(labels2[k.0], k.1)] == labels2[m.transitions[k]]
    ensures forall nk :: nk in m2.transitions ==>
              exists k :: k in m.transitions && nk == (labels2[k.0], k.1)
    ensures forall w :: Accepts(m2, w) <==> Accepts(m, w)
  {
    var labels;
    m, labels := Minimize(a);
    assert NoDuplicates(m.states);
    m2, labels2 := Minimize(m);
    MinimalKeepsCount(m, m2, labels2);
  }
}
