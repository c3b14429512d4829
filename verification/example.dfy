/**
 A four-state automaton whose two middle states are equivalent: from the start
 state 1, symbol "0" leads to 2 and "1" leads to 3, and 2, 3 and the final
 state 4 all lead to 4 on both symbols. Minimization merges 2 and 3 and keeps
 three states.
 */
module Example {
  import opened Wrappers
  import opened Automata
  import opened TableFilling
  import opened Reachability
  import opened DisjointSets
  import opened Minimization

  function Sample(): Dfa {
    Dfa([1, 2, 3, 4], ["0", "1"], 1,
        map[(1, "0") := 2, (1, "1") := 3,
            (2, "0") := 4, (2, "1") := 4,
            (3, "0") := 4, (3, "1") := 4,
            (4, "0") := 4, (4, "1") := 4],
        [4])
  }

  lemma SampleTotal()
    ensures WellFormed(Sample()) && Total(Sample())
  {
  }

  /** Every state of the sample is reached by a word of length at most one. */
  lemma SampleReachable()
    ensures forall s :: s in Sample().states ==> Reaches(Sample(), s)
  {
    var a := Sample();
    assert Run(a, 1, []) == Some(1);
    assert Run(a, 1, ["0"]) == Some(2);
    assert Run(a, 1, ["1"]) == Some(3);
    assert Run(a, 1, ["0", "0"]) == Some(4);
  }

  /** States 2 and 3 move together on every symbol, so no word separates them. */
  lemma MiddleEquivalent()
    ensures !Distinguishable(Sample(), 2, 3)
  {
    var a := Sample();
    forall w ensures !Separates(a, 2, 3, w) {
      if w != [] {
        assert Delta(a, 2, w[0]) == Delta(a, 3, w[0]);
      }
    }
  }

  /** The start state, a middle state and the final state are pairwise
      distinguishable: the empty word separates the final state from the
      others, and "0" separates 1 from 2. */
  lemma OthersDistinct()
    ensures Distinguishable(Sample(), 1, 2)
    ensures Distinguishable(Sample(), 1, 4)
    ensures Distinguishable(Sample(), 2, 4)
  {
    var a := Sample();
    assert Run(a, 1, ["0"]) == Some(2);
    assert Run(a, 2, ["0"]) == Some(4);
    assert Separates(a, 1, 2, ["0"]);
    assert Separates(a, 1, 4, []);
    assert Separates(a, 2, 4, []);
  }

  /** On the sample, naming states exactly up to indistinguishability gives
      2 and 3 one name, and 1, 2 and 4 three different names. */
  lemma SampleNames(labels: map<State, State>)
    requires forall s :: s in labels <==> s in Sample().states && Reaches(Sample(), s)
    requires forall s, s' :: s in labels && s' in labels ==>
               (labels[s] == labels[s'] <==> !Distinguishable(Sample(), s, s'))
    ensures forall s :: s in labels <==> 1 <= s <= 4
    ensures labels[2] == labels[3]
    ensures labels[1] != labels[2] && labels[1] != labels[4] && labels[2] != labels[4]
  {
    SampleReachable();
    assert forall s :: s in labels <==> s in Sample().states;
    assert forall s :: s in Sample().states <==> 1 <= s <= 4;
    MiddleEquivalent();
    OthersDistinct();
  }

  /** New states `1..n`, each the name of one of 1, 2, 3 and 4, with three
      distinct names among them: there are exactly three new states. */
  lemma CountNames(m: Dfa, labels: map<State, State>)
    requires forall s :: s in labels <==> 1 <= s <= 4
    requires labels[2] == labels[3]
    requires labels[1] != labels[2] && labels[1] != labels[4] && labels[2] != labels[4]
    requires forall i :: 0 <= i < |m.states| ==> m.states[i] == i + 1
    requires forall s :: s in labels ==> labels[s] in m.states
    requires forall x :: x in m.states ==> exists s :: s in labels && labels[s] == x
    ensures |m.states| == 3
  {
    var l1, l2, l4 := labels[1], labels[2], labels[4];
    assert (set x | x in m.states) == {l1, l2, l4} by {
      forall x | x in m.states ensures x == l1 || x == l2 || x == l4 {
        var s :| s in labels && labels[s] == x;
      }
      assert l1 in m.states && l2 in m.states && l4 in m.states;
    }
    assert NoDuplicates(m.states);
    DistinctCardinality(m.states);
  }

  /** Only the name of the final state 4 is final. */
  lemma SampleFinals(m: Dfa, labels: map<State, State>)
    requires forall s :: s in labels <==> 1 <= s <= 4
    requires labels[1] != labels[4] && labels[2] != labels[4] && labels[2] == labels[3]
    requires forall x :: x in m.states ==> exists s :: s in labels && labels[s] == x
    requires forall s :: s in labels ==> (IsFinal(m, labels[s]) <==> IsFinal(Sample(), s))
    requires WellFormed(m)
    ensures forall x :: x in m.finals <==> x == labels[4]
  {
    assert IsFinal(Sample(), 4) && !IsFinal(Sample(), 1) && !IsFinal(Sample(), 2);
    forall x | x in m.finals ensures x == labels[4] {
      var s :| s in labels && labels[s] == x;
      assert 1 <= s <= 4;
    }
  }

  /** Minimizing the sample merges 2 and 3 and leaves three states; the
      start state is the name of 1 and the only final state the name of 4. */
  method MinimizeSample() returns (m: Dfa, labels: map<State, State>)
    ensures 2 in labels && 3 in labels && labels[2] == labels[3]
    ensures |m.states| == 3
    ensures 1 in labels && m.start == labels[1]
    ensures 4 in labels && forall x :: x in m.finals <==> x == labels[4]
  {
    SampleTotal();
    m, labels := Minimize(Sample());
    SampleNames(labels);
    CountNames(m, labels);
    SampleFinals(m, labels);
  }
}
