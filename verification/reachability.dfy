/**
 `DFA._remove_unreachable_states`: a depth-first search from the start state,
 then filtering of the states, final states and transitions.
 */
module Reachability {
  import opened Wrappers
  import opened Automata

  /** The targets of the transitions leaving `s`: the adjacency list `g[s]`. */
  function Successors(a: Dfa, s: State): set<State> {
    set k | k in a.transitions && k.0 == s :: a.transitions[k]
  }

  /** Every state the search can ever push. */
  function Universe(a: Dfa): set<State> {
    {a.start} + set k | k in a.transitions :: a.transitions[k]
  }

  /** Some word leads from the start state to `s`. */
  ghost predicate Reaches(a: Dfa, s: State) {
    exists w :: Run(a, a.start, w) == Some(s)
  }

  /** `keep` holds the start state and every target of a transition whose
      source it holds. */
  ghost predicate ClosedFromStart(a: Dfa, keep: set<State>) {
    && a.start in keep
    && forall k :: k in a.transitions && k.0 in keep ==> a.transitions[k] in keep
  }

  /** A closed set contains every reachable state. */
  lemma ClosedContainsReachable(a: Dfa, keep: set<State>)
    requires ClosedFromStart(a, keep)
    ensures forall s :: Reaches(a, s) ==> s in keep
  {
    forall s | Reaches(a, s) ensures s in keep {
      var w :| Run(a, a.start, w) == Some(s);
      ClosedContainsRuns(a, keep, a.start, w);
    }
  }

  lemma ReachesStep(a: Dfa, s: State, c: Symbol)
    requires Reaches(a, s)
    requires (s, c) in a.transitions
    ensures Reaches(a, a.transitions[(s, c)])
  {
    var w :| Run(a, a.start, w) == Some(s);
    RunAppend(a, a.start, w, [c]);
    assert Run(a, s, [c]) == Run(a, a.transitions[(s, c)], []);
    assert Run(a, a.start, w + [c]) == Some(a.transitions[(s, c)]);
  }

  /** A closed set contains the end of every defined run that starts inside it. */
  lemma {:induction false} ClosedContainsRuns(a: Dfa, keep: set<State>, s: State, w: seq<Symbol>)
    requires ClosedFromStart(a, keep)
    requires s in keep
    ensures Run(a, s, w).Some? ==> Run(a, s, w).value in keep
    decreases |w|
  {
    if w != [] {
      match Delta(a, s, w[0])
      case None =>
      case Some(t) =>
        ClosedContainsRuns(a, keep, t, w[1..]);
    }
  }

  lemma SuccessorsReached(a: Dfa, s: State)
    requires Reaches(a, s)
    ensures forall t :: t in Successors(a, s) ==> Reaches(a, t)
    ensures Successors(a, s) <= Universe(a)
  {
    forall t | t in Successors(a, s) ensures Reaches(a, t) {
      var k :| k in a.transitions && k.0 == s && a.transitions[k] == t;
      ReachesStep(a, s, k.1);
    }
  }

  lemma FewerUnvisited(u: set<State>, reached: set<State>, s: State)
    requires s in u && s !in reached
    ensures |u - (reached + {s})| < |u - reached|
  {
    assert u - reached == (u - (reached + {s})) + {s};
  }

  /** What the search keeps true: everything seen is reachable, and every
      transition out of a visited state leads to a visited or pending state. */
  ghost predicate SearchInvariant(a: Dfa, reached: set<State>, stack: set<State>) {
    && reached + stack <= Universe(a)
    && a.start in reached + stack
    && (forall s :: s in reached + stack ==> Reaches(a, s))
    && (forall k :: k in a.transitions && k.0 in reached ==> a.transitions[k] in reached + stack)
  }

  /** One pop of the search. */
  lemma SearchStep(a: Dfa, reached: set<State>, stack: set<State>, s: State)
    requires SearchInvariant(a, reached, stack)
    requires s in stack
    ensures s !in reached ==>
              && SearchInvariant(a, reached + {s}, (stack - {s}) + Successors(a, s))
              && |Universe(a) - (reached + {s})| < |Universe(a) - reached|
    ensures s in reached ==>
              && SearchInvariant(a, reached, stack - {s})
              && reached + {s} == reached
              && |stack - {s}| < |stack|
  {
    if s !in reached {
      SearchVisit(a, reached, stack, s);
    } else {
      SearchSkip(a, reached, stack, s);
    }
  }

  /** Popping an unvisited state visits it and pushes its successors. */
  lemma SearchVisit(a: Dfa, reached: set<State>, stack: set<State>, s: State)
    requires SearchInvariant(a, reached, stack)
    requires s in stack && s !in reached
    ensures SearchInvariant(a, reached + {s}, (stack - {s}) + Successors(a, s))
    ensures |Universe(a) - (reached + {s})| < |Universe(a) - reached|
  {
    var reached', stack' := reached + {s}, (stack - {s}) + Successors(a, s);
    SuccessorsReached(a, s);
    FewerUnvisited(Universe(a), reached, s);
    forall k | k in a.transitions && k.0 in reached' ensures a.transitions[k] in reached' + stack' {
      if k.0 == s {
        assert a.transitions[k] in Successors(a, s);
      }
    }
  }

  /** Popping a visited state changes nothing else. */
  lemma SearchSkip(a: Dfa, reached: set<State>, stack: set<State>, s: State)
    requires SearchInvariant(a, reached, stack)
    requires s in stack && s in reached
    ensures SearchInvariant(a, reached, stack - {s})
    ensures reached + {s} == reached
    ensures |stack - {s}| < |stack|
  {
    assert reached + (stack - {s}) == reached + stack;
  }

  /** The depth-first search. The explicit stack becomes a set of pending
      states popped in any order: the order of pops and repeated pushes do not
      change which states are reached. A state's successors are pushed only
      the first time it is popped, which bounds the search. */
  method ReachableStates(a: Dfa) returns (reached: set<State>)
    ensures ClosedFromStart(a, reached)
    ensures forall s :: s in reached <==> Reaches(a, s)
  {
    reached := {};
    var stack := {a.start};
    assert Run(a, a.start, []) == Some(a.start);
    while stack != {}
      invariant SearchInvariant(a, reached, stack)
      decreases |Universe(a) - reached|, |stack|
    {
      ghost var picked := SomeElement(stack);
      var s :| s in stack;
      SearchStep(a, reached, stack, s);
      stack := stack - {s};
      if s !in reached {
        stack := stack + Successors(a, s);
      }
      reached := reached + {s};
    }
    ClosedContainsReachable(a, reached);
  }

  /** The filtering comprehensions of dfa.py:76-80: the elements of `s` in
      `keep`, in order and with their multiplicities. */
  function Filter(s: seq<State>, keep: set<State>): (r: seq<State>)
    ensures forall x :: x in r <==> x in s && x in keep
    ensures forall x :: x in keep ==> multiset(r)[x] == multiset(s)[x]
    ensures |r| <= |s|
  {
    if s == [] then []
    else
      assert s == [s[0]] + s[1..];
      (if s[0] in keep then [s[0]] else []) + Filter(s[1..], keep)
  }

  /** Filtering distributes over concatenation, so it keeps the original order. */
  lemma {:induction false} FilterAppend(s: seq<State>, t: seq<State>, keep: set<State>)
    ensures Filter(s + t, keep) == Filter(s, keep) + Filter(t, keep)
  {
    if s == [] {
      assert s + t == t;
    } else {
      assert (s + t)[0] == s[0];
      assert (s + t)[1..] == s[1..] + t;
      FilterAppend(s[1..], t, keep);
    }
  }

  /** The three comprehensions after the search. */
  function Prune(a: Dfa, keep: set<State>): (p: Dfa)
    ensures p.start == a.start && p.alphabet == a.alphabet
    ensures p.states == Filter(a.states, keep)
    ensures p.finals == Filter(a.finals, keep)
    ensures forall k :: k in p.transitions <==> k in a.transitions && k.0 in keep
    ensures forall k :: k in p.transitions ==> p.transitions[k] == a.transitions[k]
  {
    Dfa(Filter(a.states, keep), a.alphabet, a.start,
        map k | k in a.transitions && k.0 in keep :: a.transitions[k],
        Filter(a.finals, keep))
  }

  /** Pruning on a closed set keeps the automaton well-formed (in particular
      the final states stay a subset of the states) and total. */
  lemma PruneWellFormed(a: Dfa, keep: set<State>)
    requires WellFormed(a)
    requires ClosedFromStart(a, keep)
    ensures WellFormed(Prune(a, keep))
    ensures Total(a) ==> Total(Prune(a, keep))
  {
  }

  /** From a kept state, runs in the pruned automaton are the runs of the
      original one. */
  lemma {:induction false} PruneKeepsRuns(a: Dfa, keep: set<State>, s: State, w: seq<Symbol>)
    requires ClosedFromStart(a, keep)
    requires s in keep
    ensures Run(Prune(a, keep), s, w) == Run(a, s, w)
    decreases |w|
  {
    if w != [] {
      var p := Prune(a, keep);
      assert Delta(p, s, w[0]) == Delta(a, s, w[0]);
      match Delta(a, s, w[0])
      case None =>
      case Some(t) =>
        assert t in keep;
        PruneKeepsRuns(a, keep, t, w[1..]);
    }
  }

  /** Pruning on a closed set does not change the accepted language. */
  lemma PruneKeepsLanguage(a: Dfa, keep: set<State>, w: seq<Symbol>)
    requires ClosedFromStart(a, keep)
    ensures Accepts(Prune(a, keep), w) <==> Accepts(a, w)
  {
    PruneKeepsRuns(a, keep, a.start, w);
    ClosedContainsRuns(a, keep, a.start, w);
  }

  /** `_remove_unreachable_states` as a whole. */
  method RemoveUnreachable(a: Dfa) returns (p: Dfa, ghost reached: set<State>)
    ensures forall s :: s in reached <==> Reaches(a, s)
    ensures ClosedFromStart(a, reached)
    ensures p == Prune(a, reached)
    ensures forall s :: s in p.states <==> s in a.states && Reaches(a, s)
    ensures forall s :: s in p.finals <==> s in a.finals && Reaches(a, s)
    ensures forall k :: k in p.transitions <==> k in a.transitions && Reaches(a, k.0)
    ensures WellFormed(a) ==> WellFormed(p)
  {
    var r := ReachableStates(a);
    reached := r;
    p := Prune(a, r);
    if WellFormed(a) {
      PruneWellFormed(a, r);
    }
  }
}
