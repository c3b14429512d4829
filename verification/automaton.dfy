/**
 The automaton record built by the explicit-argument branch of `DFA.__init__`,
 together with the run semantics used to state what minimization preserves.
 */
module Automata {
  import opened Wrappers

  /** State identifiers. The source uses strings compared with `<`; any totally
      ordered type will do, and the minimized automaton names its states 1..k. */
  type State = int

  type Symbol = string

  /** `states`, `terminals` (here `alphabet`) and `final_states` are Python lists,
      so they are sequences; `transitions` is a dict keyed by (state, symbol). */
  datatype Dfa = Dfa(
    states: seq<State>,
    alphabet: seq<Symbol>,
    start: State,
    transitions: map<(State, Symbol), State>,
    finals: seq<State>)

  /** The structural invariant the `isinstance` checks of `__init__` leave
      implicit: the start and final states are listed states, and every
      transition goes between listed states on a listed symbol. */
  predicate WellFormed(a: Dfa) {
    && a.start in a.states
    && (forall s :: s in a.finals ==> s in a.states)
    && (forall k :: k in a.transitions ==>
          k.0 in a.states && k.1 in a.alphabet && a.transitions[k] in a.states)
  }

  /** Every listed state has a successor on every listed symbol. */
  predicate Total(a: Dfa) {
    forall s, c :: s in a.states && c in a.alphabet ==> (s, c) in a.transitions
  }

  /** A non-empty set has an element to pick: `x` is one. */
  lemma SomeElement<T>(s: set<T>) returns (x: T)
    requires s != {}
    ensures x in s
  {
    x :| x in s;
  }

  predicate IsFinal(a: Dfa, s: State) {
    s in a.finals
  }

  /** The successor of `s` on `c`, or `None` when the transition is
      undefined, as looked up at dfa.py:119-120. */
  function Delta(a: Dfa, s: State, c: Symbol): Option<State> {
    if (s, c) in a.transitions then Some(a.transitions[(s, c)]) else None
  }

  /** The state reached from `s` by reading `w`; `None` as soon as a
      transition is undefined. */
  function Run(a: Dfa, s: State, w: seq<Symbol>): Option<State>
    decreases |w|
  {
    if w == [] then Some(s)
    else
      match Delta(a, s, w[0])
      case None => None
      case Some(t) => Run(a, t, w[1..])
  }

  /** The automaton accepts `w` when the run from the start state is defined and
      ends in a final state (an undefined transition rejects). */
  predicate Accepts(a: Dfa, w: seq<Symbol>) {
    Run(a, a.start, w).Some? && IsFinal(a, Run(a, a.start, w).value)
  }

  /** Reading `u` then `v` is reading `u + v`. */
  lemma {:induction false} RunAppend(a: Dfa, s: State, u: seq<Symbol>, v: seq<Symbol>)
    ensures Run(a, s, u + v) ==
            (match Run(a, s, u)
             case None => None
             case Some(t) => Run(a, t, v))
    decreases |u|
  {
    if u == [] {
      assert u + v == v;
    } else {
      assert (u + v)[0] == u[0];
      assert (u + v)[1..] == u[1..] + v;
      match Delta(a, s, u[0])
      case None =>
      case Some(t) =>
        RunAppend(a, t, u[1..], v);
    }
  }

  /** In a well-formed automaton a run from a listed state only visits listed
      states, and only reads listed symbols. */
  lemma {:induction false} RunStaysInStates(a: Dfa, s: State, w: seq<Symbol>)
    requires WellFormed(a)
    requires s in a.states
    ensures Run(a, s, w).Some? ==> Run(a, s, w).value in a.states
    ensures Run(a, s, w).Some? ==> forall i :: 0 <= i < |w| ==> w[i] in a.alphabet
    decreases |w|
  {
    if w != [] {
      match Delta(a, s, w[0])
      case None =>
      case Some(t) =>
        RunStaysInStates(a, t, w[1..]);
        if Run(a, s, w).Some? {
          forall i | 0 <= i < |w| ensures w[i] in a.alphabet {
            if i > 0 {
              assert w[i] == w[1..][i - 1];
            }
          }
        }
    }
  }

  /** In a total automaton every run from a listed state over listed symbols
      is defined. */
  lemma {:induction false} TotalRunDefined(a: Dfa, s: State, w: seq<Symbol>)
    requires WellFormed(a) && Total(a)
    requires s in a.states
    requires forall i :: 0 <= i < |w| ==> w[i] in a.alphabet
    ensures Run(a, s, w).Some?
    decreases |w|
  {
    if w != [] {
      assert (s, w[0]) in a.transitions;
      TotalRunDefined(a, a.transitions[(s, w[0])], w[1..]);
    }
  }
}
