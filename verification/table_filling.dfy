/**
 The distinguishability table of `DFA.minimize`: initialization by finality,
 then passes over the unmarked pairs until a pass marks nothing.
 */
module TableFilling {
  import opened Wrappers
  import opened Automata
  import Sorting

  /** Keyed by pairs `(p, q)` with `p` before `q` in sorted order; `true` means
      marked (distinguishable). */
  type Table = map<(State, State), bool>

  /** `order_tuple`: the pair in ascending order. */
  function Order(x: State, y: State): (r: (State, State))
    ensures r.0 <= r.1
    ensures (r.0 == x && r.1 == y) || (r.0 == y && r.1 == x)
  {
    if x < y then (x, y) else (y, x)
  }

  /** The pairs the nested loops of dfa.py:100-101 and 111-112 visit, in that
      order: each element of `s` with every element after it. */
  function Pairs(s: seq<State>): (r: seq<(State, State)>)
    ensures forall k :: 0 <= k < |r| ==> r[k].0 in s && r[k].1 in s
  {
    if |s| == 0 then []
    else
      var row := seq(|s| - 1, k requires 0 <= k < |s| - 1 => (s[0], s[k + 1]));
      row + Pairs(s[1..])
  }

  /** Every pair of positions `i < j` is visited. */
  lemma {:induction false} PairsComplete(s: seq<State>, i: nat, j: nat)
    requires i < j < |s|
    ensures (s[i], s[j]) in Pairs(s)
    decreases |s|
  {
    var row := seq(|s| - 1, k requires 0 <= k < |s| - 1 => (s[0], s[k + 1]));
    assert Pairs(s) == row + Pairs(s[1..]);
    if i == 0 {
      assert row[j - 1] == (s[i], s[j]);
    } else {
      PairsComplete(s[1..], i - 1, j - 1);
    }
  }

  /** On a sorted sequence each visited pair is in ascending order. */
  lemma {:induction false} PairsAscending(s: seq<State>)
    requires Sorting.Sorted(s)
    ensures forall k :: 0 <= k < |Pairs(s)| ==> Pairs(s)[k].0 <= Pairs(s)[k].1
    decreases |s|
  {
    if |s| > 0 {
      var row := seq(|s| - 1, k requires 0 <= k < |s| - 1 => (s[0], s[k + 1]));
      assert Pairs(s) == row + Pairs(s[1..]);
      PairsAscending(s[1..]);
    }
  }

  /** One visit per unordered pair of positions: n(n-1)/2 of them. */
  lemma {:induction false} PairsCount(s: seq<State>)
    ensures |Pairs(s)| == |s| * (|s| - 1) / 2
    decreases |s|
  {
    if |s| > 0 {
      PairsCount(s[1..]);
    }
  }

  /** With the states sorted, every pair `p < q` of states is visited. */
  lemma PairsCoverSorted(s: seq<State>, p: State, q: State)
    requires Sorting.Sorted(s)
    requires p in s && q in s && p < q
    ensures (p, q) in Pairs(s)
  {
    var i :| 0 <= i < |s| && s[i] == p;
    var j :| 0 <= j < |s| && s[j] == q;
    assert i < j;
    PairsComplete(s, i, j);
  }

  /** `w` separates `p` and `q`: both runs are defined and exactly one of them
      ends in a final state. */
  predicate Separates(a: Dfa, p: State, q: State, w: seq<Symbol>) {
    && Run(a, p, w).Some?
    && Run(a, q, w).Some?
    && IsFinal(a, Run(a, p, w).value) != IsFinal(a, Run(a, q, w).value)
  }

  /** Some word separates `p` and `q`. An undefined transition separates
      nothing, which is the source's policy for partial automata. */
  ghost predicate Distinguishable(a: Dfa, p: State, q: State) {
    exists w :: Separates(a, p, q, w)
  }

  /** The table has an entry for every pair `p < q` of listed states, and
      only ascending pairs of listed states as keys. */
  ghost predicate Covers(a: Dfa, t: Table) {
    && (forall k :: k in t ==> k.0 in a.states && k.1 in a.states && k.0 <= k.1)
    && (forall p, q :: p in a.states && q in a.states && p < q ==> (p, q) in t)
  }

  /** Every marked pair is distinguishable. */
  ghost predicate Sound(a: Dfa, t: Table) {
    forall k :: k in t && t[k] ==> Distinguishable(a, k.0, k.1)
  }

  function Unmarked(t: Table): set<(State, State)> {
    set k | k in t && !t[k]
  }

  /** The table initialization: a pair is marked iff exactly one of its states
      is final, that is, iff the empty word separates it. */
  function InitTable(a: Dfa, pairs: seq<(State, State)>): (t: Table)
    ensures forall k :: k in t <==> k in pairs
    ensures forall k :: k in t ==> (t[k] <==> Separates(a, k.0, k.1, []))
  {
    map k | k in pairs :: IsFinal(a, k.0) != IsFinal(a, k.1)
  }

  /** Symbol `c` leads `p` and `q` to distinct defined successors whose pair
      is already marked. */
  predicate Splits(a: Dfa, t: Table, p: State, q: State, c: Symbol)
    requires WellFormed(a) && Covers(a, t)
  {
    var t1 := Delta(a, p, c);
    var t2 := Delta(a, q, c);
    && t1.Some? && t2.Some? && t1.value != t2.value
    && t[Order(t1.value, t2.value)]
  }

  /** The loop over the symbols at dfa.py:118-128, which stops at the first
      mark: whether some symbol marks the pair. */
  function ScanSymbols(a: Dfa, t: Table, p: State, q: State, ws: seq<Symbol>): (marked: bool)
    requires WellFormed(a) && Covers(a, t)
    ensures marked <==> exists i :: 0 <= i < |ws| && Splits(a, t, p, q, ws[i])
  {
    if ws == [] then false
    else if Splits(a, t, p, q, ws[0]) then true
    else
      var rest := ScanSymbols(a, t, p, q, ws[1..]);
      assert forall i :: 1 <= i < |ws| ==> ws[i] == ws[1..][i - 1];
      rest
  }

  /** No unmarked pair is split by any symbol: the condition at loop exit. */
  ghost predicate Closed(a: Dfa, t: Table)
    requires WellFormed(a) && Covers(a, t)
  {
    forall k :: k in t && !t[k] ==> forall c :: c in a.alphabet ==> !Splits(a, t, k.0, k.1, c)
  }

  lemma SeparatesSymmetric(a: Dfa, p: State, q: State, w: seq<Symbol>)
    ensures Separates(a, p, q, w) <==> Separates(a, q, p, w)
  {
  }

  /** Reading `c` first: a word separating the successors, prefixed by `c`,
      separates the pair. */
  lemma SeparatesPrefix(a: Dfa, p: State, q: State, c: Symbol, w: seq<Symbol>)
    requires (p, c) in a.transitions && (q, c) in a.transitions
    ensures Separates(a, p, q, [c] + w) <==>
            Separates(a, a.transitions[(p, c)], a.transitions[(q, c)], w)
  {
    assert ([c] + w)[0] == c;
    assert ([c] + w)[1..] == w;
  }

  /** A mark set because of a split is justified by a longer separating word. */
  lemma SplitSound(a: Dfa, t: Table, p: State, q: State, c: Symbol)
    requires WellFormed(a) && Covers(a, t) && Sound(a, t)
    requires Splits(a, t, p, q, c)
    ensures Distinguishable(a, p, q)
  {
    var t1 := a.transitions[(p, c)];
    var t2 := a.transitions[(q, c)];
    var k := Order(t1, t2);
    var w :| Separates(a, k.0, k.1, w);
    SeparatesSymmetric(a, t1, t2, w);
    assert Separates(a, t1, t2, w);
    SeparatesPrefix(a, p, q, c, w);
  }

  lemma MarkShrinksUnmarked(t: Table, k: (State, State), u0: set<(State, State)>)
    requires k in t && !t[k]
    requires Unmarked(t) <= u0
    ensures Unmarked(t[k := true]) == Unmarked(t) - {k}
    ensures Unmarked(t[k := true]) < Unmarked(t)
    ensures Unmarked(t[k := true]) < u0
  {
  }

  /** The body of the pass for one pair: skip it when marked, otherwise mark
      it when some symbol splits it. The flag says whether it was marked. */
  function VisitPair(a: Dfa, t: Table, pr: (State, State)): (r: (Table, bool))
    requires WellFormed(a) && Covers(a, t)
    requires pr in t
    ensures r.0.Keys == t.Keys
    ensures r.1 ==> !t[pr] && r.0 == t[pr := true]
    ensures !r.1 ==> r.0 == t
    ensures r.1 <==> !t[pr] && exists c :: c in a.alphabet && Splits(a, t, pr.0, pr.1, c)
  {
    if t[pr] then (t, false)
    else if ScanSymbols(a, t, pr.0, pr.1, a.alphabet) then (t[pr := true], true)
    else (t, false)
  }

  /** What holds after the pass has visited `pairs[..i]`. */
  ghost predicate PassInvariant(a: Dfa, pairs: seq<(State, State)>, t0: Table, t: Table, flag: bool, i: nat)
    requires WellFormed(a)
  {
    && i <= |pairs|
    && t.Keys == t0.Keys
    && (forall k :: k in t0 && t0[k] ==> t[k])
    && Covers(a, t) && Sound(a, t)
    && Unmarked(t) <= Unmarked(t0)
    && (flag ==> Unmarked(t) < Unmarked(t0))
    && (!flag ==> t == t0)
    && (!flag ==>
          forall j :: 0 <= j < i && pairs[j] in t && !t[pairs[j]] ==>
            forall c :: c in a.alphabet ==> !Splits(a, t, pairs[j].0, pairs[j].1, c))
  }

  lemma PassStep(a: Dfa, pairs: seq<(State, State)>, t0: Table, t: Table, flag: bool, i: nat)
    requires WellFormed(a)
    requires PassInvariant(a, pairs, t0, t, flag, i)
    requires i < |pairs| && pairs[i] in t
    ensures var r := VisitPair(a, t, pairs[i]);
            PassInvariant(a, pairs, t0, r.0, flag || r.1, i + 1)
  {
    var r := VisitPair(a, t, pairs[i]);
    if r.1 {
      var c :| c in a.alphabet && Splits(a, t, pairs[i].0, pairs[i].1, c);
      PassMark(a, pairs, t0, t, flag, i, c);
    } else {
      PassSkip(a, pairs, t0, t, flag, i);
    }
  }

  /** Visiting a pair that some symbol splits marks it. */
  lemma PassMark(a: Dfa, pairs: seq<(State, State)>, t0: Table, t: Table, flag: bool, i: nat, c: Symbol)
    requires WellFormed(a)
    requires PassInvariant(a, pairs, t0, t, flag, i)
    requires i < |pairs| && pairs[i] in t && !t[pairs[i]]
    requires Splits(a, t, pairs[i].0, pairs[i].1, c)
    ensures PassInvariant(a, pairs, t0, t[pairs[i] := true], true, i + 1)
  {
    var pr := pairs[i];
    SplitSound(a, t, pr.0, pr.1, c);
    MarkKeepsSound(a, t, pr);
    MarkShrinksUnmarked(t, pr, Unmarked(t0));
  }

  /** Marking a distinguishable pair keeps the table covering and sound. */
  lemma MarkKeepsSound(a: Dfa, t: Table, pr: (State, State))
    requires Covers(a, t) && Sound(a, t)
    requires pr in t && Distinguishable(a, pr.0, pr.1)
    ensures Covers(a, t[pr := true]) && Sound(a, t[pr := true])
  {
  }

  /** Visiting a marked pair, or one no symbol splits, changes nothing. */
  lemma PassSkip(a: Dfa, pairs: seq<(State, State)>, t0: Table, t: Table, flag: bool, i: nat)
    requires WellFormed(a)
    requires PassInvariant(a, pairs, t0, t, flag, i)
    requires i < |pairs| && pairs[i] in t
    requires !t[pairs[i]] ==> forall c :: c in a.alphabet ==> !Splits(a, t, pairs[i].0, pairs[i].1, c)
    ensures PassInvariant(a, pairs, t0, t, flag, i + 1)
  {
  }

  /** One pass of the `while flag` loop over all pairs. A marked entry is never
      reset; the pass reports `flag` exactly when it marked some pair, and
      when it marked nothing the table was already closed. */
  method Pass(a: Dfa, pairs: seq<(State, State)>, t0: Table) returns (t: Table, flag: bool)
    requires WellFormed(a) && Covers(a, t0) && Sound(a, t0)
    requires forall k :: k in pairs ==> k in t0
    ensures t.Keys == t0.Keys
    ensures forall k :: k in t0 && t0[k] ==> t[k]
    ensures Covers(a, t) && Sound(a, t)
    ensures flag ==> Unmarked(t) < Unmarked(t0)
    ensures !flag ==> t == t0
    ensures !flag ==>
              forall k :: k in pairs && !t[k] ==>
                forall c :: c in a.alphabet ==> !Splits(a, t, k.0, k.1, c)
  {
    t := t0;
    flag := false;
    var i := 0;
    while i < |pairs|
      invariant PassInvariant(a, pairs, t0, t, flag, i)
    {
      PassStep(a, pairs, t0, t, flag, i);
      var r := VisitPair(a, t, pairs[i]);
      t, flag := r.0, flag || r.1;
      i := i + 1;
    }
    if !flag {
      forall k | k in pairs && !t[k]
        ensures forall c :: c in a.alphabet ==> !Splits(a, t, k.0, k.1, c)
      {
        var j :| 0 <= j < |pairs| && pairs[j] == k;
        assert pairs[j] in t && !t[pairs[j]];
      }
    }
  }

  lemma SubsetSmaller(u: set<(State, State)>, v: set<(State, State)>)
    requires u < v
    ensures |u| < |v|
  {
    assert v == u + (v - u);
    assert |v| == |u| + |v - u|;
    assert v - u != {};
  }

  /** The `while flag` fixpoint. Marks are monotonic and each pass that sets
      `flag` marks at least one more pair, so the number of unmarked pairs
      bounds the number of passes. At exit no unmarked pair is split by any
      symbol, and the marked pairs are exactly the distinguishable ones. */
  method FillTable(a: Dfa, pairs: seq<(State, State)>, init: Table) returns (t: Table)
    requires WellFormed(a) && Covers(a, init)
    requires forall k :: k in init <==> k in pairs
    requires forall k :: k in init ==> (init[k] <==> Separates(a, k.0, k.1, []))
    ensures t.Keys == init.Keys
    ensures forall k :: k in init && init[k] ==> t[k]
    ensures Covers(a, t) && Closed(a, t)
    ensures forall k :: k in t ==> (t[k] <==> Distinguishable(a, k.0, k.1))
  {
    t := init;
    assert Sound(a, t) by {
      forall k | k in t && t[k] ensures Distinguishable(a, k.0, k.1) {
        assert Separates(a, k.0, k.1, []);
      }
    }
    var flag := true;
    while flag
      invariant t.Keys == init.Keys
      invariant forall k :: k in init && init[k] ==> t[k]
      invariant Covers(a, t) && Sound(a, t)
      invariant !flag ==> Closed(a, t)
      decreases |Unmarked(t)| + (if flag then 1 else 0)
    {
      var t', f := Pass(a, pairs, t);
      if f {
        SubsetSmaller(Unmarked(t'), Unmarked(t));
      }
      t, flag := t', f;
    }
    ClosedTableComplete(a, init, t);
  }

  lemma ClosedTableComplete(a: Dfa, init: Table, t: Table)
    requires WellFormed(a) && Covers(a, t) && Closed(a, t)
    requires t.Keys == init.Keys
    requires forall k :: k in init ==> (init[k] <==> Separates(a, k.0, k.1, []))
    requires forall k :: k in init && init[k] ==> t[k]
    ensures forall k :: k in t && !t[k] ==> !Distinguishable(a, k.0, k.1)
  {
    var u := UnmarkedRelation(a, t);
    UnmarkedRelationClosed(a, init, t);
    forall k | k in t && !t[k] ensures !Distinguishable(a, k.0, k.1) {
      assert (k.0, k.1) in u;
      forall w ensures !Separates(a, k.0, k.1, w) {
        ClosedUnderNotSeparated(a, u, k.0, k.1, w);
      }
    }
  }

  /** `u` holds only pairs the empty word does not separate, and holds the
      successors on every common symbol of each pair it holds. */
  ghost predicate ClosedUnder(a: Dfa, u: set<(State, State)>) {
    forall k :: k in u ==>
      && !Separates(a, k.0, k.1, [])
      && forall c :: (k.0, c) in a.transitions && (k.1, c) in a.transitions ==>
           (a.transitions[(k.0, c)], a.transitions[(k.1, c)]) in u
  }

  /** No word separates a pair of a relation closed under successors. */
  lemma {:induction false} ClosedUnderNotSeparated(a: Dfa, u: set<(State, State)>, p: State, q: State,
                                                  w: seq<Symbol>)
    requires ClosedUnder(a, u) && (p, q) in u
    ensures !Separates(a, p, q, w)
    decreases |w|
  {
    if w != [] {
      var c := w[0];
      if (p, c) in a.transitions && (q, c) in a.transitions {
        assert w == [c] + w[1..];
        SeparatesPrefix(a, p, q, c, w[1..]);
        ClosedUnderNotSeparated(a, u, a.transitions[(p, c)], a.transitions[(q, c)], w[1..]);
      }
    }
  }

  /** The pairs of listed states that are equal or unmarked, in either order. */
  ghost function UnmarkedRelation(a: Dfa, t: Table): set<(State, State)>
    requires Covers(a, t)
  {
    set x, y | x in a.states && y in a.states && (x == y || !t[Order(x, y)]) :: (x, y)
  }

  /** The equal-or-unmarked pairs of a closed table form a relation closed
      under successors. */
  lemma UnmarkedRelationClosed(a: Dfa, init: Table, t: Table)
    requires WellFormed(a) && Covers(a, t) && Closed(a, t)
    requires t.Keys == init.Keys
    requires forall k :: k in init ==> (init[k] <==> Separates(a, k.0, k.1, []))
    requires forall k :: k in init && init[k] ==> t[k]
    ensures ClosedUnder(a, UnmarkedRelation(a, t))
  {
    var u := UnmarkedRelation(a, t);
    forall k | k in u
      ensures !Separates(a, k.0, k.1, [])
      ensures forall c :: (k.0, c) in a.transitions && (k.1, c) in a.transitions ==>
                (a.transitions[(k.0, c)], a.transitions[(k.1, c)]) in u
    {
      var x, y := k.0, k.1;
      if x != y {
        UnmarkedBase(a, init, t, x, y);
      }
      forall c | (x, c) in a.transitions && (y, c) in a.transitions
        ensures (a.transitions[(x, c)], a.transitions[(y, c)]) in u
      {
        if x != y {
          UnmarkedSuccessors(a, t, x, y, c);
        }
      }
    }
  }

  /** An unmarked pair is not separated by the empty word, since the
      initial marks survive. */
  lemma UnmarkedBase(a: Dfa, init: Table, t: Table, p: State, q: State)
    requires WellFormed(a) && Covers(a, t)
    requires t.Keys == init.Keys
    requires forall k :: k in init ==> (init[k] <==> Separates(a, k.0, k.1, []))
    requires forall k :: k in init && init[k] ==> t[k]
    requires p in a.states && q in a.states && p != q && !t[Order(p, q)]
    ensures !Separates(a, p, q, [])
  {
    var k := Order(p, q);
    assert k in init && !init[k];
  }

  /** In a closed table the successors of an unmarked pair on one symbol are
      equal or unmarked. */
  lemma UnmarkedSuccessors(a: Dfa, t: Table, p: State, q: State, c: Symbol)
    requires WellFormed(a) && Covers(a, t) && Closed(a, t)
    requires p in a.states && q in a.states && p != q && !t[Order(p, q)]
    requires (p, c) in a.transitions && (q, c) in a.transitions
    ensures a.transitions[(p, c)] in a.states && a.transitions[(q, c)] in a.states
    ensures a.transitions[(p, c)] == a.transitions[(q, c)] ||
            !t[Order(a.transitions[(p, c)], a.transitions[(q, c)])]
  {
    var k := Order(p, q);
    assert !Splits(a, t, k.0, k.1, c);
  }

  /** The whole table computation of `minimize` on the pruned automaton: sort
      the states, initialize, fill. Returns the table and the pair order its
      keys were inserted in. */
  method DistinguishabilityTable(a: Dfa) returns (t: Table, pairs: seq<(State, State)>)
    requires WellFormed(a)
    ensures forall k :: k in t <==> k in pairs
    ensures forall k :: k in t ==> k.0 in a.states && k.1 in a.states && k.0 <= k.1
    ensures forall p, q :: p in a.states && q in a.states && p < q ==> (p, q) in t
    ensures Covers(a, t) && Closed(a, t)
    ensures forall k :: k in t ==> (t[k] <==> Distinguishable(a, k.0, k.1))
    ensures forall k :: k in t && Separates(a, k.0, k.1, []) ==> t[k]
  {
    var sorted := Sorting.Sort(a.states);
    Sorting.SortKeepsElements(a.states);
    pairs := Pairs(sorted);
    PairsAscending(sorted);
    forall p, q | p in a.states && q in a.states && p < q ensures (p, q) in pairs {
      PairsCoverSorted(sorted, p, q);
    }
    var init := InitTable(a, pairs);
    t := FillTable(a, pairs, init);
  }
}
