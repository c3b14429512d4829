/**
 The list-of-lists union-find of `disjoint_set.py`: a partition stored as a
 sequence of groups. A group's label is its position plus one, so labels are
 positional and shift when a group before them is deleted by `union`.
 */
module DisjointSets {
  import opened Wrappers

  datatype DisjointSet<T> = DisjointSet(groups: seq<seq<T>>)

  predicate NoDuplicates<T(==)>(s: seq<T>) {
    forall i, j :: 0 <= i < j < |s| ==> s[i] != s[j]
  }

  /** `order` lists every element of `items` exactly once: one possible
      iteration order of Python's `set(items)`, which the language leaves
      unspecified. */
  predicate IsEnumeration<T(==)>(order: seq<T>, items: seq<T>) {
    && NoDuplicates(order)
    && (forall x :: x in order ==> x in items)
    && (forall x :: x in items ==> x in order)
  }

  /** Every element stored in some group. */
  function Members<T(==)>(d: DisjointSet<T>): set<T> {
    set i, x | 0 <= i < |d.groups| && x in d.groups[i] :: x
  }

  lemma MemberOfGroup<T>(d: DisjointSet<T>, i: nat, x: T)
    requires i < |d.groups| && x in d.groups[i]
    ensures x in Members(d)
  {
  }

  /** The partition invariant: groups are non-empty and pairwise disjoint. */
  predicate Valid<T(==)>(d: DisjointSet<T>) {
    && (forall i :: 0 <= i < |d.groups| ==> d.groups[i] != [])
    && (forall i, j, x :: 0 <= i < |d.groups| && 0 <= j < |d.groups| && i != j && x in d.groups[i] ==>
          x !in d.groups[j])
  }

  /** `d` partitions `universe`. */
  predicate Partition<T(==)>(d: DisjointSet<T>, universe: set<T>) {
    Valid(d) && Members(d) == universe
  }

  /** Position of the first group at or after `from` that contains `x`: the
      outer scan shared by `_get_index` and `find`. */
  function FirstWith<T(==)>(groups: seq<seq<T>>, x: T, from: nat): (r: Option<nat>)
    ensures r.Some? ==>
              && from <= r.value < |groups|
              && x in groups[r.value]
              && (forall j :: from <= j < r.value ==> x !in groups[j])
    ensures r.None? ==> forall j :: from <= j < |groups| ==> x !in groups[j]
    decreases |groups| - from
  {
    if from >= |groups| then None
    else if x in groups[from] then Some(from)
    else FirstWith(groups, x, from + 1)
  }

  /** Python's `list.index(s)`: the first position holding a list equal to `s`. */
  function IndexOf<T(==)>(groups: seq<seq<T>>, s: seq<T>, from: nat): (r: nat)
    requires exists j :: from <= j < |groups| && groups[j] == s
    ensures from <= r < |groups| && groups[r] == s
    ensures forall j :: from <= j < r ==> groups[j] != s
    decreases |groups| - from
  {
    if groups[from] == s then from
    else IndexOf(groups, s, from + 1)
  }

  /** `_get_index`: finds the first group holding `x`, then asks the list for
      that group's index. The second step can only return the same position,
      because an equal group earlier in the list would also hold `x`. */
  function GetIndex<T(==)>(d: DisjointSet<T>, x: T): (r: Option<nat>)
    ensures r.Some? ==>
              && r.value < |d.groups|
              && x in d.groups[r.value]
              && (forall j :: 0 <= j < r.value ==> x !in d.groups[j])
    ensures r.None? <==> x !in Members(d)
    ensures Valid(d) ==> forall m :: 0 <= m < |d.groups| && x in d.groups[m] ==> r == Some(m)
  {
    match FirstWith(d.groups, x, 0)
    case None => None
    case Some(i) =>
      Some(IndexOf(d.groups, d.groups[i], 0))
  }

  /** `find`: the group containing `x`, or `None` when `x` is in no group. */
  function Find<T(==)>(d: DisjointSet<T>, x: T): (r: Option<seq<T>>)
    ensures r.Some? ==> x in r.value && r.value in d.groups
    ensures r.None? <==> x !in Members(d)
    ensures Valid(d) ==> forall m :: 0 <= m < |d.groups| && x in d.groups[m] ==> r == Some(d.groups[m])
  {
    match FirstWith(d.groups, x, 0)
    case None => None
    case Some(i) => Some(d.groups[i])
  }

  /** `find_set`: the 1-based position of the group containing `x`. */
  function FindSet<T(==)>(d: DisjointSet<T>, x: T): (r: Option<nat>)
    ensures r.Some? ==> 1 <= r.value <= |d.groups| && x in d.groups[r.value - 1]
    ensures r.None? <==> x !in Members(d)
    ensures Valid(d) ==> forall m :: 0 <= m < |d.groups| && x in d.groups[m] ==> r == Some(m + 1)
  {
    match GetIndex(d, x)
    case None => None
    case Some(i) => Some(i + 1)
  }

  /** `get`: the groups themselves; group `m` is the one `find_set` labels `m + 1`. */
  function Get<T(==)>(d: DisjointSet<T>): (r: seq<seq<T>>)
    ensures |r| == |d.groups|
    ensures Valid(d) ==> forall m, x :: 0 <= m < |r| && x in r[m] ==> FindSet(d, x) == Some(m + 1)
  {
    d.groups
  }

  /** Two elements share a group (and so a `find_set` label). */
  predicate SameGroup<T(==)>(d: DisjointSet<T>, x: T, y: T) {
    FindSet(d, x).Some? && FindSet(d, x) == FindSet(d, y)
  }

  /** `DisjointSet(items)`: one singleton group per distinct item, in the
      iteration order `order` of `set(items)`. */
  function Make<T(==)>(items: seq<T>, order: seq<T>): (d: DisjointSet<T>)
    requires IsEnumeration(order, items)
    ensures Partition(d, set x | x in items)
    ensures |d.groups| == |set x | x in items|
    ensures forall m :: 0 <= m < |d.groups| ==> |d.groups[m]| == 1
  {
    var d := DisjointSet(seq(|order|, m requires 0 <= m < |order| => [order[m]]));
    assert Members(d) == set x | x in items by {
      forall x | x in items ensures x in Members(d) {
        var m :| 0 <= m < |order| && order[m] == x;
        assert x in d.groups[m];
      }
    }
    DistinctCardinality(order);
    assert (set x | x in order) == (set x | x in items);
    d
  }

  lemma {:induction false} DistinctCardinality<T>(s: seq<T>)
    requires NoDuplicates(s)
    ensures |set x | x in s| == |s|
  {
    if s != [] {
      var rest := s[1..];
      assert NoDuplicates(rest);
      DistinctCardinality(rest);
      assert (set x | x in s) == (set x | x in rest) + {s[0]};
      assert s[0] !in rest;
    }
  }

  /** Position in the merged structure of a group that was at position `m`,
      when group `j` is appended to group `i` and then deleted. */
  function Shifted(i: nat, j: nat, m: nat): nat
    requires i != j && m != j
  {
    if m < j then m else m - 1
  }

  /** The effect of disjoint_set.py:37-38: group `j` is appended to group `i`,
      then removed from the list. */
  function Merge<T>(d: DisjointSet<T>, i: nat, j: nat): (r: DisjointSet<T>)
    requires i < |d.groups| && j < |d.groups| && i != j
    ensures |r.groups| == |d.groups| - 1
  {
    var merged := d.groups[i := d.groups[i] + d.groups[j]];
    DisjointSet(merged[..j] + merged[j + 1..])
  }

  /** The group at new position `k` after merging group `j` into group `i`. */
  lemma UnionShape<T>(d: DisjointSet<T>, i: nat, j: nat, k: nat)
    requires i < |d.groups| && j < |d.groups| && i != j
    requires k < |d.groups| - 1
    ensures var src := if k < j then k else k + 1;
            && src != j
            && Shifted(i, j, src) == k
            && Merge(d, i, j).groups[k] == (if src == i then d.groups[i] + d.groups[j] else d.groups[src])
  {
  }

  /** Where `union` puts a member `x` of group `m` when `i != j`. */
  lemma UnionPlaces<T>(d: DisjointSet<T>, i: nat, j: nat, m: nat, x: T)
    requires Valid(d)
    requires i < |d.groups| && j < |d.groups| && i != j
    requires m < |d.groups| && x in d.groups[m]
    ensures var r := Merge(d, i, j);
            var m' := if m == j then i else m;
            && Valid(r)
            && x in r.groups[Shifted(i, j, m')]
            && GetIndex(r, x) == Some(Shifted(i, j, m'))
            && FindSet(r, x) == Some(Shifted(i, j, m') + 1)
  {
    var r := Merge(d, i, j);
    forall k | 0 <= k < |r.groups| ensures r.groups[k] != [] {
      UnionShape(d, i, j, k);
    }
    forall k1, k2, y | 0 <= k1 < |r.groups| && 0 <= k2 < |r.groups| && k1 != k2 && y in r.groups[k1]
      ensures y !in r.groups[k2]
    {
      UnionShape(d, i, j, k1);
      UnionShape(d, i, j, k2);
    }
    assert Valid(r);
    var m' := if m == j then i else m;
    var k := Shifted(i, j, m');
    UnionShape(d, i, j, k);
  }

  /** `union`: appends the group of `item2` to the group of `item1` and deletes
      it. When exactly one argument is a member the source indexes a list with
      `None` and fails, so the model asks that both or neither be members;
      when neither is, both indices are `None` and nothing happens. */
  function Union<T(==)>(d: DisjointSet<T>, a: T, b: T): (r: DisjointSet<T>)
    requires (a in Members(d)) <==> (b in Members(d))
    ensures SameGroup(d, a, b) || a !in Members(d) ==> r == d
    ensures Valid(d) ==> Valid(r) && Members(r) == Members(d)
    ensures Valid(d) && a in Members(d) && !SameGroup(d, a, b) ==> |r.groups| == |d.groups| - 1
    ensures Valid(d) && a in Members(d) ==> SameGroup(r, a, b)
    ensures Valid(d) ==>
              forall x, y :: x in Members(d) && y in Members(d) ==>
                 (SameGroup(r, x, y) <==>
                               || SameGroup(d, x, y)
                               || (SameGroup(d, x, a) && SameGroup(d, y, b))
                               || (SameGroup(d, x, b) && SameGroup(d, y, a)))
    ensures Valid(d) ==>
              forall g :: g in d.groups && a !in g && b !in g ==> g in r.groups
  {
    var i := GetIndex(d, a);
    var j := GetIndex(d, b);
    if i == j then d
    else
      UnionFacts(d, i.value, j.value, a, b);
      Merge(d, i.value, j.value)
  }

  /** The facts `Union` states, for two members in different groups. */
  lemma UnionFacts<T>(d: DisjointSet<T>, i: nat, j: nat, a: T, b: T)
    requires i < |d.groups| && j < |d.groups| && i != j
    requires GetIndex(d, a) == Some(i) && GetIndex(d, b) == Some(j)
    ensures var r := Merge(d, i, j);
            && (Valid(d) ==> Valid(r) && Members(r) == Members(d))
            && |r.groups| == |d.groups| - 1
            && (Valid(d) ==> SameGroup(r, a, b))
            && (Valid(d) ==>
                  forall x, y :: x in Members(d) && y in Members(d) ==>
                    (SameGroup(r, x, y) <==>
                       || SameGroup(d, x, y)
                       || (SameGroup(d, x, a) && SameGroup(d, y, b))
                       || (SameGroup(d, x, b) && SameGroup(d, y, a))))
            && (Valid(d) ==>
                  forall g :: g in d.groups && a !in g && b !in g ==> g in r.groups)
  {
    if Valid(d) {
      UnionKeepsMembers(d, i, j);
      UnionPlaces(d, i, j, i, a);
      UnionPlaces(d, i, j, j, b);
      UnionRegroups(d, i, j, a, b);
      UnionKeepsOthers(d, i, j, a, b);
    }
  }

  lemma UnionKeepsMembers<T>(d: DisjointSet<T>, i: nat, j: nat)
    requires Valid(d)
    requires i < |d.groups| && j < |d.groups| && i != j
    ensures var r := Merge(d, i, j);
            Members(r) == Members(d)
  {
    var r := Merge(d, i, j);
    forall x | x in Members(d) ensures x in Members(r) {
      var m := GetIndex(d, x).value;
      UnionPlaces(d, i, j, m, x);
    }
    forall x | x in Members(r) ensures x in Members(d) {
      var k := GetIndex(r, x).value;
      UnionShape(d, i, j, k);
    }
  }

  lemma UnionRegroups<T>(d: DisjointSet<T>, i: nat, j: nat, a: T, b: T)
    requires Valid(d)
    requires i < |d.groups| && j < |d.groups| && i != j
    requires GetIndex(d, a) == Some(i) && GetIndex(d, b) == Some(j)
    ensures var r := Merge(d, i, j);
            forall x, y :: x in Members(d) && y in Members(d) ==>
              (SameGroup(r, x, y) <==>
                 || SameGroup(d, x, y)
                 || (SameGroup(d, x, a) && SameGroup(d, y, b))
                 || (SameGroup(d, x, b) && SameGroup(d, y, a)))
  {
    var r := Merge(d, i, j);
    forall x, y | x in Members(d) && y in Members(d)
      ensures SameGroup(r, x, y) <==>
                || SameGroup(d, x, y)
                || (SameGroup(d, x, a) && SameGroup(d, y, b))
                || (SameGroup(d, x, b) && SameGroup(d, y, a))
    {
      UnionRegroupsPair(d, i, j, a, b, x, y);
    }
  }

  /** Members share a group exactly when `_get_index` puts them at one place. */
  lemma SameGroupByIndex<T>(d: DisjointSet<T>, x: T, y: T)
    requires x in Members(d) && y in Members(d)
    ensures SameGroup(d, x, y) <==> GetIndex(d, x).value == GetIndex(d, y).value
  {
  }

  lemma UnionRegroupsPair<T>(d: DisjointSet<T>, i: nat, j: nat, a: T, b: T, x: T, y: T)
    requires Valid(d)
    requires i < |d.groups| && j < |d.groups| && i != j
    requires GetIndex(d, a) == Some(i) && GetIndex(d, b) == Some(j)
    requires x in Members(d) && y in Members(d)
    ensures var r := Merge(d, i, j);
            SameGroup(r, x, y) <==>
              || SameGroup(d, x, y)
              || (SameGroup(d, x, a) && SameGroup(d, y, b))
              || (SameGroup(d, x, b) && SameGroup(d, y, a))
  {
    var r := Merge(d, i, j);
    var mx := GetIndex(d, x).value;
    var my := GetIndex(d, y).value;
    UnionPlaces(d, i, j, mx, x);
    UnionPlaces(d, i, j, my, y);
    var mx' := if mx == j then i else mx;
    var my' := if my == j then i else my;
    assert SameGroup(r, x, y) <==> Shifted(i, j, mx') == Shifted(i, j, my');
    SameGroupByIndex(d, x, y);
    SameGroupByIndex(d, x, a);
    SameGroupByIndex(d, y, b);
    SameGroupByIndex(d, x, b);
    SameGroupByIndex(d, y, a);
  }

  lemma UnionKeepsOthers<T>(d: DisjointSet<T>, i: nat, j: nat, a: T, b: T)
    requires Valid(d)
    requires i < |d.groups| && j < |d.groups| && i != j
    requires GetIndex(d, a) == Some(i) && GetIndex(d, b) == Some(j)
    ensures var r := Merge(d, i, j);
            forall g :: g in d.groups && a !in g && b !in g ==> g in r.groups
  {
    forall g | g in d.groups && a !in g && b !in g
      ensures g in Merge(d, i, j).groups
    {
      var m :| 0 <= m < |d.groups| && d.groups[m] == g;
      assert m != i && m != j;
      UnionShape(d, i, j, Shifted(i, j, m));
    }
  }

  /** `union` is transitive: after `union(a, b)` and `union(b, c)`, `find_set`
      gives `a` and `c` the same label. */
  lemma UnionTransitive<T>(d: DisjointSet<T>, a: T, b: T, c: T)
    requires Valid(d)
    requires a in Members(d) && b in Members(d) && c in Members(d)
        ensures FindSet(Union(Union(d, a, b), b, c), a) == FindSet(Union(Union(d, a, b), b, c), c)
  {
    var d1 := Union(d, a, b);
    assert SameGroup(d1, a, b);
    var d2 := Union(d1, b, c);
    assert SameGroup(d2, b, c);
    assert SameGroup(d2, a, b);
  }

  /** `union(a, b)` and `union(b, a)` induce the same grouping (the group
      contents may be concatenated in the other order). */
  lemma UnionCommutes<T>(d: DisjointSet<T>, a: T, b: T, x: T, y: T)
    requires Valid(d)
    requires a in Members(d) && b in Members(d)
    requires x in Members(d) && y in Members(d)
    ensures SameGroup(Union(d, a, b), x, y) <==> SameGroup(Union(d, b, a), x, y)
  {
    var r1 := Union(d, a, b);
    var r2 := Union(d, b, a);
    assert SameGroup(r1, x, y) <==>
             || SameGroup(d, x, y)
             || (SameGroup(d, x, a) && SameGroup(d, y, b))
             || (SameGroup(d, x, b) && SameGroup(d, y, a));
    assert SameGroup(r2, x, y) <==>
             || SameGroup(d, x, y)
             || (SameGroup(d, x, b) && SameGroup(d, y, a))
             || (SameGroup(d, x, a) && SameGroup(d, y, b));
  }

  /** `union` only merges: elements that shared a group still do, the
      members stay the same, and there are no more groups than before. */
  lemma UnionCoarsens<T>(d: DisjointSet<T>, a: T, b: T)
    requires Valid(d)
    requires a in Members(d) && b in Members(d)
    ensures var r := Union(d, a, b);
            && Valid(r) && Members(r) == Members(d)
            && |r.groups| <= |d.groups|
            && SameGroup(r, a, b)
            && (forall x, y :: SameGroup(d, x, y) ==> SameGroup(r, x, y))
  {
    var r := Union(d, a, b);
    forall x, y | SameGroup(d, x, y) ensures SameGroup(r, x, y) {
      assert x in Members(d) && y in Members(d);
    }
  }

  /** Non-empty disjoint groups: never more groups than elements. */
  lemma {:induction false} GroupCountBound<T>(d: DisjointSet<T>)
    requires Valid(d)
    ensures |d.groups| <= |Members(d)|
    decreases |d.groups|
  {
    if d.groups != [] {
      var n := |d.groups| - 1;
      var d' := DisjointSet(d.groups[..n]);
      assert Valid(d');
      GroupCountBound(d');
      var last := set x | x in d.groups[n];
      assert Members(d) == Members(d') + last;
      assert Members(d') !! last;
      assert d.groups[n][0] in last;
    }
  }

  /** `R` is an equivalence relation on `u`. */
  ghost predicate IsEquivalenceOn<T>(R: (T, T) -> bool, u: set<T>) {
    && (forall x :: x in u ==> R(x, x))
    && (forall x, y :: x in u && y in u && R(x, y) ==> R(y, x))
    && (forall x, y, z :: x in u && y in u && z in u && R(x, y) && R(y, z) ==> R(x, z))
  }

  /** Elements sharing a group are related by `R`. */
  ghost predicate GroupsWithin<T>(d: DisjointSet<T>, R: (T, T) -> bool) {
    forall x, y :: x in Members(d) && y in Members(d) && SameGroup(d, x, y) ==> R(x, y)
  }

  /** Merging the groups of two `R`-related members keeps every group inside
      one `R`-class. */
  lemma UnionWithin<T>(d: DisjointSet<T>, a: T, b: T, R: (T, T) -> bool)
    requires Valid(d) && IsEquivalenceOn(R, Members(d))
    requires GroupsWithin(d, R)
    requires a in Members(d) && b in Members(d) && R(a, b)
    ensures GroupsWithin(Union(d, a, b), R)
  {
    var r := Union(d, a, b);
    forall x, y | x in Members(r) && y in Members(r) && SameGroup(r, x, y) ensures R(x, y) {
      if SameGroup(d, x, a) && SameGroup(d, y, b) {
        assert R(x, a) && R(y, b);
      } else if SameGroup(d, x, b) && SameGroup(d, y, a) {
        assert R(x, b) && R(y, a);
        assert R(b, a);
      }
    }
  }

  /** A duplicate-free enumeration of `s`, keeping each element's last
      occurrence; it stands for the unspecified iteration order of `set(s)`. */
  function Dedup<T(==)>(s: seq<T>): (r: seq<T>)
    ensures IsEnumeration(r, s)
  {
    if s == [] then []
    else
      var rest := Dedup(s[1..]);
      assert forall x :: x in s ==> x == s[0] || x in s[1..];
      if s[0] in s[1..] then rest else [s[0]] + rest
  }
}
