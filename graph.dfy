/**
 * Dependency ordering of tables (subsetter/graph.go). A directed graph is built
 * one `AddEdge` at a time, sorted topologically from a root and the result is
 * reversed in place. The sort itself comes from a library whose code is not part
 * of this model: `DepGraph.TopSort` is written here against the contract the
 * callers rely on — a topological order of exactly the tables reachable from the
 * root, root first, or an error when no such order exists.
 */
module Graph {

  import opened Outcomes
  import opened Relations

  /** A directed edge `(from, to)` between two table names. */
  type Edge = (string, string)

  // ---------------------------------------------------------------------------
  // Reachability

  /** Every table some edge points to. */
  function Targets(E: set<Edge>): set<string> {
    set e | e in E :: e.1
  }

  /** The tables one edge away from `S`. */
  function Successors(E: set<Edge>, S: set<string>): (T: set<string>)
    ensures T <= Targets(E)
    ensures forall e :: e in E && e.0 in S ==> e.1 in T
  {
    set e | e in E && e.0 in S :: e.1
  }

  /** No edge leaves `S`. */
  ghost predicate Closed(E: set<Edge>, S: set<string>) {
    forall e :: e in E && e.0 in S ==> e.1 in S
  }

  lemma {:induction false} SubsetSmaller(A: set<string>, B: set<string>)
    requires A <= B
    ensures |A| <= |B|
    decreases |B|
  {
    if A != {} {
      var a :| a in A;
      SubsetSmaller(A - {a}, B - {a});
    }
  }

  /** A step that adds a table leaves fewer tables outside. */
  lemma StepShrinksOutside(E: set<Edge>, S: set<string>)
    requires S + Successors(E, S) != S
    ensures |Targets(E) - (S + Successors(E, S))| < |Targets(E) - S|
  {
    var next := S + Successors(E, S);
    var x :| x in next && x !in S;
    assert x in Targets(E) - S;
    assert Targets(E) - next <= (Targets(E) - S) - {x};
    SubsetSmaller(Targets(E) - next, (Targets(E) - S) - {x});
  }

  /** The tables reachable from `S`: grow `S` by successors until nothing changes. */
  function ReachFrom(E: set<Edge>, S: set<string>): (R: set<string>)
    ensures S <= R
    ensures Closed(E, R)
    decreases |Targets(E) - S|
  {
    var next := S + Successors(E, S);
    if next == S then S
    else
      StepShrinksOutside(E, S);
      ReachFrom(E, next)
  }

  /** Every table reachable from `root` along the edges, `root` included. */
  function Reach(E: set<Edge>, root: string): (R: set<string>)
    ensures root in R
    ensures Closed(E, R)
  {
    ReachFrom(E, {root})
  }

  /** Reachability adds nothing that a closed superset does not already hold. */
  lemma {:induction false} ReachFromLeast(E: set<Edge>, S: set<string>, T: set<string>)
    requires S <= T && Closed(E, T)
    ensures ReachFrom(E, S) <= T
    decreases |Targets(E) - S|
  {
    var next := S + Successors(E, S);
    if next != S {
      StepShrinksOutside(E, S);
      ReachFromLeast(E, next, T);
    }
  }

  /** `Reach` is the least closed set holding the root. */
  lemma ReachLeast(E: set<Edge>, root: string, T: set<string>)
    requires root in T && Closed(E, T)
    ensures Reach(E, root) <= T
  {
    ReachFromLeast(E, {root}, T);
  }

  // ---------------------------------------------------------------------------
  // Orders

  predicate NoDup(l: seq<string>) {
    forall i, j :: 0 <= i < j < |l| ==> l[i] != l[j]
  }

  /** Every edge between two listed tables goes from the earlier to the later. */
  predicate EdgesForward(E: set<Edge>, l: seq<string>) {
    forall i, j :: 0 <= i < |l| && 0 <= j < |l| && (l[i], l[j]) in E ==> i < j
  }

  /** What the sort promises: the root first, each reachable table once, edges forward. */
  ghost predicate IsSortFrom(E: set<Edge>, root: string, l: seq<string>) {
    |l| > 0 && l[0] == root && NoDup(l) && (set x | x in l) == Reach(E, root) && EdgesForward(E, l)
  }

  /**
   * What TableGraph and RequiredTableGraph return: each reachable table once,
   * the root last, and the target of every edge before its source.
   */
  ghost predicate IsDependencyOrder(E: set<Edge>, root: string, l: seq<string>) {
    |l| > 0 && l[|l| - 1] == root && NoDup(l) && (set x | x in l) == Reach(E, root) &&
    forall i, j :: 0 <= i < |l| && 0 <= j < |l| && (l[i], l[j]) in E ==> i > j
  }

  function Reversed(l: seq<string>): (r: seq<string>)
    ensures |r| == |l|
    ensures forall i :: 0 <= i < |l| ==> r[i] == l[|l| - 1 - i]
  {
    seq(|l|, i requires 0 <= i < |l| => l[|l| - 1 - i])
  }

  /** Reversing twice gives the list back. */
  lemma ReversedTwice(l: seq<string>)
    ensures Reversed(Reversed(l)) == l
  {
  }

  lemma ReversedSameMembers(l: seq<string>)
    ensures (set x | x in Reversed(l)) == (set x | x in l)
  {
    var r := Reversed(l);
    forall x | x in l ensures x in r {
      var i :| 0 <= i < |l| && l[i] == x;
      assert r[|l| - 1 - i] == x;
    }
  }

  /** A sort order reversed is a dependency order and nothing else is. */
  lemma {:induction false} SortReversedIsDependencyOrder(E: set<Edge>, root: string, l: seq<string>)
    ensures IsSortFrom(E, root, l) <==> IsDependencyOrder(E, root, Reversed(l))
  {
    var r := Reversed(l);
    ReversedSameMembers(l);
    if IsSortFrom(E, root, l) {
      forall i, j | 0 <= i < |r| && 0 <= j < |r| && (r[i], r[j]) in E ensures i > j {
        assert (l[|l| - 1 - i], l[|l| - 1 - j]) in E;
      }
      forall i, j | 0 <= i < j < |r| ensures r[i] != r[j] {
        assert l[|l| - 1 - j] != l[|l| - 1 - i];
      }
    }
    if IsDependencyOrder(E, root, r) {
      forall i, j | 0 <= i < |l| && 0 <= j < |l| && (l[i], l[j]) in E ensures i < j {
        assert (r[|l| - 1 - i], r[|l| - 1 - j]) in E;
      }
      forall i, j | 0 <= i < j < |l| ensures l[i] != l[j] {
        assert r[|l| - 1 - j] != r[|l| - 1 - i];
      }
    }
  }

  /** A root that is the source of no edge is ordered alone. */
  lemma RootWithoutEdges(E: set<Edge>, root: string)
    requires forall e :: e in E ==> e.0 != root
    ensures forall l :: IsDependencyOrder(E, root, l) <==> l == [root]
  {
    ReachLeast(E, root, {root});
    assert Reach(E, root) == {root};
    assert (set x | x in [root]) == {root};
    forall l | IsDependencyOrder(E, root, l) ensures l == [root] {
      assert l[0] in (set x | x in l);
      assert l[0] in Reach(E, root);
    }
  }

  /** An edge into the root from a reachable table rules out every order. */
  lemma NoOrderWithRootPredecessor(E: set<Edge>, root: string, u: string)
    requires u in Reach(E, root) && (u, root) in E
    ensures forall l :: !IsSortFrom(E, root, l)
  {
    forall l | IsSortFrom(E, root, l) ensures false {
    }
  }

  /** The earliest position in `l` of a member of `S`. */
  lemma EarliestIn(l: seq<string>, S: set<string>) returns (i: nat)
    requires exists k :: 0 <= k < |l| && l[k] in S
    ensures i < |l| && l[i] in S
    ensures forall k :: 0 <= k < i ==> l[k] !in S
  {
    i := 0;
    while l[i] !in S
      invariant i < |l|
      invariant forall k :: 0 <= k < i ==> l[k] !in S
      invariant exists k :: i <= k < |l| && l[k] in S
      decreases |l| - i
    {
      i := i + 1;
    }
  }

  /** Some table of `S` has an edge to `v`. */
  ghost predicate HasPredecessorIn(E: set<Edge>, S: set<string>, v: string) {
    exists u :: u in S && (u, v) in E
  }

  /**
   * When every remaining table has a remaining predecessor, a listing of the
   * reachable tables breaks an edge at the earliest of them.
   */
  lemma StuckBreaksOrder(E: set<Edge>, R: set<string>, remaining: set<string>, l: seq<string>)
    requires remaining != {} && remaining <= R
    requires forall v {:trigger HasPredecessorIn(E, remaining, v)} :: v in remaining ==> HasPredecessorIn(E, remaining, v)
    requires (set x | x in l) == R
    ensures !EdgesForward(E, l)
  {
    var v :| v in remaining;
    assert v in l;
    var k :| 0 <= k < |l| && l[k] == v;
    var i := EarliestIn(l, remaining);
    assert HasPredecessorIn(E, remaining, l[i]);
    var u :| u in remaining && (u, l[i]) in E;
    assert u in l;
    var j :| 0 <= j < |l| && l[j] == u;
    assert (l[j], l[i]) in E && !(j < i);
  }

  /** Then no order exists at all. */
  lemma NoOrderWhenStuck(E: set<Edge>, root: string, remaining: set<string>)
    requires remaining != {} && remaining <= Reach(E, root)
    requires forall v {:trigger HasPredecessorIn(E, remaining, v)} :: v in remaining ==> HasPredecessorIn(E, remaining, v)
    ensures forall l :: !IsSortFrom(E, root, l)
  {
    forall l | (set x | x in l) == Reach(E, root) ensures !EdgesForward(E, l) {
      StuckBreaksOrder(E, Reach(E, root), remaining, l);
    }
  }

  /** The error the sort reports when the reachable part of the graph has a cycle. */
  const CycleError := Failure("topological sort: cycle")

  /** A table of `S` with no predecessor in `S`, if there is one. */
  method Unblocked(E: set<Edge>, S: set<string>) returns (r: Option<string>)
    ensures r.Some? ==> r.value in S && forall u :: u in S ==> (u, r.value) !in E
    ensures r.None? ==> forall v {:trigger HasPredecessorIn(E, S, v)} :: v in S ==> HasPredecessorIn(E, S, v)
  {
    if v :| v in S && forall u :: u in S ==> (u, v) !in E {
      return Some(v);
    }
    forall v | v in S ensures HasPredecessorIn(E, S, v) {}
    return None;
  }

  /**
   * The state of the sort: the placed tables, once each and edges forward, and
   * the remaining reachable ones; every reachable predecessor of a placed table
   * is placed.
   */
  ghost predicate SortInProgress(E: set<Edge>, reach: set<string>, order: seq<string>, remaining: set<string>) {
    NoDup(order) &&
    (set x | x in order) !! remaining &&
    (set x | x in order) + remaining == reach &&
    EdgesForward(E, order) &&
    forall e :: e in E && e.0 in reach && e.1 in order ==> e.0 in order
  }

  /** Placing a remaining table with no remaining predecessor keeps the sort state. */
  lemma PlaceNext(E: set<Edge>, reach: set<string>, order: seq<string>, remaining: set<string>, v: string)
    requires SortInProgress(E, reach, order, remaining)
    requires v in remaining && forall u :: u in remaining ==> (u, v) !in E
    ensures SortInProgress(E, reach, order + [v], remaining - {v})
  {
    var next := order + [v];
    assert (set x | x in next) == (set x | x in order) + {v};
    assert v !in order;
  }

  /** The graph object of the sorting library: a set of edges, grown by `AddEdge`. */
  class DepGraph {
    var edges: set<Edge>

    constructor()
      ensures edges == {}
    {
      edges := {};
    }

    /** Records the edge; adding an edge twice changes nothing. */
    method AddEdge(from: string, to: string)
      modifies this
      ensures edges == old(edges) + {(from, to)}
    {
      edges := edges + {(from, to)};
    }

    /**
     * A topological order of the tables reachable from `root`, the root first;
     * an error exactly when none exists.
     */
    method TopSort(root: string) returns (r: Result<seq<string>>)
      ensures r.Ok? ==> IsSortFrom(edges, root, r.value)
      ensures r.Err? ==> r.error == CycleError && forall l :: !IsSortFrom(edges, root, l)
    {
      var E := edges;
      var reach := Reach(E, root);
      if u :| u in reach && (u, root) in E {
        NoOrderWithRootPredecessor(E, root, u);
        return Err(CycleError);
      }
      var order := [root];
      var remaining := reach - {root};
      assert (set x | x in order) == {root};
      while remaining != {}
        invariant |order| > 0 && order[0] == root
        invariant SortInProgress(E, reach, order, remaining)
        decreases |remaining|
      {
        var next := Unblocked(E, remaining);
        if next.None? {
          NoOrderWhenStuck(E, root, remaining);
          return Err(CycleError);
        }
        var v := next.value;
        PlaceNext(E, reach, order, remaining, v);
        order := order + [v];
        remaining := remaining - {v};
      }
      return Ok(order);
    }
  }

  /** `slices.Reverse`: reverses the array in place. */
  method ReverseInPlace(a: array<string>)
    modifies a
    ensures a[..] == Reversed(old(a[..]))
  {
    var i, j := 0, a.Length - 1;
    while i < j
      invariant 0 <= i && i + j == a.Length - 1
      invariant i <= j + 1
      invariant forall k :: 0 <= k < i ==> a[k] == old(a[a.Length - 1 - k])
      invariant forall k :: j < k < a.Length ==> a[k] == old(a[a.Length - 1 - k])
      invariant forall k :: i <= k <= j ==> a[k] == old(a[k])
    {
      a[i], a[j] := a[j], a[i];
      i, j := i + 1, j - 1;
    }
  }

  // ---------------------------------------------------------------------------
  // The two graphs of the subsetter

  /** TableGraph's edges: owner to referenced table, one per relation that is not self-related. */
  function ForwardEdges(relations: seq<Relation>): set<Edge> {
    if relations == [] then {}
    else
      var r := relations[|relations| - 1];
      ForwardEdges(relations[..|relations| - 1]) + (if r.IsSelfRelated() then {} else {(r.PrimaryTable, r.ForeignTable)})
  }

  /** RequiredTableGraph's edges: the same relations, pointing the other way. */
  function BackwardEdges(relations: seq<Relation>): set<Edge> {
    if relations == [] then {}
    else
      var r := relations[|relations| - 1];
      BackwardEdges(relations[..|relations| - 1]) + (if r.IsSelfRelated() then {} else {(r.ForeignTable, r.PrimaryTable)})
  }

  /** An edge of TableGraph is exactly a relation between two different tables. */
  lemma {:induction false} ForwardEdgesMembers(relations: seq<Relation>, from: string, to: string)
    ensures (from, to) in ForwardEdges(relations) <==>
      exists r :: r in relations && !r.IsSelfRelated() && r.PrimaryTable == from && r.ForeignTable == to
  {
    if relations != [] {
      var init := relations[..|relations| - 1];
      ForwardEdgesMembers(init, from, to);
      assert relations == init + [relations[|relations| - 1]];
    }
  }

  /** RequiredTableGraph has the edges of TableGraph reversed, and no others. */
  lemma {:induction false} BackwardEdgesMirror(relations: seq<Relation>, from: string, to: string)
    ensures (from, to) in BackwardEdges(relations) <==> (to, from) in ForwardEdges(relations)
  {
    if relations != [] {
      BackwardEdgesMirror(relations[..|relations| - 1], from, to);
    }
  }

  /** Neither graph has an edge from a table to itself. */
  lemma NoSelfEdges(relations: seq<Relation>, t: string)
    ensures (t, t) !in ForwardEdges(relations)
    ensures (t, t) !in BackwardEdges(relations)
  {
    ForwardEdgesMembers(relations, t, t);
    BackwardEdgesMirror(relations, t, t);
  }

  /** Adds one edge per relation that is not self-related, in the given direction, then sorts and reverses. */
  method SortedDependencies(primary: string, relations: seq<Relation>, forward: bool) returns (r: Result<seq<string>>)
    ensures var E := if forward then ForwardEdges(relations) else BackwardEdges(relations);
      (r.Ok? ==> IsDependencyOrder(E, primary, r.value)) &&
      (r.Err? ==> r.error == CycleError && forall l :: !IsDependencyOrder(E, primary, l))
  {
    var graph := new DepGraph();
    for i := 0 to |relations|
      invariant graph.edges == if forward then ForwardEdges(relations[..i]) else BackwardEdges(relations[..i])
    {
      assert relations[..i + 1][..i] == relations[..i];
      var rel := relations[i];
      if !rel.IsSelfRelated() {
        if forward {
          graph.AddEdge(rel.PrimaryTable, rel.ForeignTable);
        } else {
          graph.AddEdge(rel.ForeignTable, rel.PrimaryTable);
        }
      }
    }
    assert relations[..|relations|] == relations;
    var E := graph.edges;
    var sorted := graph.TopSort(primary);
    if sorted.Err? {
      forall l | IsDependencyOrder(E, primary, l) ensures false {
        ReversedTwice(l);
        SortReversedIsDependencyOrder(E, primary, Reversed(l));
      }
      return Err(sorted.error);
    }
    var a := new string[|sorted.value|](i requires 0 <= i < |sorted.value| => sorted.value[i]);
    assert a[..] == sorted.value;
    ReverseInPlace(a);
    SortReversedIsDependencyOrder(E, primary, sorted.value);
    return Ok(a[..]);
  }

  /**
   * `TableGraph`: the tables reachable from `primary` along owner-to-referenced
   * edges, each referenced table before the tables that reference it and the
   * primary table last; a cycle error when no such order exists.
   */
  method TableGraph(primary: string, relations: seq<Relation>) returns (r: Result<seq<string>>)
    ensures r.Ok? ==> IsDependencyOrder(ForwardEdges(relations), primary, r.value)
    ensures r.Err? ==> r.error == CycleError && forall l :: !IsDependencyOrder(ForwardEdges(relations), primary, l)
  {
    r := SortedDependencies(primary, relations, true);
  }

  /** `RequiredTableGraph`: the same over the reversed edges. */
  method RequiredTableGraph(primary: string, relations: seq<Relation>) returns (r: Result<seq<string>>)
    ensures r.Ok? ==> IsDependencyOrder(BackwardEdges(relations), primary, r.value)
    ensures r.Err? ==> r.error == CycleError && forall l :: !IsDependencyOrder(BackwardEdges(relations), primary, l)
  {
    r := SortedDependencies(primary, relations, false);
  }

  /** A table that owns no relation (or only self-relations) is ordered alone by TableGraph. */
  lemma TableGraphOfUnrelatedRoot(primary: string, relations: seq<Relation>)
    requires forall r :: r in relations && r.PrimaryTable == primary ==> r.IsSelfRelated()
    ensures forall l :: IsDependencyOrder(ForwardEdges(relations), primary, l) <==> l == [primary]
  {
    forall e | e in ForwardEdges(relations) ensures e.0 != primary {
      ForwardEdgesMembers(relations, e.0, e.1);
    }
    RootWithoutEdges(ForwardEdges(relations), primary);
  }
}
