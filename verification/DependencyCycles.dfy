/** The depth-first search that reports dependency cycles between catalog points. */
module DependencyCycles {
  import opened Collections
  import opened Graph
  import opened Catalog

  /** Points by identifier; as in a dictionary, the last point with an identifier wins. */
  function PointMap(points: seq<Point>): map<Id, Point> {
    if points == [] then map[] else PointMap(points[..|points| - 1])[points[|points| - 1].id := points[|points| - 1]]
  }

  lemma {:induction false} PointMapKeys(points: seq<Point>, n: nat)
    requires n < |points|
    ensures points[n].id in PointMap(points)
  {
    if n < |points| - 1 { PointMapKeys(points[..|points| - 1], n); }
  }

  lemma {:induction false} PointMapKnown(points: seq<Point>, id: Id)
    requires id in PointMap(points)
    ensures exists n :: 0 <= n < |points| && points[n].id == id
  {
    var last := |points| - 1;
    if id != points[last].id {
      PointMapKnown(points[..last], id);
      var n :| 0 <= n < last && points[..last][n].id == id;
      assert points[n].id == id;
    }
  }

  /** The dependency edges between known points. */
  ghost function KnownEdges(points: map<Id, Point>): set<(Id, Id)> {
    set id, dependency | id in points && dependency in points[id].dependsOn && dependency in points :: (id, dependency)
  }

  /** The last point with an identifier has its dependencies on listed points as edges; there are no other ones. */
  lemma KnownEdgesMean(points: seq<Point>, id: Id, dependency: Id)
    ensures (id, dependency) in KnownEdges(PointMap(points)) <==>
              (exists n :: 0 <= n < |points| && points[n].id == id && dependency in points[n].dependsOn &&
                           forall k :: n < k < |points| ==> points[k].id != id) &&
              exists m :: 0 <= m < |points| && points[m].id == dependency
  {
    PointMapIsLast(points, id);
    PointMapIsLast(points, dependency);
  }

  lemma {:induction false} PointMapIsLast(points: seq<Point>, id: Id)
    ensures id in PointMap(points) <==> exists n :: 0 <= n < |points| && points[n].id == id
    ensures forall n :: 0 <= n < |points| && points[n].id == id && (forall k :: n < k < |points| ==> points[k].id != id)
              ==> id in PointMap(points) && PointMap(points)[id] == points[n]
    ensures id in PointMap(points) ==>
              exists n :: 0 <= n < |points| && points[n].id == id && PointMap(points)[id] == points[n] &&
                          forall k :: n < k < |points| ==> points[k].id != id
  {
    if points != [] {
      var last := |points| - 1;
      PointMapIsLast(points[..last], id);
      assert forall k :: 0 <= k < last ==> points[..last][k] == points[k];
      if points[last].id == id {
        assert PointMap(points)[id] == points[last];
      } else if id in PointMap(points) {
        var n :| 0 <= n < last && points[..last][n].id == id && PointMap(points[..last])[id] == points[..last][n] &&
                 forall k :: n < k < last ==> points[..last][k].id != id;
        assert points[n].id == id;
      }
    }
  }

  /** A chain of known dependencies that comes back to where it started. */
  ghost predicate Cycle(edges: set<(Id, Id)>, chain: seq<Id>) {
    |chain| > 1 && chain[0] == chain[|chain| - 1] && Chain(edges, chain)
  }

  ghost predicate HasCycle(edges: set<(Id, Id)>) {
    exists chain: seq<Id> :: Cycle(edges, chain)
  }

  /** A reported trail: a dependency chain whose last point already occurs on it. */
  ghost predicate RealReport(edges: set<(Id, Id)>, trail: seq<Id>) {
    Chain(edges, trail) && exists i :: 0 <= i < |trail| - 1 && trail[i] == trail[|trail| - 1]
  }

  lemma ReportHasCycle(edges: set<(Id, Id)>, trail: seq<Id>)
    requires RealReport(edges, trail)
    ensures HasCycle(edges)
  {
    var i :| 0 <= i < |trail| - 1 && trail[i] == trail[|trail| - 1];
    var loop := trail[i..];
    forall k | 0 <= k < |loop| - 1
      ensures Link(edges, loop, k)
    {
      assert Link(edges, trail, i + k);
    }
    assert Cycle(edges, loop);
  }

  /** The last edges of the reported trails, which close their cycles. */
  ghost function ClosingEdges(errors: seq<seq<Id>>): set<(Id, Id)> {
    set trail | trail in errors && |trail| > 1 :: (trail[|trail| - 2], trail[|trail| - 1])
  }

  /** The known dependencies but for those that a report closes a cycle with. */
  ghost function OpenEdges(points: map<Id, Point>, errors: seq<seq<Id>>): set<(Id, Id)> {
    KnownEdges(points) - ClosingEdges(errors)
  }

  /** Every known dependency of a listed point is listed before it. */
  ghost predicate DependenciesFirst(edges: set<(Id, Id)>, finished: seq<Id>) {
    forall n, dependency :: 0 <= n < |finished| && (finished[n], dependency) in edges ==> dependency in finished[..n]
  }

  /** A list of all points with dependencies first rules out cycles: the position drops along every edge. */
  lemma {:induction false} OrderedChainDescends(edges: set<(Id, Id)>, finished: seq<Id>, chain: seq<Id>, n: nat)
    requires NoDuplicates(finished) && DependenciesFirst(edges, finished)
    requires |chain| > 1 && Chain(edges, chain) && n < |finished| && finished[n] == chain[0]
    ensures chain[|chain| - 1] in finished[..n]
  {
    assert Link(edges, chain, 0);
    var m :| 0 <= m < n && finished[..n][m] == chain[1];
    if |chain| > 2 {
      var tail := chain[1..];
      forall k | 0 <= k < |tail| - 1
        ensures Link(edges, tail, k)
      {
        assert Link(edges, chain, k + 1);
      }
      OrderedChainDescends(edges, finished, tail, m);
      assert finished[..m] <= finished[..n];
    }
  }

  lemma OrderedIsAcyclic(edges: set<(Id, Id)>, finished: seq<Id>)
    requires NoDuplicates(finished) && DependenciesFirst(edges, finished)
    requires forall id, dependency :: (id, dependency) in edges ==> id in finished
    ensures !HasCycle(edges)
  {
    forall chain: seq<Id> | |chain| > 1 && Chain(edges, chain)
      ensures chain[0] != chain[|chain| - 1]
    {
      assert Link(edges, chain, 0);
      var n :| 0 <= n < |finished| && finished[n] == chain[0];
      OrderedChainDescends(edges, finished, chain, n);
      assert forall m :: 0 <= m < n ==> finished[..n][m] == finished[m] != finished[n];
    }
  }

  /** `visiting` holds the points on the current trail, `visited` the finished ones, `errors` the reported trails. */
  class CycleSearch {
    const points: map<Id, Point>
    var visiting: set<Id>
    var visited: set<Id>
    var errors: seq<seq<Id>>
    ghost var finished: seq<Id>   // the visited points in the order they were finished

    ghost predicate Valid()
      reads this
    {
      NoDuplicates(finished) && visited == Elements(finished) && visited <= points.Keys &&
      visiting !! visited && visiting <= points.Keys &&
      (forall trail :: trail in errors ==> RealReport(KnownEdges(points), trail)) &&
      DependenciesFirst(OpenEdges(points, errors), finished)
    }

    constructor (points: map<Id, Point>)
      ensures Valid() && this.points == points && errors == [] && visiting == {} && finished == []
    {
      this.points := points;
      visiting, visited, errors, finished := {}, {}, [], [];
    }

    /** Visit a point at the end of a trail of dependencies; every point is finished at most once. */
    method Visit(id: Id, trail: seq<Id>)
      requires Valid() && Elements(trail) == visiting
      requires id in points ==> Chain(KnownEdges(points), trail + [id])
      modifies this
      ensures Valid() && visiting == old(visiting)
      ensures old(finished) <= finished && old(errors) <= errors
      ensures id in points ==> id in visited || (trail != [] && (trail[|trail| - 1], id) in ClosingEdges(errors))
      decreases points.Keys - visiting
    {
      hide Chain, DependenciesFirst, NoDuplicates, RealReport, KnownEdges, OpenEdges, ClosingEdges, Elements;
      TrailGrows(trail, id);
      if id in visiting {
        ReportedTrail(KnownEdges(points), trail, id);
        MoreReports(points, errors, trail + [id], finished);
        errors := errors + [trail + [id]];
        return;
      }
      if id in visited || id !in points { return; }
      visiting := visiting + {id};
      var listed := points[id].dependsOn;
      for n := 0 to |listed|
        invariant Valid() && visiting == old(visiting) + {id}
        invariant old(finished) <= finished && old(errors) <= errors
        invariant forall i :: 0 <= i < n && listed[i] in points ==>
          listed[i] in visited || (id, listed[i]) in ClosingEdges(errors)
      {
        if listed[n] in points { ChainLonger(points, trail, id, listed[n]); }
        ghost var before, done := errors, finished;
        Visit(listed[n], trail + [id]);
        ClosingGrows(before, errors);
        DoneGrows(done, finished);
      }
      visiting := visiting - {id};
      visited := visited + {id};
      FinishedLonger(points, errors, finished, id);
      finished := finished + [id];
      assert old(visiting) == visiting;
    }
  }

  lemma TrailGrows(trail: seq<Id>, id: Id)
    ensures Elements(trail + [id]) == Elements(trail) + {id} && (id in Elements(trail) ==> trail != [])
    ensures |trail + [id]| > 1 ==> (trail + [id])[|trail + [id]| - 2] == trail[|trail| - 1]
  {
  }

  lemma ChainLonger(points: map<Id, Point>, trail: seq<Id>, id: Id, dependency: Id)
    requires id in points && dependency in points[id].dependsOn && dependency in points
    requires Chain(KnownEdges(points), trail + [id])
    ensures Chain(KnownEdges(points), trail + [id] + [dependency])
  {
    ChainGrows(KnownEdges(points), trail + [id], dependency);
  }

  lemma FinishedLonger(points: map<Id, Point>, errors: seq<seq<Id>>, finished: seq<Id>, id: Id)
    requires NoDuplicates(finished) && id !in Elements(finished) && id in points
    requires DependenciesFirst(OpenEdges(points, errors), finished)
    requires forall i :: 0 <= i < |points[id].dependsOn| && points[id].dependsOn[i] in points ==>
               points[id].dependsOn[i] in Elements(finished) || (id, points[id].dependsOn[i]) in ClosingEdges(errors)
    ensures NoDuplicates(finished + [id]) && Elements(finished + [id]) == Elements(finished) + {id}
    ensures DependenciesFirst(OpenEdges(points, errors), finished + [id])
  {
    FinishedGrows(OpenEdges(points, errors), finished, id);
  }

  lemma ReportedTrail(edges: set<(Id, Id)>, trail: seq<Id>, id: Id)
    requires id in Elements(trail) && Chain(edges, trail + [id])
    ensures RealReport(edges, trail + [id])
  {
    var i :| 0 <= i < |trail| && trail[i] == id;
    assert (trail + [id])[i] == id;
  }

  lemma ChainGrows(edges: set<(Id, Id)>, chain: seq<Id>, id: Id)
    requires chain != [] && Chain(edges, chain) && (chain[|chain| - 1], id) in edges
    ensures Chain(edges, chain + [id])
  {
    forall k | 0 <= k < |chain + [id]| - 1
      ensures Link(edges, chain + [id], k)
    {
      if k < |chain| - 1 { assert Link(edges, chain, k); }
    }
  }

  lemma ClosingGrows(few: seq<seq<Id>>, many: seq<seq<Id>>)
    requires few <= many
    ensures ClosingEdges(few) <= ClosingEdges(many)
  {
    assert forall trail :: trail in few ==> trail in many;
  }

  lemma DoneGrows(few: seq<Id>, many: seq<Id>)
    requires few <= many
    ensures Elements(few) <= Elements(many)
  {
    assert forall id :: id in few ==> id in many;
  }

  lemma MoreReports(points: map<Id, Point>, errors: seq<seq<Id>>, trail: seq<Id>, finished: seq<Id>)
    requires DependenciesFirst(OpenEdges(points, errors), finished)
    ensures DependenciesFirst(OpenEdges(points, errors + [trail]), finished)
    ensures |trail| > 1 ==> (trail[|trail| - 2], trail[|trail| - 1]) in ClosingEdges(errors + [trail])
  {
    ClosingGrows(errors, errors + [trail]);
    assert trail in errors + [trail];
  }

  lemma FinishedGrows(edges: set<(Id, Id)>, finished: seq<Id>, id: Id)
    requires NoDuplicates(finished) && id !in finished && DependenciesFirst(edges, finished)
    requires forall dependency :: (id, dependency) in edges ==> dependency in finished
    ensures NoDuplicates(finished + [id]) && Elements(finished + [id]) == Elements(finished) + {id}
    ensures DependenciesFirst(edges, finished + [id])
  {
    var longer := finished + [id];
    forall n, dependency | 0 <= n < |longer| && (longer[n], dependency) in edges
      ensures dependency in longer[..n]
    {
      assert longer[..n] == finished[..n];
      assert finished[..|finished|] == finished;
    }
  }

  /**
   The search over all catalog points finishes each known point once, reports real cycles only, and leaves no
   cycle unreported: without the edges that close the reported ones, the known dependencies have none.
   */
  method FindCycles(catalog: Catalog) returns (errors: seq<seq<Id>>, ghost finished: seq<Id>)
    ensures errors != [] <==> HasCycle(KnownEdges(PointMap(catalog.points)))
    ensures forall trail :: trail in errors ==> RealReport(KnownEdges(PointMap(catalog.points)), trail)
    ensures NoDuplicates(finished) && Elements(finished) == PointMap(catalog.points).Keys
    ensures DependenciesFirst(OpenEdges(PointMap(catalog.points), errors), finished)
    ensures !HasCycle(OpenEdges(PointMap(catalog.points), errors))
  {
    var search := new CycleSearch(PointMap(catalog.points));
    ghost var edges := KnownEdges(search.points);
    for n := 0 to |catalog.points|
      invariant search.Valid() && search.visiting == {}
      invariant forall i :: 0 <= i < n ==> catalog.points[i].id in search.visited
    {
      PointMapKeys(catalog.points, n);
      search.Visit(catalog.points[n].id, []);
    }
    errors, finished := search.errors, search.finished;
    forall id | id in search.points
      ensures id in finished
    {
      PointMapKnown(catalog.points, id);
    }
    OrderedIsAcyclic(OpenEdges(search.points, errors), finished);
    if errors == [] {
      assert OpenEdges(search.points, errors) == edges;
    } else {
      assert errors[0] in errors;
      ReportHasCycle(edges, errors[0]);
    }
  }
}
