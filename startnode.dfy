/** The start marker through the search: with a cost function that behaves like a
    distance, the start marker heads the first re-sort, is the first marker
    closed, and keeps G = H = F = 0 and no parent from then on. */
module StartNode {
  import opened Grid
  import opened Markers
  import opened CostOrder
  import opened AStar
  import opened SearchInvariant
  import opened StepProperties

  /** The two laws of `Vector2.Distance` the argument needs: it is never negative,
      and it is positive between distinct cells. */
  ghost predicate DistanceLike(dist: (Loc, Loc) -> real)
  {
    forall a: Loc, b: Loc :: dist(a, b) >= 0.0 && (a != b ==> dist(a, b) > 0.0)
  }

  /** The start marker has zero costs and no parent. Until something is closed it
      is the only marker and the only open one; afterwards it is the first marker
      closed. */
  ghost predicate StartKept(s: State)
  {
    0 < |s.markers| &&
    s.markers[0] == Marker(s.markers[0].loc, 0.0, 0.0, 0.0, None) &&
    (s.closed == [] ==> |s.markers| == 1 && s.open == [0]) &&
    (s.closed != [] ==> s.closed[0] == 0)
  }

  /** The neighbour loop never touches a marker whose cell is closed or is the
      cell of the expanded node: the first is skipped by the closed test, the
      second is no neighbour offset away. */
  lemma ExpandKeepsMarker(maze: Maze, dist: (Loc, Loc) -> real, s: State, node: nat, i: nat)
    requires WellFormed(maze) && Indexed(s) && node < |s.markers| && i < |s.markers|
    requires IsClosed(s.markers, s.closed, s.markers[i].loc) || s.markers[i].loc == s.markers[node].loc
    ensures Expand(maze, dist, s, node, 0).markers[i] == s.markers[i]
  {
    var e := Expand(maze, dist, s, node, 0);
    ExpandTouched(maze, dist, s, node, 0);
    ExpandShape(maze, dist, s, node, 0);
    assert e.markers[i].loc == s.markers[i].loc;
    assert !Touched(maze, dist, s, node, e.markers[i]) by {
      if IsClosed(s.markers, s.closed, s.markers[i].loc) {
        assert !Admissible(maze, s, e.markers[i].loc);
      } else {
        assert Offset(s.markers[node].loc, e.markers[i].loc) == Loc(0, 0);
      }
    }
  }

  /** Every marker the first expansion creates has F > 0: its G is the positive
      distance from the start cell to a neighbour cell, and its H is not negative. */
  lemma FirstExpansionCosts(maze: Maze, dist: (Loc, Loc) -> real, s: State)
    requires WellFormed(maze) && Indexed(s) && DistanceLike(dist) && StartKept(s) && s.closed == []
    ensures var e := Expand(maze, dist, s, 0, 0);
      forall i :: 1 <= i < |e.markers| ==> e.markers[i].f > 0.0
  {
    var e := Expand(maze, dist, s, 0, 0);
    ExpandTouched(maze, dist, s, 0, 0);
    forall i | 1 <= i < |e.markers|
      ensures e.markers[i].f > 0.0
    {
      var m := e.markers[i];
      assert Touched(maze, dist, s, 0, m);
      assert Offset(s.markers[0].loc, m.loc) != Loc(0, 0);
      assert dist(s.markers[0].loc, m.loc) > 0.0 && dist(m.loc, s.goal) >= 0.0;
    }
  }

  /** The first step after `BeginSearch`, when the start is not the goal: the
      start marker (F = 0) heads the re-sort, is closed and becomes the current
      node, and keeps its costs. */
  lemma FirstStepClosesStart(maze: Maze, dist: (Loc, Loc) -> real, s: State)
    requires WellFormed(maze) && Indexed(s) && s.endNode == Some(0)
    requires DistanceLike(dist) && StartKept(s) && s.closed == []
    requires s.markers[0].loc != s.goal
    ensures var r := SearchStep(maze, dist, s, Some(0));
      r.outcome == Closed(0) && r.state.closed == [0] && r.state.markers[0] == s.markers[0]
  {
    var e := Expand(maze, dist, s, 0, 0);
    ExpandKeepsMarker(maze, dist, s, 0, 0);
    ExpandShape(maze, dist, s, 0, 0);
    FirstExpansionCosts(maze, dist, s);
    assert e.open[0] == e.open[..1][0] == 0;
    var sorted := SortByCost(e.markers, e.open);
    SortByCostSorted(e.markers, e.open);
    assert 0 in multiset(sorted) by {
      assert 0 in multiset(e.open);
    }
    assert sorted[0] == 0 by {
      var j :| 0 <= j < |sorted| && sorted[j] == 0;
      assert j == 0 || CostLe(e.markers[sorted[0]], e.markers[sorted[j]]);
    }
  }

  /** Every step keeps the start marker as `BeginSearch` made it and keeps it the
      first marker closed. */
  lemma StepKeepsStart(maze: Maze, dist: (Loc, Loc) -> real, s: State)
    requires SearchInv(maze, s) && DistanceLike(dist) && StartKept(s)
    ensures StartKept(SearchStep(maze, dist, s, s.endNode).state)
  {
    var n := s.endNode.value;
    var r := SearchStep(maze, dist, s, s.endNode);
    if s.markers[n].loc == s.goal {
      assert r.state == s.(done := true);
    } else if s.closed == [] {
      assert s.endNode == Some(0);
      FirstStepClosesStart(maze, dist, s);
    } else {
      assert s.markers[s.closed[0]].loc == s.markers[0].loc;
      ExpandKeepsMarker(maze, dist, s, n, 0);
      if r.outcome == Exhausted {
        ExhaustedLeavesState(maze, dist, s, s.endNode);
      } else {
        StepClosesCheapest(maze, dist, s, n);
        assert r.state.closed[0] == s.closed[0];
      }
    }
  }
}
