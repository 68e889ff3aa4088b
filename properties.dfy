/** What one step of the search does, stated about the functions of `AStar`. */
module StepProperties {
  import opened Grid
  import opened Markers
  import opened CostOrder
  import opened AStar
  import opened SearchInvariant

  /** A marker as the expansion of `node` leaves it after inserting or updating
      it: one neighbour offset away from `node`, on a cell the expansion keeps,
      with the costs and the parent computed from `node`. */
  predicate Touched(maze: Maze, dist: (Loc, Loc) -> real, s: State, node: nat, m: Marker)
    requires WellFormed(maze) && Indexed(s) && node < |s.markers|
  {
    Offset(s.markers[node].loc, m.loc) in maze.directions &&
    Admissible(maze, s, m.loc) &&
    CostsFrom(dist, s.goal, s.markers, node, m)
  }

  lemma VisitTouched(maze: Maze, dist: (Loc, Loc) -> real, s: State, node: nat, dir: Loc)
    requires WellFormed(maze) && Indexed(s) && node < |s.markers| && dir in maze.directions
    ensures var v := Visit(maze, dist, s, node, dir);
      forall i :: 0 <= i < |v.markers| ==>
        (i < |s.markers| && v.markers[i] == s.markers[i]) || Touched(maze, dist, s, node, v.markers[i])
  {
    var nb := Add(dir, s.markers[node].loc);
    assert Offset(s.markers[node].loc, nb) == dir;
  }

  /** Each marker after the neighbour loop is unchanged, or was inserted or
      updated from `node`: then it is a kept neighbour (inside the bounds, not a
      wall, not closed) with G = Dist(node, nb) + node.G, H = Dist(nb, goal),
      F = G + H and parent `node`. */
  lemma {:induction false} ExpandTouched(maze: Maze, dist: (Loc, Loc) -> real, s: State, node: nat, k: nat)
    requires WellFormed(maze) && Indexed(s) && node < |s.markers| && k <= |maze.directions|
    ensures var e := Expand(maze, dist, s, node, k);
      forall i :: 0 <= i < |e.markers| ==>
        (i < |s.markers| && e.markers[i] == s.markers[i]) || Touched(maze, dist, s, node, e.markers[i])
    decreases |maze.directions| - k
  {
    if k < |maze.directions| {
      var v := Visit(maze, dist, s, node, maze.directions[k]);
      var e := Expand(maze, dist, v, node, k + 1);
      VisitTouched(maze, dist, s, node, maze.directions[k]);
      ExpandTouched(maze, dist, v, node, k + 1);
      assert Expand(maze, dist, s, node, k) == e;
      assert v.markers[node] == s.markers[node] && v.goal == s.goal && v.closed == s.closed;
      forall i | 0 <= i < |e.markers| && !(i < |s.markers| && e.markers[i] == s.markers[i])
        ensures Touched(maze, dist, s, node, e.markers[i])
      {
        IsClosedKeepsWith(s.markers, v.markers, s.closed, e.markers[i].loc);
        if !(i < |v.markers| && e.markers[i] == v.markers[i]) {
          assert Touched(maze, dist, v, node, e.markers[i]);
        }
      }
    }
  }

  /** Walls and out-of-bounds cells are neither inserted nor updated. */
  lemma ExpandSkipsBlocked(maze: Maze, dist: (Loc, Loc) -> real, s: State, node: nat)
    requires WellFormed(maze) && Indexed(s) && node < |s.markers|
    ensures var e := Expand(maze, dist, s, node, 0);
      forall i :: 0 <= i < |e.markers| && !Passable(maze, e.markers[i].loc) ==>
        i < |s.markers| && e.markers[i] == s.markers[i]
  {
    ExpandTouched(maze, dist, s, node, 0);
  }

  /** An open marker that carries the costs computed from `node` keeps them
      through the rest of the neighbour loop. */
  lemma {:induction false} ExpandKeepsCosts(maze: Maze, dist: (Loc, Loc) -> real, s: State, node: nat, k: nat, q: nat)
    requires WellFormed(maze) && Indexed(s) && node < |s.markers| && k <= |maze.directions|
    requires q < |s.open| && CostsFrom(dist, s.goal, s.markers, node, s.markers[s.open[q]])
    ensures var e := Expand(maze, dist, s, node, k);
      q < |e.open| && e.open[q] == s.open[q] &&
      e.markers[e.open[q]].loc == s.markers[s.open[q]].loc &&
      CostsFrom(dist, s.goal, s.markers, node, e.markers[e.open[q]])
  {
    var e := Expand(maze, dist, s, node, k);
    ExpandShape(maze, dist, s, node, k);
    assert e.open[q] == e.open[..|s.open|][q];
    ExpandTouched(maze, dist, s, node, k);
  }

  /** Some open marker of `e` has location `nb` and the costs computed from `node`
      in the arena `ms`. */
  predicate OpenWithCosts(dist: (Loc, Loc) -> real, goal: Loc, ms: seq<Marker>, node: nat, e: State, nb: Loc)
    requires node < |ms| && Indexed(e)
  {
    exists q :: 0 <= q < |e.open| &&
      e.markers[e.open[q]].loc == nb && CostsFrom(dist, goal, ms, node, e.markers[e.open[q]])
  }

  /** The neighbour visited first is covered at the end of the loop. */
  lemma CoversFirst(maze: Maze, dist: (Loc, Loc) -> real, s: State, node: nat, k: nat)
    requires WellFormed(maze) && Indexed(s) && node < |s.markers| && k < |maze.directions|
    requires Admissible(maze, s, Add(maze.directions[k], s.markers[node].loc))
    ensures OpenWithCosts(dist, s.goal, s.markers, node, Expand(maze, dist, s, node, k),
                          Add(maze.directions[k], s.markers[node].loc))
  {
    var nb := Add(maze.directions[k], s.markers[node].loc);
    var v := Visit(maze, dist, s, node, maze.directions[k]);
    var fo := FirstOpenWith(s.markers, s.open, nb);
    var q := if fo.Some? then fo.value else |s.open|;
    assert q < |v.open| && v.markers[v.open[q]].loc == nb;
    assert CostsFrom(dist, s.goal, s.markers, node, v.markers[v.open[q]]);
    ExpandKeepsCosts(maze, dist, v, node, k + 1, q);
    var e := Expand(maze, dist, v, node, k + 1);
    assert e.markers[e.open[q]].loc == nb;
  }

  /** Conversely, every kept neighbour of `node` is in the open list after the
      neighbour loop, with the costs computed from `node`. */
  lemma {:induction false} ExpandCovers(maze: Maze, dist: (Loc, Loc) -> real, s: State, node: nat, k: nat)
    requires WellFormed(maze) && Indexed(s) && node < |s.markers| && k <= |maze.directions|
    ensures forall j :: k <= j < |maze.directions| && Admissible(maze, s, Add(maze.directions[j], s.markers[node].loc)) ==>
      OpenWithCosts(dist, s.goal, s.markers, node, Expand(maze, dist, s, node, k),
                    Add(maze.directions[j], s.markers[node].loc))
    decreases |maze.directions| - k
  {
    if k < |maze.directions| {
      var here := s.markers[node];
      var v := Visit(maze, dist, s, node, maze.directions[k]);
      ExpandCovers(maze, dist, v, node, k + 1);
      forall j | k <= j < |maze.directions| && Admissible(maze, s, Add(maze.directions[j], here.loc))
        ensures OpenWithCosts(dist, s.goal, s.markers, node, Expand(maze, dist, s, node, k),
                              Add(maze.directions[j], here.loc))
      {
        if j == k {
          CoversFirst(maze, dist, s, node, k);
        } else {
          IsClosedKeepsWith(s.markers, v.markers, s.closed, Add(maze.directions[j], here.loc));
        }
      }
    }
  }

  /** A neighbour loop that leaves the open list empty changed nothing. */
  lemma {:induction false} ExpandEmptyOpen(maze: Maze, dist: (Loc, Loc) -> real, s: State, node: nat, k: nat)
    requires WellFormed(maze) && Indexed(s) && node < |s.markers| && k <= |maze.directions|
    requires Expand(maze, dist, s, node, k).open == []
    ensures Expand(maze, dist, s, node, k) == s
    decreases |maze.directions| - k
  {
    if k < |maze.directions| {
      var v := Visit(maze, dist, s, node, maze.directions[k]);
      var e := Expand(maze, dist, v, node, k + 1);
      assert v.open == [] by {
        ExpandShape(maze, dist, v, node, k + 1);
        assert |e.open| >= |v.open|;
      }
      assert v == s;
      ExpandEmptyOpen(maze, dist, v, node, k + 1);
    }
  }

  /** A step that finds the open list empty (the case the source does not
      handle) leaves the state as it was. */
  lemma ExhaustedLeavesState(maze: Maze, dist: (Loc, Loc) -> real, s: State, node: Option<nat>)
    requires WellFormed(maze) && Indexed(s) && (node.Some? ==> node.value < |s.markers|)
    requires SearchStep(maze, dist, s, node).outcome == Exhausted
    ensures SearchStep(maze, dist, s, node).state == s
  {
    var n := node.value;
    var e := Expand(maze, dist, s, n, 0);
    assert SortByCost(e.markers, e.open) == [];
    ExpandEmptyOpen(maze, dist, s, n, 0);
  }

  /** A step that closes a marker: the closed list grows by exactly that marker,
      which becomes the current node; it is a cheapest open marker by (F, H);
      what remains open is the rest of the open list (after the neighbour loop),
      sorted, and the sort kept the order of markers with equal keys. */
  lemma StepClosesCheapest(maze: Maze, dist: (Loc, Loc) -> real, s: State, n: nat)
    requires WellFormed(maze) && Indexed(s) && n < |s.markers|
    requires SearchStep(maze, dist, s, Some(n)).outcome.Closed?
    ensures var r := SearchStep(maze, dist, s, Some(n));
      var e := Expand(maze, dist, s, n, 0);
      var hd := r.outcome.index;
      r.state.closed == s.closed + [hd] &&
      r.state.endNode == Some(hd) &&
      r.state.markers == e.markers &&
      multiset([hd] + r.state.open) == multiset(e.open) &&
      Sorted(e.markers, [hd] + r.state.open) &&
      (forall f: real, h: real :: WithCost(e.markers, [hd] + r.state.open, f, h) == WithCost(e.markers, e.open, f, h))
  {
    var e := Expand(maze, dist, s, n, 0);
    var sorted := SortByCost(e.markers, e.open);
    assert sorted == [sorted[0]] + sorted[1..];
    SortByCostSorted(e.markers, e.open);
    forall f: real, h: real
      ensures WithCost(e.markers, sorted, f, h) == WithCost(e.markers, e.open, f, h)
    {
      SortByCostStable(e.markers, e.open, f, h);
    }
  }

  /** The closed list never shrinks: every step keeps it as a prefix and adds at
      most the one marker it closes. */
  lemma ClosedOnlyGrows(maze: Maze, dist: (Loc, Loc) -> real, s: State, node: Option<nat>)
    requires WellFormed(maze) && Indexed(s) && (node.Some? ==> node.value < |s.markers|)
    ensures var r := SearchStep(maze, dist, s, node);
      |s.closed| <= |r.state.closed| &&
      r.state.closed[..|s.closed|] == s.closed &&
      (r.outcome.Closed? <==> |r.state.closed| == |s.closed| + 1) &&
      (!r.outcome.Closed? ==> r.state.closed == s.closed)
  {
    var r := SearchStep(maze, dist, s, node);
    if r.outcome.Closed? {
      StepClosesCheapest(maze, dist, s, node.value);
      assert r.state.closed[..|s.closed|] == s.closed;
    }
  }

  /** Between steps the open list never holds two markers with the same
      location, and no open marker shares its location with a closed one. */
  lemma OpenLocationsDistinct(maze: Maze, s: State)
    requires SearchInv(maze, s)
    ensures forall i, j :: 0 <= i < j < |s.open| ==> s.markers[s.open[i]].loc != s.markers[s.open[j]].loc
    ensures forall i, j :: 0 <= i < |s.open| && 0 <= j < |s.closed| ==> s.markers[s.open[i]].loc != s.markers[s.closed[j]].loc
    ensures forall i, j :: 0 <= i < j < |s.closed| ==> s.markers[s.closed[i]].loc != s.markers[s.closed[j]].loc
  {
    forall i, j | 0 <= i < j < |s.open|
      ensures s.markers[s.open[i]].loc != s.markers[s.open[j]].loc
    {
      DistinctHeld(s, s.open, i, j);
    }
    forall i, j | 0 <= i < j < |s.closed|
      ensures s.markers[s.closed[i]].loc != s.markers[s.closed[j]].loc
    {
      DistinctHeld(s, s.closed, i, j);
    }
    forall i, j | 0 <= i < |s.open| && 0 <= j < |s.closed|
      ensures s.markers[s.open[i]].loc != s.markers[s.closed[j]].loc
    {
      assert s.open[i] in multiset(s.open) && s.closed[j] in multiset(s.closed);
      assert Members(s)[s.open[i]] <= 1;
    }
  }

  lemma DistinctHeld(s: State, l: seq<nat>, i: nat, j: nat)
    requires Indexed(s) && Unique(s) && LocsDistinct(s)
    requires l == s.open || l == s.closed
    requires i < j < |l|
    ensures s.markers[l[i]].loc != s.markers[l[j]].loc
  {
    assert l[i] in multiset(l) && l[j] in multiset(l);
    assert Members(s)[l[i]] >= multiset(l)[l[i]];
    if l[i] == l[j] {
      TwiceCounted(l, i, j);
    }
  }
}
