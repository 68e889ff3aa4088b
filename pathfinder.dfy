/** `PathFinder`: the step-driven search as an object whose methods update its
    lists in place, each proved against the functions of `AStar`. */
module Finder {
  import opened Grid
  import opened Markers
  import opened CostOrder
  import opened AStar
  import opened SearchInvariant
  import opened Paths
  import opened StartNode

  class PathFinder {
    const maze: Maze
    /** Stands for `Vector2.Distance` between cell coordinates. */
    const dist: (Loc, Loc) -> real

    /** Every marker created since the last `BeginSearch`; the start marker is
        `markers[0]`. `openMarker` and `closedMarker` are `open` and `closed`. */
    var markers: seq<Marker>
    var open: seq<nat>
    var closed: seq<nat>
    var endNode: Option<nat>
    var done: bool
    var goal: Loc

    function Abs(): State
      reads this
    {
      State(markers, open, closed, endNode, done, goal)
    }

    ghost predicate Valid()
      reads this
    {
      WellFormed(maze) && DistanceLike(dist) &&
      (endNode.None? ==> markers == [] && open == [] && closed == []) &&
      (endNode.Some? ==> SearchInv(maze, Abs()) && StartKept(Abs()))
    }

    constructor (maze: Maze, dist: (Loc, Loc) -> real)
      requires WellFormed(maze) && DistanceLike(dist)
      ensures Valid() && this.maze == maze && this.dist == dist
      ensures markers == [] && open == [] && closed == [] && endNode == None && !done
    {
      this.maze := maze;
      this.dist := dist;
      markers, open, closed := [], [], [];
      endNode := None;
      done := false;
      goal := Loc(0, 0);
    }

    /** `BeginSearch`, with the start and goal cells given. */
    method BeginSearch(start: Loc, goal: Loc)
      requires Valid() && Passable(maze, start) && Passable(maze, goal)
      modifies this
      ensures Valid()
      ensures markers == [Marker(start, 0.0, 0.0, 0.0, None)] && this.goal == goal
      ensures open == [0] && closed == [] && endNode == Some(0) && !done
    {
      done := false;
      markers := [Marker(start, 0.0, 0.0, 0.0, None)];
      this.goal := goal;
      open := [];
      closed := [];
      open := open + [0];
      endNode := Some(0);
      assert Abs() == Begin(start, goal);
      BeginEstablishesInv(maze, start, goal);
    }

    /** `IsClose`, as intended: whether some closed marker has location `l`. */
    method IsClose(l: Loc) returns (r: bool)
      requires InArena(markers, closed)
      ensures r <==> IsClosed(markers, closed, l)
    {
      for k := 0 to |closed|
        invariant forall j :: 0 <= j < k ==> markers[closed[j]].loc != l
      {
        if markers[closed[k]].loc == l {
          return true;
        }
      }
      return false;
    }

    /** `UpdateMarker`: overwrites G, H, F and parent of the first open marker at
        `position`, without comparing costs, and reports whether there was one. */
    method UpdateMarker(position: Loc, g: real, h: real, f: real, parent: nat) returns (found: bool)
      requires InArena(markers, open)
      modifies this`markers
      ensures found <==> exists j :: 0 <= j < |open| && old(markers)[open[j]].loc == position
      ensures found <==> FirstOpenWith(old(markers), open, position).Some?
      ensures found ==>
        var k := FirstOpenWith(old(markers), open, position).value;
        markers == old(markers)[open[k] := old(markers)[open[k]].(g := g, h := h, f := f, parent := Some(parent))]
      ensures !found ==> markers == old(markers)
    {
      var k := 0;
      while k < |open|
        invariant k <= |open| && markers == old(markers)
        invariant forall j :: 0 <= j < k ==> markers[open[j]].loc != position
      {
        if markers[open[k]].loc == position {
          assert FirstOpenWith(old(markers), open, position) == Some(k);
          var i := open[k];
          markers := markers[i := markers[i].(g := g, h := h, f := f, parent := Some(parent))];
          found := true;
          assert old(markers)[open[k]].loc == position;
          return;
        }
        k := k + 1;
      }
      assert FirstOpenWith(old(markers), open, position).None?;
      found := false;
    }

    /** One iteration of the neighbour loop of `Search(node)`, for offset `dir`:
        the bounds test, the wall test, the closed test, the costs, and the
        update in place or the append. */
    method VisitNeighbour(n: nat, dir: Loc)
      requires Indexed(Abs()) && n < |markers| && WellFormed(maze) && dir in maze.directions
      modifies this`markers, this`open
      ensures Abs() == Visit(maze, dist, old(Abs()), n, dir)
    {
      ghost var s0 := Abs();
      var nb := Add(dir, markers[n].loc);
      if InBounds(maze, nb) && !IsWall(maze, nb) {
        var isClosed := IsClose(nb);
        if !isClosed {
          assert Admissible(maze, s0, nb);
          var g := dist(markers[n].loc, nb) + markers[n].g;
          var h := dist(nb, goal);
          var f := g + h;
          var found := UpdateMarker(nb, g, h, f, n);
          if !found {
            var m := Marker(nb, g, h, f, Some(n));
            VisitAppends(maze, dist, s0, n, dir, m);
            markers := markers + [m];
            open := open + [|markers| - 1];
          } else {
            ghost var i := s0.open[FirstOpenWith(s0.markers, s0.open, nb).value];
            VisitUpdates(maze, dist, s0, n, dir, i, s0.markers[i].(g := g, h := h, f := f, parent := Some(n)));
          }
        } else {
          VisitSkips(maze, dist, s0, n, dir);
        }
      } else {
        VisitSkips(maze, dist, s0, n, dir);
      }
    }

    /** The neighbour loop of `Search(node)`, over the direction offsets in order. */
    method ExpandNeighbours(n: nat)
      requires Indexed(Abs()) && n < |markers| && WellFormed(maze)
      modifies this`markers, this`open
      ensures Abs() == Expand(maze, dist, old(Abs()), n, 0)
    {
      ghost var s0 := Abs();
      var k := 0;
      while k < |maze.directions|
        invariant k <= |maze.directions|
        invariant Indexed(Abs()) && n < |markers|
        invariant Expand(maze, dist, Abs(), n, k) == Expand(maze, dist, s0, n, 0)
      {
        ghost var before := Abs();
        VisitNeighbour(n, maze.directions[k]);
        ghost var after := Abs();
        assert after == Visit(maze, dist, before, n, maze.directions[k]);
        assert Expand(maze, dist, before, n, k) == Expand(maze, dist, after, n, k + 1);
        k := k + 1;
      }
      assert Expand(maze, dist, Abs(), n, |maze.directions|) == Abs();
    }

    /** The part of `Search(node)` after the goal test: the neighbour loop, the
        stable re-sort and the move of the head of the open list to the closed list. */
    method ExpandAndClose(n: nat) returns (outcome: Outcome)
      requires Indexed(Abs()) && n < |markers| && WellFormed(maze)
      requires markers[n].loc != goal
      modifies this`markers, this`open, this`closed, this`endNode
      ensures Stepped(Abs(), outcome) == SearchStep(maze, dist, old(Abs()), Some(n))
    {
      ghost var s0 := Abs();
      assert !Equals(s0.markers[n], OfMarker(GoalMarker(s0.goal)));
      ExpandNeighbours(n);
      ghost var e := Abs();
      open := SortByCost(markers, open);
      ghost var sorted := SortByCost(e.markers, e.open);
      assert open == sorted;
      if open == [] {
        assert SearchStep(maze, dist, s0, Some(n)) == Stepped(e.(open := sorted), Exhausted);
        return Exhausted;
      }
      assert SearchStep(maze, dist, s0, Some(n)) ==
        Stepped(e.(open := sorted[1..], closed := e.closed + [sorted[0]], endNode := Some(sorted[0])), Closed(sorted[0]));
      var pm := open[0];
      closed := closed + [pm];
      open := open[1..];
      endNode := Some(pm);
      return Closed(pm);
    }

    /** `Search(node)`; its only caller passes the current node. */
    method Search(node: Option<nat>) returns (outcome: Outcome)
      requires Valid() && node == endNode
      modifies this
      ensures Valid()
      ensures Stepped(Abs(), outcome) == SearchStep(maze, dist, old(Abs()), node)
    {
      if node.None? {
        return NoNode;
      }
      ghost var s0 := Abs();
      StepPreservesInv(maze, dist, s0);
      StepKeepsStart(maze, dist, s0);
      var n := node.value;
      if Equals(markers[n], OfMarker(GoalMarker(goal))) {
        done := true;
        return GoalReached;
      }
      outcome := ExpandAndClose(n);
    }

    /** The step key of `Update`: a step runs only while the goal has not been
        reached. */
    method Step() returns (r: Option<Outcome>)
      requires Valid()
      modifies this
      ensures Valid()
      ensures old(done) ==> r == None && Abs() == old(Abs())
      ensures !old(done) ==> r.Some? && Stepped(Abs(), r.value) == SearchStep(maze, dist, old(Abs()), old(endNode))
    {
      if !done {
        var outcome := Search(endNode);
        r := Some(outcome);
      } else {
        r := None;
      }
    }

    /** `GetPath`: the locations from the current node back along the parent
        links, ending with the start location; `None` before any `BeginSearch`
        (the source dereferences a null start node there). */
    method GetPath() returns (path: Option<seq<Loc>>)
      requires Valid()
      ensures endNode.None? <==> path.None?
      ensures path.Some? ==>
        |path.value| >= 1 && path.value[|path.value| - 1] == markers[0].loc &&
        Walk(markers, markers[0].loc, endNode, path.value[..|path.value| - 1])
      ensures path.Some? ==> forall k :: 0 <= k < |path.value| ==> Passable(maze, path.value[k])
      ensures path.Some? ==> forall k :: 0 <= k < |path.value| - 1 ==>
        Offset(path.value[k + 1], path.value[k]) in maze.directions
    {
      if endNode.None? {
        return None;
      }
      var startNode := markers[0];
      var begin := endNode;
      var acc: seq<Loc> := [];
      ghost var s := Abs();
      assert SearchInv(maze, s);
      ghost var pos: int := |closed| - 1;
      while !Equals(startNode, if begin.Some? then OfMarker(markers[begin.value]) else Null) && begin.Some?
        invariant begin.Some? ==> begin.value < |markers|
        invariant Chain(markers, startNode.loc, endNode, acc, begin)
        invariant -1 <= pos < |closed|
        invariant begin.Some? && markers[begin.value].loc != startNode.loc ==> 0 <= pos && closed[pos] == begin.value
        decreases pos + 1
      {
        var b := begin.value;
        WalkAdvance(maze, s, acc, pos);
        acc := acc + [markers[b].loc];
        ghost var prev := pos;
        begin := markers[b].parent;
        if markers[begin.value].loc == startNode.loc {
          pos := -1;
        } else {
          pos :| 0 <= pos < prev && closed[pos] == begin.value;
        }
      }
      ChainThenStop(markers, startNode.loc, endNode, acc, begin);
      path := Some(acc + [startNode.loc]);
      assert path.value[..|path.value| - 1] == acc;
      assert endNode.value == 0 || endNode.value in closed;
      PathSteps(maze, s, endNode.value, acc);
    }
  }
}
