/** The search as functions on a value of its state: one call of `Search` is
    `SearchStep`, built from visiting each neighbour (`Visit`, `Expand`), the
    stable re-sort and the move of the head of the open list to the closed list.
    The imperative `PathFinder` class is proved against these definitions. */
module AStar {
  import opened Grid
  import opened Markers
  import opened CostOrder

  /** The search state. Markers live in an arena; `open` and `closed` hold arena
      indices; the start marker is `markers[0]`; `endNode` is the index of the
      current node (`None` before the first `BeginSearch`). */
  datatype State = State(
    markers: seq<Marker>,
    open: seq<nat>,
    closed: seq<nat>,
    endNode: Option<nat>,
    done: bool,
    goal: Loc)

  /** What a step did. `Exhausted` is the case the source does not handle: the
      open list is empty when its head is taken. */
  datatype Outcome = NoNode | GoalReached | Closed(index: nat) | Exhausted

  datatype Stepped = Stepped(state: State, outcome: Outcome)

  predicate Indexed(s: State)
  {
    InArena(s.markers, s.open) && InArena(s.markers, s.closed) &&
    (s.endNode.Some? ==> s.endNode.value < |s.markers|)
  }

  /** The goal marker of `BeginSearch`: the goal location with zero costs. */
  function GoalMarker(goal: Loc): Marker
  {
    Marker(goal, 0.0, 0.0, 0.0, None)
  }

  /** The state `BeginSearch` leaves: only the start marker, with zero costs and
      no parent, in the open list; nothing closed; the start is the current node. */
  function Begin(start: Loc, goal: Loc): State
  {
    State([Marker(start, 0.0, 0.0, 0.0, None)], [0], [], Some(0), false, goal)
  }

  /** `IsClose` as intended: some closed marker has location `l`. */
  predicate IsClosed(ms: seq<Marker>, closed: seq<nat>, l: Loc)
    requires InArena(ms, closed)
  {
    exists k :: 0 <= k < |closed| && ms[closed[k]].loc == l
  }

  /** The position in `open` of the first marker with location `l`: the one
      `UpdateMarker` overwrites. */
  function FirstOpenWith(ms: seq<Marker>, open: seq<nat>, l: Loc): (r: Option<nat>)
    requires InArena(ms, open)
    ensures r.Some? ==> r.value < |open| && ms[open[r.value]].loc == l
    ensures r.Some? ==> forall j :: 0 <= j < r.value ==> ms[open[j]].loc != l
    ensures r.None? ==> forall j :: 0 <= j < |open| ==> ms[open[j]].loc != l
  {
    if open == [] then None
    else if ms[open[0]].loc == l then Some(0)
    else
      match FirstOpenWith(ms, open[1..], l)
      case None => None
      case Some(k) => assert open[k + 1] == open[1..][k]; Some(k + 1)
  }

  /** The costs a neighbour receives from the expanded marker `node`:
      G = Dist(node, nb) + node.G, H = Dist(nb, goal), F = G + H, parent = node. */
  predicate CostsFrom(dist: (Loc, Loc) -> real, goal: Loc, ms: seq<Marker>, node: nat, m: Marker)
    requires node < |ms|
  {
    m.g == dist(ms[node].loc, m.loc) + ms[node].g &&
    m.h == dist(m.loc, goal) &&
    m.f == m.g + m.h &&
    m.parent == Some(node)
  }

  /** A neighbour cell the expansion keeps: inside the bounds, not a wall, not closed. */
  predicate Admissible(maze: Maze, s: State, l: Loc)
    requires WellFormed(maze) && Indexed(s)
  {
    InBounds(maze, l) && !IsWall(maze, l) && !IsClosed(s.markers, s.closed, l)
  }

  /** One iteration of the neighbour loop of `Search`, for offset `dir`. */
  function Visit(maze: Maze, dist: (Loc, Loc) -> real, s: State, node: nat, dir: Loc): (r: State)
    requires WellFormed(maze) && Indexed(s) && node < |s.markers| && dir in maze.directions
    ensures Indexed(r)
    ensures r.closed == s.closed && r.endNode == s.endNode && r.done == s.done && r.goal == s.goal
    ensures |s.markers| <= |r.markers| <= |s.markers| + 1
    ensures r.markers[node] == s.markers[node]
    ensures forall i :: 0 <= i < |s.markers| ==> r.markers[i].loc == s.markers[i].loc
    ensures r.open == s.open + (if |r.markers| == |s.markers| then [] else [|s.markers|])
  {
    var here := s.markers[node];
    var nb := Add(dir, here.loc);
    if !InBounds(maze, nb) || IsWall(maze, nb) || IsClosed(s.markers, s.closed, nb) then s
    else
      var g := dist(here.loc, nb) + here.g;
      var h := dist(nb, s.goal);
      var f := g + h;
      match FirstOpenWith(s.markers, s.open, nb)
      case Some(k) =>
        var i := s.open[k];
        s.(markers := s.markers[i := s.markers[i].(g := g, h := h, f := f, parent := Some(node))])
      case None =>
        s.(markers := s.markers + [Marker(nb, g, h, f, Some(node))], open := s.open + [|s.markers|])
  }

  /** The branch of `Visit` that skips the neighbour, spelled out. */
  lemma VisitSkips(maze: Maze, dist: (Loc, Loc) -> real, s: State, node: nat, dir: Loc)
    requires WellFormed(maze) && Indexed(s) && node < |s.markers| && dir in maze.directions
    requires !Admissible(maze, s, Add(dir, s.markers[node].loc))
    ensures Visit(maze, dist, s, node, dir) == s
  {
  }

  /** The update-in-place branch of `Visit`, spelled out. */
  lemma VisitUpdates(maze: Maze, dist: (Loc, Loc) -> real, s: State, node: nat, dir: Loc, i: nat, m: Marker)
    requires WellFormed(maze) && Indexed(s) && node < |s.markers| && dir in maze.directions
    requires Admissible(maze, s, Add(dir, s.markers[node].loc))
    requires FirstOpenWith(s.markers, s.open, Add(dir, s.markers[node].loc)).Some?
    requires i == s.open[FirstOpenWith(s.markers, s.open, Add(dir, s.markers[node].loc)).value]
    requires m == s.markers[i].(g := dist(s.markers[node].loc, Add(dir, s.markers[node].loc)) + s.markers[node].g,
                                h := dist(Add(dir, s.markers[node].loc), s.goal),
                                f := dist(s.markers[node].loc, Add(dir, s.markers[node].loc)) + s.markers[node].g
                                     + dist(Add(dir, s.markers[node].loc), s.goal),
                                parent := Some(node))
    ensures Visit(maze, dist, s, node, dir) == s.(markers := s.markers[i := m])
  {
  }

  /** The append branch of `Visit`, spelled out. */
  lemma VisitAppends(maze: Maze, dist: (Loc, Loc) -> real, s: State, node: nat, dir: Loc, m: Marker)
    requires WellFormed(maze) && Indexed(s) && node < |s.markers| && dir in maze.directions
    requires Admissible(maze, s, Add(dir, s.markers[node].loc))
    requires FirstOpenWith(s.markers, s.open, Add(dir, s.markers[node].loc)).None?
    requires m == Marker(Add(dir, s.markers[node].loc),
                         dist(s.markers[node].loc, Add(dir, s.markers[node].loc)) + s.markers[node].g,
                         dist(Add(dir, s.markers[node].loc), s.goal),
                         dist(s.markers[node].loc, Add(dir, s.markers[node].loc)) + s.markers[node].g
                         + dist(Add(dir, s.markers[node].loc), s.goal),
                         Some(node))
    ensures Visit(maze, dist, s, node, dir) == s.(markers := s.markers + [m], open := s.open + [|s.markers|])
  {
  }

  /** The neighbour loop of `Search` from offset number `k` on. */
  function Expand(maze: Maze, dist: (Loc, Loc) -> real, s: State, node: nat, k: nat): (r: State)
    requires WellFormed(maze) && Indexed(s) && node < |s.markers| && k <= |maze.directions|
    ensures Indexed(r)
    ensures r.closed == s.closed && r.endNode == s.endNode && r.done == s.done && r.goal == s.goal
    ensures |s.markers| <= |r.markers|
    decreases |maze.directions| - k
  {
    if k == |maze.directions| then s
    else Expand(maze, dist, Visit(maze, dist, s, node, maze.directions[k]), node, k + 1)
  }

  /** The neighbour loop keeps the expanded marker and every location, and
      extends the open list by exactly the markers it creates, in creation order. */
  lemma {:induction false} ExpandShape(maze: Maze, dist: (Loc, Loc) -> real, s: State, node: nat, k: nat)
    requires WellFormed(maze) && Indexed(s) && node < |s.markers| && k <= |maze.directions|
    ensures var r := Expand(maze, dist, s, node, k);
      r.markers[node] == s.markers[node] &&
      (forall i :: 0 <= i < |s.markers| ==> r.markers[i].loc == s.markers[i].loc) &&
      |r.open| - |s.open| == |r.markers| - |s.markers| &&
      r.open[..|s.open|] == s.open &&
      (forall j :: |s.open| <= j < |r.open| ==> r.open[j] == |s.markers| + (j - |s.open|))
    decreases |maze.directions| - k
  {
    if k < |maze.directions| {
      var v := Visit(maze, dist, s, node, maze.directions[k]);
      var r := Expand(maze, dist, v, node, k + 1);
      assert Expand(maze, dist, s, node, k) == r;
      ExpandShape(maze, dist, v, node, k + 1);
      assert r.open[..|s.open|] == r.open[..|v.open|][..|s.open|];
      forall j | |s.open| <= j < |r.open|
        ensures r.open[j] == |s.markers| + (j - |s.open|)
      {
        if j < |v.open| {
          assert r.open[j] == r.open[..|v.open|][j] == v.open[j];
        }
      }
    }
  }

  /** `Search(node)`: the goal test on `node`, then the expansion of `node`, the
      stable re-sort of the open list by (F, H), and the move of its head to the
      closed list, where it becomes the current node. */
  function SearchStep(maze: Maze, dist: (Loc, Loc) -> real, s: State, node: Option<nat>): (r: Stepped)
    requires WellFormed(maze) && Indexed(s) && (node.Some? ==> node.value < |s.markers|)
    ensures Indexed(r.state)
    ensures node.None? ==> r == Stepped(s, NoNode)
    ensures r.outcome == GoalReached <==> node.Some? && s.markers[node.value].loc == s.goal
    ensures r.outcome == GoalReached ==> r.state == s.(done := true)
    ensures r.outcome != GoalReached ==> r.state.done == s.done && r.state.goal == s.goal
  {
    match node
    case None => Stepped(s, NoNode)
    case Some(n) =>
      if Equals(s.markers[n], OfMarker(GoalMarker(s.goal))) then Stepped(s.(done := true), GoalReached)
      else
        var e := Expand(maze, dist, s, n, 0);
        var sorted := SortByCost(e.markers, e.open);
        if sorted == [] then Stepped(e.(open := sorted), Exhausted)
        else
          Stepped(e.(open := sorted[1..], closed := e.closed + [sorted[0]], endNode := Some(sorted[0])),
                  Closed(sorted[0]))
  }
}
