/** The invariant every search state satisfies between steps, and its
    preservation by `BeginSearch` and by every step. */
module SearchInvariant {
  import opened Grid
  import opened Markers
  import opened CostOrder
  import opened AStar

  /** The indices held by the open and the closed list together. */
  function Members(s: State): multiset<nat>
  {
    multiset(s.open) + multiset(s.closed)
  }

  /** No index is held twice, in one list or across both. */
  ghost predicate Unique(s: State)
  {
    forall x :: Members(s)[x] <= 1
  }

  /** Distinct held markers have distinct locations. */
  ghost predicate LocsDistinct(s: State)
  {
    forall x, y :: x in Members(s) && y in Members(s) && x < |s.markers| && y < |s.markers| && x != y ==>
      s.markers[x].loc != s.markers[y].loc
  }

  /** A marker lies on a passable cell, has F = G + H, and its parent, if any,
      is a marker one neighbour offset away. */
  predicate MarkerOK(maze: Maze, ms: seq<Marker>, i: nat)
    requires WellFormed(maze) && i < |ms|
  {
    Passable(maze, ms[i].loc) &&
    ms[i].f == ms[i].g + ms[i].h &&
    (ms[i].parent.Some? ==>
      ms[i].parent.value < |ms| && Offset(ms[ms[i].parent.value].loc, ms[i].loc) in maze.directions)
  }

  ghost predicate MarkersOK(maze: Maze, ms: seq<Marker>)
    requires WellFormed(maze)
  {
    forall i :: 0 <= i < |ms| ==> MarkerOK(maze, ms, i)
  }

  /** Marker `x` stands on the start cell, or its parent is the start marker or
      one of the markers in `prior`. */
  predicate ParentIn(ms: seq<Marker>, x: nat, prior: seq<nat>)
    requires x < |ms| && 0 < |ms|
  {
    ms[x].loc == ms[0].loc ||
    (ms[x].parent.Some? && (ms[x].parent.value == 0 || ms[x].parent.value in prior))
  }

  /** Open markers hang off the start marker or a closed marker. */
  ghost predicate OpenParentsOK(s: State)
    requires 0 < |s.markers|
  {
    forall x :: x in s.open && x < |s.markers| ==> ParentIn(s.markers, x, s.closed)
  }

  /** Each closed marker hangs off the start marker or a marker closed before it. */
  ghost predicate ClosedParentsOK(s: State)
    requires Indexed(s) && 0 < |s.markers|
  {
    forall k :: 0 <= k < |s.closed| ==> ParentIn(s.markers, s.closed[k], s.closed[..k])
  }

  /** The current node is the start marker until something is closed, and the
      most recently closed marker afterwards. */
  predicate EndNodeOK(s: State)
  {
    s.endNode == if s.closed == [] then Some(0) else Some(s.closed[|s.closed| - 1])
  }

  ghost predicate SearchInv(maze: Maze, s: State)
  {
    WellFormed(maze) && Indexed(s) && 0 < |s.markers| &&
    Unique(s) && LocsDistinct(s) && MarkersOK(maze, s.markers) &&
    OpenParentsOK(s) && ClosedParentsOK(s) && EndNodeOK(s)
  }

  /** `BeginSearch` establishes the invariant. */
  lemma BeginEstablishesInv(maze: Maze, start: Loc, goal: Loc)
    requires WellFormed(maze) && Passable(maze, start)
    ensures SearchInv(maze, Begin(start, goal))
  {
    var s := Begin(start, goal);
    assert MarkerOK(maze, s.markers, 0);
    assert Members(s) == multiset{0};
  }

  /** `IsClosed` looks at locations only, so it is unaffected by changes that keep
      the locations of the closed markers. */
  lemma IsClosedKeepsWith(ms: seq<Marker>, ms': seq<Marker>, closed: seq<nat>, l: Loc)
    requires InArena(ms, closed) && |ms| <= |ms'|
    requires forall i :: 0 <= i < |ms| ==> ms'[i].loc == ms[i].loc
    ensures InArena(ms', closed) && (IsClosed(ms', closed, l) <==> IsClosed(ms, closed, l))
  {
    if IsClosed(ms, closed, l) {
      var k :| 0 <= k < |closed| && ms[closed[k]].loc == l;
      assert ms'[closed[k]].loc == l;
    }
  }

  /** An index held twice in a sequence is counted twice by its multiset. */
  lemma TwiceCounted(s: seq<nat>, i: nat, j: nat)
    requires i < j < |s| && s[i] == s[j]
    ensures multiset(s)[s[i]] >= 2
  {
    assert s == s[..j] + s[j..];
    assert s[i] in s[..j];
    assert s[j] in s[j..];
  }

  /** Overwriting an open marker's costs and parent, keeping its location, keeps
      the held indices unique and their locations distinct. */
  lemma UpdateKeepsDistinct(s: State, i: nat, m: Marker)
    requires Indexed(s) && Unique(s) && LocsDistinct(s)
    requires i < |s.markers| && s.markers[i].loc == m.loc
    ensures Unique(s.(markers := s.markers[i := m])) && LocsDistinct(s.(markers := s.markers[i := m]))
  {
    var s' := s.(markers := s.markers[i := m]);
    assert Members(s') == Members(s);
    assert forall j :: 0 <= j < |s.markers| ==> s'.markers[j].loc == s.markers[j].loc;
  }

  /** Overwriting an open marker so that it hangs off the current node keeps the
      parent structure. */
  lemma UpdateKeepsParents(maze: Maze, s: State, node: nat, i: nat, m: Marker)
    requires WellFormed(maze) && Indexed(s) && 0 < |s.markers| && node < |s.markers|
    requires Unique(s) && MarkersOK(maze, s.markers) && OpenParentsOK(s) && ClosedParentsOK(s) && EndNodeOK(s)
    requires s.endNode == Some(node)
    requires i in s.open && i < |s.markers| && s.markers[i].loc == m.loc && i != node
    requires m.f == m.g + m.h && m.parent == Some(node)
    requires Offset(s.markers[node].loc, m.loc) in maze.directions
    ensures MarkersOK(maze, s.markers[i := m])
    ensures OpenParentsOK(s.(markers := s.markers[i := m]))
    ensures ClosedParentsOK(s.(markers := s.markers[i := m]))
  {
    var s' := s.(markers := s.markers[i := m]);
    assert MarkerOK(maze, s.markers, i);
    forall j | 0 <= j < |s'.markers|
      ensures MarkerOK(maze, s'.markers, j)
    {
      assert MarkerOK(maze, s.markers, j);
    }
    forall c | 0 <= c < |s.closed|
      ensures s.closed[c] != i
    {
      assert s.closed[c] in multiset(s.closed);
      assert i in multiset(s.open);
      assert Members(s)[s.closed[c]] <= 1;
    }
    forall c | 0 <= c < |s'.closed|
      ensures ParentIn(s'.markers, s'.closed[c], s'.closed[..c])
    {
      assert ParentIn(s.markers, s.closed[c], s.closed[..c]);
    }
    forall x | x in s'.open && x < |s'.markers|
      ensures ParentIn(s'.markers, x, s'.closed)
    {
      if x != i {
        assert ParentIn(s.markers, x, s.closed);
      } else if node != 0 {
        assert s.closed != [] && node == s.closed[|s.closed| - 1];
      }
    }
  }

  /** Appending a marker whose location no held marker has keeps the held
      indices unique and their locations distinct. */
  lemma AppendKeepsDistinct(s: State, m: Marker)
    requires Indexed(s) && Unique(s) && LocsDistinct(s)
    requires forall j :: 0 <= j < |s.open| ==> s.markers[s.open[j]].loc != m.loc
    requires !IsClosed(s.markers, s.closed, m.loc)
    ensures Unique(s.(markers := s.markers + [m], open := s.open + [|s.markers|]))
    ensures LocsDistinct(s.(markers := s.markers + [m], open := s.open + [|s.markers|]))
  {
    var n := |s.markers|;
    var s' := s.(markers := s.markers + [m], open := s.open + [n]);
    assert Members(s') == Members(s) + multiset{n};
    assert n !in Members(s);
    forall x, y | x in Members(s') && y in Members(s') && x < |s'.markers| && y < |s'.markers| && x != y
      ensures s'.markers[x].loc != s'.markers[y].loc
    {
      if x == n || y == n {
        var o := if x == n then y else x;
        assert o in Members(s) && o < n;
        assert s'.markers[n] == m && s'.markers[o] == s.markers[o];
        if o in s.open {
          var j :| 0 <= j < |s.open| && s.open[j] == o;
          assert s.markers[s.open[j]].loc != m.loc;
        } else {
          assert o in s.closed;
          var j :| 0 <= j < |s.closed| && s.closed[j] == o;
          assert s.markers[s.closed[j]].loc != m.loc;
        }
      } else {
        assert x in Members(s) && y in Members(s);
      }
    }
  }

  /** Appending a marker hanging off the current node keeps the parent structure. */
  lemma AppendKeepsParents(maze: Maze, s: State, node: nat, m: Marker)
    requires WellFormed(maze) && Indexed(s) && 0 < |s.markers| && node < |s.markers|
    requires MarkersOK(maze, s.markers) && OpenParentsOK(s) && ClosedParentsOK(s) && EndNodeOK(s)
    requires s.endNode == Some(node)
    requires Passable(maze, m.loc) && m.f == m.g + m.h && m.parent == Some(node)
    requires Offset(s.markers[node].loc, m.loc) in maze.directions
    ensures MarkersOK(maze, s.markers + [m])
    ensures OpenParentsOK(s.(markers := s.markers + [m], open := s.open + [|s.markers|]))
    ensures ClosedParentsOK(s.(markers := s.markers + [m], open := s.open + [|s.markers|]))
  {
    var n := |s.markers|;
    var s' := s.(markers := s.markers + [m], open := s.open + [n]);
    forall j | 0 <= j < |s'.markers|
      ensures MarkerOK(maze, s'.markers, j)
    {
      if j < n {
        assert MarkerOK(maze, s.markers, j);
      }
    }
    forall c | 0 <= c < |s'.closed|
      ensures ParentIn(s'.markers, s'.closed[c], s'.closed[..c])
    {
      assert ParentIn(s.markers, s.closed[c], s.closed[..c]);
    }
    forall x | x in s'.open && x < |s'.markers|
      ensures ParentIn(s'.markers, x, s'.closed)
    {
      if x != n {
        assert x in s.open;
        assert ParentIn(s.markers, x, s.closed);
      } else if node != 0 {
        assert s.closed != [] && node == s.closed[|s.closed| - 1];
      }
    }
  }

  lemma VisitUpdatePreserves(maze: Maze, s: State, node: nat, i: nat, m: Marker)
    requires SearchInv(maze, s) && s.endNode == Some(node)
    requires i in s.open && i < |s.markers| && s.markers[i].loc == m.loc && i != node
    requires m.f == m.g + m.h && m.parent == Some(node)
    requires Offset(s.markers[node].loc, m.loc) in maze.directions
    ensures SearchInv(maze, s.(markers := s.markers[i := m]))
  {
    UpdateKeepsDistinct(s, i, m);
    UpdateKeepsParents(maze, s, node, i, m);
  }

  lemma VisitAppendPreserves(maze: Maze, s: State, node: nat, m: Marker)
    requires SearchInv(maze, s) && s.endNode == Some(node)
    requires forall j :: 0 <= j < |s.open| ==> s.markers[s.open[j]].loc != m.loc
    requires !IsClosed(s.markers, s.closed, m.loc)
    requires Passable(maze, m.loc) && m.f == m.g + m.h && m.parent == Some(node)
    requires Offset(s.markers[node].loc, m.loc) in maze.directions
    ensures SearchInv(maze, s.(markers := s.markers + [m], open := s.open + [|s.markers|]))
  {
    AppendKeepsDistinct(s, m);
    AppendKeepsParents(maze, s, node, m);
  }

  lemma VisitPreserves(maze: Maze, dist: (Loc, Loc) -> real, s: State, node: nat, dir: Loc)
    requires SearchInv(maze, s) && s.endNode == Some(node) && dir in maze.directions
    ensures SearchInv(maze, Visit(maze, dist, s, node, dir))
  {
    var nb := Add(dir, s.markers[node].loc);
    if !Admissible(maze, s, nb) {
      VisitSkips(maze, dist, s, node, dir);
    } else if FirstOpenWith(s.markers, s.open, nb).Some? {
      VisitOpenPreserves(maze, dist, s, node, dir);
    } else {
      var g := dist(s.markers[node].loc, nb) + s.markers[node].g;
      var h := dist(nb, s.goal);
      var m := Marker(nb, g, h, g + h, Some(node));
      assert Offset(s.markers[node].loc, nb) == dir;
      VisitAppendPreserves(maze, s, node, m);
      VisitAppends(maze, dist, s, node, dir, m);
    }
  }

  /** The open marker that the update-in-place branch of `Visit` overwrites is
      not the node being expanded, and lies one offset `dir` away from it. */
  lemma UpdateTarget(maze: Maze, s: State, node: nat, dir: Loc)
    requires WellFormed(maze) && Indexed(s) && node < |s.markers| && dir in maze.directions
    requires FirstOpenWith(s.markers, s.open, Add(dir, s.markers[node].loc)).Some?
    ensures var nb := Add(dir, s.markers[node].loc);
      var i := s.open[FirstOpenWith(s.markers, s.open, nb).value];
      i in s.open && i < |s.markers| && i != node && s.markers[i].loc == nb &&
      Offset(s.markers[node].loc, nb) == dir
  {
    assert dir != Loc(0, 0);
  }

  lemma VisitOpenPreserves(maze: Maze, dist: (Loc, Loc) -> real, s: State, node: nat, dir: Loc)
    requires SearchInv(maze, s) && s.endNode == Some(node) && dir in maze.directions
    requires Admissible(maze, s, Add(dir, s.markers[node].loc))
    requires FirstOpenWith(s.markers, s.open, Add(dir, s.markers[node].loc)).Some?
    ensures SearchInv(maze, Visit(maze, dist, s, node, dir))
  {
    var here := s.markers[node];
    var nb := Add(dir, here.loc);
    var g := dist(here.loc, nb) + here.g;
    var h := dist(nb, s.goal);
    var i := s.open[FirstOpenWith(s.markers, s.open, nb).value];
    var m := s.markers[i].(g := g, h := h, f := g + h, parent := Some(node));
    var s' := s.(markers := s.markers[i := m]);
    UpdateTarget(maze, s, node, dir);
    VisitUpdatePreserves(maze, s, node, i, m);
    assert SearchInv(maze, s');
    VisitUpdates(maze, dist, s, node, dir, i, m);
  }

  lemma {:induction false} ExpandPreserves(maze: Maze, dist: (Loc, Loc) -> real, s: State, node: nat, k: nat)
    requires SearchInv(maze, s) && s.endNode == Some(node) && k <= |maze.directions|
    ensures SearchInv(maze, Expand(maze, dist, s, node, k))
    decreases |maze.directions| - k
  {
    if k < |maze.directions| {
      VisitPreserves(maze, dist, s, node, maze.directions[k]);
      ExpandPreserves(maze, dist, Visit(maze, dist, s, node, maze.directions[k]), node, k + 1);
    }
  }

  /** Moving the head of the re-sorted open list to the closed list keeps every
      open and every closed marker hung off the start or an earlier closed marker. */
  lemma CloseHeadParents(e: State, sorted: seq<nat>, s': State)
    requires Indexed(e) && 0 < |e.markers| && OpenParentsOK(e) && ClosedParentsOK(e)
    requires multiset(sorted) == multiset(e.open) && sorted != [] && InArena(e.markers, sorted)
    requires s' == e.(open := sorted[1..], closed := e.closed + [sorted[0]], endNode := Some(sorted[0]))
    ensures Indexed(s') && OpenParentsOK(s') && ClosedParentsOK(s')
  {
    var hd := sorted[0];
    assert sorted == [hd] + sorted[1..];
    assert hd in e.open by {
      assert hd in multiset(sorted);
    }
    forall x | x in s'.open && x < |s'.markers|
      ensures ParentIn(s'.markers, x, s'.closed)
    {
      assert x in multiset(sorted);
      assert x in e.open;
      assert ParentIn(e.markers, x, e.closed);
    }
    forall c | 0 <= c < |s'.closed|
      ensures ParentIn(s'.markers, s'.closed[c], s'.closed[..c])
    {
      if c < |e.closed| {
        assert s'.closed[..c] == e.closed[..c];
        assert ParentIn(e.markers, e.closed[c], e.closed[..c]);
      } else {
        assert s'.closed[..c] == e.closed;
        assert ParentIn(e.markers, hd, e.closed);
      }
    }
  }

  /** Moving the head of the re-sorted open list to the closed list keeps the invariant. */
  lemma CloseHeadPreserves(maze: Maze, e: State, sorted: seq<nat>)
    requires SearchInv(maze, e) && InArena(e.markers, sorted)
    requires multiset(sorted) == multiset(e.open) && sorted != []
    ensures SearchInv(maze, e.(open := sorted[1..], closed := e.closed + [sorted[0]], endNode := Some(sorted[0])))
  {
    var hd := sorted[0];
    var s' := e.(open := sorted[1..], closed := e.closed + [hd], endNode := Some(hd));
    assert sorted == [hd] + sorted[1..];
    assert Members(s') == Members(e);
    CloseHeadParents(e, sorted, s');
    assert EndNodeOK(s');
  }

  /** Every step keeps the invariant. */
  lemma StepPreservesInv(maze: Maze, dist: (Loc, Loc) -> real, s: State)
    requires SearchInv(maze, s)
    ensures SearchInv(maze, SearchStep(maze, dist, s, s.endNode).state)
  {
    match s.endNode
    case None =>
    case Some(n) =>
      if !Equals(s.markers[n], OfMarker(GoalMarker(s.goal))) {
        ExpandPreserves(maze, dist, s, n, 0);
        var e := Expand(maze, dist, s, n, 0);
        var sorted := SortByCost(e.markers, e.open);
        if sorted == [] {
          assert e.open == [];
        } else {
          CloseHeadPreserves(maze, e, sorted);
        }
      }
  }
}
