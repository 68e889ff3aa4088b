/** `GetPath`: the walk along parent links from the current node back to the
    start marker. */
module Paths {
  import opened Grid
  import opened Markers
  import opened AStar
  import opened SearchInvariant

  /** `w` is what the walk emits from `b` until it stops: it stops at a null
      parent or at the first marker whose location is that of the start marker
      (`startLoc`), and emits the location of every marker before that. */
  predicate Walk(ms: seq<Marker>, startLoc: Loc, b: Option<nat>, w: seq<Loc>)
    decreases |w|
  {
    match b
    case None => w == []
    case Some(i) =>
      i < |ms| &&
      if ms[i].loc == startLoc then w == []
      else w != [] && w[0] == ms[i].loc && Walk(ms, startLoc, ms[i].parent, w[1..])
  }

  /** The first `|w|` steps of the walk from `b` emit `w` and arrive at `e`. */
  predicate Chain(ms: seq<Marker>, startLoc: Loc, b: Option<nat>, w: seq<Loc>, e: Option<nat>)
    decreases |w|
  {
    if w == [] then b == e
    else
      b.Some? && b.value < |ms| && ms[b.value].loc != startLoc && w[0] == ms[b.value].loc &&
      Chain(ms, startLoc, ms[b.value].parent, w[1..], e)
  }

  /** One more step of the walk extends the chain by the location it emits. */
  lemma {:induction false} ChainSnoc(ms: seq<Marker>, startLoc: Loc, b: Option<nat>, w: seq<Loc>, e: nat)
    requires Chain(ms, startLoc, b, w, Some(e)) && e < |ms| && ms[e].loc != startLoc
    ensures Chain(ms, startLoc, b, w + [ms[e].loc], ms[e].parent)
    decreases |w|
  {
    if w != [] {
      assert (w + [ms[e].loc])[1..] == w[1..] + [ms[e].loc];
      ChainSnoc(ms, startLoc, ms[b.value].parent, w[1..], e);
    }
  }

  /** A chain that ends where the walk stops is the whole walk. */
  lemma {:induction false} ChainThenStop(ms: seq<Marker>, startLoc: Loc, b: Option<nat>, w: seq<Loc>, e: Option<nat>)
    requires Chain(ms, startLoc, b, w, e) && Walk(ms, startLoc, e, [])
    ensures Walk(ms, startLoc, b, w)
    decreases |w|
  {
    if w != [] {
      ChainThenStop(ms, startLoc, ms[b.value].parent, w[1..], e);
    }
  }

  /** The walk is determined by where it starts, so `GetPath` gives the same
      answer every time it is called on the same state. */
  lemma {:induction false} WalkUnique(ms: seq<Marker>, startLoc: Loc, b: Option<nat>, w1: seq<Loc>, w2: seq<Loc>)
    requires Walk(ms, startLoc, b, w1) && Walk(ms, startLoc, b, w2)
    ensures w1 == w2
    decreases |w1|
  {
    if b.Some? && ms[b.value].loc != startLoc {
      WalkUnique(ms, startLoc, ms[b.value].parent, w1[1..], w2[1..]);
      assert w1 == [w1[0]] + w1[1..] && w2 == [w2[0]] + w2[1..];
    }
  }

  /** Under the search invariant the path from the start marker or a closed
      marker, followed by the start location, runs over passable cells only and
      each location is one neighbour offset away from the next. */
  lemma {:induction false} WalkSteps(maze: Maze, s: State, b: nat, w: seq<Loc>)
    requires SearchInv(maze, s) && (b == 0 || b in s.closed)
    requires Walk(s.markers, s.markers[0].loc, Some(b), w)
    ensures forall k :: 0 <= k < |w| ==> Passable(maze, w[k])
    ensures forall k :: 0 <= k < |w| ==> Offset((w + [s.markers[0].loc])[k + 1], w[k]) in maze.directions
    decreases |w|
  {
    var ms := s.markers;
    var sl := ms[0].loc;
    if w != [] {
      assert b != 0;
      var c :| 0 <= c < |s.closed| && s.closed[c] == b;
      assert ParentIn(ms, b, s.closed[..c]);
      assert MarkerOK(maze, ms, b);
      var p := ms[b].parent.value;
      assert p == 0 || p in s.closed by {
        if p != 0 {
          var j :| 0 <= j < c && s.closed[..c][j] == p;
          assert s.closed[j] == p;
        }
      }
      assert Offset(ms[p].loc, w[0]) in maze.directions && Passable(maze, w[0]);
      WalkSteps(maze, s, p, w[1..]);
      var path := w + [sl];
      assert path[1] == ms[p].loc by {
        if w[1..] == [] {
          assert ms[p].loc == sl;
        } else {
          assert path[1] == w[1];
        }
      }
      forall k | 0 <= k < |w|
        ensures Passable(maze, w[k]) && Offset(path[k + 1], w[k]) in maze.directions
      {
        if k > 0 {
          assert w[k] == w[1..][k - 1];
          assert path[k + 1] == (w[1..] + [sl])[k];
        }
      }
    }
  }

  /** One pass of the `GetPath` loop from a closed marker off the start cell: the
      chain grows by that marker's location and reaches its parent, which exists
      and stands on the start cell or was closed earlier. */
  lemma WalkAdvance(maze: Maze, s: State, acc: seq<Loc>, pos: int)
    requires SearchInv(maze, s) && 0 <= pos < |s.closed|
    requires s.markers[s.closed[pos]].loc != s.markers[0].loc
    requires Chain(s.markers, s.markers[0].loc, s.endNode, acc, Some(s.closed[pos]))
    ensures var b := s.closed[pos];
      var p := s.markers[b].parent;
      p.Some? && p.value < |s.markers| &&
      Chain(s.markers, s.markers[0].loc, s.endNode, acc + [s.markers[b].loc], p) &&
      (s.markers[p.value].loc != s.markers[0].loc ==> exists j :: 0 <= j < pos && s.closed[j] == p.value)
  {
    ChainSnoc(s.markers, s.markers[0].loc, s.endNode, acc, s.closed[pos]);
    ParentClosedBefore(maze, s, pos);
  }

  /** The whole answer of `GetPath`, the walk followed by the start location, runs
      over passable cells with one neighbour offset between consecutive cells. */
  lemma PathSteps(maze: Maze, s: State, b: nat, w: seq<Loc>)
    requires SearchInv(maze, s) && (b == 0 || b in s.closed)
    requires Walk(s.markers, s.markers[0].loc, Some(b), w)
    ensures var path := w + [s.markers[0].loc];
      (forall k :: 0 <= k < |path| ==> Passable(maze, path[k])) &&
      (forall k :: 0 <= k < |path| - 1 ==> Offset(path[k + 1], path[k]) in maze.directions)
  {
    var path := w + [s.markers[0].loc];
    WalkSteps(maze, s, b, w);
    assert MarkerOK(maze, s.markers, 0);
    forall k | 0 <= k < |path|
      ensures Passable(maze, path[k])
    {
      if k < |w| {
        assert path[k] == w[k];
      }
    }
    forall k | 0 <= k < |path| - 1
      ensures Offset(path[k + 1], path[k]) in maze.directions
    {
      assert path[k] == w[k];
    }
  }

  /** The parent of a closed marker off the start cell was closed before it, or
      stands on the start cell: what makes the walk of `GetPath` terminate. */
  lemma ParentClosedBefore(maze: Maze, s: State, pos: int)
    requires SearchInv(maze, s) && 0 <= pos < |s.closed|
    requires s.markers[s.closed[pos]].loc != s.markers[0].loc
    ensures var m := s.markers[s.closed[pos]];
      m.parent.Some? && m.parent.value < |s.markers| &&
      (s.markers[m.parent.value].loc != s.markers[0].loc ==>
        exists j :: 0 <= j < pos && s.closed[j] == m.parent.value)
  {
    var b := s.closed[pos];
    assert ParentIn(s.markers, b, s.closed[..pos]);
    assert MarkerOK(maze, s.markers, b);
    var p := s.markers[b].parent.value;
    if p != 0 {
      assert p in s.closed[..pos];
      var j :| 0 <= j < pos && s.closed[..pos][j] == p;
      assert s.closed[j] == p;
    }
  }
}
