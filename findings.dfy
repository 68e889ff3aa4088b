/** The membership test of `IsClose` exactly as the source writes it, next to the
    location test the rest of this model uses in its place. */
module AsWritten {
  import opened Grid
  import opened Markers
  import opened CostOrder
  import opened AStar

  /** `IsClose(l)` as written: every closed marker is compared through
      `PathMarker.Equals` with the location `l` itself, not with a marker at `l`.
      `Equals` turns down any argument that is not a marker, so the test never
      succeeds, whatever the closed list holds. */
  function IsCloseAsWritten(ms: seq<Marker>, closed: seq<nat>, l: Loc): (r: bool)
    requires InArena(ms, closed)
    ensures !r
  {
    if closed == [] then false
    else Equals(ms[closed[0]], OfLocation(l)) || IsCloseAsWritten(ms, closed[1..], l)
  }

  /** A closed list holding the start cell: the intended test reports the cell as
      closed, the test as written does not, so the neighbour loop would reopen it. */
  lemma ClosedCellReopened()
    ensures var ms := [Marker(Loc(1, 1), 0.0, 0.0, 0.0, None)];
      IsClosed(ms, [0], Loc(1, 1)) && !IsCloseAsWritten(ms, [0], Loc(1, 1))
  {
    var ms := [Marker(Loc(1, 1), 0.0, 0.0, 0.0, None)];
    assert ms[[0][0]].loc == Loc(1, 1);
  }
}
