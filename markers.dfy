/** `PathMarker`: one node of the search, and its location-only equality. */
module Markers {
  import opened Grid

  datatype Option<T> = None | Some(value: T)

  /** A search node. `parent` is the arena index of the marker that produced it
      (the source holds a reference; `None` stands for `null`). */
  datatype Marker = Marker(loc: Loc, g: real, h: real, f: real, parent: Option<nat>)

  /** The run-time values `Equals(object)` can be handed: `null`, another
      `PathMarker`, or a `MapLocation`. */
  datatype Obj = Null | OfMarker(marker: Marker) | OfLocation(location: Loc)

  /** `PathMarker.Equals`: an argument of another run-time type (or null) is
      unequal; two markers are equal exactly when their locations are. */
  function Equals(self: Marker, obj: Obj): (r: bool)
    ensures r <==> obj.OfMarker? && obj.marker.loc == self.loc
    ensures obj.OfLocation? ==> !r
  {
    if obj.Null? || !obj.OfMarker? then false else self.loc == obj.marker.loc
  }

  /** The ordering key of the frontier: by F, then by H. */
  predicate CostLe(a: Marker, b: Marker)
  {
    a.f < b.f || (a.f == b.f && a.h <= b.h)
  }
}
