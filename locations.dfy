/** The point type shared by the home page and the map: `Loc` = { id, lat, lng }. */
module Locations {
  import opened Text

  datatype Loc = Loc(id: string, lat: real, lng: real)

  /** Leaflet's `LatLngLiteral`, the type of the map centre. */
  datatype LatLng = LatLng(lat: real, lng: real)

  /** The ids are "0", "1", ... in list order, as `String(parsed.length)` and `String(prev.length)` assign them. */
  predicate IdsDense(locs: seq<Loc>)
  {
    forall i | 0 <= i < |locs| :: locs[i].id == NatToString(i)
  }

  /** Dense ids are distinct, so an id names at most one point. */
  lemma DenseIdsDistinct(locs: seq<Loc>, i: nat, j: nat)
    requires IdsDense(locs) && i < |locs| && j < |locs|
    ensures locs[i].id == locs[j].id <==> i == j
  {
    if i != j {
      NatToStringInjective(i, j);
    }
  }

  /** Any prefix of a list with dense ids has dense ids. */
  lemma DensePrefix(locs: seq<Loc>, n: nat)
    requires IdsDense(locs) && n <= |locs|
    ensures IdsDense(locs[..n])
  {
  }

  /** Appending the point numbered by the old length keeps the ids dense. */
  lemma DenseAppend(locs: seq<Loc>, lat: real, lng: real)
    requires IdsDense(locs)
    ensures IdsDense(locs + [Loc(NatToString(|locs|), lat, lng)])
  {
    var id := NatToString(|locs|);
    var l := locs + [Loc(id, lat, lng)];
    forall i | 0 <= i < |l|
      ensures l[i].id == NatToString(i)
    {
      if i < |locs| {
        assert l[i] == locs[i];
      }
    }
  }
}
