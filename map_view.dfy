/** The map component's logic: the tile style and the selected marker it keeps as state,
    the tile template of each style, the markers it draws and the point it pans to. */
module MapView {
  import opened Wrappers
  import opened Text
  import opened Locations

  datatype MapType = Roadmap | Satellite | Hybrid | Terrain

  const OpenStreetMap := "https://{s}.tile.openstreetmap.org/{z}/{x}/{y}.png"
  const WorldImagery := "https://server.arcgisonline.com/ArcGIS/rest/services/World_Imagery/MapServer/tile/{z}/{y}/{x}"
  const OpenTopoMap := "https://{s}.tile.opentopomap.org/{z}/{x}/{y}.png"

  /** `urls[mapType]`: every style has a template. */
  function TileUrl(t: MapType): string
  {
    match t
    case Roadmap => OpenStreetMap
    case Satellite => WorldImagery
    case Hybrid => OpenStreetMap
    case Terrain => OpenTopoMap
  }

  /** Two styles share a template exactly when they are the same or are Roadmap and Hybrid. */
  lemma TileUrlShared(a: MapType, b: MapType)
    ensures TileUrl(a) == TileUrl(b) <==> a == b || ({a, b} == {Roadmap, Hybrid})
  {
    assert |OpenStreetMap| != |OpenTopoMap|;
    assert WorldImagery[|WorldImagery| - 1] == '}';
    assert OpenStreetMap[|OpenStreetMap| - 1] == 'g' && OpenTopoMap[|OpenTopoMap| - 1] == 'g';
    if {a, b} == {Roadmap, Hybrid} {
      assert a in {Roadmap, Hybrid} && b in {Roadmap, Hybrid};
    }
  }

  /** The three style buttons under the map. */
  datatype Button = RoadmapButton | SatelliteButton | TerrainButton

  function Pressed(b: Button): MapType
  {
    match b
    case RoadmapButton => Roadmap
    case SatelliteButton => Satellite
    case TerrainButton => Terrain
  }

  /** The buttons reach every style except Hybrid. */
  lemma ButtonsReach(t: MapType)
    ensures (exists b: Button :: Pressed(b) == t) <==> t != Hybrid
  {
    if t != Hybrid {
      var b := if t == Roadmap then RoadmapButton else if t == Satellite then SatelliteButton else TerrainButton;
      assert Pressed(b) == t;
    }
  }

  /** A marker icon, by its pixel size. */
  datatype Icon = Icon(width: nat, height: nat)

  const MarkIcon := Icon(36, 42)
  const ActiveIcon := Icon(42, 48)

  datatype Marker = Marker(key: string, icon: Icon, position: Loc)

  /** `loc.id === selectedId`: no selection matches no id. */
  predicate IsSelected(id: string, selectedId: Option<string>)
  {
    selectedId.Some? && selectedId.value == id
  }

  /** `locations.map(...)`: one marker per point, keyed by its id, active when selected. */
  function Markers(locs: seq<Loc>, selectedId: Option<string>): (ms: seq<Marker>)
    ensures |ms| == |locs|
  {
    if locs == [] then []
    else
      var loc := locs[0];
      [Marker(loc.id, if IsSelected(loc.id, selectedId) then ActiveIcon else MarkIcon, loc)]
        + Markers(locs[1..], selectedId)
  }

  /** Exactly one marker per point, in point order, with the active icon exactly for the selected id. */
  lemma {:induction false} MarkersShape(locs: seq<Loc>, selectedId: Option<string>)
    ensures forall i | 0 <= i < |locs| ::
      && Markers(locs, selectedId)[i].key == locs[i].id
      && Markers(locs, selectedId)[i].position == locs[i]
      && (Markers(locs, selectedId)[i].icon == ActiveIcon <==> IsSelected(locs[i].id, selectedId))
  {
    if locs != [] {
      MarkersShape(locs[1..], selectedId);
      var ms := Markers(locs, selectedId);
      forall i | 1 <= i < |locs|
        ensures ms[i] == Markers(locs[1..], selectedId)[i - 1] && locs[i] == locs[1..][i - 1]
      {
      }
    }
  }

  /** With dense ids and "k" selected, the k-th marker is the only active one. */
  lemma OneActiveMarker(locs: seq<Loc>, k: nat)
    requires IdsDense(locs) && k < |locs|
    ensures forall i | 0 <= i < |locs| :: Markers(locs, Some(NatToString(k)))[i].icon == ActiveIcon <==> i == k
  {
    MarkersShape(locs, Some(NatToString(k)));
    forall i | 0 <= i < |locs|
      ensures locs[i].id == NatToString(k) <==> i == k
    {
      DenseIdsDistinct(locs, i, k);
    }
  }

  /** `locations.find((l) => l.id === id)`: the first point with that id. */
  function FindById(locs: seq<Loc>, id: string): Option<Loc>
  {
    if locs == [] then None else if locs[0].id == id then Some(locs[0]) else FindById(locs[1..], id)
  }

  /** `find` gives the first point with the id, and nothing exactly when no point has it. */
  lemma {:induction false} FindByIdFirst(locs: seq<Loc>, id: string)
    ensures FindById(locs, id).None? <==> forall i | 0 <= i < |locs| :: locs[i].id != id
    ensures FindById(locs, id).Some? ==> exists i | 0 <= i < |locs| ::
      && FindById(locs, id).value == locs[i] && locs[i].id == id
      && forall j | 0 <= j < i :: locs[j].id != id
  {
    if locs != [] && locs[0].id != id {
      FindByIdFirst(locs[1..], id);
      assert forall i | 1 <= i < |locs| :: locs[i] == locs[1..][i - 1];
      if FindById(locs, id).Some? {
        var i :| 0 <= i < |locs[1..]| && FindById(locs[1..], id).value == locs[1..][i] && locs[1..][i].id == id
          && forall j | 0 <= j < i :: locs[1..][j].id != id;
        assert locs[i + 1] == locs[1..][i];
        assert forall j | 1 <= j < i + 1 :: locs[j] == locs[1..][j - 1];
      }
    }
  }

  /** With dense ids, the id "k" finds the k-th point. */
  lemma {:induction false} FindDense(locs: seq<Loc>, k: nat)
    requires IdsDense(locs) && k < |locs|
    ensures FindById(locs, NatToString(k)) == Some(locs[k])
  {
    FindByIdFirst(locs, NatToString(k));
    var i :| 0 <= i < |locs| && FindById(locs, NatToString(k)).value == locs[i] && locs[i].id == NatToString(k)
      && forall j | 0 <= j < i :: locs[j].id != NatToString(k);
    DenseIdsDistinct(locs, i, k);
  }

  /** `panTarget`: the selected point, or the centre with no selection (null or the falsy "")
      or when no point has the selected id. */
  function PanTarget(selectedId: Option<string>, locs: seq<Loc>, center: LatLng): LatLng
  {
    if selectedId.Some? && selectedId.value != "" then
      match FindById(locs, selectedId.value)
      case Some(l) => LatLng(l.lat, l.lng)
      case None => center
    else center
  }

  /** The four cases of the pan target. */
  lemma PanTargetCases(selectedId: Option<string>, locs: seq<Loc>, center: LatLng)
    ensures selectedId == None ==> PanTarget(selectedId, locs, center) == center
    ensures selectedId == Some("") ==> PanTarget(selectedId, locs, center) == center
    ensures selectedId.Some? && selectedId.value != "" && (forall i | 0 <= i < |locs| :: locs[i].id != selectedId.value)
      ==> PanTarget(selectedId, locs, center) == center
    ensures selectedId.Some? && selectedId.value != "" && (exists i | 0 <= i < |locs| :: locs[i].id == selectedId.value)
      ==> exists i | 0 <= i < |locs| ::
        && locs[i].id == selectedId.value
        && PanTarget(selectedId, locs, center) == LatLng(locs[i].lat, locs[i].lng)
        && forall j | 0 <= j < i :: locs[j].id != selectedId.value
  {
    if selectedId.Some? {
      FindByIdFirst(locs, selectedId.value);
    }
  }

  /** With dense ids, clicking the k-th marker pans to the k-th point. */
  lemma PanToClicked(locs: seq<Loc>, k: nat, center: LatLng)
    requires IdsDense(locs) && k < |locs|
    ensures PanTarget(Some(locs[k].id), locs, center) == LatLng(locs[k].lat, locs[k].lng)
  {
    FindDense(locs, k);
  }

  /** The component's own state: the tile style and the selected id. */
  class MapState {
    var mapType: MapType
    var selectedId: Option<string>

    /** The buttons never choose Hybrid, so it never becomes the style. */
    predicate Valid()
      reads this
    {
      mapType != Hybrid
    }

    /** `useState("Roadmap")` and `useState(null)`. */
    constructor()
      ensures mapType == Roadmap && selectedId == None
      ensures Valid()
    {
      mapType := Roadmap;
      selectedId := None;
    }

    /** A style button: the style changes and the selection does not. */
    method Press(b: Button)
      requires Valid()
      modifies this
      ensures mapType == Pressed(b) && selectedId == old(selectedId)
      ensures Valid()
    {
      mapType := Pressed(b);
    }

    /** A marker's click handler: its point's id becomes the selection; the style stays. */
    method ClickMarker(loc: Loc)
      requires Valid()
      modifies this
      ensures selectedId == Some(loc.id) && mapType == old(mapType)
      ensures Valid()
    {
      selectedId := Some(loc.id);
    }
  }

  /** Clicking the k-th marker of a list with dense ids selects it alone and pans to it. */
  method ClickScenario(m: MapState, locs: seq<Loc>, k: nat, center: LatLng)
    requires m.Valid() && IdsDense(locs) && k < |locs|
    modifies m
    ensures m.selectedId == Some(NatToString(k)) && m.mapType == old(m.mapType)
    ensures PanTarget(m.selectedId, locs, center) == LatLng(locs[k].lat, locs[k].lng)
    ensures forall i | 0 <= i < |locs| :: Markers(locs, m.selectedId)[i].icon == ActiveIcon <==> i == k
  {
    m.ClickMarker(locs[k]);
    PanToClicked(locs, k, center);
    OneActiveMarker(locs, k);
  }
}
