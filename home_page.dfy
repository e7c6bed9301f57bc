/** The home page component's state: the point list, what the map shows of it, the parse
    status, the manual-entry inputs, and the idle callbacks waiting to run. Each event
    handler is a method. */
module HomePage {
  import opened Wrappers
  import opened Text
  import opened Rows
  import opened Locations
  import opened Visibility
  import JsParse
  import Ingest

  /** The map centre with no points: London. */
  const London := LatLng(51.5074, -0.1278)

  const InvalidInput := "Invalid latitude or longitude"

  /** `center`: the first point, or London for an empty list. */
  function Center(locations: seq<Loc>): LatLng
  {
    if |locations| > 0 then LatLng(locations[0].lat, locations[0].lng) else London
  }

  /** Appending never moves the centre, except that the first point ever added becomes it. */
  lemma CenterAfterAppend(locations: seq<Loc>, p: Loc)
    ensures Center(locations + [p]) == if locations == [] then LatLng(p.lat, p.lng) else Center(locations)
  {
    assert (locations + [p])[0] == if locations == [] then p else locations[0];
  }

  /** After a parse the centre is the first accepted row's coordinates, or London when every
      row is skipped. `Ingest.AcceptedFirst` says which row that is. */
  lemma CenterOfIngest(rows: seq<RawRecord>)
    ensures Ingest.Accepted(rows) == [] ==> Center(Ingest.Numbered(Ingest.Accepted(rows))) == London
    ensures Ingest.Accepted(rows) != [] ==>
      var c := Ingest.Accepted(rows)[0];
      Center(Ingest.Numbered(Ingest.Accepted(rows))) == LatLng(c.0, c.1)
  {
    Ingest.NumberedDense(Ingest.Accepted(rows));
  }

  class Page {
    var locations: seq<Loc>
    var visible: seq<Loc>
    var loading: bool
    var error: Option<string>
    var latInput: string
    var lngInput: string
    /** The idle callbacks requested and not yet run, oldest first, each with the list it captured. */
    var pendingIdle: seq<seq<Loc>>
    /** Whether `window.requestIdleCallback` exists. */
    const idleAvailable: bool

    /** Every list the page holds numbers its points "0", "1", ...; a waiting callback holds a
        long list; without idle callbacks the first 500 stay shown. */
    predicate Valid()
      reads this
    {
      && IdsDense(locations)
      && IdsDense(visible)
      && (forall j | 0 <= j < |pendingIdle| :: Deferred(pendingIdle[j]) && IdsDense(pendingIdle[j]))
      && (!idleAvailable ==> pendingIdle == [] && visible == Immediate(locations))
    }

    /** The `useState` initial values. */
    constructor(idleAvailable: bool)
      ensures this.idleAvailable == idleAvailable
      ensures locations == [] && visible == [] && pendingIdle == []
      ensures !loading && error == None && latInput == "" && lngInput == ""
      ensures Valid()
    {
      this.idleAvailable := idleAvailable;
      locations := [];
      visible := [];
      loading := false;
      error := None;
      latInput := "";
      lngInput := "";
      pendingIdle := [];
    }

    /** The effect on `locations`: show the first 500 of a long list and ask for an idle
        callback that shows the rest, or show a short list whole. */
    method ShowLocations()
      requires IdsDense(locations)
      requires forall j | 0 <= j < |pendingIdle| :: Deferred(pendingIdle[j]) && IdsDense(pendingIdle[j])
      requires !idleAvailable ==> pendingIdle == []
      modifies this
      ensures visible == Immediate(locations)
      ensures pendingIdle == old(pendingIdle) + (if Deferred(locations) && idleAvailable then [locations] else [])
      ensures locations == old(locations) && loading == old(loading) && error == old(error)
      ensures latInput == old(latInput) && lngInput == old(lngInput)
      ensures Valid()
    {
      if |locations| > Threshold {
        visible := locations[..Threshold];
        DensePrefix(locations, Threshold);
        if idleAvailable {
          pendingIdle := pendingIdle + [locations];
        }
      } else {
        visible := locations;
      }
    }

    /** `handleFileChange` up to the parse: with a file, loading starts and the error is cleared. */
    method ChooseFile(present: bool)
      requires Valid()
      modifies this
      ensures present ==> loading && error == None
      ensures !present ==> loading == old(loading) && error == old(error)
      ensures locations == old(locations) && visible == old(visible) && pendingIdle == old(pendingIdle)
      ensures latInput == old(latInput) && lngInput == old(lngInput)
      ensures Valid()
    {
      if !present {
        return;
      }
      loading := true;
      error := None;
    }

    /** The parser's `complete`: the ingested list replaces the old one wholesale, loading ends,
        and the effect runs on the new list. */
    method CompleteParse(rows: seq<RawRecord>)
      requires Valid()
      modifies this
      ensures locations == Ingest.Numbered(Ingest.Accepted(rows))
      ensures !loading && error == old(error)
      ensures visible == Immediate(locations)
      ensures pendingIdle == old(pendingIdle) + (if Deferred(locations) && idleAvailable then [locations] else [])
      ensures latInput == old(latInput) && lngInput == old(lngInput)
      ensures Valid()
    {
      var parsed := Ingest.Ingest(rows);
      Ingest.NumberedDense(Ingest.Accepted(rows));
      locations := parsed;
      loading := false;
      ShowLocations();
    }

    /** The parser's `error`: the message is shown and loading ends; the points stay as they were. */
    method FailParse(message: string)
      requires Valid()
      modifies this
      ensures error == Some(message) && !loading
      ensures locations == old(locations) && visible == old(visible) && pendingIdle == old(pendingIdle)
      ensures latInput == old(latInput) && lngInput == old(lngInput)
      ensures Valid()
    {
      error := Some(message);
      loading := false;
    }

    method SetLatInput(s: string)
      requires Valid()
      modifies this
      ensures latInput == s && lngInput == old(lngInput)
      ensures locations == old(locations) && visible == old(visible) && pendingIdle == old(pendingIdle)
      ensures loading == old(loading) && error == old(error)
      ensures Valid()
    {
      latInput := s;
    }

    method SetLngInput(s: string)
      requires Valid()
      modifies this
      ensures lngInput == s && latInput == old(latInput)
      ensures locations == old(locations) && visible == old(visible) && pendingIdle == old(pendingIdle)
      ensures loading == old(loading) && error == old(error)
      ensures Valid()
    {
      lngInput := s;
    }

    /** `handleAddPoint`: both inputs must read as finite numbers. Then one point numbered by
        the old length is appended, the inputs and the error are cleared and the effect runs;
        otherwise the error is set and nothing else changes. */
    method AddPoint()
      requires Valid()
      modifies this
      ensures var lat, lng := JsParse.ParseFloat(old(latInput)), JsParse.ParseFloat(old(lngInput));
        if lat.None? || lng.None? then
          && error == Some(InvalidInput)
          && locations == old(locations) && visible == old(visible) && pendingIdle == old(pendingIdle)
          && latInput == old(latInput) && lngInput == old(lngInput) && loading == old(loading)
        else
          && locations == old(locations) + [Loc(NatToString(|old(locations)|), lat.value, lng.value)]
          && latInput == "" && lngInput == "" && error == None && loading == old(loading)
          && visible == Immediate(locations)
          && pendingIdle == old(pendingIdle) + (if Deferred(locations) && idleAvailable then [locations] else [])
      ensures Valid()
    {
      var lat := JsParse.ParseFloat(latInput);
      var lng := JsParse.ParseFloat(lngInput);
      if lat.None? || lng.None? {
        error := Some(InvalidInput);
        return;
      }
      DenseAppend(locations, lat.value, lng.value);
      locations := locations + [Loc(NatToString(|locations|), lat.value, lng.value)];
      latInput := "";
      lngInput := "";
      error := None;
      ShowLocations();
    }

    /** The browser runs the oldest waiting idle callback: it shows the list it captured,
        whether or not that is still the current one. */
    method IdleFires()
      requires Valid() && pendingIdle != []
      modifies this
      ensures visible == old(pendingIdle[0]) && pendingIdle == old(pendingIdle[1..])
      ensures locations == old(locations) && loading == old(loading) && error == old(error)
      ensures latInput == old(latInput) && lngInput == old(lngInput)
      ensures Valid()
    {
      visible := pendingIdle[0];
      pendingIdle := pendingIdle[1..];
    }
  }

  /** A long file: the first 500 points are shown at once, all of them after the idle callback. */
  method LongFileScenario(rows: seq<RawRecord>) returns (p: Page, first: seq<Loc>)
    requires Deferred(Ingest.Accepted(rows))
    ensures p.locations == Ingest.Numbered(Ingest.Accepted(rows))
    ensures first == p.locations[..Threshold]
    ensures p.visible == p.locations && p.pendingIdle == []
  {
    p := new Page(true);
    p.ChooseFile(true);
    Ingest.NumberedDense(Ingest.Accepted(rows));
    p.CompleteParse(rows);
    first := p.visible;
    p.IdleFires();
  }

  /** A parse with no callback waiting: once the browser has run the callback it asked for,
      the map shows what the visibility rule settles on. */
  method ParseAndSettle(p: Page, rows: seq<RawRecord>)
    requires p.Valid() && p.pendingIdle == []
    modifies p
    ensures p.locations == Ingest.Numbered(Ingest.Accepted(rows))
    ensures p.visible == Settled(p.locations, p.idleAvailable) && p.pendingIdle == []
  {
    p.CompleteParse(rows);
    if p.pendingIdle != [] {
      p.IdleFires();
    }
  }

  /** Without `requestIdleCallback` a long list stays cut at 500 points. */
  method NoIdleScenario(rows: seq<RawRecord>) returns (p: Page)
    requires Deferred(Ingest.Accepted(rows))
    ensures p.locations == Ingest.Numbered(Ingest.Accepted(rows))
    ensures p.visible == p.locations[..Threshold] && p.pendingIdle == []
  {
    p := new Page(false);
    Ingest.NumberedDense(Ingest.Accepted(rows));
    p.CompleteParse(rows);
  }

  /** A waiting callback is never cancelled: a long file replaced by a short one before the
      browser is idle ends with the long file's points shown over the short file's. */
  method StaleRevealScenario(long: seq<RawRecord>, short: seq<RawRecord>) returns (p: Page)
    requires Deferred(Ingest.Accepted(long)) && !Deferred(Ingest.Accepted(short))
    ensures p.locations == Ingest.Numbered(Ingest.Accepted(short)) && p.pendingIdle == []
    ensures p.visible == Ingest.Numbered(Ingest.Accepted(long))
    ensures |p.visible| > |p.locations|
  {
    p := new Page(true);
    Ingest.NumberedDense(Ingest.Accepted(long));
    Ingest.NumberedDense(Ingest.Accepted(short));
    p.CompleteParse(long);
    p.CompleteParse(short);
    p.IdleFires();
  }

  /** A failed parse after a successful one keeps the points and the view. */
  method FailedReparseScenario(rows: seq<RawRecord>, message: string) returns (p: Page)
    ensures p.locations == Ingest.Numbered(Ingest.Accepted(rows))
    ensures p.error == Some(message) && !p.loading
    ensures p.visible == Immediate(p.locations)
  {
    p := new Page(true);
    p.CompleteParse(rows);
    p.ChooseFile(true);
    p.FailParse(message);
  }
}
