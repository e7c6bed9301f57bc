/** The ingest loop of the home page's CSV `complete` callback: every row whose two
    candidates both decode becomes a point, numbered by how many points came before it. */
module Ingest {
  import opened Wrappers
  import opened Text
  import opened Rows
  import opened Locations
  import StrictDmm

  /** The coordinates one row contributes, or `None` when the row is skipped: no candidates,
      or a candidate that is not finite after decoding. */
  function ReadRow(r: RawRecord): Option<(real, real)>
  {
    match ExtractRow(r)
    case None => None
    case Some(raw) =>
      var lat := StrictDmm.Decode(raw.0);
      var lng := StrictDmm.Decode(raw.1);
      if lat.Some? && lng.Some? then Some((lat.value, lng.value)) else None
  }

  /** The values `read` gives for the elements it does not skip, in order. */
  function Collect<T, U>(xs: seq<T>, read: T -> Option<U>): seq<U>
    decreases |xs|
  {
    if xs == [] then []
    else Collect(xs[..|xs| - 1], read) + (if read(xs[|xs| - 1]).Some? then [read(xs[|xs| - 1]).value] else [])
  }

  /** How many elements `read` skips. */
  function Skipped<T, U>(xs: seq<T>, read: T -> Option<U>): nat
    decreases |xs|
  {
    if xs == [] then 0 else Skipped(xs[1..], read) + (if read(xs[0]).None? then 1 else 0)
  }

  /** The coordinates of the accepted rows, in row order. */
  function Accepted(rows: seq<RawRecord>): seq<(real, real)>
  {
    Collect(rows, ReadRow)
  }

  /** How many rows are skipped. */
  function Rejected(rows: seq<RawRecord>): nat
  {
    Skipped(rows, ReadRow)
  }

  /** The accepted coordinates as points whose ids count the points before them. */
  function Numbered(coords: seq<(real, real)>): (locs: seq<Loc>)
  {
    seq(|coords|, i requires 0 <= i < |coords| => Loc(NatToString(i), coords[i].0, coords[i].1))
  }

  function Coordinates(locs: seq<Loc>): seq<(real, real)>
  {
    seq(|locs|, i requires 0 <= i < |locs| => (locs[i].lat, locs[i].lng))
  }

  /** The `for (const row of rows)` loop: `parsed.push` of each accepted row. */
  method Ingest(rows: seq<RawRecord>) returns (parsed: seq<Loc>)
    ensures parsed == Numbered(Accepted(rows))
  {
    parsed := [];
    for i := 0 to |rows|
      invariant parsed == Numbered(Accepted(rows[..i]))
    {
      assert rows[..i + 1][..i] == rows[..i];
      var raw := ExtractRow(rows[i]);
      if raw.None? {
        continue;
      }
      var lat := StrictDmm.Decode(raw.value.0);
      var lng := StrictDmm.Decode(raw.value.1);
      if lat.None? || lng.None? {
        continue;
      }
      assert ReadRow(rows[i]) == Some((lat.value, lng.value));
      NumberedAppend(Accepted(rows[..i]), (lat.value, lng.value));
      parsed := parsed + [Loc(NatToString(|parsed|), lat.value, lng.value)];
    }
    assert rows[..|rows|] == rows;
  }

  /** Numbering one more accepted row appends one point whose id is the old count. */
  lemma NumberedAppend(coords: seq<(real, real)>, c: (real, real))
    ensures Numbered(coords + [c]) == Numbered(coords) + [Loc(NatToString(|coords|), c.0, c.1)]
  {
    var a, b := Numbered(coords + [c]), Numbered(coords) + [Loc(NatToString(|coords|), c.0, c.1)];
    forall i | 0 <= i < |a|
      ensures a[i] == b[i]
    {
      NumberedAppendAt(coords, c, i);
    }
    assert a == b;
  }

  lemma NumberedAppendAt(coords: seq<(real, real)>, c: (real, real), i: nat)
    requires i <= |coords|
    ensures Numbered(coords + [c])[i] == (Numbered(coords) + [Loc(NatToString(|coords|), c.0, c.1)])[i]
  {
    var xs := coords + [c];
    if i < |coords| {
      assert xs[i] == coords[i];
    }
  }

  /** Numbered points have dense ids. */
  lemma NumberedDense(coords: seq<(real, real)>)
    ensures IdsDense(Numbered(coords))
    ensures |Numbered(coords)| == |coords|
  {
  }

  /** Numbering keeps the coordinates: dropping the ids gives them back. */
  lemma NumberedCoordinates(coords: seq<(real, real)>)
    ensures Coordinates(Numbered(coords)) == coords
  {
  }

  lemma AcceptedEmpty()
    ensures Accepted([]) == []
  {
  }

  /** Every element is either collected or skipped. */
  lemma {:induction false} CollectCount<T, U>(xs: seq<T>, read: T -> Option<U>)
    ensures |Collect(xs, read)| + Skipped(xs, read) == |xs|
    decreases |xs|
  {
    if xs != [] {
      CollectCount(xs[1..], read);
      CollectAppend([xs[0]], xs[1..], read);
      assert [xs[0]] + xs[1..] == xs;
      assert [xs[0]][..0] == [];
    }
  }

  /** Elements are read one at a time: splitting the input splits the result, in order. */
  lemma {:induction false} CollectAppend<T, U>(a: seq<T>, b: seq<T>, read: T -> Option<U>)
    ensures Collect(a + b, read) == Collect(a, read) + Collect(b, read)
    decreases |b|
  {
    if b == [] {
      assert a + b == a;
    } else {
      var b' := b[..|b| - 1];
      assert (a + b)[..|a + b| - 1] == a + b';
      assert (a + b)[|a + b| - 1] == b[|b| - 1];
      CollectAppend(a, b', read);
    }
  }

  /** A value is collected exactly when some element reads as it. */
  lemma {:induction false} CollectMembers<T, U>(xs: seq<T>, read: T -> Option<U>, v: U)
    ensures v in Collect(xs, read) <==> exists i | 0 <= i < |xs| :: read(xs[i]) == Some(v)
    decreases |xs|
  {
    if xs != [] {
      var n := |xs| - 1;
      CollectMembers(xs[..n], read, v);
      assert forall i | 0 <= i < n :: xs[..n][i] == xs[i];
      if v in Collect(xs, read) && v !in Collect(xs[..n], read) {
        assert read(xs[n]) == Some(v);
      }
    }
  }

  /** Nothing is collected exactly when every element is skipped. */
  lemma CollectEmpty<T, U>(xs: seq<T>, read: T -> Option<U>)
    ensures Collect(xs, read) == [] <==> forall i | 0 <= i < |xs| :: read(xs[i]).None?
  {
    if Collect(xs, read) == [] {
      forall i | 0 <= i < |xs|
        ensures read(xs[i]).None?
      {
        if read(xs[i]).Some? {
          CollectMembers(xs, read, read(xs[i]).value);
        }
      }
    } else {
      CollectMembers(xs, read, Collect(xs, read)[0]);
    }
  }

  /** The first value collected is the reading of the first element not skipped. */
  lemma {:induction false} CollectFirst<T, U>(xs: seq<T>, read: T -> Option<U>)
    requires Collect(xs, read) != []
    ensures exists i | 0 <= i < |xs| ::
      && (forall j | 0 <= j < i :: read(xs[j]).None?)
      && read(xs[i]) == Some(Collect(xs, read)[0])
    decreases |xs|
  {
    var n := |xs| - 1;
    var front := xs[..n];
    assert forall j | 0 <= j < n :: front[j] == xs[j];
    if Collect(front, read) != [] {
      CollectFirst(front, read);
      var i :| 0 <= i < |front| && (forall j | 0 <= j < i :: read(front[j]).None?)
        && read(front[i]) == Some(Collect(front, read)[0]);
      assert read(xs[i]) == Some(Collect(xs, read)[0]);
    } else {
      CollectEmpty(front, read);
      assert read(xs[n]) == Some(Collect(xs, read)[0]);
    }
  }

  lemma {:induction false} NoneSkipped<T, U>(xs: seq<T>, read: T -> Option<U>)
    requires forall x | x in xs :: read(x).Some?
    ensures Skipped(xs, read) == 0
    decreases |xs|
  {
    if xs != [] {
      assert xs[0] in xs;
      assert forall x | x in xs[1..] :: x in xs;
      NoneSkipped(xs[1..], read);
    }
  }

  /** Every row is either accepted or rejected: N rows with K skipped give N - K points. */
  lemma AcceptedCount(rows: seq<RawRecord>)
    ensures |Accepted(rows)| + Rejected(rows) == |rows|
  {
    CollectCount(rows, ReadRow);
  }

  /** Rows are read one at a time: splitting the input splits the result, in order. */
  lemma AcceptedAppend(a: seq<RawRecord>, b: seq<RawRecord>)
    ensures Accepted(a + b) == Accepted(a) + Accepted(b)
  {
    CollectAppend(a, b, ReadRow);
  }

  /** A pair of coordinates is accepted exactly when some row reads as it. */
  lemma AcceptedMembers(rows: seq<RawRecord>, c: (real, real))
    ensures c in Accepted(rows) <==> exists i | 0 <= i < |rows| :: ReadRow(rows[i]) == Some(c)
  {
    CollectMembers(rows, ReadRow, c);
  }

  /** The first point comes from the first row that is not skipped; there is none exactly
      when every row is skipped. */
  lemma AcceptedFirst(rows: seq<RawRecord>)
    ensures Accepted(rows) == [] <==> forall i | 0 <= i < |rows| :: ReadRow(rows[i]).None?
    ensures Accepted(rows) != [] ==> exists i | 0 <= i < |rows| ::
      && (forall j | 0 <= j < i :: ReadRow(rows[j]).None?)
      && ReadRow(rows[i]) == Some(Accepted(rows)[0])
  {
    CollectEmpty(rows, ReadRow);
    if Accepted(rows) != [] {
      CollectFirst(rows, ReadRow);
    }
  }

  /** With no row skipped, every row gives a point. */
  lemma AllAccepted(rows: seq<RawRecord>)
    requires forall r | r in rows :: ReadRow(r).Some?
    ensures |Accepted(rows)| == |rows|
  {
    CollectCount(rows, ReadRow);
    NoneSkipped(rows, ReadRow);
  }

  /** The ingested list: one point per accepted row, ids "0".."k-1", k at most the number of rows. */
  lemma IngestShape(rows: seq<RawRecord>)
    ensures IdsDense(Numbered(Accepted(rows)))
    ensures |Numbered(Accepted(rows))| <= |rows|
    ensures Coordinates(Numbered(Accepted(rows))) == Accepted(rows)
  {
    NumberedDense(Accepted(rows));
    NumberedCoordinates(Accepted(rows));
    AcceptedCount(rows);
  }
}
