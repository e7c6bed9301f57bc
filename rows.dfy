/** Row extraction in the home page's CSV `complete` callback: a parsed row is either an
    array of fields or one raw string, and it yields a latitude and a longitude candidate
    or nothing. */
module Rows {
  import opened Wrappers
  import opened Text

  /** What the CSV parser hands over for one line: its fields, or the line as text. */
  datatype RawRecord = Fields(fields: seq<string>) | Line(text: string)

  /** The characters `/\s+|,|\t/` splits on: white space, which includes tab, and the comma.
      Only ASCII white space is modelled; JavaScript's `\s` also matches Unicode spaces. */
  predicate IsSeparator(c: char) { IsSpace(c) || c == ',' }

  /** What survives `filter(Boolean)`: a non-empty run without separators. */
  predicate IsToken(t: string) { t != [] && forall k | 0 <= k < |t| :: !IsSeparator(t[k]) }

  /** The end of the run of non-separators that starts at `i`. */
  function WordEnd(s: string, i: nat): (j: nat)
    requires i <= |s|
    ensures i <= j <= |s|
    ensures i < |s| && !IsSeparator(s[i]) ==> i < j
    decreases |s| - i
  {
    if i < |s| && !IsSeparator(s[i]) then WordEnd(s, i + 1) else i
  }

  /** The tokens of `s` from position `i` on. */
  function TokensFrom(s: string, i: nat): seq<string>
    requires i <= |s|
    decreases |s| - i
  {
    if i == |s| then []
    else if IsSeparator(s[i]) then TokensFrom(s, i + 1)
    else [s[i..WordEnd(s, i)]] + TokensFrom(s, WordEnd(s, i))
  }

  /** `s.split(/\s+|,|\t/).filter(Boolean)`: the maximal runs of non-separators, in order. */
  function Tokens(s: string): seq<string>
  {
    TokensFrom(s, 0)
  }

  /** Tokens joined with single commas, the shape of a comma-separated line. */
  function Join(ts: seq<string>): string
  {
    if ts == [] then "" else if |ts| == 1 then ts[0] else ts[0] + "," + Join(ts[1..])
  }

  /** `latRaw`/`lngRaw` for one row; `None` stands for the `continue` on a missing or empty candidate. */
  function ExtractRow(r: RawRecord): Option<(string, string)>
  {
    var candidates: Option<(string, string)> :=
      match r
      case Fields(f) => if |f| >= 2 then Some((Trim(f[0]), Trim(f[1]))) else None
      case Line(s) => var parts := Tokens(s); if |parts| >= 2 then Some((Trim(parts[0]), Trim(parts[1]))) else None;
    if candidates.Some? && candidates.value.0 != "" && candidates.value.1 != "" then candidates else None
  }

  lemma {:induction false} WordEndStops(s: string, i: nat)
    requires i <= |s|
    ensures forall k | i <= k < WordEnd(s, i) :: !IsSeparator(s[k])
    ensures WordEnd(s, i) < |s| ==> IsSeparator(s[WordEnd(s, i)])
    decreases |s| - i
  {
    if i < |s| && !IsSeparator(s[i]) {
      WordEndStops(s, i + 1);
    }
  }

  lemma {:induction false} WordEndExact(s: string, i: nat, j: nat)
    requires i <= j <= |s|
    requires forall k | i <= k < j :: !IsSeparator(s[k])
    requires j < |s| ==> IsSeparator(s[j])
    ensures WordEnd(s, i) == j
    decreases j - i
  {
    if i < j {
      WordEndExact(s, i + 1, j);
    }
  }

  /** Every token is non-empty and holds no separator. */
  lemma {:induction false} TokensAreTokens(s: string, i: nat)
    requires i <= |s|
    ensures forall t | t in TokensFrom(s, i) :: IsToken(t)
    decreases |s| - i
  {
    if i < |s| {
      if IsSeparator(s[i]) {
        TokensAreTokens(s, i + 1);
      } else {
        var j := WordEnd(s, i);
        WordEndStops(s, i);
        TokensAreTokens(s, j);
      }
    }
  }

  /** `x` holds `s` from position `a` on. */
  predicate HoldsAt(x: string, a: nat, s: string)
  {
    a + |s| == |x| && forall k | 0 <= k < |s| :: x[a + k] == s[k]
  }

  lemma {:induction false} WordEndShift(x: string, a: nat, s: string, i: nat)
    requires i <= |s| && HoldsAt(x, a, s)
    ensures WordEnd(x, a + i) == a + WordEnd(s, i)
    decreases |s| - i
  {
    if i < |s| {
      assert x[a + i] == s[i];
      WordEndShift(x, a, s, i + 1);
    }
  }

  lemma HeldSlice(x: string, a: nat, s: string, i: nat, j: nat)
    requires i <= j <= |s| && HoldsAt(x, a, s)
    ensures x[a + i..a + j] == s[i..j]
  {
    forall k | 0 <= k < j - i
      ensures x[a + i..a + j][k] == s[i..j][k]
    {
      assert x[a + i + k] == s[i + k];
    }
  }

  /** Reading tokens from inside a longer string is reading them in the part it holds. */
  lemma {:induction false} TokensFromShift(x: string, a: nat, s: string, i: nat)
    requires i <= |s| && HoldsAt(x, a, s)
    ensures TokensFrom(x, a + i) == TokensFrom(s, i)
    decreases |s| - i
  {
    if i < |s| {
      assert x[a + i] == s[i];
      if IsSeparator(s[i]) {
        TokensFromShift(x, a, s, i + 1);
        assert TokensFrom(x, a + i) == TokensFrom(x, a + i + 1);
      } else {
        var j := WordEnd(s, i);
        WordEndShift(x, a, s, i);
        HeldSlice(x, a, s, i, j);
        TokensFromShift(x, a, s, j);
        assert TokensFrom(x, a + i) == [x[a + i..a + j]] + TokensFrom(x, a + j);
      }
    }
  }

  /** A token followed by a separator and more text: the token comes first, then the rest's tokens. */
  lemma TokensOfCons(t: string, sep: char, rest: string)
    requires IsToken(t) && IsSeparator(sep)
    ensures Tokens(t + [sep] + rest) == [t] + Tokens(rest)
  {
    var x := t + [sep] + rest;
    var n := |t|;
    assert x[0] == t[0] && x[n] == sep;
    assert forall k | 0 <= k < n :: x[k] == t[k];
    WordEndExact(x, 0, n);
    assert x[0..n] == t;
    assert HoldsAt(x, n + 1, rest) by {
      assert forall k | 0 <= k < |rest| :: x[n + 1 + k] == rest[k];
    }
    TokensFromShift(x, n + 1, rest, 0);
    assert TokensFrom(x, n) == TokensFrom(x, n + 1);
  }

  /** `filter(Boolean)`: a separator in front, and so any run of them, adds no token. */
  lemma TokensOfSeparator(c: char, s: string)
    requires IsSeparator(c)
    ensures Tokens([c] + s) == Tokens(s)
  {
    var x := [c] + s;
    assert HoldsAt(x, 1, s) by {
      assert forall k | 0 <= k < |s| :: x[1 + k] == s[k];
    }
    TokensFromShift(x, 1, s, 0);
    assert TokensFrom(x, 0) == TokensFrom(x, 1);
  }

  /** No text, or only separators, gives no token. */
  lemma {:induction false} TokensOfSeparators(s: string)
    requires forall k | 0 <= k < |s| :: IsSeparator(s[k])
    ensures Tokens(s) == []
    decreases |s|
  {
    if s != [] {
      assert s == [s[0]] + s[1..];
      TokensOfSeparator(s[0], s[1..]);
      TokensOfSeparators(s[1..]);
    }
  }

  lemma TokensOfOne(t: string)
    requires IsToken(t)
    ensures Tokens(t) == [t]
  {
    WordEndExact(t, 0, |t|);
    assert t[0..|t|] == t;
    assert TokensFrom(t, |t|) == [];
  }

  /** Splitting undoes joining: a comma-separated line of tokens gives back exactly those tokens. */
  lemma {:induction false} TokensOfJoin(ts: seq<string>)
    requires forall t | t in ts :: IsToken(t)
    ensures Tokens(Join(ts)) == ts
  {
    if ts == [] {
    } else if |ts| == 1 {
      TokensOfOne(ts[0]);
    } else {
      TokensOfJoin(ts[1..]);
      TokensOfCons(ts[0], ',', Join(ts[1..]));
    }
  }

  /** A token has no white space at either end, so trimming it changes nothing. */
  lemma TokenTrimmed(t: string)
    requires IsToken(t)
    ensures Trim(t) == t
  {
    TrimUnchanged(t);
  }

  /** An array row gives its first two fields, trimmed, when it has at least two and neither trims to "". */
  lemma ExtractFields(f: seq<string>)
    ensures ExtractRow(Fields(f)).Some? <==> |f| >= 2 && Trim(f[0]) != "" && Trim(f[1]) != ""
    ensures ExtractRow(Fields(f)).Some? ==> ExtractRow(Fields(f)).value == (Trim(f[0]), Trim(f[1]))
  {
  }

  /** Fields after the second are ignored. */
  lemma ExtraFieldsIgnored(f: seq<string>, extra: seq<string>)
    requires |f| >= 2
    ensures ExtractRow(Fields(f + extra)) == ExtractRow(Fields(f))
  {
    assert (f + extra)[0] == f[0] && (f + extra)[1] == f[1];
  }

  /** A string row is skipped exactly when it has fewer than two tokens: tokens are never empty
      and trimming leaves them as they are, so the first two are the candidates. */
  lemma ExtractLine(s: string)
    ensures ExtractRow(Line(s)).Some? <==> |Tokens(s)| >= 2
    ensures ExtractRow(Line(s)).Some? ==> ExtractRow(Line(s)).value == (Tokens(s)[0], Tokens(s)[1])
  {
    TokensAreTokens(s, 0);
    if |Tokens(s)| >= 2 {
      assert Tokens(s)[0] in Tokens(s) && Tokens(s)[1] in Tokens(s);
      TokenTrimmed(Tokens(s)[0]);
      TokenTrimmed(Tokens(s)[1]);
    }
  }

  /** "lat,lng" read as one string gives the two tokens. */
  lemma ExtractJoinedPair(lat: string, lng: string)
    requires IsToken(lat) && IsToken(lng)
    ensures ExtractRow(Line(lat + "," + lng)) == Some((lat, lng))
  {
    assert Join([lat, lng]) == lat + "," + Join([lng]);
    TokensOfJoin([lat, lng]);
    ExtractLine(lat + "," + lng);
  }
}
