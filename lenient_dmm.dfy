/** The upload route's decoder: the last character is the direction, N and S take two
    degree digits and anything else three, and `parseInt`/`parseFloat` read the slices
    without any validation. NaN is `None`. */
module LenientDmm {
  import opened Wrappers
  import opened Text
  import opened Numbers
  import opened JsParse
  import StrictDmm

  /** `coord.slice(-1)`: the last character, or "" for the empty string. */
  function Direction(coord: string): (d: string)
    ensures |d| <= 1
  {
    if coord == [] then "" else [coord[|coord| - 1]]
  }

  /** `coord.slice(0, -1)`: everything but the last character. */
  function Body(coord: string): (b: string)
    ensures coord != [] ==> coord == b + Direction(coord)
    ensures coord == [] ==> b == []
  {
    if coord == [] then "" else coord[..|coord| - 1]
  }

  /** `dir === "x"` against a one-letter string literal. */
  predicate IsLetter(dir: string, x: char)
  {
    |dir| == 1 && dir[0] == x
  }

  /** "N" and "S" take two degree characters, every other direction three. JavaScript's
      `slice` clamps, so a short body gives a short or empty slice rather than an error. */
  function Cut(coord: string): (k: nat)
    ensures k <= |Body(coord)|
  {
    var width := if IsLetter(Direction(coord), 'N') || IsLetter(Direction(coord), 'S') then 2 else 3;
    if |Body(coord)| < width then |Body(coord)| else width
  }

  function DegreesSlice(coord: string): string
  {
    Body(coord)[..Cut(coord)]
  }

  function MinutesSlice(coord: string): string
  {
    Body(coord)[Cut(coord)..]
  }

  /** degrees + minutes / 60, negated for "S" and "W", rounded; NaN if either number is. */
  function Combine(dir: string, degrees: Option<int>, minutes: Option<real>): Option<real>
  {
    if degrees.Some? && minutes.Some? then
      var v := degrees.value as real + minutes.value / 60.0;
      Some(Round8(if IsLetter(dir, 'S') || IsLetter(dir, 'W') then -v else v))
    else None
  }

  /** `dmmToDecimal` of `my-app/src/pages/api/upload.ts`. */
  function Decode(coord: string): Option<real>
  {
    Combine(Direction(coord), ParseInt(DegreesSlice(coord)), ParseFloat(MinutesSlice(coord)))
  }

  /** The slices put back together give the input. */
  lemma SlicesPartition(coord: string)
    ensures DegreesSlice(coord) + MinutesSlice(coord) + Direction(coord) == coord
  {
    var b := Body(coord);
    assert b[..Cut(coord)] + b[Cut(coord)..] == b;
  }

  function Negated(r: Option<real>): Option<real>
  {
    match r
    case None => None
    case Some(x) => Some(-x)
  }

  /** The direction only picks the slice width and the sign. */
  lemma SlicesOfLetter(body: string, x: char)
    ensures var cut := if (x == 'N' || x == 'S') && |body| >= 2 then 2 else if |body| < 3 then |body| else 3;
      && Direction(body + [x]) == [x]
      && DegreesSlice(body + [x]) == body[..cut]
      && MinutesSlice(body + [x]) == body[cut..]
  {
    assert (body + [x])[..|body|] == body;
    assert [x] == "N" <==> x == 'N';
    assert [x] == "S" <==> x == 'S';
  }

  lemma DecodeOfSlices(c: string, dir: string, deg: string, min: string)
    requires Direction(c) == dir && DegreesSlice(c) == deg && MinutesSlice(c) == min
    ensures Decode(c) == Combine(dir, ParseInt(deg), ParseFloat(min))
  {
  }

  lemma CombineNegates(d: Option<int>, m: Option<real>)
    ensures Combine("S", d, m) == Negated(Combine("N", d, m))
    ensures Combine("W", d, m) == Negated(Combine("E", d, m))
  {
    if d.Some? && m.Some? {
      Round8Negate(d.value as real + m.value / 60.0);
    }
  }

  /** Only a literal 'S' negates: the same body with 'N' gives the opposite value. */
  lemma SouthNegatesNorth(body: string)
    ensures Decode(body + "S") == Negated(Decode(body + "N"))
  {
    SlicesOfLetter(body, 'S');
    SlicesOfLetter(body, 'N');
    CombineNegates(ParseInt(DegreesSlice(body + "N")), ParseFloat(MinutesSlice(body + "N")));
  }

  /** Only a literal 'W' negates: the same body with 'E' gives the opposite value. */
  lemma WestNegatesEast(body: string)
    ensures Decode(body + "W") == Negated(Decode(body + "E"))
  {
    SlicesOfLetter(body, 'W');
    SlicesOfLetter(body, 'E');
    CombineNegates(ParseInt(DegreesSlice(body + "E")), ParseFloat(MinutesSlice(body + "E")));
  }

  lemma CombineIgnoresOtherLetters(dir: string, d: Option<int>, m: Option<real>)
    requires dir != "S" && dir != "W"
    ensures Combine(dir, d, m) == Combine("E", d, m)
  {
  }

  /** The direction test is case sensitive and has no list of letters: every final character
      other than 'N', 'S' and 'W' is read exactly like 'E', lower-case 'n' included. */
  lemma OtherLettersReadAsEast(body: string, x: char)
    requires x != 'N' && x != 'S' && x != 'W'
    ensures Decode(body + [x]) == Decode(body + "E")
  {
    SlicesOfLetter(body, x);
    SlicesOfLetter(body, 'E');
    assert [x] != "S" && [x] != "W" by {
      assert [x][0] == x;
    }
    CombineIgnoresOtherLetters([x], ParseInt(DegreesSlice(body + "E")), ParseFloat(MinutesSlice(body + "E")));
  }

  lemma CombineOfNumbers(x: char, d: int, m: real)
    ensures Combine([x], Some(d), Some(m)) == Some(Round8(StrictDmm.Signed(x, d as real + m / 60.0)))
  {
    assert [x] == "S" <==> x == 'S';
    assert [x] == "W" <==> x == 'W';
  }

  /** The value the upload route computes once its two slices have been read as numbers. */
  lemma DecodeOfNumbers(c: string, x: char, d: int, m: real)
    requires Direction(c) == [x]
    requires ParseInt(DegreesSlice(c)) == Some(d) && ParseFloat(MinutesSlice(c)) == Some(m)
    ensures Decode(c) == Some(Round8(StrictDmm.Signed(x, d as real + m / 60.0)))
  {
    DecodeOfSlices(c, [x], DegreesSlice(c), MinutesSlice(c));
    CombineOfNumbers(x, d, m);
  }

  /** On a string of at least four characters the slices are fixed by the last letter alone. */
  lemma LetterCut(c: string)
    requires |c| >= 4
    ensures var x := c[|c| - 1]; var cut := if x == 'N' || x == 'S' then 2 else 3;
      && Direction(c) == [x]
      && DegreesSlice(c) == c[0..cut]
      && MinutesSlice(c) == c[cut..|c| - 1]
  {
    var x := c[|c| - 1];
    assert [x] == "N" <==> x == 'N';
    assert [x] == "S" <==> x == 'S';
  }

  /** The upload route on `k` >= 4 integer digits, a point, fraction digits and a final letter
      at `n`: the first `cut` digits are the degrees, and `parseFloat` reads the rest of the
      string before the letter as the minutes. */
  lemma LenientAt(c: string, k: nat, cut: nat, n: nat)
    requires StrictDmm.DecimalAt(c, k) && 4 <= k && n + 1 == |c|
    requires cut == if c[n] == 'N' || c[n] == 'S' then 2 else 3
    ensures Decode(c) == Some(Round8(StrictDmm.Signed(c[n],
      DigitsIn(c, 0, cut) as real + (DigitsIn(c, cut, k) as real + FracIn(c, k + 1, n)) / 60.0)))
  {
    SlicesAt(c, k, cut, n);
    DecodeOfNumbers(c, c[n], DigitsIn(c, 0, cut), DigitsIn(c, cut, k) as real + FracIn(c, k + 1, n));
  }

  /** The two slices of such a string, read as numbers in place. */
  lemma SlicesAt(c: string, k: nat, cut: nat, n: nat)
    requires StrictDmm.DecimalAt(c, k) && 4 <= k && n + 1 == |c|
    requires cut == if c[n] == 'N' || c[n] == 'S' then 2 else 3
    ensures Direction(c) == [c[n]]
    ensures ParseInt(DegreesSlice(c)) == Some(DigitsIn(c, 0, cut) as int)
    ensures ParseFloat(MinutesSlice(c)) == Some(DigitsIn(c, cut, k) as real + FracIn(c, k + 1, n))
  {
    LetterCut(c);
    ParseIntIn(c, 0, cut);
    ParseFloatIn(c, cut, k, n);
  }

  /** The strict decoder's degree width agrees with the one the direction letter selects here. */
  predicate SameWidth(g: StrictDmm.Groups)
  {
    (g.direction == 'N' || g.direction == 'S') <==> |g.degrees| == 2
  }

  /** When the widths differ, the digits that move between degrees and minutes are all zero:
      for N/S the three degree digits, for E/W the two degree digits and the first minute digit. */
  predicate MovedDigitsZero(g: StrictDmm.Groups)
    requires AllDigits(g.degrees) && StrictDmm.IsMinutesGroup(g.minutes)
  {
    if g.direction == 'N' || g.direction == 'S' then DigitsValue(g.degrees) == 0
    else DigitsValue(g.degrees) == 0 && g.minutes[0] == '0'
  }

  /** Rounding to eight decimals keeps two readings apart exactly when they differ at all,
      as long as differing readings are at least 2/3 apart. */
  lemma RoundingDecides(x: char, s: real, v: real, same: bool)
    requires same ==> s == v
    requires !same ==> s - v >= 2.0 / 3.0 || v - s >= 2.0 / 3.0
    ensures Some(Round8(StrictDmm.Signed(x, v))) == Some(Round8(StrictDmm.Signed(x, s))) <==> same
  {
    if !same {
      Round8Separates(StrictDmm.Signed(x, s), StrictDmm.Signed(x, v));
    }
  }

  /** Three degree digits `p` = 10a + d, minutes "bb.f" for the page; the upload route reads
      `a` degrees and 100d + b minutes. The place values `ten` and `hundred` are parameters
      equal to 10 and 100 rather than literals, which keeps the solver's arithmetic on the
      products small. */
  lemma NarrowerGap(a: nat, d: nat, b: nat, p: nat, q: nat, ten: nat, hundred: nat, f: real)
    requires d < 10 && ten == 10 && hundred == 100
    requires p == a * ten + d && q == d * hundred + b
    ensures var s := p as real + (b as real + f) / 60.0;
      var v := a as real + (q as real + f) / 60.0;
      (p == 0 ==> s == v) && (p != 0 ==> s - v >= 2.0 / 3.0 || v - s >= 2.0 / 3.0)
  {
  }

  /** Two degree digits `a`, minutes p = 10m0 + m1 for the page; the upload route reads
      q = 10a + m0 degrees and m1 minutes. `ten` and `ten'` stand for 10, as in `NarrowerGap`. */
  lemma WiderGap(a: nat, m0: nat, m1: nat, p: nat, q: nat, ten: nat, ten': nat, f: real)
    requires m0 < 10 && ten == 10 && ten' == 10
    requires p == m0 * ten' + m1 && q == a * ten + m0
    ensures var s := a as real + (p as real + f) / 60.0;
      var v := q as real + (m1 as real + f) / 60.0;
      (q == 0 ==> s == v) && (q != 0 ==> v - s >= 2.0 / 3.0)
  {
  }

  /** The two readings of three integer digits, a point and fraction digits before 'N' or
      'S' at `n`: the page takes `w` = 3 degree digits, the upload route `cut` = 2. */
  lemma NarrowerReadings(c: string, w: nat, cut: nat, k: nat, n: nat)
    requires w == 3 && cut == 2 && k == 5 && n + 1 == |c| && StrictDmm.DecimalAt(c, k)
    ensures Some(Round8(StrictDmm.Signed(c[n],
        DigitsIn(c, 0, cut) as real + (DigitsIn(c, cut, k) as real + FracIn(c, k + 1, n)) / 60.0)))
      == Some(Round8(StrictDmm.Signed(c[n],
        DigitsIn(c, 0, w) as real + (DigitsIn(c, w, k) as real + FracIn(c, k + 1, n)) / 60.0)))
      <==> DigitsIn(c, 0, w) == 0
  {
    DigitsInSplit(c, 0, cut, w);
    DigitsInSplit(c, cut, w, k);
    DigitsInOne(c, cut, w);
    assert Pow10(w - cut) == 10 && Pow10(k - w) == 100;
    NarrowerGap(DigitsIn(c, 0, cut), DigitsIn(c, cut, w), DigitsIn(c, w, k), DigitsIn(c, 0, w), DigitsIn(c, cut, k),
      Pow10(w - cut), Pow10(k - w), FracIn(c, k + 1, n));
    RoundingDecides(c[n],
      DigitsIn(c, 0, w) as real + (DigitsIn(c, w, k) as real + FracIn(c, k + 1, n)) / 60.0,
      DigitsIn(c, 0, cut) as real + (DigitsIn(c, cut, k) as real + FracIn(c, k + 1, n)) / 60.0,
      DigitsIn(c, 0, w) == 0);
  }

  /** The two readings of two integer digits, a point and fraction digits before a letter
      other than 'N' and 'S': the page takes `w` = 2 degree digits, the upload route `cut` = 3. */
  lemma WiderReadings(c: string, w: nat, cut: nat, k: nat, n: nat)
    requires w == 2 && cut == 3 && k == 4 && n + 1 == |c| && StrictDmm.DecimalAt(c, k)
    ensures Some(Round8(StrictDmm.Signed(c[n],
        DigitsIn(c, 0, cut) as real + (DigitsIn(c, cut, k) as real + FracIn(c, k + 1, n)) / 60.0)))
      == Some(Round8(StrictDmm.Signed(c[n],
        DigitsIn(c, 0, w) as real + (DigitsIn(c, w, k) as real + FracIn(c, k + 1, n)) / 60.0)))
      <==> DigitsIn(c, 0, cut) == 0
  {
    DigitsInSplit(c, 0, w, cut);
    DigitsInSplit(c, w, cut, k);
    DigitsInOne(c, w, cut);
    assert Pow10(cut - w) == 10 && Pow10(k - cut) == 10;
    WiderGap(DigitsIn(c, 0, w), DigitsIn(c, w, cut), DigitsIn(c, cut, k), DigitsIn(c, w, k), DigitsIn(c, 0, cut),
      Pow10(cut - w), Pow10(k - cut), FracIn(c, k + 1, n));
    RoundingDecides(c[n],
      DigitsIn(c, 0, w) as real + (DigitsIn(c, w, k) as real + FracIn(c, k + 1, n)) / 60.0,
      DigitsIn(c, 0, cut) as real + (DigitsIn(c, cut, k) as real + FracIn(c, k + 1, n)) / 60.0,
      DigitsIn(c, 0, cut) == 0);
  }

  /** A three-digit degree group before 'N' or 'S': the decoders agree exactly when those digits are all 0. */
  lemma NarrowerCase(c: string)
    requires StrictDmm.Exec(c).Some?
    requires var g := StrictDmm.Exec(c).value; |g.degrees| == 3 && (g.direction == 'N' || g.direction == 'S')
    ensures Decode(c) == StrictDmm.DecodeNormalized(c) <==> DigitsIn(c, 0, 3) == 0
  {
    var w, cut, k, n := 3, 2, 5, |c| - 1;
    StrictDmm.ExecAt(c);
    StrictDmm.ValueAt(c, w, k, n);
    LenientAt(c, k, cut, n);
    NarrowerReadings(c, w, cut, k, n);
  }

  /** A two-digit degree group before any other letter: the decoders agree exactly when the
      degrees and the first minute digit are all 0. */
  lemma WiderCase(c: string)
    requires StrictDmm.Exec(c).Some?
    requires var g := StrictDmm.Exec(c).value; |g.degrees| == 2 && g.direction != 'N' && g.direction != 'S'
    ensures Decode(c) == StrictDmm.DecodeNormalized(c) <==> DigitsIn(c, 0, 3) == 0
  {
    var w, cut, k, n := 2, 3, 4, |c| - 1;
    StrictDmm.ExecAt(c);
    StrictDmm.ValueAt(c, w, k, n);
    LenientAt(c, k, cut, n);
    WiderReadings(c, w, cut, k, n);
  }

  /** Same degree width: both decoders read the same numbers. */
  lemma SameWidthCase(c: string)
    requires StrictDmm.Exec(c).Some? && SameWidth(StrictDmm.Exec(c).value)
    ensures Decode(c) == StrictDmm.DecodeNormalized(c)
  {
    StrictDmm.ExecAt(c);
    var w := |StrictDmm.Exec(c).value.degrees|;
    var k, n := w + 2, |c| - 1;
    StrictDmm.ValueAt(c, w, k, n);
    LenientAt(c, k, w, n);
  }

  /** On every string the page's regex accepts (already trimmed and upper-case), the two
      decoders give the same number exactly when the direction letter selects the width the
      regex found, or when every digit that the other width moves between degrees and minutes is 0. */
  lemma DecodersAgreeExactly(c: string)
    requires StrictDmm.Exec(c).Some?
    ensures var g := StrictDmm.Exec(c).value;
      Decode(c) == StrictDmm.Decode(c) <==> SameWidth(g) || MovedDigitsZero(g)
  {
    StrictDmm.DecodeMatched(c);
    AgreeOnMatched(c);
  }

  /** The agreement theorem on the matched groups, before trimming and upper-casing. */
  lemma AgreeOnMatched(c: string)
    requires StrictDmm.Exec(c).Some?
    ensures var g := StrictDmm.Exec(c).value;
      Decode(c) == StrictDmm.DecodeNormalized(c) <==> SameWidth(g) || MovedDigitsZero(g)
  {
    var g := StrictDmm.Exec(c).value;
    if SameWidth(g) {
      SameWidthCase(c);
    } else {
      MovedDigitsAt(c);
      if |g.degrees| == 3 {
        NarrowerCase(c);
      } else {
        WiderCase(c);
      }
    }
  }

  /** With differing widths, the moved digits are zero exactly when the first three digits are. */
  lemma MovedDigitsAt(c: string)
    requires StrictDmm.Exec(c).Some? && !SameWidth(StrictDmm.Exec(c).value)
    ensures MovedDigitsZero(StrictDmm.Exec(c).value) <==> DigitsIn(c, 0, 3) == 0
  {
    StrictDmm.ExecAt(c);
    var g := StrictDmm.Exec(c).value;
    var w := |g.degrees|;
    DigitsInValue(c, 0, w);
    assert c[0..w] == g.degrees;
    if w == 2 {
      DigitsInSplit(c, 0, 2, 3);
      DigitsInOne(c, 2, 3);
      assert g.minutes[0] == c[2];
    }
  }

  lemma LongitudeDigits(c: string)
    requires c == "07923.6174W"
    ensures StrictDmm.DecimalAt(c, 5) && c[10] == 'W'
    ensures DigitsIn(c, 0, 3) == 79 && DigitsIn(c, 3, 5) == 23 && FracIn(c, 6, 10) == 0.6174
  {
    assert Pow10(4) == 10000;
  }

  lemma ValueAgreementExample()
    ensures Decode("07923.6174W") == Some(-79.39362333)
  {
    var c := "07923.6174W";
    LongitudeDigits(c);
    LenientAt(c, 5, 3, 10);
    StrictDmm.RoundedEqual(Decode(c), c[10],
      DigitsIn(c, 0, 3) as real + (DigitsIn(c, 3, 5) as real + FracIn(c, 5 + 1, 10)) / 60.0, 79.0 + 23.6174 / 60.0);
    StrictDmm.RoundingLongitudeExample();
  }

  /** "07923.6174W": both decoders give -79.39362333. */
  lemma ExampleAgreement()
    ensures Decode("07923.6174W") == StrictDmm.Decode("07923.6174W") == Some(-79.39362333)
  {
    StrictDmm.ExampleLongitude();
    ValueAgreementExample();
  }

  lemma ExecDisagreementExample()
    ensures StrictDmm.Exec("04023.6174N") == Some(StrictDmm.Groups("040", "23.6174", 'N'))
  {
    var c := "04023.6174N";
    assert c[..5] == "04023" && c[6..10] == "6174";
    assert StrictDmm.MatchesWith(c, 3);
    assert c[..3] == "040" && c[3..10] == "23.6174";
  }

  lemma DisagreementDigits(c: string)
    requires c == "04023.6174N"
    ensures StrictDmm.DecimalAt(c, 5) && c[10] == 'N'
    ensures DigitsIn(c, 0, 2) == 4 && DigitsIn(c, 2, 5) == 23 && FracIn(c, 6, 10) == 0.6174
  {
    assert Pow10(4) == 10000;
  }

  lemma ValueDisagreementExample()
    ensures Decode("04023.6174N") == Some(Round8(4.0 + 23.6174 / 60.0))
  {
    var c := "04023.6174N";
    DisagreementDigits(c);
    LenientAt(c, 5, 2, 10);
    StrictDmm.RoundedEqual(Decode(c), c[10],
      DigitsIn(c, 0, 2) as real + (DigitsIn(c, 2, 5) as real + FracIn(c, 5 + 1, 10)) / 60.0, 4.0 + 23.6174 / 60.0);
  }

  /** The page reads "04023.6174N" as 040 degrees and 23.6174 minutes, the value of "4023.6174N". */
  lemma PageValueDisagreementExample()
    ensures StrictDmm.Decode("04023.6174N") == Some(40.39362333)
  {
    var c := "04023.6174N";
    ExecDisagreementExample();
    PageMagnitudeExample();
    assert Round8(40.0 + 23.6174 / 60.0) == 40.39362333;
    StrictDmm.DecodeMatched(c);
  }

  lemma PageMagnitudeExample()
    ensures StrictDmm.Magnitude(StrictDmm.Groups("040", "23.6174", 'N')) == 40.0 + 23.6174 / 60.0
  {
    StrictDmm.MinutesExample();
    assert "040"[..2] == "04" && "04"[..1] == "0";
  }

  /** "04023.6174N": the page reads 40 degrees; the upload route reads "04" as 4 degrees and
      "023.6174" as the minutes. */
  lemma ExampleDisagreement()
    ensures StrictDmm.Exec("04023.6174N") == Some(StrictDmm.Groups("040", "23.6174", 'N'))
    ensures StrictDmm.Decode("04023.6174N") == Some(40.39362333)
    ensures Decode("04023.6174N") != StrictDmm.Decode("04023.6174N")
    ensures Decode("04023.6174N") == Some(Round8(4.0 + 23.6174 / 60.0))
  {
    ExecDisagreementExample();
    assert "040"[..2] == "04" && "04"[..1] == "0";
    assert DigitsValue("040") == 40;
    DecodersAgreeExactly("04023.6174N");
    ValueDisagreementExample();
    PageValueDisagreementExample();
  }

  lemma LowerCaseDigits(c: string)
    requires c == "4023.6174n"
    ensures StrictDmm.DecimalAt(c, 4) && c[9] == 'n'
    ensures DigitsIn(c, 0, 3) == 402 && DigitsIn(c, 3, 4) == 3 && FracIn(c, 5, 9) == 0.6174
  {
    assert Pow10(4) == 10000;
  }

  /** "4023.6174n": the lower-case letter is not 'N', so three degree digits are read and nothing is negated. */
  lemma ExampleLowerCaseDirection()
    ensures Decode("4023.6174n") == Some(Round8(402.0 + 3.6174 / 60.0))
  {
    var c := "4023.6174n";
    LowerCaseDigits(c);
    LenientAt(c, 4, 3, 9);
    StrictDmm.RoundedEqual(Decode(c), c[9],
      DigitsIn(c, 0, 3) as real + (DigitsIn(c, 3, 4) as real + FracIn(c, 4 + 1, 9)) / 60.0, 402.0 + 3.6174 / 60.0);
  }

  /** No validation: "abc" is NaN rather than an error, since "ab" has no digits. */
  lemma ExampleLetters()
    ensures Decode("abc") == None
  {
    assert "abc" == "ab" + ['c'];
    SlicesOfLetter("ab", 'c');
    assert "ab"[..2] == "ab" && "ab"[2..] == "";
    DecodeOfSlices("abc", "c", "ab", "");
    assert SignEnd("ab") == 0 && DigitEnd("ab", 0) == 0;
  }
}
