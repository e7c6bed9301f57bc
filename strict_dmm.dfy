/** The page's decoder: trim, upper-case, match `^(\d{2,3})(\d{2}\.\d+)([NSEW])$`,
    then degrees + minutes / 60, negated for S and W, rounded to eight decimals.
    A failed match is JavaScript's NaN, here `None`. */
module StrictDmm {
  import opened Wrappers
  import opened Text
  import opened Numbers
  import opened JsParse

  predicate IsDirection(c: char) { c == 'N' || c == 'S' || c == 'E' || c == 'W' }

  predicate IsNegative(c: char) { c == 'S' || c == 'W' }

  /** `val *= -1` for the negative directions. */
  function Signed(dir: char, v: real): real
  {
    if IsNegative(dir) then -v else v
  }

  /** The three capture groups of a successful match. */
  datatype Groups = Groups(degrees: string, minutes: string, direction: char)

  /** The text of the second group, `\d{2}\.\d+`. */
  predicate IsMinutesGroup(m: string)
  {
    |m| >= 4 && IsDigit(m[0]) && IsDigit(m[1]) && m[2] == '.' && AllDigits(m[3..])
  }

  /** `(\d{w})(\d{2}\.\d+)([NSEW])$` matched at the start of `c`, for a degree width `w`. */
  predicate MatchesWith(c: string, w: nat)
  {
    && |c| >= w + 5
    && AllDigits(c[..w + 2])
    && c[w + 2] == '.'
    && AllDigits(c[w + 3..|c| - 1])
    && IsDirection(c[|c| - 1])
  }

  function GroupsAt(c: string, w: nat): (g: Groups)
    requires MatchesWith(c, w)
    ensures g.degrees == c[..w] && g.minutes == c[w..|c| - 1] && g.direction == c[|c| - 1]
    ensures |g.degrees| == w && AllDigits(g.degrees)
    ensures IsMinutesGroup(g.minutes) && IsDirection(g.direction)
  {
    var g := Groups(c[..w], c[w..|c| - 1], c[|c| - 1]);
    assert c[..w] == c[..w + 2][..w];
    assert g.minutes[0] == c[..w + 2][w] && g.minutes[1] == c[..w + 2][w + 1];
    assert g.minutes[3..] == c[w + 3..|c| - 1];
    g
  }

  /** `RegExp.prototype.exec`: the greedy `\d{2,3}` tries three digits first and backtracks to two. */
  function Exec(c: string): (m: Option<Groups>)
    ensures m.Some? ==>
      && var w := |m.value.degrees|;
      && (w == 2 || w == 3) && w + 5 <= |c| && AllDigits(m.value.degrees)
      && m.value.degrees == c[..w] && m.value.minutes == c[w..|c| - 1] && m.value.direction == c[|c| - 1]
      && IsMinutesGroup(m.value.minutes) && IsDirection(m.value.direction)
  {
    if MatchesWith(c, 3) then Some(GroupsAt(c, 3))
    else if MatchesWith(c, 2) then Some(GroupsAt(c, 2))
    else None
  }

  /** The accepted language stated without the regex: an integer part of four or five
      digits, a point, at least one digit, and one direction letter at the very end. */
  predicate WellFormed(c: string)
  {
    var k := DigitEnd(c, 0);
    && (k == 4 || k == 5)
    && k + 3 <= |c|
    && c[k] == '.'
    && AllDigits(c[k + 1..|c| - 1])
    && IsDirection(c[|c| - 1])
  }

  lemma MatchFixesIntegerPart(c: string, w: nat)
    requires MatchesWith(c, w)
    ensures DigitEnd(c, 0) == w + 2
  {
    MatchPositions(c, w);
    DigitEndExact(c, 0, w + 2);
  }

  /** The regex accepts exactly the well-formed strings, and its groups split the integer
      part so that the minutes always take its last two digits. */
  lemma ExecIffWellFormed(c: string)
    ensures Exec(c).Some? <==> WellFormed(c)
    ensures Exec(c).Some? ==>
      var k := DigitEnd(c, 0);
      Exec(c) == Some(Groups(c[..k - 2], c[k - 2..|c| - 1], c[|c| - 1]))
  {
    if MatchesWith(c, 3) {
      MatchFixesIntegerPart(c, 3);
    } else if MatchesWith(c, 2) {
      MatchFixesIntegerPart(c, 2);
    } else if WellFormed(c) {
      var k := DigitEnd(c, 0);
      DigitEndStops(c, 0);
      assert forall j | 0 <= j < k :: c[..k][j] == c[j];
      assert MatchesWith(c, k - 2);
      assert false;
    }
  }

  /** Building a string from its parts and matching it gives back the parts. */
  lemma ExecOfParts(intPart: string, frac: string, dir: char)
    requires (|intPart| == 4 || |intPart| == 5) && AllDigits(intPart)
    requires |frac| >= 1 && AllDigits(frac)
    requires IsDirection(dir)
    ensures var k := |intPart|;
      Exec(intPart + "." + frac + [dir]) == Some(Groups(intPart[..k - 2], intPart[k - 2..] + "." + frac, dir))
  {
    var c := intPart + "." + frac + [dir];
    var k := |intPart|;
    assert forall j | 0 <= j < k :: c[j] == intPart[j];
    DigitEndExact(c, 0, k);
    assert c[k + 1..|c| - 1] == frac;
    ExecIffWellFormed(c);
    assert c[..k - 2] == intPart[..k - 2];
    assert c[k - 2..|c| - 1] == intPart[k - 2..] + "." + frac;
  }

  /** `parseFloat` of the minutes group: two integer digits and the fraction. */
  function MinutesValue(m: string): (v: real)
    requires IsMinutesGroup(m)
    ensures 0.0 <= v < 100.0
  {
    DigitsValueBound(m[..2]);
    DigitsValue(m[..2]) as real + FracValue(m[3..])
  }

  /** degrees + minutes / 60, before the direction's sign. */
  function Magnitude(g: Groups): real
    requires AllDigits(g.degrees) && IsMinutesGroup(g.minutes)
  {
    DigitsValue(g.degrees) as real + MinutesValue(g.minutes) / 60.0
  }

  /** Matching and arithmetic on the already trimmed and upper-cased text. */
  function DecodeNormalized(c: string): Option<real>
  {
    match Exec(c)
    case None => None
    case Some(g) =>
      Some(Round8(Signed(g.direction, Magnitude(g))))
  }

  /** A string of `k` integer digits, a point, at least one more digit and one final character,
      described by positions. */
  predicate DecimalAt(c: string, k: nat)
  {
    && k + 3 <= |c|
    && (forall j | 0 <= j < k :: IsDigit(c[j]))
    && c[k] == '.'
    && (forall j | k < j < |c| - 1 :: IsDigit(c[j]))
  }

  lemma MatchPositions(c: string, w: nat)
    requires MatchesWith(c, w)
    ensures DecimalAt(c, w + 2)
  {
    assert forall j | 0 <= j < w + 2 :: c[j] == c[..w + 2][j];
    assert forall j | w + 2 < j < |c| - 1 :: c[j] == c[w + 3..|c| - 1][j - w - 3];
  }

  /** A successful match, by positions: the groups are the first `w` characters, the rest
      up to the last character, and the last character. */
  lemma ExecAt(c: string)
    requires Exec(c).Some?
    ensures var g := Exec(c).value; var w := |g.degrees|;
      && (w == 2 || w == 3) && MatchesWith(c, w) && DecimalAt(c, w + 2)
      && g == Groups(c[..w], c[w..|c| - 1], c[|c| - 1])
  {
    var w := |Exec(c).value.degrees|;
    MatchPositions(c, w);
  }

  /** The page reads its groups with `parseInt` and `parseFloat`; on matched groups these give
      exactly the degree and minute values used here. */
  lemma GroupsParse(c: string)
    requires Exec(c).Some?
    ensures var g := Exec(c).value;
      && ParseInt(g.degrees) == Some(DigitsValue(g.degrees) as int)
      && ParseFloat(g.minutes) == Some(MinutesValue(g.minutes))
  {
    var g := Exec(c).value;
    ParseIntOfDigits(g.degrees);
    MinutesParse(g.minutes);
  }

  lemma MinutesParse(m: string)
    requires IsMinutesGroup(m)
    ensures ParseFloat(m) == Some(MinutesValue(m))
  {
    assert m == m[..2] + "." + m[3..];
    ParseFloatOfDecimal(m, m[..2], m[3..]);
  }

  /** degrees + minutes / 60 of a match, read off the positions of `c`. */
  lemma MagnitudeAt(c: string, w: nat)
    requires MatchesWith(c, w)
    ensures Magnitude(GroupsAt(c, w))
      == DigitsIn(c, 0, w) as real + (DigitsIn(c, w, w + 2) as real + FracIn(c, w + 3, |c| - 1)) / 60.0
  {
    var n, g := |c| - 1, GroupsAt(c, w);
    assert g.minutes[..2] == c[w..w + 2] && g.minutes[3..] == c[w + 3..n];
    DigitsInValue(c, 0, w);
    DigitsInValue(c, w, w + 2);
    DigitsInValue(c, w + 3, n);
    MagnitudeOfParts(g, DigitsIn(c, 0, w), DigitsIn(c, w, w + 2), FracIn(c, w + 3, n));
  }

  lemma MagnitudeOfParts(g: Groups, d: nat, m: nat, f: real)
    requires AllDigits(g.degrees) && IsMinutesGroup(g.minutes)
    requires DigitsValue(g.degrees) == d && DigitsValue(g.minutes[..2]) == m && FracValue(g.minutes[3..]) == f
    ensures Magnitude(g) == d as real + (m as real + f) / 60.0
  {
  }

  lemma MatchedValue(c: string)
    requires Exec(c).Some?
    ensures var g := Exec(c).value; DecodeNormalized(c) == Some(Round8(Signed(g.direction, Magnitude(g))))
  {
  }

  /** The page's value for a matched string, read off the positions of `c`: degree digits
      before `w`, minute digits from `w` to the point at `k`, fraction digits up to the letter at `n`. */
  lemma ValueAt(c: string, w: nat, k: nat, n: nat)
    requires Exec(c).Some? && w == |Exec(c).value.degrees| && k == w + 2 && n + 1 == |c|
    ensures k + 1 <= n
    ensures DecodeNormalized(c) == Some(Round8(Signed(c[n],
      DigitsIn(c, 0, w) as real + (DigitsIn(c, w, k) as real + FracIn(c, k + 1, n)) / 60.0)))
  {
    ExecAt(c);
    var g := Exec(c).value;
    assert g == GroupsAt(c, w);
    MatchedValue(c);
    MagnitudeAt(c, w);
    RoundedEqual(DecodeNormalized(c), g.direction, Magnitude(g),
      DigitsIn(c, 0, w) as real + (DigitsIn(c, w, w + 2) as real + FracIn(c, w + 3, |c| - 1)) / 60.0);
  }

  /** Replaces one real by an equal one under the rounding; the solver does not always do this itself. */
  lemma RoundedEqual(r: Option<real>, d: char, a: real, b: real)
    requires a == b && r == Some(Round8(Signed(d, a)))
    ensures r == Some(Round8(Signed(d, b)))
  {
  }

  /** `dmmToDecimal` of `my-app/src/app/page.tsx`. */
  function Decode(coord: string): Option<real>
  {
    DecodeNormalized(ToUpper(Trim(coord)))
  }

  /** A string decodes to a number exactly when, after trimming and upper-casing, it is well formed;
      otherwise the result is NaN. */
  lemma DecodeAcceptsExactly(coord: string)
    ensures Decode(coord).Some? <==> WellFormed(ToUpper(Trim(coord)))
  {
    ExecIffWellFormed(ToUpper(Trim(coord)));
  }

  /** A matched string is already trimmed and upper-case, so decoding it matches it directly. */
  lemma CanonicalInput(c: string)
    requires Exec(c).Some?
    ensures ToUpper(Trim(c)) == c
  {
    ExecAt(c);
    TrimUnchanged(c);
    ToUpperUnchanged(c);
  }

  /** The result is the rounded magnitude, negated exactly for S and W; N and E are never negative,
      S and W never positive. */
  lemma DecodeSign(coord: string)
    requires Exec(ToUpper(Trim(coord))).Some?
    ensures var g := Exec(ToUpper(Trim(coord))).value;
      && Decode(coord).Some?
      && (IsNegative(g.direction) ==> Decode(coord).value == -Round8(Magnitude(g)) <= 0.0)
      && (!IsNegative(g.direction) ==> Decode(coord).value == Round8(Magnitude(g)) >= 0.0)
  {
    var g := Exec(ToUpper(Trim(coord))).value;
    Round8Negate(Magnitude(g));
  }

  /** The degrees are not range checked: any accepted value lies within 10^d + 2 of zero, d the number of degree digits. */
  lemma DecodeBound(coord: string)
    requires Exec(ToUpper(Trim(coord))).Some?
    ensures var g := Exec(ToUpper(Trim(coord))).value;
      var bound := (Pow10(|g.degrees|) + 2) as real;
      -bound < Decode(coord).value < bound
  {
    var g := Exec(ToUpper(Trim(coord))).value;
    DigitsValueBound(g.degrees);
  }

  /** Case does not matter: lower-case direction letters decode like upper-case ones. */
  lemma DecodeIgnoresCase(coord: string)
    ensures Decode(ToUpper(coord)) == Decode(coord)
  {
    TrimUpperCommute(coord);
    ToUpperIdempotent(Trim(coord));
  }

  /** White space of any length around the input does not matter. */
  lemma DecodeIgnoresSurroundingSpace(pre: string, coord: string, post: string)
    requires AllSpace(pre) && AllSpace(post)
    ensures Decode(pre + coord + post) == Decode(coord)
  {
    TrimOfSurrounding(pre, coord, post);
  }

  /** Input without surrounding white space or lower-case letters is decoded as it stands. */
  lemma AlreadyNormalized(c: string)
    requires c != [] ==> !IsSpace(c[0]) && !IsSpace(c[|c| - 1])
    requires NoLowerCase(c)
    ensures Decode(c) == DecodeNormalized(c)
  {
    TrimUnchanged(c);
    ToUpperUnchanged(c);
  }

  /** A string whose last character is neither white space nor a direction letter of either
      case is never decoded, whatever comes before it. */
  lemma RejectsLastCharacter(c: string)
    requires c != [] && !IsSpace(c[|c| - 1]) && !IsDirection(UpperChar(c[|c| - 1]))
    ensures Decode(c) == None
  {
    TrimKeepsLast(c);
    var u := ToUpper(Trim(c));
    assert u[|u| - 1] == UpperChar(c[|c| - 1]);
  }

  lemma MinutesExample()
    ensures MinutesValue("23.6174") == 23.6174
  {
    assert "23.6174"[..2] == "23" && "23.6174"[3..] == "6174";
    assert "6174"[..3] == "617" && "617"[..2] == "61" && "61"[..1] == "6";
    assert "23"[..1] == "2";
    assert DigitsValue("6174") == 6174;
    assert Pow10(4) == 10000;
  }

  lemma ExecLatitudeExample()
    ensures Exec("4023.6174N") == Some(Groups("40", "23.6174", 'N'))
  {
    var c := "4023.6174N";
    assert c[..5] == "4023." && !IsDigit(c[..5][4]);
    assert !MatchesWith(c, 3);
    assert c[..4] == "4023" && c[5..9] == "6174";
    assert MatchesWith(c, 2);
    assert c[..2] == "40" && c[2..9] == "23.6174";
  }

  lemma DecodeMatched(c: string)
    requires Exec(c).Some?
    ensures Decode(c) == DecodeNormalized(c)
  {
    CanonicalInput(c);
  }

  lemma ValueLatitudeExample()
    ensures DecodeNormalized("4023.6174N") == Some(40.39362333)
  {
    ExecLatitudeExample();
    MinutesExample();
    assert "40"[..1] == "4";
    assert Magnitude(Groups("40", "23.6174", 'N')) == 40.0 + 23.6174 / 60.0;
  }

  /** "4023.6174N": degrees 40, minutes 23.6174. */
  lemma ExampleLatitude()
    ensures Exec("4023.6174N") == Some(Groups("40", "23.6174", 'N'))
    ensures Decode("4023.6174N") == Some(40.39362333)
  {
    ExecLatitudeExample();
    ValueLatitudeExample();
    DecodeMatched("4023.6174N");
  }

  lemma ExecLongitudeExample()
    ensures Exec("07923.6174W") == Some(Groups("079", "23.6174", 'W'))
  {
    var c := "07923.6174W";
    assert c[..5] == "07923" && c[6..10] == "6174";
    assert MatchesWith(c, 3);
    assert c[..3] == "079" && c[3..10] == "23.6174";
  }

  lemma ValueLongitudeExample()
    ensures DecodeNormalized("07923.6174W") == Some(-79.39362333)
  {
    ExecLongitudeExample();
    MinutesExample();
    assert "079"[..2] == "07" && "07"[..1] == "0";
    assert Magnitude(Groups("079", "23.6174", 'W')) == 79.0 + 23.6174 / 60.0;
    RoundingLongitudeExample();
  }

  lemma RoundingLongitudeExample()
    ensures Round8(-(79.0 + 23.6174 / 60.0)) == -79.39362333
  {
  }

  /** "07923.6174W": degrees 79, minutes 23.6174, negated for W. */
  lemma ExampleLongitude()
    ensures Exec("07923.6174W") == Some(Groups("079", "23.6174", 'W'))
    ensures Decode("07923.6174W") == Some(-79.39362333)
  {
    ExecLongitudeExample();
    ValueLongitudeExample();
    DecodeMatched("07923.6174W");
  }

  lemma UpperExample()
    ensures ToUpper("4023.6174n") == "4023.6174N"
  {
    var body := "4023.6174";
    assert "4023.6174n" == body + ['n'] && "4023.6174N" == body + ['N'];
    ToUpperAppend(body, 'n');
    ToUpperUnchanged(body);
  }

  /** A lower-case direction letter is accepted. */
  lemma ExampleLowerCase()
    ensures Decode("4023.6174n") == Some(40.39362333)
  {
    DecodeIgnoresCase("4023.6174n");
    UpperExample();
    ExampleLatitude();
  }

  lemma ExecMinutesOverflowExample()
    ensures Exec("4075.0N") == Some(Groups("40", "75.0", 'N'))
  {
    var c := "4075.0N";
    assert c[..5] == "4075." && !IsDigit(c[..5][4]);
    assert !MatchesWith(c, 3);
    assert c[..4] == "4075" && c[5..6] == "0";
    assert MatchesWith(c, 2);
    assert c[..2] == "40" && c[2..6] == "75.0";
  }

  lemma ValueMinutesOverflowExample()
    ensures DecodeNormalized("4075.0N") == Some(41.25)
  {
    ExecMinutesOverflowExample();
    assert "75.0"[..2] == "75" && "75.0"[3..] == "0" && "75"[..1] == "7" && "40"[..1] == "4";
    assert MinutesValue("75.0") == 75.0;
    assert Magnitude(Groups("40", "75.0", 'N')) == 40.0 + 75.0 / 60.0;
  }

  /** Minutes of 60 or more are not rejected: "4075.0N" is 41.25. */
  lemma ExampleMinutesNotRangeChecked()
    ensures Decode("4075.0N") == Some(41.25)
  {
    ExecMinutesOverflowExample();
    ValueMinutesOverflowExample();
    DecodeMatched("4075.0N");
  }

  /** Malformed strings decode to NaN, never to a silent 0: no digits, no fraction, a bad letter. */
  lemma ExampleRejectedLetters()
    ensures Decode("abc") == None
  {
    TrimUnchanged("abc");
    assert ToUpper("abc") == "ABC";
  }

  lemma ExampleRejectedNoFraction()
    ensures Decode("4023N") == None
  {
    AlreadyNormalized("4023N");
  }

  lemma ExampleRejectedDirection()
    ensures Decode("4023.6174X") == None
  {
    RejectsLastCharacter("4023.6174X");
  }
}
