/** The lenient number readers of ECMAScript, on ASCII text: `parseInt` with no radix
    (section 19.2.5 of ECMA-262) and `parseFloat` (section 19.2.4). Both skip leading white
    space and read the longest numeric prefix; no prefix at all is NaN, here `None`.
    `None` also stands for the infinities `parseFloat` can read. The scanners walk the
    string by index, so a reading is described by positions in the input. */
module JsParse {
  import opened Wrappers
  import opened Text
  import opened Numbers

  predicate IsHexDigit(c: char) { IsDigit(c) || 'a' <= c <= 'f' || 'A' <= c <= 'F' }

  function HexDigitValue(c: char): (d: nat)
    ensures d < 16
  {
    if IsDigit(c) then DigitValue(c)
    else if 'a' <= c <= 'f' then c as int - 'a' as int + 10
    else if 'A' <= c <= 'F' then c as int - 'A' as int + 10
    else 0
  }

  /** The first position at or after `i` that does not hold white space. */
  function SkipSpace(s: string, i: nat): (j: nat)
    requires i <= |s|
    ensures i <= j <= |s|
    decreases |s| - i
  {
    if i < |s| && IsSpace(s[i]) then SkipSpace(s, i + 1) else i
  }

  /** The end of the run of hexadecimal digits that starts at `i`. */
  function HexEnd(s: string, i: nat): (j: nat)
    requires i <= |s|
    ensures i <= j <= |s|
    decreases |s| - i
  {
    if i < |s| && IsHexDigit(s[i]) then HexEnd(s, i + 1) else i
  }

  /** The value of the decimal digits in positions `lo` to `hi` (exclusive). */
  function DigitsIn(s: string, lo: nat, hi: nat): nat
    requires lo <= hi <= |s|
    decreases hi - lo
  {
    if hi == lo then 0
    else DigitsIn(s, lo, hi - 1) * 10 + (if IsDigit(s[hi - 1]) then DigitValue(s[hi - 1]) else 0)
  }

  /** The digits in positions `lo` to `hi` read after a decimal point. */
  function FracIn(s: string, lo: nat, hi: nat): real
    requires lo <= hi <= |s|
  {
    DigitsIn(s, lo, hi) as real / Pow10(hi - lo) as real
  }

  /** The value of the hexadecimal digits in positions `lo` to `hi` (exclusive). */
  function HexIn(s: string, lo: nat, hi: nat): nat
    requires lo <= hi <= |s|
    decreases hi - lo
  {
    if hi == lo then 0 else HexIn(s, lo, hi - 1) * 16 + HexDigitValue(s[hi - 1])
  }

  /** Where the number proper starts: after white space and one optional sign. */
  function SignEnd(s: string): (q: nat)
    ensures q <= |s|
  {
    var p := SkipSpace(s, 0);
    if p < |s| && (s[p] == '-' || s[p] == '+') then p + 1 else p
  }

  predicate NegativeSign(s: string)
  {
    var p := SkipSpace(s, 0);
    p < |s| && s[p] == '-'
  }

  /** The unsigned part of `parseInt`, read from position `q`: a "0x" or "0X" prefix switches to base 16. */
  function IntMagnitude(s: string, q: nat): Option<int>
    requires q <= |s|
  {
    if q + 2 <= |s| && s[q] == '0' && (s[q + 1] == 'x' || s[q + 1] == 'X') then
      var h := HexEnd(s, q + 2);
      if h == q + 2 then None else Some(HexIn(s, q + 2, h))
    else
      var k := DigitEnd(s, q);
      if k == q then None else Some(DigitsIn(s, q, k))
  }

  /** `parseInt(s)` with no radix. */
  function ParseInt(s: string): Option<int>
  {
    match IntMagnitude(s, SignEnd(s))
    case None => None
    case Some(m) => Some(if NegativeSign(s) then -m else m)
  }

  /** The exponent of an `e`/`E` suffix starting at `i`; 0 when there is none or it has no digits. */
  function ExponentAt(s: string, i: nat): int
    requires i <= |s|
  {
    if i + 1 < |s| && (s[i] == 'e' || s[i] == 'E') then
      var r := if s[i + 1] == '-' || s[i + 1] == '+' then i + 2 else i + 1;
      var e: int := DigitsIn(s, r, DigitEnd(s, r));
      if s[i + 1] == '-' then -e else e
    else 0
  }

  predicate InfinityAt(s: string, q: nat)
    requires q <= |s|
  {
    && q + 8 <= |s|
    && s[q] == 'I' && s[q + 1] == 'n' && s[q + 2] == 'f' && s[q + 3] == 'i'
    && s[q + 4] == 'n' && s[q + 5] == 'i' && s[q + 6] == 't' && s[q + 7] == 'y'
  }

  /** What the scan of `parseFloat` finds: the value of the integer digits, the value and
      the number of the fraction digits, and the exponent. */
  datatype FloatParts = FloatParts(whole: nat, frac: nat, fracLength: nat, exponent: int)

  function PartsValue(p: FloatParts): real
  {
    Scale10(p.whole as real + p.frac as real / Pow10(p.fracLength) as real, p.exponent)
  }

  /** The scan of the unsigned part of `parseFloat` from position `q`. */
  function FloatScan(s: string, q: nat): Option<FloatParts>
    requires q <= |s|
  {
    if InfinityAt(s, q) then None
    else
      var i := DigitEnd(s, q);
      var point := i < |s| && s[i] == '.';
      var lo := if point then i + 1 else i;
      var hi := DigitEnd(s, lo);
      if i == q && hi == lo then None
      else Some(FloatParts(DigitsIn(s, q, i), DigitsIn(s, lo, hi), hi - lo, ExponentAt(s, hi)))
  }

  /** The unsigned part of `parseFloat`, read from position `q`. */
  function FloatMagnitude(s: string, q: nat): Option<real>
    requires q <= |s|
  {
    match FloatScan(s, q)
    case None => None
    case Some(p) => Some(PartsValue(p))
  }

  /** `parseFloat(s)`: digits, an optional fraction and an optional exponent; "Infinity" is not finite. */
  function ParseFloat(s: string): Option<real>
  {
    match FloatMagnitude(s, SignEnd(s))
    case None => None
    case Some(m) => Some(if NegativeSign(s) then -m else m)
  }

  /** On digits, the value read in place is the value of the slice. */
  lemma {:induction false} DigitsInValue(s: string, lo: nat, hi: nat)
    requires lo <= hi <= |s| && AllDigits(s[lo..hi])
    ensures DigitsIn(s, lo, hi) == DigitsValue(s[lo..hi])
    decreases hi - lo
  {
    if lo < hi {
      assert s[lo..hi][..hi - lo - 1] == s[lo..hi - 1];
      assert s[lo..hi][hi - lo - 1] == s[hi - 1];
      DigitsInValue(s, lo, hi - 1);
    }
  }

  /** Reading digits inside a slice is reading them in place, shifted by the slice's start. */
  lemma {:induction false} DigitsInShift(s: string, a: nat, b: nat, i: nat, j: nat, u: nat, v: nat)
    requires a <= b <= |s| && i <= j <= b - a && u == a + i && v == a + j
    ensures DigitsIn(s[a..b], i, j) == DigitsIn(s, u, v)
    decreases j - i
  {
    if i < j {
      assert s[a..b][j - 1] == s[v - 1];
      DigitsInShift(s, a, b, i, j - 1, u, v - 1);
    }
  }

  /** A digit run read in two parts: the leading part is scaled by the length of the rest. */
  lemma {:induction false} DigitsInSplit(s: string, lo: nat, mid: nat, hi: nat)
    requires lo <= mid <= hi <= |s|
    ensures DigitsIn(s, lo, hi) == DigitsIn(s, lo, mid) * Pow10(hi - mid) + DigitsIn(s, mid, hi)
    decreases hi - mid
  {
    if mid < hi {
      DigitsInSplit(s, lo, mid, hi - 1);
      var a, r := DigitsIn(s, lo, mid), DigitsIn(s, mid, hi - 1);
      var d := if IsDigit(s[hi - 1]) then DigitValue(s[hi - 1]) else 0;
      var p := Pow10(hi - 1 - mid);
      assert Pow10(hi - mid) == 10 * p;
      ShiftDigit(a, p, r, d);
    }
  }

  /** A single digit reads as its value. */
  lemma DigitsInOne(s: string, i: nat, j: nat)
    requires i < |s| && IsDigit(s[i]) && j == i + 1
    ensures DigitsIn(s, i, j) == DigitValue(s[i])
  {
  }

  /** A string that starts with a digit has no white space, sign or "Infinity" in front. */
  lemma StartsWithDigit(s: string)
    requires s != [] && IsDigit(s[0])
    ensures SkipSpace(s, 0) == 0 && SignEnd(s) == 0 && !NegativeSign(s) && !InfinityAt(s, 0)
  {
  }

  /** On a plain run of decimal digits `parseInt` gives its value. */
  lemma ParseIntOfDigits(a: string)
    requires a != [] && AllDigits(a)
    ensures ParseInt(a) == Some(DigitsValue(a) as int)
  {
    StartsWithDigit(a);
    DigitEndExact(a, 0, |a|);
    assert a[0..|a|] == a;
    DigitsInValue(a, 0, |a|);
  }

  /** On "digits.digits" `parseFloat` gives integer part plus fraction. */
  lemma ParseFloatOfDecimal(s: string, a: string, f: string)
    requires a != [] && AllDigits(a) && AllDigits(f) && s == a + "." + f
    ensures ParseFloat(s) == Some(DigitsValue(a) as real + FracValue(f))
  {
    var i := |a|;
    DecimalParts(s, a, f, i);
    ParseFloatAt(s, i);
    SomeSum(ParseFloat(s), DigitsIn(s, 0, i), FracIn(s, i + 1, |s|), DigitsValue(a), FracValue(f));
  }

  /** "digits.digits" built from its parts, described by the position of the point. */
  lemma DecimalParts(s: string, a: string, f: string, i: nat)
    requires a != [] && AllDigits(a) && AllDigits(f) && s == a + "." + f && i == |a|
    ensures 0 < i < |s| && s[i] == '.'
    ensures forall j | 0 <= j < i :: IsDigit(s[j])
    ensures forall j | i < j < |s| :: IsDigit(s[j])
    ensures DigitsIn(s, 0, i) == DigitsValue(a)
    ensures FracIn(s, i + 1, |s|) == FracValue(f)
  {
    assert forall j | 0 <= j < i :: s[j] == a[j];
    assert forall j | i < j < |s| :: s[j] == f[j - i - 1];
    assert s[0..i] == a && s[i + 1..|s|] == f;
    DigitsInValue(s, 0, i);
    FracInValue(s, i + 1, |s|, f);
  }

  lemma FracInValue(s: string, lo: nat, hi: nat, f: string)
    requires lo <= hi <= |s| && f == s[lo..hi] && AllDigits(f)
    ensures FracIn(s, lo, hi) == FracValue(f)
  {
    DigitsInValue(s, lo, hi);
    assert hi - lo == |f|;
  }

  /** `parseInt` of a slice made of digits is the value of those digits. */
  lemma ParseIntIn(s: string, lo: nat, hi: nat)
    requires lo < hi <= |s|
    requires forall j | lo <= j < hi :: IsDigit(s[j])
    ensures ParseInt(s[lo..hi]) == Some(DigitsIn(s, lo, hi) as int)
  {
    var t := s[lo..hi];
    assert t[0] == s[lo];
    StartsWithDigit(t);
    DigitEndExact(t, 0, |t|);
    DigitsInShift(s, lo, hi, 0, |t|, lo, hi);
  }

  /** `parseFloat` of "digits.digits", stated by the position of the point. */
  lemma ParseFloatAt(t: string, i: nat)
    requires 0 < i < |t|
    requires forall j | 0 <= j < i :: IsDigit(t[j])
    requires t[i] == '.'
    requires forall j | i < j < |t| :: IsDigit(t[j])
    ensures ParseFloat(t) == Some(DigitsIn(t, 0, i) as real + FracIn(t, i + 1, |t|))
  {
    StartsWithDigit(t);
    FloatMagnitudeAt(t, i);
  }

  lemma FloatMagnitudeAt(t: string, i: nat)
    requires 0 < i < |t|
    requires forall j | 0 <= j < i :: IsDigit(t[j])
    requires t[i] == '.'
    requires forall j | i < j < |t| :: IsDigit(t[j])
    ensures FloatMagnitude(t, 0) == Some(DigitsIn(t, 0, i) as real + FracIn(t, i + 1, |t|))
  {
    DigitEndExact(t, 0, i);
    DigitEndExact(t, i + 1, |t|);
    var x := DigitsIn(t, 0, i) as real + FracIn(t, i + 1, |t|);
    assert ExponentAt(t, |t|) == 0;
    var p := FloatParts(DigitsIn(t, 0, i), DigitsIn(t, i + 1, |t|), |t| - (i + 1), 0);
    assert FloatScan(t, 0) == Some(p);
    assert PartsValue(p) == Scale10(x, 0) == x;
  }

  /** `parseFloat` of a slice "digits.digits" is integer part plus fraction, read in place. */
  lemma ParseFloatIn(s: string, lo: nat, p: nat, hi: nat)
    requires lo < p < hi <= |s|
    requires forall j | lo <= j < p :: IsDigit(s[j])
    requires s[p] == '.'
    requires forall j | p < j < hi :: IsDigit(s[j])
    ensures ParseFloat(s[lo..hi]) == Some(DigitsIn(s, lo, p) as real + FracIn(s, p + 1, hi))
  {
    var t, i := s[lo..hi], p - lo;
    SliceDecimal(s, lo, p, hi, t, i);
    ParseFloatAt(t, i);
    SomeSum(ParseFloat(t), DigitsIn(t, 0, i), FracIn(t, i + 1, |t|), DigitsIn(s, lo, p), FracIn(s, p + 1, hi));
  }

  /** The slice holds "digits.digits" with the point at `i`, and reads as the digits in place. */
  lemma SliceDecimal(s: string, lo: nat, p: nat, hi: nat, t: string, i: nat)
    requires lo < p < hi <= |s|
    requires forall j | lo <= j < p :: IsDigit(s[j])
    requires s[p] == '.'
    requires forall j | p < j < hi :: IsDigit(s[j])
    requires t == s[lo..hi] && i == p - lo
    ensures 0 < i < |t| && t[i] == '.'
    ensures forall j | 0 <= j < i :: IsDigit(t[j])
    ensures forall j | i < j < |t| :: IsDigit(t[j])
    ensures DigitsIn(t, 0, i) == DigitsIn(s, lo, p)
    ensures FracIn(t, i + 1, |t|) == FracIn(s, p + 1, hi)
  {
    assert forall j | 0 <= j < |t| :: t[j] == s[lo + j];
    DigitsInShift(s, lo, hi, 0, i, lo, p);
    DigitsInShift(s, lo, hi, i + 1, |t|, p + 1, hi);
    FracInEqual(t, i + 1, |t|, s, p + 1, hi);
  }

  lemma FracInEqual(s: string, lo: nat, hi: nat, s': string, lo': nat, hi': nat)
    requires lo <= hi <= |s| && lo' <= hi' <= |s'|
    requires hi - lo == hi' - lo' && DigitsIn(s, lo, hi) == DigitsIn(s', lo', hi')
    ensures FracIn(s, lo, hi) == FracIn(s', lo', hi')
  {
  }

  lemma SomeSum(r: Option<real>, a: nat, f: real, a': nat, f': real)
    requires r == Some(a as real + f) && a == a' && f == f'
    ensures r == Some(a' as real + f')
  {
  }

  /* Reading a suffix of a string is reading the string in place, from where the suffix starts. */

  lemma {:induction false} SkipSpaceShift(t: string, a: nat, i: nat)
    requires a <= i <= |t|
    ensures SkipSpace(t, i) == SkipSpace(t[a..], i - a) + a
    decreases |t| - i
  {
    if i < |t| {
      assert t[a..][i - a] == t[i];
      if IsSpace(t[i]) {
        SkipSpaceShift(t, a, i + 1);
      }
    }
  }

  lemma {:induction false} DigitEndShift(t: string, a: nat, i: nat)
    requires a <= i <= |t|
    ensures DigitEnd(t, i) == DigitEnd(t[a..], i - a) + a
    decreases |t| - i
  {
    if i < |t| {
      assert t[a..][i - a] == t[i];
      if IsDigit(t[i]) {
        DigitEndShift(t, a, i + 1);
      }
    }
  }

  lemma {:induction false} HexEndShift(t: string, a: nat, i: nat)
    requires a <= i <= |t|
    ensures HexEnd(t, i) == HexEnd(t[a..], i - a) + a
    decreases |t| - i
  {
    if i < |t| {
      assert t[a..][i - a] == t[i];
      if IsHexDigit(t[i]) {
        HexEndShift(t, a, i + 1);
      }
    }
  }

  lemma {:induction false} HexInShift(t: string, a: nat, i: nat, j: nat)
    requires a <= i <= j <= |t|
    ensures HexIn(t, i, j) == HexIn(t[a..], i - a, j - a)
    decreases j - i
  {
    if i < j {
      assert t[a..][j - 1 - a] == t[j - 1];
      HexInShift(t, a, i, j - 1);
    }
  }

  lemma DigitsInSuffix(t: string, a: nat, i: nat, j: nat)
    requires a <= i <= j <= |t|
    ensures DigitsIn(t, i, j) == DigitsIn(t[a..], i - a, j - a)
  {
    assert t[a..] == t[a..|t|];
    DigitsInShift(t, a, |t|, i - a, j - a, i, j);
  }

  lemma ExponentAtShift(t: string, a: nat, i: nat)
    requires a <= i <= |t|
    ensures ExponentAt(t, i) == ExponentAt(t[a..], i - a)
  {
    if i + 1 < |t| {
      assert t[a..][i - a] == t[i] && t[a..][i + 1 - a] == t[i + 1];
      var r := if t[i + 1] == '-' || t[i + 1] == '+' then i + 2 else i + 1;
      DigitEndShift(t, a, r);
      DigitsInSuffix(t, a, r, DigitEnd(t, r));
    }
  }

  lemma InfinityAtShift(t: string, a: nat, q: nat)
    requires a <= q <= |t|
    ensures InfinityAt(t, q) == InfinityAt(t[a..], q - a)
  {
    if q + 8 <= |t| {
      var s := t[a..];
      assert s[q - a..q - a + 8] == t[q..q + 8];
    }
  }

  lemma FloatScanShift(t: string, a: nat, q: nat)
    requires a <= q <= |t|
    ensures FloatScan(t, q) == FloatScan(t[a..], q - a)
  {
    var s := t[a..];
    InfinityAtShift(t, a, q);
    DigitEndShift(t, a, q);
    var i := DigitEnd(t, q);
    if i < |t| {
      assert s[i - a] == t[i];
    }
    var lo := if i < |t| && t[i] == '.' then i + 1 else i;
    DigitEndShift(t, a, lo);
    var hi := DigitEnd(t, lo);
    DigitsInSuffix(t, a, q, i);
    DigitsInSuffix(t, a, lo, hi);
    ExponentAtShift(t, a, hi);
  }

  lemma FloatMagnitudeShift(t: string, a: nat, q: nat)
    requires a <= q <= |t|
    ensures FloatMagnitude(t, q) == FloatMagnitude(t[a..], q - a)
  {
    FloatScanShift(t, a, q);
  }

  lemma IntMagnitudeShift(t: string, a: nat, q: nat)
    requires a <= q <= |t|
    ensures IntMagnitude(t, q) == IntMagnitude(t[a..], q - a)
  {
    var s := t[a..];
    assert forall k | q <= k < |t| :: s[k - a] == t[k];
    if q + 2 <= |t| {
      HexEndShift(t, a, q + 2);
      HexInShift(t, a, q + 2, HexEnd(t, q + 2));
    }
    DigitEndShift(t, a, q);
    DigitsInSuffix(t, a, q, DigitEnd(t, q));
  }

  lemma {:induction false} SkipSpaceOver(t: string, i: nat, a: nat)
    requires i <= a <= |t| && forall k | i <= k < a :: IsSpace(t[k])
    ensures SkipSpace(t, i) == SkipSpace(t, a)
    decreases a - i
  {
    if i < a {
      SkipSpaceOver(t, i + 1, a);
    }
  }

  /** White space in front changes where the number starts, and nothing else. */
  lemma SignEndOfSpace(pre: string, s: string)
    requires AllSpace(pre)
    ensures SignEnd(pre + s) == SignEnd(s) + |pre|
    ensures NegativeSign(pre + s) == NegativeSign(s)
  {
    var t, a := pre + s, |pre|;
    assert t[a..] == s;
    assert forall k | 0 <= k < a :: t[k] == pre[k];
    SkipSpaceOver(t, 0, a);
    SkipSpaceShift(t, a, a);
    assert forall k | a <= k < |t| :: t[k] == s[k - a];
  }

  /** `parseFloat` skips leading white space. */
  lemma ParseFloatOfSpace(pre: string, s: string)
    requires AllSpace(pre)
    ensures ParseFloat(pre + s) == ParseFloat(s)
  {
    var t := pre + s;
    assert t[|pre|..] == s;
    SignEndOfSpace(pre, s);
    FloatMagnitudeShift(t, |pre|, SignEnd(t));
  }

  /** `parseInt` skips leading white space. */
  lemma ParseIntOfSpace(pre: string, s: string)
    requires AllSpace(pre)
    ensures ParseInt(pre + s) == ParseInt(s)
  {
    var t := pre + s;
    assert t[|pre|..] == s;
    SignEndOfSpace(pre, s);
    IntMagnitudeShift(t, |pre|, SignEnd(t));
  }

  /** No white space and no sign before the number. */
  predicate UnsignedStart(s: string)
  {
    s == [] || (!IsSpace(s[0]) && s[0] != '-' && s[0] != '+')
  }

  /** A string without leading white space or sign starts its number at once. */
  lemma Unsigned(s: string)
    requires UnsignedStart(s)
    ensures SkipSpace(s, 0) == 0 && SignEnd(s) == 0 && !NegativeSign(s)
  {
  }

  /** A sign in front: "-" negates what `parseFloat` reads after it and "+" changes nothing. */
  lemma ParseFloatOfSign(t: string)
    requires t != [] && (t[0] == '-' || t[0] == '+') && UnsignedStart(t[1..])
    ensures t[0] == '-' ==> ParseFloat(t) == if ParseFloat(t[1..]).Some? then Some(-ParseFloat(t[1..]).value) else None
    ensures t[0] == '+' ==> ParseFloat(t) == ParseFloat(t[1..])
  {
    Unsigned(t[1..]);
    assert SkipSpace(t, 0) == 0;
    assert SignEnd(t) == 1 && NegativeSign(t) == (t[0] == '-');
    FloatMagnitudeShift(t, 1, 1);
  }

  /** A sign in front: "-" negates what `parseInt` reads after it and "+" changes nothing. */
  lemma ParseIntOfSign(t: string)
    requires t != [] && (t[0] == '-' || t[0] == '+') && UnsignedStart(t[1..])
    ensures t[0] == '-' ==> ParseInt(t) == if ParseInt(t[1..]).Some? then Some(-ParseInt(t[1..]).value) else None
    ensures t[0] == '+' ==> ParseInt(t) == ParseInt(t[1..])
  {
    Unsigned(t[1..]);
    assert SkipSpace(t, 0) == 0;
    assert SignEnd(t) == 1 && NegativeSign(t) == (t[0] == '-');
    IntMagnitudeShift(t, 1, 1);
  }

  /** An exponent after "digits.digits" scales the value by that power of ten. */
  lemma ParseFloatWithExponent(t: string, i: nat, hi: nat, r: nat)
    requires 0 < i < hi < |t| - 1
    requires forall j | 0 <= j < i :: IsDigit(t[j])
    requires t[i] == '.'
    requires forall j | i < j < hi :: IsDigit(t[j])
    requires t[hi] == 'e' || t[hi] == 'E'
    requires r == if t[hi + 1] == '-' || t[hi + 1] == '+' then hi + 2 else hi + 1
    requires r < |t| && forall j | r <= j < |t| :: IsDigit(t[j])
    ensures ParseFloat(t) == Some(Scale10(DigitsIn(t, 0, i) as real + FracIn(t, i + 1, hi),
      if t[hi + 1] == '-' then -(DigitsIn(t, r, |t|) as int) else DigitsIn(t, r, |t|)))
  {
    StartsWithDigit(t);
    DigitEndExact(t, 0, i);
    DigitEndExact(t, i + 1, hi);
    ExponentDigits(t, hi, r);
    var p := FloatParts(DigitsIn(t, 0, i), DigitsIn(t, i + 1, hi), hi - (i + 1), ExponentAt(t, hi));
    assert FloatScan(t, 0) == Some(p);
  }

  lemma ExponentDigits(t: string, hi: nat, r: nat)
    requires hi < |t| - 1 && (t[hi] == 'e' || t[hi] == 'E')
    requires r == if t[hi + 1] == '-' || t[hi + 1] == '+' then hi + 2 else hi + 1
    requires r < |t| && forall j | r <= j < |t| :: IsDigit(t[j])
    ensures ExponentAt(t, hi) == if t[hi + 1] == '-' then -(DigitsIn(t, r, |t|) as int) else DigitsIn(t, r, |t|)
  {
    DigitEndExact(t, r, |t|);
  }

  lemma ExponentExample()
    ensures ParseFloat("2.5e3") == Some(2500.0)
    ensures ParseFloat("2.5E-1") == Some(0.25)
  {
    PositiveExponentExample("2.5e3");
    NegativeExponentExample("2.5E-1");
  }

  lemma PositiveExponentExample(s: string)
    requires s == "2.5e3"
    ensures ParseFloat(s) == Some(2500.0)
  {
    ParseFloatWithExponent(s, 1, 3, 4);
    assert DigitsIn(s, 0, 1) == 2 && DigitsIn(s, 2, 3) == 5 && DigitsIn(s, 4, 5) == 3;
    assert FracIn(s, 2, 3) == 0.5;
    assert Scale10(2.5, 3) == 2500.0 by { assert Pow10(3) == 1000; }
  }

  lemma NegativeExponentExample(s: string)
    requires s == "2.5E-1"
    ensures ParseFloat(s) == Some(0.25)
  {
    ParseFloatWithExponent(s, 1, 3, 5);
    assert DigitsIn(s, 0, 1) == 2 && DigitsIn(s, 2, 3) == 5 && DigitsIn(s, 5, 6) == 1;
    assert FracIn(s, 2, 3) == 0.5;
    assert Scale10(2.5, -1) == 0.25 by { assert Pow10(1) == 10; }
  }

  /** "Infinity", with or without a minus sign, is not a finite number. */
  lemma ParseFloatOfInfinity(s: string)
    ensures ParseFloat("Infinity" + s) == None
    ensures ParseFloat("-Infinity" + s) == None
  {
    var p, m := "Infinity" + s, "-Infinity" + s;
    assert SkipSpace(p, 0) == 0 && SkipSpace(m, 0) == 0;
    assert InfinityAt(p, 0) && InfinityAt(m, 1);
  }

  /** `parseInt` reads "0x" and the hexadecimal digits after it in base 16. */
  lemma ParseIntHexExample()
    ensures ParseInt("0x1f") == Some(31)
    ensures ParseInt("-0X1F") == Some(-31)
  {
    var s, m := "0x1f", "-0X1F";
    assert HexEnd(s, 2) == 4 && HexEnd(m, 3) == 5;
  }
}
