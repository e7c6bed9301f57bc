/** ASCII character classes, digit strings and the string operations the
    application uses (trim, upper-casing, decimal rendering of a count). */
module Text {

  predicate IsDigit(c: char) { '0' <= c <= '9' }

  predicate AllSpace(s: string) { forall i | 0 <= i < |s| :: IsSpace(s[i]) }

  /** The ASCII part of ECMAScript's WhiteSpace and LineTerminator: space, tab, LF, VT, FF, CR. */
  predicate IsSpace(c: char) { c == ' ' || ('\t' <= c <= '\r') }

  predicate AllDigits(s: string) { forall i | 0 <= i < |s| :: IsDigit(s[i]) }

  function DigitValue(c: char): (d: nat)
    requires IsDigit(c)
    ensures d < 10
  {
    c as int - '0' as int
  }

  function DigitChar(d: nat): (c: char)
    requires d < 10
    ensures IsDigit(c) && DigitValue(c) == d
  {
    ('0' as int + d) as char
  }

  function Pow10(n: nat): (p: nat)
    ensures p >= 1
  {
    if n == 0 then 1 else 10 * Pow10(n - 1)
  }

  /** The value of a string of decimal digits, most significant first. */
  function DigitsValue(s: string): nat
    requires AllDigits(s)
  {
    if s == [] then 0 else DigitsValue(s[..|s| - 1]) * 10 + DigitValue(s[|s| - 1])
  }

  lemma {:induction false} DigitsValueBound(s: string)
    requires AllDigits(s)
    ensures DigitsValue(s) < Pow10(|s|)
  {
    if s != [] {
      DigitsValueBound(s[..|s| - 1]);
    }
  }

  /** One more digit below a shifted prefix. */
  lemma ShiftDigit(a: int, p: int, r: int, d: int)
    ensures (a * p + r) * 10 + d == a * (10 * p) + (r * 10 + d)
  {
    assert (a * p) * 10 == a * (10 * p);
  }

  lemma DigitsValueOne(c: char)
    requires IsDigit(c)
    ensures DigitsValue([c]) == DigitValue(c)
  {
    assert [c][..0] == [];
  }

  /** The end of the run of decimal digits that starts at position `i`. */
  function DigitEnd(s: string, i: nat): (j: nat)
    requires i <= |s|
    ensures i <= j <= |s|
    decreases |s| - i
  {
    if i < |s| && IsDigit(s[i]) then DigitEnd(s, i + 1) else i
  }

  /** Everything `DigitEnd` passes over is a digit, and it stops at a non-digit or at the end. */
  lemma {:induction false} DigitEndStops(s: string, i: nat)
    requires i <= |s|
    ensures forall j | i <= j < DigitEnd(s, i) :: IsDigit(s[j])
    ensures DigitEnd(s, i) < |s| ==> !IsDigit(s[DigitEnd(s, i)])
    decreases |s| - i
  {
    if i < |s| && IsDigit(s[i]) {
      DigitEndStops(s, i + 1);
    }
  }

  /** A run of digits that stops at a non-digit or at the end is the run `DigitEnd` finds. */
  lemma {:induction false} DigitEndExact(s: string, i: nat, j: nat)
    requires i <= j <= |s|
    requires forall k | i <= k < j :: IsDigit(s[k])
    requires j < |s| ==> !IsDigit(s[j])
    ensures DigitEnd(s, i) == j
    decreases j - i
  {
    if i < j {
      DigitEndExact(s, i + 1, j);
    }
  }

  /** `String(n)` for a non-negative integer: its decimal digits without leading zeros. */
  function NatToString(n: nat): (s: string)
    ensures |s| >= 1 && AllDigits(s)
    ensures s[0] == '0' <==> n == 0
  {
    if n < 10 then [DigitChar(n)] else NatToString(n / 10) + [DigitChar(n % 10)]
  }

  lemma {:induction false} NatToStringRoundTrip(n: nat)
    ensures DigitsValue(NatToString(n)) == n
  {
    if n >= 10 {
      var s := NatToString(n);
      assert s[..|s| - 1] == NatToString(n / 10);
      NatToStringRoundTrip(n / 10);
    }
  }

  /** Distinct counts render as distinct strings. */
  lemma NatToStringInjective(m: nat, n: nat)
    requires m != n
    ensures NatToString(m) != NatToString(n)
  {
    NatToStringRoundTrip(m);
    NatToStringRoundTrip(n);
  }

  /** `String.prototype.trimStart` on the ASCII white-space characters. */
  function TrimStart(s: string): (t: string)
    ensures |t| <= |s|
    ensures t != [] ==> !IsSpace(t[0])
  {
    if s != [] && IsSpace(s[0]) then TrimStart(s[1..]) else s
  }

  function TrimEnd(s: string): (t: string)
    ensures |t| <= |s|
    ensures t != [] ==> !IsSpace(t[|t| - 1])
  {
    if s != [] && IsSpace(s[|s| - 1]) then TrimEnd(s[..|s| - 1]) else s
  }

  /** `String.prototype.trim` on the ASCII white-space characters. */
  function Trim(s: string): string
  {
    TrimStart(TrimEnd(s))
  }

  function UpperChar(c: char): char
  {
    if 'a' <= c <= 'z' then (c as int - 32) as char else c
  }

  /** `String.prototype.toUpperCase` on the ASCII letters. */
  function ToUpper(s: string): (t: string)
    ensures |t| == |s|
    ensures forall i | 0 <= i < |s| :: t[i] == UpperChar(s[i])
  {
    if s == [] then [] else [UpperChar(s[0])] + ToUpper(s[1..])
  }

  /** White space in front makes no difference to `trimStart`. */
  lemma {:induction false} TrimStartOfSpace(pre: string, s: string)
    requires AllSpace(pre)
    ensures TrimStart(pre + s) == TrimStart(s)
  {
    if pre != [] {
      assert (pre + s)[0] == pre[0] && (pre + s)[1..] == pre[1..] + s;
      assert AllSpace(pre[1..]) by { assert forall k | 0 <= k < |pre| - 1 :: pre[1..][k] == pre[k + 1]; }
      TrimStartOfSpace(pre[1..], s);
    } else {
      assert pre + s == s;
    }
  }

  /** White space behind makes no difference to `trimEnd`. */
  lemma {:induction false} TrimEndOfSpace(s: string, post: string)
    requires AllSpace(post)
    ensures TrimEnd(s + post) == TrimEnd(s)
  {
    if post != [] {
      var post' := post[..|post| - 1];
      assert (s + post)[|s + post| - 1] == post[|post| - 1];
      assert (s + post)[..|s + post| - 1] == s + post';
      assert AllSpace(post') by { assert forall k | 0 <= k < |post'| :: post'[k] == post[k]; }
      TrimEndOfSpace(s, post');
    } else {
      assert s + post == s;
    }
  }

  /** `trimStart` drops a leading run of white space and keeps the rest. */
  lemma {:induction false} TrimStartSuffix(s: string)
    ensures exists i | 0 <= i <= |s| :: TrimStart(s) == s[i..] && AllSpace(s[..i])
  {
    if s != [] && IsSpace(s[0]) {
      TrimStartSuffix(s[1..]);
      var i :| 0 <= i <= |s| - 1 && TrimStart(s[1..]) == s[1..][i..] && AllSpace(s[1..][..i]);
      assert s[1..][i..] == s[i + 1..];
      assert s[..i + 1] == [s[0]] + s[1..][..i];
      SpaceAppend([s[0]], s[1..][..i]);
    } else {
      assert TrimStart(s) == s[0..] && AllSpace(s[..0]);
    }
  }

  /** `trimEnd` drops a trailing run of white space and keeps the rest. */
  lemma {:induction false} TrimEndPrefix(s: string)
    ensures exists j | 0 <= j <= |s| :: TrimEnd(s) == s[..j] && AllSpace(s[j..])
  {
    if s != [] && IsSpace(s[|s| - 1]) {
      var s' := s[..|s| - 1];
      TrimEndPrefix(s');
      var j :| 0 <= j <= |s'| && TrimEnd(s') == s'[..j] && AllSpace(s'[j..]);
      assert s'[..j] == s[..j];
      assert s[j..] == s'[j..] + [s[|s| - 1]];
      SpaceAppend(s'[j..], [s[|s| - 1]]);
    } else {
      assert TrimEnd(s) == s[..|s|] && AllSpace(s[|s|..]);
    }
  }

  /** `trim` keeps one slice of its input, with only white space outside it. */
  lemma TrimIsSlice(s: string)
    ensures exists i, j | 0 <= i <= j <= |s| :: Trim(s) == s[i..j] && AllSpace(s[..i]) && AllSpace(s[j..])
  {
    TrimEndPrefix(s);
    var j :| 0 <= j <= |s| && TrimEnd(s) == s[..j] && AllSpace(s[j..]);
    TrimStartSuffix(s[..j]);
    var i :| 0 <= i <= j && TrimStart(s[..j]) == s[..j][i..] && AllSpace(s[..j][..i]);
    assert s[..j][i..] == s[i..j] && s[..j][..i] == s[..i];
  }

  /** The result of `trim` has no white space at either end. */
  lemma TrimNoSpaceAtEnds(s: string)
    ensures Trim(s) != [] ==> !IsSpace(Trim(s)[0]) && !IsSpace(Trim(s)[|Trim(s)| - 1])
  {
    if TrimEnd(s) != [] {
      TrimStartKeepsLast(TrimEnd(s));
    }
  }

  /** Padding a string that has no white space at its ends with white space on both sides
      trims back to that string. */
  lemma TrimOfPadded(pre: string, t: string, post: string)
    requires AllSpace(pre) && AllSpace(post)
    requires t != [] ==> !IsSpace(t[0]) && !IsSpace(t[|t| - 1])
    ensures Trim(pre + t + post) == t
  {
    TrimEndOfSpace(pre + t, post);
    if t == [] {
      assert pre + t == [] + pre;
      TrimEndOfSpace([], pre);
    } else {
      assert TrimEnd(pre + t) == pre + t;
      TrimStartOfSpace(pre, t);
    }
  }

  lemma SpaceAppend(a: string, b: string)
    requires AllSpace(a) && AllSpace(b)
    ensures AllSpace(a + b)
  {
    assert forall k | 0 <= k < |a + b| :: (a + b)[k] == if k < |a| then a[k] else b[k - |a|];
  }

  lemma SurroundingSlice(pre: string, s: string, post: string, i: nat, j: nat)
    requires 0 <= i <= j <= |s|
    requires AllSpace(pre) && AllSpace(post) && AllSpace(s[..i]) && AllSpace(s[j..])
    ensures AllSpace(pre + s[..i]) && AllSpace(s[j..] + post)
    ensures pre + s + post == (pre + s[..i]) + s[i..j] + (s[j..] + post)
  {
    SpaceAppend(pre, s[..i]);
    SpaceAppend(s[j..], post);
    assert s == s[..i] + s[i..j] + s[j..];
  }

  /** White space on either side of a string does not change its trim. */
  lemma TrimOfSurrounding(pre: string, s: string, post: string)
    requires AllSpace(pre) && AllSpace(post)
    ensures Trim(pre + s + post) == Trim(s)
  {
    TrimIsSlice(s);
    TrimNoSpaceAtEnds(s);
    var i, j :| 0 <= i <= j <= |s| && Trim(s) == s[i..j] && AllSpace(s[..i]) && AllSpace(s[j..]);
    SurroundingSlice(pre, s, post, i, j);
    TrimOfPadded(pre + s[..i], s[i..j], s[j..] + post);
  }

  /** A string with no white space at either end is its own trim. */
  lemma TrimUnchanged(s: string)
    requires s != [] ==> !IsSpace(s[0]) && !IsSpace(s[|s| - 1])
    ensures Trim(s) == s
  {
  }

  lemma {:induction false} TrimStartUpper(s: string)
    ensures TrimStart(ToUpper(s)) == ToUpper(TrimStart(s))
  {
    if s != [] && IsSpace(s[0]) {
      assert ToUpper(s)[1..] == ToUpper(s[1..]);
      TrimStartUpper(s[1..]);
    }
  }

  lemma {:induction false} TrimEndUpper(s: string)
    ensures TrimEnd(ToUpper(s)) == ToUpper(TrimEnd(s))
  {
    if s != [] && IsSpace(s[|s| - 1]) {
      assert ToUpper(s)[..|s| - 1] == ToUpper(s[..|s| - 1]);
      TrimEndUpper(s[..|s| - 1]);
    }
  }

  /** Upper-casing before or after trimming gives the same string, since white space has no case. */
  lemma TrimUpperCommute(s: string)
    ensures Trim(ToUpper(s)) == ToUpper(Trim(s))
  {
    TrimEndUpper(s);
    TrimStartUpper(TrimEnd(s));
  }

  /** Trimming never removes a last character that is not white space. */
  lemma TrimKeepsLast(s: string)
    requires s != [] && !IsSpace(s[|s| - 1])
    ensures Trim(s) != [] && Trim(s)[|Trim(s)| - 1] == s[|s| - 1]
  {
    assert TrimEnd(s) == s;
    TrimStartKeepsLast(s);
  }

  lemma {:induction false} TrimStartKeepsLast(s: string)
    requires s != [] && !IsSpace(s[|s| - 1])
    ensures TrimStart(s) != [] && TrimStart(s)[|TrimStart(s)| - 1] == s[|s| - 1]
    decreases |s|
  {
    if IsSpace(s[0]) {
      TrimStartKeepsLast(s[1..]);
    }
  }

  /** Upper-casing works character by character, so it distributes over appending one. */
  lemma ToUpperAppend(s: string, c: char)
    ensures ToUpper(s + [c]) == ToUpper(s) + [UpperChar(c)]
  {
    var a, b := ToUpper(s + [c]), ToUpper(s) + [UpperChar(c)];
    assert forall i | 0 <= i < |s| :: a[i] == UpperChar(s[i]) == b[i];
    assert a[|s|] == b[|s|];
  }

  predicate NoLowerCase(s: string) { forall i | 0 <= i < |s| :: !('a' <= s[i] <= 'z') }

  lemma ToUpperUnchanged(s: string)
    requires NoLowerCase(s)
    ensures ToUpper(s) == s
  {
  }

  lemma ToUpperIdempotent(s: string)
    ensures ToUpper(ToUpper(s)) == ToUpper(s)
  {
  }
}
