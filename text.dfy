/** ASCII versions of the Python string operations the pipeline uses:
    str.isspace, str.isalpha, str.lower, str.upper, str.strip, the `in`
    substring test, and str() of an integer. */
module Text {
  import opened Wrappers

  /** str.isspace on one ASCII character: tab, line feed, vertical tab,
      form feed, carriage return, the four separators 0x1C-0x1F and space. */
  predicate IsSpace(c: char) {
    c == ' ' || ('\t' <= c <= '\r') || ('\U{1C}' <= c <= '\U{1F}')
  }

  predicate IsLetter(c: char) { ('a' <= c <= 'z') || ('A' <= c <= 'Z') }

  predicate IsDigit(c: char) { '0' <= c <= '9' }

  predicate IsUpperLetter(c: char) { 'A' <= c <= 'Z' }

  function ToLower(c: char): char {
    if 'A' <= c <= 'Z' then (c as int + 32) as char else c
  }

  function ToUpper(c: char): char {
    if 'a' <= c <= 'z' then (c as int - 32) as char else c
  }

  function Lower(s: string): (r: string)
    ensures |r| == |s|
    ensures forall i :: 0 <= i < |s| ==> r[i] == ToLower(s[i])
  {
    seq(|s|, i requires 0 <= i < |s| => ToLower(s[i]))
  }

  function Upper(s: string): (r: string)
    ensures |r| == |s|
    ensures forall i :: 0 <= i < |s| ==> r[i] == ToUpper(s[i])
  {
    seq(|s|, i requires 0 <= i < |s| => ToUpper(s[i]))
  }

  predicate AllSpace(s: string) {
    forall i :: 0 <= i < |s| ==> IsSpace(s[i])
  }

  /** s[i..j] is whitespace, stated by position. */
  predicate SpacesIn(s: string, i: nat, j: nat) {
    i <= j <= |s| && forall k :: i <= k < j ==> IsSpace(s[k])
  }

  lemma SpacesInSlice(s: string, i: nat, j: nat)
    requires i <= j <= |s|
    ensures AllSpace(s[i..j]) <==> SpacesIn(s, i, j)
  {
    assert forall k :: i <= k < j ==> s[i..j][k - i] == s[k];
  }

  /** The first position at or after `from` that does not hold whitespace
      (what a greedy `\s*` consumes up to). */
  function SkipSpaces(s: string, from: nat): (k: nat)
    requires from <= |s|
    ensures from <= k <= |s|
    ensures SpacesIn(s, from, k)
    ensures k < |s| ==> !IsSpace(s[k])
    decreases |s| - from
  {
    if from == |s| || !IsSpace(s[from]) then from else SkipSpaces(s, from + 1)
  }

  /** A non-space character after a run of spaces is where the skip lands. */
  lemma SkipSpacesLands(text: string, from: nat, k: nat)
    requires from <= k < |text| && SpacesIn(text, from, k) && !IsSpace(text[k])
    ensures SkipSpaces(text, from) == k
  {
  }

  /** The position just after the last non-whitespace character (0 if none). */
  function TrailingSpaceStart(s: string): (k: nat)
    ensures SpacesIn(s, k, |s|)
    ensures k > 0 ==> !IsSpace(s[k - 1])
  {
    TrailingFrom(s, |s|)
  }

  /** The same within s[..hi]. */
  function TrailingFrom(s: string, hi: nat): (k: nat)
    requires hi <= |s|
    ensures k <= hi && SpacesIn(s, k, hi)
    ensures k > 0 ==> !IsSpace(s[k - 1])
    decreases hi
  {
    if hi == 0 || !IsSpace(s[hi - 1]) then hi else TrailingFrom(s, hi - 1)
  }

  /** A non-space character followed only by spaces is where the
      trailing whitespace starts. */
  lemma TrailingLands(s: string, k: nat)
    requires 0 < k <= |s| && !IsSpace(s[k - 1]) && SpacesIn(s, k, |s|)
    ensures TrailingSpaceStart(s) == k
  {
  }

  /** s splits into whitespace, then t, then whitespace, where t neither
      starts nor ends with whitespace. */
  ghost predicate IsStripOf(s: string, t: string) {
    (t == [] || (!IsSpace(t[0]) && !IsSpace(t[|t| - 1]))) &&
    exists i: nat :: StripsAt(s, t, i)
  }

  ghost predicate StripsAt(s: string, t: string, i: nat) {
    i + |t| <= |s| && s[i..i + |t|] == t && SpacesIn(s, 0, i) && SpacesIn(s, i + |t|, |s|)
  }

  /** str.strip(): the text with leading and trailing whitespace removed. */
  function Strip(s: string): (t: string)
    ensures |t| <= |s|
    ensures t == [] || (!IsSpace(t[0]) && !IsSpace(t[|t| - 1]))
  {
    var a := SkipSpaces(s, 0);
    var b := TrailingSpaceStart(s);
    if a < b then s[a..b] else []
  }

  /** The strip is empty exactly when the text is all whitespace. */
  lemma StripEmpty(s: string)
    ensures Strip(s) == [] <==> AllSpace(s)
  {
    if !AllSpace(s) { CoreBounds(s); }
  }

  /** The strip is a strip in the declarative sense. */
  lemma StripSpec(s: string)
    ensures IsStripOf(s, Strip(s))
  {
    var a := SkipSpaces(s, 0);
    var b := TrailingSpaceStart(s);
    if a < b {
      assert StripsAt(s, s[a..b], a);
      assert !IsSpace(s[a]);
    } else {
      assert StripsAt(s, [], 0) by { assert s[0..0] == []; }
    }
  }

  /** A strip is determined by its defining property: whatever whitespace
      surrounds a core without outer whitespace, stripping yields the core. */
  lemma StripUnique(s: string, t: string)
    requires IsStripOf(s, t)
    ensures Strip(s) == t
  {
    var i: nat :| StripsAt(s, t, i);
    if t != [] {
      assert s[i] == t[0] by { assert s[i..i + |t|][0] == s[i]; }
      assert s[i + |t| - 1] == t[|t| - 1] by { assert s[i..i + |t|][|t| - 1] == s[i + |t| - 1]; }
      SkipSpacesLands(s, 0, i);
      TrailingLands(s, i + |t|);
    }
  }

  /** Stripping twice is stripping once. */
  lemma StripIdempotent(s: string)
    ensures Strip(Strip(s)) == Strip(s)
  {
    var t := Strip(s);
    assert StripsAt(t, t, 0) by { assert t[0..|t|] == t; }
    StripUnique(t, t);
  }

  /** Extra whitespace on either side does not change the strip. */
  lemma StripPadded(w1: string, s: string, w2: string)
    requires AllSpace(w1) && AllSpace(w2)
    ensures Strip(w1 + s + w2) == Strip(s)
  {
    var p := w1 + s + w2;
    if AllSpace(s) {
      PaddedSpaces(w1, s, w2);
      StripEmpty(s);
      StripEmpty(p);
    } else {
      var a := SkipSpaces(s, 0);
      var b := TrailingSpaceStart(s);
      CoreBounds(s);
      PaddedSkip(w1, s, w2);
      PaddedTrailing(w1, s, w2);
      PaddedSlice(w1, s, w2, a, b);
      assert Strip(s) == s[a..b];
      assert Strip(p) == p[|w1| + a..|w1| + b];
    }
  }

  /** A text that is not all whitespace has a non-empty core. */
  lemma CoreBounds(s: string)
    requires !AllSpace(s)
    ensures SkipSpaces(s, 0) < TrailingSpaceStart(s)
  {
    var j :| 0 <= j < |s| && !IsSpace(s[j]);
    assert SkipSpaces(s, 0) <= j < TrailingSpaceStart(s);
  }

  lemma PaddedSpaces(w1: string, s: string, w2: string)
    requires AllSpace(w1) && AllSpace(s) && AllSpace(w2)
    ensures AllSpace(w1 + s + w2)
  {
    var p := w1 + s + w2;
    forall k | 0 <= k < |p| ensures IsSpace(p[k]) {
      if k < |w1| { assert p[k] == w1[k]; }
      else if k < |w1| + |s| { assert p[k] == s[k - |w1|]; }
      else { assert p[k] == w2[k - |w1| - |s|]; }
    }
  }

  lemma PaddedSkip(w1: string, s: string, w2: string)
    requires AllSpace(w1) && !AllSpace(s)
    ensures SkipSpaces(w1 + s + w2, 0) == |w1| + SkipSpaces(s, 0)
  {
    var p := w1 + s + w2;
    var a := SkipSpaces(s, 0);
    CoreBounds(s);
    forall k | 0 <= k < |w1| + a ensures IsSpace(p[k]) {
      if k < |w1| { assert p[k] == w1[k]; } else { assert p[k] == s[k - |w1|]; }
    }
    assert p[|w1| + a] == s[a];
    SkipSpacesLands(p, 0, |w1| + a);
  }

  lemma PaddedTrailing(w1: string, s: string, w2: string)
    requires AllSpace(w2) && !AllSpace(s)
    ensures TrailingSpaceStart(w1 + s + w2) == |w1| + TrailingSpaceStart(s)
  {
    var p := w1 + s + w2;
    var b := TrailingSpaceStart(s);
    CoreBounds(s);
    assert p[|w1| + b - 1] == s[b - 1];
    forall k | |w1| + b <= k < |p| ensures IsSpace(p[k]) {
      if k < |w1| + |s| { assert p[k] == s[k - |w1|]; }
      else { assert p[k] == w2[k - |w1| - |s|]; }
    }
    TrailingLands(p, |w1| + b);
  }

  lemma PaddedSlice(w1: string, s: string, w2: string, i: nat, j: nat)
    requires i <= j <= |s|
    ensures (w1 + s + w2)[|w1| + i..|w1| + j] == s[i..j]
  {
    var p := w1 + s + w2;
    forall k | 0 <= k < j - i ensures p[|w1| + i..|w1| + j][k] == s[i..j][k] {
      assert p[|w1| + i + k] == s[i + k];
    }
  }

  /** Two texts with whitespace at the same places. */
  predicate SameSpaces(s: string, u: string) {
    |s| == |u| && forall k :: 0 <= k < |s| ==> (IsSpace(s[k]) <==> IsSpace(u[k]))
  }

  lemma SkipSameSpaces(s: string, u: string)
    requires SameSpaces(s, u)
    ensures SkipSpaces(s, 0) == SkipSpaces(u, 0)
  {
    var a := SkipSpaces(s, 0);
    if a < |s| { SkipSpacesLands(u, 0, a); }
    else { assert SkipSpaces(u, 0) == |u|; }
  }

  lemma TrailingSameSpaces(s: string, u: string)
    requires SameSpaces(s, u)
    ensures TrailingSpaceStart(s) == TrailingSpaceStart(u)
  {
    var b := TrailingSpaceStart(s);
    if b > 0 { TrailingLands(u, b); }
    else { assert TrailingSpaceStart(u) == 0; }
  }

  /** Texts with whitespace at the same places are stripped at the same
      positions. */
  lemma StripSameSpaces(s: string, u: string)
    requires SameSpaces(s, u)
    ensures var a := SkipSpaces(s, 0);
            var b := TrailingSpaceStart(s);
            Strip(u) == (if a < b then u[a..b] else []) && Strip(s) == (if a < b then s[a..b] else [])
  {
    SkipSameSpaces(s, u);
    TrailingSameSpaces(s, u);
  }

  /** Changing the case of letters leaves whitespace where it was, so the
      strip of the upper-cased text is the upper-cased strip. */
  lemma StripUpper(s: string)
    ensures Strip(Upper(s)) == Upper(Strip(s))
  {
    assert SameSpaces(s, Upper(s));
    StripSameSpaces(s, Upper(s));
    var a := SkipSpaces(s, 0);
    var b := TrailingSpaceStart(s);
    if a < b { UpperSlices(s, a, b); }
  }

  lemma UpperSlices(s: string, i: nat, j: nat)
    requires i <= j <= |s|
    ensures Upper(s)[i..j] == Upper(s[i..j])
    ensures Upper(s)[..i] == Upper(s[..i])
    ensures Upper(s)[j..] == Upper(s[j..])
  {
  }

  /** The same for lower case. */
  lemma StripLower(s: string)
    ensures Strip(Lower(s)) == Lower(Strip(s))
  {
    assert SameSpaces(s, Lower(s));
    StripSameSpaces(s, Lower(s));
    var a := SkipSpaces(s, 0);
    var b := TrailingSpaceStart(s);
    if a < b { LowerSlices(s, a, b); }
  }

  lemma LowerSlices(s: string, i: nat, j: nat)
    requires i <= j <= |s|
    ensures Lower(s)[i..j] == Lower(s[i..j])
    ensures Lower(s)[..i] == Lower(s[..i])
    ensures Lower(s)[j..] == Lower(s[j..])
  {
  }

  predicate OccursAt(s: string, pat: string, i: nat) {
    i + |pat| <= |s| && s[i..i + |pat|] == pat
  }

  /** str.find from position `from`: the first occurrence of `pat` there or later. */
  function IndexOf(s: string, pat: string, from: nat): (r: Option<nat>)
    ensures r.Some? ==> from <= r.value && OccursAt(s, pat, r.value)
    ensures r.Some? ==> forall i: nat :: from <= i < r.value ==> !OccursAt(s, pat, i)
    ensures r.None? ==> forall i: nat :: from <= i ==> !OccursAt(s, pat, i)
    decreases |s| - from
  {
    if from + |pat| > |s| then None
    else if s[from..from + |pat|] == pat then Some(from)
    else IndexOf(s, pat, from + 1)
  }

  /** Python's `pat in s`. */
  function Contains(s: string, pat: string): (b: bool)
    ensures b <==> exists i: nat :: OccursAt(s, pat, i)
  {
    IndexOf(s, pat, 0).Some?
  }

  // ---- str() of an integer, and the inverse used to read it back ----

  function DigitChar(d: nat): char
    requires d < 10
  {
    ('0' as int + d) as char
  }

  predicate AllDigits(s: string) {
    forall i :: 0 <= i < |s| ==> IsDigit(s[i])
  }

  /** Decimal digits of n, most significant first, without leading zeros. */
  function NatToString(n: nat): (r: string)
    ensures |r| >= 1 && AllDigits(r)
    ensures r[0] == '0' ==> n == 0
    decreases n
  {
    if n < 10 then [DigitChar(n)]
    else NatToString(n / 10) + [DigitChar(n % 10)]
  }

  /** Python str() of an int: an optional minus sign, then the digits. */
  function IntToString(i: int): (r: string)
    ensures |r| >= 1 && (r[0] == '-' <==> i < 0)
    ensures AllDigits(r[1..])
  {
    if i < 0 then "-" + NatToString(-i) else NatToString(i)
  }

  function DigitsValue(s: string): nat
    requires AllDigits(s)
  {
    if s == [] then 0
    else DigitsValue(s[..|s| - 1]) * 10 + (s[|s| - 1] as int - '0' as int)
  }

  /** Python int() of an optionally signed run of decimal digits. */
  function ParseInt(s: string): Option<int> {
    if |s| > 1 && s[0] == '-' && AllDigits(s[1..]) then Some(0 - DigitsValue(s[1..]) as int)
    else if |s| > 0 && AllDigits(s) then Some(DigitsValue(s))
    else None
  }

  lemma {:induction false} NatRoundTrip(n: nat)
    ensures DigitsValue(NatToString(n)) == n
    decreases n
  {
    if n >= 10 {
      var r := NatToString(n);
      assert r[..|r| - 1] == NatToString(n / 10);
      NatRoundTrip(n / 10);
    }
  }

  /** Reading back str(i) gives i. */
  lemma IntRoundTrip(i: int)
    ensures ParseInt(IntToString(i)) == Some(i)
  {
    var r := IntToString(i);
    if i < 0 {
      var d := NatToString(-i);
      assert r == "-" + d;
      assert r[1..] == d;
      NatRoundTrip(-i);
      assert ParseInt(r) == Some(0 - DigitsValue(d) as int);
    } else {
      assert r == NatToString(i);
      assert r[0] != '-';
      NatRoundTrip(i);
      assert ParseInt(r) == Some(DigitsValue(r));
    }
  }
}
