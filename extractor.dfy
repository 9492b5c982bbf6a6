/** The three-tier extraction of suggest_icd10_codes: parse the whole
    reply; else parse the first ```json fence; else parse the greedy
    [ { ... } ] span; else no suggestions. The two regular-expression
    searches are written out as string functions. */
module Extractor {
  import opened Wrappers
  import opened Text
  import opened Json

  const FenceOpen: string := "```json"
  const FenceClose: string := "```"

  predicate NoChar(s: string, c: char) {
    forall i :: 0 <= i < |s| ==> s[i] != c
  }

  // ---- r'```json\s*(.*?)\s*```' with re.DOTALL ----

  /** The smallest e >= from such that `\s*` followed by ``` matches at e:
      where the lazy group `(.*?)` stops. */
  function LazyFenceEnd(text: string, from: nat): (e: Option<nat>)
    requires from <= |text|
    ensures e.Some? ==> from <= e.value <= |text| && OccursAt(text, FenceClose, SkipSpaces(text, e.value))
    decreases |text| - from
  {
    if OccursAt(text, FenceClose, SkipSpaces(text, from)) then Some(from)
    else if from == |text| then None
    else LazyFenceEnd(text, from + 1)
  }

  /** Every position from which the close follows bounds the end found:
      there is an end whenever there is such a position, and it is the
      first. */
  lemma {:induction false} LazyFenceEndFirst(text: string, from: nat, j: nat)
    requires from <= j <= |text| && OccursAt(text, FenceClose, SkipSpaces(text, j))
    ensures LazyFenceEnd(text, from).Some? && LazyFenceEnd(text, from).value <= j
    decreases j - from
  {
    if from < j && !OccursAt(text, FenceClose, SkipSpaces(text, from)) {
      LazyFenceEndFirst(text, from + 1, j);
    }
  }

  /** The first position from which the close follows is the end found. */
  lemma {:induction false} LazyFenceEndIs(text: string, from: nat, e: nat)
    requires from <= e <= |text| && OccursAt(text, FenceClose, SkipSpaces(text, e))
    requires forall j :: from <= j < e ==> !OccursAt(text, FenceClose, SkipSpaces(text, j))
    ensures LazyFenceEnd(text, from) == Some(e)
    decreases e - from
  {
    if from < e {
      assert !OccursAt(text, FenceClose, SkipSpaces(text, from));
      LazyFenceEndIs(text, from + 1, e);
    }
  }

  /** The regular expression matches text[p..c+3] with group text[a..e]. */
  ghost predicate FenceMatchAt(text: string, p: nat, a: nat, e: nat, c: nat) {
    OccursAt(text, FenceOpen, p) && OccursAt(text, FenceClose, c) && p + |FenceOpen| <= a <= e <= c &&
    SpacesIn(text, p + |FenceOpen|, a) && SpacesIn(text, e, c)
  }

  /** The regular expression matches somewhere in the text. */
  ghost predicate FenceMatches(text: string) {
    exists p: nat, a: nat, e: nat, c: nat :: FenceMatchAt(text, p, a, e, c)
  }

  /** Neither leading nor trailing whitespace. */
  predicate Trimmed(s: string) {
    s == [] || (!IsSpace(s[0]) && !IsSpace(s[|s| - 1]))
  }

  /** re.search(...).group(1): opens at the first ```json, skips the
      whitespace after it, and stops before the first ``` that only
      whitespace separates from the content. */
  function FindFence(text: string): (r: Option<string>)
    ensures r.Some? ==> Trimmed(r.value)
  {
    match IndexOf(text, FenceOpen, 0)
    case None => None
    case Some(p) =>
      var a := SkipSpaces(text, p + |FenceOpen|);
      match LazyFenceEnd(text, a)
      case None => None
      case Some(e) =>
        GroupTrimmed(text, a, e);
        Some(text[a..e])
  }

  /** The group neither starts nor ends with whitespace: it starts after a
      skip, and a space before the end would have let the lazy group stop
      one earlier. */
  lemma GroupTrimmed(text: string, a: nat, e: nat)
    requires a <= |text| && LazyFenceEnd(text, a) == Some(e)
    requires a < |text| ==> !IsSpace(text[a])
    ensures Trimmed(text[a..e])
  {
    if a < e {
      EndNotSpace(text, a, e);
      TrimmedSlice(text, a, e);
    }
  }

  lemma EndNotSpace(text: string, a: nat, e: nat)
    requires a < e <= |text| && LazyFenceEnd(text, a) == Some(e)
    ensures !IsSpace(text[e - 1])
  {
    SkipSpacesStep(text, e - 1);
    if IsSpace(text[e - 1]) { LazyFenceEndFirst(text, a, e - 1); }
  }

  lemma TrimmedSlice(s: string, a: nat, e: nat)
    requires a < e <= |s| && !IsSpace(s[a]) && !IsSpace(s[e - 1])
    ensures Trimmed(s[a..e])
  {
    assert s[a..e][0] == s[a];
    assert s[a..e][e - a - 1] == s[e - 1];
  }

  /** What the search finds is the group of a match. */
  lemma FenceSound(text: string)
    requires FindFence(text).Some?
    ensures exists p: nat, a: nat, e: nat, c: nat :: FenceMatchAt(text, p, a, e, c) && FindFence(text).value == text[a..e]
  {
    var p := IndexOf(text, FenceOpen, 0).value;
    var a := SkipSpaces(text, p + |FenceOpen|);
    var e := LazyFenceEnd(text, a).value;
    var c := SkipSpaces(text, e);
    assert FenceMatchAt(text, p, a, e, c);
  }

  lemma SkipSpacesStep(text: string, j: nat)
    requires j < |text|
    ensures IsSpace(text[j]) ==> SkipSpaces(text, j) == SkipSpaces(text, j + 1)
  {
  }

  /** If the regular expression matches anywhere, the search finds a fence. */
  lemma FenceComplete(text: string, p': nat, a': nat, e': nat, c': nat)
    requires FenceMatchAt(text, p', a', e', c')
    ensures FindFence(text).Some?
  {
    var p := IndexOf(text, FenceOpen, 0).value;
    var a := SkipSpaces(text, p + |FenceOpen|);
    assert text[c'] == '`' by { assert text[c'..c' + 3][0] == text[c']; }
    assert a <= c';
    SkipSpacesLands(text, c', c');
    LazyFenceEndFirst(text, a, c');
  }

  // ---- r'\[\s*{.*}\s*\]' with re.DOTALL ----

  /** A `}` at q that `\s*\]` can follow. */
  predicate ClosesAt(text: string, q: nat) {
    q < |text| && text[q] == '}' &&
    SkipSpaces(text, q + 1) < |text| && text[SkipSpaces(text, q + 1)] == ']'
  }

  /** The largest q in (b, hi] at which the array can close: greedy `.*`. */
  function LastClose(text: string, b: nat, hi: nat): (r: Option<nat>)
    requires hi < |text|
    ensures r.Some? ==> b < r.value <= hi && ClosesAt(text, r.value)
    decreases hi
  {
    if hi <= b then None
    else if ClosesAt(text, hi) then Some(hi)
    else LastClose(text, b, hi - 1)
  }

  /** The close found is the last one in (b, hi], and none is found only
      when there is none. */
  lemma {:induction false} LastCloseMaximal(text: string, b: nat, hi: nat, j: nat)
    requires hi < |text| && b < j <= hi && ClosesAt(text, j)
    ensures LastClose(text, b, hi).Some? && j <= LastClose(text, b, hi).value
    decreases hi
  {
    if j < hi && !ClosesAt(text, hi) { LastCloseMaximal(text, b, hi - 1, j); }
  }

  /** The regular expression matches text[s..r+1], with `{` at b and `}` at q. */
  ghost predicate ArrayMatchAt(text: string, s: nat, b: nat, q: nat, r: nat) {
    s < b < q < r < |text| && text[s] == '[' && SpacesIn(text, s + 1, b) && text[b] == '{' &&
    text[q] == '}' && SpacesIn(text, q + 1, r) && text[r] == ']'
  }

  /** The regular expression matches somewhere in the text. */
  ghost predicate ArrayMatches(text: string) {
    exists s: nat, b: nat, q: nat, r: nat :: ArrayMatchAt(text, s, b, q, r)
  }

  /** The span of the match that starts at s, if one does: the greedy
      `.*` runs to the last `}` that can close it. */
  function ArrayAt(text: string, s: nat): (r: Option<string>)
    ensures r.Some? ==> s < |text| && text[s] == '[' && |r.value| >= 4
  {
    if s < |text| && text[s] == '[' then
      var b := SkipSpaces(text, s + 1);
      if b < |text| && text[b] == '{' then
        match LastClose(text, b, |text| - 1)
        case None => None
        case Some(q) => Some(text[s..SkipSpaces(text, q + 1) + 1])
      else None
    else None
  }

  /** What the search at s returns is a match at s. */
  lemma ArrayAtSound(text: string, s: nat)
    requires ArrayAt(text, s).Some?
    ensures exists b: nat, q: nat, e: nat :: ArrayMatchAt(text, s, b, q, e) && ArrayAt(text, s).value == text[s..e + 1]
  {
    var b := SkipSpaces(text, s + 1);
    var q := LastClose(text, b, |text| - 1).value;
    var e := SkipSpaces(text, q + 1);
    assert ArrayMatchAt(text, s, b, q, e);
  }

  /** The span of the leftmost match starting at or after s. */
  function ArrayFrom(text: string, s: nat): (r: Option<string>)
    ensures r.Some? ==> |r.value| >= 4
    decreases |text| - s
  {
    if s >= |text| then None
    else if ArrayAt(text, s).Some? then ArrayAt(text, s)
    else ArrayFrom(text, s + 1)
  }

  /** What the search from s returns is a match at or after s. */
  lemma {:induction false} ArrayFromSound(text: string, s: nat)
    requires ArrayFrom(text, s).Some?
    ensures exists s': nat, b: nat, q: nat, e: nat ::
              s <= s' && ArrayMatchAt(text, s', b, q, e) && ArrayFrom(text, s).value == text[s'..e + 1]
    decreases |text| - s
  {
    if ArrayAt(text, s).Some? {
      ArrayAtSound(text, s);
    } else {
      ArrayFromSound(text, s + 1);
    }
  }

  /** re.search(r'\[\s*{.*}\s*\]', text, re.DOTALL).group(0). */
  function FindArray(text: string): (r: Option<string>)
    ensures r.Some? ==> |r.value| >= 4
  {
    ArrayFrom(text, 0)
  }

  /** What the search returns is a match of the regular expression. */
  lemma ArraySound(text: string)
    requires FindArray(text).Some?
    ensures exists s: nat, b: nat, q: nat, e: nat :: ArrayMatchAt(text, s, b, q, e) && FindArray(text).value == text[s..e + 1]
  {
    ArrayFromSound(text, 0);
  }

  /** If the regular expression matches at or after s, the search finds a span. */
  lemma {:induction false} ArrayComplete(text: string, from: nat, s: nat, b: nat, q: nat, r: nat)
    requires from <= s && ArrayMatchAt(text, s, b, q, r)
    ensures ArrayFrom(text, from).Some?
    decreases s - from
  {
    if from < s && ArrayAt(text, from).None? {
      ArrayComplete(text, from + 1, s, b, q, r);
    } else if from == s {
      MatchOpens(text, s, b, q, r);
    }
  }

  /** The search from `from` returns the span at the first start from there
      on that has one, as re.search takes the leftmost match. */
  lemma {:induction false} ArrayFromLeftmost(text: string, from: nat, s: nat)
    requires from <= s < |text| && ArrayAt(text, s).Some?
    requires forall s1: nat :: from <= s1 < s ==> ArrayAt(text, s1).None?
    ensures ArrayFrom(text, from) == ArrayAt(text, s)
    decreases s - from
  {
    if from < s { ArrayFromLeftmost(text, from + 1, s); }
  }

  /** The span found starts at or before the `[` of every match, and no
      earlier position starts a span. */
  lemma FindArrayLeftmost(text: string, s: nat, b: nat, q: nat, r: nat)
    requires ArrayMatchAt(text, s, b, q, r)
    ensures exists s0: nat :: s0 <= s && ArrayAt(text, s0).Some? && FindArray(text) == ArrayAt(text, s0) &&
              forall s1: nat :: s1 < s0 ==> ArrayAt(text, s1).None?
  {
    MatchOpens(text, s, b, q, r);
    var s0 := FirstArrayAt(text, 0, s);
    ArrayFromLeftmost(text, 0, s0);
  }

  /** The first position from `from` on that starts a span, given one at s. */
  lemma {:induction false} FirstArrayAt(text: string, from: nat, s: nat) returns (s0: nat)
    requires from <= s && ArrayAt(text, s).Some?
    ensures from <= s0 <= s && ArrayAt(text, s0).Some?
    ensures forall s1: nat :: from <= s1 < s0 ==> ArrayAt(text, s1).None?
    decreases s - from
  {
    if ArrayAt(text, from).Some? {
      s0 := from;
    } else {
      s0 := FirstArrayAt(text, from + 1, s);
    }
  }

  /** A match at s makes the search at s succeed. */
  lemma MatchOpens(text: string, s: nat, b: nat, q: nat, r: nat)
    requires ArrayMatchAt(text, s, b, q, r)
    ensures ArrayAt(text, s).Some?
  {
    SkipSpacesLands(text, s + 1, b);
    SkipSpacesLands(text, q + 1, r);
    LastCloseMaximal(text, b, |text| - 1, q);
  }

  // ---- the chain ----

  /** suggest_icd10_codes after generation: the decoded reply, or the
      decode error of a fence or span that was found (they are not caught),
      or an empty list when nothing was found. */
  function Extract(text: string, parse: Parser): (r: Result<Value, string>)
    ensures parse(text).Success? ==> r == parse(text)
    ensures r.Failure? ==> parse(text).Failure? && (FindFence(text).Some? || FindArray(text).Some?)
  {
    match parse(text)
    case Success(v) => Success(v)
    case Failure(_) =>
      match FindFence(text)
      case Some(content) => parse(content)
      case None =>
        match FindArray(text)
        case Some(span) => parse(span)
        case None => Success(JArray([]))
  }

  // ---- the reply shapes a generator produces ----

  /** A reply without backticks has no fence. */
  lemma NoBacktickNoFence(text: string)
    requires NoChar(text, '`')
    ensures FindFence(text).None?
  {
    forall i: nat | i + |FenceOpen| <= |text| ensures !OccursAt(text, FenceOpen, i) {
      assert text[i..i + |FenceOpen|][0] == text[i];
    }
  }

  /** An opening fence with no backtick before it is the first one. */
  lemma FirstFenceAt(text: string, p: nat)
    requires OccursAt(text, FenceOpen, p) && NoChar(text[..p], '`')
    ensures IndexOf(text, FenceOpen, 0) == Some(p)
  {
    forall i: nat | i < p ensures !OccursAt(text, FenceOpen, i) {
      assert text[i] == text[..p][i];
      assert text[i..i + |FenceOpen|][0] == text[i];
    }
  }

  /** The close search from inside a body without backticks that ends in a
      non-space stops right after that body. */
  lemma FenceEndAfterBody(text: string, start: nat, z: nat, c: nat)
    requires start < z <= c && OccursAt(text, FenceClose, c)
    requires NoChar(text[start..z], '`') && !IsSpace(text[z - 1]) && SpacesIn(text, z, c)
    ensures LazyFenceEnd(text, start) == Some(z)
  {
    assert text[c] == '`' by { assert text[c..c + 3][0] == text[c]; }
    SkipSpacesLands(text, z, c);
    forall j | start <= j < z ensures !OccursAt(text, FenceClose, SkipSpaces(text, j)) {
      NoCloseFrom(text, start, z, j);
    }
    LazyFenceEndIs(text, start, z);
  }

  /** From inside such a body the skip lands on a body character, which is
      no backtick. */
  lemma NoCloseFrom(text: string, start: nat, z: nat, j: nat)
    requires start <= j < z <= |text| && NoChar(text[start..z], '`') && !IsSpace(text[z - 1])
    ensures !OccursAt(text, FenceClose, SkipSpaces(text, j))
  {
    var k := SkipSpaces(text, j);
    assert k < z;
    assert text[k] == text[start..z][k - start];
    assert !OccursAt(text, FenceClose, k) by {
      if k + 3 <= |text| { assert text[k..k + 3][0] == text[k]; }
    }
  }

  /** A fence whose opening at p is the first one, followed by spaces up to
      start, the content up to z and spaces up to the close at c, has
      text[start..z] as its content. */
  lemma FenceContent(text: string, p: nat, start: nat, z: nat, c: nat)
    requires IndexOf(text, FenceOpen, 0) == Some(p)
    requires p + |FenceOpen| <= start <= z <= c && OccursAt(text, FenceClose, c)
    requires SpacesIn(text, p + |FenceOpen|, start) && SpacesIn(text, z, c)
    requires NoChar(text[start..z], '`') && Trimmed(text[start..z])
    ensures FindFence(text) == Some(text[start..z])
  {
    assert text[c] == '`' by { assert text[c..c + 3][0] == text[c]; }
    if start < z {
      assert text[start] == text[start..z][0];
      assert text[z - 1] == text[start..z][z - 1 - start];
      SkipSpacesLands(text, p + |FenceOpen|, start);
      FenceEndAfterBody(text, start, z, c);
    } else {
      assert SpacesIn(text, p + |FenceOpen|, c);
      SkipSpacesLands(text, p + |FenceOpen|, c);
      SkipSpacesLands(text, c, c);
    }
  }

  /** A reply that wraps a JSON text in a ```json fence, with no backtick
      before it, yields that JSON text. */
  lemma FencedReply(pre: string, ws1: string, body: string, ws2: string, post: string)
    requires NoChar(pre, '`') && NoChar(body, '`') && Trimmed(body)
    requires AllSpace(ws1) && AllSpace(ws2)
    ensures FindFence(pre + FenceOpen + ws1 + body + ws2 + FenceClose + post) == Some(body)
  {
    var x1 := pre + FenceOpen;
    var x2 := x1 + ws1;
    var x3 := x2 + body;
    var x4 := x3 + ws2;
    var x5 := x4 + FenceClose;
    var text := x5 + post;
    var p := |pre|;
    assert text[..|x5|] == x5;
    PrefixParts(x4, FenceClose, text);
    PrefixParts(x3, ws2, text);
    PrefixParts(x2, body, text);
    PrefixParts(x1, ws1, text);
    PrefixParts(pre, FenceOpen, text);
    SpacesInSlice(text, |x1|, |x2|);
    SpacesInSlice(text, |x3|, |x4|);
    FirstFenceAt(text, p);
    FenceContent(text, p, |x2|, |x3|, |x4|);
  }

  /** A prefix of t that is x + v splits into x and v. */
  lemma PrefixParts(x: string, v: string, t: string)
    requires |x| + |v| <= |t| && t[..|x| + |v|] == x + v
    ensures t[..|x|] == x && t[|x|..|x| + |v|] == v
  {
    assert t[..|x|] == t[..|x| + |v|][..|x|];
    assert t[|x|..|x| + |v|] == t[..|x| + |v|][|x|..];
  }

  /** Positions before the first `[` are passed over. */
  lemma {:induction false} ArrayFromSkips(text: string, s: nat, t: nat)
    requires s <= t <= |text|
    requires forall i :: s <= i < t ==> text[i] != '['
    ensures ArrayFrom(text, s) == ArrayFrom(text, t)
    decreases t - s
  {
    if s < t {
      NoOpenNoArray(text, s);
      ArrayFromSkips(text, s + 1, t);
    }
  }

  /** No match starts where there is no `[`. */
  lemma NoOpenNoArray(text: string, s: nat)
    requires s < |text| && text[s] != '['
    ensures ArrayAt(text, s) == None
  {
  }

  /** A reply that embeds one array of objects, with no `[` before it and no
      `}` after it, yields exactly that array text. */
  lemma EmbeddedReply(pre: string, ws1: string, mid: string, ws2: string, post: string)
    requires NoChar(pre, '[') && NoChar(post, '}')
    requires AllSpace(ws1) && AllSpace(ws2)
    ensures FindArray(pre + ("[" + ws1 + "{" + mid + "}" + ws2 + "]") + post) ==
            Some("[" + ws1 + "{" + mid + "}" + ws2 + "]")
  {
    var span := "[" + ws1 + "{" + mid + "}" + ws2 + "]";
    var text := pre + span + post;
    PrefixParts(pre, span, text);
    assert text[..|pre|] == pre;
    assert text[|pre| + |span|..] == post;
    SpanShape(ws1, mid, ws2);
    var q := 2 + |ws1| + |mid|;
    SpacesInSlice(span, 1, 1 + |ws1|);
    SpacesInSlice(span, q + 1, q + 1 + |ws2|);
    EmbeddedAt(text, |pre|, span, 1 + |ws1|, q);
  }

  /** An array-of-objects part at s, with no `[` before it and no `}` after
      it, is what the search returns. */
  lemma EmbeddedAt(text: string, s: nat, span: string, b: nat, q: nat)
    requires s + |span| <= |text| && text[s..s + |span|] == span
    requires NoChar(text[..s], '[') && NoChar(text[s + |span|..], '}')
    requires 0 < b < q < |span| - 1
    requires span[0] == '[' && SpacesIn(span, 1, b) && span[b] == '{'
    requires span[q] == '}' && SpacesIn(span, q + 1, |span| - 1) && span[|span| - 1] == ']'
    ensures FindArray(text) == Some(span)
  {
    forall i | 0 <= i < s ensures text[i] != '[' { assert text[i] == text[..s][i]; }
    ArrayFromSkips(text, 0, s);
    var r := s + |span| - 1;
    MatchInside(text, s, span, b, q);
    assert r + 1 == s + |span|;
    SpanAt(text, s, s + b, s + q, r);
    assert text[s..r + 1] == span;
  }

  /** Where the brackets and spaces of an array-of-objects text lie. */
  lemma SpanShape(ws1: string, mid: string, ws2: string)
    ensures var span := "[" + ws1 + "{" + mid + "}" + ws2 + "]";
            var q := 2 + |ws1| + |mid|;
            |span| == q + |ws2| + 2 && span[0] == '[' && span[1..1 + |ws1|] == ws1 &&
            span[1 + |ws1|] == '{' && span[q] == '}' && span[q + 1..q + 1 + |ws2|] == ws2 &&
            span[|span| - 1] == ']'
  {
    var y1 := "[" + ws1;
    var y2 := y1 + "{";
    var y3 := y2 + mid;
    var y4 := y3 + "}";
    var y5 := y4 + ws2;
    var span := y5 + "]";
    assert span[..|y5|] == y5;
    PrefixParts(y4, ws2, span);
    PrefixParts(y3, "}", span);
    PrefixParts(y2, mid, span);
    PrefixParts(y1, "{", span);
    PrefixParts("[", ws1, span);
  }

  /** A match laid out inside a part embedded at s is a match of the text. */
  lemma MatchInside(text: string, s: nat, span: string, b: nat, q: nat)
    requires s + |span| <= |text| && text[s..s + |span|] == span
    requires 0 < b < q < |span| - 1
    requires span[0] == '[' && SpacesIn(span, 1, b) && span[b] == '{'
    requires span[q] == '}' && SpacesIn(span, q + 1, |span| - 1) && span[|span| - 1] == ']'
    ensures ArrayMatchAt(text, s, s + b, s + q, s + |span| - 1)
  {
    forall m | s <= m < s + |span| ensures text[m] == span[m - s] {
      assert text[s..s + |span|][m - s] == text[m];
    }
  }

  /** The search at a `[` that opens a match whose `}` at q is the last
      `}` of the text returns that match. */
  lemma SpanAt(text: string, s: nat, b: nat, q: nat, r: nat)
    requires ArrayMatchAt(text, s, b, q, r)
    requires NoChar(text[r + 1..], '}')
    ensures ArrayFrom(text, s) == Some(text[s..r + 1])
  {
    SkipSpacesLands(text, s + 1, b);
    LastCloseIs(text, b, q, r);
    ArrayAtIs(text, s, b, q, r);
  }

  /** The match at s, read off its positions. */
  lemma ArrayAtIs(text: string, s: nat, b: nat, q: nat, r: nat)
    requires s < b < |text| && text[s] == '[' && text[b] == '{' && SkipSpaces(text, s + 1) == b
    requires LastClose(text, b, |text| - 1) == Some(q) && r < |text| && SkipSpaces(text, q + 1) == r
    ensures ArrayAt(text, s) == Some(text[s..r + 1])
  {
    var t := text[s..r + 1];
    assert ArrayAt(text, s).Some?;
    assert ArrayAt(text, s).value == t;
  }

  /** The `}` of such a match is where the greedy `.*` stops. */
  lemma LastCloseIs(text: string, b: nat, q: nat, r: nat)
    requires b < q < r < |text| && text[q] == '}' && SpacesIn(text, q + 1, r) && text[r] == ']'
    requires NoChar(text[r + 1..], '}')
    ensures LastClose(text, b, |text| - 1) == Some(q)
    ensures SkipSpaces(text, q + 1) == r
  {
    SkipSpacesLands(text, q + 1, r);
    NoCloseAfter(text, q, r);
    LastCloseFinds(text, b, |text| - 1, q);
  }

  /** After the `}` at q of a match ending at r, with no `}` after r,
      nothing can close. */
  lemma NoCloseAfter(text: string, q: nat, r: nat)
    requires q < r < |text| && SpacesIn(text, q + 1, r) && text[r] == ']'
    requires NoChar(text[r + 1..], '}')
    ensures forall j :: q < j < |text| ==> !ClosesAt(text, j)
  {
    forall j | q < j < |text| ensures text[j] != '}' {
      if j > r { assert text[j] == text[r + 1..][j - r - 1]; }
    }
  }

  /** The greedy search from hi down finds the last close after b. */
  lemma {:induction false} LastCloseFinds(text: string, b: nat, hi: nat, q: nat)
    requires b < q <= hi < |text| && ClosesAt(text, q)
    requires forall j :: q < j <= hi ==> !ClosesAt(text, j)
    ensures LastClose(text, b, hi) == Some(q)
    decreases hi
  {
    if hi > q { LastCloseFinds(text, b, hi - 1, q); }
  }

  /** A reply that is already JSON is taken whole. */
  lemma RawReply(text: string, parse: Parser)
    requires parse(text).Success?
    ensures Extract(text, parse) == parse(text)
  {
  }

  /** A fenced reply decodes as its fence content, even when that content
      also holds an array span. */
  lemma FencedReplyExtracts(pre: string, ws1: string, body: string, ws2: string, post: string, parse: Parser)
    requires NoChar(pre, '`') && NoChar(body, '`') && Trimmed(body)
    requires AllSpace(ws1) && AllSpace(ws2)
    requires parse(pre + FenceOpen + ws1 + body + ws2 + FenceClose + post).Failure?
    ensures Extract(pre + FenceOpen + ws1 + body + ws2 + FenceClose + post, parse) == parse(body)
  {
    FencedReply(pre, ws1, body, ws2, post);
  }

  /** A reply in prose around one array of objects decodes as that array. */
  lemma EmbeddedReplyExtracts(pre: string, ws1: string, mid: string, ws2: string, post: string, parse: Parser)
    requires NoChar(pre, '[') && NoChar(post, '}')
    requires NoChar(pre + ("[" + ws1 + "{" + mid + "}" + ws2 + "]") + post, '`')
    requires AllSpace(ws1) && AllSpace(ws2)
    requires parse(pre + ("[" + ws1 + "{" + mid + "}" + ws2 + "]") + post).Failure?
    ensures Extract(pre + ("[" + ws1 + "{" + mid + "}" + ws2 + "]") + post, parse) ==
            parse("[" + ws1 + "{" + mid + "}" + ws2 + "]")
  {
    NoBacktickNoFence(pre + ("[" + ws1 + "{" + mid + "}" + ws2 + "]") + post);
    EmbeddedReply(pre, ws1, mid, ws2, post);
  }

  /** Undecodable text with neither a fence nor an array yields no suggestions. */
  lemma GarbageReply(text: string, parse: Parser)
    requires parse(text).Failure? && NoChar(text, '`') && NoChar(text, '[')
    ensures Extract(text, parse) == Success(JArray([]))
  {
    NoBacktickNoFence(text);
    ArrayFromSkips(text, 0, |text|);
  }

  // ---- the tiers, for every reply ----

  /** The fence search succeeds exactly when the regular expression matches. */
  lemma FenceFoundIff(text: string)
    ensures FindFence(text).Some? <==> FenceMatches(text)
  {
    if FindFence(text).Some? { FenceSound(text); }
    if FenceMatches(text) {
      var p: nat, a: nat, e: nat, c: nat :| FenceMatchAt(text, p, a, e, c);
      FenceComplete(text, p, a, e, c);
    }
  }

  /** The span search succeeds exactly when the regular expression matches. */
  lemma ArrayFoundIff(text: string)
    ensures FindArray(text).Some? <==> ArrayMatches(text)
  {
    if FindArray(text).Some? { ArraySound(text); }
    if ArrayMatches(text) {
      var s: nat, b: nat, q: nat, r: nat :| ArrayMatchAt(text, s, b, q, r);
      ArrayComplete(text, 0, s, b, q, r);
    }
  }

  /** An undecodable reply in which the fence pattern matches is decoded as
      the fence content, whatever else it holds; a decode error of that
      content escapes. */
  lemma ExtractFence(text: string, parse: Parser)
    requires parse(text).Failure? && FenceMatches(text)
    ensures FindFence(text).Some? && Extract(text, parse) == parse(FindFence(text).value)
  {
    FenceFoundIff(text);
  }

  /** An undecodable reply with no fence match but an array match is decoded
      as the span; a decode error of the span escapes. */
  lemma ExtractArray(text: string, parse: Parser)
    requires parse(text).Failure? && !FenceMatches(text) && ArrayMatches(text)
    ensures FindArray(text).Some? && Extract(text, parse) == parse(FindArray(text).value)
  {
    FenceFoundIff(text);
    ArrayFoundIff(text);
  }

  /** An undecodable reply that matches neither pattern yields no suggestions. */
  lemma ExtractNothing(text: string, parse: Parser)
    requires parse(text).Failure? && !FenceMatches(text) && !ArrayMatches(text)
    ensures Extract(text, parse) == Success(JArray([]))
  {
    FenceFoundIff(text);
    ArrayFoundIff(text);
  }
}
