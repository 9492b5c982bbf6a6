/** The post-processing loop of lambda_handler: enrich each suggestion
    with the reference table, sort by confidence (highest first, stable),
    and cut the list to top_k. */
module Ranking {
  import opened Wrappers
  import opened Json
  import opened Icd10

  // ---- enrichment ----

  /** One entry of validated_codes. The model's own description, confidence
      and reasoning are passed through as decoded, whatever their type. */
  datatype EnrichedCode = EnrichedCode(code: string, description: Value, confidence: Value,
                                       reasoning: Value, valid: bool)

  const DefaultConfidence: Value := JFloat(0.0)

  /** The text of the TypeError that `code in ICD10_REFERENCE` raises for a
      code that cannot be a dict key. */
  function Unhashable(v: Value): string {
    "unhashable type: '" + TypeName(v) + "'"
  }

  /** One iteration of the loop body: `code_item.get(...)` (AttributeError
      on a non-dict), the table lookup (TypeError on a list or dict code),
      `code.upper()` inside the shape check (AttributeError on any other
      non-string code), then the record with its defaults. */
  function EnrichItem(item: Value): (r: Result<EnrichedCode, string>)
    ensures !item.JObject? ==> r == Failure(NoAttribute(item, "get"))
    ensures item.JObject? ==>
              (r.Success? <==> Get(item.fields, "code", JString("")).JString?)
    ensures item.JObject? ==>
              var code := Get(item.fields, "code", JString(""));
              (code.JArray? || code.JObject? ==> r == Failure(Unhashable(code))) &&
              (code.JNull? || code.JBool? || code.JInt? || code.JFloat? ==> r == Failure(NoAttribute(code, "upper")))
    ensures r.Success? ==>
              var f := item.fields;
              var d := GetCodeDetails(r.value.code);
              Get(f, "code", JString("")) == JString(r.value.code) &&
              r.value.description == Get(f, "description", JString(d.description)) &&
              r.value.confidence == Get(f, "confidence", DefaultConfidence) &&
              r.value.reasoning == Get(f, "reasoning", JString("")) &&
              r.value.valid == ValidateIcd10Code(r.value.code)
  {
    match item
    case JObject(f) =>
      var code := Get(f, "code", JString(""));
      if code.JArray? || code.JObject? then Failure(Unhashable(code))
      else if !code.JString? then Failure(NoAttribute(code, "upper"))
      else
        var d := GetCodeDetails(code.s);
        ValidIffWellShaped(code.s);
        Success(EnrichedCode(code.s, Get(f, "description", JString(d.description)),
                             Get(f, "confidence", DefaultConfidence),
                             Get(f, "reasoning", JString("")), d.valid))
    case _ => Failure(NoAttribute(item, "get"))
  }

  /** A suggestion for a table code without its own description takes the
      table's description and is valid; missing fields take their defaults. */
  lemma ReferenceFillsIn(code: string)
    requires code in Reference
    ensures EnrichItem(JObject(map["code" := JString(code)])) ==
            Success(EnrichedCode(code, JString(Reference[code]), DefaultConfidence, JString(""), true))
  {
    ValidIffWellShaped(code);
  }

  /** The model's own description wins over the table's, and its confidence
      and reasoning are kept. */
  lemma ModelFieldsKept(code: string, description: Value, confidence: Value, reasoning: Value)
    ensures EnrichItem(JObject(map["code" := JString(code), "description" := description,
                                   "confidence" := confidence, "reasoning" := reasoning])) ==
            Success(EnrichedCode(code, description, confidence, reasoning, ValidateIcd10Code(code)))
  {
    var f := map["code" := JString(code), "description" := description,
                 "confidence" := confidence, "reasoning" := reasoning];
    assert "code" in f && f["code"] == JString(code);
  }

  /** An item without a code is enriched as the empty code, which is not
      in the table and has not the code shape. */
  lemma MissingCodeInvalid()
    ensures EnrichItem(JObject(map[])) ==
            Success(EnrichedCode("", JString(NotInReference), DefaultConfidence, JString(""), false))
  {
  }

  /** What `for code_item in suggested_codes` iterates over: a list's
      items, a string's characters; a dict yields its keys, each a string
      that has no `get`; a scalar is not iterable. */
  function Suggestions(codes: Value): (r: Result<seq<Value>, string>)
    ensures codes.JArray? ==> r == Success(codes.items)
    ensures codes.JString? ==> r.Success? && |r.value| == |codes.s|
    ensures codes.JObject? ==> (r == Success([]) <==> codes.fields == map[])
    ensures codes.JObject? && codes.fields != map[] ==> r == Failure(NoAttribute(JString(""), "get"))
    ensures codes.JNull? || codes.JBool? || codes.JInt? || codes.JFloat? ==>
              r == Failure("'" + TypeName(codes) + "' object is not iterable")
  {
    match codes
    case JArray(items) => Success(items)
    case JString(s) => Success(seq(|s|, i requires 0 <= i < |s| => JString([s[i]])))
    case JObject(f) => if f == map[] then Success([]) else Failure(NoAttribute(JString(""), "get"))
    case _ => Failure("'" + TypeName(codes) + "' object is not iterable")
  }

  /** Iterating a string yields its characters, each as a one-character string. */
  lemma StringSuggestions(s: string)
    ensures forall i :: 0 <= i < |s| ==> Suggestions(JString(s)).value[i] == JString([s[i]])
  {
  }

  /** Iterating a dict's keys fails on the first key exactly as the loop
      body fails on it. */
  lemma DictKeysFailLikeItems(codes: Value, k: string)
    requires codes.JObject? && k in codes.fields
    ensures Suggestions(codes) == Failure(EnrichItem(JString(k)).error)
  {
  }

  /** The loop over all items: the first failing item's error, or every
      item enriched in order. */
  function EnrichAll(items: seq<Value>): (r: Result<seq<EnrichedCode>, string>)
    ensures r.Success? ==> |r.value| == |items|
  {
    if items == [] then Success([])
    else
      match EnrichAll(items[..|items| - 1])
      case Failure(e) => Failure(e)
      case Success(done) =>
        match EnrichItem(items[|items| - 1])
        case Failure(e) => Failure(e)
        case Success(c) => Success(done + [c])
  }

  /** The loop succeeds exactly when every item enriches, and then keeps one
      record per item in order. */
  lemma {:induction false} EnrichAllSucceeds(items: seq<Value>)
    ensures EnrichAll(items).Success? <==> forall i :: 0 <= i < |items| ==> EnrichItem(items[i]).Success?
    ensures EnrichAll(items).Success? ==>
              forall i :: 0 <= i < |items| ==> Success(EnrichAll(items).value[i]) == EnrichItem(items[i])
    decreases |items|
  {
    if items != [] {
      var init := items[..|items| - 1];
      var last := items[|items| - 1];
      EnrichAllSucceeds(init);
      if EnrichAll(init).Success? && EnrichItem(last).Success? {
        var done := EnrichAll(init).value;
        assert EnrichAll(items).value == done + [EnrichItem(last).value];
        forall i | 0 <= i < |items|
          ensures EnrichItem(items[i]).Success? && Success(EnrichAll(items).value[i]) == EnrichItem(items[i])
        {
          if i < |init| { assert items[i] == init[i]; }
        }
      } else if EnrichAll(init).Success? {
        assert !EnrichItem(items[|items| - 1]).Success?;
      } else {
        var i :| 0 <= i < |init| && !EnrichItem(init[i]).Success?;
        assert items[i] == init[i];
      }
    }
  }

  /** A failing loop reports the error of the first item that fails. */
  lemma {:induction false} EnrichAllFails(items: seq<Value>)
    requires EnrichAll(items).Failure?
    ensures exists i :: 0 <= i < |items| && Failure(EnrichAll(items).error) == EnrichItem(items[i]) &&
                        forall j :: 0 <= j < i ==> EnrichItem(items[j]).Success?
    decreases |items|
  {
    var init := items[..|items| - 1];
    var last := items[|items| - 1];
    if EnrichAll(init).Success? {
      EnrichAllSucceeds(init);
      forall j | 0 <= j < |items| - 1 ensures EnrichItem(items[j]).Success? {
        assert items[j] == init[j];
      }
      assert Failure(EnrichAll(items).error) == EnrichItem(items[|items| - 1]);
    } else {
      EnrichAllFails(init);
      var i :| 0 <= i < |init| && Failure(EnrichAll(init).error) == EnrichItem(init[i]) &&
               forall j :: 0 <= j < i ==> EnrichItem(init[j]).Success?;
      forall j | 0 <= j < i ensures EnrichItem(items[j]).Success? {
        assert items[j] == init[j];
      }
      assert Failure(EnrichAll(items).error) == EnrichItem(items[i]);
    }
  }

  /** Every record carries the shape check's verdict on its own code. */
  predicate FlagsAgree(s: seq<EnrichedCode>) {
    forall i :: 0 <= i < |s| ==> s[i].valid == ValidateIcd10Code(s[i].code)
  }

  /** The loop's records all carry the right verdict. */
  lemma EnrichedFlags(items: seq<Value>)
    requires EnrichAll(items).Success?
    ensures FlagsAgree(EnrichAll(items).value)
  {
    EnrichAllSucceeds(items);
    var v := EnrichAll(items).value;
    forall i | 0 <= i < |v| ensures v[i].valid == ValidateIcd10Code(v[i].code) {
      assert Success(v[i]) == EnrichItem(items[i]);
    }
  }

  /** The append loop of lambda_handler, which stops at the first error. */
  method EnrichSuggestions(items: seq<Value>) returns (r: Result<seq<EnrichedCode>, string>)
    ensures r == EnrichAll(items)
  {
    var validated: seq<EnrichedCode> := [];
    var i := 0;
    while i < |items|
      invariant 0 <= i <= |items|
      invariant EnrichAll(items[..i]) == Success(validated)
    {
      assert items[..i + 1][..i] == items[..i];
      var e := EnrichItem(items[i]);
      if e.Failure? {
        FailureSticks(items, i + 1);
        return Failure(e.error);
      }
      validated := validated + [e.value];
      i := i + 1;
    }
    assert items[..|items|] == items;
    return Success(validated);
  }

  /** Once a prefix fails, the whole list fails with the same error. */
  lemma {:induction false} FailureSticks(items: seq<Value>, n: nat)
    requires n <= |items| && EnrichAll(items[..n]).Failure?
    ensures EnrichAll(items) == EnrichAll(items[..n])
    decreases |items| - n
  {
    if n < |items| {
      assert items[..n + 1][..n] == items[..n];
      FailureSticks(items, n + 1);
    } else {
      assert items[..n] == items;
    }
  }

  // ---- sorting: validated_codes.sort(key=confidence, reverse=True) ----

  /** A confidence that `<` orders against any other number: int, float
      or bool. */
  predicate IsNumber(v: Value) { v.JInt? || v.JFloat? || v.JBool? }

  /** The numeric value of a number (True is 1, False is 0); other values
      are never compared, since the sort refuses them first. */
  function Key(v: Value): (k: real)
    ensures v.JInt? ==> k == v.i as real
    ensures v.JFloat? ==> k == v.f
    ensures v.JBool? ==> k == if v.b then 1.0 else 0.0
  {
    match v
    case JInt(i) => i as real
    case JFloat(f) => f
    case JBool(b) => if b then 1.0 else 0.0
    case _ => 0.0
  }

  function Conf(c: EnrichedCode): real { Key(c.confidence) }

  /** Highest confidence first. */
  predicate Descending(s: seq<EnrichedCode>) {
    forall i, j :: 0 <= i < j < |s| ==> Conf(s[i]) >= Conf(s[j])
  }

  /** The sort compares keys only when there are two or more entries, and
      then every key must be a number. */
  predicate Orderable(s: seq<EnrichedCode>) {
    |s| <= 1 || forall i :: 0 <= i < |s| ==> IsNumber(s[i].confidence)
  }

  const UnorderableMessage: string := "'<' not supported between instances"

  /** Insertion of x behind every entry whose confidence is at least x's
      (what keeps the sort stable). */
  function Insert(t: seq<EnrichedCode>, x: EnrichedCode): (r: seq<EnrichedCode>)
    ensures |r| == |t| + 1
    decreases |t|
  {
    if t == [] then [x]
    else if Conf(t[|t| - 1]) >= Conf(x) then t + [x]
    else Insert(t[..|t| - 1], x) + [t[|t| - 1]]
  }

  /** Insertion adds x and loses nothing. */
  lemma {:induction false} InsertPermutes(t: seq<EnrichedCode>, x: EnrichedCode)
    ensures multiset(Insert(t, x)) == multiset(t) + multiset{x}
    decreases |t|
  {
    if t != [] {
      assert t == t[..|t| - 1] + [t[|t| - 1]];
      if Conf(t[|t| - 1]) < Conf(x) { InsertPermutes(t[..|t| - 1], x); }
    }
  }

  /** The stable descending sort, entry by entry from the left. */
  function SortByConfidence(s: seq<EnrichedCode>): (r: seq<EnrichedCode>)
    ensures |r| == |s|
    decreases |s|
  {
    if s == [] then []
    else Insert(SortByConfidence(s[..|s| - 1]), s[|s| - 1])
  }

  /** The sort is a permutation. */
  lemma {:induction false} SortPermutes(s: seq<EnrichedCode>)
    ensures multiset(SortByConfidence(s)) == multiset(s)
    decreases |s|
  {
    if s != [] {
      assert s == s[..|s| - 1] + [s[|s| - 1]];
      SortPermutes(s[..|s| - 1]);
      InsertPermutes(SortByConfidence(s[..|s| - 1]), s[|s| - 1]);
    }
  }

  /** Insertion into a descending list keeps it descending. */
  lemma {:induction false} InsertDescending(t: seq<EnrichedCode>, x: EnrichedCode)
    requires Descending(t)
    ensures Descending(Insert(t, x))
    decreases |t|
  {
    if t != [] && Conf(t[|t| - 1]) < Conf(x) {
      var init := t[..|t| - 1];
      var last := t[|t| - 1];
      InsertDescending(init, x);
      var u := Insert(init, x);
      InsertPermutes(init, x);
      forall i | 0 <= i < |u| ensures Conf(u[i]) >= Conf(last) {
        assert u[i] in multiset(u);
        if u[i] != x {
          assert u[i] in multiset(init);
          var k :| 0 <= k < |init| && init[k] == u[i];
          assert t[k] == init[k];
        }
      }
    }
  }

  /** The sort's result is in descending confidence. */
  lemma {:induction false} SortDescending(s: seq<EnrichedCode>)
    ensures Descending(SortByConfidence(s))
    decreases |s|
  {
    if s != [] {
      SortDescending(s[..|s| - 1]);
      InsertDescending(SortByConfidence(s[..|s| - 1]), s[|s| - 1]);
    }
  }

  /** The entries with confidence k, in their order. */
  function WithConfidence(s: seq<EnrichedCode>, k: real): (r: seq<EnrichedCode>)
    ensures forall i :: 0 <= i < |r| ==> Conf(r[i]) == k
    ensures |r| <= |s|
    decreases |s|
  {
    if s == [] then []
    else WithConfidence(s[..|s| - 1], k) + (if Conf(s[|s| - 1]) == k then [s[|s| - 1]] else [])
  }

  lemma {:induction false} WithConfidenceConcat(a: seq<EnrichedCode>, b: seq<EnrichedCode>, k: real)
    ensures WithConfidence(a + b, k) == WithConfidence(a, k) + WithConfidence(b, k)
    decreases |b|
  {
    if b != [] {
      assert (a + b)[..|a + b| - 1] == a + b[..|b| - 1];
      WithConfidenceConcat(a, b[..|b| - 1], k);
    } else {
      assert a + b == a;
    }
  }

  /** Insertion puts x behind every entry of equal confidence. */
  lemma {:induction false} InsertStable(t: seq<EnrichedCode>, x: EnrichedCode, k: real)
    ensures WithConfidence(Insert(t, x), k) == WithConfidence(t, k) + (if Conf(x) == k then [x] else [])
    decreases |t|
  {
    if t == [] {
    } else if Conf(t[|t| - 1]) >= Conf(x) {
      WithConfidenceConcat(t, [x], k);
    } else {
      var init := t[..|t| - 1];
      var last := t[|t| - 1];
      InsertStable(init, x, k);
      WithConfidenceConcat(Insert(init, x), [last], k);
    }
  }

  /** Stability: among entries of equal confidence the sort keeps the
      order the model gave them. */
  lemma {:induction false} SortStable(s: seq<EnrichedCode>, k: real)
    ensures WithConfidence(SortByConfidence(s), k) == WithConfidence(s, k)
    decreases |s|
  {
    if s != [] {
      SortStable(s[..|s| - 1], k);
      InsertStable(SortByConfidence(s[..|s| - 1]), s[|s| - 1], k);
    }
  }

  /** Every entry selected by confidence is an entry of the list. */
  lemma {:induction false} WithConfidenceIn(s: seq<EnrichedCode>, k: real, x: EnrichedCode)
    requires x in WithConfidence(s, k)
    ensures x in s
    decreases |s|
  {
    if x != s[|s| - 1] {
      WithConfidenceIn(s[..|s| - 1], k, x);
      assert s == s[..|s| - 1] + [s[|s| - 1]];
    }
  }

  /** The last entry is the last of those sharing its confidence. */
  lemma LastSelected(s: seq<EnrichedCode>)
    requires s != []
    ensures WithConfidence(s, Conf(s[|s| - 1])) == WithConfidence(s[..|s| - 1], Conf(s[|s| - 1])) + [s[|s| - 1]]
  {
  }

  /** A selected entry of a descending list is at least its last entry. */
  lemma SelectedAtLeastLast(s: seq<EnrichedCode>, k: real, x: EnrichedCode)
    requires s != [] && Descending(s) && x in WithConfidence(s, k)
    ensures k >= Conf(s[|s| - 1])
  {
    WithConfidenceIn(s, k, x);
    var i :| 0 <= i < |s| && s[i] == x;
    assert Conf(x) == k;
  }

  /** Two descending lists that agree entry-for-entry on every confidence
      level are the same list. */
  lemma {:induction false} DescendingUnique(a: seq<EnrichedCode>, b: seq<EnrichedCode>)
    requires Descending(a) && Descending(b)
    requires forall k :: WithConfidence(a, k) == WithConfidence(b, k)
    ensures a == b
    decreases |a|
  {
    EmptyTogether(a, b);
    if a != [] {
      var a', b' := a[..|a| - 1], b[..|b| - 1];
      LastAgrees(a, b, a', b');
      DescendingUnique(a', b');
      assert a == a' + [a[|a| - 1]] && b == b' + [b[|b| - 1]];
    }
  }

  /** Lists that agree on every confidence level are empty together. */
  lemma EmptyTogether(a: seq<EnrichedCode>, b: seq<EnrichedCode>)
    requires forall k :: WithConfidence(a, k) == WithConfidence(b, k)
    ensures a == [] <==> b == []
  {
    if a != [] { LastSelected(a); assert WithConfidence(b, Conf(a[|a| - 1])) != []; }
    if b != [] { LastSelected(b); assert WithConfidence(a, Conf(b[|b| - 1])) != []; }
  }

  /** Two such descending lists end with the same entry, and what precedes
      it agrees on every confidence level. */
  lemma LastAgrees(a: seq<EnrichedCode>, b: seq<EnrichedCode>, a': seq<EnrichedCode>, b': seq<EnrichedCode>)
    requires a != [] && b != [] && Descending(a) && Descending(b)
    requires a' == a[..|a| - 1] && b' == b[..|b| - 1]
    requires forall k :: WithConfidence(a, k) == WithConfidence(b, k)
    ensures a[|a| - 1] == b[|b| - 1]
    ensures forall k :: WithConfidence(a', k) == WithConfidence(b', k)
  {
    var la, lb := a[|a| - 1], b[|b| - 1];
    LastSelected(a);
    LastSelected(b);
    SelectedAtLeastLast(a, Conf(lb), lb);
    SelectedAtLeastLast(b, Conf(la), la);
    var k0 := Conf(la);
    assert Conf(lb) == k0;
    var fa, fb := WithConfidence(a', k0), WithConfidence(b', k0);
    assert fa + [la] == fb + [lb];
    assert la == (fa + [la])[|fa|] && lb == (fb + [lb])[|fb|];
    assert |fa| == |fb|;
    assert fa == (fa + [la])[..|fa|] && fb == (fb + [lb])[..|fb|];
    forall k ensures WithConfidence(a', k) == WithConfidence(b', k) {
      if k != k0 {
        assert WithConfidence(a, k) == WithConfidence(a', k);
        assert WithConfidence(b, k) == WithConfidence(b', k);
      }
    }
  }

  /** SortByConfidence is the stable descending sort: any descending
      arrangement that keeps the order within every confidence level is
      its result. */
  lemma SortIsStableSort(s: seq<EnrichedCode>, t: seq<EnrichedCode>)
    requires Descending(t) && forall k :: WithConfidence(t, k) == WithConfidence(s, k)
    ensures t == SortByConfidence(s)
  {
    SortDescending(s);
    forall k ensures WithConfidence(SortByConfidence(s), k) == WithConfidence(t, k) { SortStable(s, k); }
    DescendingUnique(SortByConfidence(s), t);
  }

  /** The insertion that the inner loop of SortInPlace performs: x lands at
      position j when everything from j on is below it and t[j-1] is not. */
  lemma {:induction false} InsertAt(t: seq<EnrichedCode>, x: EnrichedCode, j: nat)
    requires j <= |t|
    requires forall k :: j <= k < |t| ==> Conf(t[k]) < Conf(x)
    requires j == 0 || Conf(t[j - 1]) >= Conf(x)
    ensures Insert(t, x) == t[..j] + [x] + t[j..]
    decreases |t|
  {
    if j < |t| {
      InsertAt(t[..|t| - 1], x, j);
      assert t[..|t| - 1][..j] == t[..j];
      assert t[j..] == t[..|t| - 1][j..] + [t[|t| - 1]];
    } else {
      assert t[..j] == t;
    }
  }

  /** One pass of insertion sort: the entry at i moves left past every
      entry of lower confidence in the descending prefix before it. */
  method InsertInPlace(a: array<EnrichedCode>, i: nat)
    requires i < a.Length
    modifies a
    ensures a[..i + 1] == Insert(old(a[..i]), old(a[i]))
    ensures a[i + 1..] == old(a[i + 1..])
  {
    ghost var t := a[..i];
    var x := a[i];
    var j := i;
    while j > 0 && Conf(a[j - 1]) < Conf(x)
      invariant 0 <= j <= i
      invariant forall k :: 0 <= k < j ==> a[k] == t[k]
      invariant forall k :: j < k <= i ==> a[k] == t[k - 1]
      invariant forall k :: i < k < a.Length ==> a[k] == old(a[k])
      invariant forall k :: j <= k < i ==> Conf(t[k]) < Conf(x)
    {
      a[j] := a[j - 1];
      j := j - 1;
    }
    a[j] := x;
    InsertAt(t, x, j);
    Shifted(a[..i + 1], t, x, j);
  }

  /** The array prefix after the shifts and the final write. */
  lemma Shifted(u: seq<EnrichedCode>, t: seq<EnrichedCode>, x: EnrichedCode, j: nat)
    requires |u| == |t| + 1 && j <= |t| && u[j] == x
    requires forall k :: 0 <= k < j ==> u[k] == t[k]
    requires forall k :: j < k < |u| ==> u[k] == t[k - 1]
    ensures u == t[..j] + [x] + t[j..]
  {
    forall k | 0 <= k < |u| ensures u[k] == (t[..j] + [x] + t[j..])[k] {
      if k < j { assert (t[..j] + [x] + t[j..])[k] == t[k]; }
      else if k > j { assert (t[..j] + [x] + t[j..])[k] == t[k - 1]; }
    }
  }

  /** The sort of lambda_handler, in place: insertion sort that shifts
      lower-confidence entries right. */
  method SortInPlace(a: array<EnrichedCode>)
    modifies a
    ensures a[..] == SortByConfidence(old(a[..]))
  {
    ghost var s := a[..];
    var i := 0;
    while i < a.Length
      invariant 0 <= i <= a.Length
      invariant a[..i] == SortByConfidence(s[..i])
      invariant a[i..] == s[i..]
    {
      assert a[i] == s[i] by { assert a[i..][0] == s[i..][0]; }
      assert s[..i + 1][..i] == s[..i];
      InsertInPlace(a, i);
      assert a[i + 1..] == s[i + 1..] by { assert s[i + 1..] == s[i..][1..]; }
      i := i + 1;
    }
    assert a[..] == a[..a.Length];
    assert s == s[..a.Length];
  }

  /** The sort step of lambda_handler: with two or more entries, a
      confidence that is not a number makes the comparison raise. */
  function Rank(codes: seq<EnrichedCode>): (r: Result<seq<EnrichedCode>, string>)
    ensures r.Success? <==> Orderable(codes)
    ensures r.Failure? ==> r.error == UnorderableMessage
  {
    if Orderable(codes) then Success(SortByConfidence(codes))
    else Failure(UnorderableMessage)
  }

  /** A successful ranking is descending, a permutation of its input, and
      keeps the input order within every confidence level. */
  lemma RankSorts(codes: seq<EnrichedCode>)
    requires Orderable(codes)
    ensures Descending(Rank(codes).value) && multiset(Rank(codes).value) == multiset(codes)
    ensures forall k :: WithConfidence(Rank(codes).value, k) == WithConfidence(codes, k)
  {
    SortDescending(codes);
    SortPermutes(codes);
    forall k ensures WithConfidence(SortByConfidence(codes), k) == WithConfidence(codes, k) {
      SortStable(codes, k);
    }
  }

  /** Sorting moves records, never changes them. */
  lemma RankKeepsFlags(codes: seq<EnrichedCode>)
    requires Orderable(codes) && FlagsAgree(codes)
    ensures FlagsAgree(Rank(codes).value)
  {
    var r := Rank(codes).value;
    SortPermutes(codes);
    forall i | 0 <= i < |r| ensures r[i].valid == ValidateIcd10Code(r[i].code) {
      assert r[i] in multiset(codes);
      var k :| 0 <= k < |codes| && codes[k] == r[i];
    }
  }

  // ---- truncation: validated_codes[:top_k] ----

  /** The stop of a slice: none, or an integer (a bool counts as 0 or 1). */
  datatype Limit = All | Upto(n: int)

  const SliceIndexMessage: string := "slice indices must be integers or None or have an __index__ method"

  /** What `[:top_k]` makes of top_k; any other type raises a TypeError. */
  function SliceLimit(topK: Value): (r: Result<Limit, string>)
    ensures r.Success? <==> topK.JNull? || topK.JInt? || topK.JBool?
    ensures topK.JNull? ==> r == Success(All)
    ensures topK.JInt? ==> r == Success(Upto(topK.i))
    ensures topK.JBool? ==> r == Success(Upto(if topK.b then 1 else 0))
    ensures r.Failure? ==> r.error == SliceIndexMessage
  {
    match topK
    case JNull => Success(All)
    case JInt(i) => Success(Upto(i))
    case JBool(b) => Success(Upto(if b then 1 else 0))
    case _ => Failure(SliceIndexMessage)
  }

  /** Python's `s[:n]`: a prefix; a negative n counts from the end. */
  function Take<T>(s: seq<T>, lim: Limit): (r: seq<T>)
    ensures |r| <= |s| && r == s[..|r|]
    ensures lim.All? ==> r == s
    ensures lim.Upto? && lim.n >= 0 ==> |r| == (if lim.n <= |s| then lim.n else |s|)
    ensures lim.Upto? && lim.n < 0 ==> |r| == (if |s| + lim.n >= 0 then |s| + lim.n else 0)
  {
    match lim
    case All => s
    case Upto(n) =>
      if n >= 0 then (if n <= |s| then s[..n] else s)
      else if |s| + n >= 0 then s[..|s| + n]
      else []
  }

  /** The kept entries of a ranked list are still descending, and none of
      the dropped ones has a higher confidence than a kept one. */
  lemma TakeKeepsBest(s: seq<EnrichedCode>, lim: Limit)
    requires Descending(s)
    ensures Descending(Take(s, lim))
    ensures forall i, j :: 0 <= i < |Take(s, lim)| <= j < |s| ==> Conf(Take(s, lim)[i]) >= Conf(s[j])
  {
    var r := Take(s, lim);
    assert forall i :: 0 <= i < |r| ==> r[i] == s[i];
  }

  /** The cut keeps a prefix, so every kept record keeps its verdict. */
  lemma TakeKeepsFlags(s: seq<EnrichedCode>, lim: Limit)
    requires FlagsAgree(s)
    ensures FlagsAgree(Take(s, lim))
  {
    var r := Take(s, lim);
    assert forall i :: 0 <= i < |r| ==> r[i] == s[i];
  }

  /** Three suggestions with confidences 0.3, 0.9 and 0.5 and top_k 2
      come back as the 0.9 and 0.5 ones. */
  lemma RankExample(a: EnrichedCode, b: EnrichedCode, c: EnrichedCode)
    requires a.confidence == JFloat(0.3) && b.confidence == JFloat(0.9) && c.confidence == JFloat(0.5)
    ensures Rank([a, b, c]) == Success([b, c, a])
    ensures Take(Rank([a, b, c]).value, SliceLimit(JInt(2)).value) == [b, c]
  {
    assert [a, b, c][..2] == [a, b];
    assert [a, b][..1] == [a];
    assert SortByConfidence([a]) == [a];
    assert SortByConfidence([a, b]) == Insert([a], b) == [b, a];
    assert Insert([b, a], c) == Insert([b], c) + [a] == [b, c, a];
  }
}
