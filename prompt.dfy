/** The instruction prompt of suggest_icd10_codes: a fixed template with
    the clinical text, the serialised reference table and top_k spliced in. */
module PromptBuilder {
  import opened Wrappers
  import opened Text
  import Icd10

  const Intro: string :=
    "You are an expert medical coder. Analyze the following clinical text and suggest the most appropriate ICD-10 codes.\n" +
    "\n" +
    "Clinical Text:\n"

  const ReferenceHeading: string := "\n\nICD-10 Code Reference:\n"

  const TopKHeading: string := "\n\nProvide the top "

  const Instructions: string :=
    " most relevant ICD-10 codes in JSON format with:\n" +
    "- code: The ICD-10 code\n" +
    "- description: Full description\n" +
    "- confidence: Confidence score (0-1)\n" +
    "- reasoning: Brief explanation why this code applies\n" +
    "\n" +
    "Format your response as a valid JSON array."

  /** What stands between the clinical text and top_k. */
  const Middle: string := ReferenceHeading + Icd10.ReferenceJson + TopKHeading

  /** The f-string of the source; `topK` is str(top_k). */
  function BuildPrompt(clinicalText: string, topK: string): string {
    Intro + clinicalText + Middle + topK + Instructions
  }

  predicate IsNumberChar(c: char) { IsDigit(c) || c == '-' }

  /** Start of the longest suffix made of digits and minus signs. */
  function NumberRunStart(m: string): (k: nat)
    ensures k <= |m|
    ensures forall i :: k <= i < |m| ==> IsNumberChar(m[i])
    ensures k > 0 ==> !IsNumberChar(m[k - 1])
  {
    if m == [] || !IsNumberChar(m[|m| - 1]) then |m|
    else NumberRunStart(m[..|m| - 1])
  }

  /** Reads the clinical text and an integer top_k back out of a text of
      the shape intro + text + middle + top_k + outro. */
  function ParseTemplate(p: string, intro: string, middle: string, outro: string): Option<(string, int)> {
    if |p| < |intro| + |outro| || p[..|intro|] != intro || p[|p| - |outro|..] != outro then None
    else ParseBody(p[|intro|..|p| - |outro|], middle)
  }

  /** The part text + middle + top_k, split at the trailing number. */
  function ParseBody(m: string, middle: string): Option<(string, int)> {
    var k := NumberRunStart(m);
    if k < |middle| || m[k - |middle|..k] != middle then None
    else
      match ParseInt(m[k..])
      case None => None
      case Some(n) => Some((m[..k - |middle|], n))
  }

  function ParsePrompt(p: string): Option<(string, int)> {
    ParseTemplate(p, Intro, Middle, Instructions)
  }

  lemma {:induction false} NumberRunAfter(x: string, d: string)
    requires x != [] && !IsNumberChar(x[|x| - 1])
    requires forall i :: 0 <= i < |d| ==> IsNumberChar(d[i])
    ensures NumberRunStart(x + d) == |x|
    decreases |d|
  {
    if d == [] {
      assert x + d == x;
    } else {
      assert (x + d)[..|x + d| - 1] == x + d[..|d| - 1];
      NumberRunAfter(x, d[..|d| - 1]);
    }
  }

  lemma IntToStringNumberChars(n: int)
    ensures forall i :: 0 <= i < |IntToString(n)| ==> IsNumberChar(IntToString(n)[i])
  {
    if n < 0 {
      var r := NatToString(-n);
      assert forall i :: 1 <= i < |IntToString(n)| ==> IntToString(n)[i] == r[i - 1];
    }
  }

  lemma TemplateFrame(intro: string, m: string, outro: string, middle: string)
    ensures ParseTemplate(intro + m + outro, intro, middle, outro) == ParseBody(m, middle)
  {
    var p := intro + m + outro;
    assert p[..|intro|] == intro;
    assert p[|p| - |outro|..] == outro;
    assert p[|intro|..|p| - |outro|] == m;
  }

  lemma BodyRoundTrip(t: string, middle: string, n: int)
    requires middle != [] && !IsNumberChar(middle[|middle| - 1])
    ensures ParseBody(t + middle + IntToString(n), middle) == Some((t, n))
  {
    var d := IntToString(n);
    var x := t + middle;
    var m := x + d;
    assert x[|x| - 1] == middle[|middle| - 1];
    IntToStringNumberChars(n);
    NumberRunAfter(x, d);
    assert m[|x| - |middle|..|x|] == middle;
    assert m[|x|..] == d;
    assert m[..|x| - |middle|] == t;
    IntRoundTrip(n);
  }

  lemma TemplateRoundTrip(intro: string, middle: string, outro: string, t: string, n: int)
    requires middle != [] && !IsNumberChar(middle[|middle| - 1])
    ensures ParseTemplate(intro + t + middle + IntToString(n) + outro, intro, middle, outro) == Some((t, n))
  {
    var m := t + middle + IntToString(n);
    assert intro + t + middle + IntToString(n) + outro == intro + m + outro;
    TemplateFrame(intro, m, outro, middle);
    BodyRoundTrip(t, middle, n);
  }

  /** The prompt determines the clinical text and an integer top_k: parsing
      the prompt built from them gives them back. */
  lemma PromptRoundTrip(clinicalText: string, n: int)
    ensures ParsePrompt(BuildPrompt(clinicalText, IntToString(n))) == Some((clinicalText, n))
  {
    assert Middle[|Middle| - 1] == ' ' by { assert TopKHeading[|TopKHeading| - 1] == ' '; }
    TemplateRoundTrip(Intro, Middle, Instructions, clinicalText, n);
  }

  /** Hence different inputs never produce the same prompt. */
  lemma PromptInjective(t1: string, n1: int, t2: string, n2: int)
    requires BuildPrompt(t1, IntToString(n1)) == BuildPrompt(t2, IntToString(n2))
    ensures t1 == t2 && n1 == n2
  {
    PromptRoundTrip(t1, n1);
    PromptRoundTrip(t2, n2);
  }
}
