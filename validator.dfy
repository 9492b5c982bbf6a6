/** validate_clinical_text: the three input checks, in the order the
    source runs them. */
module InputValidator {
  import opened Wrappers
  import opened Text

  const MinLength: nat := 15

  const MedicalKeywords: seq<string> := [
    "patient", "diagnosis", "symptom", "condition", "disease", "pain",
    "fever", "cough", "blood", "pressure", "diabetes", "hypertension",
    "heart", "kidney", "liver", "lung", "chronic", "acute", "treatment",
    "medication", "injury", "fracture", "infection", "inflammation",
    "presents", "complaints", "history", "examination", "findings"
  ]

  const TooShortMessage: string := "Clinical text must be at least 15 characters long"
  const NotClinicalMessage: string :=
    "Input does not appear to contain valid medical/clinical information. Please provide relevant clinical documentation."
  const TooNoisyMessage: string :=
    "Input contains too many invalid characters. Please provide clear clinical text."

  /** Some keyword occurs somewhere in t. */
  ghost predicate Mentions(t: string, keywords: seq<string>) {
    exists k: nat, i: nat :: k < |keywords| && OccursAt(t, keywords[k], i)
  }

  /** `any(keyword in t for keyword in keywords)`. */
  function AnyKeyword(t: string, keywords: seq<string>): (b: bool)
    ensures b <==> Mentions(t, keywords)
  {
    if keywords == [] then false
    else
      var rest := AnyKeyword(t, keywords[1..]);
      var here := Contains(t, keywords[0]);
      assert here ==> Mentions(t, keywords) by {
        if here { var i: nat :| OccursAt(t, keywords[0], i); assert OccursAt(t, keywords[0], i); }
      }
      assert rest ==> Mentions(t, keywords) by {
        if rest {
          var k: nat, i: nat :| k < |keywords[1..]| && OccursAt(t, keywords[1..][k], i);
          assert keywords[1..][k] == keywords[k + 1];
        }
      }
      assert Mentions(t, keywords) ==> here || rest by {
        if Mentions(t, keywords) {
          var k: nat, i: nat :| k < |keywords| && OccursAt(t, keywords[k], i);
          if k == 0 { assert OccursAt(t, keywords[0], i); }
          else { assert keywords[1..][k - 1] == keywords[k]; assert OccursAt(t, keywords[1..][k - 1], i); }
        }
      }
      here || rest
  }

  /** The keyword check of the source: a keyword occurs in the lower-cased text. */
  function HasMedicalContent(text: string): (b: bool)
    ensures b <==> Mentions(Lower(text), MedicalKeywords)
  {
    AnyKeyword(Lower(text), MedicalKeywords)
  }

  /** `sum(c.isalpha() or c.isspace() for c in text)`. */
  function LetterOrSpaceCount(s: string): (n: nat)
    ensures n <= |s|
  {
    if s == [] then 0
    else LetterOrSpaceCount(s[..|s| - 1]) + (if IsLetter(s[|s| - 1]) || IsSpace(s[|s| - 1]) then 1 else 0)
  }

  /** `alpha_chars / len(text) < 0.6`, in exact arithmetic. */
  predicate TooNoisy(text: string) {
    5 * LetterOrSpaceCount(text) < 3 * |text|
  }

  /** validate_clinical_text: (True, None) when the text is accepted,
      otherwise False and the message of the first check that failed. */
  function ValidateClinicalText(text: string): (r: (bool, Option<string>))
    ensures r.0 <==> r.1 == None
    ensures |Strip(text)| < MinLength <==> r == (false, Some(TooShortMessage))
  {
    if text == [] || |Strip(text)| < MinLength then (false, Some(TooShortMessage))
    else if !HasMedicalContent(text) then (false, Some(NotClinicalMessage))
    else if 5 * LetterOrSpaceCount(text) < 3 * |text| then (false, Some(TooNoisyMessage))
    else (true, None)
  }

  /** Each verdict in terms of what it checks: past the length check, no
      keyword gives the second message, too few letters and spaces the
      third, and otherwise the text is accepted. */
  lemma Verdicts(text: string)
    ensures ValidateClinicalText(text) == (false, Some(NotClinicalMessage)) <==>
              |Strip(text)| >= MinLength && !Mentions(Lower(text), MedicalKeywords)
    ensures ValidateClinicalText(text) == (false, Some(TooNoisyMessage)) <==>
              |Strip(text)| >= MinLength && Mentions(Lower(text), MedicalKeywords) && TooNoisy(text)
    ensures ValidateClinicalText(text) == (true, None) <==>
              |Strip(text)| >= MinLength && Mentions(Lower(text), MedicalKeywords) && !TooNoisy(text)
  {
  }

  /** Any text shorter than 15 characters is too short, whatever it holds. */
  lemma ShortTextRejected(text: string)
    requires |text| < MinLength
    ensures ValidateClinicalText(text) == (false, Some(TooShortMessage))
  {
  }

  lemma {:induction false} CountConcat(a: string, b: string)
    ensures LetterOrSpaceCount(a + b) == LetterOrSpaceCount(a) + LetterOrSpaceCount(b)
    decreases |b|
  {
    if b == [] {
      assert a + b == a;
    } else {
      assert (a + b)[..|a + b| - 1] == a + b[..|b| - 1];
      CountConcat(a, b[..|b| - 1]);
    }
  }

  lemma {:induction false} CountAllSpace(w: string)
    requires AllSpace(w)
    ensures LetterOrSpaceCount(w) == |w|
    decreases |w|
  {
    if w != [] { CountAllSpace(w[..|w| - 1]); }
  }

  lemma {:induction false} CountUpper(s: string)
    ensures LetterOrSpaceCount(Upper(s)) == LetterOrSpaceCount(s)
    decreases |s|
  {
    if s != [] {
      assert Upper(s)[..|s| - 1] == Upper(s[..|s| - 1]);
      CountUpper(s[..|s| - 1]);
    }
  }

  lemma {:induction false} CountLower(s: string)
    ensures LetterOrSpaceCount(Lower(s)) == LetterOrSpaceCount(s)
    decreases |s|
  {
    if s != [] {
      assert Lower(s)[..|s| - 1] == Lower(s[..|s| - 1]);
      CountLower(s[..|s| - 1]);
    }
  }

  /** The verdict depends only on the strip length, the lower-cased text,
      the length and the letter-or-space count. */
  lemma SameMeasuresSameVerdict(t1: string, t2: string)
    requires |Strip(t1)| == |Strip(t2)| && Lower(t1) == Lower(t2)
    requires |t1| == |t2| && LetterOrSpaceCount(t1) == LetterOrSpaceCount(t2)
    ensures ValidateClinicalText(t1) == ValidateClinicalText(t2)
  {
    assert HasMedicalContent(t1) == HasMedicalContent(t2);
  }

  /** Validation does not depend on letter case: the length check sees the
      same strip length, the keyword check lower-cases anyway, and case
      changes keep letters letters. */
  lemma ValidateIgnoresCase(text: string)
    ensures ValidateClinicalText(Upper(text)) == ValidateClinicalText(text)
    ensures ValidateClinicalText(Lower(text)) == ValidateClinicalText(text)
  {
    UpperMeasures(text);
    LowerMeasures(text);
    SameMeasuresSameVerdict(Upper(text), text);
    SameMeasuresSameVerdict(Lower(text), text);
  }

  lemma UpperMeasures(text: string)
    ensures |Strip(Upper(text))| == |Strip(text)| && Lower(Upper(text)) == Lower(text)
    ensures LetterOrSpaceCount(Upper(text)) == LetterOrSpaceCount(text)
  {
    StripUpper(text);
    CountUpper(text);
    LowerOfUpper(text);
  }

  lemma LowerMeasures(text: string)
    ensures |Strip(Lower(text))| == |Strip(text)| && Lower(Lower(text)) == Lower(text)
    ensures LetterOrSpaceCount(Lower(text)) == LetterOrSpaceCount(text)
  {
    StripLower(text);
    CountLower(text);
    LowerOfLower(text);
  }

  lemma LowerOfUpper(s: string)
    ensures Lower(Upper(s)) == Lower(s)
  {
  }

  lemma LowerOfLower(s: string)
    ensures Lower(Lower(s)) == Lower(s)
  {
  }

  /** Surrounding an accepted text with whitespace keeps it accepted: the
      strip is unchanged, the keyword is still there, and whitespace only
      raises the share of letters and spaces. */
  lemma PaddingKeepsAccepted(w1: string, text: string, w2: string)
    requires AllSpace(w1) && AllSpace(w2)
    requires ValidateClinicalText(text) == (true, None)
    ensures ValidateClinicalText(w1 + text + w2) == (true, None)
  {
    StripPadded(w1, text, w2);
    PaddingKeepsMention(w1, text, w2);
    PaddingCount(w1, text, w2);
  }

  lemma PaddingKeepsMention(w1: string, text: string, w2: string)
    requires HasMedicalContent(text)
    ensures HasMedicalContent(w1 + text + w2)
  {
    var p := w1 + text + w2;
    var lp := Lower(p);
    var lt := Lower(text);
    forall m | 0 <= m < |lt| ensures lp[|w1|..|w1| + |lt|][m] == lt[m] {
      assert p[|w1| + m] == text[m];
    }
    MentionInside(lp, lt, |w1|, MedicalKeywords);
  }

  /** A keyword that occurs in t occurs in any u that holds t at offset d. */
  lemma MentionInside(u: string, t: string, d: nat, keywords: seq<string>)
    requires d + |t| <= |u| && u[d..d + |t|] == t && Mentions(t, keywords)
    ensures Mentions(u, keywords)
  {
    var k: nat, i: nat :| k < |keywords| && OccursAt(t, keywords[k], i);
    var w := keywords[k];
    forall m | 0 <= m < |w| ensures u[d + i..d + i + |w|][m] == w[m] {
      assert t[i..i + |w|][m] == w[m];
      assert u[d..d + |t|][i + m] == t[i + m];
    }
    assert OccursAt(u, w, d + i);
  }

  lemma PaddingCount(w1: string, text: string, w2: string)
    requires AllSpace(w1) && AllSpace(w2)
    ensures LetterOrSpaceCount(w1 + text + w2) == |w1| + LetterOrSpaceCount(text) + |w2|
  {
    CountConcat(w1 + text, w2);
    CountConcat(w1, text);
    CountAllSpace(w1);
    CountAllSpace(w2);
  }
}
