/** The ICD-10 reference table, the code-shape check validate_icd10_code
    and the lookup get_code_details. */
module Icd10 {
  import opened Text

  /** ICD10_REFERENCE: code to canonical description. */
  const Reference: map<string, string> := map[
    "I10" := "Essential (primary) hypertension",
    "E11.9" := "Type 2 diabetes mellitus without complications",
    "J44.9" := "Chronic obstructive pulmonary disease, unspecified",
    "I25.10" := "Atherosclerotic heart disease of native coronary artery without angina pectoris",
    "F41.9" := "Anxiety disorder, unspecified",
    "M79.3" := "Panniculitis, unspecified",
    "K21.9" := "Gastro-esophageal reflux disease without esophagitis",
    "N18.9" := "Chronic kidney disease, unspecified",
    "E78.5" := "Hyperlipidemia, unspecified",
    "I50.9" := "Heart failure, unspecified"
  ]

  /** json.dumps(ICD10_REFERENCE, indent=2): the table in insertion order,
      two-space indentation, ", " kept inside descriptions. */
  const ReferenceJson: string :=
    "{\n" +
    "  \"I10\": \"Essential (primary) hypertension\",\n" +
    "  \"E11.9\": \"Type 2 diabetes mellitus without complications\",\n" +
    "  \"J44.9\": \"Chronic obstructive pulmonary disease, unspecified\",\n" +
    "  \"I25.10\": \"Atherosclerotic heart disease of native coronary artery without angina pectoris\",\n" +
    "  \"F41.9\": \"Anxiety disorder, unspecified\",\n" +
    "  \"M79.3\": \"Panniculitis, unspecified\",\n" +
    "  \"K21.9\": \"Gastro-esophageal reflux disease without esophagitis\",\n" +
    "  \"N18.9\": \"Chronic kidney disease, unspecified\",\n" +
    "  \"E78.5\": \"Hyperlipidemia, unspecified\",\n" +
    "  \"I50.9\": \"Heart failure, unspecified\"\n" +
    "}"

  const NotInReference: string := "Code not in reference database"

  predicate IsCodeChar(c: char) { IsDigit(c) || IsUpperLetter(c) }

  /** re.match(r'^[A-Z][0-9]{2}\.?[0-9A-Z]{0,4}$', u): one capital letter,
      two digits, an optional dot taken whenever present, then at most four
      digits or capitals, up to the end of the text. */
  predicate MatchesCodePattern(u: string) {
    |u| >= 3 && IsUpperLetter(u[0]) && IsDigit(u[1]) && IsDigit(u[2]) &&
    var rest := if |u| > 3 && u[3] == '.' then u[4..] else u[3..];
    |rest| <= 4 && forall i :: 0 <= i < |rest| ==> IsCodeChar(rest[i])
  }

  /** validate_icd10_code: the pattern applied to code.upper(). */
  function ValidateIcd10Code(code: string): (ok: bool)
    ensures ok ==> 3 <= |code| <= 8
    ensures ok ==> IsDigit(code[1]) && IsDigit(code[2])
  {
    MatchesCodePattern(Upper(code))
  }

  /** The pieces of a code of the accepted shape. */
  datatype CodeParts = CodeParts(category: char, d1: char, d2: char, dot: bool, tail: string)

  predicate WellFormedParts(p: CodeParts) {
    IsUpperLetter(p.category) && IsDigit(p.d1) && IsDigit(p.d2) &&
    |p.tail| <= 4 && forall i :: 0 <= i < |p.tail| ==> IsCodeChar(p.tail[i])
  }

  function Compose(p: CodeParts): string {
    [p.category, p.d1, p.d2] + (if p.dot then "." else "") + p.tail
  }

  function Decompose(u: string): CodeParts
    requires MatchesCodePattern(u)
  {
    var dot := |u| > 3 && u[3] == '.';
    CodeParts(u[0], u[1], u[2], dot, if dot then u[4..] else u[3..])
  }

  /** Every well-formed assembly of pieces matches the pattern and splits
      back into the same pieces. */
  lemma ComposeMatches(p: CodeParts)
    requires WellFormedParts(p)
    ensures MatchesCodePattern(Compose(p))
    ensures Decompose(Compose(p)) == p
  {
    var u := Compose(p);
    if p.dot {
      assert u[4..] == p.tail;
    } else {
      assert u[3..] == p.tail;
      assert |u| > 3 ==> u[3] == p.tail[0];
    }
  }

  /** Every text matching the pattern is such an assembly: the pattern
      describes exactly letter, digit, digit, optional dot, up to four
      code characters. */
  lemma DecomposeComposes(u: string)
    requires MatchesCodePattern(u)
    ensures WellFormedParts(Decompose(u))
    ensures Compose(Decompose(u)) == u
  {
    var p := Decompose(u);
    if p.dot {
      assert u == [u[0], u[1], u[2]] + "." + u[4..];
    } else {
      assert u == [u[0], u[1], u[2]] + u[3..];
    }
  }

  lemma UpperIdempotent(s: string)
    ensures Upper(Upper(s)) == Upper(s)
  {
  }

  lemma UpperOfLower(s: string)
    ensures Upper(Lower(s)) == Upper(s)
  {
  }

  /** The check ignores letter case. */
  lemma ValidateIgnoresCase(code: string)
    ensures ValidateIcd10Code(Upper(code)) == ValidateIcd10Code(code)
    ensures ValidateIcd10Code(Lower(code)) == ValidateIcd10Code(code)
  {
    UpperIdempotent(code);
    UpperOfLower(code);
  }

  /** The result of get_code_details. */
  datatype CodeDetails = CodeDetails(code: string, description: string, valid: bool)

  /** get_code_details: an exact (case-sensitive) table hit gives the
      canonical description and validity; otherwise the placeholder text and
      the shape check decides validity. */
  function GetCodeDetails(code: string): (d: CodeDetails)
    ensures d.code == code
    ensures d.description == (if code in Reference then Reference[code] else NotInReference)
  {
    if code in Reference then CodeDetails(code, Reference[code], true)
    else CodeDetails(code, NotInReference, ValidateIcd10Code(code))
  }

  lemma ComposedIsUpper(p: CodeParts)
    requires WellFormedParts(p)
    ensures Upper(Compose(p)) == Compose(p)
  {
  }

  /** Every code of the reference table has the accepted shape. */
  lemma ReferenceCodesWellFormed()
    ensures forall c :: c in Reference ==> MatchesCodePattern(Upper(c))
  {
    forall c | c in Reference ensures MatchesCodePattern(Upper(c)) {
      var p :=
        if c == "I10" then CodeParts('I', '1', '0', false, "")
        else if c == "E11.9" then CodeParts('E', '1', '1', true, "9")
        else if c == "J44.9" then CodeParts('J', '4', '4', true, "9")
        else if c == "I25.10" then CodeParts('I', '2', '5', true, "10")
        else if c == "F41.9" then CodeParts('F', '4', '1', true, "9")
        else if c == "M79.3" then CodeParts('M', '7', '9', true, "3")
        else if c == "K21.9" then CodeParts('K', '2', '1', true, "9")
        else if c == "N18.9" then CodeParts('N', '1', '8', true, "9")
        else if c == "E78.5" then CodeParts('E', '7', '8', true, "5")
        else CodeParts('I', '5', '0', true, "9");
      assert c == Compose(p);
      ComposedIsUpper(p);
      ComposeMatches(p);
    }
  }

  /** Hence validity as reported is exactly the shape check, whether or not
      the code is in the table. */
  lemma ValidIffWellShaped(code: string)
    ensures GetCodeDetails(code).valid == ValidateIcd10Code(code)
  {
    ReferenceCodesWellFormed();
  }

  /** The worked cases: I10 and A00. have the shape, Z999.999 does not,
      and i10 has the shape but misses the case-sensitive table lookup. */
  lemma Examples()
    ensures GetCodeDetails("I10") == CodeDetails("I10", "Essential (primary) hypertension", true)
    ensures ValidateIcd10Code("A00.")
    ensures GetCodeDetails("Z999.999") == CodeDetails("Z999.999", NotInReference, false)
    ensures GetCodeDetails("i10") == CodeDetails("i10", NotInReference, true)
  {
  }
}
