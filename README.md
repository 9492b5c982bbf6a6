# ICD-10 code suggestion pipeline, modelled in Dafny

This project models the Lambda function that suggests ICD-10 codes for a
piece of clinical text (`backend/lambda_functions/icd10_coding.py`). The
function does the following, in order:

- reads `clinical_text` and `top_k` from the request body;
- rejects missing text with a 400 response;
- checks that the text looks clinical: long enough, contains a medical
  keyword, not mostly symbols;
- builds a fixed instruction prompt;
- asks the primary text generator (Amazon Titan on Bedrock) and, when that
  fails and an endpoint is configured, the fallback (SageMaker BioGPT);
- pulls a JSON list of suggestions out of the reply, in three tiers: the
  whole reply, else the first ```` ```json ```` fence, else a greedy
  `[ { … } ]` span;
- enriches every suggestion from a ten-entry reference table and a code-shape
  check;
- sorts by confidence, highest first and stably;
- cuts the list to `top_k` and answers 200;
- turns every exception on the way into a 500 response carrying its text.

Modules, one per stage:

- `Wrappers`: the `Option` and `Result` types.
- `Text`: the ASCII string operations Python provides and the code relies on:
  `str.strip`, `lower`, `upper`, the `in` substring test, `str(int)`, and the
  `\s` whitespace class.
- `Json`: the values `json.loads` produces, plus Python truthiness and
  `dict.get`. `json.loads` itself is the parameter `parse: Parser`.
- `Icd10`: the reference table, `validate_icd10_code` and `get_code_details`.
- `InputValidator`: `validate_clinical_text`.
- `PromptBuilder`: the prompt f-string, with a parser that proves the
  splicing can be undone.
- `Gateway`: the primary/fallback call chain. The generators are parameters
  of type `GenerateFn`, and every call made is recorded as an `Attempt`.
- `Extractor`: the three-tier extraction. Both regular-expression searches
  are written out as string functions, with declarative match predicates
  and completeness lemmas.
- `Ranking`: the enrichment loop, which is a method with a loop invariant.
  It also holds the stable descending sort (a specification function plus an
  in-place insertion sort on an array proved equal to it), the `top_k` slice
  and Python's slice semantics.
- `Handler`: `lambda_handler`. It is a specification function
  `HandleRequest`, plus the method `LambdaHandler`, which is proved equal to
  it. `LambdaHandler` hands the reply to the method `FinishReply`, which runs
  the append loop and the in-place sort and is proved equal to the function
  `Finish`.

Three behaviours of the code are worth naming, since a reader might expect
otherwise:

- When both generators fail, the fallback's exception propagates: it is the
  one raised inside the `except` block (lines 112-126).
  `Gateway.FallbackAnswers` states this.
- A suggestion's own `description` wins over the table text, because
  `code_item.get('description', …)` uses the table text only as the default
  (line 206). `Ranking.ModelFieldsKept` and `Ranking.ReferenceFillsIn` state
  both cases.
- The fallback is asked for 500 new tokens and the primary for 2000 (lines
  118 and 91). `Gateway.Generate` states these numbers.

Python's run-time type errors are part of the model. Each becomes a
`Failure` carrying CPython's message, and so a 500 response. This covers:

- a body that is not a dict;
- a `clinical_text` that is not a string;
- a suggestion that is not a dict;
- a code that is a list or dict (unhashable) or another non-string;
- a scalar where a list of suggestions was expected;
- a `top_k` that cannot be a slice index.

## Model

| member | source | states |
|---|---|---|
| `Text.Strip` | backend/lambda_functions/icd10_coding.py:32 | `str.strip()`: the result is no longer than the text and neither starts nor ends with whitespace |
| `Text.StripSpec` | backend/lambda_functions/icd10_coding.py:32 | the result is the text with a whitespace run removed from each end: text = leading spaces + result + trailing spaces |
| `Text.StripEmpty` | backend/lambda_functions/icd10_coding.py:32-33 | the result is empty exactly when the text is all whitespace |
| `Text.StripUnique` | backend/lambda_functions/icd10_coding.py:32 | any two strips of the same text are equal, so the declarative strip relation defines one result |
| `Text.StripIdempotent` | backend/lambda_functions/icd10_coding.py:32 | stripping twice is stripping once |
| `Text.StripPadded` | backend/lambda_functions/icd10_coding.py:32 | whitespace padded around a trimmed text is removed again |
| `Text.StripUpper` | backend/lambda_functions/icd10_coding.py:32 | stripping commutes with upper-casing: `Strip(Upper(s)) == Upper(Strip(s))` |
| `Text.StripLower` | backend/lambda_functions/icd10_coding.py:32 | stripping commutes with lower-casing: `Strip(Lower(s)) == Lower(Strip(s))` |
| `Text.Lower` | backend/lambda_functions/icd10_coding.py:44 | `str.lower()` character by character: capitals mapped to small letters, everything else kept |
| `Text.Upper` | backend/lambda_functions/icd10_coding.py:155 | `str.upper()` character by character: small letters mapped to capitals, everything else kept |
| `Text.SkipSpaces` | backend/lambda_functions/icd10_coding.py:136 | a greedy `\s*` from a position: it stops at the first non-whitespace character and everything before it is whitespace |
| `Text.SkipSpacesLands` | backend/lambda_functions/icd10_coding.py:136 | after a whitespace run, the greedy `\s*` stops at the first non-whitespace character |
| `Text.TrailingSpaceStart` | backend/lambda_functions/icd10_coding.py:32 | the start of the trailing whitespace run: all whitespace from there on, and a non-whitespace character just before it |
| `Text.TrailingLands` | backend/lambda_functions/icd10_coding.py:32 | any position after a non-whitespace character with only whitespace beyond it is that start |
| `Text.IndexOf` | backend/lambda_functions/icd10_coding.py:136 | the first occurrence of a pattern at or after a position; None exactly when there is none |
| `Text.Contains` | backend/lambda_functions/icd10_coding.py:45 | Python's `keyword in text`: true exactly when the keyword occurs at some position |
| `Text.NatToString` | backend/lambda_functions/icd10_coding.py:78 | `str(n)` for a natural number: a non-empty run of digits with no leading zero |
| `Text.IntToString` | backend/lambda_functions/icd10_coding.py:78 | `str(i)`: non-empty, starting with a minus sign exactly when i is negative, digits after the first character; `Text.IntRoundTrip` reads it back |
| `Text.NatRoundTrip` | backend/lambda_functions/icd10_coding.py:78 | reading the digits of `str(n)` gives back n |
| `Text.IntRoundTrip` | backend/lambda_functions/icd10_coding.py:78 | reading `str(i)` back gives i, negative numbers included |
| `Json.Truthy` | backend/lambda_functions/icd10_coding.py:185 | Python truthiness: a value is falsy exactly when it is None, False, 0, 0.0, `''`, `[]` or `{}` |
| `Json.Get` | backend/lambda_functions/icd10_coding.py:182-183 | `dict.get(key, default)`: the stored value when the key is present, the default otherwise |
| `InputValidator.AnyKeyword` | backend/lambda_functions/icd10_coding.py:45 | `any(k in t for k in keywords)` is true exactly when some keyword occurs in t |
| `InputValidator.HasMedicalContent` | backend/lambda_functions/icd10_coding.py:36-45 | true exactly when one of the 29 keywords occurs in the lower-cased text |
| `InputValidator.LetterOrSpaceCount` | backend/lambda_functions/icd10_coding.py:51 | the count of letters and whitespace characters, never more than the length |
| `InputValidator.ValidateClinicalText` | backend/lambda_functions/icd10_coding.py:27-55 | the message is None exactly on acceptance, and the length message is given exactly when the trimmed length is under 15 |
| `InputValidator.Verdicts` | backend/lambda_functions/icd10_coding.py:27-55 | each other outcome holds exactly under its condition, in the source's order: not clinical when long enough with no keyword; too noisy when it has a keyword and letters plus whitespace are under 60%; otherwise `(True, None)` |
| `InputValidator.ShortTextRejected` | backend/lambda_functions/icd10_coding.py:32-33 | any text under 15 characters is rejected with the length message, whatever it contains |
| `InputValidator.CountConcat` | backend/lambda_functions/icd10_coding.py:51 | the letter-or-space count adds up over concatenation |
| `InputValidator.CountAllSpace` | backend/lambda_functions/icd10_coding.py:51 | every character of a whitespace run is counted |
| `InputValidator.CountUpper` | backend/lambda_functions/icd10_coding.py:51 | upper-casing keeps the count |
| `InputValidator.CountLower` | backend/lambda_functions/icd10_coding.py:51 | lower-casing keeps the count |
| `InputValidator.SameMeasuresSameVerdict` | backend/lambda_functions/icd10_coding.py:27-55 | texts with the same trimmed length, keyword verdict, count and length get the same verdict |
| `InputValidator.ValidateIgnoresCase` | backend/lambda_functions/icd10_coding.py:27-55 | upper- or lower-casing a text never changes its verdict |
| `InputValidator.UpperMeasures` | backend/lambda_functions/icd10_coding.py:32-51 | upper-casing keeps the trimmed length, the lower-cased form and the count |
| `InputValidator.LowerMeasures` | backend/lambda_functions/icd10_coding.py:32-51 | lower-casing keeps the trimmed length, the lower-cased form and the count |
| `InputValidator.LowerOfUpper` | backend/lambda_functions/icd10_coding.py:44 | lower-casing after upper-casing is plain lower-casing |
| `InputValidator.LowerOfLower` | backend/lambda_functions/icd10_coding.py:44 | lower-casing is idempotent |
| `InputValidator.PaddingKeepsAccepted` | backend/lambda_functions/icd10_coding.py:27-55 | an accepted text stays accepted when whitespace is added around it |
| `InputValidator.PaddingKeepsMention` | backend/lambda_functions/icd10_coding.py:45 | a keyword found in a text is still found after padding |
| `InputValidator.MentionInside` | backend/lambda_functions/icd10_coding.py:45 | a keyword that occurs in a text occurs in every text that contains it |
| `InputValidator.PaddingCount` | backend/lambda_functions/icd10_coding.py:51 | padding adds exactly its own length to the count |
| `PromptBuilder.BuildPrompt` | backend/lambda_functions/icd10_coding.py:70-84 | the prompt f-string: fixed introduction, the clinical text, the reference table as `json.dumps(..., indent=2)`, `str(top_k)` and the fixed instructions; `PromptBuilder.PromptRoundTrip` and `PromptBuilder.PromptInjective` state that both values can be read back and that different values give different prompts |
| `PromptBuilder.NumberRunStart` | backend/lambda_functions/icd10_coding.py:78 | locates the run of digits and minus signs that ends a text, used to read `top_k` back out of a prompt |
| `PromptBuilder.NumberRunAfter` | backend/lambda_functions/icd10_coding.py:78 | a run of number characters after a non-number character starts right after it |
| `PromptBuilder.IntToStringNumberChars` | backend/lambda_functions/icd10_coding.py:78 | `str(top_k)` of an integer is made of number characters only |
| `PromptBuilder.TemplateFrame` | backend/lambda_functions/icd10_coding.py:70-84 | the template parser strips the fixed introduction and instructions exactly |
| `PromptBuilder.BodyRoundTrip` | backend/lambda_functions/icd10_coding.py:72-78 | what lies between the clinical text and the instructions parses back into that text and that number |
| `PromptBuilder.TemplateRoundTrip` | backend/lambda_functions/icd10_coding.py:70-84 | any template of this shape gives back the spliced clinical text and `top_k` |
| `PromptBuilder.PromptRoundTrip` | backend/lambda_functions/icd10_coding.py:70-84 | the prompt, which holds the reference table as json.dumps with indent 2, gives back exactly the clinical text and integer `top_k` spliced into it |
| `PromptBuilder.PromptInjective` | backend/lambda_functions/icd10_coding.py:70-84 | different clinical texts or `top_k` values always give different prompts |
| `Gateway.Settings.ModelId` | backend/lambda_functions/icd10_coding.py:67 | `os.environ.get('BEDROCK_MODEL_ID', ...)`: the variable when set, `amazon.titan-text-express-v1` otherwise |
| `Gateway.Settings.FallbackConfigured` | backend/lambda_functions/icd10_coding.py:108 | `if sagemaker_endpoint:`: the variable is set and not empty |
| `Gateway.Generate` | backend/lambda_functions/icd10_coding.py:86-128 | the primary is called first, with the model id (default `amazon.titan-text-express-v1`), the prompt and 2000/0.1/0.9. A second call happens exactly when the primary failed and an endpoint is set, and goes to that endpoint with the same prompt and 500/0.1/0.9. The result is the last outcome recorded |
| `Gateway.AttemptsFaithful` | backend/lambda_functions/icd10_coding.py:86-128 | every recorded outcome is what that generator answers to that call |
| `Gateway.PrimarySuccessUsed` | backend/lambda_functions/icd10_coding.py:86-104 | a primary success is the result, and no fallback call is made |
| `Gateway.FallbackIrrelevantOnSuccess` | backend/lambda_functions/icd10_coding.py:86-104 | when the primary succeeds, the fallback's behaviour cannot change anything |
| `Gateway.FallbackAnswers` | backend/lambda_functions/icd10_coding.py:106-126 | a primary failure with an endpoint set yields the fallback's answer to the same prompt, its error included |
| `Gateway.NoFallbackReraises` | backend/lambda_functions/icd10_coding.py:127-128 | without an endpoint (unset or empty) the primary's error is re-raised after one call |
| `Gateway.FailsIffAllAttemptsFail` | backend/lambda_functions/icd10_coding.py:86-128 | generation fails exactly when every call made failed |
| `Extractor.LazyFenceEnd` | backend/lambda_functions/icd10_coding.py:136 | where the lazy group `(.*?)` ends: a position from which whitespace and then ```` ``` ```` follow |
| `Extractor.LazyFenceEndFirst` | backend/lambda_functions/icd10_coding.py:136 | every position from which the close follows bounds the end found, so an end is found whenever one exists and it is the first |
| `Extractor.LazyFenceEndIs` | backend/lambda_functions/icd10_coding.py:136 | the first position from which the close follows is the end found |
| `Extractor.FindFence` | backend/lambda_functions/icd10_coding.py:136-138 | a found content carries no surrounding whitespace |
| `Extractor.SkipSpacesStep` | backend/lambda_functions/icd10_coding.py:136 | a greedy `\s*` from a whitespace character lands where it lands from the next one |
| `Extractor.FenceSound` | backend/lambda_functions/icd10_coding.py:136-138 | a found content is group 1 of a match of ```` ```json\s*(.*?)\s*``` ```` |
| `Extractor.GroupTrimmed` | backend/lambda_functions/icd10_coding.py:136-138 | the group starts after the whitespace skip and ends before a non-whitespace character |
| `Extractor.EndNotSpace` | backend/lambda_functions/icd10_coding.py:136 | the character before the lazy end is not whitespace, since the group could have stopped one earlier |
| `Extractor.TrimmedSlice` | backend/lambda_functions/icd10_coding.py:136-138 | a slice between two non-whitespace characters is trimmed |
| `Extractor.FenceComplete` | backend/lambda_functions/icd10_coding.py:136-137 | whenever the fence expression matches anywhere, the search finds a fence |
| `Extractor.LastClose` | backend/lambda_functions/icd10_coding.py:141 | the greedy `.*` ends at a `}` in the range that whitespace and then `]` can follow |
| `Extractor.LastCloseMaximal` | backend/lambda_functions/icd10_coding.py:141 | every such `}` in the range bounds the one found, so it is the last one |
| `Extractor.LastCloseFinds` | backend/lambda_functions/icd10_coding.py:141 | the greedy search finds that last closing position |
| `Extractor.ArrayAt` | backend/lambda_functions/icd10_coding.py:141 | a span found at a position starts with `[` there and has at least the four characters `[{}]` |
| `Extractor.ArrayAtSound` | backend/lambda_functions/icd10_coding.py:141 | a span found at a position is group 0 of a match of `\[\s*{.*}\s*\]` starting there |
| `Extractor.ArrayFrom` | backend/lambda_functions/icd10_coding.py:141 | a found span has at least four characters; `Extractor.ArrayFromLeftmost` states which start it comes from |
| `Extractor.ArrayFromSound` | backend/lambda_functions/icd10_coding.py:141 | a found span is group 0 of a match of `\[\s*{.*}\s*\]` starting at or after the given position |
| `Extractor.FindArray` | backend/lambda_functions/icd10_coding.py:141-143 | a found span has at least four characters; `Extractor.ArraySound` and `Extractor.FindArrayLeftmost` state that it is the leftmost match |
| `Extractor.ArraySound` | backend/lambda_functions/icd10_coding.py:141-143 | a found span is group 0 of a match of `\[\s*{.*}\s*\]` |
| `Extractor.ArrayFromLeftmost` | backend/lambda_functions/icd10_coding.py:141 | the search from a position returns the span at the first start from there on that has one, as `re.search` takes the leftmost match |
| `Extractor.FirstArrayAt` | backend/lambda_functions/icd10_coding.py:141 | given a start that has a span, the first start from a position on that has one |
| `Extractor.FindArrayLeftmost` | backend/lambda_functions/icd10_coding.py:141-142 | for any match of `\[\s*{.*}\s*\]`, the span found is the one at a start at or before that match's `[`, and no earlier position starts a span |
| `Extractor.ArrayComplete` | backend/lambda_functions/icd10_coding.py:141-142 | whenever the array expression matches, the search finds a span |
| `Extractor.MatchOpens` | backend/lambda_functions/icd10_coding.py:141 | at the `[` of any match the search at that position finds a span |
| `Extractor.NoOpenNoArray` | backend/lambda_functions/icd10_coding.py:141 | no span starts at a character other than `[` |
| `Extractor.NoBacktickNoFence` | backend/lambda_functions/icd10_coding.py:136 | a reply without backticks has no fence |
| `Extractor.FirstFenceAt` | backend/lambda_functions/icd10_coding.py:136 | an opening fence with no backtick before it is the one the search takes |
| `Extractor.FenceEndAfterBody` | backend/lambda_functions/icd10_coding.py:136 | the lazy group stops right after a backtick-free content that ends in a non-space |
| `Extractor.NoCloseFrom` | backend/lambda_functions/icd10_coding.py:136 | from inside such a content the close cannot follow |
| `Extractor.FenceContent` | backend/lambda_functions/icd10_coding.py:136 | whitespace, content and whitespace laid out after the first opening fence make that content the group |
| `Extractor.FencedReply` | backend/lambda_functions/icd10_coding.py:136-138 | prose, ```` ```json ````, whitespace, a trimmed JSON text, whitespace, ```` ``` ````: the fence content is exactly that JSON text |
| `Extractor.PrefixParts` | backend/lambda_functions/icd10_coding.py:136 | a text framed as two parts splits back into them |
| `Extractor.ArrayFromSkips` | backend/lambda_functions/icd10_coding.py:141 | positions without `[` never start a match |
| `Extractor.EmbeddedReply` | backend/lambda_functions/icd10_coding.py:141-143 | prose without `[`, then `[ { … } ]`, then prose without `}`: the span found is exactly that array text |
| `Extractor.EmbeddedAt` | backend/lambda_functions/icd10_coding.py:141 | an array-of-objects text embedded at a position, with no `[` before and no `}` after, is the span found |
| `Extractor.SpanShape` | backend/lambda_functions/icd10_coding.py:141 | where the brackets and whitespace of a `[ { … } ]` text lie |
| `Extractor.MatchInside` | backend/lambda_functions/icd10_coding.py:141 | a match laid out inside an embedded part is a match of the whole text |
| `Extractor.SpanAt` | backend/lambda_functions/icd10_coding.py:141 | the search at the opening `[` of a match that uses the last `}` returns that match |
| `Extractor.ArrayAtIs` | backend/lambda_functions/icd10_coding.py:141 | the span at a `[` is fixed by where the skips land and which `}` the greedy search takes |
| `Extractor.LastCloseIs` | backend/lambda_functions/icd10_coding.py:141 | with no `}` after a `}` that whitespace and `]` follow, that `}` is the one found |
| `Extractor.NoCloseAfter` | backend/lambda_functions/icd10_coding.py:141 | with no `}` after the match, nothing after its `}` can close a span |
| `Extractor.RawReply` | backend/lambda_functions/icd10_coding.py:131-133 | a reply that decodes whole is taken as is |
| `Extractor.FencedReplyExtracts` | backend/lambda_functions/icd10_coding.py:131-138 | an undecodable fenced reply decodes as its fence content, even when that content also holds an array |
| `Extractor.EmbeddedReplyExtracts` | backend/lambda_functions/icd10_coding.py:131-143 | an undecodable, backtick-free reply around one array decodes as that array |
| `Extractor.GarbageReply` | backend/lambda_functions/icd10_coding.py:144-145 | undecodable text with neither backticks nor `[` yields `[]` |
| `Extractor.Extract` | backend/lambda_functions/icd10_coding.py:130-147 | a reply that decodes is returned as decoded; an error escapes only from decoding a fence content or span that was found |
| `Extractor.FenceFoundIff` | backend/lambda_functions/icd10_coding.py:136-137 | the fence search succeeds exactly when ```` ```json\s*(.*?)\s*``` ```` matches somewhere |
| `Extractor.ArrayFoundIff` | backend/lambda_functions/icd10_coding.py:141-142 | the span search succeeds exactly when `\[\s*{.*}\s*\]` matches somewhere |
| `Extractor.ExtractFence` | backend/lambda_functions/icd10_coding.py:131-138 | for every undecodable reply in which the fence pattern matches, the result is the decoding of the fence content, its error included; the span search is never consulted |
| `Extractor.ExtractArray` | backend/lambda_functions/icd10_coding.py:131-143 | for every undecodable reply with no fence match and an array match, the result is the decoding of the span, its error included |
| `Extractor.ExtractNothing` | backend/lambda_functions/icd10_coding.py:131-145 | every undecodable reply that matches neither pattern yields `[]` |
| `Icd10.ValidateIcd10Code` | backend/lambda_functions/icd10_coding.py:149-155 | the upper-cased code matches `^[A-Z][0-9]{2}\.?[0-9A-Z]{0,4}$`; an accepted code has 3 to 8 characters, with digits in places two and three |
| `Icd10.ComposeMatches` | backend/lambda_functions/icd10_coding.py:154 | every letter, two digits, optional dot and up to four code characters match the pattern, and split back into those pieces |
| `Icd10.DecomposeComposes` | backend/lambda_functions/icd10_coding.py:154 | every match of the pattern is such an assembly |
| `Icd10.UpperIdempotent` | backend/lambda_functions/icd10_coding.py:155 | upper-casing twice is upper-casing once |
| `Icd10.UpperOfLower` | backend/lambda_functions/icd10_coding.py:155 | upper-casing after lower-casing is plain upper-casing |
| `Icd10.ValidateIgnoresCase` | backend/lambda_functions/icd10_coding.py:149-155 | the shape check does not depend on case |
| `Icd10.GetCodeDetails` | backend/lambda_functions/icd10_coding.py:157-173 | a record for the same code, with the table description on an exact hit and `Code not in reference database` otherwise |
| `Icd10.ComposedIsUpper` | backend/lambda_functions/icd10_coding.py:154-155 | a well-formed code is its own upper-case form |
| `Icd10.ReferenceCodesWellFormed` | backend/lambda_functions/icd10_coding.py:14-25 | every code of the reference table has the accepted shape |
| `Icd10.ValidIffWellShaped` | backend/lambda_functions/icd10_coding.py:157-173 | the reported validity is exactly the shape check, whether or not the code is in the table |
| `Icd10.Examples` | backend/lambda_functions/icd10_coding.py:149-173 | `I10` is found with its description and is valid; `A00.` has the shape; `Z999.999` is not found and is invalid; `i10` is not found but is valid |
| `Ranking.EnrichItem` | backend/lambda_functions/icd10_coding.py:200-210 | a non-dict item raises the `get` AttributeError. A list or dict code raises `unhashable type`. Another non-string code raises the `upper` AttributeError. Otherwise the record has the code, `description` when present (else the details text), `confidence` (default 0.0), `reasoning` (default `''`) and the shape check's verdict |
| `Ranking.ReferenceFillsIn` | backend/lambda_functions/icd10_coding.py:201-210 | a table code given with nothing else gets the table description, confidence 0.0, empty reasoning and is valid |
| `Ranking.ModelFieldsKept` | backend/lambda_functions/icd10_coding.py:206-208 | the suggestion's own description, confidence and reasoning are kept as given |
| `Ranking.MissingCodeInvalid` | backend/lambda_functions/icd10_coding.py:201-202 | an item without a code becomes the empty code, not found and invalid |
| `Ranking.Suggestions` | backend/lambda_functions/icd10_coding.py:200 | what the `for` loop iterates: a list's items, or one entry per character of a string. An empty dict gives nothing. A non-empty dict fails on its first string key. A number, bool or None is not iterable |
| `Ranking.StringSuggestions` | backend/lambda_functions/icd10_coding.py:200 | iterating a string yields its characters, each a one-character string |
| `Ranking.DictKeysFailLikeItems` | backend/lambda_functions/icd10_coding.py:200-201 | iterating a dict fails exactly as the loop body fails on any of its keys |
| `Ranking.EnrichAll` | backend/lambda_functions/icd10_coding.py:199-210 | a successful loop gives one record per item |
| `Ranking.EnrichAllSucceeds` | backend/lambda_functions/icd10_coding.py:199-210 | success exactly when every item enriches, and then each record is that item's enrichment, in order |
| `Ranking.EnrichAllFails` | backend/lambda_functions/icd10_coding.py:199-210 | on failure, the error is that of the first failing item |
| `Ranking.EnrichedFlags` | backend/lambda_functions/icd10_coding.py:199-210 | every record of a successful loop carries the shape check's verdict on its own code |
| `Ranking.EnrichSuggestions` | backend/lambda_functions/icd10_coding.py:199-210 | the append loop, stopping at the first raised error, computes `EnrichAll` |
| `Ranking.FailureSticks` | backend/lambda_functions/icd10_coding.py:199-210 | once a prefix of the items fails, the whole loop fails with that error |
| `Ranking.Key` | backend/lambda_functions/icd10_coding.py:213 | the number the sort key compares: an int or float as itself, True as 1 and False as 0 |
| `Ranking.Insert` | backend/lambda_functions/icd10_coding.py:213 | one insertion step of the sort adds exactly one entry; `Ranking.InsertPermutes`, `Ranking.InsertDescending`, `Ranking.InsertStable` and `Ranking.InsertAt` state where it goes |
| `Ranking.InsertPermutes` | backend/lambda_functions/icd10_coding.py:213 | one insertion step adds the entry and loses nothing |
| `Ranking.SortByConfidence` | backend/lambda_functions/icd10_coding.py:213 | the sort keeps the number of entries |
| `Ranking.SortPermutes` | backend/lambda_functions/icd10_coding.py:213 | the sort is a permutation of the validated codes |
| `Ranking.InsertDescending` | backend/lambda_functions/icd10_coding.py:213 | insertion into a list in descending confidence keeps it descending |
| `Ranking.SortDescending` | backend/lambda_functions/icd10_coding.py:213 | the sorted list is in non-increasing confidence |
| `Ranking.WithConfidence` | backend/lambda_functions/icd10_coding.py:213 | the entries of one confidence level, in their order |
| `Ranking.WithConfidenceConcat` | backend/lambda_functions/icd10_coding.py:213 | selecting one confidence level distributes over concatenation |
| `Ranking.InsertStable` | backend/lambda_functions/icd10_coding.py:213 | an inserted entry lands behind every entry of equal confidence |
| `Ranking.SortStable` | backend/lambda_functions/icd10_coding.py:213 | ties keep their original relative order |
| `Ranking.WithConfidenceIn` | backend/lambda_functions/icd10_coding.py:213 | an entry selected by confidence is an entry of the list |
| `Ranking.LastSelected` | backend/lambda_functions/icd10_coding.py:213 | the last entry is the last of its confidence level |
| `Ranking.SelectedAtLeastLast` | backend/lambda_functions/icd10_coding.py:213 | in a descending list every level present is at least the last entry's |
| `Ranking.DescendingUnique` | backend/lambda_functions/icd10_coding.py:213 | two descending lists that agree on every confidence level are equal |
| `Ranking.EmptyTogether` | backend/lambda_functions/icd10_coding.py:213 | lists that agree on every confidence level are empty together |
| `Ranking.LastAgrees` | backend/lambda_functions/icd10_coding.py:213 | two such descending lists end with the same entry, and their remainders agree on every level |
| `Ranking.SortIsStableSort` | backend/lambda_functions/icd10_coding.py:213 | any descending arrangement that keeps the order within every confidence level is the sort's result, so the sort is the stable descending sort |
| `Ranking.InsertAt` | backend/lambda_functions/icd10_coding.py:213 | insertion puts the entry right after the last entry of at least its confidence |
| `Ranking.InsertInPlace` | backend/lambda_functions/icd10_coding.py:213 | one pass of the in-place insertion sort performs the specified insertion and leaves the rest of the array alone |
| `Ranking.Shifted` | backend/lambda_functions/icd10_coding.py:213 | the array prefix after the shifts and the final write is the list with the entry inserted at its place |
| `Ranking.SortInPlace` | backend/lambda_functions/icd10_coding.py:213 | the in-place sort of the array leaves exactly the stable descending sort of its old contents |
| `Ranking.Rank` | backend/lambda_functions/icd10_coding.py:213 | succeeds exactly when there is at most one entry or all confidences are numbers, and otherwise fails with the comparison TypeError |
| `Ranking.RankSorts` | backend/lambda_functions/icd10_coding.py:213 | a successful ranking is descending, a permutation of the input, and keeps the input order within every confidence level |
| `Ranking.RankKeepsFlags` | backend/lambda_functions/icd10_coding.py:213 | ranking keeps every record's verdict |
| `Ranking.SliceLimit` | backend/lambda_functions/icd10_coding.py:223 | None means no limit, an int is the limit, a bool counts as 0 or 1, and any other `top_k` raises the slice-index TypeError |
| `Ranking.Take` | backend/lambda_functions/icd10_coding.py:223 | Python's `[:n]`: a prefix, the whole list without a limit, `min(n, len)` entries for n >= 0, and `max(0, len + n)` entries for negative n |
| `Ranking.TakeKeepsBest` | backend/lambda_functions/icd10_coding.py:213-223 | the kept entries stay descending, and no dropped entry has higher confidence than a kept one |
| `Ranking.TakeKeepsFlags` | backend/lambda_functions/icd10_coding.py:223 | the cut keeps every kept record's verdict |
| `Ranking.RankExample` | backend/lambda_functions/icd10_coding.py:213-224 | confidences 0.3, 0.9 and 0.5 with `top_k` 2 come back as the 0.9 and 0.5 entries |
| `Handler.BodyText` | backend/lambda_functions/icd10_coding.py:181 | `event.get('body', '{}')`: `{}` when absent, the text when present, and nothing json.loads accepts when it is null |
| `Handler.ReadRequest` | backend/lambda_functions/icd10_coding.py:181-183 | a null body raises json.loads' TypeError; a decode error propagates; a non-dict body raises the `get` AttributeError; otherwise `clinical_text` defaults to `''` and `top_k` to 5 |
| `Handler.TopKText` | backend/lambda_functions/icd10_coding.py:78 | `str(top_k)` reads back as the integer for an int, is the string itself for a str, and is the rendering parameter for a float, list or dict |
| `Handler.Finish` | backend/lambda_functions/icd10_coding.py:196-242 | a generation failure is a 500 with its text, the chain never answers 400, and a 200 echoes the request's text; `Handler.FinishFails`, `Handler.FinishOkIff`, `Handler.FinishRanks` and `Handler.FinishOk` state the rest |
| `Handler.FinishFails` | backend/lambda_functions/icd10_coding.py:196-242 | every 500 after generation carries the error of the first stage that failed, in the order generation, extraction, iteration, enrichment, sort, slice |
| `Handler.FinishOkIff` | backend/lambda_functions/icd10_coding.py:196-242 | a 200 comes exactly when every one of those stages succeeds, and every other outcome is a 500 |
| `Handler.HandleRequest` | backend/lambda_functions/icd10_coding.py:175-242 | a request that cannot be read is a 500 with its error, and no generator is called; `Handler.BadRequestIffMissing`, `Handler.NonStringTextFails`, `Handler.InvalidTextNoCalls` and `Handler.HandleValid` state the other branches |
| `Handler.Respond` | backend/lambda_functions/icd10_coding.py:62-128 | generation from the built prompt, then `Finish` on the reply, with the calls made; `Handler.HandleValid` and `Handler.RespondPath` state what it answers |
| `Handler.LambdaHandler` | backend/lambda_functions/icd10_coding.py:175-242 | the handler gives exactly `HandleRequest` |
| `Handler.FinishReply` | backend/lambda_functions/icd10_coding.py:196-242 | the try block after generation, with its append loop and in-place sort, gives exactly `Finish` |
| `Handler.BadRequestIffMissing` | backend/lambda_functions/icd10_coding.py:182-193 | the answer is 400 exactly when the read `clinical_text` is missing or falsy, and then nothing else happens |
| `Handler.InvalidTextNoCalls` | backend/lambda_functions/icd10_coding.py:62-65 | text that fails validation is a 500 `Invalid input: <message>` before any generator is called |
| `Handler.NonStringTextFails` | backend/lambda_functions/icd10_coding.py:32 | a truthy `clinical_text` that is not a string gives the 500 `'<type>' object has no attribute 'strip'`, and no generator is called |
| `Handler.CallsIffValid` | backend/lambda_functions/icd10_coding.py:62-98 | generators are called exactly when the text is a string that passes validation, and the first call is the primary with the built prompt |
| `Handler.FinishOk` | backend/lambda_functions/icd10_coding.py:199-224 | a 200 lists descending suggestions, no more than the total, each flagged by the shape check; a non-negative int `top_k` keeps `min(top_k, total)` |
| `Handler.FinishRanks` | backend/lambda_functions/icd10_coding.py:196-224 | a 200 counts every validated record (`total_suggestions == len(validated_codes)`) and lists exactly the ranked records cut to `top_k`, so `Ranking.RankSorts`, `Ranking.SortIsStableSort` and `Ranking.TakeKeepsBest` carry over to the response |
| `Handler.SuccessShape` | backend/lambda_functions/icd10_coding.py:175-228 | the same guarantees for any request that is answered 200, which also echoes the request's text |
| `Handler.HandleValid` | backend/lambda_functions/icd10_coding.py:62-98 | after validation passes, the response and the calls are those of generating from the built prompt and finishing on the reply |
| `Handler.SuccessPath` | backend/lambda_functions/icd10_coding.py:175-228 | valid text, a reply that decodes to n well-formed suggestions, and `top_k` k >= 0 give a 200 that echoes the text, has total n, and lists exactly the first `min(k, n)` records of the stable descending sort of the n enriched suggestions (`Take(SortByConfidence(EnrichAll(items)), k)`), whichever generator answered |
| `Handler.RespondPath` | backend/lambda_functions/icd10_coding.py:86-224 | the same answer, from the validated text on |
| `Handler.IntTopKText` | backend/lambda_functions/icd10_coding.py:78 | an integer `top_k` is spliced into the prompt as `str(top_k)` |
| `Handler.FinishPath` | backend/lambda_functions/icd10_coding.py:130-224 | the same answer, stated on a reply that decodes to those suggestions |
| `Handler.DefaultTopKIsFive` | backend/lambda_functions/icd10_coding.py:183 | without `top_k` the prompt asks for 5 codes and at most 5 are kept |

## Left out

- `backend/deploy_sagemaker_biogpt.py` is not part of this model. It creates IAM roles and deploys an endpoint, which is all cloud I/O.
- boto3 clients and the environment. `BEDROCK_MODEL_ID` and `SAGEMAKER_ENDPOINT` are read into the `Gateway.Settings` parameter. `AWS_REGION` (line 11) only selects the region of the boto3 clients, so it lies inside the abstract `GenerateFn` generators.
- Generator request bodies and response unwrapping (`response['body'].read()`, `results[0].outputText`, `generated_text`). These are inside each abstract `GenerateFn`. A failure there is the generator's `Failure`, and only the fixed parameters are kept as constants.
- `json.loads` is the abstract parameter `parse`. The serialised reference table is the literal constant `Icd10.ReferenceJson`. `json.dumps` of the response body is not modelled: `Response` keeps its fields.
- HTTP headers, CORS, the constant `'model'` and `'success'` fields, the `context` argument and `print` logging.
- The text of an arbitrary exception raised by a generator is whatever string its `Failure` carries.
- Unicode. `lower`, `upper`, `isalpha`, `isspace` and `\s` are their ASCII versions.
- Floating point. Confidences are exact reals, so NaN and infinities are not modelled, and the 0.6 ratio is the exact `5 * count < 3 * length`.
- Icd10.ValidateIcd10Code: does not accept a code followed by one trailing newline. Python's `$` matches before such a newline, and this quirk is left out.
- Ranking.Rank: two or more confidences that are not all numbers always fail. Python would also sort a list of only strings (or only lists), and this is not modelled. The TypeError text keeps only its `'<' not supported between instances` prefix, because the two type names depend on which pair the sort happens to compare.
- Ranking.Suggestions: a non-empty dict fails with the `'str'` AttributeError without choosing a key, because the model's maps have no key order. Every key fails the same way.
- Handler.TopKText: `str(top_k)` for a float, list or dict is the abstract parameter `render`.
- Handler.BodyText: an event body that is neither absent, null nor a string (json.loads' TypeError for an int body, say) is not modelled. A Lambda proxy event carries only these three.
