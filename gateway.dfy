/** The generator gateway of suggest_icd10_codes: the primary generator,
    and on any failure the fallback endpoint when one is configured. */
module Gateway {
  import opened Wrappers

  /** Sampling parameters sent with a request. */
  datatype GenParams = GenParams(maxTokens: nat, temperature: real, topP: real)

  /** maxTokenCount 2000, temperature 0.1, topP 0.9. */
  const PrimaryParams: GenParams := GenParams(2000, 0.1, 0.9)
  /** max_new_tokens 500, temperature 0.1, top_p 0.9. */
  const FallbackParams: GenParams := GenParams(500, 0.1, 0.9)

  const DefaultModelId: string := "amazon.titan-text-express-v1"

  /** A text generator: given the model id or endpoint name, the prompt and
      the parameters, the generated text or the text of the exception that
      the call (or unwrapping its response) raised. */
  type GenerateFn = (string, string, GenParams) -> Result<string, string>

  /** BEDROCK_MODEL_ID and SAGEMAKER_ENDPOINT as read from the environment. */
  datatype Settings = Settings(modelIdVar: Option<string>, endpointVar: Option<string>) {
    /** `os.environ.get('BEDROCK_MODEL_ID', default)`. */
    function ModelId(): (id: string)
      ensures modelIdVar.Some? ==> id == modelIdVar.value
      ensures modelIdVar.None? ==> id == DefaultModelId
    {
      modelIdVar.GetOr(DefaultModelId)
    }

    /** `if sagemaker_endpoint:` — set and non-empty. */
    predicate FallbackConfigured()
      ensures FallbackConfigured() <==> endpointVar.Some? && |endpointVar.value| > 0
    {
      endpointVar.Some? && endpointVar.value != ""
    }
  }

  datatype Generator = Primary | Fallback

  /** One call that was made, and what it returned. */
  datatype Attempt = Attempt(generator: Generator, target: string, prompt: string,
                             params: GenParams, outcome: Result<string, string>)

  /** The generated text (or the exception that escapes) and the calls made. */
  datatype Generation = Generation(text: Result<string, string>, attempts: seq<Attempt>)

  /** The attempt is what that generator returns for that call. */
  predicate Faithful(a: Attempt, primary: GenerateFn, fallback: GenerateFn) {
    a.outcome == (match a.generator
                  case Primary => primary(a.target, a.prompt, a.params)
                  case Fallback => fallback(a.target, a.prompt, a.params))
  }

  function Generate(prompt: string, settings: Settings, primary: GenerateFn, fallback: GenerateFn): (g: Generation)
    // the primary is always called first, with the prompt and its parameters
    ensures 1 <= |g.attempts| <= 2
    ensures g.attempts[0] == Attempt(Primary, settings.ModelId(), prompt, PrimaryParams, g.attempts[0].outcome)
    // a second call happens exactly when the primary failed and an endpoint is set;
    // it goes to that endpoint with the same prompt
    ensures |g.attempts| == 2 <==> g.attempts[0].outcome.Failure? && settings.FallbackConfigured()
    ensures |g.attempts| == 2 ==>
              g.attempts[1] == Attempt(Fallback, settings.endpointVar.value, prompt, FallbackParams, g.attempts[1].outcome)
    // the last recorded outcome is the result
    ensures g.text == g.attempts[|g.attempts| - 1].outcome
  {
    var first := Attempt(Primary, settings.ModelId(), prompt, PrimaryParams,
                         primary(settings.ModelId(), prompt, PrimaryParams));
    if first.outcome.Success? || !settings.FallbackConfigured() then
      Generation(first.outcome, [first])
    else
      var second := Attempt(Fallback, settings.endpointVar.value, prompt, FallbackParams,
                            fallback(settings.endpointVar.value, prompt, FallbackParams));
      Generation(second.outcome, [first, second])
  }

  /** Every recorded outcome is what that generator answers to that call. */
  lemma AttemptsFaithful(prompt: string, settings: Settings, primary: GenerateFn, fallback: GenerateFn)
    ensures forall a :: a in Generate(prompt, settings, primary, fallback).attempts ==> Faithful(a, primary, fallback)
  {
  }

  /** A primary success is used as is and the fallback is never called. */
  lemma PrimarySuccessUsed(prompt: string, settings: Settings, primary: GenerateFn, fallback: GenerateFn)
    requires primary(settings.ModelId(), prompt, PrimaryParams).Success?
    ensures Generate(prompt, settings, primary, fallback).text == primary(settings.ModelId(), prompt, PrimaryParams)
    ensures forall a :: a in Generate(prompt, settings, primary, fallback).attempts ==> a.generator == Primary
  {
  }

  /** Whatever the fallback would do, it cannot affect a request whose
      primary call succeeds. */
  lemma FallbackIrrelevantOnSuccess(prompt: string, settings: Settings, primary: GenerateFn,
                                    fallback1: GenerateFn, fallback2: GenerateFn)
    requires primary(settings.ModelId(), prompt, PrimaryParams).Success?
    ensures Generate(prompt, settings, primary, fallback1) == Generate(prompt, settings, primary, fallback2)
  {
  }

  /** A primary failure with an endpoint set yields the fallback's answer to
      the same prompt, success or failure; the primary's error is not surfaced. */
  lemma FallbackAnswers(prompt: string, settings: Settings, primary: GenerateFn, fallback: GenerateFn)
    requires primary(settings.ModelId(), prompt, PrimaryParams).Failure?
    requires settings.FallbackConfigured()
    ensures Generate(prompt, settings, primary, fallback).text ==
            fallback(settings.endpointVar.value, prompt, FallbackParams)
  {
  }

  /** Without an endpoint the primary's exception is re-raised. */
  lemma NoFallbackReraises(prompt: string, settings: Settings, primary: GenerateFn, fallback: GenerateFn)
    requires primary(settings.ModelId(), prompt, PrimaryParams).Failure?
    requires !settings.FallbackConfigured()
    ensures Generate(prompt, settings, primary, fallback).text ==
            Failure(primary(settings.ModelId(), prompt, PrimaryParams).error)
    ensures |Generate(prompt, settings, primary, fallback).attempts| == 1
  {
  }

  /** Generation fails exactly when every call made failed. */
  lemma FailsIffAllAttemptsFail(prompt: string, settings: Settings, primary: GenerateFn, fallback: GenerateFn)
    ensures Generate(prompt, settings, primary, fallback).text.Failure? <==>
            forall a :: a in Generate(prompt, settings, primary, fallback).attempts ==> a.outcome.Failure?
  {
  }
}
