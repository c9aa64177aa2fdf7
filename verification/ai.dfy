/** The AI enhancement providers: the offline mock, the rule that chooses a
    provider from its selector setting, and the part of the OpenAI provider
    that runs before the network call (key check and prompt arguments). The
    network call itself is a function parameter. */
module Ai {
  import opened Results
  import opened Text
  import opened Models

  /** Why an enhancement could not be produced. */
  datatype EnhanceError =
    | KeyRequired              // the OpenAI provider was used without an API key
    | Invalid(errors: Errors)  // the enhancement record failed validation
    | Upstream(reason: string) // the remote call or its decoding failed

  // ---------------------------------------------------------------------------
  // Mock provider

  const SUMMARY_HEAD: string := "This release introduces operationally meaningful updates with "
  const SUMMARY_TAIL: string := " estimated impact. Teams should align customer messaging to risk flags and support preparation notes."

  /** How many follow-up questions and risks the mock carries over. */
  const MOCK_TAKE: nat := 3

  /** `s[:n]` */
  function Take<T>(s: seq<T>, n: nat): (r: seq<T>)
    ensures |r| == if |s| < n then |s| else n
    ensures r <= s
  {
    if |s| < n then s else s[..n]
  }

  /** The executive summary the mock writes for an impact level. */
  function MockSummary(level: ImpactLevel): string {
    SUMMARY_HEAD + level.Name() + SUMMARY_TAIL
  }

  /** The keyword arguments the mock passes to the enhancement record: a
      summary, and the first three follow-up questions and risk flags of the
      baseline. It passes no partner email draft. */
  function MockArgs(req: TranslateRequest, baseline: TranslateResponse): (a: EnhancementArgs)
    ensures a.executiveSummary == Some(MockSummary(baseline.impactLevel))
    ensures a.customerFollowups.Some? && a.customerFollowups.value <= baseline.followUpQuestions
    ensures a.customerFollowups.Some? && |a.customerFollowups.value| == Min(MOCK_TAKE, |baseline.followUpQuestions|)
    ensures a.adoptionRisks.Some? && a.adoptionRisks.value <= baseline.riskFlags
    ensures a.adoptionRisks.Some? && |a.adoptionRisks.value| == Min(MOCK_TAKE, |baseline.riskFlags|)
    ensures a.impactedScopes.None? && a.impactedPartners.None? && a.partnerEmailDraft.None?
  {
    EnhancementArgs(
      Some(MockSummary(baseline.impactLevel)),
      Some(Take(baseline.followUpQuestions, MOCK_TAKE)),
      Some(Take(baseline.riskFlags, MOCK_TAKE)),
      None, None, None)
  }

  function Min(a: nat, b: nat): nat {
    if a < b then a else b
  }

  /** The mock provider's `enhance`: build the enhancement record from
      `MockArgs`. Since the record requires a partner email draft and the mock
      supplies none, construction always fails on that one field. */
  function MockEnhance(req: TranslateRequest, baseline: TranslateResponse): (r: Result<AIEnhancement, EnhanceError>)
    ensures r == Failure(Invalid([Missing("partner_email_draft")]))
  {
    var args := MockArgs(req, baseline);
    assert RequiredText("executive_summary", args.executiveSummary) == [];
    assert RequiredText("partner_email_draft", args.partnerEmailDraft) == [Missing("partner_email_draft")];
    assert [] + [Missing("partner_email_draft")] == [Missing("partner_email_draft")];
    assert NewAIEnhancement(args) == Failure([Missing("partner_email_draft")]);
    match NewAIEnhancement(args)
    case Success(e) => Success(e)
    case Failure(errs) => Failure(Invalid(errs))
  }

  /** The mock's summary names the baseline's impact level. */
  lemma MockSummaryMentionsImpact(level: ImpactLevel)
    ensures Contains(MockSummary(level), level.Name())
  {
    var s := MockSummary(level);
    var i := |SUMMARY_HEAD|;
    assert s[i..i + |level.Name()|] == level.Name();
    ContainsSlice(s, i, i + |level.Name()|);
  }

  /** The summary tells the three impact levels apart, so the level can be
      read back from it. */
  lemma MockSummaryInjective(a: ImpactLevel, b: ImpactLevel)
    ensures MockSummary(a) == MockSummary(b) <==> a == b
  {
    if MockSummary(a) == MockSummary(b) {
      assert |a.Name()| == |b.Name()|;
    }
  }

  /** The mock looks only at the baseline, never at the request. */
  lemma MockIgnoresRequest(r1: TranslateRequest, r2: TranslateRequest, baseline: TranslateResponse)
    ensures MockArgs(r1, baseline) == MockArgs(r2, baseline)
  {
  }

  // ---------------------------------------------------------------------------
  // Provider selection

  datatype Provider = MockProvider | OpenAIProvider {
    /** The provider's `name` attribute. */
    function Name(): string {
      match this
      case MockProvider => "mock"
      case OpenAIProvider => "openai"
    }
  }

  /** The setting value used when the selector is unset. */
  const DEFAULT_SELECTOR: string := "mock"

  /** The provider chosen for a selector setting (`None` when unset): OpenAI
      when the stripped, lowercased setting reads "openai", the mock for
      anything else. */
  function GetProvider(selector: Option<string>): (p: Provider)
    ensures selector.None? ==> p == MockProvider
    ensures p == OpenAIProvider <==>
      selector.Some? && |Strip(selector.value, WS)| == 6
      && forall i :: 0 <= i < 6 ==> LowerChar(Strip(selector.value, WS)[i]) == "openai"[i]
  {
    var name := Lower(Strip(selector.GetOr(DEFAULT_SELECTOR), WS));
    assert Lower(DEFAULT_SELECTOR) == "mock";
    if name == "openai" then OpenAIProvider else MockProvider
  }

  /** Setting the selector to a provider's own name selects that provider. */
  lemma ProviderNameSelects(p: Provider)
    ensures GetProvider(Some(p.Name())) == p
  {
    var n := p.Name();
    assert forall i :: 0 <= i < |n| ==> 'a' <= n[i] <= 'z';
    PrintableNotSpace(n[0]);
    PrintableNotSpace(n[|n| - 1]);
    StripTrimmed(n, WS);
    LowerOfLowercase(n);
  }

  /** Lowercasing leaves a string of lowercase ASCII letters unchanged. */
  lemma LowerOfLowercase(s: string)
    requires forall i :: 0 <= i < |s| ==> 'a' <= s[i] <= 'z'
    ensures Lower(s) == s
  {
  }

  // ---------------------------------------------------------------------------
  // OpenAI provider, up to the network call

  /** The model used when no model is configured. */
  const DEFAULT_MODEL: string := "gpt-4o-mini"
  const PERSONA_DEFAULT: string := "general"
  const CONSTRAINTS_DEFAULT: string := "none"

  /** The values substituted into the prompt template. */
  datatype PromptArgs = PromptArgs(
    rawText: string,
    baseline: TranslateResponse,
    tone: string,
    persona: string,
    constraints: string)

  /** What is sent to the remote model. */
  datatype Call = Call(model: string, prompt: PromptArgs)

  /** Prompt arguments for a request: persona "general" when none is given,
      constraints "none" when absent or empty. */
  function PromptFor(req: TranslateRequest, baseline: TranslateResponse): (p: PromptArgs)
    ensures p.rawText == req.rawText && p.baseline == baseline && p.tone == req.tone.Name()
    ensures p.persona == PERSONA_DEFAULT <==> req.persona.None?
    ensures req.persona.Some? ==> p.persona == req.persona.value.Name()
    ensures p.constraints == CONSTRAINTS_DEFAULT <==>
      req.constraints.None? || req.constraints.value == [] || req.constraints.value == CONSTRAINTS_DEFAULT
    ensures p.constraints != CONSTRAINTS_DEFAULT ==> req.constraints == Some(p.constraints)
  {
    PromptArgs(
      req.rawText,
      baseline,
      req.tone.Name(),
      if req.persona.Some? then req.persona.value.Name() else PERSONA_DEFAULT,
      if req.constraints.None? || req.constraints.value == [] then CONSTRAINTS_DEFAULT else req.constraints.value)
  }

  /** The OpenAI provider's `enhance`. `apiKey` and `model` are the configured
      settings (`None` when unset) and `remote` stands for the request, the
      response decoding and the JSON parse into enhancement fields. A missing
      or empty key fails before anything is sent; whatever comes back is
      validated as an enhancement record. */
  function OpenAIEnhance(
    req: TranslateRequest, baseline: TranslateResponse,
    apiKey: Option<string>, model: Option<string>,
    remote: Call -> Result<EnhancementArgs, string>): (r: Result<AIEnhancement, EnhanceError>)
    ensures apiKey.None? || apiKey.value == [] ==> r == Failure(KeyRequired)
    ensures r.Success? ==> ValidEnhancement(r.value) && apiKey.Some? && apiKey.value != []
    ensures apiKey.Some? && apiKey.value != [] ==>
      var call := Call(model.GetOr(DEFAULT_MODEL), PromptFor(req, baseline));
      (remote(call).Failure? ==> r == Failure(Upstream(remote(call).error)))
      && (remote(call).Success? ==> (r.Success? <==> NewAIEnhancement(remote(call).value).Success?))
    ensures apiKey.Some? && apiKey.value != [] ==>
      var call := Call(model.GetOr(DEFAULT_MODEL), PromptFor(req, baseline));
      remote(call).Success? ==>
        var e := NewAIEnhancement(remote(call).value);
        && (e.Success? ==> r == Success(e.value))
        && (e.Failure? ==> r == Failure(Invalid(e.error)))
  {
    if apiKey.None? || apiKey.value == [] then Failure(KeyRequired)
    else
      var args :- MapError(remote(Call(model.GetOr(DEFAULT_MODEL), PromptFor(req, baseline))));
      match NewAIEnhancement(args)
      case Success(e) => Success(e)
      case Failure(errs) => Failure(Invalid(errs))
  }

  function MapError(r: Result<EnhancementArgs, string>): (m: Result<EnhancementArgs, EnhanceError>)
    ensures r.Success? <==> m.Success?
    ensures r.Success? ==> m.value == r.value
    ensures r.Failure? ==> m.error == Upstream(r.error)
  {
    match r
    case Success(v) => Success(v)
    case Failure(e) => Failure(Upstream(e))
  }

  /** A reply with only the three keys the prompt template asks for has no
      partner email draft, so the provider rejects it on that field alone,
      whatever the summary and lists say. */
  lemma PromptShapedReplyRejected(
    req: TranslateRequest, baseline: TranslateResponse, apiKey: string, model: Option<string>,
    summary: Option<string>, followups: Option<seq<string>>, risks: Option<seq<string>>)
    requires apiKey != []
    ensures var reply := EnhancementArgs(summary, followups, risks, None, None, None);
      var r := OpenAIEnhance(req, baseline, Some(apiKey), model, _ => Success(reply));
      && r.Failure? && r.error.Invalid?
      && Missing("partner_email_draft") in r.error.errors
      && (summary.Some? && summary.value != [] ==> r.error.errors == [Missing("partner_email_draft")])
  {
    var reply := EnhancementArgs(summary, followups, risks, None, None, None);
    assert NewAIEnhancement(reply).Failure?;
  }

  /** Without a key the outcome does not depend on the remote side at all. */
  lemma KeyCheckedFirst(
    req: TranslateRequest, baseline: TranslateResponse, model: Option<string>,
    apiKey: Option<string>, r1: Call -> Result<EnhancementArgs, string>, r2: Call -> Result<EnhancementArgs, string>)
    requires apiKey.None? || apiKey.value == []
    ensures OpenAIEnhance(req, baseline, apiKey, model, r1) == OpenAIEnhance(req, baseline, apiKey, model, r2)
  {
  }
}
