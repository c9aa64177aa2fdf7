/** The request/response records of the service and the validation rules the
    record declarations impose (closed literal sets, required fields,
    minimum lengths, list defaults). Construction that would fail validation
    returns the list of field errors instead of raising. */
module Models {
  import opened Results

  // ---------------------------------------------------------------------------
  // Closed literal sets

  datatype Audience = Cs | Support | Customer {
    function Name(): string {
      match this
      case Cs => "cs"
      case Support => "support"
      case Customer => "customer"
    }
  }

  datatype Tone = Neutral | Friendly | Direct {
    function Name(): string {
      match this
      case Neutral => "neutral"
      case Friendly => "friendly"
      case Direct => "direct"
    }
  }

  datatype ChangeType = Added | Changed | Fixed | Deprecated | Security {
    function Name(): string {
      match this
      case Added => "added"
      case Changed => "changed"
      case Fixed => "fixed"
      case Deprecated => "deprecated"
      case Security => "security"
    }
  }

  datatype ImpactLevel = Low | Medium | High {
    function Name(): string {
      match this
      case Low => "low"
      case Medium => "medium"
      case High => "high"
    }

    /** Position in the ordinal scale low < medium < high. */
    function Rank(): nat {
      match this
      case Low => 0
      case Medium => 1
      case High => 2
    }
  }

  datatype Mode = Basic | Ai {
    function Name(): string {
      match this
      case Basic => "basic"
      case Ai => "ai"
    }
  }

  datatype Persona = CsPersona | SupportPersona | CustomerPersona | Tam | Pm | Marketing | Legal {
    function Name(): string {
      match this
      case CsPersona => "cs"
      case SupportPersona => "support"
      case CustomerPersona => "customer"
      case Tam => "tam"
      case Pm => "pm"
      case Marketing => "marketing"
      case Legal => "legal"
    }
  }

  const AUDIENCE_NAMES: set<string> := {"cs", "support", "customer"}
  const CHANGE_TYPE_NAMES: set<string> := {"added", "changed", "fixed", "deprecated", "security"}
  const IMPACT_LEVEL_NAMES: set<string> := {"low", "medium", "high"}

  /** Literal validation of an audience name. */
  function ParseAudience(s: string): (r: Option<Audience>)
    ensures r.Some? <==> s in AUDIENCE_NAMES
    ensures r.Some? ==> r.value.Name() == s
  {
    if s == "cs" then Some(Cs)
    else if s == "support" then Some(Support)
    else if s == "customer" then Some(Customer)
    else None
  }

  /** Literal validation of a change type name. */
  function ParseChangeType(s: string): (r: Option<ChangeType>)
    ensures r.Some? <==> s in CHANGE_TYPE_NAMES
    ensures r.Some? ==> r.value.Name() == s
  {
    if s == "added" then Some(Added)
    else if s == "changed" then Some(Changed)
    else if s == "fixed" then Some(Fixed)
    else if s == "deprecated" then Some(Deprecated)
    else if s == "security" then Some(Security)
    else None
  }

  /** Literal validation of an impact level name. */
  function ParseImpactLevel(s: string): (r: Option<ImpactLevel>)
    ensures r.Some? <==> s in IMPACT_LEVEL_NAMES
    ensures r.Some? ==> r.value.Name() == s
  {
    if s == "low" then Some(Low)
    else if s == "medium" then Some(Medium)
    else if s == "high" then Some(High)
    else None
  }

  /** Every value of the three enumerations is named by exactly one literal:
      parsing a value's name gives the value back. */
  lemma LiteralsRoundTrip(a: Audience, t: ChangeType, l: ImpactLevel)
    ensures ParseAudience(a.Name()) == Some(a)
    ensures ParseChangeType(t.Name()) == Some(t)
    ensures ParseImpactLevel(l.Name()) == Some(l)
  {
  }

  // ---------------------------------------------------------------------------
  // Validation errors

  /** One failed field check: a required field left out, or a string or list
      shorter than its declared minimum length. */
  datatype FieldError = Missing(field: string) | TooShort(field: string)

  type Errors = seq<FieldError>

  // ---------------------------------------------------------------------------
  // TranslateRequest

  datatype TranslateRequest = TranslateRequest(
    rawText: string,
    audience: seq<Audience>,
    tone: Tone,
    productArea: Option<string>,
    constraints: Option<string>,
    mode: Mode,
    persona: Option<Persona>)

  ghost predicate ValidRequest(r: TranslateRequest) {
    |r.rawText| >= 1 && |r.audience| >= 1
  }

  /** Builds a request the way the record declaration validates one: raw text
      and audience list must be non-empty; tone defaults to neutral and mode
      to basic when not given. */
  function NewTranslateRequest(
    rawText: string, audience: seq<Audience>, tone: Option<Tone>,
    productArea: Option<string>, constraints: Option<string>,
    mode: Option<Mode>, persona: Option<Persona>): (r: Result<TranslateRequest, Errors>)
    ensures r.Success? <==> |rawText| >= 1 && |audience| >= 1
    ensures r.Success? ==> ValidRequest(r.value) && r.value.rawText == rawText && r.value.audience == audience
    ensures r.Success? ==> r.value.tone == tone.GetOr(Neutral) && r.value.mode == mode.GetOr(Basic)
    ensures r.Success? ==> (&& r.value.productArea == productArea
                           && r.value.constraints == constraints
                           && r.value.persona == persona)
    ensures r.Failure? ==> (TooShort("raw_text") in r.error <==> |rawText| == 0)
    ensures r.Failure? ==> (TooShort("audience") in r.error <==> |audience| == 0)
  {
    var errors := (if |rawText| == 0 then [TooShort("raw_text")] else [])
               + (if |audience| == 0 then [TooShort("audience")] else []);
    if errors != [] then Failure(errors)
    else Success(TranslateRequest(rawText, audience, tone.GetOr(Neutral), productArea,
                                  constraints, mode.GetOr(Basic), persona))
  }

  // ---------------------------------------------------------------------------
  // ExtractedChange

  datatype ExtractedChange = ExtractedChange(kind: ChangeType, area: string, description: string)

  ghost predicate ValidChange(c: ExtractedChange) {
    |c.area| >= 1 && |c.description| >= 1
  }

  /** Builds an extracted change; area and description must be non-empty. */
  function NewExtractedChange(kind: ChangeType, area: string, description: string): (r: Result<ExtractedChange, Errors>)
    ensures r.Success? <==> |area| >= 1 && |description| >= 1
    ensures r.Success? ==> r.value == ExtractedChange(kind, area, description) && ValidChange(r.value)
    ensures r.Failure? ==> (TooShort("area") in r.error <==> |area| == 0)
    ensures r.Failure? ==> (TooShort("description") in r.error <==> |description| == 0)
  {
    var errors := (if |area| == 0 then [TooShort("area")] else [])
               + (if |description| == 0 then [TooShort("description")] else []);
    if errors != [] then Failure(errors) else Success(ExtractedChange(kind, area, description))
  }

  // ---------------------------------------------------------------------------
  // AIEnhancement

  datatype AIEnhancement = AIEnhancement(
    executiveSummary: string,
    customerFollowups: seq<string>,
    adoptionRisks: seq<string>,
    impactedScopes: seq<string>,
    impactedPartners: seq<string>,
    partnerEmailDraft: string)

  ghost predicate ValidEnhancement(e: AIEnhancement) {
    |e.executiveSummary| >= 1 && |e.partnerEmailDraft| >= 1
  }

  /** The fields a caller passes when constructing an enhancement; `None` is a
      keyword argument left out. */
  datatype EnhancementArgs = EnhancementArgs(
    executiveSummary: Option<string>,
    customerFollowups: Option<seq<string>>,
    adoptionRisks: Option<seq<string>>,
    impactedScopes: Option<seq<string>>,
    impactedPartners: Option<seq<string>>,
    partnerEmailDraft: Option<string>)

  /** The two summary strings are required and non-empty; the four lists
      default to empty. */
  function NewAIEnhancement(a: EnhancementArgs): (r: Result<AIEnhancement, Errors>)
    ensures r.Success? <==> (a.executiveSummary.Some? && |a.executiveSummary.value| >= 1
                             && a.partnerEmailDraft.Some? && |a.partnerEmailDraft.value| >= 1)
    ensures r.Success? ==> ValidEnhancement(r.value)
    ensures r.Success? ==> (&& r.value.executiveSummary == a.executiveSummary.value
                           && r.value.partnerEmailDraft == a.partnerEmailDraft.value)
    ensures r.Success? ==> (&& r.value.customerFollowups == a.customerFollowups.GetOr([])
                           && r.value.adoptionRisks == a.adoptionRisks.GetOr([])
                           && r.value.impactedScopes == a.impactedScopes.GetOr([])
                           && r.value.impactedPartners == a.impactedPartners.GetOr([]))
    ensures r.Failure? ==> (Missing("partner_email_draft") in r.error <==> a.partnerEmailDraft.None?)
    ensures r.Failure? ==> (Missing("executive_summary") in r.error <==> a.executiveSummary.None?)
  {
    var errors := RequiredText("executive_summary", a.executiveSummary)
               + RequiredText("partner_email_draft", a.partnerEmailDraft);
    if errors != [] then Failure(errors)
    else Success(AIEnhancement(
      a.executiveSummary.value,
      a.customerFollowups.GetOr([]),
      a.adoptionRisks.GetOr([]),
      a.impactedScopes.GetOr([]),
      a.impactedPartners.GetOr([]),
      a.partnerEmailDraft.value))
  }

  /** Errors for a required string field with minimum length 1. */
  function RequiredText(field: string, v: Option<string>): (errs: Errors)
    ensures errs == [] <==> v.Some? && |v.value| >= 1
    ensures Missing(field) in errs <==> v.None?
  {
    if v.None? then [Missing(field)] else if |v.value| == 0 then [TooShort(field)] else []
  }

  // ---------------------------------------------------------------------------
  // TranslateResponse

  datatype TranslateResponse = TranslateResponse(
    csSummary: seq<string>,
    supportNotes: seq<string>,
    customerSummary: seq<string>,
    riskFlags: seq<string>,
    followUpQuestions: seq<string>,
    extractedChanges: seq<ExtractedChange>,
    impactLevel: ImpactLevel,
    aiEnhancement: Option<AIEnhancement>,
    aiProvider: Option<string>,
    aiFallbackUsed: bool)

  ghost predicate ValidResponse(r: TranslateResponse) {
    && (forall i :: 0 <= i < |r.extractedChanges| ==> ValidChange(r.extractedChanges[i]))
    && (r.aiEnhancement.Some? ==> ValidEnhancement(r.aiEnhancement.value))
  }

  /** A response built with every field left at its default. */
  function DefaultResponse(): (r: TranslateResponse)
    ensures r.csSummary == [] && r.supportNotes == [] && r.customerSummary == []
    ensures r.riskFlags == [] && r.followUpQuestions == [] && r.extractedChanges == []
    ensures r.impactLevel == Low && r.aiEnhancement.None? && r.aiProvider.None? && !r.aiFallbackUsed
    ensures ValidResponse(r)
  {
    TranslateResponse([], [], [], [], [], [], Low, None, None, false)
  }
}
