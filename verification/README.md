# Changelog translator — a Dafny model

This project models the deterministic core of a changelog-translation
service. The service turns raw engineering release notes into structured
changes and audience-specific summaries. The model covers:

- segmentation into statements (newline split, sentence split at a full stop
  followed by whitespace, strip, drop empties, whitespace normalisation);
- classification by ordered, first-match keyword tables (change type, product
  area);
- stripping of a leading type marker such as `Fixed:`;
- risk detection on the normalised full text, the ordinal impact level and
  the follow-up questions;
- the three audience renderers (CS, support, customer) and `translate` itself;
- partner lookup by scope against a catalog;
- the mock AI provider, provider selection, and the OpenAI provider up to its
  network call;
- the fixed-window rate limiter, as a pure state transition;
- API-key parsing and resolution.

Everything is pure functions over immutable datatypes. The modules follow the
source files:

| module | file | source |
|---|---|---|
| `Results` | `results.dfy` | `Option` / `Result` wrappers (Python `None` and raised errors) |
| `Text` | `text.dfy` | the Python string operations the core relies on: `strip`, `split`, `lower`, `capitalize`, `in`, `re.sub(r"\s+", " ", …)` |
| `Models` | `models.dfy` | `app/models.py` |
| `Translator` | `translator.dfy` | `app/translator.py` |
| `PartnerCatalog` | `partner_catalog.dfy` | `app/partner_catalog.py` |
| `Ai` | `ai.dfy` | `app/ai.py` |
| `RateLimit` | `rate_limit.dfy` | `app/rate_limit.py` |
| `Auth` | `auth.dfy` | `app/auth.py` |
| `SampleNote` | `sample_note.dfy` | the worked example in `tests/test_translator.py` |

Conventions:

- Whitespace is the exact set of code points for which CPython's
  `str.isspace()` holds (`Text.WS`, 29 characters). The regular expression
  `\s` on `str` patterns matches the same set.
- A validation failure of a record (pydantic raising on `min_length=1`) is a
  `Failure` carrying the failed field checks.
- An HTTP error is an `HttpError` value.
- The clock, the environment variables, the catalog file and the remote model
  are parameters.

Three behaviours of the code are worth knowing before reading the model:

- **Classification is not total.** `extract_changes` strips a leading marker
  with a regular expression (`app/translator.py:107-111`) and then constructs
  the record, whose `description` field requires at least one character
  (`app/models.py:25`). A statement that is only a marker ("Fixed",
  "Security:") therefore makes record construction fail, and the whole
  `translate` call with it. `Translator.Translate` models that failure, and
  "## Findings" records it together with a corrected version.
- **No enhancement is ever valid without an email draft.** The record
  requires a non-empty `partner_email_draft` (`app/models.py:34`). The mock
  provider passes none (`app/ai.py:34-43`), so its construction always fails
  (`Ai.MockEnhance`). The prompt the OpenAI provider sends asks for three
  other keys only (`app/ai.py:10-20`), so a reply that follows it is rejected
  on the same field (`Ai.PromptShapedReplyRejected`).
- **`translate` never calls a provider.** It always returns a response
  without an enhancement and without a provider name, whatever the mode
  (`app/translator.py:169-192`). The second test of `tests/test_translator.py`
  expects an enhancement from provider "mock" in AI mode, which the code as
  written does not produce.

## Model

| member | source | states |
|---|---|---|
| Models.ParseAudience | app/models.py:4 | accepts exactly the three audience literals, and the value it returns carries the name it was parsed from |
| Models.ParseChangeType | app/models.py:6 | accepts exactly the five change-type literals, and the value carries the parsed name |
| Models.ParseImpactLevel | app/models.py:7 | accepts exactly the three impact-level literals, and the value carries the parsed name |
| Models.LiteralsRoundTrip | app/models.py:4-7 | writing any audience, change type or impact level as its literal and parsing it back gives the same value |
| Models.NewTranslateRequest | app/models.py:12-19 | a request is built iff the raw text and the audience list are non-empty. Each failure names exactly the fields that were too short. Raw text, audience, product area, constraints and persona are carried over as given. Tone defaults to neutral and mode to basic |
| Models.NewExtractedChange | app/models.py:22-25 | a change is built iff area and description are non-empty. Each failure names exactly the empty fields |
| Models.NewAIEnhancement | app/models.py:28-34 | an enhancement is built iff both the executive summary and the partner email draft are given and non-empty, and it carries exactly those two strings. Given lists are kept and omitted lists default to empty. A missing draft or summary is reported as missing |
| Models.RequiredText | app/models.py:29-34 | a required text field passes iff it is present and non-empty, and it is reported missing exactly when absent |
| Models.DefaultResponse | app/models.py:37-47 | a response with every field at its default is empty, low-impact, without enhancement, and valid |
| Text.Strip | app/translator.py:72 | the stripped string keeps no stripped character at either end, and it is empty iff the input consists only of stripped characters |
| Text.StripOffset | app/translator.py:72 | the stripped string is a contiguous slice of the input, and only stripped characters lie outside it |
| Text.JoinSplit | app/translator.py:65 | joining the pieces of a split with the separator gives back the original text |
| Text.SplitJoin | app/auth.py:22 | splitting a join of separator-free pieces gives back exactly those pieces |
| Text.ContainsIff | app/translator.py:84 | the substring test holds iff the keyword occurs at some position of the text |
| Text.Normalize | app/translator.py:59-60 | the result is trimmed, has single plain spaces only, is no longer than the input, and is empty iff the input is all whitespace |
| Text.CollapseRun | app/translator.py:59-60 | a whitespace run of any length and kind between two texts that do not run into it becomes exactly one plain space, and each side collapses on its own |
| Text.NormalizeRun | app/translator.py:59-60 | normalising two trimmed texts joined by any whitespace run gives their normalised forms joined by exactly one plain space |
| Text.NormalizeIdempotent | app/translator.py:59-60 | normalising twice is the same as normalising once |
| Text.NormalizeKeepsText | app/translator.py:59-60 | normalising keeps every non-whitespace character, in order, and adds none |
| Text.NormalizeKeepsWord | app/translator.py:177-180 | any whitespace-free keyword found in the raw text is still found in the normalised text |
| Text.LowerKeepsContains | app/translator.py:91-95 | lower-casing text and keyword together keeps every occurrence |
| Translator.DetectChangeType | app/translator.py:80-86 | the type is that of the first table row with a keyword inside the lower-cased line, and `changed` when no row matches |
| Translator.InferArea | app/translator.py:37-42 | the area is that of the first table row with a keyword inside the lower-cased line, and `General` exactly when no row matches |
| Translator.DetectRisks | app/translator.py:89-99 | a label is flagged iff some keyword of its family occurs in the lower-cased text. Flags come in table order, without duplicates |
| Translator.ImpactFromRisks | app/translator.py:45-56 | high iff some flag is high-tier. Medium iff some flag is medium-tier and none is high-tier. Low iff no flag belongs to either tier |
| Translator.ImpactIsHighestTier | app/translator.py:45-56 | the impact equals the maximum tier over the flags, computed flag by flag, with low for no flags |
| Translator.ImpactMonotone | app/translator.py:45-56 | adding flags never lowers the impact level |
| Translator.BuildFollowUpQuestions | app/translator.py:156-166 | each question is present iff its risk is flagged, with no other questions. Order is notice, auth, finance |
| Translator.SplitSentences | app/translator.py:70 | the split leaves no full stop directly followed by whitespace inside any part |
| Translator.SplitSentencesWhole | app/translator.py:70 | a text with no full stop followed by whitespace is a single sentence, unchanged |
| Translator.SplitSentencesAt | app/translator.py:70 | at the first full stop followed by whitespace, the text before it is the first sentence. The stop and the whole whitespace run after it are dropped, and splitting continues on the rest |
| Translator.SplitSentencesAtRun | app/translator.py:70 | text without a break, a full stop, any non-empty whitespace run and text not starting with whitespace split into the first text followed by the split of the last |
| Translator.FirstBreak | app/translator.py:70 | every text that has a full stop followed by whitespace has a first one, so the two lemmas above determine the split of every text |
| Translator.SplitIntoLinesShape | app/translator.py:63-76 | every emitted statement is non-empty, has no line break, and does not start or end with a full stop or start with whitespace. Nothing is emitted iff the text is only whitespace and full stops |
| Translator.StatementsShape | app/translator.py:171-174 | every statement `translate` classifies is non-empty and normalised. There are none iff the raw text is only whitespace and full stops |
| Translator.StripSeparator | app/translator.py:107 | what is removed after a marker matches `\s*:?\s*`: whitespace with at most one colon. What remains starts with neither whitespace nor a colon the separator could have taken |
| Translator.StripMarker | app/translator.py:107-111 | the description is a suffix of the statement. It is the whole statement when no marker starts it. Otherwise it is what follows a case-insensitive marker and the longest separator the pattern matches there, so it starts with neither whitespace nor a colon the separator could still take. It is empty exactly for an empty or marker-only statement |
| Translator.DescriptionUnique | app/translator.py:107-111 | at most one suffix of a statement meets the description contract: the marker that starts it is unique, and so is the longest separator after it |
| Translator.DescriptionIsStripMarker | app/translator.py:107-111 | a suffix meets the description contract iff it is the one the marker substitution leaves |
| Translator.Classify | app/translator.py:105-119 | a statement's change has the detected type, the override-or-inferred area, and the statement's unique description. It passes validation iff the statement leaves a description |
| Translator.AreaFor | app/translator.py:117 | a present, non-empty product area overrides inference, and anything else falls back to the inferred area |
| Translator.ExtractChanges | app/translator.py:102-122 | extraction succeeds iff no statement is marker-only. It then yields one valid change per statement, in order, and otherwise fails on the description field |
| Translator.BuildCsSummary | app/translator.py:125-131 | one bullet per change, in order, each naming the capitalised type, the area and the description |
| Translator.CsBulletDecodes | app/translator.py:128-130 | a CS bullet can be read back: it starts with the capitalised type, carries the area right after the dash, and ends with the description |
| Translator.BuildSupportNotes | app/translator.py:134-140 | one note per change, in order. Removing the fixed prefix gives back the description |
| Translator.BuildCustomerSummary | app/translator.py:143-152 | one line per change, in order: fixes as "Fix: d", security changes as the fixed note, everything else as "Update: d" |
| Translator.CustomerLineDecodes | app/translator.py:143-152 | the prefix of a customer line tells fix, security and other apart, and for non-security changes the description can be read back from the line's end |
| Translator.Render | app/translator.py:184-192 | risks come from the normalised full text, each audience section is filled iff that audience is requested, and valid changes give a valid response |
| Translator.Translate | app/translator.py:169-192 | translation succeeds iff no statement is marker-only. On success change i is the classification of statement i, every change is valid, and the response carries the risks of the normalised text, the matching impact and questions, the requested sections only, and no enhancement |
| Translator.RisksDependOnlyOnRawText | app/translator.py:177-181 | two requests with the same raw text get the same flags, impact and questions, whatever the audience, area, tone or persona |
| Translator.NoRiskKeywordsMeansLow | app/translator.py:89-99 | a text without any risk keyword has no flags, low impact and no questions |
| Translator.HighKeywordMeansHigh | app/translator.py:45-49 | any keyword of a high-tier family in the text flags that family and makes the impact high |
| Translator.MarkerOnlyStatementRejected | app/translator.py:107-119 | as written, "Fixed" and "Security:" are marker-only and make extraction fail, even next to a valid statement |
| Translator.DescriptionOrStatement | app/translator.py:107-111 | the corrected description is empty only for an empty statement. It equals the stripped description whenever that is non-empty, and the statement itself otherwise |
| Translator.ExtractChangesFixed | app/translator.py:102-122 | corrected extraction fails only on an empty statement, and otherwise gives one valid change per statement |
| Translator.TranslateFixed | app/translator.py:169-192 | corrected translation is total, with one valid change per statement, rendered as `translate` renders |
| Translator.TranslateFixedAgrees | app/translator.py:169-192 | wherever the code as written succeeds, the corrected translation returns the identical response |
| PartnerCatalog.ImpactedPartners | app/partner_catalog.py:15-17 | an empty query returns no partner, and never more names than catalog records |
| PartnerCatalog.KeySetIff | app/partner_catalog.py:19 | a key is in the query set iff it is the stripped, lower-cased form of some non-blank query scope |
| PartnerCatalog.ImpactedPartnersSelects | app/partner_catalog.py:15-27 | the result lists, once each and in catalog order, the name of exactly those records sharing a key with the query |
| PartnerCatalog.BlankQueryFindsNothing | app/partner_catalog.py:19 | a query of blank scopes finds no partner |
| PartnerCatalog.QueryIgnoresCaseAndSpace | app/partner_catalog.py:19-24 | queries whose scopes agree after stripping and lower-casing find the same partners |
| PartnerCatalog.MoreScopesKeepPartners | app/partner_catalog.py:15-27 | adding scopes to a query keeps every partner found before, in the same relative order |
| Ai.Take | app/ai.py:41-42 | the slice `[:n]` is a prefix of length min(n, length) |
| Ai.MockArgs | app/ai.py:34-43 | the mock's arguments are a summary naming the impact level and prefixes of at most three of the baseline's questions and risks. No scopes, partners or email draft are passed |
| Ai.MockEnhance | app/ai.py:34-43 | the mock's enhancement always fails validation, on the missing partner email draft alone |
| Ai.MockSummaryMentionsImpact | app/ai.py:36-40 | the mock summary mentions the baseline's impact level |
| Ai.MockSummaryInjective | app/ai.py:36-40 | different impact levels give different mock summaries |
| Ai.MockIgnoresRequest | app/ai.py:34-43 | the mock's output depends on the baseline only, never on the request |
| Ai.GetProvider | app/ai.py:90-94 | the OpenAI provider is chosen iff the stripped selector reads "openai" ignoring case, and an unset selector gives the mock |
| Ai.ProviderNameSelects | app/ai.py:90-94 | setting the selector to a provider's own name selects that provider |
| Ai.PromptFor | app/ai.py:56-62 | the persona is "general" iff none is given. The constraints are "none" iff absent, empty or literally "none", and otherwise the request's own |
| Ai.OpenAIEnhance | app/ai.py:50-87 | a missing or empty key fails before any call. A remote failure is reported as such. Otherwise the result is exactly the record validated from the returned fields, or that validation's errors |
| Ai.PromptShapedReplyRejected | app/ai.py:10-20 | a reply holding only the keys the prompt asks for is rejected for its missing partner email draft, and for nothing else when the summary is non-empty |
| Ai.KeyCheckedFirst | app/ai.py:51-54 | without a key the outcome does not depend on the remote side |
| RateLimit.ConfigFor | app/rate_limit.py:15-28 | plan "pro" gets 300 requests and every other plan 60, both per 60 seconds |
| RateLimit.TruncDiv | app/rate_limit.py:42 | `int()` of a quotient truncates toward zero, for either sign |
| RateLimit.RetryAfter | app/rate_limit.py:42 | the announced wait is the whole number of seconds left in the window, rounded down. It is 0 when less than a second is left or the window is already over, and never exceeds the window length for a window that opened no later than now |
| RateLimit.Enforce | app/rate_limit.py:22-47 | only the caller's bucket changes. A new or expired window restarts at now with count 1, otherwise the count grows by one. The request is refused iff the new count exceeds the limit, and a refusal announces the seconds left in the caller's window |
| RateLimit.RetryAfterReopens | app/rate_limit.py:33-47 | a refused client that waits one second longer than announced finds its window over, and its next request is let through |
| RateLimit.FirstRequestAllowed | app/rate_limit.py:31-41 | a key's first request is always let through |
| RateLimit.RunInsideWindow | app/rate_limit.py:22-47 | requests all inside one open window are all counted, and exactly those that keep the count within the limit are let through |
| RateLimit.OneWindowAdmitsAtMostLimit | app/rate_limit.py:22-47 | within one window, exactly min(requests, limit) are let through |
| Auth.ParseKeys | app/auth.py:19-22 | an absent or empty setting gives no keys |
| Auth.KeysOfIff | app/auth.py:22 | a key is parsed iff it is the stripped form of some non-blank comma-separated piece |
| Auth.ParseKeysClean | app/auth.py:19-22 | every parsed key is non-empty, without commas and without surrounding whitespace |
| Auth.ParseKeysComplete | app/auth.py:19-22 | every non-blank piece contributes its stripped form |
| Auth.ParseKeysJoin | app/auth.py:19-22 | writing clean keys comma-separated and parsing them gives back exactly that set |
| Auth.RequireApiKey | app/auth.py:32-48 | a missing or empty header is 401 "missing". A known key is let through with plan pro iff it is a pro key, and free otherwise. Any other key is 401 "invalid" |
| Auth.ProWinsOverFree | app/auth.py:39-43 | a key listed for both plans is resolved as pro |
| Auth.PaddedKeyRejected | app/auth.py:19-48 | a header with surrounding whitespace is never a configured key and is rejected as invalid |
| SampleNote.SampleTranslates | tests/test_translator.py:5-16 | the test's note translates into two changes, flagged as a breaking change and an authentication change, with high impact and the notice and auth questions |

## Left out

- `app/main.py` (FastAPI routes, the `/health` endpoint, header injection) is not part of this model. It is plumbing around the core.
- Text.Lower: only ASCII letters are lower-cased. Python's `str.lower()` and the `re.IGNORECASE` marker match also fold non-ASCII letters (for example the Kelvin sign matches `k`). The keyword tables are ASCII, so this only matters for such letters in the input.
- Ai.OpenAIEnhance: the HTTP request, the JSON payload, the prompt template text and the decoding of the reply are one function parameter (`remote`). A timeout or network error is that parameter's failure value.
- Ai.GetProvider: reads the selector as a parameter instead of the process environment. The same holds for the API key and the model name.
- RateLimit.Enforce: the clock is a parameter in whole milliseconds rather than a float number of seconds. This keeps the truncation of the retry-after value exact, but leaves out sub-millisecond readings. The process-wide table is explicit state passed in and returned.
- RateLimit.Enforce: the 429 response's detail text and `Retry-After` header are left out. The verdict carries the number of seconds that both would contain.
- Auth.ParseKeys: the key sets are computed from parameters, not from `.env` loading at import time.
- PartnerCatalog.ImpactedPartners: the catalog is a parameter, not a JSON file read once and cached. Records whose `scopes` entry is not a list of strings, and records whose `name` entry is present but not a string (such as `null`, which the code would append as `None`), are not modelled.
- Translator.Translate: the second test of `tests/test_translator.py` expects an enhancement and provider "mock" from `translate`. The code never sets them, and the model follows the code.
- Concurrency of the rate-limit table (unsynchronised dict updates across requests) is not modelled.

## Findings

| source | as written | input that shows it | evidently intended | confidence | as-written member | corrected member |
|---|---|---|---|---|---|---|
| app/translator.py:107-119 with app/models.py:25 | the leading marker and separator are removed without checking what is left, and the empty description then fails record validation, so the whole `translate` call raises | raw text "Fixed" (or "Added SSO. Security:") | a statement that is only a marker keeps the statement itself as its description, so classification stays total | not executed | Translator.MarkerOnlyStatementRejected | Translator.TranslateFixed |
