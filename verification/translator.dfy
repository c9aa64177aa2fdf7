/** The deterministic changelog classifier: segmentation into statements,
    first-match classification over ordered keyword tables, leading-marker
    stripping, risk detection over the whole normalised text, the ordinal
    impact level, the three audience renderers and the follow-up questions. */
module Translator {
  import opened Results
  import opened Text
  import opened Models

  /** An ordered association list from a label to its keywords. Declaration
      order is the tie-break: the first row with a matching keyword wins. */
  type Table<L> = seq<(L, seq<string>)>

  const CHANGE_KEYWORDS: Table<ChangeType> := [
    (Added, ["added", "introduce", "new feature"]),
    (Changed, ["changed", "updated", "modified"]),
    (Fixed, ["fixed", "resolved", "bugfix"]),
    (Deprecated, ["deprecated", "sunset", "removed"]),
    (Security, ["security", "vulnerability", "patched"])
  ]

  const RISK_KEYWORDS: Table<string> := [
    ("breaking change", ["breaking", "incompatible"]),
    ("authentication impact", ["auth", "oauth", "token", "permission"]),
    ("billing impact", ["billing", "invoice", "subscription", "payment"]),
    ("downtime risk", ["downtime", "outage"]),
    ("migration required", ["migration", "migrate"]),
    ("rate limit impact", ["rate limit", "throttle"])
  ]

  const AREA_KEYWORDS: Table<string> := [
    ("Auth", ["auth", "oauth", "token", "login", "sso"]),
    ("Billing", ["billing", "invoice", "subscription", "payment", "checkout"]),
    ("API", ["api", "endpoint", "version", "v1", "v2", "schema"]),
    ("Permissions", ["permission", "role", "rbac", "access"]),
    ("UI", ["ui", "dashboard", "page", "button", "modal"]),
    ("Performance", ["latency", "performance", "timeout", "slow"]),
    ("Security", ["security", "vulnerability", "cve", "patched"])
  ]

  const DEFAULT_AREA := "General"

  // ---------------------------------------------------------------------------
  // Ordered keyword tables

  /** Some keyword of the row occurs in the (already lower-cased) text. */
  predicate RowMatches<L>(row: (L, seq<string>), lower: string) {
    exists k :: k in row.1 && Contains(lower, k)
  }

  /** Index of the first matching row at or after `from`; `|table|` when none. */
  function FirstMatch<L>(table: Table<L>, lower: string, from: nat): (i: nat)
    requires from <= |table|
    ensures from <= i <= |table|
    ensures i < |table| ==> RowMatches(table[i], lower)
    ensures forall j :: from <= j < i ==> !RowMatches(table[j], lower)
    decreases |table| - from
  {
    if from == |table| then from
    else if RowMatches(table[from], lower) then from
    else FirstMatch(table, lower, from + 1)
  }

  /** `chosen` is what a first-match scan of `table` over `lower` yields, with
      `fallback` when no row matches. */
  ghost predicate ChosenByTable<L>(table: Table<L>, lower: string, chosen: L, fallback: L) {
    || (exists i :: 0 <= i < |table| && table[i].0 == chosen && RowMatches(table[i], lower)
                    && forall j :: 0 <= j < i ==> !RowMatches(table[j], lower))
    || (chosen == fallback && forall j :: 0 <= j < |table| ==> !RowMatches(table[j], lower))
  }

  /** `detect_change_type`: the first change type, in table order, with a
      keyword inside the lower-cased line; `changed` when none matches. */
  function DetectChangeType(line: string): (t: ChangeType)
    ensures ChosenByTable(CHANGE_KEYWORDS, Lower(line), t, Changed)
  {
    var i := FirstMatch(CHANGE_KEYWORDS, Lower(line), 0);
    if i < |CHANGE_KEYWORDS| then CHANGE_KEYWORDS[i].0 else Changed
  }

  /** `infer_area`: the first area, in table order, with a keyword inside the
      lower-cased line; `General` when none matches. */
  function InferArea(line: string): (area: string)
    ensures ChosenByTable(AREA_KEYWORDS, Lower(line), area, DEFAULT_AREA)
    ensures |area| >= 1
  {
    var i := FirstMatch(AREA_KEYWORDS, Lower(line), 0);
    if i < |AREA_KEYWORDS| then AREA_KEYWORDS[i].0 else DEFAULT_AREA
  }

  /** Indices of all matching rows at or after `from`, ascending. */
  function MatchingRows<L>(table: Table<L>, lower: string, from: nat): (idx: seq<nat>)
    requires from <= |table|
    ensures |idx| <= |table| - from
    ensures forall k :: 0 <= k < |idx| ==> from <= idx[k] < |table| && RowMatches(table[idx[k]], lower)
    ensures forall k, m :: 0 <= k < m < |idx| ==> idx[k] < idx[m]
    ensures forall j :: from <= j < |table| && RowMatches(table[j], lower) ==> j in idx
    decreases |table| - from
  {
    if from == |table| then []
    else (if RowMatches(table[from], lower) then [from] else []) + MatchingRows(table, lower, from + 1)
  }

  /** Position of `key` in the table (`|table|` when absent). */
  function LabelIndex<L(==)>(table: Table<L>, key: L): (i: nat)
    ensures i <= |table|
    ensures i < |table| ==> table[i].0 == key
    ensures forall j :: 0 <= j < i ==> table[j].0 != key
    decreases |table|
  {
    if |table| == 0 then 0
    else if table[0].0 == key then 0
    else 1 + LabelIndex(table[1..], key)
  }

  ghost predicate DistinctLabels<L>(table: Table<L>) {
    forall i, j :: 0 <= i < j < |table| ==> table[i].0 != table[j].0
  }

  lemma RiskLabelsDistinct()
    ensures DistinctLabels(RISK_KEYWORDS)
  {
  }

  // ---------------------------------------------------------------------------
  // Risks and impact

  /** `detect_risks`: the labels of all risk families with a keyword inside the
      lower-cased text, each once, in table order (not text order). */
  function DetectRisks(text: string): (flags: seq<string>)
    ensures |flags| <= |RISK_KEYWORDS|
    ensures forall f :: f in flags <==>
      exists i :: 0 <= i < |RISK_KEYWORDS| && RISK_KEYWORDS[i].0 == f && RowMatches(RISK_KEYWORDS[i], Lower(text))
    ensures forall a, b :: 0 <= a < b < |flags| ==>
      LabelIndex(RISK_KEYWORDS, flags[a]) < LabelIndex(RISK_KEYWORDS, flags[b])
  {
    RiskLabelsDistinct();
    LabelsMatching(RISK_KEYWORDS, Lower(text))
  }

  /** The labels of every row with a keyword in `lower`, each once, in table order. */
  function LabelsMatching(table: Table<string>, lower: string): (flags: seq<string>)
    requires DistinctLabels(table)
    ensures |flags| <= |table|
    ensures forall f :: f in flags <==> exists i :: 0 <= i < |table| && table[i].0 == f && RowMatches(table[i], lower)
    ensures forall a, b :: 0 <= a < b < |flags| ==> LabelIndex(table, flags[a]) < LabelIndex(table, flags[b])
  {
    var idx := MatchingRows(table, lower, 0);
    LabelsAtIndex(table, idx);
    LabelsAt(table, idx)
  }

  /** The labels of the given rows. */
  function LabelsAt<L>(table: Table<L>, idx: seq<nat>): (r: seq<L>)
    requires forall k :: 0 <= k < |idx| ==> idx[k] < |table|
    ensures |r| == |idx|
    ensures forall k :: 0 <= k < |idx| ==> r[k] == table[idx[k]].0
  {
    seq(|idx|, k requires 0 <= k < |idx| => table[idx[k]].0)
  }

  /** With distinct labels, each label's position is the row it came from. */
  lemma LabelsAtIndex<L>(table: Table<L>, idx: seq<nat>)
    requires DistinctLabels(table)
    requires forall k :: 0 <= k < |idx| ==> idx[k] < |table|
    ensures forall k :: 0 <= k < |idx| ==> LabelIndex(table, LabelsAt(table, idx)[k]) == idx[k]
  {
    forall k | 0 <= k < |idx|
      ensures LabelIndex(table, LabelsAt(table, idx)[k]) == idx[k]
    {
      var li := LabelIndex(table, table[idx[k]].0);
      assert li <= idx[k];
    }
  }

  const HIGH_RISKS: set<string> := {"breaking change", "downtime risk", "migration required"}
  const MEDIUM_RISKS: set<string> := {"authentication impact", "billing impact", "rate limit impact"}

  /** `impact_from_risks`: high when some flag is in the high tier, else medium
      when some flag is in the medium tier, else low. */
  function ImpactFromRisks(risks: seq<string>): (level: ImpactLevel)
    ensures level == High <==> exists r :: r in risks && r in HIGH_RISKS
    ensures level == Medium <==> (exists r :: r in risks && r in MEDIUM_RISKS) && !(exists r :: r in risks && r in HIGH_RISKS)
    ensures level == Low <==> forall r :: r in risks ==> r !in HIGH_RISKS && r !in MEDIUM_RISKS
  {
    if exists r :: r in risks && r in HIGH_RISKS then High
    else if exists r :: r in risks && r in MEDIUM_RISKS then Medium
    else Low
  }

  /** The tier a single flag belongs to. */
  function Tier(flag: string): ImpactLevel {
    if flag in HIGH_RISKS then High else if flag in MEDIUM_RISKS then Medium else Low
  }

  function MaxLevel(a: ImpactLevel, b: ImpactLevel): ImpactLevel {
    if a.Rank() >= b.Rank() then a else b
  }

  /** The highest tier among the flags, `low` for none. */
  function HighestTier(risks: seq<string>): ImpactLevel
    decreases |risks|
  {
    if |risks| == 0 then Low else MaxLevel(Tier(risks[0]), HighestTier(risks[1..]))
  }

  /** The impact level is the highest tier among the flags; no flags is low. */
  lemma {:induction false} ImpactIsHighestTier(risks: seq<string>)
    ensures ImpactFromRisks(risks) == HighestTier(risks)
    decreases |risks|
  {
    if |risks| > 0 {
      ImpactIsHighestTier(risks[1..]);
      assert forall r :: r in risks <==> r == risks[0] || r in risks[1..];
    }
  }

  /** Adding flags never lowers the impact level. */
  lemma ImpactMonotone(risks: seq<string>, more: seq<string>)
    requires forall r :: r in risks ==> r in more
    ensures ImpactFromRisks(risks).Rank() <= ImpactFromRisks(more).Rank()
  {
  }

  // ---------------------------------------------------------------------------
  // Follow-up questions

  const Q_NOTICE := "Do customers need advance notice?"
  const Q_AUTH := "Are any customers using custom auth configurations?"
  const Q_FINANCE := "Does finance need to validate billing behavior?"

  /** Fixed priority of the follow-up questions. */
  function QuestionRank(q: string): nat {
    if q == Q_NOTICE then 0 else if q == Q_AUTH then 1 else 2
  }

  /** `build_follow_up_questions`: at most one question per flag family, each
      present exactly when its flag is, in breaking, auth, billing order. */
  function BuildFollowUpQuestions(risks: seq<string>): (qs: seq<string>)
    ensures |qs| <= 3
    ensures Q_NOTICE in qs <==> "breaking change" in risks
    ensures Q_AUTH in qs <==> "authentication impact" in risks
    ensures Q_FINANCE in qs <==> "billing impact" in risks
    ensures forall q :: q in qs ==> q == Q_NOTICE || q == Q_AUTH || q == Q_FINANCE
    ensures forall a, b :: 0 <= a < b < |qs| ==> QuestionRank(qs[a]) < QuestionRank(qs[b])
  {
    (if "breaking change" in risks then [Q_NOTICE] else [])
    + (if "authentication impact" in risks then [Q_AUTH] else [])
    + (if "billing impact" in risks then [Q_FINANCE] else [])
  }

  // ---------------------------------------------------------------------------
  // Segmentation

  /** No full stop is directly followed by whitespace. */
  predicate NoBreak(s: string) {
    forall i :: 0 <= i < |s| - 1 ==> !(s[i] == '.' && IsSpace(s[i + 1]))
  }

  /** `re.split(r"\.\s+", s)`: cut at every full stop followed by a
      whitespace run, dropping the stop and the whole run. */
  function SplitSentences(s: string): (parts: seq<string>)
    ensures |parts| >= 1
    ensures forall i :: 0 <= i < |parts| ==> NoBreak(parts[i])
    ensures parts[0] <= s
    decreases |s|
  {
    if |s| < 2 then [s]
    else if s[0] == '.' && IsSpace(s[1]) then
      [[]] + SplitSentences(StripLeft(s[1..], WS))
    else
      var rest := SplitSentences(s[1..]);
      var head := [s[0]] + rest[0];
      assert forall j :: 0 < j < |head| ==> head[j] == rest[0][j - 1] && head[j] == s[j];
      [head] + rest[1..]
  }

  /** A text without a full stop followed by whitespace is one sentence. */
  lemma {:induction false} SplitSentencesWhole(s: string)
    requires NoBreak(s)
    ensures SplitSentences(s) == [s]
    decreases |s|
  {
    if |s| >= 2 {
      SplitSentencesWhole(s[1..]);
      assert [s[0]] + s[1..] == s;
    }
  }

  /** The first sentence break of `s` is at `i`: a full stop followed by
      whitespace, with no break before it. */
  predicate FirstBreakAt(s: string, i: nat) {
    i + 1 < |s| && s[i] == '.' && IsSpace(s[i + 1]) && NoBreak(s[..i])
  }

  /** The text is cut at its first break: the part before it is a sentence,
      the full stop and the whole whitespace run after it are dropped, and
      splitting goes on with the rest. */
  lemma {:induction false} SplitSentencesAt(s: string, i: nat)
    requires FirstBreakAt(s, i)
    ensures SplitSentences(s) == [s[..i]] + SplitSentences(StripLeft(s[i + 1..], WS))
    decreases i
  {
    if i > 0 {
      SentenceGoesOn(s, i);
      SplitSentencesAt(s[1..], i - 1);
      assert s[1..][i - 1 + 1..] == s[i + 1..];
      assert [s[0]] + s[1..][..i - 1] == s[..i];
    }
  }

  /** Before the first break, the text goes on with the same sentence, and
      the tail has its first break one position earlier. */
  lemma SentenceGoesOn(s: string, i: nat)
    requires FirstBreakAt(s, i) && i > 0
    ensures |s| >= 2 && !(s[0] == '.' && IsSpace(s[1]))
    ensures FirstBreakAt(s[1..], i - 1)
  {
    if i > 1 {
      assert s[..i][0] == s[0] && s[..i][1] == s[1];
    }
    assert s[1..][i - 1] == s[i] && s[1..][i] == s[i + 1];
    var t := s[1..][..i - 1];
    forall j | 0 <= j < |t| - 1 ensures !(t[j] == '.' && IsSpace(t[j + 1])) {
      assert t[j] == s[..i][j + 1] && t[j + 1] == s[..i][j + 2];
    }
  }

  /** The same cut written as pieces: text without a break, a full stop, a
      non-empty whitespace run, and text that does not start with
      whitespace. */
  lemma SplitSentencesAtRun(a: string, w: string, b: string)
    requires NoBreak(a) && |w| > 0 && AllIn(w, WS) && (|b| == 0 || !IsSpace(b[0]))
    ensures SplitSentences(a + "." + w + b) == [a] + SplitSentences(b)
  {
    var s := a + "." + w + b;
    assert s[..|a|] == a && s[|a| + 1..] == w + b;
    assert s[|a|] == '.' && s[|a| + 1] == w[0];
    SplitSentencesAt(s, |a|);
    StripLeftRun(w, b, WS);
  }

  /** Every text with a break has a first one, so `SplitSentencesWhole` and
      `SplitSentencesAt` between them determine the split of every text. */
  lemma {:induction false} FirstBreak(s: string) returns (i: nat)
    requires !NoBreak(s)
    ensures FirstBreakAt(s, i)
    decreases |s|
  {
    if s[0] == '.' && IsSpace(s[1]) {
      i := 0;
    } else {
      BreakInTail(s);
      var j := FirstBreak(s[1..]);
      i := j + 1;
      BreakMovesOn(s, j);
    }
  }

  /** A break not at the start lies in the tail. */
  lemma BreakInTail(s: string)
    requires !NoBreak(s) && !(s[0] == '.' && IsSpace(s[1]))
    ensures !NoBreak(s[1..])
  {
    var i :| 0 <= i < |s| - 1 && s[i] == '.' && IsSpace(s[i + 1]);
    assert s[1..][i - 1] == s[i] && s[1..][i] == s[i + 1];
  }

  /** The first break of the tail, seen from the whole text. */
  lemma BreakMovesOn(s: string, j: nat)
    requires |s| >= 2 && !(s[0] == '.' && IsSpace(s[1]))
    requires FirstBreakAt(s[1..], j)
    ensures FirstBreakAt(s, j + 1)
  {
    assert s[j + 1] == s[1..][j] && s[j + 2] == s[1..][j + 1];
    var t := s[..j + 1];
    forall k | 0 <= k < |t| - 1 ensures !(t[k] == '.' && IsSpace(t[k + 1])) {
      if k > 0 {
        assert t[k] == s[1..][..j][k - 1] && t[k + 1] == s[1..][..j][k];
      } else {
        assert t[1] == s[1];
      }
    }
  }

  /** Splitting into sentences only removes characters: every character of
      every part occurs in the text; its position is returned. */
  lemma {:induction false} SentenceCharIn(s: string, i: nat, j: nat) returns (k: nat)
    requires i < |SplitSentences(s)| && j < |SplitSentences(s)[i]|
    ensures k < |s| && s[k] == SplitSentences(s)[i][j]
    decreases |s|, 1
  {
    if |s| < 2 {
      k := j;
    } else if s[0] == '.' && IsSpace(s[1]) {
      k := SentenceCharInBreak(s, i, j);
    } else {
      k := SentenceCharInPlain(s, i, j);
    }
  }

  lemma {:induction false} SentenceCharInBreak(s: string, i: nat, j: nat) returns (k: nat)
    requires |s| >= 2 && s[0] == '.' && IsSpace(s[1])
    requires i < |SplitSentences(s)| && j < |SplitSentences(s)[i]|
    ensures k < |s| && s[k] == SplitSentences(s)[i][j]
    decreases |s|, 0
  {
    var rest := StripLeft(s[1..], WS);
    assert SplitSentences(s) == [[]] + SplitSentences(rest);
    var k' := SentenceCharIn(rest, i - 1, j);
    assert rest[k'] == s[|s| - |rest| + k'];
    k := |s| - |rest| + k';
  }

  lemma {:induction false} SentenceCharInPlain(s: string, i: nat, j: nat) returns (k: nat)
    requires |s| >= 2 && !(s[0] == '.' && IsSpace(s[1]))
    requires i < |SplitSentences(s)| && j < |SplitSentences(s)[i]|
    ensures k < |s| && s[k] == SplitSentences(s)[i][j]
    decreases |s|, 0
  {
    var rest := SplitSentences(s[1..]);
    assert SplitSentences(s) == [[s[0]] + rest[0]] + rest[1..];
    PlainStepChar(SplitSentences(s), rest, s[0], i, j);
    if i == 0 && j == 0 {
      k := 0;
    } else if i == 0 {
      var k' := SentenceCharIn(s[1..], 0, j - 1);
      k := k' + 1;
    } else {
      var k' := SentenceCharIn(s[1..], i, j);
      k := k' + 1;
    }
  }

  /** Where a character of a part sits when the first part grew by one
      character `c` in front. */
  lemma PlainStepChar(whole: seq<string>, rest: seq<string>, c: char, i: nat, j: nat)
    requires |rest| >= 1 && whole == [[c] + rest[0]] + rest[1..]
    requires i < |whole| && j < |whole[i]|
    ensures i == 0 && j == 0 ==> whole[i][j] == c
    ensures i == 0 && j > 0 ==> j - 1 < |rest[0]| && whole[i][j] == rest[0][j - 1]
    ensures i > 0 ==> i < |rest| && j < |rest[i]| && whole[i][j] == rest[i][j]
  {
    if i > 0 {
      assert whole[i] == rest[1..][i - 1];
    }
  }

  const DOT: set<char> := {'.'}

  /** `part.strip().strip(".")` */
  function Clean(part: string): (c: string)
  {
    Strip(Strip(part, WS), DOT)
  }

  /** A statement as `split_into_lines` emits it: non-empty, first character
      neither whitespace nor a full stop, last character not a full stop, and
      no line break inside. */
  ghost predicate WellFormedStatement(s: string) {
    && |s| > 0
    && !IsSpace(s[0]) && s[0] != '.'
    && s[|s| - 1] != '.'
    && '\n' !in s
  }

  /** Stripping keeps the no-break property: the result is a slice. */
  lemma NoBreakStrip(s: string, cs: set<char>)
    requires NoBreak(s)
    ensures NoBreak(Strip(s, cs))
  {
    var t := Strip(s, cs);
    var a := StripOffset(s, cs);
    forall i | 0 <= i < |t| - 1 ensures !(t[i] == '.' && IsSpace(t[i + 1])) {
      assert t[i] == s[a + i] && t[i + 1] == s[a + i + 1];
    }
  }

  /** After stripping full stops from a text that starts with a
      non-whitespace character and has no sentence break, the first character
      is neither whitespace nor a full stop. */
  lemma StripDotsFirst(t: string)
    requires NoBreak(t)
    requires Strip(t, DOT) != []
    requires !IsSpace(t[0])
    ensures !IsSpace(Strip(t, DOT)[0]) && Strip(t, DOT)[0] != '.'
  {
    var c := Strip(t, DOT);
    var b := StripOffset(t, DOT);
    assert c[0] == t[b];
    if b > 0 {
      assert t[b - 1] == '.';
    }
  }

  /** A cleaned part starts with neither whitespace nor a full stop: a
      whitespace character right after a stripped full stop would have been a
      sentence break. */
  lemma CleanFirst(part: string)
    requires NoBreak(part)
    requires Clean(part) != []
    ensures !IsSpace(Clean(part)[0]) && Clean(part)[0] != '.'
  {
    NoBreakStrip(part, WS);
    StripDotsFirst(Strip(part, WS));
  }

  /** Cleaning only removes characters. */
  lemma CleanKeepsChars(part: string, k: nat)
    requires k < |Clean(part)|
    ensures Clean(part)[k] in part
  {
    var t := Strip(part, WS);
    StripKeepsChars(t, DOT, k);
    var i :| 0 <= i < |t| && t[i] == Clean(part)[k];
    StripKeepsChars(part, WS, i);
  }

  /** A part that cleans to nothing holds only whitespace and full stops. */
  lemma CleanEmptyAllIn(part: string)
    requires Clean(part) == []
    ensures AllIn(part, WS + DOT)
  {
    var t := Strip(part, WS);
    assert AllIn(t, DOT);
    StripAllIn(part, WS, DOT);
  }

  /** Cleaning keeps a statement well formed, and empties exactly the parts made
      only of whitespace and full stops. */
  lemma CleanShape(part: string)
    requires NoBreak(part)
    requires '\n' !in part
    ensures Clean(part) != [] ==> WellFormedStatement(Clean(part))
    ensures Clean(part) == [] <==> AllIn(part, WS + DOT)
  {
    if Clean(part) != [] {
      CleanFirst(part);
      CleanNoNewline(part);
      CleanNotBlank(part);
    } else {
      CleanEmptyAllIn(part);
    }
  }

  /** Cleaning adds no line break. */
  lemma CleanNoNewline(part: string)
    requires '\n' !in part
    ensures '\n' !in Clean(part)
  {
    var c := Clean(part);
    forall k | 0 <= k < |c| ensures c[k] != '\n' {
      CleanKeepsChars(part, k);
    }
  }

  /** A part that cleans to something holds a character other than
      whitespace and full stops. */
  lemma CleanNotBlank(part: string)
    requires NoBreak(part) && Clean(part) != []
    ensures !AllIn(part, WS + DOT)
  {
    CleanFirst(part);
    CleanKeepsChars(part, 0);
    var i :| 0 <= i < |part| && part[i] == Clean(part)[0];
    assert part[i] !in WS + DOT;
  }

  /** The non-empty cleaned parts, in order. */
  function CleanParts(parts: seq<string>): (stmts: seq<string>)
    decreases |parts|
  {
    if |parts| == 0 then []
    else
      var c := Clean(parts[0]);
      (if c != [] then [c] else []) + CleanParts(parts[1..])
  }

  /** The statements of every line, in order. */
  function SplitLines(lines: seq<string>): (stmts: seq<string>)
    decreases |lines|
  {
    if |lines| == 0 then [] else CleanParts(SplitSentences(lines[0])) + SplitLines(lines[1..])
  }

  /** `split_into_lines`: split at line breaks, then at full stops followed by
      whitespace, clean each piece and drop the empty ones. */
  function SplitIntoLines(text: string): (stmts: seq<string>)
  {
    SplitLines(SplitOn(text, '\n'))
  }

  /** Sentence parts with no sentence break and no line break inside. */
  predicate Unbroken(parts: seq<string>) {
    forall i :: 0 <= i < |parts| ==> NoBreak(parts[i]) && '\n' !in parts[i]
  }

  /** The parts after the first of an unbroken list are unbroken. */
  lemma UnbrokenTail(parts: seq<string>)
    requires |parts| > 0 && Unbroken(parts)
    ensures NoBreak(parts[0]) && '\n' !in parts[0]
    ensures Unbroken(parts[1..])
  {
    forall i | 0 <= i < |parts[1..]| ensures NoBreak(parts[1..][i]) && '\n' !in parts[1..][i] {
      assert parts[1..][i] == parts[i + 1];
    }
  }

  /** The first cleaned part is kept exactly when it is non-empty. */
  lemma CleanPartsCons(parts: seq<string>)
    requires |parts| > 0
    ensures Clean(parts[0]) != [] ==> CleanParts(parts) == [Clean(parts[0])] + CleanParts(parts[1..])
    ensures Clean(parts[0]) == [] ==> CleanParts(parts) == CleanParts(parts[1..])
  {
  }

  /** A well-formed statement in front of well-formed statements. */
  lemma ConsWellFormed(c: string, tail: seq<string>)
    requires WellFormedStatement(c)
    requires forall i :: 0 <= i < |tail| ==> WellFormedStatement(tail[i])
    ensures forall i :: 0 <= i < |[c] + tail| ==> WellFormedStatement(([c] + tail)[i])
  {
    forall i | 0 <= i < |[c] + tail| ensures WellFormedStatement(([c] + tail)[i]) {
      if i > 0 {
        assert ([c] + tail)[i] == tail[i - 1];
      }
    }
  }

  lemma {:induction false} CleanPartsWellFormed(parts: seq<string>)
    requires Unbroken(parts)
    ensures forall i :: 0 <= i < |CleanParts(parts)| ==> WellFormedStatement(CleanParts(parts)[i])
    decreases |parts|
  {
    if |parts| > 0 {
      UnbrokenTail(parts);
      CleanPartsCons(parts);
      CleanPartsWellFormed(parts[1..]);
      if Clean(parts[0]) != [] {
        CleanShape(parts[0]);
        ConsWellFormed(Clean(parts[0]), CleanParts(parts[1..]));
      }
    }
  }

  lemma {:induction false} CleanPartsEmpty(parts: seq<string>)
    requires Unbroken(parts)
    ensures CleanParts(parts) == [] <==> forall i :: 0 <= i < |parts| ==> AllIn(parts[i], WS + DOT)
    decreases |parts|
  {
    if |parts| > 0 {
      UnbrokenTail(parts);
      CleanPartsCons(parts);
      CleanShape(parts[0]);
      CleanPartsEmpty(parts[1..]);
      AllInCons(parts);
    }
  }

  /** Every part is blank iff the first is and every later one is. */
  lemma AllInCons(parts: seq<string>)
    requires |parts| > 0
    ensures (forall i :: 0 <= i < |parts| ==> AllIn(parts[i], WS + DOT))
        <==> AllIn(parts[0], WS + DOT) && forall i :: 0 <= i < |parts[1..]| ==> AllIn(parts[1..][i], WS + DOT)
  {
    if AllIn(parts[0], WS + DOT) && forall i :: 0 <= i < |parts[1..]| ==> AllIn(parts[1..][i], WS + DOT) {
      forall i | 0 < i < |parts| ensures AllIn(parts[i], WS + DOT) {
        assert parts[i] == parts[1..][i - 1];
      }
    }
  }

  /** The sentence parts of a line without line breaks have none either. */
  lemma SentencesNoNewline(line: string)
    requires '\n' !in line
    ensures Unbroken(SplitSentences(line))
  {
    var parts := SplitSentences(line);
    forall i | 0 <= i < |parts| ensures '\n' !in parts[i] {
      forall j | 0 <= j < |parts[i]| ensures parts[i][j] != '\n' {
        var k := SentenceCharIn(line, i, j);
      }
    }
  }

  lemma {:induction false} SplitLinesWellFormed(lines: seq<string>)
    requires forall i :: 0 <= i < |lines| ==> '\n' !in lines[i]
    ensures forall i :: 0 <= i < |SplitLines(lines)| ==> WellFormedStatement(SplitLines(lines)[i])
    decreases |lines|
  {
    if |lines| > 0 {
      var head := CleanParts(SplitSentences(lines[0]));
      var tail := SplitLines(lines[1..]);
      assert SplitLines(lines) == head + tail;
      SentencesNoNewline(lines[0]);
      CleanPartsWellFormed(SplitSentences(lines[0]));
      SplitLinesWellFormed(lines[1..]);
      forall i | 0 <= i < |head + tail| ensures WellFormedStatement((head + tail)[i]) {
        if i >= |head| {
          assert (head + tail)[i] == tail[i - |head|];
        }
      }
    }
  }

  /** A line yields no statement exactly when it holds only whitespace and
      full stops. */
  lemma LineEmpty(line: string)
    requires '\n' !in line
    ensures CleanParts(SplitSentences(line)) == [] <==> AllIn(line, WS + DOT)
  {
    SentencesNoNewline(line);
    CleanPartsEmpty(SplitSentences(line));
    SentencesAllIn(line);
  }

  lemma {:induction false} SplitLinesEmpty(lines: seq<string>)
    requires forall i :: 0 <= i < |lines| ==> '\n' !in lines[i]
    ensures SplitLines(lines) == [] <==> forall i :: 0 <= i < |lines| ==> AllIn(lines[i], WS + DOT)
    decreases |lines|
  {
    if |lines| > 0 {
      var head := CleanParts(SplitSentences(lines[0]));
      var rest := lines[1..];
      assert SplitLines(lines) == head + SplitLines(rest);
      LineEmpty(lines[0]);
      SplitLinesEmpty(rest);
      if SplitLines(lines) == [] {
        assert |head| == 0 && |SplitLines(rest)| == 0;
        assert AllIn(lines[0], WS + DOT);
        forall i | 0 <= i < |lines| ensures AllIn(lines[i], WS + DOT) {
          if i > 0 {
            assert lines[i] == rest[i - 1];
          }
        }
      } else if head == [] {
        var j :| 0 <= j < |rest| && !AllIn(rest[j], WS + DOT);
        assert lines[j + 1] == rest[j];
      }
    }
  }

  /** A line splits into parts made only of whitespace and full stops exactly
      when the line itself is made only of them. */
  lemma SentencesAllIn(s: string)
    ensures AllIn(s, WS + DOT) <==> forall i :: 0 <= i < |SplitSentences(s)| ==> AllIn(SplitSentences(s)[i], WS + DOT)
  {
    var parts := SplitSentences(s);
    if AllIn(s, WS + DOT) {
      forall i, j | 0 <= i < |parts| && 0 <= j < |parts[i]|
        ensures parts[i][j] in WS + DOT
      {
        var k := SentenceCharIn(s, i, j);
      }
    } else {
      var k :| 0 <= k < |s| && s[k] !in WS + DOT;
      var i, j := SentencesCover(s, k);
    }
  }

  /** Every character other than whitespace and full stops lands in some part;
      the part and the position in it are returned. */
  lemma {:induction false} SentencesCover(s: string, k: nat) returns (i: nat, j: nat)
    requires k < |s| && s[k] !in WS + DOT
    ensures i < |SplitSentences(s)| && j < |SplitSentences(s)[i]| && SplitSentences(s)[i][j] == s[k]
    decreases |s|, 1
  {
    if |s| < 2 {
      i, j := 0, k;
    } else if s[0] == '.' && IsSpace(s[1]) {
      i, j := SentencesCoverBreak(s, k);
    } else {
      i, j := SentencesCoverPlain(s, k);
    }
  }

  lemma {:induction false} SentencesCoverBreak(s: string, k: nat) returns (i: nat, j: nat)
    requires |s| >= 2 && s[0] == '.' && IsSpace(s[1])
    requires k < |s| && s[k] !in WS + DOT
    ensures i < |SplitSentences(s)| && j < |SplitSentences(s)[i]| && SplitSentences(s)[i][j] == s[k]
    decreases |s|, 0
  {
    var rest := StripLeft(s[1..], WS);
    var off := |s| - |rest|;
    assert k >= off;
    assert rest[k - off] == s[k];
    var i', j' := SentencesCover(rest, k - off);
    assert SplitSentences(s) == [[]] + SplitSentences(rest);
    i, j := i' + 1, j';
  }

  lemma {:induction false} SentencesCoverPlain(s: string, k: nat) returns (i: nat, j: nat)
    requires |s| >= 2 && !(s[0] == '.' && IsSpace(s[1]))
    requires k < |s| && s[k] !in WS + DOT
    ensures i < |SplitSentences(s)| && j < |SplitSentences(s)[i]| && SplitSentences(s)[i][j] == s[k]
    decreases |s|, 0
  {
    var rest := SplitSentences(s[1..]);
    assert SplitSentences(s) == [[s[0]] + rest[0]] + rest[1..];
    if k == 0 {
      i, j := 0, 0;
    } else {
      var i', j' := SentencesCover(s[1..], k - 1);
      if i' == 0 {
        i, j := 0, j' + 1;
      } else {
        i, j := i', j';
      }
    }
  }

  /** `split_into_lines` emits well-formed statements, and emits none exactly
      when the text consists only of whitespace and full stops (so in
      particular for empty or blank text). */
  lemma SplitIntoLinesShape(text: string)
    ensures forall i :: 0 <= i < |SplitIntoLines(text)| ==> WellFormedStatement(SplitIntoLines(text)[i])
    ensures SplitIntoLines(text) == [] <==> AllIn(text, WS + DOT)
  {
    var lines := SplitOn(text, '\n');
    forall i | 0 <= i < |lines| ensures '\n' !in lines[i] {
    }
    SplitLinesWellFormed(lines);
    SplitLinesEmpty(lines);
    if AllIn(text, WS + DOT) {
      JoinSplit(text, '\n');
      forall i, j | 0 <= i < |lines| && 0 <= j < |lines[i]|
        ensures lines[i][j] in WS + DOT
      {
        LineCharInText(lines, i, j);
      }
    } else {
      var k :| 0 <= k < |text| && text[k] !in WS + DOT;
      SplitOnCovers(text, '\n', k);
    }
  }

  /** A character of a piece is a character of the joined text. */
  lemma {:induction false} LineCharInText(lines: seq<string>, i: nat, j: nat)
    requires i < |lines| && j < |lines[i]|
    ensures lines[i][j] in Join(lines, '\n')
    decreases |lines|
  {
    if |lines| > 1 {
      if i == 0 {
        assert Join(lines, '\n')[j] == lines[0][j];
      } else {
        LineCharInText(lines[1..], i - 1, j);
        var k :| 0 <= k < |Join(lines[1..], '\n')| && Join(lines[1..], '\n')[k] == lines[i][j];
        var off := |lines[0]| + 1;
        assert Join(lines, '\n')[off + k] == Join(lines[1..], '\n')[k];
      }
    }
  }

  /** Statements after per-statement whitespace collapse. */
  function NormalizeAll(stmts: seq<string>): (r: seq<string>)
    ensures |r| == |stmts|
    ensures forall i :: 0 <= i < |r| ==> r[i] == Normalize(stmts[i])
  {
    seq(|stmts|, i requires 0 <= i < |stmts| => Normalize(stmts[i]))
  }

  /** The statements `translate` classifies. */
  function Statements(rawText: string): seq<string> {
    NormalizeAll(SplitIntoLines(rawText))
  }

  /** Every statement `translate` classifies is non-empty, in normalised form,
      and starts with neither whitespace nor a full stop. */
  lemma StatementsShape(rawText: string)
    ensures forall i :: 0 <= i < |Statements(rawText)| ==>
      |Statements(rawText)[i]| > 0 && Canonical(Statements(rawText)[i]) && Statements(rawText)[i][0] != '.'
    ensures Statements(rawText) == [] <==> AllIn(rawText, WS + DOT)
  {
    SplitIntoLinesShape(rawText);
    var stmts := SplitIntoLines(rawText);
    forall i | 0 <= i < |stmts|
      ensures |Normalize(stmts[i])| > 0 && Normalize(stmts[i])[0] != '.'
    {
      var s := stmts[i];
      assert !AllIn(s, WS);
      assert Strip(s, WS)[0] == s[0] by {
        var a := StripOffset(s, WS);
        assert a == 0;
      }
    }
  }

  // ---------------------------------------------------------------------------
  // Leading type markers

  /** The alternatives of the marker pattern, in pattern order. */
  const MARKERS: seq<string> := ["added", "fixed", "changed", "deprecated", "security", "breaking change"]

  /** `m` is a case-insensitive prefix of `line`. */
  predicate CiPrefix(m: string, line: string) {
    |m| <= |line| && Lower(line[..|m|]) == m
  }

  /** Index of the first marker that starts the line; `|MARKERS|` when none. */
  function MarkerIndex(line: string, from: nat): (i: nat)
    requires from <= |MARKERS|
    ensures from <= i <= |MARKERS|
    ensures i < |MARKERS| ==> CiPrefix(MARKERS[i], line)
    ensures forall j :: from <= j < i ==> !CiPrefix(MARKERS[j], line)
    decreases |MARKERS| - from
  {
    if from == |MARKERS| then from
    else if CiPrefix(MARKERS[from], line) then from
    else MarkerIndex(line, from + 1)
  }

  /** A separator the pattern `\s*:?\s*` matches in full: whitespace and at
      most one colon. */
  predicate SeparatorShape(sep: string) {
    SeparatorFrom(sep, false)
  }

  /** The rest of a separator, read left to right: whitespace anywhere, and a
      colon only while `colon` (one was already read) is false. */
  predicate SeparatorFrom(sep: string, colon: bool)
    decreases |sep|
  {
    |sep| == 0 || ((IsSpace(sep[0]) || (sep[0] == ':' && !colon)) && SeparatorFrom(sep[1..], colon || sep[0] == ':'))
  }

  /** A separator followed by more text: each part is read in turn. */
  lemma {:induction false} SeparatorAppend(a: string, b: string, colon: bool)
    ensures SeparatorFrom(a + b, colon) <==> SeparatorFrom(a, colon) && SeparatorFrom(b, colon || ':' in a)
    decreases |a|
  {
    if |a| == 0 {
      assert a + b == b;
    } else {
      assert (a + b)[0] == a[0] && (a + b)[1..] == a[1..] + b;
      SeparatorAppend(a[1..], b, colon || a[0] == ':');
      assert ':' in a <==> a[0] == ':' || ':' in a[1..];
    }
  }

  ghost predicate StartsWithMarker(line: string) {
    exists m :: m in MARKERS && CiPrefix(m, line)
  }

  /** The statement is a marker followed only by whitespace and at most one colon. */
  ghost predicate IsMarkerOnly(line: string) {
    exists m :: m in MARKERS && CiPrefix(m, line) && SeparatorShape(line[|m|..])
  }

  /** The statement leaves no description: it is empty or only a marker. */
  ghost predicate EmptyDescription(line: string) {
    line == [] || IsMarkerOnly(line)
  }

  /** At most one marker can start a line: their first letters differ. */
  lemma MarkerUnique(line: string, i: nat, j: nat)
    requires i < |MARKERS| && j < |MARKERS|
    requires CiPrefix(MARKERS[i], line) && CiPrefix(MARKERS[j], line)
    ensures i == j
  {
    assert MARKERS[i][0] == Lower(line[..|MARKERS[i]|])[0] == LowerChar(line[0]);
    assert MARKERS[j][0] == Lower(line[..|MARKERS[j]|])[0] == LowerChar(line[0]);
  }

  /** Strip the separator `\s*:?\s*` that follows a marker: whitespace, an
      optional colon, whitespace. */
  function StripSeparator(rest: string): (d: string)
    ensures |d| <= |rest| && d == rest[|rest| - |d|..]
    ensures SeparatorShape(rest[..|rest| - |d|])
    ensures |d| > 0 ==> !IsSpace(d[0])
    ensures |d| > 0 && d[0] == ':' ==> ':' in rest[..|rest| - |d|]
  {
    var a := StripLeft(rest, WS);
    var c := if |a| > 0 && a[0] == ':' then 1 else 0;
    var d := StripLeft(a[c..], WS);
    SeparatorParts(rest, a, c, d);
    d
  }

  /** The prefix `StripSeparator` removes is a separator. */
  lemma {:induction false} SeparatorParts(rest: string, a: string, c: nat, d: string)
    requires a == StripLeft(rest, WS)
    requires c == (if |a| > 0 && a[0] == ':' then 1 else 0)
    requires d == StripLeft(a[c..], WS)
    ensures |d| <= |rest| && d == rest[|rest| - |d|..]
    ensures SeparatorShape(rest[..|rest| - |d|])
    ensures |d| > 0 && d[0] == ':' ==> ':' in rest[..|rest| - |d|]
  {
    SeparatorIsSuffix(rest, a, c, d);
    SeparatorIsShaped(rest, a, c, d);
    ColonBeforeDescription(rest, a, c, d);
  }

  /** What `StripSeparator` keeps is a suffix of its input. */
  lemma SeparatorIsSuffix(rest: string, a: string, c: nat, d: string)
    requires a == StripLeft(rest, WS)
    requires c == (if |a| > 0 && a[0] == ':' then 1 else 0)
    requires d == StripLeft(a[c..], WS)
    ensures |d| <= |rest| && d == rest[|rest| - |d|..]
  {
    SkippedSuffix(rest, a, c, d);
  }

  /** Skipping a prefix of a suffix leaves a suffix. */
  lemma SkippedSuffix(rest: string, a: string, c: nat, d: string)
    requires |a| <= |rest| && a == rest[|rest| - |a|..]
    requires c <= |a| && |d| <= |a[c..]| && d == a[c..][|a[c..]| - |d|..]
    ensures |d| <= |rest| && d == rest[|rest| - |d|..]
  {
    SuffixOfSuffix(a, a[c..], d);
    SuffixOfSuffix(rest, a, d);
  }

  /** What `StripSeparator` removes is a separator. */
  lemma SeparatorIsShaped(rest: string, a: string, c: nat, d: string)
    requires a == StripLeft(rest, WS)
    requires c == (if |a| > 0 && a[0] == ':' then 1 else 0)
    requires d == StripLeft(a[c..], WS)
    requires |d| <= |rest|
    ensures SeparatorShape(rest[..|rest| - |d|])
  {
    var sep := rest[..|rest| - |d|];
    SeparatorChars(rest, a, c, d, sep);
    OneColon(sep, |rest| - |a|);
  }

  /** A description starting with a colon follows a separator that already
      holds the one colon it may contain. */
  lemma ColonBeforeDescription(rest: string, a: string, c: nat, d: string)
    requires a == StripLeft(rest, WS)
    requires c == (if |a| > 0 && a[0] == ':' then 1 else 0)
    requires d == StripLeft(a[c..], WS)
    requires |d| <= |rest| && d == rest[|rest| - |d|..]
    ensures |d| > 0 && d[0] == ':' ==> ':' in rest[..|rest| - |d|]
  {
    if |d| > 0 && d[0] == ':' {
      if c == 0 {
        assert false;
      }
      assert rest[..|rest| - |d|][|rest| - |a|] == a[0];
    }
  }

  /** A suffix of a suffix is a suffix. */
  lemma SuffixOfSuffix(x: string, y: string, z: string)
    requires |y| <= |x| && y == x[|x| - |y|..]
    requires |z| <= |y| && z == y[|y| - |z|..]
    ensures |z| <= |x| && z == x[|x| - |z|..]
  {
    forall i | 0 <= i < |z| ensures z[i] == x[|x| - |z| + i] {
      assert z[i] == y[|y| - |z| + i];
    }
  }

  /** Every character the separator spans is whitespace, except a colon
      right after the leading whitespace. */
  lemma SeparatorChars(rest: string, a: string, c: nat, d: string, sep: string)
    requires a == StripLeft(rest, WS)
    requires c == (if |a| > 0 && a[0] == ':' then 1 else 0)
    requires d == StripLeft(a[c..], WS)
    requires |d| <= |rest| && sep == rest[..|rest| - |d|]
    ensures forall i :: 0 <= i < |sep| ==> IsSpace(sep[i]) || (i == |rest| - |a| && sep[i] == ':')
  {
    forall i | 0 <= i < |sep| ensures IsSpace(sep[i]) || (i == |rest| - |a| && sep[i] == ':') {
      SeparatorCharAt(rest, a, c, d, i);
      assert sep[i] == rest[i];
    }
  }

  /** A separator ends where a character other than whitespace, or a second
      colon, appears. */
  lemma SeparatorStops(sep: string, d: string)
    requires |d| > 0 && !IsSpace(d[0])
    requires d[0] == ':' ==> ':' in sep
    ensures !SeparatorShape(sep + d)
  {
    SeparatorAppend(sep, d, false);
  }

  /** The second character of a separator is whitespace or a colon. */
  lemma SeparatorSecond(sep: string)
    requires SeparatorShape(sep) && |sep| > 1
    ensures IsSpace(sep[1]) || sep[1] == ':'
  {
    assert SeparatorFrom(sep[1..], sep[0] == ':');
    assert sep[1..][0] == sep[1];
  }

  /** Whitespace with at most one colon, at a known position, is a separator. */
  lemma OneColon(sep: string, n: int)
    requires forall i :: 0 <= i < |sep| ==> IsSpace(sep[i]) || (i == n && sep[i] == ':')
    ensures SeparatorShape(sep)
  {
    OneColonFrom(sep, n, false);
  }

  lemma {:induction false} OneColonFrom(sep: string, n: int, colon: bool)
    requires forall i :: 0 <= i < |sep| ==> IsSpace(sep[i]) || (i == n && sep[i] == ':' && !colon)
    ensures SeparatorFrom(sep, colon)
    decreases |sep|
  {
    if |sep| > 0 {
      PrintableNotSpace(':');
      forall i | 0 <= i < |sep[1..]|
        ensures IsSpace(sep[1..][i]) || (i == n - 1 && sep[1..][i] == ':' && !(colon || sep[0] == ':'))
      {
        assert sep[1..][i] == sep[i + 1];
      }
      OneColonFrom(sep[1..], n - 1, colon || sep[0] == ':');
    }
  }

  /** Each character `StripSeparator` removes is whitespace, except the one
      optional colon. */
  lemma {:induction false} SeparatorCharAt(rest: string, a: string, c: nat, d: string, i: nat)
    requires a == StripLeft(rest, WS)
    requires c == (if |a| > 0 && a[0] == ':' then 1 else 0)
    requires d == StripLeft(a[c..], WS)
    requires i < |rest| - |d|
    ensures IsSpace(rest[i]) || (i == |rest| - |a| && rest[i] == ':')
  {
    var n1 := |rest| - |a|;
    if c == 1 && i == n1 {
      assert rest[i] == a[0];
    } else if i >= n1 + c {
      var b := a[c..];
      assert rest[i] == a[i - n1] == b[i - n1 - c];
    }
  }

  /** `line` is the marker `m`, then the longest separator the pattern
      matches there, then the suffix `d`. */
  ghost predicate MarkerThenSeparator(line: string, m: string, d: string) {
    && m in MARKERS && CiPrefix(m, line)
    && |m| <= |line| - |d| && d == line[|line| - |d|..]
    && SeparatorShape(line[|m|..|line| - |d|])
    && LongestSeparator(line[|m|..|line| - |d|], d)
  }

  /** The separator before `d` cannot grow: `d` starts with neither
      whitespace nor a colon the separator could still take. */
  predicate LongestSeparator(sep: string, d: string) {
    |d| > 0 ==> !IsSpace(d[0]) && (d[0] == ':' ==> ':' in sep)
  }

  /** What the description of `line` is: a suffix of it; the whole line when
      no marker starts it, otherwise what follows a marker and a separator;
      empty exactly when the line leaves no description. */
  ghost predicate DescriptionOf(line: string, d: string) {
    && |d| <= |line| && d == line[|line| - |d|..]
    && (!StartsWithMarker(line) ==> d == line)
    && (StartsWithMarker(line) ==> exists m :: MarkerThenSeparator(line, m, d))
    && (d == [] <==> EmptyDescription(line))
  }

  /** The description: the statement minus one leading case-insensitive
      marker and the whitespace/colon separator after it. */
  function StripMarker(line: string): (d: string)
    ensures DescriptionOf(line, d)
  {
    var i := MarkerIndex(line, 0);
    if i == |MARKERS| then
      NoMarker(line);
      line
    else
      var d := StripSeparator(line[|MARKERS[i]|..]);
      MarkerFound(line, i, d);
      d
  }

  /** A statement has exactly one description: the marker that starts it is
      unique, and so is the longest separator after it. */
  lemma DescriptionUnique(line: string, d1: string, d2: string)
    requires DescriptionOf(line, d1) && DescriptionOf(line, d2)
    ensures d1 == d2
  {
    if StartsWithMarker(line) {
      var m1 :| MarkerThenSeparator(line, m1, d1);
      var m2 :| MarkerThenSeparator(line, m2, d2);
      MarkedDescriptionUnique(line, m1, m2, d1, d2);
    }
  }

  /** Two readings of a line as marker, separator and suffix agree. */
  lemma MarkedDescriptionUnique(line: string, m1: string, m2: string, d1: string, d2: string)
    requires MarkerThenSeparator(line, m1, d1) && MarkerThenSeparator(line, m2, d2)
    ensures d1 == d2
  {
    var i :| 0 <= i < |MARKERS| && MARKERS[i] == m1;
    var j :| 0 <= j < |MARKERS| && MARKERS[j] == m2;
    MarkerUnique(line, i, j);
    SeparatorUnique(line, |m1|, d1, d2);
  }

  /** After a given marker, the longest separator leaves one suffix. */
  lemma SeparatorUnique(line: string, n: nat, d1: string, d2: string)
    requires n <= |line| - |d1| && d1 == line[|line| - |d1|..]
    requires n <= |line| - |d2| && d2 == line[|line| - |d2|..]
    requires SeparatorShape(line[n..|line| - |d1|]) && LongestSeparator(line[n..|line| - |d1|], d1)
    requires SeparatorShape(line[n..|line| - |d2|]) && LongestSeparator(line[n..|line| - |d2|], d2)
    ensures d1 == d2
  {
    if |d1| > |d2| {
      SeparatorBlocks(line, n, d1, |d2|);
    } else if |d2| > |d1| {
      SeparatorBlocks(line, n, d2, |d1|);
    }
  }

  /** Past the longest separator, any longer stretch is no separator. */
  lemma SeparatorBlocks(line: string, n: nat, d: string, k: nat)
    requires n <= |line| - |d| && d == line[|line| - |d|..]
    requires LongestSeparator(line[n..|line| - |d|], d)
    requires k < |d|
    ensures !SeparatorShape(line[n..|line| - k])
  {
    var sep := line[n..|line| - |d|];
    var more := d[..|d| - k];
    assert line[n..|line| - k] == sep + more;
    SeparatorAppend(sep, more, false);
    assert more[0] == d[0];
  }

  /** The description contract determines the description: it holds of
      exactly what `StripMarker` returns. */
  lemma DescriptionIsStripMarker(line: string, d: string)
    ensures DescriptionOf(line, d) <==> d == StripMarker(line)
  {
    if DescriptionOf(line, d) {
      DescriptionUnique(line, d, StripMarker(line));
    }
  }

  /** A line no marker starts is its own description. */
  lemma NoMarker(line: string)
    requires MarkerIndex(line, 0) == |MARKERS|
    ensures DescriptionOf(line, line)
  {
  }

  /** The separator stripped from `line[n..]` sits between position `n` and
      the remaining suffix. */
  lemma SeparatorSuffix(line: string, n: nat, d: string)
    requires n <= |line|
    requires |d| <= |line[n..]| && d == line[n..][|line[n..]| - |d|..]
    requires SeparatorShape(line[n..][..|line[n..]| - |d|])
    ensures n <= |line| - |d| && d == line[|line| - |d|..]
    ensures SeparatorShape(line[n..|line| - |d|])
  {
    SuffixSlices(line, n, |d|);
  }

  /** Cutting `k` characters off the end of `line[n..]`, and keeping them. */
  lemma SuffixSlices(line: string, n: nat, k: nat)
    requires n + k <= |line|
    ensures line[n..][..|line| - n - k] == line[n..|line| - k]
    ensures line[n..][|line| - n - k..] == line[|line| - k..]
  {
  }

  /** Stripping the separator after a found marker leaves the description. */
  lemma MarkerFound(line: string, i: nat, d: string)
    requires i < |MARKERS| && CiPrefix(MARKERS[i], line)
    requires d == StripSeparator(line[|MARKERS[i]|..])
    ensures DescriptionOf(line, d)
  {
    var m := MARKERS[i];
    var rest := line[|m|..];
    assert m in MARKERS;
    assert |d| <= |rest| && d == rest[|rest| - |d|..];
    assert SeparatorShape(rest[..|rest| - |d|]);
    assert LongestSeparator(rest[..|rest| - |d|], d);
    MarkerSplits(line, m, d);
    MarkerOnlyIff(line, i, d);
    MarkerLength(i);
    DescriptionAfterMarker(line, m, d);
  }

  /** Every marker has at least five letters. */
  lemma MarkerLength(i: nat)
    requires i < |MARKERS|
    ensures |MARKERS[i]| >= 5
  {
  }

  /** A suffix following a marker and a separator is the description, when it
      is empty exactly for a marker-only line. */
  lemma DescriptionAfterMarker(line: string, m: string, d: string)
    requires MarkerThenSeparator(line, m, d) && |line| > 0
    requires d == [] <==> IsMarkerOnly(line)
    ensures DescriptionOf(line, d)
  {
    assert |d| <= |line| && d == line[|line| - |d|..];
    assert StartsWithMarker(line) by {
      assert m in MARKERS && CiPrefix(m, line);
    }
    assert exists m' :: MarkerThenSeparator(line, m', d);
    assert d == [] <==> EmptyDescription(line);
  }

  /** A marker, a separator and the suffix after it make up the line. */
  lemma MarkerSplits(line: string, m: string, d: string)
    requires m in MARKERS && CiPrefix(m, line)
    requires |d| <= |line[|m|..]| && d == line[|m|..][|line[|m|..]| - |d|..]
    requires SeparatorShape(line[|m|..][..|line[|m|..]| - |d|])
    requires LongestSeparator(line[|m|..][..|line[|m|..]| - |d|], d)
    ensures MarkerThenSeparator(line, m, d)
  {
    SeparatorSuffix(line, |m|, d);
    LongestSuffix(line, |m|, d);
  }

  /** The longest separator of `line[n..]`, read as a slice of `line`. */
  lemma LongestSuffix(line: string, n: nat, d: string)
    requires n <= |line| && |d| <= |line[n..]|
    requires LongestSeparator(line[n..][..|line[n..]| - |d|], d)
    ensures n <= |line| - |d| && LongestSeparator(line[n..|line| - |d|], d)
  {
    SuffixSlices(line, n, |d|);
  }

  /** After a marker, the separator strips to nothing exactly when the line is
      only that marker and a separator. */
  lemma MarkerOnlyIff(line: string, i: nat, d: string)
    requires i < |MARKERS| && CiPrefix(MARKERS[i], line)
    requires d == StripSeparator(line[|MARKERS[i]|..])
    ensures d == [] <==> IsMarkerOnly(line)
  {
    OnlyThisMarker(line, i);
    var rest := line[|MARKERS[i]|..];
    assert |d| <= |rest| && d == rest[|rest| - |d|..];
    assert SeparatorShape(rest[..|rest| - |d|]);
    assert |d| > 0 ==> !IsSpace(d[0]);
    assert |d| > 0 && d[0] == ':' ==> ':' in rest[..|rest| - |d|];
    SeparatorRest(rest, d);
  }

  /** When `d` is what follows a separator at the start of `rest`, `rest` is
      all separator exactly when `d` is empty. */
  lemma SeparatorRest(rest: string, d: string)
    requires |d| <= |rest| && d == rest[|rest| - |d|..]
    requires SeparatorShape(rest[..|rest| - |d|])
    requires |d| > 0 ==> !IsSpace(d[0])
    requires |d| > 0 && d[0] == ':' ==> ':' in rest[..|rest| - |d|]
    ensures d == [] <==> SeparatorShape(rest)
  {
    var sep := rest[..|rest| - |d|];
    assert rest == sep + d;
    if d != [] {
      SeparatorStops(sep, d);
    } else {
      assert sep == rest;
    }
  }

  /** A line that marker `i` starts is a marker alone exactly when the rest
      of it is a separator. */
  lemma OnlyThisMarker(line: string, i: nat)
    requires i < |MARKERS| && CiPrefix(MARKERS[i], line)
    ensures IsMarkerOnly(line) <==> SeparatorShape(line[|MARKERS[i]|..])
  {
    if IsMarkerOnly(line) {
      var m' :| m' in MARKERS && CiPrefix(m', line) && SeparatorShape(line[|m'|..]);
      var j :| 0 <= j < |MARKERS| && MARKERS[j] == m';
      MarkerUnique(line, i, j);
    } else {
      assert MARKERS[i] in MARKERS;
    }
  }

  // ---------------------------------------------------------------------------
  // Extraction

  /** `product_area or infer_area(line)`: an absent or empty override falls
      back to inference. */
  function AreaFor(productArea: Option<string>, line: string): (area: string)
    ensures |area| >= 1
    ensures productArea.Some? && productArea.value != [] ==> area == productArea.value
    ensures productArea.None? || productArea.value == [] ==> area == InferArea(line)
  {
    if productArea.Some? && productArea.value != [] then productArea.value else InferArea(line)
  }

  /** The change a statement becomes, before validation. */
  function Classify(line: string, productArea: Option<string>): (c: ExtractedChange)
    ensures c.kind == DetectChangeType(line) && c.area == AreaFor(productArea, line)
    ensures DescriptionOf(line, c.description)
    ensures ValidChange(c) <==> !EmptyDescription(line)
  {
    ExtractedChange(DetectChangeType(line), AreaFor(productArea, line), StripMarker(line))
  }

  /** The unvalidated change of every statement, in order. */
  function ClassifyAll(lines: seq<string>, productArea: Option<string>): (cands: seq<ExtractedChange>)
    ensures |cands| == |lines|
    ensures forall i :: 0 <= i < |lines| ==> cands[i] == Classify(lines[i], productArea)
  {
    seq(|lines|, i requires 0 <= i < |lines| => Classify(lines[i], productArea))
  }

  /** Validates the candidates in order, as constructing each record does;
      the first invalid one fails the whole list. */
  function ValidateAll(cands: seq<ExtractedChange>): (r: Result<seq<ExtractedChange>, Errors>)
    requires forall i :: 0 <= i < |cands| ==> |cands[i].area| >= 1
    ensures r.Success? <==> forall i :: 0 <= i < |cands| ==> ValidChange(cands[i])
    ensures r.Success? ==> r.value == cands
    ensures r.Failure? ==> r.error == [TooShort("description")]
    decreases |cands|
  {
    if |cands| == 0 then Success([])
    else
      var c := cands[0];
      var head :- NewExtractedChange(c.kind, c.area, c.description);
      var tail :- ValidateAll(cands[1..]);
      assert forall i :: 1 <= i < |cands| ==> cands[i] == cands[1..][i - 1];
      Success([head] + tail)
  }

  /** `extract_changes`: one change per statement, in order. Construction fails
      validation, and the whole extraction with it, when a statement leaves no
      description (it is only a marker). */
  function ExtractChanges(lines: seq<string>, productArea: Option<string>): (r: Result<seq<ExtractedChange>, Errors>)
    ensures r.Success? <==> forall i :: 0 <= i < |lines| ==> !EmptyDescription(lines[i])
    ensures r.Success? ==> |r.value| == |lines|
    ensures r.Success? ==> forall i :: 0 <= i < |lines| ==> r.value[i] == Classify(lines[i], productArea) && ValidChange(r.value[i])
    ensures r.Failure? ==> r.error == [TooShort("description")]
  {
    var cands := ClassifyAll(lines, productArea);
    ValidateAll(cands)
  }

  // ---------------------------------------------------------------------------
  // Audience renderers

  const EM_DASH := "\U{2014}"
  const SUPPORT_PREFIX := "Support awareness " + EM_DASH + " "
  const FIX_PREFIX := "Fix: "
  const UPDATE_PREFIX := "Update: "
  const SECURITY_NOTE := "Security improvements applied."

  function CsBullet(c: ExtractedChange): string {
    Capitalize(c.kind.Name()) + " " + EM_DASH + " " + c.area + ": " + c.description
  }

  /** A CS bullet can be read back: it starts with the capitalised type name,
      then the area after the dash, and ends with the description. */
  lemma CsBulletDecodes(c: ExtractedChange)
    ensures Capitalize(c.kind.Name()) <= CsBullet(c)
    ensures var n := |Capitalize(c.kind.Name()) + " " + EM_DASH + " "|;
      CsBullet(c)[n..n + |c.area|] == c.area
    ensures CsBullet(c)[|CsBullet(c)| - |c.description|..] == c.description
  {
    var head := Capitalize(c.kind.Name()) + " " + EM_DASH + " ";
    assert CsBullet(c) == head + c.area + (": " + c.description);
    assert CsBullet(c) == Capitalize(c.kind.Name()) + (" " + EM_DASH + " " + c.area + ": " + c.description);
    assert CsBullet(c) == (head + c.area + ": ") + c.description;
  }

  /** `build_cs_summary`: one bullet per change, in order, naming the
      capitalised type, the area and the description. */
  function BuildCsSummary(changes: seq<ExtractedChange>): (r: seq<string>)
    ensures |r| == |changes|
    ensures forall i :: 0 <= i < |r| ==> r[i] == CsBullet(changes[i])
    decreases |changes|
  {
    if |changes| == 0 then [] else [CsBullet(changes[0])] + BuildCsSummary(changes[1..])
  }

  /** `build_support_notes`: one note per change, in order; the description
      is what follows the fixed prefix. */
  function BuildSupportNotes(changes: seq<ExtractedChange>): (r: seq<string>)
    ensures |r| == |changes|
    ensures forall i :: 0 <= i < |r| ==> SUPPORT_PREFIX <= r[i] && r[i][|SUPPORT_PREFIX|..] == changes[i].description
    decreases |changes|
  {
    if |changes| == 0 then []
    else
      var note := SUPPORT_PREFIX + changes[0].description;
      assert note[|SUPPORT_PREFIX|..] == changes[0].description;
      [note] + BuildSupportNotes(changes[1..])
  }

  function CustomerLine(c: ExtractedChange): string {
    if c.kind == Fixed then FIX_PREFIX + c.description
    else if c.kind == Security then SECURITY_NOTE
    else UPDATE_PREFIX + c.description
  }

  /** `build_customer_summary`: one line per change, in order: fixes as
      "Fix: d", security changes as a constant line without the description,
      everything else as "Update: d". */
  function BuildCustomerSummary(changes: seq<ExtractedChange>): (r: seq<string>)
    ensures |r| == |changes|
    ensures forall i :: 0 <= i < |r| && changes[i].kind == Fixed ==> r[i] == FIX_PREFIX + changes[i].description
    ensures forall i :: 0 <= i < |r| && changes[i].kind == Security ==> r[i] == SECURITY_NOTE
    ensures forall i :: 0 <= i < |r| && changes[i].kind != Fixed && changes[i].kind != Security ==>
      r[i] == UPDATE_PREFIX + changes[i].description
    decreases |changes|
  {
    if |changes| == 0 then [] else [CustomerLine(changes[0])] + BuildCustomerSummary(changes[1..])
  }

  /** A customer line reveals which kind of change it came from: it starts
      with "Fix: " exactly for fixes, and otherwise with "Update: " exactly for
      non-security changes. */
  lemma CustomerLineDecodes(c: ExtractedChange)
    ensures FIX_PREFIX <= CustomerLine(c) <==> c.kind == Fixed
    ensures UPDATE_PREFIX <= CustomerLine(c) <==> c.kind != Fixed && c.kind != Security
    ensures c.kind != Security ==> CustomerLine(c)[|CustomerLine(c)| - |c.description|..] == c.description
  {
    if c.kind != Fixed {
      assert CustomerLine(c)[0] != FIX_PREFIX[0];
    }
    if c.kind != Security && c.kind != Fixed {
      assert CustomerLine(c) == UPDATE_PREFIX + c.description;
    }
    if c.kind == Fixed || c.kind == Security {
      assert CustomerLine(c)[0] != UPDATE_PREFIX[0];
    }
  }

  // ---------------------------------------------------------------------------
  // translate

  /** Statements are never empty, so a statement leaves no description exactly
      when it is only a marker. */
  lemma StatementsDescribed(rawText: string)
    ensures (forall i :: 0 <= i < |Statements(rawText)| ==> !EmptyDescription(Statements(rawText)[i]))
        <==> (forall i :: 0 <= i < |Statements(rawText)| ==> !IsMarkerOnly(Statements(rawText)[i]))
  {
    StatementsShape(rawText);
  }

  /** The response `translate` builds from the extracted changes: risks come
      from the normalised full text, and each audience section is rendered
      only when that audience is requested. */
  function Render(req: TranslateRequest, extracted: seq<ExtractedChange>): (r: TranslateResponse)
    ensures r.extractedChanges == extracted
    ensures r.riskFlags == DetectRisks(Normalize(req.rawText))
    ensures r.impactLevel == ImpactFromRisks(r.riskFlags)
    ensures r.followUpQuestions == BuildFollowUpQuestions(r.riskFlags)
    ensures r.csSummary == (if Cs in req.audience then BuildCsSummary(extracted) else [])
    ensures r.supportNotes == (if Support in req.audience then BuildSupportNotes(extracted) else [])
    ensures r.customerSummary == (if Customer in req.audience then BuildCustomerSummary(extracted) else [])
    ensures r.aiEnhancement.None? && r.aiProvider.None? && !r.aiFallbackUsed
    ensures (forall i :: 0 <= i < |extracted| ==> ValidChange(extracted[i])) ==> ValidResponse(r)
  {
    var risks := DetectRisks(Normalize(req.rawText));
    TranslateResponse(
      if Cs in req.audience then BuildCsSummary(extracted) else [],
      if Support in req.audience then BuildSupportNotes(extracted) else [],
      if Customer in req.audience then BuildCustomerSummary(extracted) else [],
      risks,
      BuildFollowUpQuestions(risks),
      extracted,
      ImpactFromRisks(risks),
      None,
      None,
      false)
  }

  /** `translate`: segment, normalise each statement, extract the changes,
      scan the normalised full text for risks, and render the requested
      audiences. Fails when extraction fails. */
  function Translate(req: TranslateRequest): (r: Result<TranslateResponse, Errors>)
    ensures r.Success? <==> forall i :: 0 <= i < |Statements(req.rawText)| ==> !IsMarkerOnly(Statements(req.rawText)[i])
    ensures r.Success? ==> |r.value.extractedChanges| == |Statements(req.rawText)| && ValidResponse(r.value)
    ensures r.Success? ==> forall i :: 0 <= i < |Statements(req.rawText)| ==>
      r.value.extractedChanges[i] == Classify(Statements(req.rawText)[i], req.productArea)
    ensures r.Success? ==> (&& r.value.riskFlags == DetectRisks(Normalize(req.rawText))
                           && r.value.impactLevel == ImpactFromRisks(r.value.riskFlags)
                           && r.value.followUpQuestions == BuildFollowUpQuestions(r.value.riskFlags))
    ensures r.Success? ==> (Cs in req.audience ==> r.value.csSummary == BuildCsSummary(r.value.extractedChanges))
    ensures r.Success? ==> (Support in req.audience ==> r.value.supportNotes == BuildSupportNotes(r.value.extractedChanges))
    ensures r.Success? ==> (Customer in req.audience ==> r.value.customerSummary == BuildCustomerSummary(r.value.extractedChanges))
    ensures r.Success? ==> (Cs !in req.audience ==> r.value.csSummary == [])
    ensures r.Success? ==> (Support !in req.audience ==> r.value.supportNotes == [])
    ensures r.Success? ==> (Customer !in req.audience ==> r.value.customerSummary == [])
    ensures r.Success? ==> r.value.aiEnhancement.None? && r.value.aiProvider.None? && !r.value.aiFallbackUsed
    ensures r.Failure? ==> r.error == [TooShort("description")]
  {
    var lines := Statements(req.rawText);
    StatementsDescribed(req.rawText);
    var extracted := ExtractChanges(lines, req.productArea);
    if extracted.Failure? then Failure(extracted.error) else Success(Render(req, extracted.value))
  }

  // ---------------------------------------------------------------------------
  // Marker-only statements

  /** As written, a statement that is only a marker fails validation, and
      with it the whole extraction. */
  lemma MarkerOnlyStatementRejected()
    ensures IsMarkerOnly("Fixed") && IsMarkerOnly("Security:")
    ensures ExtractChanges(["Fixed"], None) == Failure([TooShort("description")])
    ensures ExtractChanges(["Added SSO", "Security:"], None).Failure?
  {
    assert CiPrefix("fixed", "Fixed");
    assert SeparatorShape("Fixed"[5..]);
    assert MARKERS[1] == "fixed";
    assert CiPrefix("security", "Security:");
    assert SeparatorShape("Security:"[8..]);
    assert MARKERS[4] == "security";
    assert EmptyDescription(["Added SSO", "Security:"][1]);
  }

  /** The description with the evidently intended fallback: the statement
      itself when stripping its marker would leave nothing. */
  function DescriptionOrStatement(line: string): (d: string)
    ensures d == [] <==> line == []
    ensures !EmptyDescription(line) ==> d == StripMarker(line)
    ensures EmptyDescription(line) ==> d == line
  {
    var d := StripMarker(line);
    if d == [] then line else d
  }

  /** The change of a statement under the fallback. */
  function ClassifyFixed(line: string, productArea: Option<string>): (c: ExtractedChange)
    ensures c.kind == DetectChangeType(line) && c.area == AreaFor(productArea, line)
    ensures ValidChange(c) <==> line != []
    ensures !EmptyDescription(line) ==> c == Classify(line, productArea)
  {
    ExtractedChange(DetectChangeType(line), AreaFor(productArea, line), DescriptionOrStatement(line))
  }

  function ClassifyAllFixed(lines: seq<string>, productArea: Option<string>): (cands: seq<ExtractedChange>)
    ensures |cands| == |lines|
    ensures forall i :: 0 <= i < |lines| ==> cands[i] == ClassifyFixed(lines[i], productArea)
    decreases |lines|
  {
    if |lines| == 0 then []
    else
      [ClassifyFixed(lines[0], productArea)] + ClassifyAllFixed(lines[1..], productArea)
  }

  /** Extraction with the fallback: fails only on an empty statement, which
      segmentation never produces. */
  function ExtractChangesFixed(lines: seq<string>, productArea: Option<string>): (r: Result<seq<ExtractedChange>, Errors>)
    ensures r.Success? <==> forall i :: 0 <= i < |lines| ==> lines[i] != []
    ensures r.Success? ==> |r.value| == |lines|
    ensures r.Success? ==> forall i :: 0 <= i < |lines| ==> r.value[i] == ClassifyFixed(lines[i], productArea) && ValidChange(r.value[i])
  {
    ValidateAll(ClassifyAllFixed(lines, productArea))
  }

  /** `translate` with the fallback: total, one valid change per statement. */
  function TranslateFixed(req: TranslateRequest): (r: TranslateResponse)
    ensures r == Render(req, r.extractedChanges)
    ensures |r.extractedChanges| == |Statements(req.rawText)| && ValidResponse(r)
    ensures forall i :: 0 <= i < |r.extractedChanges| ==>
      r.extractedChanges[i] == ClassifyFixed(Statements(req.rawText)[i], req.productArea)
  {
    StatementsShape(req.rawText);
    var extracted := ExtractChangesFixed(Statements(req.rawText), req.productArea);
    Render(req, extracted.value)
  }

  /** The fallback changes nothing where the code as written succeeds. */
  lemma TranslateFixedAgrees(req: TranslateRequest)
    requires Translate(req).Success?
    ensures Translate(req).value == TranslateFixed(req)
  {
    var lines := Statements(req.rawText);
    StatementsDescribed(req.rawText);
    var a := ExtractChanges(lines, req.productArea).value;
    var b := TranslateFixed(req).extractedChanges;
    assert a == b;
  }

  // ---------------------------------------------------------------------------
  // Risk properties

  /** Risks, impact and follow-up questions depend on the raw text alone, not
      on audience, tone, product area or persona. */
  lemma RisksDependOnlyOnRawText(a: TranslateRequest, b: TranslateRequest)
    requires a.rawText == b.rawText
    requires Translate(a).Success? && Translate(b).Success?
    ensures Translate(a).value.riskFlags == Translate(b).value.riskFlags
    ensures Translate(a).value.impactLevel == Translate(b).value.impactLevel
    ensures Translate(a).value.followUpQuestions == Translate(b).value.followUpQuestions
  {
  }

  /** A text with no risk keyword has no flags, low impact and no questions. */
  lemma NoRiskKeywordsMeansLow(text: string)
    requires forall i :: 0 <= i < |RISK_KEYWORDS| ==> !RowMatches(RISK_KEYWORDS[i], Lower(text))
    ensures DetectRisks(text) == []
    ensures ImpactFromRisks(DetectRisks(text)) == Low
    ensures BuildFollowUpQuestions(DetectRisks(text)) == []
  {
    NoRiskKeywordsNoFlags(text);
  }

  lemma NoRiskKeywordsNoFlags(text: string)
    requires forall i :: 0 <= i < |RISK_KEYWORDS| ==> !RowMatches(RISK_KEYWORDS[i], Lower(text))
    ensures DetectRisks(text) == []
  {
  }

  /** A high-tier keyword anywhere in the text makes the impact high. */
  lemma HighKeywordMeansHigh(text: string, i: nat, k: string)
    requires i < |RISK_KEYWORDS| && RISK_KEYWORDS[i].0 in HIGH_RISKS
    requires k in RISK_KEYWORDS[i].1 && Contains(Lower(text), k)
    ensures RISK_KEYWORDS[i].0 in DetectRisks(text)
    ensures ImpactFromRisks(DetectRisks(text)) == High
  {
    assert RowMatches(RISK_KEYWORDS[i], Lower(text));
  }
}
