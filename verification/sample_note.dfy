/** The worked example of the translator's test suite: the note
    "Added OAuth token rotation. Breaking: old endpoint removed." in basic
    mode. Its two statements are computed exactly, so the code as written
    provably succeeds on it. */
module SampleNote {
  import opened Results
  import opened Text
  import opened Models
  import opened Translator

  const ADDED := "Added"
  const OAUTH := "OAuth"
  const TOKEN := "token"
  const ROTATION := "rotation"
  const BREAKING := "Breaking"
  const OLD := "old"
  const ENDPOINT := "endpoint"
  const REMOVED := "removed"

  /** "Added OAuth token rotation" */
  const FIRST := ADDED + " " + OAUTH + " " + TOKEN + " " + ROTATION
  /** "Breaking: old endpoint removed" */
  const SECOND := BREAKING + ":" + " " + OLD + " " + ENDPOINT + " " + REMOVED
  /** The whole note, assembled from words so that each fact about a piece
      stays small. */
  const SAMPLE := FIRST + ". " + SECOND + "."

  // ---------------------------------------------------------------------------
  // Sentence splitting at a known break

  /** Without full stops there is no break. */
  lemma NoDotNoBreak(s: string)
    requires |s| == 0 || '.' !in s[..|s| - 1]
    ensures NoBreak(s)
  {
    forall i | 0 <= i < |s| - 1 ensures !(s[i] == '.' && IsSpace(s[i + 1])) {
      assert s[i] == s[..|s| - 1][i];
    }
  }

  /** Stripping a set of characters that occurs once, at the very end. */
  lemma StripLast(s: string, cs: set<char>)
    requires |s| >= 2 && s[0] !in cs && s[|s| - 1] in cs && s[|s| - 2] !in cs
    ensures Strip(s, cs) == s[..|s| - 1]
  {
    assert LeadingCount(s, cs) == 0;
    assert StripLeft(s, cs) == s;
    assert TrailingCount(s[..|s| - 1], cs) == 0;
    assert TrailingCount(s, cs) == 1;
  }

  // ---------------------------------------------------------------------------
  // Facts about the pieces

  /** A non-empty word is in normalised form. */
  lemma WordCanonical(w: string)
    requires Word(w)
    ensures Canonical(w)
  {
    assert forall i :: 0 <= i < |w| ==> w[i] in w;
  }

  /** Two normalised texts joined by one space are in normalised form. */
  lemma CanonicalJoin(a: string, b: string)
    requires Canonical(a) && Canonical(b) && |a| > 0 && |b| > 0
    ensures Canonical(a + " " + b)
  {
    var s := a + " " + b;
    forall i | 0 <= i < |s| - 1 ensures !(IsSpace(s[i]) && IsSpace(s[i + 1])) {
      if i < |a| - 1 {
        assert s[i] == a[i] && s[i + 1] == a[i + 1];
      } else if i == |a| - 1 {
        assert s[i] == a[|a| - 1];
      } else if i == |a| {
        assert s[i + 1] == b[0];
      } else {
        assert s[i] == b[i - |a| - 1] && s[i + 1] == b[i - |a|];
      }
    }
    forall i | 0 <= i < |s| && IsSpace(s[i]) ensures s[i] == ' ' {
      if i < |a| {
        assert s[i] == a[i];
      } else if i > |a| {
        assert s[i] == b[i - |a| - 1];
      }
    }
    assert s[|s| - 1] == b[|b| - 1];
  }

  lemma FirstWords()
    ensures Word(ADDED) && Word(OAUTH) && Word(TOKEN) && Word(ROTATION)
  {
    PrintableWord(ADDED);
    PrintableWord(OAUTH);
    PrintableWord(TOKEN);
    PrintableWord(ROTATION);
  }

  lemma SecondWords()
    ensures Word(BREAKING + ":") && Word(OLD) && Word(ENDPOINT) && Word(REMOVED)
  {
    BreakingColonWord();
    PrintableWord(OLD);
    PrintableWord(ENDPOINT);
    PrintableWord(REMOVED);
  }

  lemma BreakingColonWord()
    ensures Word(BREAKING + ":")
  {
    PrintableWord(BREAKING + ":");
  }

  lemma FirstFacts()
    ensures |FIRST| > 6 && '.' !in FIRST && '\n' !in FIRST
    ensures Canonical(FIRST)
    ensures FIRST[0] == 'A' && FIRST[5] == ' ' && FIRST[6] == 'O'
  {
    FirstWords();
    WordCanonical(ADDED);
    WordCanonical(OAUTH);
    WordCanonical(TOKEN);
    WordCanonical(ROTATION);
    CanonicalJoin(ADDED, OAUTH);
    CanonicalJoin(ADDED + " " + OAUTH, TOKEN);
    CanonicalJoin(ADDED + " " + OAUTH + " " + TOKEN, ROTATION);
    assert FIRST == ADDED + (" " + OAUTH + " " + TOKEN + " " + ROTATION);
  }

  lemma SecondFacts()
    ensures |SECOND| > 9 && '.' !in SECOND && '\n' !in SECOND
    ensures Canonical(SECOND)
    ensures SECOND[0] == 'B' && SECOND[8] == ':'
  {
    SecondWords();
    WordCanonical(BREAKING + ":");
    WordCanonical(OLD);
    WordCanonical(ENDPOINT);
    WordCanonical(REMOVED);
    CanonicalJoin(BREAKING + ":", OLD);
    CanonicalJoin(BREAKING + ":" + " " + OLD, ENDPOINT);
    CanonicalJoin(BREAKING + ":" + " " + OLD + " " + ENDPOINT, REMOVED);
    assert SECOND == BREAKING + (":" + " " + OLD + " " + ENDPOINT + " " + REMOVED);
  }

  /** Two sentences without full stops or line breaks, with no whitespace
      at either end and written as "a. b.", are segmented into exactly those
      two statements. */
  lemma TwoSentencesSplit(a: string, b: string)
    requires |a| > 0 && |b| > 0
    requires !IsSpace(a[0]) && !IsSpace(a[|a| - 1]) && !IsSpace(b[0]) && !IsSpace(b[|b| - 1])
    requires '.' !in a && '.' !in b && '\n' !in a && '\n' !in b
    ensures SplitIntoLines(a + ". " + b + ".") == [a, b]
  {
    var text := a + ". " + b + ".";
    assert '\n' !in text by {
      assert text == a + (". " + (b + "."));
    }
    SplitOnAbsent(text, '\n');
    SentencesOfTwo(a, b);
    CleanBoth(a, b);
    assert SplitLines([text]) == CleanParts(SplitSentences(text)) + SplitLines([]) by {
      assert [text][1..] == [];
    }
  }

  /** The sentence split of "a. b." cuts only at the middle full stop. */
  lemma SentencesOfTwo(a: string, b: string)
    requires |b| > 0 && !IsSpace(b[0])
    requires '.' !in a && '.' !in b
    ensures SplitSentences(a + ". " + b + ".") == [a, b + "."]
  {
    var second := b + ".";
    assert a + ". " + b + "." == a + ". " + second;
    assert second[..|second| - 1] == b;
    NoDotNoBreak(a);
    NoDotNoBreak(second);
    assert a + ". " + second == a + "." + " " + second;
    SplitSentencesAtRun(a, " ", second);
    SplitSentencesWhole(second);
  }

  /** Cleaning the two pieces: the first is unchanged, the second loses its
      final full stop. */
  lemma CleanBoth(a: string, b: string)
    requires |a| > 0 && |b| > 0
    requires !IsSpace(a[0]) && !IsSpace(a[|a| - 1]) && !IsSpace(b[0]) && !IsSpace(b[|b| - 1])
    requires '.' !in a && '.' !in b
    ensures CleanParts([a, b + "."]) == [a, b]
  {
    var second := b + ".";
    assert second[..|second| - 1] == b;
    StripTrimmed(a, WS);
    StripTrimmed(a, DOT);
    StripTrimmed(second, WS);
    StripLast(second, DOT);
    assert Clean(a) == a && Clean(second) == b;
    assert [a, second][1..] == [second];
    assert [second][1..] == [];
    assert CleanParts([second]) == [b] + CleanParts([]);
  }

  /** After segmentation, normalising leaves normalised sentences unchanged. */
  lemma TwoSentences(a: string, b: string)
    requires Canonical(a) && Canonical(b) && |a| > 0 && |b| > 0
    requires '.' !in a && '.' !in b && '\n' !in a && '\n' !in b
    ensures Statements(a + ". " + b + ".") == [a, b]
  {
    TwoSentencesSplit(a, b);
    NormalizeBoth(a, b);
  }

  /** Normalising two normalised statements leaves them unchanged. */
  lemma NormalizeBoth(a: string, b: string)
    requires Canonical(a) && Canonical(b)
    ensures NormalizeAll([a, b]) == [a, b]
  {
    NormalizeFixed(a);
    NormalizeFixed(b);
  }

  /** The note's statements are exactly its two sentences, without the final
      full stop. */
  lemma SampleStatements()
    ensures Statements(SAMPLE) == [FIRST, SECOND]
  {
    FirstFacts();
    SecondFacts();
    TwoSentences(FIRST, SECOND);
  }

  /** Each character of a case-insensitive prefix is the lowered character of the line. */
  lemma CiPrefixAt(m: string, line: string, k: nat)
    requires CiPrefix(m, line) && k < |m|
    ensures m[k] == LowerChar(line[k])
  {
    assert Lower(line[..|m|])[k] == LowerChar(line[..|m|][k]);
  }

  /** The markers starting with "a" and "b" are "added" and "breaking change". */
  lemma OneMarkerPerLetter(m: string)
    requires m in MARKERS
    ensures m[0] == 'a' ==> m == MARKERS[0]
    ensures m[0] == 'b' ==> m == MARKERS[5] && m[8] == ' '
  {
  }

  /** A line that starts with the marker "added" (any case) and has a
      character other than whitespace or a colon right after the following
      character is not a marker alone. */
  lemma AddedThenWord(line: string)
    requires |line| > 6 && LowerChar(line[0]) == 'a'
    requires !IsSpace(line[6]) && line[6] != ':'
    ensures !IsMarkerOnly(line)
  {
    if IsMarkerOnly(line) {
      var m :| m in MARKERS && CiPrefix(m, line) && SeparatorShape(line[|m|..]);
      AddedFirst(line, m);
      SeparatorSecond(line[|m|..]);
    }
  }

  /** The only marker that can start a line beginning with "a" is "added". */
  lemma AddedFirst(line: string, m: string)
    requires m in MARKERS && CiPrefix(m, line) && |line| > 0 && LowerChar(line[0]) == 'a'
    ensures |m| == 5
  {
    CiPrefixAt(m, line, 0);
    OneMarkerPerLetter(m);
  }

  /** A line whose first letter is "b" (any case) and whose ninth character is
      a colon is not started by any marker, since the only marker with that
      first letter, "breaking change", has a space there. */
  lemma BreakingColon(line: string)
    requires |line| > 8 && LowerChar(line[0]) == 'b' && line[8] == ':'
    ensures !IsMarkerOnly(line)
  {
    forall j | 0 <= j < |MARKERS| ensures !CiPrefix(MARKERS[j], line) {
      BreakingColonMarker(line, j);
    }
  }

  /** No single marker starts such a line. */
  lemma BreakingColonMarker(line: string, j: nat)
    requires |line| > 8 && LowerChar(line[0]) == 'b' && line[8] == ':'
    requires j < |MARKERS|
    ensures !CiPrefix(MARKERS[j], line)
  {
    if CiPrefix(MARKERS[j], line) {
      if j == 5 {
        CiPrefixAt(MARKERS[j], line, 8);
      } else {
        CiPrefixAt(MARKERS[j], line, 0);
      }
    }
  }

  /** Neither statement of the note is a marker alone. */
  lemma SampleNotMarkerOnly()
    ensures !IsMarkerOnly(FIRST) && !IsMarkerOnly(SECOND)
  {
    FirstFacts();
    SecondFacts();
    AddedThenWord(FIRST);
    BreakingColon(SECOND);
  }

  // ---------------------------------------------------------------------------
  // Risks

  /** "OAuth" is a word whose lower-case form is an authentication keyword. */
  lemma OAuthKeyword()
    ensures |OAUTH| > 0 && Word(OAUTH) && Lower(OAUTH) == "oauth" && "oauth" in RISK_KEYWORDS[1].1
  {
    PrintableWord(OAUTH);
  }

  /** "Breaking" is a word whose lower-case form is a breaking-change keyword. */
  lemma BreakingKeyword()
    ensures |BREAKING| > 0 && Word(BREAKING) && Lower(BREAKING) == "breaking" && "breaking" in RISK_KEYWORDS[0].1
  {
    PrintableWord(BREAKING);
  }

  /** Any text that mentions "Breaking" and "OAuth", whatever the whitespace
      around them, is flagged as a breaking change and as an authentication
      change once normalised, and rated high. */
  lemma BreakingOAuthRisks(t: string)
    requires Contains(t, BREAKING) && Contains(t, OAUTH)
    ensures "breaking change" in DetectRisks(Normalize(t))
    ensures "authentication impact" in DetectRisks(Normalize(t))
    ensures ImpactFromRisks(DetectRisks(Normalize(t))) == High
  {
    var norm := Normalize(t);
    OAuthKeyword();
    BreakingKeyword();
    NormalizeKeepsWord(t, OAUTH);
    LowerKeepsContains(norm, OAUTH);
    assert RowMatches(RISK_KEYWORDS[1], Lower(norm));
    NormalizeKeepsWord(t, BREAKING);
    LowerKeepsContains(norm, BREAKING);
    HighKeywordMeansHigh(norm, 0, "breaking");
  }

  /** Where the two keywords sit in the note. */
  lemma SampleMentions()
    ensures Contains(SAMPLE, BREAKING) && Contains(SAMPLE, OAUTH)
  {
    assert SAMPLE == (ADDED + " ") + OAUTH + (" " + TOKEN + " " + ROTATION + ". " + SECOND + ".");
    ContainsMiddle(ADDED + " ", OAUTH, " " + TOKEN + " " + ROTATION + ". " + SECOND + ".");
    assert SAMPLE == (FIRST + ". ") + BREAKING + (":" + " " + OLD + " " + ENDPOINT + " " + REMOVED + ".");
    ContainsMiddle(FIRST + ". ", BREAKING, ":" + " " + OLD + " " + ENDPOINT + " " + REMOVED + ".");
  }

  /** A string contains every piece it is assembled from. */
  lemma ContainsMiddle(p: string, k: string, q: string)
    ensures Contains(p + k + q, k)
  {
    var s := p + k + q;
    assert s[|p|..|p| + |k|] == k;
    ContainsSlice(s, |p|, |p| + |k|);
  }

  /** The note translates: two changes, flagged as a breaking change and as
      an authentication change, rated high, with the notice and custom-auth
      follow-up questions. */
  lemma SampleTranslates(req: TranslateRequest)
    requires req.rawText == SAMPLE
    ensures Translate(req).Success?
    ensures |Translate(req).value.extractedChanges| == 2
    ensures "breaking change" in Translate(req).value.riskFlags
    ensures "authentication impact" in Translate(req).value.riskFlags
    ensures Translate(req).value.impactLevel == High
    ensures Q_NOTICE in Translate(req).value.followUpQuestions && Q_AUTH in Translate(req).value.followUpQuestions
  {
    SampleStatements();
    SampleNotMarkerOnly();
    TwoPlainStatements(req, FIRST, SECOND);
    SampleMentions();
    BreakingOAuthTranslation(req);
  }

  /** A note of two statements, neither of them a marker alone, translates
      into two changes. */
  lemma TwoPlainStatements(req: TranslateRequest, a: string, b: string)
    requires Statements(req.rawText) == [a, b]
    requires !IsMarkerOnly(a) && !IsMarkerOnly(b)
    ensures Translate(req).Success?
    ensures |Translate(req).value.extractedChanges| == 2
  {
    PairPlain(Statements(req.rawText), a, b);
  }

  lemma PairPlain(st: seq<string>, a: string, b: string)
    requires st == [a, b] && !IsMarkerOnly(a) && !IsMarkerOnly(b)
    ensures forall i :: 0 <= i < |st| ==> !IsMarkerOnly(st[i])
  {
    forall i | 0 <= i < |st| ensures !IsMarkerOnly(st[i]) {
      assert st[i] == if i == 0 then a else b;
    }
  }

  /** A translated note that mentions a breaking change and OAuth is rated
      high and asks the notice and custom-auth questions. */
  lemma BreakingOAuthTranslation(req: TranslateRequest)
    requires Translate(req).Success?
    requires Contains(req.rawText, BREAKING) && Contains(req.rawText, OAUTH)
    ensures "breaking change" in Translate(req).value.riskFlags
    ensures "authentication impact" in Translate(req).value.riskFlags
    ensures Translate(req).value.impactLevel == High
    ensures Q_NOTICE in Translate(req).value.followUpQuestions && Q_AUTH in Translate(req).value.followUpQuestions
  {
    BreakingOAuthRisks(req.rawText);
  }
}
