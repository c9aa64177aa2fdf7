/** The slice of Python's `str` behaviour the service relies on: whitespace,
    `strip`, `split`, `lower`, the `in` substring test, and the
    `re.sub(r"\s+", " ", ...)` whitespace collapse. Strings are `seq<char>`. */
module Text {

  /** The characters for which CPython's `str.isspace()` holds; the same set
      is what the `re` module's `\s` matches in a `str` pattern. */
  const WS: set<char> := {
    '\t', '\n', '\U{B}', '\U{C}', '\r', '\U{1C}', '\U{1D}', '\U{1E}', '\U{1F}', ' ',
    '\U{85}', '\U{A0}', '\U{1680}',
    '\U{2000}', '\U{2001}', '\U{2002}', '\U{2003}', '\U{2004}', '\U{2005}',
    '\U{2006}', '\U{2007}', '\U{2008}', '\U{2009}', '\U{200A}',
    '\U{2028}', '\U{2029}', '\U{202F}', '\U{205F}', '\U{3000}'
  }

  predicate IsSpace(c: char) {
    c in WS
  }

  /** Printable ASCII characters other than the space are not whitespace. */
  lemma PrintableNotSpace(c: char)
    requires '!' <= c <= '~'
    ensures !IsSpace(c)
  {
  }

  predicate AllIn(s: string, cs: set<char>) {
    forall i :: 0 <= i < |s| ==> s[i] in cs
  }

  // ---------------------------------------------------------------------------
  // Case mapping (ASCII letters only)

  function LowerChar(c: char): (r: char)
    ensures IsSpace(r) <==> IsSpace(c)
    ensures r == ':' <==> c == ':'
    ensures r == ',' <==> c == ','
  {
    if 'A' <= c <= 'Z' then (c as int + 32) as char else c
  }

  function UpperChar(c: char): char {
    if 'a' <= c <= 'z' then (c as int - 32) as char else c
  }

  /** `s.lower()`: a character-by-character map, so it keeps length and
      keeps whitespace where it was. */
  function Lower(s: string): (r: string)
    ensures |r| == |s|
    ensures forall i :: 0 <= i < |s| ==> r[i] == LowerChar(s[i])
  {
    seq(|s|, i requires 0 <= i < |s| => LowerChar(s[i]))
  }

  /** `s.capitalize()`: first character upper case, the rest lower case. */
  function Capitalize(s: string): (r: string)
    ensures |r| == |s|
    ensures |s| > 0 ==> r[0] == UpperChar(s[0]) && r[1..] == Lower(s[1..])
  {
    if |s| == 0 then [] else [UpperChar(s[0])] + Lower(s[1..])
  }

  // ---------------------------------------------------------------------------
  // Substring test (Python `k in s`)

  function Contains(s: string, k: string): bool
    decreases |s|
  {
    k <= s || (|s| > 0 && Contains(s[1..], k))
  }

  /** `k` occurs in `s` starting at index `i`. */
  ghost predicate OccursAt(s: string, k: string, i: int) {
    0 <= i && i + |k| <= |s| && s[i..i + |k|] == k
  }

  /** `Contains` agrees with the positional reading of "k occurs in s". */
  lemma {:induction false} ContainsIff(s: string, k: string)
    ensures Contains(s, k) <==> exists i :: OccursAt(s, k, i)
    decreases |s|
  {
    if k <= s {
      assert OccursAt(s, k, 0);
    } else if |s| > 0 {
      ContainsIff(s[1..], k);
      if Contains(s[1..], k) {
        var i :| OccursAt(s[1..], k, i);
        OccursShift(s, k, i + 1);
      } else {
        forall i | OccursAt(s, k, i) && i > 0
          ensures OccursAt(s[1..], k, i - 1)
        {
          OccursShift(s, k, i);
        }
      }
    } else {
      assert forall i :: !OccursAt(s, k, i);
    }
  }

  /** An occurrence past the first character is an occurrence in the tail,
      one position earlier. */
  lemma OccursShift(s: string, k: string, i: int)
    requires |s| > 0 && i > 0
    ensures OccursAt(s, k, i) <==> OccursAt(s[1..], k, i - 1)
  {
    if 0 <= i - 1 && i - 1 + |k| <= |s[1..]| {
      assert s[1..][i - 1..i - 1 + |k|] == s[i..i + |k|];
    }
  }

  /** A piece of a string occurs in it. */
  lemma ContainsSlice(s: string, i: nat, j: nat)
    requires i <= j <= |s|
    ensures Contains(s, s[i..j])
  {
    ContainsIff(s, s[i..j]);
    assert OccursAt(s, s[i..j], i);
  }

  // ---------------------------------------------------------------------------
  // strip

  /** Number of leading characters of `s` that are in `cs`. */
  function LeadingCount(s: string, cs: set<char>): (n: nat)
    ensures n <= |s|
    ensures forall i :: 0 <= i < n ==> s[i] in cs
    ensures n < |s| ==> s[n] !in cs
    decreases |s|
  {
    if |s| > 0 && s[0] in cs then 1 + LeadingCount(s[1..], cs) else 0
  }

  /** Number of trailing characters of `s` that are in `cs`. */
  function TrailingCount(s: string, cs: set<char>): (n: nat)
    ensures n <= |s|
    ensures forall i :: |s| - n <= i < |s| ==> s[i] in cs
    ensures n < |s| ==> s[|s| - n - 1] !in cs
    decreases |s|
  {
    if |s| > 0 && s[|s| - 1] in cs then 1 + TrailingCount(s[..|s| - 1], cs) else 0
  }

  /** `s.lstrip(cs)` */
  function StripLeft(s: string, cs: set<char>): (r: string)
    ensures |r| <= |s| && r == s[|s| - |r|..]
    ensures |r| > 0 ==> r[0] !in cs
    ensures forall i :: 0 <= i < |s| - |r| ==> s[i] in cs
  {
    s[LeadingCount(s, cs)..]
  }

  /** `s.rstrip(cs)` */
  function StripRight(s: string, cs: set<char>): (r: string)
    ensures |r| <= |s| && r == s[..|r|]
    ensures |r| > 0 ==> r[|r| - 1] !in cs
    ensures forall i :: |r| <= i < |s| ==> s[i] in cs
  {
    s[..|s| - TrailingCount(s, cs)]
  }

  /** `s.strip(cs)`; `s.strip()` is `Strip(s, WS)`. The result is a slice
      `s[a..a + |r|]` that cut off only characters of `cs`. */
  function Strip(s: string, cs: set<char>): (r: string)
    ensures |r| <= |s|
    ensures |r| > 0 ==> r[0] !in cs && r[|r| - 1] !in cs
    ensures r == [] <==> AllIn(s, cs)
  {
    var left := StripLeft(s, cs);
    var r := StripRight(left, cs);
    StripLeftRight(s, cs, left, r);
    r
  }

  /** Stripping the left end and then the right end cuts a slice with only
      characters of `cs` on either side. */
  lemma StripLeftRight(s: string, cs: set<char>, left: string, r: string)
    requires left == StripLeft(s, cs) && r == StripRight(left, cs)
    ensures StrippedAt(s, cs, |s| - |left|, r)
  {
    var a := |s| - |left|;
    forall i | a + |r| <= i < |s| ensures s[i] in cs {
      assert s[i] == left[i - a];
    }
    assert r == left[..|r|] == s[a..a + |r|];
  }

  /** `r` is `s[a..a + |r|]` and everything outside that slice is in `cs`. */
  ghost predicate StrippedAt(s: string, cs: set<char>, a: int, r: string) {
    && 0 <= a && a + |r| <= |s|
    && r == s[a..a + |r|]
    && (forall i :: 0 <= i < a ==> s[i] in cs)
    && (forall i :: a + |r| <= i < |s| ==> s[i] in cs)
  }

  /** The offset at which `Strip` cut its slice. */
  lemma StripOffset(s: string, cs: set<char>) returns (a: nat)
    ensures StrippedAt(s, cs, a, Strip(s, cs))
  {
    var left := StripLeft(s, cs);
    a := |s| - |left|;
    StripLeftRight(s, cs, left, StripRight(left, cs));
  }

  /** A string that neither starts nor ends with a character of `cs` is left
      as it is by stripping; in particular stripping twice strips once. */
  lemma StripTrimmed(s: string, cs: set<char>)
    requires |s| > 0 ==> s[0] !in cs && s[|s| - 1] !in cs
    ensures Strip(s, cs) == s
  {
    assert LeadingCount(s, cs) == 0;
    assert StripLeft(s, cs) == s;
    assert TrailingCount(s, cs) == 0;
  }

  /** Stripping only removes characters: what is left was in the input. */
  lemma StripKeepsChars(s: string, cs: set<char>, k: nat)
    requires k < |Strip(s, cs)|
    ensures Strip(s, cs)[k] in s
  {
    var a := StripOffset(s, cs);
    assert Strip(s, cs)[k] == s[a + k];
  }

  /** If what is left after stripping `cs` lies in `ds`, the whole input lies
      in `cs + ds`. */
  lemma StripAllIn(s: string, cs: set<char>, ds: set<char>)
    requires AllIn(Strip(s, cs), ds)
    ensures AllIn(s, cs + ds)
  {
    var t := Strip(s, cs);
    var a := StripOffset(s, cs);
    forall k | 0 <= k < |s| ensures s[k] in cs + ds {
      if a <= k < a + |t| {
        assert s[k] == t[k - a];
      }
    }
  }

  // ---------------------------------------------------------------------------
  // split

  /** `s.split(c)` for a one-character separator: never empty, and no piece
      contains the separator. */
  function SplitOn(s: string, c: char): (parts: seq<string>)
    ensures |parts| >= 1
    ensures forall i, j :: 0 <= i < |parts| && 0 <= j < |parts[i]| ==> parts[i][j] != c
    decreases |s|
  {
    if |s| == 0 then [[]]
    else
      var rest := SplitOn(s[1..], c);
      if s[0] == c then [[]] + rest
      else
        var head := [s[0]] + rest[0];
        assert forall j :: 0 < j < |head| ==> head[j] == rest[0][j - 1];
        [head] + rest[1..]
  }

  /** `sep.join(parts)` for a one-character separator. */
  function Join(parts: seq<string>, c: char): string
    decreases |parts|
  {
    if |parts| == 0 then []
    else if |parts| == 1 then parts[0]
    else parts[0] + [c] + Join(parts[1..], c)
  }

  /** Joining the pieces of a split gives back the original string. */
  lemma {:induction false} JoinSplit(s: string, c: char)
    ensures Join(SplitOn(s, c), c) == s
    decreases |s|
  {
    if |s| > 0 {
      var rest := SplitOn(s[1..], c);
      JoinSplit(s[1..], c);
      if s[0] == c {
        assert SplitOn(s, c)[1..] == rest;
        assert s == [c] + s[1..];
      } else {
        var parts := SplitOn(s, c);
        if |rest| == 1 {
          assert parts == [[s[0]] + rest[0]];
        } else {
          assert parts[1..] == rest[1..];
          assert Join(rest, c) == rest[0] + [c] + Join(rest[1..], c);
        }
      }
    }
  }

  /** Splitting a join of separator-free pieces gives back the pieces. */
  lemma {:induction false} SplitJoin(parts: seq<string>, c: char)
    requires |parts| >= 1
    requires forall i :: 0 <= i < |parts| ==> c !in parts[i]
    ensures SplitOn(Join(parts, c), c) == parts
    decreases |parts|, |parts[0]|
  {
    if |parts[0]| > 0 {
      var tail := [parts[0][1..]] + parts[1..];
      assert Join(parts, c) == [parts[0][0]] + Join(tail, c) by {
        if |parts| > 1 {
          assert tail[1..] == parts[1..];
        }
      }
      assert Join(parts, c)[1..] == Join(tail, c);
      SplitJoin(tail, c);
      assert [parts[0][0]] + parts[0][1..] == parts[0];
    } else if |parts| > 1 {
      var s := Join(parts, c);
      assert s == [c] + Join(parts[1..], c);
      assert s[1..] == Join(parts[1..], c);
      SplitJoin(parts[1..], c);
    }
  }

  /** A string without the separator splits into itself alone. */
  lemma SplitOnAbsent(s: string, c: char)
    requires c !in s
    ensures SplitOn(s, c) == [s]
  {
    SplitJoin([s], c);
  }

  /** Every character of `s` other than the separator lies in some piece. */
  lemma {:induction false} SplitOnCovers(s: string, c: char, k: nat)
    requires k < |s| && s[k] != c
    ensures exists i, j :: 0 <= i < |SplitOn(s, c)| && 0 <= j < |SplitOn(s, c)[i]| && SplitOn(s, c)[i][j] == s[k]
    decreases |s|
  {
    var parts := SplitOn(s, c);
    var rest := SplitOn(s[1..], c);
    if k == 0 {
      assert parts[0][0] == s[0];
    } else {
      SplitOnCovers(s[1..], c, k - 1);
      var i, j :| 0 <= i < |rest| && 0 <= j < |rest[i]| && rest[i][j] == s[k];
      if s[0] == c {
        assert parts[i + 1] == rest[i];
      } else if i == 0 {
        assert parts[0][j + 1] == rest[0][j];
      } else {
        assert parts[i] == rest[i];
      }
    }
  }

  // ---------------------------------------------------------------------------
  // Whitespace normalisation: re.sub(r"\s+", " ", s.strip())

  /** No two adjacent whitespace characters. */
  predicate NoDoubleSpace(s: string) {
    forall i :: 0 <= i < |s| - 1 ==> !(IsSpace(s[i]) && IsSpace(s[i + 1]))
  }

  /** Every whitespace character is a plain space. */
  predicate OnlyPlainSpaces(s: string) {
    forall i :: 0 <= i < |s| ==> IsSpace(s[i]) ==> s[i] == ' '
  }

  /** The shape `normalize_text` produces: trimmed, single plain spaces. */
  predicate Canonical(s: string) {
    && (|s| > 0 ==> !IsSpace(s[0]) && !IsSpace(s[|s| - 1]))
    && NoDoubleSpace(s)
    && OnlyPlainSpaces(s)
  }

  /** `re.sub(r"\s+", " ", s)`: each maximal whitespace run becomes one space. */
  function Collapse(s: string): (r: string)
    ensures |r| <= |s|
    ensures |r| == 0 <==> |s| == 0
    ensures |r| > 0 ==> (IsSpace(r[0]) <==> IsSpace(s[0]))
    ensures |r| > 0 ==> (IsSpace(r[|r| - 1]) <==> IsSpace(s[|s| - 1]))
    ensures NoDoubleSpace(r) && OnlyPlainSpaces(r)
    decreases |s|
  {
    if |s| == 0 then []
    else if IsSpace(s[0]) then
      var rest := StripLeft(s[1..], WS);
      assert rest == [] ==> |s| == 1 || IsSpace(s[|s| - 1]);
      [' '] + Collapse(rest)
    else
      [s[0]] + Collapse(s[1..])
  }

  /** Between two texts that do not run into it, a whitespace run of any
      length and kind collapses to exactly one plain space, and each side
      collapses on its own. */
  lemma CollapseRun(a: string, w: string, b: string)
    requires |a| == 0 || !IsSpace(a[|a| - 1])
    requires |w| > 0 && AllIn(w, WS)
    requires |b| == 0 || !IsSpace(b[0])
    ensures Collapse(a + w + b) == Collapse(a) + " " + Collapse(b)
  {
    StripLeftRun(w, b, WS);
    assert (w + b)[0] == w[0];
    CollapseBefore(a, w + b, b);
    Assoc(a, w, b);
    Assoc(Collapse(a), " ", Collapse(b));
  }

  /** `CollapseRun` with the run and what follows it as one text `t`: `t`
      starts with whitespace and `b` is what `lstrip` leaves of it. */
  lemma {:induction false} CollapseBefore(a: string, t: string, b: string)
    requires |a| == 0 || !IsSpace(a[|a| - 1])
    requires |t| > 0 && IsSpace(t[0]) && b == StripLeft(t, WS)
    ensures Collapse(a + t) == Collapse(a) + ([' '] + Collapse(b))
    decreases |a|
  {
    if |a| == 0 {
      CollapseBeforeNil(a, t, b);
    } else if IsSpace(a[0]) {
      LastKept(a[1..], WS);
      CollapseBefore(StripLeft(a[1..], WS), t, b);
      CollapseBeforeSpace(a, t, [' '] + Collapse(b));
    } else {
      LastOfTail(a);
      CollapseBefore(a[1..], t, b);
      CollapseBeforePlain(a, t, [' '] + Collapse(b));
    }
  }

  lemma CollapseBeforeNil(a: string, t: string, b: string)
    requires |a| == 0 && |t| > 0 && IsSpace(t[0]) && b == StripLeft(t, WS)
    ensures Collapse(a + t) == Collapse(a) + ([' '] + Collapse(b))
  {
    assert a + t == t;
    StripLeftTail(t, WS);
  }

  /** `lstrip` keeps the last character when that is not stripped. */
  lemma LastKept(x: string, cs: set<char>)
    requires |x| > 0 && x[|x| - 1] !in cs
    ensures var r := StripLeft(x, cs); |r| > 0 && r[|r| - 1] == x[|x| - 1] && |r| <= |x|
  {
  }

  /** The tail of a text ends where the text ends. */
  lemma LastOfTail(a: string)
    requires |a| > 0
    ensures |a| > 1 ==> a[1..][|a[1..]| - 1] == a[|a| - 1]
  {
  }

  /** The step of `CollapseBefore` past a leading whitespace run of `a`. */
  lemma CollapseBeforeSpace(a: string, t: string, x: string)
    requires |a| > 1 && IsSpace(a[0]) && !IsSpace(a[|a| - 1])
    requires Collapse(StripLeft(a[1..], WS) + t) == Collapse(StripLeft(a[1..], WS)) + x
    ensures Collapse(a + t) == Collapse(a) + x
  {
    ConsTail(a, t);
    LastOfTail(a);
    StripLeftAppend(a[1..], t, WS);
    ConsAssoc(' ', Collapse(StripLeft(a[1..], WS)), x);
  }

  /** The step of `CollapseBefore` past a first character that is kept. */
  lemma CollapseBeforePlain(a: string, t: string, x: string)
    requires |a| > 0 && !IsSpace(a[0])
    requires Collapse(a[1..] + t) == Collapse(a[1..]) + x
    ensures Collapse(a + t) == Collapse(a) + x
  {
    ConsTail(a, t);
    ConsAssoc(a[0], Collapse(a[1..]), x);
  }

  /** `lstrip` past a first character it strips. */
  lemma StripLeftTail(t: string, cs: set<char>)
    requires |t| > 0 && t[0] in cs
    ensures StripLeft(t, cs) == StripLeft(t[1..], cs)
  {
  }

  lemma ConsTail(a: string, t: string)
    requires |a| > 0
    ensures (a + t)[0] == a[0] && (a + t)[1..] == a[1..] + t
  {
  }

  lemma ConsAssoc(c: char, p: string, x: string)
    ensures [c] + (p + x) == ([c] + p) + x
  {
  }

  lemma Assoc(x: string, y: string, z: string)
    ensures x + y + z == x + (y + z)
  {
  }

  /** `lstrip` of a text that holds a character it keeps stops inside it. */
  lemma {:induction false} StripLeftAppend(x: string, y: string, cs: set<char>)
    requires exists i :: 0 <= i < |x| && x[i] !in cs
    ensures StripLeft(x + y, cs) == StripLeft(x, cs) + y
    decreases |x|
  {
    if x[0] in cs {
      var i :| 0 <= i < |x| && x[i] !in cs;
      assert x[1..][i - 1] == x[i];
      assert (x + y)[0] == x[0] && (x + y)[1..] == x[1..] + y;
      StripLeftAppend(x[1..], y, cs);
      assert StripLeft(x, cs) == StripLeft(x[1..], cs);
    } else {
      assert (x + y)[0] == x[0];
    }
  }

  /** `normalize_text` keeps the words on either side of an inner whitespace
      run and puts exactly one plain space between them. */
  lemma NormalizeRun(a: string, w: string, b: string)
    requires |a| > 0 && !IsSpace(a[0]) && !IsSpace(a[|a| - 1])
    requires |w| > 0 && AllIn(w, WS)
    requires |b| > 0 && !IsSpace(b[0]) && !IsSpace(b[|b| - 1])
    ensures Normalize(a + w + b) == Normalize(a) + " " + Normalize(b)
  {
    StripTrimmedText(a);
    StripTrimmedText(b);
    var s := a + w + b;
    assert s[0] == a[0] && s[|s| - 1] == b[|b| - 1];
    StripTrimmedText(s);
    CollapseRun(a, w, b);
  }

  /** A text with no whitespace at either end is its own `strip()`. */
  lemma StripTrimmedText(s: string)
    requires |s| > 0 && !IsSpace(s[0]) && !IsSpace(s[|s| - 1])
    ensures Strip(s, WS) == s
  {
    assert LeadingCount(s, WS) == 0;
    assert TrailingCount(s, WS) == 0;
  }

  /** `normalize_text`: strip, then collapse every whitespace run to one space. */
  function Normalize(s: string): (r: string)
    ensures Canonical(r)
    ensures |r| <= |s|
    ensures r == [] <==> AllIn(s, WS)
  {
    Collapse(Strip(s, WS))
  }

  /** `Collapse` leaves a string that has no whitespace runs unchanged. */
  lemma {:induction false} CollapseFixed(s: string)
    requires NoDoubleSpace(s) && OnlyPlainSpaces(s)
    ensures Collapse(s) == s
    decreases |s|
  {
    if |s| > 0 {
      CollapsedTail(s);
      CollapseFixed(s[1..]);
      if IsSpace(s[0]) {
        StripLeftUnchanged(s[1..], WS);
      }
    }
  }

  /** The tail of a string without whitespace runs has none either, and a
      space is never followed by another. */
  lemma CollapsedTail(s: string)
    requires |s| > 0 && NoDoubleSpace(s) && OnlyPlainSpaces(s)
    ensures NoDoubleSpace(s[1..]) && OnlyPlainSpaces(s[1..])
    ensures IsSpace(s[0]) && |s| > 1 ==> !IsSpace(s[1..][0])
  {
  }

  /** A run of stripped characters in front of text that starts with none is
      exactly what `StripLeft` removes. */
  lemma StripLeftRun(w: string, b: string, cs: set<char>)
    requires AllIn(w, cs) && (|b| == 0 || b[0] !in cs)
    ensures StripLeft(w + b, cs) == b
  {
    LeadingRun(w, b, cs);
    assert (w + b)[|w|..] == b;
  }

  lemma {:induction false} LeadingRun(w: string, b: string, cs: set<char>)
    requires AllIn(w, cs) && (|b| == 0 || b[0] !in cs)
    ensures LeadingCount(w + b, cs) == |w|
    decreases |w|
  {
    if |w| == 0 {
      assert w + b == b;
    } else {
      assert (w + b)[0] == w[0] && (w + b)[1..] == w[1..] + b;
      assert w[0] in cs;
      LeadingRun(w[1..], b, cs);
    }
  }

  /** `lstrip` leaves a string that does not start with a stripped character. */
  lemma StripLeftUnchanged(s: string, cs: set<char>)
    requires |s| > 0 ==> s[0] !in cs
    ensures StripLeft(s, cs) == s
  {
  }

  /** Text already in `normalize_text` shape is left unchanged by it. */
  lemma NormalizeFixed(t: string)
    requires Canonical(t)
    ensures Normalize(t) == t
  {
    assert LeadingCount(t, WS) == 0;
    assert TrailingCount(t, WS) == 0;
    assert Strip(t, WS) == t;
    CollapseFixed(t);
  }

  /** `normalize_text` is idempotent. */
  lemma NormalizeIdempotent(s: string)
    ensures Normalize(Normalize(s)) == Normalize(s)
  {
    NormalizeFixed(Normalize(s));
  }

  /** The non-whitespace characters of `s`, in order. */
  function NonSpace(s: string): string
    decreases |s|
  {
    if |s| == 0 then [] else (if IsSpace(s[0]) then [] else [s[0]]) + NonSpace(s[1..])
  }

  lemma {:induction false} NonSpaceAppend(a: string, b: string)
    ensures NonSpace(a + b) == NonSpace(a) + NonSpace(b)
    decreases |a|
  {
    if |a| == 0 {
      assert a + b == b;
    } else {
      var ab := a + b;
      assert ab[0] == a[0];
      assert ab[1..] == a[1..] + b;
      NonSpaceAppend(a[1..], b);
      calc {
        NonSpace(ab);
        (if IsSpace(a[0]) then [] else [a[0]]) + NonSpace(a[1..] + b);
        (if IsSpace(a[0]) then [] else [a[0]]) + (NonSpace(a[1..]) + NonSpace(b));
        NonSpace(a) + NonSpace(b);
      }
    }
  }

  lemma {:induction false} NonSpaceOfSpaces(s: string)
    requires AllIn(s, WS)
    ensures NonSpace(s) == []
    decreases |s|
  {
    if |s| > 0 {
      NonSpaceOfSpaces(s[1..]);
    }
  }

  lemma {:induction false} CollapseKeepsText(s: string)
    ensures NonSpace(Collapse(s)) == NonSpace(s)
    decreases |s|
  {
    if |s| > 0 {
      if IsSpace(s[0]) {
        var n := LeadingCount(s[1..], WS);
        var rest := s[1..][n..];
        CollapseKeepsText(rest);
        assert s[1..] == s[1..][..n] + rest;
        NonSpaceAppend(s[1..][..n], rest);
        NonSpaceOfSpaces(s[1..][..n]);
        NonSpaceAppend([' '], Collapse(rest));
      } else {
        CollapseKeepsText(s[1..]);
        NonSpaceAppend([s[0]], Collapse(s[1..]));
      }
    }
  }

  /** `normalize_text` changes whitespace only: the other characters are
      kept, in order. */
  lemma NormalizeKeepsText(s: string)
    ensures NonSpace(Normalize(s)) == NonSpace(s)
  {
    var t := Strip(s, WS);
    var a := StripOffset(s, WS);
    StrippedParts(s, WS, a, t);
    NonSpaceAround(s[..a], t, s[a + |t|..]);
    CollapseKeepsText(t);
  }

  /** A stripped slice sits between two runs of stripped characters. */
  lemma StrippedParts(s: string, cs: set<char>, a: int, r: string)
    requires StrippedAt(s, cs, a, r)
    ensures s == s[..a] + r + s[a + |r|..]
    ensures AllIn(s[..a], cs) && AllIn(s[a + |r|..], cs)
  {
    var q := s[a + |r|..];
    forall i | 0 <= i < |q| ensures q[i] in cs {
      assert q[i] == s[a + |r| + i];
    }
  }

  /** Whitespace around a string adds nothing to its non-space characters. */
  lemma NonSpaceAround(p: string, t: string, q: string)
    requires AllIn(p, WS) && AllIn(q, WS)
    ensures NonSpace(p + t + q) == NonSpace(t)
  {
    NonSpaceAppend(p + t, q);
    NonSpaceAppend(p, t);
    NonSpaceOfSpaces(p);
    NonSpaceOfSpaces(q);
  }

  // ---------------------------------------------------------------------------
  // Words survive normalisation

  /** A string free of whitespace. */
  predicate Word(k: string) {
    forall c :: c in k ==> !IsSpace(c)
  }

  /** A string of printable ASCII characters other than the space is a word. */
  lemma PrintableWord(k: string)
    requires forall i :: 0 <= i < |k| ==> '!' <= k[i] <= '~'
    ensures Word(k)
  {
    forall c | c in k ensures !IsSpace(c) {
      var i :| 0 <= i < |k| && k[i] == c;
      PrintableNotSpace(c);
    }
  }

  /** Collapsing keeps a whitespace-free prefix in place. */
  lemma {:induction false} CollapseKeepsPrefix(s: string, k: string)
    requires k <= s && Word(k)
    ensures k <= Collapse(s)
    decreases |k|
  {
    if |k| > 0 {
      assert k[0] in k;
      assert k[1..] <= s[1..];
      assert Word(k[1..]) by {
        forall c | c in k[1..] ensures !IsSpace(c) {
          assert c in k;
        }
      }
      CollapseKeepsPrefix(s[1..], k[1..]);
    }
  }

  /** Collapsing keeps every occurrence of a whitespace-free string. */
  lemma {:induction false} CollapseKeepsWord(s: string, k: string, i: nat)
    requires OccursAt(s, k, i) && |k| > 0 && Word(k)
    ensures Contains(Collapse(s), k)
    decreases |s|
  {
    assert k[0] in k;
    if i == 0 {
      CollapseKeepsPrefix(s, k);
    } else if IsSpace(s[0]) {
      var rest := StripLeft(s[1..], WS);
      var j := SkipSpaceRun(s, k, i);
      CollapseKeepsWord(rest, k, j);
      ContainsCons(' ', Collapse(rest), k);
    } else {
      assert s[1..][i - 1..i - 1 + |k|] == s[i..i + |k|];
      CollapseKeepsWord(s[1..], k, i - 1);
      ContainsCons(s[0], Collapse(s[1..]), k);
    }
  }

  /** A word occurring after a leading whitespace run occurs in what follows the run. */
  lemma SkipSpaceRun(s: string, k: string, i: nat) returns (j: nat)
    requires OccursAt(s, k, i) && i > 0 && |k| > 0 && Word(k) && IsSpace(s[0])
    ensures OccursAt(StripLeft(s[1..], WS), k, j)
  {
    var rest := StripLeft(s[1..], WS);
    var n := |s| - 1 - |rest|;
    assert k[0] in k;
    assert s[i] == k[0];
    assert i - 1 >= n;
    j := i - 1 - n;
    assert rest[j..j + |k|] == s[i..i + |k|];
  }

  /** A character in front keeps every substring. */
  lemma ContainsCons(c: char, s: string, k: string)
    requires Contains(s, k)
    ensures Contains([c] + s, k)
  {
    assert ([c] + s)[1..] == s;
  }

  /** `normalize_text` keeps every whitespace-free piece of its input, so a
      keyword without spaces found in the raw text is found after it too. */
  lemma NormalizeKeepsWord(s: string, k: string)
    requires Contains(s, k) && |k| > 0 && Word(k)
    ensures Contains(Normalize(s), k)
  {
    ContainsIff(s, k);
    var i :| OccursAt(s, k, i);
    var j := StripKeepsWord(s, k, i);
    CollapseKeepsWord(Strip(s, WS), k, j);
  }

  /** Stripping whitespace keeps every occurrence of a whitespace-free string. */
  lemma StripKeepsWord(s: string, k: string, i: nat) returns (j: nat)
    requires OccursAt(s, k, i) && |k| > 0 && Word(k)
    ensures OccursAt(Strip(s, WS), k, j)
  {
    var t := Strip(s, WS);
    var a := StripOffset(s, WS);
    WordEnds(s, k, i);
    OccursInStripped(s, WS, a, t, k, i);
    j := i - a;
  }

  /** An occurrence that neither starts nor ends with a stripped character
      survives stripping, shifted by the offset of the cut. */
  lemma OccursInStripped(s: string, cs: set<char>, a: int, t: string, k: string, i: nat)
    requires StrippedAt(s, cs, a, t) && OccursAt(s, k, i) && |k| > 0
    requires s[i] !in cs && s[i + |k| - 1] !in cs
    ensures i >= a && OccursAt(t, k, i - a)
  {
    OffsetBounds(s, cs, a, t, i);
    OffsetBounds(s, cs, a, t, i + |k| - 1);
    OccursInSlice(s, k, i, a, t);
  }

  /** An occurrence inside a slice is an occurrence in the slice. */
  lemma OccursInSlice(s: string, k: string, i: int, a: int, t: string)
    requires OccursAt(s, k, i)
    requires 0 <= a <= i && i + |k| <= a + |t| <= |s| && t == s[a..a + |t|]
    ensures OccursAt(t, k, i - a)
  {
    var d := i - a;
    var u := t[d..d + |k|];
    forall m | 0 <= m < |k| ensures u[m] == k[m] {
      assert u[m] == t[d + m] == s[a..a + |t|][d + m] == s[i + m];
      assert k[m] == s[i..i + |k|][m];
    }
    assert u == k;
  }

  /** The first and last characters of an occurrence of a whitespace-free
      string are not whitespace. */
  lemma WordEnds(s: string, k: string, i: nat)
    requires OccursAt(s, k, i) && |k| > 0 && Word(k)
    ensures !IsSpace(s[i]) && !IsSpace(s[i + |k| - 1])
  {
    assert k[0] in k && k[|k| - 1] in k;
    assert s[i] == s[i..i + |k|][0] && s[i + |k| - 1] == s[i..i + |k|][|k| - 1];
  }

  /** A character outside `cs` lies inside the stripped slice. */
  lemma OffsetBounds(s: string, cs: set<char>, a: int, r: string, i: int)
    requires StrippedAt(s, cs, a, r) && 0 <= i < |s| && s[i] !in cs
    ensures a <= i < a + |r|
  {
  }

  /** Lower-casing keeps occurrences. */
  lemma LowerKeepsContains(s: string, k: string)
    requires Contains(s, k)
    ensures Contains(Lower(s), Lower(k))
  {
    ContainsIff(s, k);
    var i :| OccursAt(s, k, i);
    assert Lower(s)[i..i + |k|] == Lower(k) by {
      forall j | 0 <= j < |k| ensures Lower(s)[i..i + |k|][j] == Lower(k)[j] {
        assert s[i + j] == k[j];
      }
    }
    ContainsIff(Lower(s), Lower(k));
    assert OccursAt(Lower(s), Lower(k), i);
  }
}
