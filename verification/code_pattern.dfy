/**
 The monitor's `CODE_REGEX`, `\bcode:\s*([a-zA-Z0-9\-_]+)\b` compiled with
 `re.IGNORECASE`, and the `search` that applies it to a message.

 `ValidMatch` says declaratively when the pattern matches starting at `p`
 with group 1 spanning `[from, to)`. `Find` is a scanner that mirrors the
 regex engine's search: leftmost start first, then greedy `\s*`, then the
 longest run of code characters, backed off until a word boundary follows.
 Its contract ties the scanner to the declarative match in both directions.

 Character classes agree with Python's for code points below 128; every
 other character is treated as neither a word, a space nor a code character.
 */
module CodePattern {
  import opened Wrappers

  /** `\w`: ASCII letters, digits and underscore. */
  predicate IsWordChar(ch: char) {
    ('a' <= ch <= 'z') || ('A' <= ch <= 'Z') || ('0' <= ch <= '9') || ch == '_'
  }

  /** `[a-zA-Z0-9\-_]` (the same set under `re.IGNORECASE`, for ASCII). */
  predicate IsCodeChar(ch: char) {
    IsWordChar(ch) || ch == '-'
  }

  /** `\s`: the characters below 128 for which Python's `str.isspace` holds. */
  predicate IsSpace(ch: char) {
    ('\t' <= ch <= '\r') || ('\U{1C}' <= ch <= '\U{1F}') || ch == ' '
  }

  /** `\b` at position `k`: exactly one of the neighbouring characters is a word character. */
  predicate AtBoundary(s: string, k: nat)
    requires k <= |s|
  {
    (k > 0 && IsWordChar(s[k - 1])) != (k < |s| && IsWordChar(s[k]))
  }

  /** The literal `code:` at `p`, letters compared without regard to case. */
  predicate KeywordAt(s: string, p: nat) {
    && p + 5 <= |s|
    && s[p] in "cC" && s[p + 1] in "oO" && s[p + 2] in "dD" && s[p + 3] in "eE"
    && s[p + 4] == ':'
  }

  predicate AllSpace(s: string, i: nat, j: nat)
    requires i <= j <= |s|
  {
    forall m :: i <= m < j ==> IsSpace(s[m])
  }

  predicate AllCode(s: string, i: nat, j: nat)
    requires i <= j <= |s|
  {
    forall m :: i <= m < j ==> IsCodeChar(s[m])
  }

  /**
   The whole pattern matches `s` from `p`, `\s*` ends at `from` and group 1
   is `s[from..to]`.
   */
  predicate ValidMatch(s: string, p: nat, from: nat, to: nat) {
    && p + 5 <= from < to <= |s|
    && AtBoundary(s, p)
    && KeywordAt(s, p)
    && AllSpace(s, p + 5, from)
    && AllCode(s, from, to)
    && AtBoundary(s, to)
  }

  /** No way to match the pattern starting at `p`. */
  ghost predicate NoMatchAt(s: string, p: nat) {
    forall from: nat, to: nat :: !ValidMatch(s, p, from, to)
  }

  /**
   The match the regex engine reports when it starts at `p`: greedy `\s*`
   and greedy `+` are tried longest first, so among the matches from `p` it
   takes the latest `from` and, for that, the latest `to`.
   */
  ghost predicate PreferredAt(s: string, p: nat, from: nat, to: nat) {
    && ValidMatch(s, p, from, to)
    && forall from': nat, to': nat :: ValidMatch(s, p, from', to') ==> from' < from || (from' == from && to' <= to)
  }

  /** What `CODE_REGEX.search(s)` returns: the preferred match at the leftmost start. */
  ghost predicate FirstMatch(s: string, p: nat, from: nat, to: nat) {
    && PreferredAt(s, p, from, to)
    && forall p': nat :: p' < p ==> NoMatchAt(s, p')
  }

  /** A match: where the pattern starts and where group 1 lies. */
  datatype Match = Match(start: nat, from: nat, to: nat)

  /** The end of the whitespace run starting at `i`. */
  function SkipSpace(s: string, i: nat): (j: nat)
    requires i <= |s|
    ensures i <= j <= |s|
    ensures AllSpace(s, i, j)
    ensures j == |s| || !IsSpace(s[j])
    decreases |s| - i
  {
    if i < |s| && IsSpace(s[i]) then SkipSpace(s, i + 1) else i
  }

  /** The end of the run of code characters starting at `i`. */
  function CodeRunEnd(s: string, i: nat): (j: nat)
    requires i <= |s|
    ensures i <= j <= |s|
    ensures AllCode(s, i, j)
    ensures j == |s| || !IsCodeChar(s[j])
    decreases |s| - i
  {
    if i < |s| && IsCodeChar(s[i]) then CodeRunEnd(s, i + 1) else i
  }

  /** Backtracking of the greedy run: the last boundary in `(from, end]`. */
  function LastBoundary(s: string, from: nat, end: nat): (r: Option<nat>)
    requires from <= end <= |s|
    ensures r.Some? ==> from < r.value <= end && AtBoundary(s, r.value)
    ensures r.Some? ==> forall k :: r.value < k <= end ==> !AtBoundary(s, k)
    ensures r.None? ==> forall k :: from < k <= end ==> !AtBoundary(s, k)
    decreases end - from
  {
    if end <= from then None
    else if AtBoundary(s, end) then Some(end)
    else LastBoundary(s, from, end - 1)
  }

  /** No character is both whitespace and a code character. */
  lemma SpaceIsNotCode(ch: char)
    ensures !(IsSpace(ch) && IsCodeChar(ch))
  {
  }

  /**
   Any match from `p` has its group start where the whitespace after `code:`
   ends, and its group end inside the run of code characters from there.
   */
  lemma MatchShape(s: string, p: nat, from: nat, to: nat)
    requires ValidMatch(s, p, from, to)
    ensures from == SkipSpace(s, p + 5)
    ensures to <= CodeRunEnd(s, from)
  {
    var q := SkipSpace(s, p + 5);
    if from < q {
      SpaceIsNotCode(s[from]);
    }
  }

  /** The regex engine's attempt at one start position `p`. */
  function MatchAt(s: string, p: nat): (r: Option<Match>)
    requires p <= |s|
    ensures r.Some? ==> r.value.start == p && PreferredAt(s, p, r.value.from, r.value.to)
    ensures r.None? ==> NoMatchAt(s, p)
  {
    if !(KeywordAt(s, p) && AtBoundary(s, p)) then None
    else
      var from := SkipSpace(s, p + 5);
      var end := CodeRunEnd(s, from);
      match LastBoundary(s, from, end)
      case None =>
        assert forall from': nat, to': nat :: ValidMatch(s, p, from', to') ==> false by {
          forall from': nat, to': nat | ValidMatch(s, p, from', to') ensures false {
            MatchShape(s, p, from', to');
          }
        }
        None
      case Some(to) =>
        assert forall from': nat, to': nat :: ValidMatch(s, p, from', to') ==> from' == from && to' <= to by {
          forall from': nat, to': nat | ValidMatch(s, p, from', to') ensures from' == from && to' <= to {
            MatchShape(s, p, from', to');
          }
        }
        Some(Match(p, from, to))
  }

  /** `search` from position `p` on: the first start at which the pattern matches. */
  function Find(s: string, p: nat): (r: Option<Match>)
    requires p <= |s|
    ensures r.Some? ==> p <= r.value.start && PreferredAt(s, r.value.start, r.value.from, r.value.to)
    ensures r.Some? ==> forall p': nat :: p <= p' < r.value.start ==> NoMatchAt(s, p')
    ensures r.None? ==> forall p': nat :: p <= p' ==> NoMatchAt(s, p')
    decreases |s| - p
  {
    match MatchAt(s, p)
    case Some(m) => Some(m)
    case None =>
      if p == |s| then
        assert forall p': nat :: p < p' ==> NoMatchAt(s, p');
        None
      else Find(s, p + 1)
  }

  /**
   `if not message_text: return` followed by `CODE_REGEX.search(message_text)`
   and `match.group(1)`: the code a message carries, if any.
   */
  function ExtractCode(text: string): (r: Option<string>)
    ensures |text| == 0 ==> r.None?
    ensures r.None? <==> forall p: nat :: NoMatchAt(text, p)
    ensures r.Some? ==> exists p: nat, from: nat, to: nat :: FirstMatch(text, p, from, to) && r.value == text[from..to]
    ensures r.Some? ==> |r.value| > 0 && forall i :: 0 <= i < |r.value| ==> IsCodeChar(r.value[i])
  {
    if |text| == 0 then None
    else
      match Find(text, 0)
      case None => None
      case Some(m) =>
        assert FirstMatch(text, m.start, m.from, m.to);
        assert !NoMatchAt(text, m.start);
        Some(text[m.from..m.to])
  }

  /**
   The converse of `ExtractCode`'s contract: whatever the declarative first
   match is, that is the code extracted, so the two definitions agree.
   */
  lemma ExtractAgreesWithFirstMatch(text: string, p: nat, from: nat, to: nat)
    requires FirstMatch(text, p, from, to)
    ensures ExtractCode(text) == Some(text[from..to])
  {
    assert !NoMatchAt(text, p);
    var r := ExtractCode(text);
    var p': nat, from': nat, to': nat :| FirstMatch(text, p', from', to') && r.value == text[from'..to'];
    FirstMatchUnique(text, p, from, to, p', from', to');
  }

  /** The search has at most one result. */
  lemma FirstMatchUnique(text: string, p: nat, from: nat, to: nat, p': nat, from': nat, to': nat)
    requires FirstMatch(text, p, from, to) && FirstMatch(text, p', from', to')
    ensures p == p' && from == from' && to == to'
  {
    MatchBoundsFirstStart(text, p, from, to, p', from', to');
    MatchBoundsFirstStart(text, p', from', to', p, from, to);
  }

  /** No match can start before the start of the first match. */
  lemma MatchBoundsFirstStart(text: string, p: nat, from: nat, to: nat, p': nat, from': nat, to': nat)
    requires ValidMatch(text, p, from, to) && FirstMatch(text, p', from', to')
    ensures p' <= p
  {
    assert !NoMatchAt(text, p);
  }

  // The example lemmas below take their text as a parameter pinned by
  // `requires` rather than as a literal, so that the verifier does not unfold
  // `ExtractCode` and `Find` eagerly on a literal argument.

  /** `promocode: X` carries no code: there is no word boundary before `code:`. */
  lemma PromocodeHasNoCode(s: string)
    requires s == "promocode: X"
    ensures ExtractCode(s) == None
  {
    forall p: nat ensures NoMatchAt(s, p) {
      if p == 5 {
        assert !AtBoundary(s, 5);
      } else {
        assert !KeywordAt(s, p);
      }
    }
  }

  /**
   `code: abc-` at the end of a message yields `abc`: the greedy run `abc-`
   ends at no word boundary, so the match backs off by one character.
   */
  lemma TrailingDashIsDropped(s: string)
    requires s == "code: abc-"
    ensures ExtractCode(s) == Some("abc")
  {
    forall from': nat, to': nat | ValidMatch(s, 0, from', to') ensures from' == 6 && to' <= 9 {
      MatchShape(s, 0, from', to');
      assert !AtBoundary(s, 10);
    }
    assert ValidMatch(s, 0, 6, 9);
    ExtractAgreesWithFirstMatch(s, 0, 6, 9);
    assert s[6..9] == "abc";
  }

  /** Only the first match counts: a later `code:` in the same message is ignored. */
  lemma OnlyFirstMatchCounts(s: string)
    requires s == "Code:\tXyZ_9 code: b"
    ensures ExtractCode(s) == Some("XyZ_9")
  {
    TwoCodesPreferred(s);
    ExtractAgreesWithFirstMatch(s, 0, 6, 11);
  }

  lemma TwoCodesPreferred(s: string)
    requires s == "Code:\tXyZ_9 code: b"
    ensures FirstMatch(s, 0, 6, 11) && s[6..11] == "XyZ_9"
  {
    assert AllCode(s, 6, 11);
    forall from': nat, to': nat | ValidMatch(s, 0, from', to') ensures from' == 6 && to' <= 11 {
      MatchShape(s, 0, from', to');
      assert SkipSpace(s, 5) == 6;
      assert CodeRunEnd(s, 6) == 11;
    }
  }
}
