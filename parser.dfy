/** The HTML and URL scanner of src/surffs_parser.c.

    Every scanning routine is a method with the source's loops, proved equal to a
    specification function; the lemmas state what those functions mean. Positions are
    indices into the scanned text; a C `char *` result of 0 is `None` / `NoMatch`. */
module Parser {
  import opened Base
  import opened CString
  import opened Helpers
  import opened WebTypes

  /** `enum EXTRACT_PARAMS_POLICY`: how a URL without any '/' is read. */
  datatype ExtractPolicy = PreferPath | PreferHost

  const HREF_PATTERNS: seq<String> := ["href", "="]
  const END_A_TAG_PATTERNS: seq<String> := ["<", "/a", ">"]
  const HREF_TRIM_CHARS: String := " \"'"
  const PROTOCOL_SEP: String := "://"
  /** The character 0x01, which stops the backward loop of `trim`. */
  const CHAR_01: char := 1 as char
  /** The backspace character (code 8) that `normalize_title` marks deleted characters with. */
  const MARKER: char := 8 as char

  function OpenTagPatterns(tag: String): seq<String> { ["<", tag] }
  function CloseTagPatterns(tag: String): seq<String> { ["<", "/", tag, ">"] }

  // ---------------------------------------------------------------------------------
  // Character classes

  predicate IsSpace(c: char)
  {
    c == ' ' || c == '\n' || c == '\r' || c == '\t'
  }

  predicate AllSpace(s: String)
  {
    forall k :: 0 <= k < |s| ==> IsSpace(s[k])
  }

  /** `is_anyof`: membership in a NUL-terminated set of characters. */
  predicate IsAnyOf(c: char, chars: String)
  {
    c in chars
  }

  /** `is_illegal_title_char`: `char` is signed on the kernel's x86 targets, so bytes
      0x80..0xFF compare below 0x20 as well as the control characters. */
  predicate IsIllegalTitleChar(c: char)
  {
    (c as int) < 0x20 || (c as int) >= 0x80 || c == '/'
  }

  // ---------------------------------------------------------------------------------
  // find_anyof

  /** The first position at or after `from` holding one of `chars`. */
  function FirstAnyOf(s: String, chars: String, from: nat): (r: Option<nat>)
    requires from <= |s|
    ensures r.Some? ==> from <= r.value < |s| && s[r.value] in chars
    ensures r.Some? ==> forall k :: from <= k < r.value ==> s[k] !in chars
    ensures r.None? ==> forall k :: from <= k < |s| ==> s[k] !in chars
    decreases |s| - from
  {
    if from == |s| then None
    else if s[from] in chars then Some(from)
    else FirstAnyOf(s, chars, from + 1)
  }

  /** `find_anyof(str + from, chars)`. */
  method FindAnyOf(s: String, chars: String, from: nat) returns (r: Option<nat>)
    requires from <= |s|
    ensures r == FirstAnyOf(s, chars, from)
  {
    var i := from;
    while i < |s|
      invariant from <= i <= |s|
      invariant FirstAnyOf(s, chars, i) == FirstAnyOf(s, chars, from)
    {
      if IsAnyOf(s[i], chars) {
        return Some(i);
      }
      i := i + 1;
    }
    return None;
  }

  // ---------------------------------------------------------------------------------
  // find_spaced_patterns: tokens separated by optional whitespace

  /** The first position at or after `i` that is not whitespace. */
  function SkipSpaces(s: String, i: nat): (j: nat)
    requires i <= |s|
    ensures i <= j <= |s|
    ensures forall k :: i <= k < j ==> IsSpace(s[k])
    ensures j < |s| ==> !IsSpace(s[j])
    decreases |s| - i
  {
    if i < |s| && IsSpace(s[i]) then SkipSpaces(s, i + 1) else i
  }

  datatype TailMatch = Matched(end: nat) | Stopped(at: nat)

  /** The inner loop from pattern `p` on: each pattern in turn, after skipping whitespace.
      On a mismatch the scan stops where the mismatching pattern was compared. */
  function MatchTail(s: String, i: nat, pats: seq<String>, p: nat): (r: TailMatch)
    requires i <= |s| && p <= |pats|
    ensures r.Matched? ==> i <= r.end <= |s|
    ensures r.Stopped? ==> i <= r.at <= |s|
    decreases |pats| - p
  {
    if p == |pats| then Matched(i)
    else
      var j := SkipSpaces(s, i);
      if OccursAt(s, pats[p], j) then MatchTail(s, j + |pats[p]|, pats, p + 1) else Stopped(j)
  }

  datatype SpacedMatch = NoMatch | Found(start: nat, end: nat)

  /** What one attempt of `find_spaced_patterns` at a position ends with. */
  datatype Attempt = Miss | Hit(start: nat, end: nat) | Retry(at: nat)

  /** One attempt: `strstr` for the first pattern, then the remaining patterns after it.
      No first pattern means no match; a mismatch of the others sends the search on
      from where the mismatch was found. */
  function AttemptAt(s: String, from: nat, pats: seq<String>): (a: Attempt)
    requires from <= |s| && |pats| >= 1
    ensures a.Hit? ==> from <= a.start && a.start + |pats[0]| <= a.end <= |s| && OccursAt(s, pats[0], a.start)
    ensures a.Hit? ==> MatchTail(s, a.start + |pats[0]|, pats, 1) == Matched(a.end)
    ensures a.Retry? ==> from + |pats[0]| <= a.at <= |s|
  {
    match IndexOf(s, pats[0], from)
    case None => Miss
    case Some(k) =>
      match MatchTail(s, k + |pats[0]|, pats, 1)
      case Matched(e) => Hit(k, e)
      case Stopped(q) => Retry(q)
  }

  /** `find_spaced_patterns`: the first `pats[0]` from `from` on that the remaining
      patterns follow; after a failed attempt the search resumes where the attempt
      stopped. Fewer than two patterns never match. An empty first pattern would make
      the source loop forever, so it is excluded. */
  function SpacedSearch(s: String, from: nat, pats: seq<String>): (r: SpacedMatch)
    requires from <= |s|
    requires |pats| >= 2 ==> |pats[0]| > 0
    ensures |pats| < 2 ==> r == NoMatch
    ensures r.Found? ==> from <= r.start && r.start + |pats[0]| <= r.end <= |s|
    ensures r.Found? ==> OccursAt(s, pats[0], r.start)
    decreases |s| - from
  {
    if |pats| < 2 then NoMatch
    else
      match AttemptAt(s, from, pats)
      case Miss => NoMatch
      case Hit(k, e) => Found(k, e)
      case Retry(q) => SpacedSearch(s, q, pats)
  }

  /** A complete tail match ends with the last pattern. */
  lemma {:induction false} MatchTailEndsWithLast(s: String, i: nat, pats: seq<String>, p: nat, end: nat)
    requires i <= |s| && p < |pats| && MatchTail(s, i, pats, p) == Matched(end)
    ensures |pats[|pats| - 1]| <= end && OccursAt(s, pats[|pats| - 1], end - |pats[|pats| - 1]|)
    decreases |pats| - p
  {
    var j := SkipSpaces(s, i);
    if p + 1 < |pats| {
      MatchTailEndsWithLast(s, j + |pats[p]|, pats, p + 1, end);
    }
  }

  /** `u` is, for each pattern from `p` on, a run of whitespace of the length `gaps`
      gives, followed by that pattern. */
  ghost predicate Gapped(u: String, pats: seq<String>, p: nat, gaps: seq<nat>)
    requires p <= |pats|
    decreases |pats| - p
  {
    if p == |pats| then u == [] && gaps == []
    else
      && |gaps| == |pats| - p
      && gaps[0] + |pats[p]| <= |u|
      && AllSpace(u[..gaps[0]])
      && u[gaps[0]..gaps[0] + |pats[p]|] == pats[p]
      && Gapped(u[gaps[0] + |pats[p]|..], pats, p + 1, gaps[1..])
  }

  /** `t` is the first pattern, then the others, each after the whitespace `gaps` gives. */
  ghost predicate SpacedTokens(t: String, pats: seq<String>, gaps: seq<nat>)
    requires pats != []
  {
    |pats[0]| <= |t| && t[..|pats[0]|] == pats[0] && Gapped(t[|pats[0]|..], pats, 1, gaps)
  }

  /** A piece of a piece of `s` is a piece of `s`. */
  lemma SliceOfSlice(s: String, i: nat, e: nat, a: nat, b: nat)
    requires i <= e <= |s| && a <= b <= e - i
    ensures s[i..e][a..b] == s[i + a..i + b]
  {
    forall k | 0 <= k < b - a
      ensures s[i..e][a..b][k] == s[i + a..i + b][k]
    {
    }
  }

  /** One more pattern in front: whitespace over `[i, j)`, then `pats[p]` at `j`. */
  lemma GappedStep(s: String, i: nat, j: nat, e: nat, pats: seq<String>, p: nat, rest: seq<nat>)
    requires p < |pats| && i <= j && j + |pats[p]| <= e <= |s|
    requires forall k :: i <= k < j ==> IsSpace(s[k])
    requires OccursAt(s, pats[p], j)
    requires Gapped(s[j + |pats[p]|..e], pats, p + 1, rest)
    ensures Gapped(s[i..e], pats, p, [j - i] + rest)
  {
    var n := |pats[p]|;
    var u := s[i..e];
    var gaps := [j - i] + rest;
    assert gaps[1..] == rest;
    assert |rest| == |pats| - p - 1;
    SliceOfSlice(s, i, e, j - i + n, e - i);
    assert u[j - i + n..] == u[j - i + n..e - i];
    SliceOfSlice(s, i, e, j - i, j - i + n);
    assert u[j - i..j - i + n] == s[j..j + n];
    SliceOfSlice(s, i, e, 0, j - i);
    var w := u[..j - i];
    assert w == u[0..j - i];
    forall k | 0 <= k < |w|
      ensures IsSpace(w[k])
    {
      assert w[k] == s[i + k];
    }
  }

  lemma {:induction false} MatchTailGapped(s: String, i: nat, pats: seq<String>, p: nat, e: nat) returns (gaps: seq<nat>)
    requires i <= |s| && p <= |pats| && MatchTail(s, i, pats, p) == Matched(e)
    ensures i <= e <= |s| && Gapped(s[i..e], pats, p, gaps)
    decreases |pats| - p
  {
    if p == |pats| {
      assert e == i && s[i..e] == [];
      gaps := [];
    } else {
      var j := SkipSpaces(s, i);
      var n := |pats[p]|;
      assert OccursAt(s, pats[p], j) && MatchTail(s, j + n, pats, p + 1) == Matched(e);
      var rest := MatchTailGapped(s, j + n, pats, p + 1, e);
      GappedStep(s, i, j, e, pats, p, rest);
      gaps := [j - i] + rest;
    }
  }

  lemma FoundTokens(s: String, k: nat, e: nat, pats: seq<String>) returns (gaps: seq<nat>)
    requires pats != [] && OccursAt(s, pats[0], k)
    requires MatchTail(s, k + |pats[0]|, pats, 1) == Matched(e)
    ensures k + |pats[0]| <= e <= |s| && SpacedTokens(s[k..e], pats, gaps)
  {
    var n := |pats[0]|;
    gaps := MatchTailGapped(s, k + n, pats, 1, e);
    var t := s[k..e];
    var u := s[k + n..e];
    assert Gapped(u, pats, 1, gaps);
    SliceOfSlice(s, k, e, 0, n);
    SliceOfSlice(s, k, e, n, e - k);
    assert t[..n] == t[0..n] && t[n..] == t[n..e - k];
    assert t[n..] == u;
  }

  /** What `find_spaced_patterns` reports is an occurrence of the patterns separated by
      whitespace only (the runs `gaps` long), starting no earlier than the search did;
      in particular it ends with the last pattern. */
  lemma {:induction false} SpacedSearchSound(s: String, from: nat, pats: seq<String>, start: nat, end: nat)
    returns (gaps: seq<nat>)
    requires from <= |s| && (|pats| >= 2 ==> |pats[0]| > 0)
    requires SpacedSearch(s, from, pats) == Found(start, end)
    ensures pats != [] && from <= start <= end <= |s|
    ensures SpacedTokens(s[start..end], pats, gaps)
    ensures |pats[|pats| - 1]| <= end && OccursAt(s, pats[|pats| - 1], end - |pats[|pats| - 1]|)
    decreases |s| - from
  {
    match AttemptAt(s, from, pats)
    case Hit(k, e) =>
      gaps := HitSound(s, from, pats, k, e);
    case Retry(q) =>
      gaps := SpacedSearchSound(s, q, pats, start, end);
  }

  /** An attempt that hits spans the patterns in order and ends with the last one. */
  lemma HitSound(s: String, from: nat, pats: seq<String>, k: nat, e: nat) returns (gaps: seq<nat>)
    requires from <= |s| && |pats| >= 2
    requires AttemptAt(s, from, pats) == Hit(k, e)
    ensures from <= k <= e <= |s|
    ensures SpacedTokens(s[k..e], pats, gaps)
    ensures |pats[|pats| - 1]| <= e && OccursAt(s, pats[|pats| - 1], e - |pats[|pats| - 1]|)
  {
    gaps := FoundTokens(s, k, e, pats);
    MatchTailEndsWithLast(s, k + |pats[0]|, pats, 1, e);
  }

  /** A full match of the patterns starts at `k`: the first pattern there, then each of
      the others after whitespace, as the inner loop of `find_spaced_patterns` reads them. */
  ghost predicate SpacedMatchAt(s: String, pats: seq<String>, k: nat)
    requires pats != []
  {
    OccursAt(s, pats[0], k) && MatchTail(s, k + |pats[0]|, pats, 1).Matched?
  }

  /** The first full match at or after `from`: where it starts and where it ends. */
  ghost function FirstSpacedMatch(s: String, from: nat, pats: seq<String>): (r: SpacedMatch)
    requires from <= |s| && pats != []
    ensures r.Found? ==> && from <= r.start && SpacedMatchAt(s, pats, r.start)
                         && MatchTail(s, r.start + |pats[0]|, pats, 1) == Matched(r.end)
    decreases |s| - from
  {
    if SpacedMatchAt(s, pats, from) then Found(from, MatchTail(s, from + |pats[0]|, pats, 1).end)
    else if from == |s| then NoMatch
    else FirstSpacedMatch(s, from + 1, pats)
  }

  /** The match found is the first one, and none is found only when there is none. */
  lemma {:induction false} FirstSpacedMatchIsFirst(s: String, from: nat, pats: seq<String>)
    requires from <= |s| && pats != []
    ensures FirstSpacedMatch(s, from, pats).Found? ==>
              forall j :: from <= j < FirstSpacedMatch(s, from, pats).start ==> !SpacedMatchAt(s, pats, j)
    ensures FirstSpacedMatch(s, from, pats).NoMatch? ==>
              forall j :: from <= j <= |s| ==> !SpacedMatchAt(s, pats, j)
    decreases |s| - from
  {
    if !SpacedMatchAt(s, pats, from) && from < |s| {
      FirstSpacedMatchIsFirst(s, from + 1, pats);
    }
  }

  /** Positions where no match starts do not change the first match. */
  lemma {:induction false} FirstSpacedSkip(s: String, from: nat, k: nat, pats: seq<String>)
    requires from <= k <= |s| && pats != []
    requires forall j :: from <= j < k ==> !SpacedMatchAt(s, pats, j)
    ensures FirstSpacedMatch(s, from, pats) == FirstSpacedMatch(s, k, pats)
    decreases k - from
  {
    if from < k {
      FirstSpacedSkip(s, from + 1, k, pats);
    }
  }

  /** The first pattern is one non-blank character that no later pattern contains, as with
      "<" in the tag patterns: a failed attempt then never passes over a possible start. */
  predicate LeadIsUnique(pats: seq<String>)
  {
    && |pats| >= 2 && |pats[0]| == 1 && !IsSpace(pats[0][0])
    && forall p :: 1 <= p < |pats| ==> pats[0][0] !in pats[p]
  }

  /** A tail that stops has read only whitespace and later patterns, so the lead
      character does not occur in what it read. */
  lemma {:induction false} StoppedTailLacksLead(s: String, i: nat, pats: seq<String>, p: nat, q: nat)
    requires i <= |s| && 1 <= p <= |pats| && LeadIsUnique(pats)
    requires MatchTail(s, i, pats, p) == Stopped(q)
    ensures forall j :: i <= j < q ==> s[j] != pats[0][0]
    decreases |pats| - p
  {
    var j := SkipSpaces(s, i);
    if OccursAt(s, pats[p], j) {
      var n := |pats[p]|;
      StoppedTailLacksLead(s, j + n, pats, p + 1, q);
      forall t | j <= t < j + n
        ensures s[t] != pats[0][0]
      {
        assert s[t] == s[j..j + n][t - j];
      }
    }
  }

  /** Every pattern after the first is non-empty and starts with a non-blank character, so
      the whitespace before it can be read only one way. */
  predicate TailsStartNonBlank(pats: seq<String>)
  {
    forall q :: 1 <= q < |pats| ==> |pats[q]| > 0 && !IsSpace(pats[q][0])
  }

  /** A run of `g` blanks followed by a non-blank (or the end) is what `SkipSpaces` skips. */
  lemma {:induction false} SkipSpacesExact(s: String, i: nat, g: nat)
    requires i + g <= |s|
    requires forall k :: i <= k < i + g ==> IsSpace(s[k])
    requires i + g < |s| ==> !IsSpace(s[i + g])
    ensures SkipSpaces(s, i) == i + g
    decreases g
  {
    if g > 0 {
      SkipSpacesExact(s, i + 1, g - 1);
    }
  }

  /** The first of several gapped tokens, read in the whole text: blanks over
      `[i, i + gaps[0])`, then `pats[p]`, then the rest. */
  lemma GappedHead(s: String, i: nat, e: nat, pats: seq<String>, p: nat, gaps: seq<nat>)
    requires i <= e <= |s| && p < |pats| && Gapped(s[i..e], pats, p, gaps)
    ensures |gaps| > 0 && i + gaps[0] + |pats[p]| <= e
    ensures forall k :: i <= k < i + gaps[0] ==> IsSpace(s[k])
    ensures OccursAt(s, pats[p], i + gaps[0])
    ensures Gapped(s[i + gaps[0] + |pats[p]|..e], pats, p + 1, gaps[1..])
  {
    var u := s[i..e];
    var g, n := gaps[0], |pats[p]|;
    GappedHeadBlanks(s, i, e, g);
    SliceOfSlice(s, i, e, g, g + n);
    SliceOfSlice(s, i, e, g + n, e - i);
    assert u[g + n..] == u[g + n..e - i];
  }

  lemma GappedHeadBlanks(s: String, i: nat, e: nat, g: nat)
    requires i + g <= e <= |s| && AllSpace(s[i..e][..g])
    ensures forall k :: i <= k < i + g ==> IsSpace(s[k])
  {
    forall k | i <= k < i + g
      ensures IsSpace(s[k])
    {
      assert s[k] == s[i..e][..g][k - i];
    }
  }

  /** An occurrence starts with the pattern's first character. */
  lemma OccursAtHead(s: String, pat: String, j: nat)
    requires |pat| > 0 && OccursAt(s, pat, j)
    ensures j < |s| && s[j] == pat[0]
  {
    assert s[j] == s[j..j + |pat|][0];
  }

  /** Blanks and then a pattern that starts with a non-blank: the inner loop reads that
      pattern next and goes on after it. */
  lemma TailStep(s: String, i: nat, pats: seq<String>, p: nat, g: nat)
    requires p < |pats| && |pats[p]| > 0 && !IsSpace(pats[p][0]) && i + g <= |s|
    requires forall k :: i <= k < i + g ==> IsSpace(s[k])
    requires OccursAt(s, pats[p], i + g)
    ensures MatchTail(s, i, pats, p) == MatchTail(s, i + g + |pats[p]|, pats, p + 1)
  {
    OccursAtHead(s, pats[p], i + g);
    SkipSpacesExact(s, i, g);
  }

  /** Whitespace-separated tokens are read back by the inner loop, up to their end. */
  lemma {:induction false} GappedMatchTail(s: String, i: nat, e: nat, pats: seq<String>, p: nat, gaps: seq<nat>)
    requires i <= e <= |s| && p <= |pats| && TailsStartNonBlank(pats) && 1 <= p
    requires Gapped(s[i..e], pats, p, gaps)
    ensures MatchTail(s, i, pats, p) == Matched(e)
    decreases |pats| - p
  {
    if p == |pats| {
      assert |s[i..e]| == 0;
    } else {
      GappedHead(s, i, e, pats, p, gaps);
      TailStep(s, i, pats, p, gaps[0]);
      GappedMatchTail(s, i + gaps[0] + |pats[p]|, e, pats, p + 1, gaps[1..]);
    }
  }

  /** Conversely to `FoundTokens`: the patterns in order with whitespace between them,
      anywhere in the text, are a full match where they start. */
  lemma TokensMatchAt(s: String, k: nat, e: nat, pats: seq<String>, gaps: seq<nat>)
    requires pats != [] && k <= e <= |s| && TailsStartNonBlank(pats)
    requires SpacedTokens(s[k..e], pats, gaps)
    ensures SpacedMatchAt(s, pats, k) && MatchTail(s, k + |pats[0]|, pats, 1) == Matched(e)
  {
    var n := |pats[0]|;
    SliceOfSlice(s, k, e, 0, n);
    SliceOfSlice(s, k, e, n, e - k);
    var t := s[k..e];
    assert t[..n] == t[0..n] && t[n..] == t[n..e - k];
    GappedMatchTail(s, k + n, e, pats, 1, gaps);
  }

  /** One attempt from the lead character at `k`: a hit when the tail matches, otherwise
      a retry where the tail stopped. */
  lemma LeadAttempt(s: String, from: nat, pats: seq<String>, k: nat)
    requires from <= |s| && |pats| >= 2 && |pats[0]| == 1 && IndexOf(s, pats[0], from) == Some(k)
    ensures var t := MatchTail(s, k + 1, pats, 1);
            AttemptAt(s, from, pats) == if t.Matched? then Hit(k, t.end) else Retry(t.at)
  {
  }

  /** No match starts at a lead character whose tail stops, nor before where it stopped. */
  lemma LeadStopSkips(s: String, pats: seq<String>, k: nat, q: nat)
    requires LeadIsUnique(pats) && OccursAt(s, pats[0], k)
    requires MatchTail(s, k + 1, pats, 1) == Stopped(q)
    ensures forall j :: k <= j < q ==> !SpacedMatchAt(s, pats, j)
  {
    StoppedTailLacksLead(s, k + 1, pats, 1, q);
    var c := pats[0][0];
    assert pats[0] == [c];
    forall j | k + 1 <= j < q
      ensures !OccursAt(s, pats[0], j)
    {
      OccursAtChar(s, c, j);
    }
  }

  /** With a unique lead character, `find_spaced_patterns` finds the first full match:
      a failed attempt resumes only past text in which no match can start. */
  lemma {:induction false} SpacedSearchFindsFirst(s: String, from: nat, pats: seq<String>)
    requires from <= |s| && LeadIsUnique(pats)
    ensures SpacedSearch(s, from, pats) == FirstSpacedMatch(s, from, pats)
    decreases |s| - from
  {
    IndexOfFirst(s, pats[0], from);
    match IndexOf(s, pats[0], from)
    case None =>
      FirstSpacedSkip(s, from, |s|, pats);
    case Some(k) =>
      FirstSpacedSkip(s, from, k, pats);
      LeadAttempt(s, from, pats, k);
      match MatchTail(s, k + 1, pats, 1)
      case Matched(_) =>
      case Stopped(q) =>
        LeadStopSkips(s, pats, k, q);
        FirstSpacedSkip(s, k, q, pats);
        SpacedSearchFindsFirst(s, q, pats);
  }

  /** The whitespace-skipping loop of `find_spaced_patterns`. */
  method SkipWhitespace(s: String, i: nat) returns (j: nat)
    requires i <= |s|
    ensures j == SkipSpaces(s, i)
  {
    j := i;
    while j < |s| && IsSpace(s[j])
      invariant i <= j <= |s|
      invariant SkipSpaces(s, j) == SkipSpaces(s, i)
    {
      j := j + 1;
    }
  }

  /** The inner loop of `find_spaced_patterns`: patterns 1, 2, ... from `pos` on. */
  method MatchRemaining(s: String, pos: nat, pats: seq<String>) returns (r: TailMatch)
    requires pos <= |s| && 1 <= |pats|
    ensures r == MatchTail(s, pos, pats, 1)
  {
    var p: nat := pos;
    var i := 1;
    while i < |pats|
      invariant 1 <= i <= |pats| && p <= |s|
      invariant MatchTail(s, p, pats, i) == MatchTail(s, pos, pats, 1)
    {
      p := SkipWhitespace(s, p);
      if !OccursAt(s, pats[i], p) {
        return Stopped(p);
      }
      p := p + |pats[i]|;
      i := i + 1;
    }
    return Matched(p);
  }

  /** One attempt of `find_spaced_patterns` at `pos`: either the search is decided, or it
      continues at a later position with the same outcome. */
  method SearchAttempt(s: String, pos: nat, pats: seq<String>) returns (done: bool, m: SpacedMatch, next: nat)
    requires pos <= |s| && |pats| >= 2 && |pats[0]| > 0
    ensures done ==> m == SpacedSearch(s, pos, pats)
    ensures !done ==> pos < next <= |s| && SpacedSearch(s, next, pats) == SpacedSearch(s, pos, pats)
  {
    var found := IndexOf(s, pats[0], pos);
    if found.None? {
      assert AttemptAt(s, pos, pats) == Miss;
      return true, NoMatch, pos;
    }
    var tail := MatchRemaining(s, found.value + |pats[0]|, pats);
    if tail.Matched? {
      assert AttemptAt(s, pos, pats) == Hit(found.value, tail.end);
      return true, Found(found.value, tail.end), pos;
    }
    assert AttemptAt(s, pos, pats) == Retry(tail.at);
    return false, NoMatch, tail.at;
  }

  /** The outer loop of `find_spaced_patterns`: `strstr` for the first pattern, then the
      others; a failed attempt resumes where it stopped. */
  method FindSpacedPatterns(s: String, from: nat, pats: seq<String>) returns (m: SpacedMatch)
    requires from <= |s|
    requires |pats| >= 2 ==> |pats[0]| > 0
    ensures m == SpacedSearch(s, from, pats)
  {
    if |pats| < 2 {
      return NoMatch;
    }
    var pos: nat := from;
    var done := false;
    m := NoMatch;
    while !done
      invariant from <= pos <= |s|
      invariant !done ==> SpacedSearch(s, pos, pats) == SpacedSearch(s, from, pats)
      invariant done ==> m == SpacedSearch(s, from, pats)
      decreases |s| - pos, !done
    {
      var next;
      done, m, next := SearchAttempt(s, pos, pats);
      if !done {
        pos := next;
      }
    }
  }

  // ---------------------------------------------------------------------------------
  // trim

  /** The first position at or after `i` holding a character outside `chars`. */
  function TrimStart(s: String, chars: String, i: nat): (r: nat)
    requires i <= |s|
    ensures i <= r <= |s|
    ensures forall k :: i <= k < r ==> s[k] in chars
    ensures r < |s| ==> s[r] !in chars
    decreases |s| - i
  {
    if i < |s| && s[i] in chars then TrimStart(s, chars, i + 1) else i
  }

  /** The backward loop of `trim`: it also tests `(*end) - 1`, the character just past the
      candidate end minus one, so it halts right after removing a character 0x01
      (`end == |s|` is the terminator, where the test passes). */
  function TrimEnd(s: String, chars: String, lo: nat, e: nat): (r: nat)
    requires lo <= e <= |s|
    ensures lo <= r <= e
    ensures forall k :: r <= k < e ==> s[k] in chars
    ensures CHAR_01 !in chars && (e == |s| || s[e] in chars) && r > lo ==> s[r - 1] !in chars
    decreases e
  {
    if e > lo && (e == |s| || s[e] != CHAR_01) && s[e - 1] in chars then TrimEnd(s, chars, lo, e - 1) else e
  }

  /** `trim`: the text without its leading and trailing characters from `chars`. */
  function Trimmed(s: String, chars: String): (r: String)
    ensures |r| <= |s|
    ensures CHAR_01 !in chars && r != [] ==> r[0] !in chars && r[|r| - 1] !in chars
  {
    var a := TrimStart(s, chars, 0);
    s[a..TrimEnd(s, chars, a, |s|)]
  }

  /** `trim` only removes characters: what is left is a piece of the text. */
  lemma TrimmedInfix(s: String, chars: String) returns (a: nat)
    ensures a + |Trimmed(s, chars)| <= |s| && Trimmed(s, chars) == s[a..a + |Trimmed(s, chars)|]
  {
    a := TrimStart(s, chars, 0);
  }

  /** Whenever the character set has no 0x01, `trim` cuts exactly the maximal runs of
      characters from `chars` at both ends: any split of the text into such a prefix,
      a middle that neither begins nor ends with one of them, and such a suffix yields
      that middle. */
  lemma TrimmedUnique(s: String, chars: String, a: nat, e: nat)
    requires CHAR_01 !in chars
    requires a <= e <= |s|
    requires forall k :: 0 <= k < a ==> s[k] in chars
    requires forall k :: e <= k < |s| ==> s[k] in chars
    requires a < e ==> s[a] !in chars && s[e - 1] !in chars
    ensures Trimmed(s, chars) == s[a..e]
  {
    var a' := TrimStart(s, chars, 0);
    var e' := TrimEnd(s, chars, a', |s|);
    if a < e {
      assert a' == a;
      assert e' == e;
    } else {
      assert a' == |s|;
    }
  }

  lemma TrimmedIdempotent(s: String, chars: String)
    requires CHAR_01 !in chars
    ensures Trimmed(Trimmed(s, chars), chars) == Trimmed(s, chars)
  {
    var r := Trimmed(s, chars);
    TrimmedUnique(r, chars, 0, |r|);
    assert r[0..|r|] == r;
  }

  /** The copy loop of `trim`: `data[start..end]` moves to the front of the buffer. */
  method ShiftToFront(data: array<char>, start: nat, end: nat)
    requires start <= end <= data.Length
    modifies data
    ensures data[..end - start] == old(data[start..end])
  {
    ghost var s := data[..];
    var i := 0;
    while start + i < end
      invariant 0 <= i <= end - start
      invariant data[..i] == s[start..start + i]
      invariant forall k :: start + i <= k < data.Length ==> data[k] == s[k]
    {
      data[i] := data[start + i];
      i := i + 1;
    }
  }

  /** The forward loop of `trim` over the first `n` characters of the buffer. */
  method ScanLeading(data: array<char>, n: nat, chars: String) returns (start: nat)
    requires n <= data.Length
    ensures start == TrimStart(data[..n], chars, 0)
  {
    ghost var s := data[..n];
    start := 0;
    while start < n && IsAnyOf(data[start], chars)
      invariant 0 <= start <= n
      invariant TrimStart(s, chars, start) == TrimStart(s, chars, 0)
    {
      start := start + 1;
    }
  }

  /** The backward loop of `trim`, from the end of the text down to `start`. */
  method ScanTrailing(data: array<char>, n: nat, chars: String, start: nat) returns (end: nat)
    requires start <= n <= data.Length
    ensures end == TrimEnd(data[..n], chars, start, n)
  {
    ghost var s := data[..n];
    end := n;
    while end > start && (end == n || data[end] != CHAR_01) && IsAnyOf(data[end - 1], chars)
      invariant start <= end <= n
      invariant TrimEnd(s, chars, start, end) == TrimEnd(s, chars, start, n)
    {
      end := end - 1;
    }
  }

  /** `trim`, in place: the kept characters are shifted to the front of the buffer. */
  method Trim(str: SfsString, chars: String)
    requires str.Valid()
    modifies str, str.data
    ensures str.Valid() && str.data == old(str.data) && str.memlen == old(str.memlen)
    ensures str.Text() == Trimmed(old(str.Text()), chars)
  {
    if str.textlen == 0 {
      return;
    }
    ghost var s := str.Text();
    var start := ScanLeading(str.data, str.textlen, chars);
    var end := ScanTrailing(str.data, str.textlen, chars, start);
    assert Trimmed(s, chars) == s[start..end];
    if end == start {
      str.data[0] := '\0';
      str.textlen := 0;
      return;
    }
    assert s[start..end] == str.data[start..end] by {
      forall k | start <= k < end
        ensures s[k] == str.data[k]
      {
      }
    }
    ShiftToFront(str.data, start, end);
    str.data[end - start] := '\0';
    str.textlen := end - start;
  }

  // ---------------------------------------------------------------------------------
  // normalize_title

  /** A character `normalize_title` keeps: `is_illegal_title_char` characters are replaced. */
  function LegalTitleChar(c: char): (d: char)
  {
    if IsIllegalTitleChar(c) then ' ' else c
  }

  /** The first pass of `normalize_title`: each character inside a tag (from '<' through
      the next '>') becomes the marker, the others are made legal. */
  function MarkTags(s: String, deleting: bool): (m: String)
    ensures |m| == |s|
  {
    if s == [] then []
    else
      var d := deleting || s[0] == '<';
      [if d then MARKER else LegalTitleChar(s[0])] + MarkTags(s[1..], if s[0] == '>' then false else d)
  }

  /** The second pass: the markers are squeezed out. */
  function Unmarked(t: String): (r: String)
    ensures |r| <= |t|
  {
    if t == [] then [] else (if t[0] == MARKER then [] else [t[0]]) + Unmarked(t[1..])
  }

  /** What the two passes compute, in one left-to-right reading: outside a tag a
      character is kept (made legal) unless it opens a tag; inside one everything is
      dropped up to and including the next '>', and an unclosed tag runs to the end. */
  function StripTags(s: String, inTag: bool): (r: String)
  {
    if s == [] then []
    else if inTag then StripTags(s[1..], s[0] != '>')
    else if s[0] == '<' then StripTags(s[1..], true)
    else [LegalTitleChar(s[0])] + StripTags(s[1..], false)
  }

  /** The text `normalize_title` leaves: tags stripped, then spaces trimmed. */
  function NormalizedTitle(s: String): String
  {
    Trimmed(StripTags(s, false), " ")
  }

  lemma {:induction false} MarkThenUnmark(s: String, inTag: bool)
    ensures Unmarked(MarkTags(s, inTag)) == StripTags(s, inTag)
  {
    if s != [] {
      var d := inTag || s[0] == '<';
      var rest := MarkTags(s[1..], if s[0] == '>' then false else d);
      var t := MarkTags(s, inTag);
      assert t[0] == (if d then MARKER else LegalTitleChar(s[0]));
      assert t[1..] == rest;
      MarkThenUnmark(s[1..], if s[0] == '>' then false else d);
    }
  }

  /** A character that can survive `normalize_title`. */
  predicate TitleSafe(c: char)
  {
    ' ' <= c && (c as int) < 0x80 && c != '/' && c != '<'
  }

  lemma {:induction false} StripTagsSafe(s: String, inTag: bool)
    ensures |StripTags(s, inTag)| <= |s|
    ensures forall k :: 0 <= k < |StripTags(s, inTag)| ==> TitleSafe(StripTags(s, inTag)[k])
  {
    if s != [] {
      StripTagsSafe(s[1..], if inTag then s[0] != '>' else s[0] == '<');
    }
  }

  /** A normalized title is never longer than the raw one and holds only printable
      ASCII without '/' or '<', so it can name a directory entry. */
  lemma NormalizedTitleSafe(s: String)
    ensures |NormalizedTitle(s)| <= |s|
    ensures forall k :: 0 <= k < |NormalizedTitle(s)| ==> TitleSafe(NormalizedTitle(s)[k])
  {
    var m := StripTags(s, false);
    StripTagsSafe(s, false);
    var r := NormalizedTitle(s);
    var a := TrimmedInfix(m, " ");
    forall k | 0 <= k < |r|
      ensures TitleSafe(r[k])
    {
      assert r[k] == m[a + k];
    }
  }

  /** Text without any '<' is only made legal, character by character. */
  lemma {:induction false} StripTagsNoTag(s: String)
    requires '<' !in s
    ensures |StripTags(s, false)| == |s|
    ensures forall k :: 0 <= k < |s| ==> StripTags(s, false)[k] == LegalTitleChar(s[k])
  {
    if s != [] {
      assert '<' !in s[1..] by {
        forall k | 0 <= k < |s| - 1 ensures s[1..][k] != '<' { assert s[1..][k] == s[k + 1]; }
      }
      StripTagsNoTag(s[1..]);
    }
  }

  /** The first loop of `normalize_title`, writing the marked copy into a fresh buffer. */
  method MarkPass(src: array<char>, n: nat) returns (tmp: array<char>)
    requires n <= src.Length
    ensures fresh(tmp) && tmp.Length == n + 1
    ensures tmp[..n] == MarkTags(src[..n], false)
  {
    ghost var s := src[..n];
    tmp := new char[n + 1];
    var deleting := false;
    var i := 0;
    while i < n
      invariant 0 <= i <= n
      invariant tmp[..i] + MarkTags(s[i..], deleting) == MarkTags(s, false)
    {
      var c := src[i];
      assert c == s[i];
      MarkStep(tmp[..i], s, i, deleting);
      if c == '<' {
        deleting := true;
      }
      if deleting {
        tmp[i] := MARKER;
      } else if IsIllegalTitleChar(c) {
        tmp[i] := ' ';
      } else {
        tmp[i] := c;
      }
      if c == '>' {
        deleting := false;
      }
      assert tmp[..i + 1] == tmp[..i] + [tmp[i]];
      i := i + 1;
    }
    tmp[n] := '\0';
    assert s[n..] == [];
  }

  lemma MarkStep(done: String, s: String, i: nat, deleting: bool)
    requires i < |s|
    ensures done + MarkTags(s[i..], deleting)
            == (done + [if deleting || s[i] == '<' then MARKER else LegalTitleChar(s[i])])
               + MarkTags(s[i + 1..], if s[i] == '>' then false else deleting || s[i] == '<')
  {
    assert s[i..][0] == s[i] && s[i..][1..] == s[i + 1..];
  }

  /** The second loop of `normalize_title`: the unmarked characters are copied back. */
  method UnmarkPass(tmp: array<char>, n: nat, dst: array<char>) returns (k: nat)
    requires n <= tmp.Length && n <= dst.Length && tmp != dst
    modifies dst
    ensures k <= n && dst[..k] == Unmarked(tmp[..n])
  {
    ghost var t := tmp[..n];
    ghost var kept: String := [];
    k := 0;
    var i := 0;
    while i < n
      invariant 0 <= k <= i <= n && tmp[..n] == t
      invariant dst[..k] == kept
      invariant kept + Unmarked(t[i..]) == Unmarked(t)
    {
      var c := tmp[i];
      assert c == t[i];
      UnmarkStep(kept, t, i);
      if c != MARKER {
        dst[k] := c;
        kept := kept + [c];
        assert dst[..k + 1] == kept;
        k := k + 1;
      }
      i := i + 1;
    }
    assert t[n..] == [];
  }

  /** One character of the second pass: kept unless it is a marker. */
  lemma UnmarkStep(done: String, t: String, i: nat)
    requires i < |t|
    ensures done + Unmarked(t[i..]) == (done + (if t[i] == MARKER then [] else [t[i]])) + Unmarked(t[i + 1..])
  {
    assert t[i..][0] == t[i] && t[i..][1..] == t[i + 1..];
  }

  /** `normalize_title`, in place: both passes, then `trim(title, " ")`. */
  method NormalizeTitle(title: SfsString)
    requires title.Valid()
    modifies title, title.data
    ensures title.Valid() && title.data == old(title.data) && title.memlen == old(title.memlen)
    ensures title.Text() == NormalizedTitle(old(title.Text()))
  {
    ghost var s := title.Text();
    var n := title.textlen;
    if n == 0 {
      return;
    }
    var tmp := MarkPass(title.data, n);
    var k := UnmarkPass(tmp, n, title.data);
    title.data[k] := '\0';
    title.textlen := k;
    MarkThenUnmark(s, false);
    Trim(title, " ");
  }

  // ---------------------------------------------------------------------------------
  // extract_url_params

  datatype UrlParts = UrlParts(protocol: String, host: String, path: String)

  /** Where the host starts: just past the first "://", or at 0 without one. */
  function HostStart(url: String): (pos: nat)
    ensures pos <= |url|
  {
    match IndexOf(url, PROTOCOL_SEP, 0)
    case None => 0
    case Some(k) => k + |PROTOCOL_SEP|
  }

  /** The protocol: what precedes the first "://", or nothing without one. */
  function UrlProtocol(url: String): String
  {
    match IndexOf(url, PROTOCOL_SEP, 0)
    case None => []
    case Some(k) => url[..k]
  }

  /** The host runs from `HostStart` to the next '/', which starts the path. Without a '/'
      the rest is the host (`PreferHost`, path "/") or the path (`PreferPath`, no host). */
  function HostAndRawPath(url: String, policy: ExtractPolicy): (String, String)
  {
    var pos := HostStart(url);
    match IndexOf(url, "/", pos)
    case Some(j) => (url[pos..j], url[j..])
    case None => if policy == PreferHost then (url[pos..], "/") else ([], url[pos..])
  }

  /** A non-empty path not starting with '/' gets one in front. */
  function WithLeadingSlash(p: String): (r: String)
  {
    if p != [] && p[0] != '/' then "/" + p else p
  }

  /** `extract_url_params`. */
  function SplitUrl(url: String, policy: ExtractPolicy): (u: UrlParts)
  {
    var hostPath := HostAndRawPath(url, policy);
    UrlParts(UrlProtocol(url), hostPath.0, WithLeadingSlash(hostPath.1))
  }

  /** What `extract_url_params` promises its callers about the host and path: the host
      holds no '/', and the path is empty or absolute. */
  lemma SplitUrlShape(url: String, policy: ExtractPolicy)
    ensures '/' !in SplitUrl(url, policy).host
    ensures SplitUrl(url, policy).path == [] || SplitUrl(url, policy).path[0] == '/'
  {
    var pos := HostStart(url);
    var u := SplitUrl(url, policy);
    IndexOfFirst(url, "/", pos);
    forall k | 0 <= k < |u.host|
      ensures u.host[k] != '/'
    {
      assert u.host[k] == url[pos + k];
      assert !OccursAt(url, "/", pos + k);
      OccursAtChar(url, '/', pos + k);
    }
  }

  /** The protocol is everything before the first "://", and empty without one. */
  lemma SplitUrlProtocol(url: String, policy: ExtractPolicy)
    ensures IndexOf(url, PROTOCOL_SEP, 0).Some? ==>
              url == SplitUrl(url, policy).protocol + PROTOCOL_SEP + url[HostStart(url)..]
    ensures IndexOf(url, PROTOCOL_SEP, 0).None? ==> SplitUrl(url, policy).protocol == []
  {
    if IndexOf(url, PROTOCOL_SEP, 0).Some? {
      var k := IndexOf(url, PROTOCOL_SEP, 0).value;
      assert url == url[..k] + url[k..k + 3] + url[k + 3..];
    }
  }

  /** Splitting an absolute URL gives back the pieces it was made of, under either policy:
      a protocol without ':', a host without '/', and a path starting with '/'. */
  lemma SplitUrlRoundTrip(protocol: String, host: String, path: String, policy: ExtractPolicy)
    requires ':' !in protocol && '/' !in host && path != [] && path[0] == '/'
    ensures SplitUrl(protocol + PROTOCOL_SEP + host + path, policy) == UrlParts(protocol, host, path)
  {
    var url := protocol + PROTOCOL_SEP + host + path;
    var n := |protocol|;
    forall j | 0 <= j < n
      ensures !OccursAt(url, PROTOCOL_SEP, j)
    {
      assert url[j] == protocol[j];
      Mismatch(url, PROTOCOL_SEP, j, 0);
    }
    IndexOfFinds(url, PROTOCOL_SEP, 0, n);
    assert url[..n] == protocol;
    var pos := n + 3;
    assert HostStart(url) == pos;
    forall j | pos <= j < pos + |host|
      ensures !OccursAt(url, "/", j)
    {
      assert url[j] == host[j - pos];
      OccursAtChar(url, '/', j);
    }
    assert OccursAt(url, "/", pos + |host|);
    IndexOfFinds(url, "/", pos, pos + |host|);
    assert url[pos..pos + |host|] == host;
    assert url[pos + |host|..] == path;
  }

  /** A relative link without any '/' or "://" is taken for a path under `PreferPath` and for
      a host under `PreferHost`. */
  lemma SplitUrlBareName(name: String)
    requires name != [] && '/' !in name && ':' !in name
    ensures SplitUrl(name, PreferPath) == UrlParts([], [], "/" + name)
    ensures SplitUrl(name, PreferHost) == UrlParts([], name, "/")
  {
    forall j | 0 <= j <= |name|
      ensures !OccursAt(name, PROTOCOL_SEP, j) && !OccursAt(name, "/", j)
    {
      if j < |name| {
        assert name[j..j + 1][0] == name[j];
      }
    }
    IndexOfMisses(name, PROTOCOL_SEP, 0);
    IndexOfMisses(name, "/", 0);
    assert name[0..] == name;
  }

  /** The protocol step of `extract_url_params`: the text before the first "://" is
      appended; the result is where the host starts. */
  method CopyProtocol(url: String, protocol: SfsString) returns (pos: nat)
    requires protocol.Valid() && protocol.memlen > 0 && protocol.textlen == 0
    modifies protocol, protocol.data
    ensures protocol.Valid() && (protocol.data == old(protocol.data) || fresh(protocol.data))
    ensures pos == HostStart(url) && protocol.Text() == UrlProtocol(url)
  {
    pos := 0;
    var found := IndexOf(url, PROTOCOL_SEP, 0);
    if found.Some? {
      var ret := protocol.Ncat(url, found.value);
      pos := found.value + |PROTOCOL_SEP|;
    }
  }

  /** The host and path step of `extract_url_params`, before the leading '/' is added. */
  method CopyHostPath(url: String, pos: nat, host: SfsString, path: SfsString, policy: ExtractPolicy)
    requires pos == HostStart(url)
    requires host.Valid() && host.memlen > 0 && host.textlen == 0
    requires path.Valid() && path.memlen > 0 && path.textlen == 0
    requires host != path && host.data != path.data
    modifies host, host.data, path, path.data
    ensures host.Valid() && (host.data == old(host.data) || fresh(host.data))
    ensures path.Valid() && (path.data == old(path.data) || fresh(path.data)) && path.memlen > 0
    ensures host.data != path.data
    ensures host.Text() == HostAndRawPath(url, policy).0 && path.Text() == HostAndRawPath(url, policy).1
  {
    var slash := IndexOf(url, "/", pos);
    if slash.Some? {
      CopySplit(url, pos, slash.value, host, path);
    } else if policy == PreferHost {
      CopyBoth(host, path, url[pos..], "/");
    } else {
      var _ := path.Cat(url[pos..]);
    }
  }

  /** The host is the `j - pos` characters from `pos` (copied with `strncat`), the path the
      rest of the URL from the '/' at `j`. */
  method CopySplit(url: String, pos: nat, j: nat, host: SfsString, path: SfsString)
    requires pos <= j <= |url|
    requires host.Valid() && host.memlen > 0 && host.textlen == 0
    requires path.Valid() && path.memlen > 0 && path.textlen == 0
    requires host != path && host.data != path.data
    modifies host, host.data, path, path.data
    ensures host.Valid() && (host.data == old(host.data) || fresh(host.data))
    ensures path.Valid() && (path.data == old(path.data) || fresh(path.data)) && path.memlen > 0
    ensures host.data != path.data
    ensures host.Text() == url[pos..j] && path.Text() == url[j..]
  {
    assert url[pos..][..j - pos] == url[pos..j] by {
      forall k | 0 <= k < j - pos
        ensures url[pos..][..j - pos][k] == url[pos..j][k]
      {
        assert url[pos..][..j - pos][k] == url[pos + k];
      }
    }
    var _ := host.Ncat(url[pos..], j - pos);
    var _ := path.Cat(url[j..]);
  }

  /** Both strings filled with `strcat`. */
  method CopyBoth(host: SfsString, path: SfsString, h: String, p: String)
    requires host.Valid() && host.memlen > 0 && host.textlen == 0
    requires path.Valid() && path.memlen > 0 && path.textlen == 0
    requires host != path && host.data != path.data
    modifies host, host.data, path, path.data
    ensures host.Valid() && (host.data == old(host.data) || fresh(host.data))
    ensures path.Valid() && (path.data == old(path.data) || fresh(path.data)) && path.memlen > 0
    ensures host.data != path.data
    ensures host.Text() == h && path.Text() == p
  {
    var _ := host.Cat(h);
    var _ := path.Cat(p);
  }

  /** The last step of `extract_url_params`: a '/' is put in front of a relative path. */
  method MakePathAbsolute(path: SfsString)
    requires path.Valid() && path.memlen > 0
    modifies path, path.data
    ensures path.Valid() && (path.data == old(path.data) || fresh(path.data))
    ensures path.Text() == WithLeadingSlash(old(path.Text()))
  {
    if path.textlen > 0 && path.data[0] != '/' {
      var ret := path.InsertBegin("/");
    }
  }

  /** The first step of `extract_url_params`: the three strings are cleared in turn; the
      first without a buffer stops it with `-EINVAL`. */
  method ClearUrlParts(protocol: SfsString, host: SfsString, path: SfsString) returns (ret: int)
    requires protocol.Valid() && host.Valid() && path.Valid()
    requires protocol != host && protocol != path && host != path
    requires protocol.data != host.data && protocol.data != path.data && host.data != path.data
    modifies protocol, protocol.data, host, host.data, path, path.data
    ensures protocol.Valid() && host.Valid() && path.Valid()
    ensures protocol.data == old(protocol.data) && host.data == old(host.data) && path.data == old(path.data)
    ensures protocol.memlen == old(protocol.memlen) && host.memlen == old(host.memlen) && path.memlen == old(path.memlen)
    ensures ret == 0 <==> protocol.memlen > 0 && host.memlen > 0 && path.memlen > 0
    ensures ret != 0 ==> ret == EINVAL
    ensures ret == 0 ==> protocol.textlen == 0 && host.textlen == 0 && path.textlen == 0
  {
    ret := protocol.Clear();
    if ret != 0 {
      return;
    }
    ret := host.Clear();
    if ret != 0 {
      return;
    }
    ret := path.Clear();
  }

  /** `extract_url_params`, filling three caller-owned strings. Each is cleared first, and a
      string without a buffer is refused with `-EINVAL`. */
  method ExtractUrlParams(url: String, protocol: SfsString, host: SfsString, path: SfsString,
                          policy: ExtractPolicy) returns (ret: int)
    requires protocol.Valid() && host.Valid() && path.Valid()
    requires protocol != host && protocol != path && host != path
    requires protocol.data != host.data && protocol.data != path.data && host.data != path.data
    modifies protocol, protocol.data, host, host.data, path, path.data
    ensures protocol.Valid() && host.Valid() && path.Valid()
    ensures protocol.data == old(protocol.data) || fresh(protocol.data)
    ensures host.data == old(host.data) || fresh(host.data)
    ensures path.data == old(path.data) || fresh(path.data)
    ensures protocol.data != host.data && protocol.data != path.data && host.data != path.data
    ensures old(protocol.memlen) == 0 || old(host.memlen) == 0 || old(path.memlen) == 0 ==> ret == EINVAL
    ensures old(protocol.memlen) > 0 && old(host.memlen) > 0 && old(path.memlen) > 0 ==>
              && ret == 0
              && protocol.Text() == SplitUrl(url, policy).protocol
              && host.Text() == SplitUrl(url, policy).host
              && path.Text() == SplitUrl(url, policy).path
  {
    ret := ClearUrlParts(protocol, host, path);
    if ret != 0 {
      return;
    }
    var pos := CopyProtocol(url, protocol);
    CopyHostPath(url, pos, host, path, policy);
    MakePathAbsolute(path);
  }

  // ---------------------------------------------------------------------------------
  // extract_link_href

  predicate IsQuote(c: char)
  {
    c == '\'' || c == '"'
  }

  /** Where the value after `href =` starts, past any whitespace: a quote ends the value at
      the matching quote, anything else at a space; either way '>' ends it too. An immediate
      '>' or the end of the text means there is no value. */
  function HrefValueStart(text: String, e: nat): (r: Option<(nat, char)>)
    requires e <= |text|
    ensures r.Some? ==> e <= r.value.0 < |text| && text[r.value.0] != '>' && !IsSpace(text[r.value.0])
    ensures r.Some? ==> forall k :: e <= k < r.value.0 ==> IsSpace(text[k])
    ensures r.Some? ==> r.value.1 == (if IsQuote(text[r.value.0]) then text[r.value.0] else ' ')
    ensures r.None? <==> SkipSpaces(text, e) == |text| || text[SkipSpaces(text, e)] == '>'
  {
    var p := SkipSpaces(text, e);
    if p == |text| || text[p] == '>' then None
    else Some((p, if IsQuote(text[p]) then text[p] else ' '))
  }

  /** The raw value of the first `href =` of the text: from its first character up to the
      first '>' or terminator after that character. */
  function HrefSpan(text: String): (r: Option<(nat, nat)>)
    ensures r.Some? ==> r.value.0 < r.value.1 < |text|
    ensures r.Some? ==> forall k :: r.value.0 <= k < r.value.1 ==> text[k] != '>'
  {
    match SpacedSearch(text, 0, HREF_PATTERNS)
    case NoMatch => None
    case Found(_, e) => HrefValueSpan(text, e)
  }

  /** The value span after `href =` ends at `e`: from its first character to the matching
      terminator or '>'. */
  function HrefValueSpan(text: String, e: nat): (r: Option<(nat, nat)>)
    requires e <= |text|
    ensures r.Some? ==> e <= r.value.0 < r.value.1 < |text|
    ensures r.Some? ==> forall k :: r.value.0 <= k < r.value.1 ==> text[k] != '>'
    ensures r.Some? ==> HrefValueStart(text, e).Some? && r.value.0 == HrefValueStart(text, e).value.0
    ensures r.Some? ==> text[r.value.1] == '>' || text[r.value.1] == HrefValueStart(text, e).value.1
    ensures r.Some? ==> forall k :: r.value.0 < k < r.value.1 ==> text[k] != HrefValueStart(text, e).value.1
    ensures r.None? <==> || HrefValueStart(text, e).None?
                         || forall k :: HrefValueStart(text, e).value.0 < k < |text| ==>
                                          text[k] != '>' && text[k] != HrefValueStart(text, e).value.1
  {
    match HrefValueStart(text, e)
    case None => None
    case Some(v) =>
      match FirstAnyOf(text, ['>', v.1], v.0 + 1)
      case None => None
      case Some(q) => Some((v.0, q))
  }

  /** `extract_link_href`: the raw value trimmed of spaces and quotes. */
  function HrefOf(text: String): (r: String)
  {
    match HrefSpan(text)
    case None => []
    case Some(span) => Trimmed(text[span.0..span.1], HREF_TRIM_CHARS)
  }

  /** The text holds "href" at `k`, then optional whitespace and '='. */
  ghost predicate HrefMatchAt(text: String, k: nat)
  {
    k + 4 <= |text| && OccursAt(text, "href", k) && OccursAt(text, "=", SkipSpaces(text, k + 4))
  }

  /** The first `href =` at or after `from`: where "href" starts and where the '=' ends. */
  ghost function FirstHrefMatch(text: String, from: nat): (r: Option<(nat, nat)>)
    requires from <= |text|
    ensures r.Some? ==> && from <= r.value.0 && HrefMatchAt(text, r.value.0)
                        && r.value.1 == SkipSpaces(text, r.value.0 + 4) + 1 <= |text|
    decreases |text| - from
  {
    if HrefMatchAt(text, from) then Some((from, SkipSpaces(text, from + 4) + 1))
    else if from == |text| then None
    else FirstHrefMatch(text, from + 1)
  }

  /** The match found is the first one, and none is found only when there is none. */
  lemma {:induction false} FirstHrefMatchIsFirst(text: String, from: nat)
    requires from <= |text|
    ensures FirstHrefMatch(text, from).Some? ==>
              forall j :: from <= j < FirstHrefMatch(text, from).value.0 ==> !HrefMatchAt(text, j)
    ensures FirstHrefMatch(text, from).None? ==> forall j :: from <= j <= |text| ==> !HrefMatchAt(text, j)
    decreases |text| - from
  {
    if !HrefMatchAt(text, from) && from < |text| {
      FirstHrefMatchIsFirst(text, from + 1);
      assert FirstHrefMatch(text, from) == FirstHrefMatch(text, from + 1);
    }
  }

  /** Positions without a match can be stepped over. */
  lemma {:induction false} FirstHrefSkip(text: String, from: nat, k: nat)
    requires from <= k <= |text|
    requires forall j :: from <= j < k ==> !HrefMatchAt(text, j)
    ensures FirstHrefMatch(text, from) == FirstHrefMatch(text, k)
    decreases k - from
  {
    if from < k {
      FirstHrefSkip(text, from + 1, k);
    }
  }

  /** One attempt with the patterns of `extract_link_href` from the "href" at `k`: a hit
      when an '=' follows after whitespace, otherwise a retry at that whitespace's end. */
  lemma HrefAttempt(text: String, from: nat, k: nat)
    requires from <= |text| && IndexOf(text, "href", from) == Some(k)
    ensures var j := SkipSpaces(text, k + 4);
            AttemptAt(text, from, HREF_PATTERNS) == if OccursAt(text, "=", j) then Hit(k, j + 1) else Retry(j)
  {
    assert HREF_PATTERNS[0] == "href" && HREF_PATTERNS[1] == "=";
    var j := SkipSpaces(text, k + 4);
    if OccursAt(text, "=", j) {
      assert MatchTail(text, j + 1, HREF_PATTERNS, 2) == Matched(j + 1);
    }
  }

  /** No `href =` starts inside "href" or the whitespace after it, and none at `k` itself
      when no '=' follows. */
  lemma NoHrefBefore(text: String, k: nat)
    requires OccursAt(text, "href", k) && !OccursAt(text, "=", SkipSpaces(text, k + 4))
    ensures forall i :: k <= i < SkipSpaces(text, k + 4) ==> !HrefMatchAt(text, i)
  {
    var j := SkipSpaces(text, k + 4);
    assert text[k..k + 4] == "href";
    forall i | k < i < j
      ensures !OccursAt(text, "href", i)
    {
      if i < k + 4 {
        assert text[i] == text[k..k + 4][i - k];
      }
      Mismatch(text, "href", i, 0);
    }
  }

  /** With the patterns of `extract_link_href`, `find_spaced_patterns` finds the first
      `href =` of the text: a failed attempt resumes only past "href" and the whitespace
      after it, where no other "href" can start. */
  lemma {:induction false} SpacedSearchFindsFirstHref(text: String, from: nat)
    requires from <= |text|
    ensures SpacedSearch(text, from, HREF_PATTERNS)
         == match FirstHrefMatch(text, from)
            case None => NoMatch
            case Some(m) => Found(m.0, m.1)
    decreases |text| - from
  {
    IndexOfFirst(text, "href", from);
    match IndexOf(text, "href", from)
    case None =>
      FirstHrefSkip(text, from, |text|);
    case Some(k) =>
      FirstHrefSkip(text, from, k);
      HrefAttempt(text, from, k);
      var j := SkipSpaces(text, k + 4);
      if !OccursAt(text, "=", j) {
        NoHrefBefore(text, k);
        FirstHrefSkip(text, k, j);
        SpacedSearchFindsFirstHref(text, j);
      }
  }

  /** The raw value is read after the first `href =` of the text, or there is none. */
  lemma HrefSpanFirstMatch(text: String)
    ensures HrefSpan(text) == match FirstHrefMatch(text, 0)
                              case None => None
                              case Some(m) => HrefValueSpan(text, m.1)
  {
    SpacedSearchFindsFirstHref(text, 0);
  }

  /** Trimming a text without '>' leaves one without '>', which neither begins nor ends
      with a space or a quote. */
  lemma TrimmedKeepsNoGt(raw: String)
    requires forall k :: 0 <= k < |raw| ==> raw[k] != '>'
    ensures '>' !in Trimmed(raw, HREF_TRIM_CHARS)
    ensures Trimmed(raw, HREF_TRIM_CHARS) != [] ==>
              && Trimmed(raw, HREF_TRIM_CHARS)[0] !in HREF_TRIM_CHARS
              && Trimmed(raw, HREF_TRIM_CHARS)[|Trimmed(raw, HREF_TRIM_CHARS)| - 1] !in HREF_TRIM_CHARS
  {
    assert CHAR_01 !in HREF_TRIM_CHARS;
    var r := Trimmed(raw, HREF_TRIM_CHARS);
    var a := TrimmedInfix(raw, HREF_TRIM_CHARS);
    forall i | 0 <= i < |r|
      ensures r[i] != '>'
    {
      assert r[i] == raw[a + i];
    }
  }

  /** The link's URL never holds a '>' and neither begins nor ends with a space or a quote. */
  lemma HrefOfShape(text: String)
    ensures var h := HrefOf(text);
            && '>' !in h
            && (h != [] ==> h[0] !in HREF_TRIM_CHARS && h[|h| - 1] !in HREF_TRIM_CHARS)
  {
    match HrefSpan(text)
    case None =>
    case Some(span) =>
      TrimmedSpanShape(text, span.0, span.1);
  }

  /** The trimmed text between `a` and `b`, where no '>' occurs, keeps that shape. */
  lemma TrimmedSpanShape(text: String, a: nat, b: nat)
    requires a <= b <= |text|
    requires forall k :: a <= k < b ==> text[k] != '>'
    ensures var h := Trimmed(text[a..b], HREF_TRIM_CHARS);
            && '>' !in h
            && (h != [] ==> h[0] !in HREF_TRIM_CHARS && h[|h| - 1] !in HREF_TRIM_CHARS)
  {
    var raw := text[a..b];
    forall k | 0 <= k < |raw|
      ensures raw[k] != '>'
    {
      assert raw[k] == text[a + k];
    }
    TrimmedKeepsNoGt(raw);
  }

  /** The value scan of `extract_link_href`: whitespace is skipped, then the first other
      character decides the terminator. */
  method ScanHrefValue(text: String, e: nat) returns (v: Option<(nat, char)>)
    requires e <= |text|
    ensures v == HrefValueStart(text, e)
  {
    var p := e;
    while p < |text|
      invariant e <= p <= |text|
      invariant SkipSpaces(text, p) == SkipSpaces(text, e)
    {
      if text[p] == '>' {
        return None;
      }
      if text[p] == '\'' {
        return Some((p, text[p]));
      }
      if text[p] == '"' {
        return Some((p, text[p]));
      }
      if IsSpace(text[p]) {
        p := p + 1;
        continue;
      }
      return Some((p, ' '));
    }
    return None;
  }

  /** The search part of `extract_link_href`: `href`, `=`, the value's first character and
      its terminator. */
  method FindHrefSpan(text: String) returns (span: Option<(nat, nat)>)
    ensures span == HrefSpan(text)
  {
    var m := FindSpacedPatterns(text, 0, HREF_PATTERNS);
    if m.NoMatch? {
      return None;
    }
    span := FindHrefValueSpan(text, m.end);
  }

  /** The value part of `extract_link_href`, from the end `e` of `href =`. */
  method FindHrefValueSpan(text: String, e: nat) returns (span: Option<(nat, nat)>)
    requires e <= |text|
    ensures span == HrefValueSpan(text, e)
  {
    var v := ScanHrefValue(text, e);
    if v.None? {
      return None;
    }
    var end := FindAnyOf(text, ['>', v.value.1], v.value.0 + 1);
    if end.None? {
      return None;
    }
    return Some((v.value.0, end.value));
  }

  /** `extract_link_href` into a caller-owned string, which is cleared first (`-EINVAL` when
      it has no buffer). */
  method ExtractLinkHref(text: String, href: SfsString) returns (ret: int)
    requires href.Valid()
    modifies href, href.data
    ensures href.Valid() && (href.data == old(href.data) || fresh(href.data))
    ensures old(href.memlen) == 0 ==> ret == EINVAL
    ensures old(href.memlen) > 0 ==> ret == 0 && href.Text() == HrefOf(text)
  {
    ret := href.Clear();
    if ret != 0 {
      return;
    }
    var span := FindHrefSpan(text);
    if span.None? {
      return;
    }
    var start, end := span.value.0, span.value.1;
    ghost var raw := text[start..end];
    ret := href.Ncat(text[start..end], end - start);
    assert href.Text() == raw;
    Trim(href, HREF_TRIM_CHARS);
    assert href.Text() == Trimmed(raw, HREF_TRIM_CHARS);
  }

  // ---------------------------------------------------------------------------------
  // extract_link_title

  /** The raw title: from just past the first '>' of the text to the first `< /a >` after it. */
  function TitleSpan(text: String): (r: Option<(nat, nat)>)
    ensures r.Some? ==> 0 < r.value.0 <= r.value.1 < |text|
  {
    match IndexOf(text, ">", 0)
    case None => None
    case Some(g) =>
      match SpacedSearch(text, g + 1, END_A_TAG_PATTERNS)
      case NoMatch => None
      case Found(st, _) => Some((g + 1, st))
  }

  /** `extract_link_title`: the text of the raw title, or nothing. */
  function TitleOf(text: String): (r: String)
  {
    match TitleSpan(text)
    case None => []
    case Some(span) => text[span.0..span.1]
  }

  /** The raw title sits right after the first '>' of the text and ends where the first
      closing `a` tag after it starts (the tokens "<", "/a", ">" with whitespace between
      them): one starts at its end, and none starts inside it. */
  lemma TitleSpanSound(text: String, start: nat, end: nat) returns (gaps: seq<nat>, close: nat)
    requires TitleSpan(text) == Some((start, end))
    ensures text[start - 1] == '>' && forall k :: 0 <= k < start - 1 ==> text[k] != '>'
    ensures end <= close <= |text| && SpacedTokens(text[end..close], END_A_TAG_PATTERNS, gaps)
    ensures SpacedMatchAt(text, END_A_TAG_PATTERNS, end)
    ensures forall k :: start <= k < end ==> !SpacedMatchAt(text, END_A_TAG_PATTERNS, k)
  {
    var g := start - 1;
    assert IndexOf(text, ">", 0) == Some(g);
    IndexOfFirst(text, ">", 0);
    assert text[g] == text[g..g + 1][0];
    forall k | 0 <= k < g
      ensures text[k] != '>'
    {
      assert !OccursAt(text, ">", k);
      assert text[k..k + 1][0] == text[k];
    }
    var m := SpacedSearch(text, start, END_A_TAG_PATTERNS);
    assert m.start == end;
    close := m.end;
    gaps := SpacedSearchSound(text, start, END_A_TAG_PATTERNS, end, close);
    TitleSpanFirstClose(text, g);
    FirstSpacedMatchIsFirst(text, start, END_A_TAG_PATTERNS);
  }

  /** "<" is the lead of the closing `a` tag: "/a" and ">" do not contain it, and neither
      starts with whitespace. */
  lemma EndATagPatterns()
    ensures LeadIsUnique(END_A_TAG_PATTERNS) && TailsStartNonBlank(END_A_TAG_PATTERNS)
  {
    assert END_A_TAG_PATTERNS[1] == "/a" && END_A_TAG_PATTERNS[2] == ">";
  }

  /** After the first '>' of the text, at `g`, the title ends where the first full
      closing `a` tag from `g + 1` on starts, and there is none without such a tag. */
  lemma TitleSpanFirstClose(text: String, g: nat)
    requires IndexOf(text, ">", 0) == Some(g)
    ensures var start: nat := g + 1;
            var m := FirstSpacedMatch(text, start, END_A_TAG_PATTERNS);
            TitleSpan(text) == if m.NoMatch? then None else Some((start, m.start))
  {
    EndATagPatterns();
    SpacedSearchFindsFirst(text, g + 1, END_A_TAG_PATTERNS);
  }

  /** A text without '>' has no title. */
  lemma TitleSpanNeedsGt(text: String)
    requires forall k :: 0 <= k < |text| ==> text[k] != '>'
    ensures TitleSpan(text).None?
  {
    if IndexOf(text, ">", 0).Some? {
      OccursAtChar(text, '>', IndexOf(text, ">", 0).value);
    }
  }

  /** A '>' followed later by a full closing `a` tag always gives a title, which ends no
      later than that tag. */
  lemma TitleSpanComplete(text: String, g: nat, k: nat)
    requires g < k <= |text| && text[g] == '>' && SpacedMatchAt(text, END_A_TAG_PATTERNS, k)
    ensures TitleSpan(text).Some? && TitleSpan(text).value.1 <= k
  {
    IndexOfFirst(text, ">", 0);
    OccursAtChar(text, '>', g);
    var g0 := IndexOf(text, ">", 0).value;
    TitleSpanFirstClose(text, g0);
    FirstSpacedMatchIsFirst(text, g0 + 1, END_A_TAG_PATTERNS);
  }

  /** The search part of `extract_link_title`. */
  method FindTitleSpan(text: String) returns (span: Option<(nat, nat)>)
    ensures span == TitleSpan(text)
  {
    var gt := IndexOf(text, ">", 0);
    if gt.None? {
      return None;
    }
    var m := FindSpacedPatterns(text, gt.value + 1, END_A_TAG_PATTERNS);
    if m.NoMatch? {
      return None;
    }
    return Some((gt.value + 1, m.start));
  }

  /** `extract_link_title` into a caller-owned string, which is cleared first (`-EINVAL`
      when it has no buffer). */
  method ExtractLinkTitle(text: String, title: SfsString) returns (ret: int)
    requires title.Valid()
    modifies title, title.data
    ensures title.Valid() && (title.data == old(title.data) || fresh(title.data))
    ensures old(title.memlen) == 0 ==> ret == EINVAL
    ensures old(title.memlen) > 0 ==> ret == 0 && title.Text() == TitleOf(text)
  {
    ret := title.Clear();
    if ret != 0 {
      return;
    }
    var span := FindTitleSpan(text);
    if span.None? {
      return;
    }
    var start, end := span.value.0, span.value.1;
    var _ := title.Ncat(text[start..end], end - start);
    assert title.Text() == text[start..end];
  }

  // ---------------------------------------------------------------------------------
  // extract_html_block

  /** `extract_html_block`: from `pos` on, the first opening tag `< tag` and the first closing
      tag `< / tag >` after it; the block runs from the first to the end of the second
      (`HtmlBlockFirst` shows the two searches find those first tags). */
  function HtmlBlock(text: String, pos: nat, tag: String): (r: SpacedMatch)
    requires pos <= |text|
    ensures r.Found? ==> pos <= r.start < r.end <= |text|
  {
    match SpacedSearch(text, pos, OpenTagPatterns(tag))
    case NoMatch => NoMatch
    case Found(bs, e) =>
      match SpacedSearch(text, e, CloseTagPatterns(tag))
      case NoMatch => NoMatch
      case Found(_, be) => Found(bs, be)
  }

  /** A block opens with `<`, whitespace and the tag name, and ends with a closing tag of
      that name; the closing tag starts after the opening one ends. */
  lemma HtmlBlockSound(text: String, pos: nat, tag: String, start: nat, end: nat)
    returns (openEnd: nat, closeStart: nat, openGaps: seq<nat>, closeGaps: seq<nat>)
    requires pos <= |text| && HtmlBlock(text, pos, tag) == Found(start, end)
    ensures start <= openEnd <= closeStart <= end
    ensures SpacedTokens(text[start..openEnd], OpenTagPatterns(tag), openGaps)
    ensures SpacedTokens(text[closeStart..end], CloseTagPatterns(tag), closeGaps)
    ensures text[end - 1] == '>'
  {
    var m1 := SpacedSearch(text, pos, OpenTagPatterns(tag));
    openEnd := m1.end;
    openGaps := SpacedSearchSound(text, pos, OpenTagPatterns(tag), start, openEnd);
    var m2 := SpacedSearch(text, openEnd, CloseTagPatterns(tag));
    closeStart := m2.start;
    closeGaps := SpacedSearchSound(text, openEnd, CloseTagPatterns(tag), closeStart, end);
    assert text[end - 1] == text[end - 1..end][0];
  }

  /** For a tag name without '<' (the only caller passes "a"), the block runs from the
      first full opening tag at or after `pos` to the end of the first full closing tag
      that starts at or after the opening tag's end. */
  lemma HtmlBlockFirst(text: String, pos: nat, tag: String)
    requires pos <= |text| && '<' !in tag
    ensures HtmlBlock(text, pos, tag)
         == var o := FirstSpacedMatch(text, pos, OpenTagPatterns(tag));
            if o.NoMatch? then NoMatch
            else
              var c := FirstSpacedMatch(text, o.end, CloseTagPatterns(tag));
              if c.NoMatch? then NoMatch else Found(o.start, c.end)
  {
    assert LeadIsUnique(OpenTagPatterns(tag));
    assert CloseTagPatterns(tag)[1] == "/" && CloseTagPatterns(tag)[3] == ">";
    assert LeadIsUnique(CloseTagPatterns(tag));
    SpacedSearchFindsFirst(text, pos, OpenTagPatterns(tag));
    var o := FirstSpacedMatch(text, pos, OpenTagPatterns(tag));
    if o.Found? {
      SpacedSearchFindsFirst(text, o.end, CloseTagPatterns(tag));
    }
  }

  /** `extract_html_block` into a caller-owned string, which is cleared first (`-EINVAL` when
      it has no buffer); on success the scan position moves past the block. */
  method ExtractHtmlBlock(text: String, textpos: nat, tag: String, block: SfsString)
    returns (ret: int, newpos: nat)
    requires textpos <= |text| && block.Valid()
    modifies block, block.data
    ensures block.Valid() && block.memlen >= old(block.memlen)
    ensures block.data == old(block.data) || fresh(block.data)
    ensures old(block.memlen) == 0 ==> ret == EINVAL && newpos == textpos
    ensures old(block.memlen) > 0 ==> ret == 0
    ensures old(block.memlen) > 0 && HtmlBlock(text, textpos, tag).NoMatch? ==>
              block.Text() == [] && newpos == textpos
    ensures old(block.memlen) > 0 && HtmlBlock(text, textpos, tag).Found? ==>
              && block.Text() == text[HtmlBlock(text, textpos, tag).start..HtmlBlock(text, textpos, tag).end]
              && newpos == HtmlBlock(text, textpos, tag).end
  {
    newpos := textpos;
    ret := block.Clear();
    if ret != 0 {
      return;
    }
    var m1 := FindSpacedPatterns(text, textpos, OpenTagPatterns(tag));
    if m1.NoMatch? {
      return;
    }
    var m2 := FindSpacedPatterns(text, m1.end, CloseTagPatterns(tag));
    if m2.NoMatch? {
      return;
    }
    ret := block.Ncat(text[m1.start..m2.end], m2.end - m1.start);
    assert block.Text() == text[m1.start..m2.end];
    newpos := m2.end;
  }

  // ---------------------------------------------------------------------------------
  // extract_html_link_params

  /** The link `extract_html_link_params` leaves from a normalized title and a URL: without
      a title the link stays empty; without a URL only the title is set; otherwise the URL
      is split with `PreferPath`. */
  function LinkFrom(title: String, url: String): (l: HtmlLink)
  {
    if title == [] then HtmlLink([], [], [], [], [])
    else if url == [] then HtmlLink(title, [], [], [], [])
    else
      var u := SplitUrl(url, PreferPath);
      HtmlLink(title, u.protocol, u.host, u.path, url)
  }

  /** `extract_html_link_params` on an `<a>` block. */
  function LinkParams(text: String): (l: HtmlLink)
  {
    LinkFrom(NormalizedTitle(TitleOf(text)), HrefOf(text))
  }

  /** Nothing past the first missing part is set, the host holds no '/' and the path is
      empty or absolute. */
  lemma LinkFromShape(title: String, url: String)
    ensures LinkFrom(title, url).title == title
    ensures url != [] ==> LinkFrom(title, url).fullUrl in {[], url}
    ensures url == [] ==> LinkFrom(title, url).fullUrl == []
    ensures '/' !in LinkFrom(title, url).host
    ensures LinkFrom(title, url).path == [] || LinkFrom(title, url).path[0] == '/'
    ensures title == [] ==> LinkFrom(title, url) == HtmlLink([], [], [], [], [])
    ensures LinkFrom(title, url).fullUrl == [] ==>
              LinkFrom(title, url).protocol == [] && LinkFrom(title, url).host == [] && LinkFrom(title, url).path == []
  {
    SplitUrlShape(url, PreferPath);
  }

  /** What a parsed link looks like: a title fit to be a file name and neither beginning nor
      ending with a space; a URL without '>'; a host without '/', a path that is empty or
      absolute; and nothing past the first part that was missing. */
  lemma LinkParamsShape(text: String, l: HtmlLink)
    requires l == LinkParams(text)
    ensures forall k :: 0 <= k < |l.title| ==> TitleSafe(l.title[k])
    ensures l.title != [] ==> l.title[0] != ' ' && l.title[|l.title| - 1] != ' '
    ensures '>' !in l.fullUrl && '/' !in l.host && (l.path == [] || l.path[0] == '/')
    ensures l.title == [] ==> l == HtmlLink([], [], [], [], [])
    ensures l.fullUrl == [] ==> l.protocol == [] && l.host == [] && l.path == []
  {
    var title := NormalizedTitle(TitleOf(text));
    var url := HrefOf(text);
    NormalizedTitleSafe(TitleOf(text));
    assert CHAR_01 !in " ";
    HrefOfShape(text);
    LinkFromShape(title, url);
  }

  /** The title step of `extract_html_link_params`, in the link's 64-byte title string. */
  method ReadLinkTitle(text: String) returns (title: String)
    ensures title == NormalizedTitle(TitleOf(text))
  {
    var s := new SfsString.Createz(64);
    var _ := ExtractLinkTitle(text, s);
    NormalizeTitle(s);
    title := s.Text();
  }

  /** The URL step of `extract_html_link_params`, in the link's 64-byte `full_url` string. */
  method ReadLinkHref(text: String) returns (url: String)
    ensures url == HrefOf(text)
  {
    var s := new SfsString.Createz(64);
    var _ := ExtractLinkHref(text, s);
    url := s.Text();
  }

  /** The split step of `extract_html_link_params`, in the link's protocol (16 bytes), host
      and path (64 bytes each) strings. */
  method ReadUrlParts(url: String) returns (u: UrlParts)
    ensures u == SplitUrl(url, PreferPath)
  {
    var protocol := new SfsString.Createz(16);
    var host := new SfsString.Createz(64);
    var path := new SfsString.Createz(64);
    var _ := ExtractUrlParams(url, protocol, host, path, PreferPath);
    u := UrlParts(protocol.Text(), host.Text(), path.Text());
  }

  /** `SURFFS_HTML_LINK_alloc` followed by `extract_html_link_params`, as `make_html_links`
      calls them: the link's strings are created empty and filled from the `<a>` block
      `text`; the link is what they hold at the end. */
  method ExtractHtmlLinkParams(text: String) returns (ret: int, link: HtmlLink)
    ensures ret == 0 && link == LinkParams(text)
  {
    ret := 0;
    var title := ReadLinkTitle(text);
    if |title| == 0 {
      return 0, HtmlLink([], [], [], [], []);
    }
    var url := ReadLinkHref(text);
    if |url| == 0 {
      return 0, HtmlLink(title, [], [], [], []);
    }
    var u := ReadUrlParts(url);
    link := HtmlLink(title, u.protocol, u.host, u.path, url);
  }
}
