/** The two helpers of `AuthManager` that pull credentials out of a curl
    command line copied from a browser. Each is a regular-expression search;
    the model spells out, for the one pattern each uses, where Python's `re`
    finds the leftmost match and what group it captures. */
module Curl {
  import opened Wrappers
  import opened Text

  // ---------------------------------------------------------------------
  // Regular-expression search
  // ---------------------------------------------------------------------

  /** `re.search` tries the start positions `i`, `i + 1`, ..., `last` in turn
      and reports the first one where the pattern matches. */
  function LeftmostMatch(matchesAt: nat -> bool, i: nat, last: nat): (j: Option<nat>)
    requires i <= last
    ensures j.None? <==> forall k | i <= k <= last :: !matchesAt(k)
    ensures j.Some? ==> i <= j.value <= last && matchesAt(j.value)
    ensures j.Some? ==> forall k | i <= k < j.value :: !matchesAt(k)
    decreases last - i
  {
    if matchesAt(i) then Some(i)
    else if i == last then None
    else LeftmostMatch(matchesAt, i + 1, last)
  }

  // ---------------------------------------------------------------------
  // extract_access_token_from_curl:  -H\s+["']x-access-token:\s*([^"']+)["']
  // searched with re.IGNORECASE
  // ---------------------------------------------------------------------

  const TokenHeaderName: string := "x-access-token:"

  predicate IsQuote(c: char) {
    c == '"' || c == '\''
  }

  /** The case folding `re.IGNORECASE` applies, as far as the letters of
      this pattern are concerned: ASCII capitals fold to lower case, and the
      two non-ASCII characters Python folds onto ASCII letters, KELVIN SIGN
      and LATIN SMALL LETTER LONG S, fold to 'k' and 's'. */
  function FoldCase(c: char): (f: char)
    ensures 'A' <= c <= 'Z' ==> f == ToLower(c)
    ensures c == '\U{212A}' ==> f == 'k'
    ensures c == '\U{17F}' ==> f == 's'
    ensures !('A' <= c <= 'Z') && c != '\U{212A}' && c != '\U{17F}' ==> f == c
    ensures f != c ==> IsAsciiLetter(f)
  {
    if c == '\U{212A}' then 'k' else if c == '\U{17F}' then 's' else ToLower(c)
  }

  /** Whether `pattern` matches case-insensitively at index `k` of `s`. */
  predicate FoldedMatchAt(s: string, k: nat, pattern: string)
    decreases |s| - k
  {
    pattern == [] || (k < |s| && FoldCase(s[k]) == pattern[0] && FoldedMatchAt(s, k + 1, pattern[1..]))
  }

  /** The first index at or after `from` that is not whitespace, or `|s|`:
      where a greedy `\s*` or `\s+` stops. */
  function SkipSpaces(s: string, from: nat): (k: nat)
    requires from <= |s|
    ensures from <= k <= |s|
    ensures forall i | from <= i < k :: IsSpace(s[i])
    ensures k == |s| || !IsSpace(s[k])
    decreases |s| - from
  {
    if from < |s| && IsSpace(s[from]) then SkipSpaces(s, from + 1) else from
  }

  /** The first quote at or after `from`, or `|s|`: where `[^"']+` stops. */
  function FindQuote(s: string, from: nat): (k: nat)
    requires from <= |s|
    ensures from <= k <= |s|
    ensures forall i | from <= i < k :: !IsQuote(s[i])
    ensures k == |s| || IsQuote(s[k])
    decreases |s| - from
  {
    if from < |s| && !IsQuote(s[from]) then FindQuote(s, from + 1) else from
  }

  /** Where the header value begins when `-H`, whitespace, a quote and the
      header name match from index `i` on. */
  function TokenValueStart(s: string, i: nat): (p: Option<nat>)
    requires i <= |s|
    ensures p.Some? ==> i + 4 + |TokenHeaderName| <= p.value <= |s|
  {
    if i + 2 > |s| || s[i] != '-' || FoldCase(s[i + 1]) != 'h' then None
    else
      var k := SkipSpaces(s, i + 2);
      if k == i + 2 || k + 1 + |TokenHeaderName| > |s| || !IsQuote(s[k]) then None
      else if !FoldedMatchAt(s, k + 1, TokenHeaderName) then None
      else Some(k + 1 + |TokenHeaderName|)
  }

  /** The pattern matches at `i`. Once the header name has matched, `\s*`
      and `[^"']+` together need at least one character before the next
      quote, and a quote to close; backtracking `\s*` lets the group be a
      single whitespace character when nothing else comes before the quote. */
  predicate TokenMatchAt(s: string, i: nat)
    requires i <= |s|
  {
    var p := TokenValueStart(s, i);
    p.Some? && p.value < FindQuote(s, p.value) < |s|
  }

  /** The stripped group of a match at `i`: whitespace before the group is
      exactly what `\s*` took, so stripping the whole span from the end of
      the header name to the closing quote gives the stripped group. */
  function TokenValueAt(s: string, i: nat): string
    requires i <= |s| && TokenMatchAt(s, i)
  {
    Strip(TokenSpanAt(s, i))
  }

  /** The text of a match at `i` between the header name and the closing quote. */
  function TokenSpanAt(s: string, i: nat): string
    requires i <= |s| && TokenMatchAt(s, i)
  {
    var p := TokenValueStart(s, i).value;
    s[p..FindQuote(s, p)]
  }

  /** `TokenMatchAt` as the predicate `LeftmostMatch` searches with. */
  function TokenMatcher(s: string): nat -> bool {
    (k: nat) => k <= |s| && TokenMatchAt(s, k)
  }

  lemma TokenMatcherAgrees(s: string)
    ensures forall k: nat | k <= |s| :: TokenMatcher(s)(k) == TokenMatchAt(s, k)
  {
  }

  /** The leftmost index at or after `i` where the pattern matches: the
      start `re.search` reports. */
  function FirstTokenMatch(s: string, i: nat): (j: Option<nat>)
    requires i <= |s|
    ensures j.None? <==> forall k | i <= k <= |s| :: !TokenMatchAt(s, k)
    ensures j.Some? ==> i <= j.value <= |s| && TokenMatchAt(s, j.value)
    ensures j.Some? ==> forall k | i <= k < j.value :: !TokenMatchAt(s, k)
  {
    TokenMatcherAgrees(s);
    LeftmostMatch(TokenMatcher(s), i, |s|)
  }

  /** `extract_access_token_from_curl`: the stripped group of the leftmost
      match, or `None` when the pattern matches nowhere. A token found holds
      no quote and has no whitespace at either end. */
  function ExtractAccessTokenFromCurl(curlCommand: string): (r: Option<string>)
    ensures r.Some? ==>
      && (forall i | 0 <= i < |r.value| :: !IsQuote(r.value[i]))
      && (r.value == [] || (!IsSpace(r.value[0]) && !IsSpace(r.value[|r.value| - 1])))
  {
    var j :- FirstTokenMatch(curlCommand, 0);
    TokenValueIsClean(curlCommand, j);
    Some(TokenValueAt(curlCommand, j))
  }

  /** A token is found exactly when the pattern matches somewhere, and it is
      the value of the leftmost match. */
  lemma AccessTokenFoundIff(curlCommand: string)
    ensures ExtractAccessTokenFromCurl(curlCommand).None?
      <==> forall k | 0 <= k <= |curlCommand| :: !TokenMatchAt(curlCommand, k)
    ensures ExtractAccessTokenFromCurl(curlCommand).Some? ==>
      exists j | 0 <= j <= |curlCommand| ::
        && TokenMatchAt(curlCommand, j)
        && (forall k | 0 <= k < j :: !TokenMatchAt(curlCommand, k))
        && ExtractAccessTokenFromCurl(curlCommand).value == TokenValueAt(curlCommand, j)
  {
    var j := FirstTokenMatch(curlCommand, 0);
    if j.Some? {
      assert TokenMatchAt(curlCommand, j.value);
    }
  }

  /** Stripping a quote-free stretch of `s` gives quote-free text with no
      whitespace at either end. */
  lemma StripOfQuoteFreeSpan(s: string, p: nat, q: nat)
    requires p <= q <= |s|
    requires forall i | p <= i < q :: !IsQuote(s[i])
    ensures var v := Strip(s[p..q]);
      && (forall i | 0 <= i < |v| :: !IsQuote(v[i]))
      && (v == [] || (!IsSpace(v[0]) && !IsSpace(v[|v| - 1])))
  {
    var span := s[p..q];
    forall i | 0 <= i < |span| ensures !IsQuote(span[i]) {
      assert span[i] == s[p + i];
    }
    StripOfQuoteFree(span);
  }

  /** Stripping quote-free text keeps it quote-free and trims both ends. */
  lemma StripOfQuoteFree(span: string)
    requires forall i | 0 <= i < |span| :: !IsQuote(span[i])
    ensures var v := Strip(span);
      && (forall i | 0 <= i < |v| :: !IsQuote(v[i]))
      && (v == [] || (!IsSpace(v[0]) && !IsSpace(v[|v| - 1])))
  {
    var v := Strip(span);
    StripIsSurroundingWhitespace(span);
    var lo: nat :| SurroundedByWhitespace(span, v, lo);
    forall i | 0 <= i < |v| ensures !IsQuote(v[i]) {
      assert v[i] == span[lo + i];
    }
  }

  /** The value of a match holds no quote and has no whitespace at either end. */
  lemma TokenValueIsClean(s: string, j: nat)
    requires j <= |s| && TokenMatchAt(s, j)
    ensures var v := TokenValueAt(s, j);
      && (forall i | 0 <= i < |v| :: !IsQuote(v[i]))
      && (v == [] || (!IsSpace(v[0]) && !IsSpace(v[|v| - 1])))
  {
    var p := TokenValueStart(s, j).value;
    StripOfQuoteFreeSpan(s, p, FindQuote(s, p));
  }

  // ---------------------------------------------------------------------
  // extract_session_from_curl:  session=([^;]+)   (case-sensitive search)
  // ---------------------------------------------------------------------

  const SessionKey: string := "session="

  /** The first `;` at or after `from`, or `|s|`: where `[^;]+` stops. */
  function FindSemicolon(s: string, from: nat): (k: nat)
    requires from <= |s|
    ensures from <= k <= |s|
    ensures forall i | from <= i < k :: s[i] != ';'
    ensures k == |s| || s[k] == ';'
    decreases |s| - from
  {
    if from < |s| && s[from] != ';' then FindSemicolon(s, from + 1) else from
  }

  /** `session=` occurs at `i` and is followed by at least one non-`;`. */
  predicate SessionMatchAt(s: string, i: nat)
    requires i <= |s|
  {
    i + |SessionKey| < |s| && s[i..i + |SessionKey|] == SessionKey && s[i + |SessionKey|] != ';'
  }

  /** The stripped group of a match at `i`: everything up to the next `;`. */
  function SessionValueAt(s: string, i: nat): string
    requires i <= |s| && SessionMatchAt(s, i)
  {
    Strip(SessionSpanAt(s, i))
  }

  /** The text of a match at `i` between `session=` and the next `;`. */
  function SessionSpanAt(s: string, i: nat): string
    requires i <= |s| && SessionMatchAt(s, i)
  {
    var p := i + |SessionKey|;
    s[p..FindSemicolon(s, p)]
  }

  /** `SessionMatchAt` as the predicate `LeftmostMatch` searches with. */
  function SessionMatcher(s: string): nat -> bool {
    (k: nat) => k <= |s| && SessionMatchAt(s, k)
  }

  lemma SessionMatcherAgrees(s: string)
    ensures forall k: nat | k <= |s| :: SessionMatcher(s)(k) == SessionMatchAt(s, k)
  {
  }

  /** The leftmost index at or after `i` where `session=([^;]+)` matches. */
  function FirstSessionMatch(s: string, i: nat): (j: Option<nat>)
    requires i <= |s|
    ensures j.None? <==> forall k | i <= k <= |s| :: !SessionMatchAt(s, k)
    ensures j.Some? ==> i <= j.value <= |s| && SessionMatchAt(s, j.value)
    ensures j.Some? ==> forall k | i <= k < j.value :: !SessionMatchAt(s, k)
  {
    SessionMatcherAgrees(s);
    LeftmostMatch(SessionMatcher(s), i, |s|)
  }

  /** `extract_session_from_curl`: the stripped group of the leftmost match,
      or `None`. A session found holds no `;` and has no whitespace at
      either end. */
  function ExtractSessionFromCurl(curlCommand: string): (r: Option<string>)
    ensures r.Some? ==>
      && (forall i | 0 <= i < |r.value| :: r.value[i] != ';')
      && (r.value == [] || (!IsSpace(r.value[0]) && !IsSpace(r.value[|r.value| - 1])))
  {
    var j :- FirstSessionMatch(curlCommand, 0);
    SessionValueIsClean(curlCommand, j);
    Some(SessionValueAt(curlCommand, j))
  }

  /** A session is found exactly when `session=` is followed by a non-`;`
      somewhere, and it is the value of the leftmost such place. */
  lemma SessionFoundIff(curlCommand: string)
    ensures ExtractSessionFromCurl(curlCommand).None?
      <==> forall k | 0 <= k <= |curlCommand| :: !SessionMatchAt(curlCommand, k)
    ensures ExtractSessionFromCurl(curlCommand).Some? ==>
      exists j | 0 <= j <= |curlCommand| ::
        && SessionMatchAt(curlCommand, j)
        && (forall k | 0 <= k < j :: !SessionMatchAt(curlCommand, k))
        && ExtractSessionFromCurl(curlCommand).value == SessionValueAt(curlCommand, j)
  {
    var j := FirstSessionMatch(curlCommand, 0);
    if j.Some? {
      assert SessionMatchAt(curlCommand, j.value);
    }
  }

  /** Stripping a `;`-free stretch of `s` gives `;`-free text with no
      whitespace at either end. */
  lemma StripOfSemicolonFreeSpan(s: string, p: nat, q: nat)
    requires p <= q <= |s|
    requires forall i | p <= i < q :: s[i] != ';'
    ensures var v := Strip(s[p..q]);
      && (forall i | 0 <= i < |v| :: v[i] != ';')
      && (v == [] || (!IsSpace(v[0]) && !IsSpace(v[|v| - 1])))
  {
    var span := s[p..q];
    forall i | 0 <= i < |span| ensures span[i] != ';' {
      assert span[i] == s[p + i];
    }
    StripOfSemicolonFree(span);
  }

  /** Stripping `;`-free text keeps it `;`-free and trims both ends. */
  lemma StripOfSemicolonFree(span: string)
    requires forall i | 0 <= i < |span| :: span[i] != ';'
    ensures var v := Strip(span);
      && (forall i | 0 <= i < |v| :: v[i] != ';')
      && (v == [] || (!IsSpace(v[0]) && !IsSpace(v[|v| - 1])))
  {
    var v := Strip(span);
    StripIsSurroundingWhitespace(span);
    var lo: nat :| SurroundedByWhitespace(span, v, lo);
    forall i | 0 <= i < |v| ensures v[i] != ';' {
      assert v[i] == span[lo + i];
    }
  }

  /** The value of a match holds no `;` and has no whitespace at either end. */
  lemma SessionValueIsClean(s: string, j: nat)
    requires j <= |s| && SessionMatchAt(s, j)
    ensures var v := SessionValueAt(s, j);
      && (forall i | 0 <= i < |v| :: v[i] != ';')
      && (v == [] || (!IsSpace(v[0]) && !IsSpace(v[|v| - 1])))
  {
    var p := j + |SessionKey|;
    StripOfSemicolonFreeSpan(s, p, FindSemicolon(s, p));
  }

  // ---------------------------------------------------------------------
  // The token pattern on a typical header option
  // ---------------------------------------------------------------------

  // Where the scanners stop, for a command laid out part by part.

  lemma SkipSpacesStopsAt(s: string, from: nat, to: nat)
    requires from <= to < |s|
    requires forall k | from <= k < to :: IsSpace(s[k])
    requires !IsSpace(s[to])
    ensures SkipSpaces(s, from) == to
  {
  }

  lemma FindQuoteStopsAt(s: string, from: nat, to: nat)
    requires from <= to < |s|
    requires forall k | from <= k < to :: !IsQuote(s[k])
    requires IsQuote(s[to])
    ensures FindQuote(s, from) == to
  {
  }

  lemma TokenValueStartAt(s: string, i: nat, g: nat)
    requires i + 2 < g && g + 1 + |TokenHeaderName| <= |s|
    requires s[i] == '-' && FoldCase(s[i + 1]) == 'h'
    requires SkipSpaces(s, i + 2) == g
    requires IsQuote(s[g])
    requires FoldedMatchAt(s, g + 1, TokenHeaderName)
    ensures TokenValueStart(s, i) == Some(g + 1 + |TokenHeaderName|)
  {
  }

  lemma TokenMatchWithValue(s: string, i: nat, p: nat, value: string)
    requires i <= |s| && p + |value| < |s| && value != []
    requires TokenValueStart(s, i) == Some(p)
    requires FindQuote(s, p) == p + |value| && s[p..p + |value|] == value
    ensures TokenMatchAt(s, i)
    ensures TokenSpanAt(s, i) == value
  {
  }

  lemma FirstTokenMatchIs(s: string, i: nat)
    requires i <= |s| && TokenMatchAt(s, i)
    requires forall k | 0 <= k < i :: !TokenMatchAt(s, k)
    ensures ExtractAccessTokenFromCurl(s) == Some(Strip(TokenSpanAt(s, i)))
  {
    assert FirstTokenMatch(s, 0) == Some(i);
  }

  lemma {:induction false} FoldedMatchInContext(name: string, s: string, off: nat, k: nat, pattern: string)
    requires off + |name| <= |s| && forall j | 0 <= j < |name| :: s[off + j] == name[j]
    requires k <= |name| && FoldedMatchAt(name, k, pattern)
    ensures FoldedMatchAt(s, off + k, pattern)
    decreases |name| - k
  {
    if pattern != [] {
      assert s[off + k] == name[k];
      FoldedMatchInContext(name, s, off, k + 1, pattern[1..]);
    }
  }

  /** A command line holding one header option, `-H`, whitespace, a quote,
      the header name (in any letter case), the value and a closing quote,
      with arbitrary text before and after. */
  function TokenHeaderCommand(prefix: string, gap: string, open: char, name: string, value: string, close: char, rest: string): string {
    prefix + "-H" + gap + [open] + name + value + [close] + rest
  }

  lemma GapLayout(prefix: string, gap: string, open: char, name: string, value: string, close: char, rest: string)
    ensures var s := TokenHeaderCommand(prefix, gap, open, name, value, close, rest);
      var lo := |prefix| + 2;
      && lo + |gap| < |s|
      && s[lo..lo + |gap|] == gap
      && s[lo + |gap|] == open
  {
  }

  lemma SkipSpacesOverGap(s: string, lo: nat, gap: string)
    requires lo + |gap| < |s| && s[lo..lo + |gap|] == gap
    requires AllSpace(gap) && !IsSpace(s[lo + |gap|])
    ensures SkipSpaces(s, lo) == lo + |gap|
  {
    forall k | lo <= k < lo + |gap| ensures IsSpace(s[k]) {
      assert s[lo..lo + |gap|][k - lo] == s[k];
    }
    SkipSpacesStopsAt(s, lo, lo + |gap|);
  }

  lemma NameStage(prefix: string, gap: string, open: char, name: string, value: string, close: char, rest: string)
    requires FoldedMatchAt(name, 0, TokenHeaderName)
    ensures FoldedMatchAt(TokenHeaderCommand(prefix, gap, open, name, value, close, rest), |prefix| + 2 + |gap| + 1, TokenHeaderName)
  {
    var s := TokenHeaderCommand(prefix, gap, open, name, value, close, rest);
    var lo := |prefix| + 2 + |gap| + 1;
    assert forall j | 0 <= j < |name| :: s[lo + j] == name[j];
    FoldedMatchInContext(name, s, lo, 0, TokenHeaderName);
  }

  lemma ValueStage(prefix: string, gap: string, open: char, name: string, value: string, close: char, rest: string, p: nat)
    requires p == |prefix| + 2 + |gap| + 1 + |name|
    requires (forall i | 0 <= i < |value| :: !IsQuote(value[i])) && IsQuote(close)
    ensures var s := TokenHeaderCommand(prefix, gap, open, name, value, close, rest);
      && p + |value| < |s|
      && FindQuote(s, p) == p + |value|
      && s[p..p + |value|] == value
  {
    var s := TokenHeaderCommand(prefix, gap, open, name, value, close, rest);
    assert forall k | p <= k < p + |value| :: s[k] == value[k - p];
    assert s[p + |value|] == close;
    FindQuoteStopsAt(s, p, p + |value|);
    assert s[p..p + |value|] == value;
  }

  lemma PrefixStage(prefix: string, gap: string, open: char, name: string, value: string, close: char, rest: string)
    requires forall i | 0 <= i < |prefix| :: prefix[i] != '-'
    ensures var s := TokenHeaderCommand(prefix, gap, open, name, value, close, rest);
      forall k | 0 <= k < |prefix| :: !TokenMatchAt(s, k)
  {
    var s := TokenHeaderCommand(prefix, gap, open, name, value, close, rest);
    assert forall k | 0 <= k < |prefix| :: s[k] == prefix[k];
  }

  lemma FlagStage(prefix: string, gap: string, open: char, name: string, value: string, close: char, rest: string)
    ensures var s := TokenHeaderCommand(prefix, gap, open, name, value, close, rest);
      var i := |prefix|;
      && i + 2 + |gap| + 1 + |name| + |value| < |s|
      && s[i] == '-' && s[i + 1] == 'H' && s[i + 2 + |gap|] == open
  {
  }

  predicate HeadFacts(s: string, i: nat, g: nat) {
    && i + 2 < g && g + 1 + |TokenHeaderName| <= |s|
    && s[i] == '-' && s[i + 1] == 'H' && IsQuote(s[g])
    && SkipSpaces(s, i + 2) == g
    && FoldedMatchAt(s, g + 1, TokenHeaderName)
  }

  predicate TailFacts(s: string, i: nat, p: nat, value: string) {
    && i <= |s| && p + |value| < |s|
    && FindQuote(s, p) == p + |value| && s[p..p + |value|] == value
    && forall k | 0 <= k < i :: !TokenMatchAt(s, k)
  }

  lemma ExtractsFromStages(s: string, i: nat, g: nat, p: nat, value: string)
    requires p == g + 1 + |TokenHeaderName|
    requires HeadFacts(s, i, g)
    requires TailFacts(s, i, p, value)
    requires value != []
    ensures ExtractAccessTokenFromCurl(s) == Some(Strip(value))
  {
    TokenValueStartAt(s, i, g);
    ExtractsFromValueStart(s, i, p, value);
  }

  lemma ExtractsFromValueStart(s: string, i: nat, p: nat, value: string)
    requires i <= |s| && p + |value| < |s|
    requires TokenValueStart(s, i) == Some(p)
    requires FindQuote(s, p) == p + |value| && s[p..p + |value|] == value
    requires value != []
    requires forall k | 0 <= k < i :: !TokenMatchAt(s, k)
    ensures ExtractAccessTokenFromCurl(s) == Some(Strip(value))
  {
    TokenMatchWithValue(s, i, p, value);
    FirstTokenMatchIs(s, i);
  }

  lemma HeadStages(prefix: string, gap: string, open: char, name: string, value: string, close: char, rest: string)
    requires gap != [] && AllSpace(gap)
    requires IsQuote(open)
    requires |name| == |TokenHeaderName| && FoldedMatchAt(name, 0, TokenHeaderName)
    ensures HeadFacts(TokenHeaderCommand(prefix, gap, open, name, value, close, rest), |prefix|, |prefix| + 2 + |gap|)
  {
    var s := TokenHeaderCommand(prefix, gap, open, name, value, close, rest);
    FlagStage(prefix, gap, open, name, value, close, rest);
    GapLayout(prefix, gap, open, name, value, close, rest);
    SkipSpacesOverGap(s, |prefix| + 2, gap);
    NameStage(prefix, gap, open, name, value, close, rest);
  }

  lemma TailStages(prefix: string, gap: string, open: char, name: string, value: string, close: char, rest: string)
    requires forall i | 0 <= i < |prefix| :: prefix[i] != '-'
    requires IsQuote(close)
    requires forall i | 0 <= i < |value| :: !IsQuote(value[i])
    ensures TailFacts(TokenHeaderCommand(prefix, gap, open, name, value, close, rest), |prefix|, |prefix| + 2 + |gap| + 1 + |name|, value)
  {
    ValueStage(prefix, gap, open, name, value, close, rest, |prefix| + 2 + |gap| + 1 + |name|);
    PrefixStage(prefix, gap, open, name, value, close, rest);
  }

  /** What the parts of `TokenHeaderCommand` must satisfy for the header to
      be the leftmost match: no `-` before it, some whitespace after `-H`,
      quotes around the header, the name matching case-insensitively, and a
      value with at least one character and no quote. */
  predicate HeaderParts(prefix: string, gap: string, open: char, name: string, value: string, close: char) {
    && (forall i | 0 <= i < |prefix| :: prefix[i] != '-')
    && gap != [] && AllSpace(gap)
    && IsQuote(open) && IsQuote(close)
    && |name| == |TokenHeaderName| && FoldedMatchAt(name, 0, TokenHeaderName)
    && value != [] && (forall i | 0 <= i < |value| :: !IsQuote(value[i]))
  }

  /** On such a command line the token is the header value, stripped. */
  lemma ExtractsHeaderValue(prefix: string, gap: string, open: char, name: string, value: string, close: char, rest: string)
    requires HeaderParts(prefix, gap, open, name, value, close)
    ensures ExtractAccessTokenFromCurl(TokenHeaderCommand(prefix, gap, open, name, value, close, rest)) == Some(Strip(value))
  {
    HeadStages(prefix, gap, open, name, value, close, rest);
    TailStages(prefix, gap, open, name, value, close, rest);
    ExtractsFromStages(TokenHeaderCommand(prefix, gap, open, name, value, close, rest), |prefix|, |prefix| + 2 + |gap|, |prefix| + 2 + |gap| + 1 + |name|, value);
  }

  /** A pattern that case folding leaves as it is matches itself. */
  lemma {:induction false} FoldedMatchOfItself(pattern: string, k: nat)
    requires k <= |pattern|
    requires forall i | 0 <= i < |pattern| :: FoldCase(pattern[i]) == pattern[i]
    ensures FoldedMatchAt(pattern, k, pattern[k..])
    decreases |pattern| - k
  {
    if k < |pattern| {
      assert pattern[k..][1..] == pattern[k + 1..];
      FoldedMatchOfItself(pattern, k + 1);
    }
  }

  /** An example command, `curl -H "x-access-token: ABC123"`, gives the
      token `ABC123`. The parts of the command are parameters pinned by the
      precondition: written as one literal, the command would make the
      verifier evaluate the scanner on it character by character. */
  lemma TokenExample(prefix: string, value: string)
    requires prefix == "curl " && value == "ABC123"
    ensures ExtractAccessTokenFromCurl(TokenHeaderCommand(prefix, " ", '"', TokenHeaderName, " " + value, '"', ""))
      == Some(value)
  {
    TokenExampleParts(prefix, value);
    ExtractsHeaderValue(prefix, " ", '"', TokenHeaderName, " " + value, '"', "");
    StripExample(value);
  }

  /** Each condition of `HeaderParts` on the example holds; every one is
      proved on its own, since the literal strings make a combined proof
      expensive. */
  lemma TokenExampleParts(prefix: string, value: string)
    requires prefix == "curl " && value == "ABC123"
    ensures HeaderParts(prefix, " ", '"', TokenHeaderName, " " + value, '"')
  {
    ExamplePrefixHasNoDash(prefix);
    ExampleGapIsSpace();
    ExampleNameMatches();
    ExampleValueHasNoQuote(value);
  }

  lemma ExamplePrefixHasNoDash(prefix: string)
    requires prefix == "curl "
    ensures forall i | 0 <= i < |prefix| :: prefix[i] != '-'
  {
  }

  lemma ExampleGapIsSpace()
    ensures " " != [] && AllSpace(" ")
  {
  }

  lemma ExampleNameMatches()
    ensures FoldedMatchAt(TokenHeaderName, 0, TokenHeaderName)
  {
    HeaderNameMatchesItself();
  }

  lemma ExampleValueHasNoQuote(value: string)
    requires value == "ABC123"
    ensures " " + value != [] && forall i | 0 <= i < |" " + value| :: !IsQuote((" " + value)[i])
  {
  }

  lemma StripExample(value: string)
    requires value == "ABC123"
    ensures Strip(" " + value) == value
  {
    StripOneLeadingSpace(value);
  }

  /** One leading space in front of trimmed text is all `Strip` removes. */
  lemma StripOneLeadingSpace(value: string)
    requires value != [] && !IsSpace(value[0]) && !IsSpace(value[|value| - 1])
    ensures Strip(" " + value) == value
  {
    assert " " + value == [' '] + value;
    StripDropsLeadingSpace(' ', value);
    StripOfTrimmed(value);
  }

  /** The header name as the pattern spells it matches the pattern. */
  lemma HeaderNameMatchesItself()
    ensures FoldedMatchAt(TokenHeaderName, 0, TokenHeaderName)
  {
    FoldedMatchOfItself(TokenHeaderName, 0);
    assert TokenHeaderName[0..] == TokenHeaderName;
  }

  // ---------------------------------------------------------------------
  // The session pattern on a typical cookie option
  // ---------------------------------------------------------------------

  /** A command line holding `session=` followed by the cookie value, with
      arbitrary text before it and, after it, nothing or a `;`. */
  function CookieLine(prefix: string, value: string, rest: string): string {
    prefix + SessionKey + value + rest
  }

  /** What the parts of `CookieLine` must satisfy for its `session=` to be
      the leftmost match: no `s` before it, and a value with at least one
      character and no `;`. */
  predicate CookieParts(prefix: string, value: string, rest: string) {
    && (forall i | 0 <= i < |prefix| :: prefix[i] != 's')
    && value != [] && (forall i | 0 <= i < |value| :: value[i] != ';')
    && (rest == [] || rest[0] == ';')
  }

  lemma CookieMatch(prefix: string, value: string, rest: string)
    requires value != [] && value[0] != ';'
    ensures SessionMatchAt(CookieLine(prefix, value, rest), |prefix|)
  {
    var s := CookieLine(prefix, value, rest);
    var p := |prefix| + |SessionKey|;
    assert s[|prefix|..p] == SessionKey;
    assert s[p] == value[0];
  }

  lemma CookieValue(prefix: string, value: string, rest: string, p: nat)
    requires p == |prefix| + |SessionKey|
    requires (forall i | 0 <= i < |value| :: value[i] != ';') && (rest == [] || rest[0] == ';')
    ensures var s := CookieLine(prefix, value, rest);
      && p + |value| <= |s|
      && FindSemicolon(s, p) == p + |value|
      && s[p..p + |value|] == value
  {
    var s := CookieLine(prefix, value, rest);
    assert forall k | p <= k < p + |value| :: s[k] == value[k - p];
    assert p + |value| == |s| || s[p + |value|] == ';';
    assert s[p..p + |value|] == value;
  }

  lemma CookiePrefix(prefix: string, value: string, rest: string)
    requires forall i | 0 <= i < |prefix| :: prefix[i] != 's'
    ensures forall k | 0 <= k < |prefix| :: !SessionMatchAt(CookieLine(prefix, value, rest), k)
  {
    var s := CookieLine(prefix, value, rest);
    assert forall k | 0 <= k < |prefix| :: s[k] == prefix[k];
    forall k | 0 <= k < |prefix| ensures !SessionMatchAt(s, k) {
      if k + |SessionKey| < |s| {
        assert s[k..k + |SessionKey|][0] == s[k];
      }
    }
  }

  lemma ExtractsFromCookieFacts(s: string, i: nat, value: string)
    requires i + |SessionKey| + |value| <= |s| && SessionMatchAt(s, i)
    requires FindSemicolon(s, i + |SessionKey|) == i + |SessionKey| + |value|
    requires s[i + |SessionKey|..i + |SessionKey| + |value|] == value
    requires forall k | 0 <= k < i :: !SessionMatchAt(s, k)
    ensures ExtractSessionFromCurl(s) == Some(Strip(value))
  {
    assert SessionSpanAt(s, i) == value;
    FirstSessionMatchIs(s, i);
  }

  lemma FirstSessionMatchIs(s: string, i: nat)
    requires i <= |s| && SessionMatchAt(s, i)
    requires forall k | 0 <= k < i :: !SessionMatchAt(s, k)
    ensures ExtractSessionFromCurl(s) == Some(Strip(SessionSpanAt(s, i)))
  {
    assert FirstSessionMatch(s, 0) == Some(i);
  }

  /** On such a command line the session is the cookie value, stripped. */
  lemma ExtractsCookieValue(prefix: string, value: string, rest: string)
    requires CookieParts(prefix, value, rest)
    ensures ExtractSessionFromCurl(CookieLine(prefix, value, rest)) == Some(Strip(value))
  {
    CookieMatch(prefix, value, rest);
    CookieValue(prefix, value, rest, |prefix| + |SessionKey|);
    CookiePrefix(prefix, value, rest);
    ExtractsFromCookieFacts(CookieLine(prefix, value, rest), |prefix|, value);
  }
}
