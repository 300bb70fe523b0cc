/** The validation and formatting helpers of `stakeapi/utils.py`: the API-key
    format check, the bet-limit check, the win-rate percentage, the game-name
    sanitiser and the currency display format. */
module Utils {
  import opened Wrappers
  import opened Text

  // ---------------------------------------------------------------------
  // validate_api_key
  // ---------------------------------------------------------------------

  const MinApiKeyLength: nat := 32
  const MaxApiKeyLength: nat := 64

  predicate AllAlnum(s: string) {
    forall i | 0 <= i < |s| :: IsAsciiAlnum(s[i])
  }

  /** What `re.match(r'^[a-zA-Z0-9]{32,64}$', key)` accepts: 32 to 64 ASCII
      letters and digits, then either the end of the string or one final
      newline, before which Python's `$` also matches. */
  ghost predicate MatchesKeyPattern(key: string) {
    exists n | MinApiKeyLength <= n <= MaxApiKeyLength && n <= |key| ::
      AllAlnum(key[..n]) && (n == |key| || (n == |key| - 1 && key[n] == '\n'))
  }

  /** Length of the run of ASCII letters and digits that opens `s`. */
  function AlnumRun(s: string): (n: nat)
    ensures n <= |s| && AllAlnum(s[..n])
    ensures n == |s| || !IsAsciiAlnum(s[n])
  {
    if s != [] && IsAsciiAlnum(s[0]) then 1 + AlnumRun(s[1..]) else 0
  }

  /** `validate_api_key`: `None` and the empty string are rejected up front;
      otherwise the greedy run of letters and digits must have an admissible
      length and be followed by nothing or by one final newline. */
  function ValidateApiKey(key: Option<string>): (ok: bool)
    ensures ok ==> key.Some? && MinApiKeyLength <= |key.value| <= MaxApiKeyLength + 1
    ensures key.Some? && AllAlnum(key.value)
      ==> (ok <==> MinApiKeyLength <= |key.value| <= MaxApiKeyLength)
  {
    match key
    case None => false
    case Some(s) =>
      if s == [] then false
      else
        var n := AlnumRun(s);
        MinApiKeyLength <= n <= MaxApiKeyLength && (n == |s| || (n == |s| - 1 && s[n] == '\n'))
  }

  /** The scan accepts exactly the keys the regular expression matches. */
  lemma ValidateApiKeyMatchesPattern(key: Option<string>)
    ensures ValidateApiKey(key) <==> key.Some? && MatchesKeyPattern(key.value)
  {
    if key.Some? {
      var s := key.value;
      var run := AlnumRun(s);
      if ValidateApiKey(key) {
        assert AllAlnum(s[..run]);
      }
      if MatchesKeyPattern(s) {
        var n :| MinApiKeyLength <= n <= MaxApiKeyLength && n <= |s|
          && AllAlnum(s[..n]) && (n == |s| || (n == |s| - 1 && s[n] == '\n'));
        assert forall i | 0 <= i < n :: s[..n][i] == s[i];
        assert run == n;
      }
    }
  }

  lemma {:induction false} AlnumRunOfAlnumPrefix(a: string, b: string)
    requires AllAlnum(a)
    requires b == [] || !IsAsciiAlnum(b[0])
    ensures AlnumRun(a + b) == |a|
    decreases |a|
  {
    if a != [] {
      assert (a + b)[0] == a[0];
      assert (a + b)[1..] == a[1..] + b;
      AlnumRunOfAlnumPrefix(a[1..], b);
    } else {
      assert a + b == b;
    }
  }

  /** Accepted and rejected keys: the cases of tests/test_utils.py, and
      beyond them a 65-character key and the trailing newline that Python's
      `$` lets through. */
  lemma ApiKeyExamples()
    ensures !ValidateApiKey(None)
    ensures !ValidateApiKey(Some(""))
    ensures ValidateApiKey(Some(seq(32, _ => 'a')))
    ensures !ValidateApiKey(Some(seq(16, _ => 'a')))
    ensures !ValidateApiKey(Some(seq(30, _ => 'a') + "!@"))
    ensures ValidateApiKey(Some(seq(32, _ => 'a') + "\n"))
    ensures !ValidateApiKey(Some(seq(65, _ => 'a')))
  {
    var a32: string := seq(32, _ => 'a');
    AlnumRunOfAlnumPrefix(a32, "");
    assert a32 + "" == a32;
    AlnumRunOfAlnumPrefix(seq(16, _ => 'a'), "");
    assert seq(16, _ => 'a') + "" == seq(16, _ => 'a');
    AlnumRunOfAlnumPrefix(seq(30, _ => 'a'), "!@");
    AlnumRunOfAlnumPrefix(a32, "\n");
    AlnumRunOfAlnumPrefix(seq(65, _ => 'a'), "");
    assert seq(65, _ => 'a') + "" == seq(65, _ => 'a');
  }

  // ---------------------------------------------------------------------
  // validate_bet_amount  (Decimal amounts as exact reals)
  // ---------------------------------------------------------------------

  /** `validate_bet_amount`: the chained comparison `min_bet <= amount <= max_bet`. */
  function ValidateBetAmount(amount: real, minBet: real, maxBet: real): (ok: bool)
    ensures ok ==> minBet <= maxBet
    ensures amount < minBet || maxBet < amount ==> !ok
    ensures minBet <= maxBet && (amount == minBet || amount == maxBet) ==> ok
  {
    minBet <= amount <= maxBet
  }

  /** The accepted amounts form an interval: anything between two accepted
      amounts is accepted. */
  lemma BetLimitsConvex(low: real, amount: real, high: real, minBet: real, maxBet: real)
    requires ValidateBetAmount(low, minBet, maxBet) && ValidateBetAmount(high, minBet, maxBet)
    requires low <= amount <= high
    ensures ValidateBetAmount(amount, minBet, maxBet)
  {
  }

  // ---------------------------------------------------------------------
  // calculate_win_rate  (true division over reals)
  // ---------------------------------------------------------------------

  /** `calculate_win_rate`: zero when no bets were placed, otherwise the
      percentage `wins / total_bets * 100`. */
  function WinRate(wins: int, totalBets: int): (rate: real)
    ensures totalBets == 0 ==> rate == 0.0
    ensures totalBets != 0 ==> rate * totalBets as real == 100.0 * wins as real
  {
    if totalBets == 0 then 0.0 else (wins as real / totalBets as real) * 100.0
  }

  /** With a non-negative win count no larger than the bet count the rate is a
      percentage in [0, 100], reaching 100 exactly when every bet was won. */
  lemma WinRateIsPercentage(wins: int, totalBets: int)
    requires 0 <= wins <= totalBets
    ensures 0.0 <= WinRate(wins, totalBets) <= 100.0
    ensures totalBets > 0 ==> (WinRate(wins, totalBets) == 100.0 <==> wins == totalBets)
  {
    if totalBets > 0 {
      var t := totalBets as real;
      var rate := WinRate(wins, totalBets);
      assert rate * t == 100.0 * wins as real <= 100.0 * t;
      ScaleByPositive(0.0, rate, t);
      ScaleByPositive(rate, 100.0, t);
      ScaleByPositive(100.0, rate, t);
    }
  }

  /** Multiplying by a positive number keeps the order of two numbers. */
  lemma ScaleByPositive(x: real, y: real, t: real)
    requires t > 0.0
    ensures x < y ==> x * t < y * t
  {
    if x < y {
      assert (y - x) * t > 0.0;
    }
  }

  // ---------------------------------------------------------------------
  // sanitize_game_name
  // ---------------------------------------------------------------------

  /** The characters `[\w\s-]` keeps. */
  predicate IsKeptChar(c: char) {
    IsWordChar(c) || IsSpace(c) || c == '-'
  }

  predicate KeptOnly(s: string) {
    forall i | 0 <= i < |s| :: IsKeptChar(s[i])
  }

  /** `re.sub(r'[^\w\s-]', '', s)`: drops every other character, keeping the
      order of the rest. */
  function RemoveSpecials(s: string): (r: string)
    ensures KeptOnly(r)
    ensures |r| <= |s|
  {
    if s == [] then []
    else if IsKeptChar(s[0]) then [s[0]] + RemoveSpecials(s[1..])
    else RemoveSpecials(s[1..])
  }

  /** Removing special characters keeps exactly the characters `[\w\s-]`
      allows, and leaves text made only of those unchanged. */
  lemma {:induction false} RemoveSpecialsKeepsAllowed(s: string)
    ensures forall c :: c in RemoveSpecials(s) <==> c in s && IsKeptChar(c)
    ensures KeptOnly(s) ==> RemoveSpecials(s) == s
    decreases |s|
  {
    if s != [] {
      RemoveSpecialsKeepsAllowed(s[1..]);
      assert forall c :: c in s <==> c == s[0] || c in s[1..];
      if KeptOnly(s) {
        assert KeptOnly(s[1..]) by {
          assert forall i | 0 <= i < |s[1..]| :: s[1..][i] == s[i + 1];
        }
        assert s == [s[0]] + s[1..];
      }
    }
  }

  /** Removal works character by character: a kept character stays, any
      other goes, and text split in two is filtered part by part, so the
      kept characters keep their order and their number. */
  lemma RemoveSpecialsOfChar(c: char)
    ensures RemoveSpecials([c]) == if IsKeptChar(c) then [c] else []
  {
  }

  lemma {:induction false} RemoveSpecialsAppend(a: string, b: string)
    ensures RemoveSpecials(a + b) == RemoveSpecials(a) + RemoveSpecials(b)
    decreases |a|
  {
    if a != [] {
      assert (a + b)[0] == a[0];
      assert (a + b)[1..] == a[1..] + b;
      RemoveSpecialsAppend(a[1..], b);
    } else {
      assert a + b == b;
    }
  }

  /** `re.sub(r'\s+', ' ', s)`: each maximal run of whitespace becomes one space. */
  function CollapseSpaces(s: string): string
    decreases |s|
  {
    if s == [] then []
    else if IsSpace(s[0]) then " " + CollapseSpaces(LStrip(s))
    else [s[0]] + CollapseSpaces(s[1..])
  }

  /** Collapsing never lengthens the text and leaves only empty text empty. */
  lemma {:induction false} CollapseSpacesLength(s: string)
    ensures |CollapseSpaces(s)| <= |s|
    ensures CollapseSpaces(s) == [] <==> s == []
    decreases |s|
  {
    if s != [] {
      if IsSpace(s[0]) {
        assert LStrip(s) == LStrip(s[1..]);
        CollapseSpacesLength(LStrip(s));
      } else {
        CollapseSpacesLength(s[1..]);
      }
    }
  }

  /** `sanitize_game_name`: `None` and "" give ""; otherwise specials are
      removed, whitespace runs collapsed to one space, and the ends stripped. */
  function SanitizeGameName(name: Option<string>): (r: string)
    ensures name.None? || name == Some("") ==> r == ""
    ensures name.Some? ==> |r| <= |name.value|
  {
    match name
    case None => ""
    case Some(s) =>
      if s == [] then ""
      else
        CollapseSpacesLength(RemoveSpecials(s));
        Strip(CollapseSpaces(RemoveSpecials(s)))
  }

  /** Length of the run of non-whitespace characters that opens `s`. */
  function WordLength(s: string): (n: nat)
    ensures n <= |s|
    ensures forall i | 0 <= i < n :: !IsSpace(s[i])
    ensures n == |s| || IsSpace(s[n])
  {
    if s != [] && !IsSpace(s[0]) then 1 + WordLength(s[1..]) else 0
  }

  /** `str.split()` without arguments: the maximal runs of non-whitespace. */
  function Words(s: string): seq<string>
    decreases |s|
  {
    if s == [] then []
    else if IsSpace(s[0]) then Words(LStrip(s))
    else
      var n := WordLength(s);
      [s[..n]] + Words(s[n..])
  }

  /** A sanitised name: only word characters, hyphens and spaces, no space at
      either end and never two spaces in a row. */
  predicate IsCleanName(s: string) {
    && NameCharsOnly(s)
    && (s == [] || (s[0] != ' ' && s[|s| - 1] != ' '))
    && NoDoubleSpace(s)
  }

  /** The characters a sanitised name is made of. */
  predicate IsNameChar(c: char) {
    IsWordChar(c) || c == '-' || c == ' '
  }

  predicate NameCharsOnly(s: string) {
    forall i | 0 <= i < |s| :: IsNameChar(s[i])
  }

  /** Two spaces in a row start at index `i`. */
  predicate SpacePairAt(s: string, i: nat)
    requires i + 1 < |s|
  {
    s[i] == ' ' && s[i + 1] == ' '
  }

  predicate NoDoubleSpace(s: string) {
    forall i | 0 <= i < |s| - 1 :: !SpacePairAt(s, i)
  }

  /** One word of a sanitised name: non-empty, made of word characters and hyphens. */
  predicate IsNameWord(w: string) {
    w != [] && forall i | 0 <= i < |w| :: IsWordChar(w[i]) || w[i] == '-'
  }

  lemma {:induction false} CollapseOverWord(w: string, rest: string)
    requires forall i | 0 <= i < |w| :: !IsSpace(w[i])
    ensures CollapseSpaces(w + rest) == w + CollapseSpaces(rest)
    decreases |w|
  {
    if w == [] {
      assert w + rest == rest;
    } else {
      assert (w + rest)[0] == w[0];
      assert (w + rest)[1..] == w[1..] + rest;
      CollapseOverWord(w[1..], rest);
    }
  }

  /** A word followed by one space strips back to the word. */
  lemma StripWordSpace(w: string)
    requires w != [] && forall i | 0 <= i < |w| :: !IsSpace(w[i])
    ensures Strip(w + " ") == w
  {
    var ws := w + " ";
    assert ws[0] == w[0];
    assert LStrip(ws) == ws;
    assert ws[..|ws| - 1] == w;
    assert RStrip(ws) == RStrip(w);
  }

  /** Stripping a word, a space and more text only strips the text's end. */
  lemma StripWordSpaceText(w: string, rest: string)
    requires w != [] && forall i | 0 <= i < |w| :: !IsSpace(w[i])
    requires rest != [] && !IsSpace(rest[0])
    ensures Strip(w + " " + rest) == w + " " + Strip(rest)
  {
    var prefix := w + " ";
    assert (prefix + rest)[0] == w[0];
    assert LStrip(prefix + rest) == prefix + rest;
    assert LStrip(rest) == rest;
    RStripAppend(prefix, rest);
  }

  /** The word step of `CollapsedIsJoinedWords` when only whitespace follows the word. */
  lemma CollapsedLastWord(w: string, rest: string)
    requires w != [] && forall i | 0 <= i < |w| :: !IsSpace(w[i])
    requires rest == [] || IsSpace(rest[0])
    requires LStrip(rest) == []
    ensures Strip(w + CollapseSpaces(rest)) == Join([w] + Words(rest), " ")
  {
    assert Words(rest) == [];
    assert [w] + Words(rest) == [w];
    if rest == [] {
      assert w + CollapseSpaces(rest) == w;
      StripOfTrimmed(w);
    } else {
      assert CollapseSpaces(rest) == " ";
      StripWordSpace(w);
    }
  }

  lemma StripWordSpaceCollapsed(w: string, u: string)
    requires w != [] && forall i | 0 <= i < |w| :: !IsSpace(w[i])
    requires u != [] && !IsSpace(u[0])
    ensures Strip(w + (" " + CollapseSpaces(u))) == w + " " + Strip(CollapseSpaces(u))
  {
    var cu := CollapseSpaces(u);
    assert cu[0] == u[0];
    assert w + (" " + cu) == w + " " + cu;
    StripWordSpaceText(w, cu);
  }

  lemma JoinAfterSpaces(w: string, rest: string)
    requires rest != [] && IsSpace(rest[0])
    requires LStrip(rest) != []
    ensures Join([w] + Words(rest), " ") == w + " " + Join(Words(LStrip(rest)), " ")
  {
    assert Words(rest) == Words(LStrip(rest));
    JoinCons(w, Words(LStrip(rest)), " ");
  }

  /** The word step of `CollapsedIsJoinedWords` when another word follows,
      given the claim for the text from that word on. */
  lemma CollapsedInnerWord(w: string, rest: string)
    requires w != [] && forall i | 0 <= i < |w| :: !IsSpace(w[i])
    requires rest != [] && IsSpace(rest[0])
    requires LStrip(rest) != []
    requires Strip(CollapseSpaces(LStrip(rest))) == Join(Words(LStrip(rest)), " ")
    ensures Strip(w + CollapseSpaces(rest)) == Join([w] + Words(rest), " ")
  {
    assert CollapseSpaces(rest) == " " + CollapseSpaces(LStrip(rest));
    StripWordSpaceCollapsed(w, LStrip(rest));
    JoinAfterSpaces(w, rest);
  }

  /** Joining a leading part onto a non-empty list puts one separator between. */
  lemma JoinCons(w: string, ws: seq<string>, sep: string)
    requires |ws| > 0
    ensures Join([w] + ws, sep) == w + sep + Join(ws, sep)
  {
    assert ([w] + ws)[1..] == ws;
  }

  /** Collapsing whitespace and then stripping is `" ".join(s.split())`. */
  lemma {:induction false} CollapsedIsJoinedWords(t: string)
    ensures Strip(CollapseSpaces(t)) == Join(Words(t), " ")
    decreases |t|
  {
    if t == [] {
    } else if IsSpace(t[0]) {
      var u := LStrip(t);
      assert CollapseSpaces(t) == [' '] + CollapseSpaces(u);
      StripDropsLeadingSpace(' ', CollapseSpaces(u));
      CollapsedIsJoinedWords(u);
    } else {
      var n := WordLength(t);
      var w, rest := t[..n], t[n..];
      assert t == w + rest;
      CollapseOverWord(w, rest);
      if LStrip(rest) == [] {
        CollapsedLastWord(w, rest);
      } else {
        CollapsedIsJoinedWords(LStrip(rest));
        CollapsedInnerWord(w, rest);
      }
    }
  }

  /** Every word found in kept-only text is a valid name word. */
  lemma {:induction false} WordsOfKeptText(t: string)
    requires KeptOnly(t)
    ensures forall k | 0 <= k < |Words(t)| :: IsNameWord(Words(t)[k])
    decreases |t|
  {
    if t == [] {
    } else if IsSpace(t[0]) {
      var u := LStrip(t);
      KeptSuffix(t, |t| - |u|);
      WordsOfKeptText(u);
    } else {
      var n := WordLength(t);
      KeptSuffix(t, n);
      WordsOfKeptText(t[n..]);
      assert IsNameWord(t[..n]);
    }
  }

  lemma KeptSuffix(t: string, k: nat)
    requires KeptOnly(t) && k <= |t|
    ensures KeptOnly(t[k..])
  {
    assert forall i | 0 <= i < |t[k..]| :: t[k..][i] == t[k + i];
  }

  /** Joining name words with single spaces gives a clean name that starts
      with the first word's first character. */
  lemma {:induction false} JoinedWordsAreClean(ws: seq<string>)
    requires forall k | 0 <= k < |ws| :: IsNameWord(ws[k])
    ensures IsCleanName(Join(ws, " "))
    ensures |ws| > 0 ==> |Join(ws, " ")| > 0 && Join(ws, " ")[0] == ws[0][0]
    decreases |ws|
  {
    if |ws| > 1 {
      var w := ws[0];
      JoinedWordsAreClean(ws[1..]);
      var j := Join(ws[1..], " ");
      var s := Join(ws, " ");
      assert s == w + " " + j;
      assert j[0] == ws[1][0];
      forall i | 0 <= i < |s|
        ensures IsNameChar(s[i])
      {
        if i > |w| {
          assert s[i] == j[i - |w| - 1];
        }
      }
      forall i | 0 <= i < |s| - 1
        ensures !SpacePairAt(s, i)
      {
        if i > |w| {
          assert s[i] == j[i - |w| - 1] && s[i + 1] == j[i - |w|];
          assert !SpacePairAt(j, i - |w| - 1);
        } else if i == |w| {
          assert s[i + 1] == j[0];
        }
      }
      assert s[|s| - 1] == j[|j| - 1];
    }
  }

  /** A single space before a non-space collapses to itself. */
  lemma CollapseSingleSpace(s: string)
    requires s != [] && s[0] == ' '
    requires |s| == 1 || !IsSpace(s[1])
    ensures CollapseSpaces(s) == " " + CollapseSpaces(s[1..])
  {
    assert LStrip(s) == LStrip(s[1..]);
    assert s[1..] == [] || s[1..][0] == s[1];
  }

  /** The conditions of `CollapseOfClean` pass from `s` to its tail. */
  lemma CleanTail(s: string)
    requires s != [] && NameCharsOnly(s) && NoDoubleSpace(s)
    ensures NameCharsOnly(s[1..]) && NoDoubleSpace(s[1..])
  {
    var tail := s[1..];
    forall i | 0 <= i < |tail| ensures IsNameChar(tail[i]) {
      assert tail[i] == s[i + 1];
    }
    forall i | 0 <= i < |tail| - 1 ensures !SpacePairAt(tail, i) {
      assert tail[i] == s[i + 1] && tail[i + 1] == s[i + 2];
      assert !SpacePairAt(s, i + 1);
    }
  }

  /** Clean text has its whitespace already collapsed. */
  lemma {:induction false} CollapseOfClean(s: string)
    requires NameCharsOnly(s) && NoDoubleSpace(s)
    ensures CollapseSpaces(s) == s
    decreases |s|
  {
    if s != [] {
      var tail := s[1..];
      CleanTail(s);
      CollapseOfClean(tail);
      assert IsNameChar(s[0]);
      if IsSpace(s[0]) {
        if |s| > 1 {
          assert !SpacePairAt(s, 0);
          assert IsNameChar(s[1]);
        }
        CollapseSingleSpace(s);
      }
      assert s == [s[0]] + tail;
    }
  }

  /** The sanitiser's result is always clean. */
  lemma SanitizedNameIsClean(name: Option<string>)
    ensures IsCleanName(SanitizeGameName(name))
  {
    if name.Some? && name.value != [] {
      var t := RemoveSpecials(name.value);
      CollapsedIsJoinedWords(t);
      WordsOfKeptText(t);
      JoinedWordsAreClean(Words(t));
    }
  }

  /** The sanitiser is Python's `" ".join(...split())` of the kept characters:
      the words of the name, in order, separated by single spaces. */
  lemma SanitizeJoinsWords(name: string)
    ensures SanitizeGameName(Some(name)) == Join(Words(RemoveSpecials(name)), " ")
  {
    if name == [] {
      assert Words(RemoveSpecials(name)) == [];
    } else {
      CollapsedIsJoinedWords(RemoveSpecials(name));
    }
  }

  /** A name that is already clean comes back unchanged. */
  lemma SanitizeFixesCleanNames(name: string)
    requires IsCleanName(name)
    ensures SanitizeGameName(Some(name)) == name
  {
    if name != [] {
      assert KeptOnly(name) by {
        forall i | 0 <= i < |name| ensures IsKeptChar(name[i]) {
          assert IsNameChar(name[i]);
        }
      }
      RemoveSpecialsKeepsAllowed(name);
      CollapseOfClean(name);
      StripOfTrimmed(name);
    }
  }

  /** Sanitising twice is the same as sanitising once. */
  lemma SanitizeIdempotent(name: Option<string>)
    ensures SanitizeGameName(Some(SanitizeGameName(name))) == SanitizeGameName(name)
  {
    SanitizedNameIsClean(name);
    SanitizeFixesCleanNames(SanitizeGameName(name));
  }

  /** The cases tests/test_utils.py checks: `None`, the empty name, and a name that
      is already clean. */
  lemma SanitizeExamples()
    ensures SanitizeGameName(None) == ""
    ensures SanitizeGameName(Some("")) == ""
    ensures SanitizeGameName(Some("Mega Slots Deluxe")) == "Mega Slots Deluxe"
  {
    var name := "Mega Slots Deluxe";
    assert IsCleanName(name);
    SanitizeFixesCleanNames(name);
  }

  // ---------------------------------------------------------------------
  // format_currency  (amounts as whole cents)
  // ---------------------------------------------------------------------

  const EuroSign: char := '\U{20AC}'
  const PoundSign: char := '\U{A3}'

  /** The unsigned part of `f"{amount:.2f}"`: whole units, a point and two
      decimals, for an amount of `magnitude` cents. */
  function UnsignedAmountText(magnitude: nat): (t: string)
    ensures |t| >= 4 && IsDigit(t[0])
    ensures t[0] == '0' ==> t[1] == '.'
    ensures t[|t| - 3] == '.' && IsDigit(t[|t| - 2]) && IsDigit(t[|t| - 1])
    ensures forall i | 0 <= i < |t| :: t[i] != ' '
  {
    var units := NatToDecimal(magnitude / 100);
    var t := units + "." + [DigitChar(magnitude % 100 / 10), DigitChar(magnitude % 10)];
    assert t[0] == units[0];
    assert forall i | 0 <= i < |units| :: t[i] == units[i];
    t
  }

  /** `f"{amount:.2f}"` for an amount held as a whole number of cents: at
      least `0.00`, signed exactly when negative, and without spaces. */
  function AmountText(cents: int): (t: string)
    ensures |t| >= 4
    ensures t[0] == '-' <==> cents < 0
    ensures t[0] != '-' ==> IsDigit(t[0])
    ensures cents >= 0 && t[0] == '0' ==> t[1] == '.'
    ensures cents < 0 ==> IsDigit(t[1]) && (t[1] == '0' ==> t[2] == '.')
    ensures t[|t| - 3] == '.' && IsDigit(t[|t| - 2]) && IsDigit(t[|t| - 1])
    ensures forall i | 0 <= i < |t| :: t[i] != ' '
  {
    if cents < 0 then
      var u := UnsignedAmountText(-cents);
      assert forall i | 1 <= i < |"-" + u| :: ("-" + u)[i] == u[i - 1];
      "-" + u
    else UnsignedAmountText(cents)
  }

  /** The codes `format_currency` writes as a symbol. */
  predicate IsSymbolCode(code: string) {
    code == "USD" || code == "EUR" || code == "GBP"
  }

  /** The currency `format_currency` uses when the caller names none. */
  const DefaultCurrency: string := "USD"

  /** `format_currency`: the symbol for USD, EUR and GBP (whatever the case
      of the code), otherwise the amount followed by the upper-cased code.
      The text opens with a currency symbol exactly for those three codes,
      and with the symbol belonging to the code. */
  function FormatCurrency(cents: int, currency: string): (r: string)
    ensures |r| > 0
    ensures r[0] == '$' <==> Upper(currency) == "USD"
    ensures r[0] == EuroSign <==> Upper(currency) == "EUR"
    ensures r[0] == PoundSign <==> Upper(currency) == "GBP"
  {
    var code := Upper(currency);
    if code == "USD" then "$" + AmountText(cents)
    else if code == "EUR" then [EuroSign] + AmountText(cents)
    else if code == "GBP" then [PoundSign] + AmountText(cents)
    else AmountText(cents) + " " + code
  }

  /** Reads whole units, a point and exactly two decimals as cents. */
  function ParseUnsignedAmount(body: string): Option<nat> {
    if |body| < 4 || body[|body| - 3] != '.' then None
    else
      var units, decimals := body[..|body| - 3], body[|body| - 2..];
      if !AllDigits(units) || !AllDigits(decimals) then None
      else Some(DecimalToNat(units) * 100 + DecimalToNat(decimals))
  }

  /** Reads an amount written as an optional minus sign followed by what
      `ParseUnsignedAmount` reads. */
  function ParseAmount(text: string): Option<int> {
    if |text| > 0 && text[0] == '-' then
      var magnitude :- ParseUnsignedAmount(text[1..]); Some(-(magnitude as int))
    else
      var magnitude :- ParseUnsignedAmount(text); Some(magnitude)
  }

  /** Index of the first space in `s`, or `|s|` when there is none. */
  function SpaceIndex(s: string): (i: nat)
    ensures i <= |s|
    ensures forall k | 0 <= k < i :: s[k] != ' '
    ensures i == |s| || s[i] == ' '
  {
    if s == [] || s[0] == ' ' then 0 else 1 + SpaceIndex(s[1..])
  }

  /** Reads display text back into cents and an upper-case currency code.
      The three codes that have a symbol are only read from the symbol. */
  function ParseFormatted(text: string): Option<(int, string)> {
    if text == [] then None
    else if text[0] == '$' then
      var cents :- ParseAmount(text[1..]); Some((cents, "USD"))
    else if text[0] == EuroSign then
      var cents :- ParseAmount(text[1..]); Some((cents, "EUR"))
    else if text[0] == PoundSign then
      var cents :- ParseAmount(text[1..]); Some((cents, "GBP"))
    else
      var i := SpaceIndex(text);
      if i == |text| || IsSymbolCode(text[i + 1..]) then None
      else
        var cents :- ParseAmount(text[..i]); Some((cents, text[i + 1..]))
  }

  lemma TwoDigitsValue(d: nat)
    requires d < 100
    ensures DecimalToNat([DigitChar(d / 10), DigitChar(d % 10)]) == d
  {
    var s := [DigitChar(d / 10), DigitChar(d % 10)];
    assert DigitValue(s[0]) == d / 10 && DigitValue(s[1]) == d % 10;
    assert s[..1] == [s[0]];
    assert [s[0]][..0] == [];
    assert DecimalToNat([s[0]]) == d / 10;
  }

  lemma UnsignedAmountRoundTrip(magnitude: nat)
    ensures ParseUnsignedAmount(UnsignedAmountText(magnitude)) == Some(magnitude)
  {
    var whole, cents := magnitude / 100, magnitude % 100;
    assert magnitude == whole * 100 + cents;
    assert cents / 10 == magnitude % 100 / 10 && cents % 10 == magnitude % 10;
    var units := NatToDecimal(whole);
    var decimals := [DigitChar(cents / 10), DigitChar(cents % 10)];
    assert UnsignedAmountText(magnitude) == units + "." + decimals;
    ParseUnitsAndDecimals(units, decimals);
    DecimalRoundTrip(whole);
    TwoDigitsValue(cents);
  }

  lemma ParseUnitsAndDecimals(units: string, decimals: string)
    requires |units| > 0 && AllDigits(units)
    requires |decimals| == 2 && AllDigits(decimals)
    ensures ParseUnsignedAmount(units + "." + decimals) == Some(DecimalToNat(units) * 100 + DecimalToNat(decimals))
  {
    var body := units + "." + decimals;
    assert body[..|body| - 3] == units;
    assert body[|body| - 2..] == decimals;
  }

  /** The amount text reads back as the same number of cents. */
  lemma AmountTextRoundTrip(cents: int)
    ensures ParseAmount(AmountText(cents)) == Some(cents)
  {
    if cents < 0 {
      UnsignedAmountRoundTrip(-cents);
      assert AmountText(cents)[1..] == UnsignedAmountText(-cents);
    } else {
      UnsignedAmountRoundTrip(cents);
    }
  }

  lemma {:induction false} SpaceIndexAfter(a: string, b: string)
    requires forall i | 0 <= i < |a| :: a[i] != ' '
    ensures SpaceIndex(a + " " + b) == |a|
    decreases |a|
  {
    var t := a + " " + b;
    if a != [] {
      assert t[0] == a[0];
      assert t[1..] == a[1..] + " " + b;
      SpaceIndexAfter(a[1..], b);
    } else {
      assert t[0] == ' ';
    }
  }

  lemma ParseSymbolFormatted(symbol: char, cents: int)
    requires symbol == '$' || symbol == EuroSign || symbol == PoundSign
    ensures ParseFormatted([symbol] + AmountText(cents))
      == Some((cents, if symbol == '$' then "USD" else if symbol == EuroSign then "EUR" else "GBP"))
  {
    AmountTextRoundTrip(cents);
    assert ([symbol] + AmountText(cents))[1..] == AmountText(cents);
  }

  lemma ParseCodeFormatted(cents: int, code: string)
    requires !IsSymbolCode(code)
    ensures ParseFormatted(AmountText(cents) + " " + code) == Some((cents, code))
  {
    var amount := AmountText(cents);
    var text := amount + " " + code;
    AmountTextRoundTrip(cents);
    assert text[0] == amount[0];
    SpaceIndexAfter(amount, code);
    assert text[..|amount|] == amount;
    assert text[|amount| + 1..] == code;
  }

  /** Display text determines the amount and the code: reading it back gives
      the cents and the upper-cased currency code, whichever branch wrote it.
      Since a symbol code is never read from after the amount, this also
      fixes which of the two forms is written. */
  lemma FormatCurrencyRoundTrip(cents: int, currency: string)
    ensures ParseFormatted(FormatCurrency(cents, currency)) == Some((cents, Upper(currency)))
  {
    var code := Upper(currency);
    if code == "USD" {
      ParseSymbolFormatted('$', cents);
    } else if code == "EUR" {
      ParseSymbolFormatted(EuroSign, cents);
    } else if code == "GBP" {
      ParseSymbolFormatted(PoundSign, cents);
    } else {
      ParseCodeFormatted(cents, code);
    }
  }

  /** Upper-casing the code is the only use made of it, so the case the
      caller wrote it in does not matter. */
  lemma FormatCurrencyIgnoresCase(cents: int, currency: string, other: string)
    requires Upper(currency) == Upper(other)
    ensures FormatCurrency(cents, currency) == FormatCurrency(cents, other)
  {
  }

  lemma UsdExample()
    ensures FormatCurrency(12345, "USD") == "$123.45"
  {
    assert Upper("USD") == "USD";
    assert NatToDecimal(123) == "123";
  }

  lemma EurExample()
    ensures FormatCurrency(10000, "eur") == [EuroSign] + "100.00"
  {
    assert Upper("eur") == "EUR";
    assert NatToDecimal(100) == "100";
  }

  /** The default currency, and a negative amount, whose sign follows the
      symbol. */
  lemma NegativeDefaultExample()
    ensures FormatCurrency(-250, DefaultCurrency) == "$-2.50"
  {
    assert Upper("USD") == "USD";
    assert NatToDecimal(2) == "2";
  }

  lemma GbpExample()
    ensures FormatCurrency(7, "Gbp") == [PoundSign] + "0.07"
  {
    assert Upper("Gbp") == "GBP";
    assert NatToDecimal(0) == "0";
  }

  lemma OtherCurrencyExample()
    ensures FormatCurrency(5075, "xyz") == "50.75 XYZ"
  {
    assert Upper("xyz") == "XYZ";
    assert NatToDecimal(50) == "50";
  }
}
