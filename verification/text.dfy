/** The parts of Python's `str` and `re` behaviour the library leans on:
    character classes, ASCII case mapping, `strip`, `join`, and decimal
    rendering of whole numbers. */
module Text {

  /** Python's `str.isspace()`, which is also the set `\s` matches in a str
      pattern: TAB through CR, the separators FS through US, the space, and
      the Unicode space characters. */
  predicate IsSpace(c: char) {
    || c == ' '
    || '\t' <= c <= '\r'
    || '\U{1C}' <= c <= '\U{1F}'
    || c == '\U{85}'
    || c == '\U{A0}'
    || c == '\U{1680}'
    || '\U{2000}' <= c <= '\U{200A}'
    || c == '\U{2028}'
    || c == '\U{2029}'
    || c == '\U{202F}'
    || c == '\U{205F}'
    || c == '\U{3000}'
  }

  predicate IsAsciiLetter(c: char) {
    'a' <= c <= 'z' || 'A' <= c <= 'Z'
  }

  predicate IsDigit(c: char) {
    '0' <= c <= '9'
  }

  predicate IsAsciiAlnum(c: char) {
    IsAsciiLetter(c) || IsDigit(c)
  }

  /** `\w`, restricted to ASCII: letters, digits and the underscore. */
  predicate IsWordChar(c: char) {
    IsAsciiAlnum(c) || c == '_'
  }

  /** ASCII lower-casing; every other character is left as it is. */
  function ToLower(c: char): char {
    if 'A' <= c <= 'Z' then (c as int + 32) as char else c
  }

  /** ASCII upper-casing; every other character is left as it is. */
  function ToUpper(c: char): char {
    if 'a' <= c <= 'z' then (c as int - 32) as char else c
  }

  /** `str.lower()` on the ASCII range: no capital is left, and each
      character agrees with its original up to case. */
  function Lower(s: string): (r: string)
    ensures |r| == |s|
    ensures forall i | 0 <= i < |r| :: !('A' <= r[i] <= 'Z')
    ensures forall i | 0 <= i < |r| :: ToUpper(r[i]) == ToUpper(s[i])
  {
    seq(|s|, i requires 0 <= i < |s| => ToLower(s[i]))
  }

  /** `str.upper()` on the ASCII range: no small letter is left, and each
      character agrees with its original up to case. */
  function Upper(s: string): (r: string)
    ensures |r| == |s|
    ensures forall i | 0 <= i < |r| :: !('a' <= r[i] <= 'z')
    ensures forall i | 0 <= i < |r| :: ToLower(r[i]) == ToLower(s[i])
  {
    seq(|s|, i requires 0 <= i < |s| => ToUpper(s[i]))
  }

  predicate AllSpace(s: string) {
    forall i | 0 <= i < |s| :: IsSpace(s[i])
  }

  /** `str.lstrip()`: the longest suffix that does not start with whitespace. */
  function LStrip(s: string): (r: string)
    ensures |r| <= |s| && r == s[|s| - |r|..]
    ensures AllSpace(s[..|s| - |r|])
    ensures r == [] || !IsSpace(r[0])
  {
    if s != [] && IsSpace(s[0]) then
      var r := LStrip(s[1..]);
      assert s[..|s| - |r|] == [s[0]] + s[1..][..|s| - 1 - |r|];
      r
    else s
  }

  /** `str.rstrip()`: the longest prefix that does not end with whitespace. */
  function RStrip(s: string): (r: string)
    ensures |r| <= |s| && r == s[..|r|]
    ensures AllSpace(s[|r|..])
    ensures r == [] || !IsSpace(r[|r| - 1])
  {
    if s != [] && IsSpace(s[|s| - 1]) then
      var r := RStrip(s[..|s| - 1]);
      assert s[|r|..] == s[..|s| - 1][|r|..] + [s[|s| - 1]];
      r
    else s
  }

  /** `str.strip()`: no longer than its input, and neither starting nor
      ending with whitespace. */
  function Strip(s: string): (r: string)
    ensures |r| <= |s|
    ensures r == [] || (!IsSpace(r[0]) && !IsSpace(r[|r| - 1]))
  {
    var l := LStrip(s);
    var r := RStrip(l);
    assert r == [] || r[0] == l[0];
    r
  }

  /** `r` is the stretch of `s` starting at index `lo`, and everything in
      `s` before and after that stretch is whitespace. */
  predicate SurroundedByWhitespace(s: string, r: string, lo: nat) {
    && lo + |r| <= |s|
    && (forall i | 0 <= i < |r| :: r[i] == s[lo + i])
    && (forall i | 0 <= i < lo :: IsSpace(s[i]))
    && (forall i | lo + |r| <= i < |s| :: IsSpace(s[i]))
  }

  /** `Strip` removes exactly the surrounding whitespace: what it returns is a
      stretch of its input with only whitespace cut off either side. */
  lemma StripIsSurroundingWhitespace(s: string)
    ensures exists lo: nat :: SurroundedByWhitespace(s, Strip(s), lo)
  {
    var l := LStrip(s);
    var r := RStrip(l);
    var lo := |s| - |l|;
    DropIndex(s, lo, l);
    TakeSpaces(s, lo);
    TakeIndex(l, r);
    DropSpaces(l, |r|);
    SurroundedFromParts(s, l, r, lo);
    assert SurroundedByWhitespace(s, Strip(s), lo);
  }

  lemma DropIndex(s: string, lo: nat, l: string)
    requires lo <= |s| && l == s[lo..]
    ensures forall i | lo <= i < |s| :: s[i] == l[i - lo]
  {
  }

  lemma TakeIndex(l: string, r: string)
    requires |r| <= |l| && r == l[..|r|]
    ensures forall i | 0 <= i < |r| :: r[i] == l[i]
  {
  }

  lemma TakeSpaces(s: string, lo: nat)
    requires lo <= |s| && AllSpace(s[..lo])
    ensures forall i | 0 <= i < lo :: IsSpace(s[i])
  {
    forall i | 0 <= i < lo ensures IsSpace(s[i]) {
      assert s[..lo][i] == s[i];
    }
  }

  lemma DropSpaces(l: string, n: nat)
    requires n <= |l| && AllSpace(l[n..])
    ensures forall i | n <= i < |l| :: IsSpace(l[i])
  {
    forall i | n <= i < |l| ensures IsSpace(l[i]) {
      assert l[n..][i - n] == l[i];
    }
  }

  /** The index facts about the two halves of `Strip` put together. */
  lemma SurroundedFromParts(s: string, l: string, r: string, lo: nat)
    requires lo + |l| == |s| && |r| <= |l|
    requires forall i | lo <= i < |s| :: s[i] == l[i - lo]
    requires forall i | 0 <= i < lo :: IsSpace(s[i])
    requires forall i | 0 <= i < |r| :: r[i] == l[i]
    requires forall i | |r| <= i < |l| :: IsSpace(l[i])
    ensures SurroundedByWhitespace(s, r, lo)
  {
    forall i | 0 <= i < |r| ensures r[i] == s[lo + i] {
      assert s[lo + i] == l[i];
    }
    forall i | lo + |r| <= i < |s| ensures IsSpace(s[i]) {
      assert s[i] == l[i - lo];
    }
  }

  /** Stripping text that already has no surrounding whitespace changes nothing. */
  lemma StripOfTrimmed(s: string)
    requires s == [] || (!IsSpace(s[0]) && !IsSpace(s[|s| - 1]))
    ensures Strip(s) == s
  {
  }

  /** A leading whitespace character does not survive `Strip`. */
  lemma StripDropsLeadingSpace(c: char, s: string)
    requires IsSpace(c)
    ensures Strip([c] + s) == Strip(s)
  {
    assert ([c] + s)[1..] == s;
  }

  /** Right-stripping only reaches into the last part of a concatenation
      when that part still holds a non-whitespace character. */
  lemma {:induction false} RStripAppend(a: string, b: string)
    requires exists i | 0 <= i < |b| :: !IsSpace(b[i])
    ensures RStrip(a + b) == a + RStrip(b)
    decreases |b|
  {
    var ab := a + b;
    assert ab[|ab| - 1] == b[|b| - 1];
    if IsSpace(b[|b| - 1]) {
      var i :| 0 <= i < |b| && !IsSpace(b[i]);
      var b' := b[..|b| - 1];
      assert b'[i] == b[i];
      assert ab[..|ab| - 1] == a + b';
      RStripAppend(a, b');
    }
  }

  /** The combined length of `parts`. */
  function TotalLength(parts: seq<string>): nat {
    if parts == [] then 0 else |parts[0]| + TotalLength(parts[1..])
  }

  /** Python's `sep.join(parts)`. */
  function Join(parts: seq<string>, sep: string): string {
    if |parts| == 0 then ""
    else if |parts| == 1 then parts[0]
    else parts[0] + sep + Join(parts[1..], sep)
  }

  /** `sep.join(parts)` is as long as the parts together plus one
      separator between each two. */
  lemma {:induction false} JoinLength(parts: seq<string>, sep: string)
    ensures parts == [] ==> Join(parts, sep) == ""
    ensures parts != [] ==> |Join(parts, sep)| == TotalLength(parts) + (|parts| - 1) * |sep|
  {
    if |parts| > 1 {
      JoinLength(parts[1..], sep);
      assert (|parts| - 1) * |sep| == (|parts| - 2) * |sep| + |sep|;
    }
  }

  /** `sep.join(parts)` starts with the first part and ends with the last. */
  lemma {:induction false} JoinEnds(parts: seq<string>, sep: string)
    requires parts != []
    ensures Join(parts, sep)[..|parts[0]|] == parts[0]
    ensures |parts[|parts| - 1]| <= |Join(parts, sep)|
    ensures Join(parts, sep)[|Join(parts, sep)| - |parts[|parts| - 1]|..] == parts[|parts| - 1]
  {
    if |parts| > 1 {
      var rest := Join(parts[1..], sep);
      var last := parts[|parts| - 1];
      JoinEnds(parts[1..], sep);
      assert parts[1..][|parts[1..]| - 1] == last;
      var r := parts[0] + sep + rest;
      assert Join(parts, sep) == r;
      assert r[|r| - |rest|..] == rest;
      assert r[|r| - |last|..] == rest[|rest| - |last|..];
    }
  }

  function DigitChar(d: nat): (c: char)
    requires d < 10
    ensures IsDigit(c)
  {
    ('0' as int + d) as char
  }

  function DigitValue(c: char): (d: nat)
    requires IsDigit(c)
    ensures d < 10 && DigitChar(d) == c
  {
    c as int - '0' as int
  }

  predicate AllDigits(s: string) {
    forall i | 0 <= i < |s| :: IsDigit(s[i])
  }

  /** `str(n)` for a whole number: its decimal digits without leading zeros. */
  function NatToDecimal(n: nat): (r: string)
    ensures |r| > 0 && AllDigits(r)
    ensures |r| == 1 || r[0] != '0'
  {
    if n < 10 then [DigitChar(n)] else NatToDecimal(n / 10) + [DigitChar(n % 10)]
  }

  /** The value of a string of decimal digits (0 for the empty string). */
  function DecimalToNat(s: string): nat
    requires AllDigits(s)
  {
    if s == [] then 0 else DecimalToNat(s[..|s| - 1]) * 10 + DigitValue(s[|s| - 1])
  }

  /** Reading back the digits `NatToDecimal` writes gives the number again. */
  lemma {:induction false} DecimalRoundTrip(n: nat)
    ensures DecimalToNat(NatToDecimal(n)) == n
  {
    var s := NatToDecimal(n);
    if n >= 10 {
      DecimalRoundTrip(n / 10);
      assert s[..|s| - 1] == NatToDecimal(n / 10);
      assert DigitValue(s[|s| - 1]) == n % 10;
    } else {
      assert DigitValue(s[0]) == n;
    }
  }
}
