/** Character classes, decimal rendering and the two fixed-shape text patterns
    the registration logic checks its inputs against. */
module Text {

  /** Python's `str.isspace()`: the characters `str.strip()` removes and `\s`
      matches in a `str` pattern. */
  predicate IsSpace(c: char) {
    var k := c as int;
    || k == 0x20 || 0x09 <= k <= 0x0d || 0x1c <= k <= 0x1f
    || k == 0x85 || k == 0xa0 || k == 0x1680 || 0x2000 <= k <= 0x200a
    || k == 0x2028 || k == 0x2029 || k == 0x202f || k == 0x205f || k == 0x3000
  }

  /** `not s.strip()`: the text is empty once surrounding whitespace is removed. */
  predicate IsBlank(s: string) {
    forall i :: 0 <= i < |s| ==> IsSpace(s[i])
  }

  predicate IsAsciiLetter(c: char) {
    'a' <= c <= 'z' || 'A' <= c <= 'Z'
  }

  predicate IsDigit(c: char) {
    '0' <= c <= '9'
  }

  predicate AllDigits(s: string) {
    forall i :: 0 <= i < |s| ==> IsDigit(s[i])
  }

  function DigitChar(d: nat): (c: char)
    requires d < 10
    ensures IsDigit(c)
  {
    (('0' as int) + d) as char
  }

  function DigitValue(c: char): (d: nat)
    requires IsDigit(c)
    ensures d < 10 && DigitChar(d) == c
  {
    (c as int) - ('0' as int)
  }

  function Pow10(k: nat): (p: nat)
    ensures p >= 1
  {
    if k == 0 then 1 else 10 * Pow10(k - 1)
  }

  /** Python's `str(n)` for a non-negative integer: decimal digits, no leading zero. */
  function DecimalString(n: nat): (s: string)
    ensures |s| >= 1 && AllDigits(s)
    ensures s[0] != '0' || n == 0
    decreases n
  {
    if n < 10 then [DigitChar(n)] else DecimalString(n / 10) + [DigitChar(n % 10)]
  }

  /** The value of a string of decimal digits, most significant first. */
  function ParseDecimal(s: string): (v: nat)
    requires AllDigits(s)
    ensures v < Pow10(|s|)
  {
    if s == [] then 0 else 10 * ParseDecimal(s[..|s| - 1]) + DigitValue(s[|s| - 1])
  }

  /** Reading back the rendering of `n` gives `n`. */
  lemma {:induction false} ParseDecimalString(n: nat)
    ensures ParseDecimal(DecimalString(n)) == n
    decreases n
  {
    var s := DecimalString(n);
    if n >= 10 {
      assert s[..|s| - 1] == DecimalString(n / 10);
      ParseDecimalString(n / 10);
    }
  }

  /** A digit string without a leading zero is worth at least `10^(len-1)`. */
  lemma {:induction false} ParseDecimalLowerBound(s: string)
    requires |s| >= 1 && AllDigits(s) && s[0] != '0'
    ensures ParseDecimal(s) >= Pow10(|s| - 1)
  {
    if |s| > 1 {
      var p := s[..|s| - 1];
      assert p[0] == s[0];
      ParseDecimalLowerBound(p);
    }
  }

  /** Rendering the value of a canonical digit string gives the string back. */
  lemma {:induction false} DecimalStringParse(s: string)
    requires |s| >= 1 && AllDigits(s) && (s[0] != '0' || |s| == 1)
    ensures DecimalString(ParseDecimal(s)) == s
  {
    if |s| > 1 {
      var p := s[..|s| - 1];
      var d := DigitValue(s[|s| - 1]);
      assert p[0] == s[0];
      ParseDecimalLowerBound(p);
      DecimalStringParse(p);
      var v := ParseDecimal(s);
      assert v == 10 * ParseDecimal(p) + d;
      assert v / 10 == ParseDecimal(p) && v % 10 == d;
      assert s == p + [s[|s| - 1]];
    } else {
      assert s == [s[0]];
    }
  }

  /** The rendering of `n` has exactly `k` digits when `10^(k-1) <= n < 10^k`. */
  lemma {:induction false} DecimalStringLength(n: nat, k: nat)
    requires k >= 1 && Pow10(k - 1) <= n < Pow10(k)
    ensures |DecimalString(n)| == k
    decreases k
  {
    if k > 1 {
      DecimalStringLength(n / 10, k - 1);
    }
  }

  /** One element of a fixed-width pattern: a run of `\d` or a literal character. */
  datatype Token = Digits(count: nat) | Literal(c: char)

  function TokenWidth(tok: Token): nat {
    match tok
    case Digits(n) => n
    case Literal(_) => 1
  }

  predicate TokenMatches(tok: Token, s: string)
    requires |s| == TokenWidth(tok)
  {
    match tok
    case Digits(_) => AllDigits(s)
    case Literal(c) => s[0] == c
  }

  /** `s` is matched exactly, start to end, by the fixed-width pattern `pat`. */
  predicate MatchesExactly(pat: seq<Token>, s: string)
    decreases |pat|
  {
    if pat == [] then s == []
    else
      var w := TokenWidth(pat[0]);
      w <= |s| && TokenMatches(pat[0], s[..w]) && MatchesExactly(pat[1..], s[w..])
  }

  /** Python's `re.match('^' + pat + '$', s)`: `$` also accepts one final newline. */
  predicate RegexFullMatch(pat: seq<Token>, s: string) {
    MatchesExactly(pat, s) || (|s| >= 1 && s[|s| - 1] == '\n' && MatchesExactly(pat, s[..|s| - 1]))
  }

  /** The college-ID pattern `\d{4}-\d{2}-\d{3}-\d{3}`. */
  const CollegeIdPattern: seq<Token> :=
    [Digits(4), Literal('-'), Digits(2), Literal('-'), Digits(3), Literal('-'), Digits(3)]

  /** The college-ID shape stated position by position, e.g. `1602-23-737-012`. */
  predicate CollegeIdShape(s: string) {
    && |s| == 15
    && (forall i :: 0 <= i < 15 && i != 4 && i != 7 && i != 11 ==> IsDigit(s[i]))
    && s[4] == '-' && s[7] == '-' && s[11] == '-'
  }

  lemma DigitsSlice(s: string, i: nat, j: nat)
    requires i <= j <= |s|
    ensures AllDigits(s[i..j]) <==> forall k :: i <= k < j ==> IsDigit(s[k])
  {
    if AllDigits(s[i..j]) {
      forall k | i <= k < j ensures IsDigit(s[k]) {
        assert s[i..j][k - i] == s[k];
      }
    }
  }

  function PatternWidth(pat: seq<Token>): nat {
    if pat == [] then 0 else TokenWidth(pat[0]) + PatternWidth(pat[1..])
  }

  /** A string matched exactly by a fixed-width pattern has the pattern's width. */
  lemma {:induction false} MatchedLength(pat: seq<Token>, s: string)
    requires MatchesExactly(pat, s)
    ensures |s| == PatternWidth(pat)
    decreases |pat|
  {
    if pat != [] {
      MatchedLength(pat[1..], s[TokenWidth(pat[0])..]);
    }
  }

  /** One step of the pattern walk, at offset `i` of `s`. */
  lemma WalkStep(pat: seq<Token>, s: string, i: nat)
    requires pat != [] && i + TokenWidth(pat[0]) <= |s|
    ensures MatchesExactly(pat, s[i..]) <==>
              TokenMatches(pat[0], s[i..i + TokenWidth(pat[0])]) &&
              MatchesExactly(pat[1..], s[i + TokenWidth(pat[0])..])
  {
    var w := TokenWidth(pat[0]);
    assert s[i..][..w] == s[i..i + w];
    assert s[i..][w..] == s[i + w..];
  }

  /** The college-ID pattern walked over a string of its width, token by token. */
  lemma CollegeIdWalk(s: string)
    requires |s| == 15
    ensures MatchesExactly(CollegeIdPattern, s) <==>
      && AllDigits(s[0..4]) && s[4] == '-' && AllDigits(s[5..7]) && s[7] == '-'
      && AllDigits(s[8..11]) && s[11] == '-' && AllDigits(s[12..15])
  {
    var p0 := CollegeIdPattern;
    var p1 := p0[1..];
    var p2 := p1[1..];
    var p3 := p2[1..];
    var p4 := p3[1..];
    var p5 := p4[1..];
    var p6 := p5[1..];
    assert p6[1..] == [];
    assert s[0..] == s && s[15..] == [];
    WalkStep(p0, s, 0);
    WalkStep(p1, s, 4);
    WalkStep(p2, s, 5);
    WalkStep(p3, s, 7);
    WalkStep(p4, s, 8);
    WalkStep(p5, s, 11);
    WalkStep(p6, s, 12);
  }

  /** The pattern walk and the positional shape accept the same strings. */
  lemma CollegeIdPatternShape(s: string)
    ensures MatchesExactly(CollegeIdPattern, s) <==> CollegeIdShape(s)
  {
    assert PatternWidth(CollegeIdPattern) == 15;
    if MatchesExactly(CollegeIdPattern, s) {
      MatchedLength(CollegeIdPattern, s);
    }
    if |s| == 15 {
      CollegeIdWalk(s);
      DigitsSlice(s, 0, 4);
      DigitsSlice(s, 5, 7);
      DigitsSlice(s, 8, 11);
      DigitsSlice(s, 12, 15);
    }
  }

  /** `^\d{4}-\d{2}-\d{3}-\d{3}$` as Python applies it: the shape, optionally
      followed by one newline. */
  lemma CollegeIdRegexIff(s: string)
    ensures RegexFullMatch(CollegeIdPattern, s) <==>
              CollegeIdShape(s) || (|s| == 16 && s[15] == '\n' && CollegeIdShape(s[..15]))
  {
    CollegeIdPatternShape(s);
    if |s| >= 1 {
      CollegeIdPatternShape(s[..|s| - 1]);
    }
  }

  /** ASCII case folding, as SQLite's LIKE applies it. */
  function FoldAscii(c: char): char {
    if 'A' <= c <= 'Z' then ((c as int) + 32) as char else c
  }

  /** `needle` occurs in `hay` at offset `i`, up to ASCII case. */
  predicate OccursAt(hay: string, needle: string, i: int) {
    0 <= i && i + |needle| <= |hay| &&
    forall k :: 0 <= k < |needle| ==> FoldAscii(hay[i + k]) == FoldAscii(needle[k])
  }

  /** SQLite's `hay LIKE '%' || needle || '%'` for a needle free of `%` and `_`:
      a case-insensitive (ASCII) substring test, scanning from the left. */
  function LikeContains(hay: string, needle: string): (b: bool)
    ensures b <==> exists i :: OccursAt(hay, needle, i)
    decreases |hay|
  {
    if |needle| > |hay| then false
    else if OccursAt(hay, needle, 0) then true
    else
      var rest := LikeContains(hay[1..], needle);
      assert forall i :: OccursAt(hay[1..], needle, i) <==> OccursAt(hay, needle, i + 1);
      assert forall i :: OccursAt(hay, needle, i) ==> i == 0 || OccursAt(hay[1..], needle, i - 1);
      rest
  }
}
