/**
 * The ISSN recogniser shared by both scripts: the compiled pattern
 * `^\d{4}-?\d{3}(\d|x)$` with IGNORECASE, used through `re.match`.
 *
 * The pattern is modelled piece by piece, the way the regular-expression
 * engine consumes its input: each piece takes a string and returns what is
 * left of it, or None when the piece does not match. No alternative of the
 * pattern can succeed after another has failed (a digit can never stand
 * where the optional hyphen was skipped), so taking `-?` greedily loses no
 * match. `\d` without the UNICODE flag is the ten ASCII digits; IGNORECASE
 * only affects the letter `x`. Syntax only: no check-digit arithmetic.
 */
module IssnPattern {
  import opened Collections

  predicate IsAsciiDigit(ch: char) {
    '0' <= ch <= '9'
  }

  /** `(\d|x)` under IGNORECASE. */
  predicate IsCheckChar(ch: char) {
    IsAsciiDigit(ch) || ch == 'x' || ch == 'X'
  }

  /** `\d{n}`: exactly `n` ASCII digits at the front of `s`. */
  function Digits(s: string, n: nat): (rest: Option<string>)
    ensures rest.Some? <==> n <= |s| && forall k :: 0 <= k < n ==> IsAsciiDigit(s[k])
    ensures rest.Some? ==> rest.value == s[n..]
  {
    if n == 0 then Some(s)
    else if |s| > 0 && IsAsciiDigit(s[0]) then Digits(s[1..], n - 1)
    else None
  }

  /** `-?`, taken greedily. */
  function OptionalHyphen(s: string): string {
    if |s| > 0 && s[0] == '-' then s[1..] else s
  }

  /** The final `(\d|x)`. */
  function CheckChar(s: string): Option<string> {
    if |s| > 0 && IsCheckChar(s[0]) then Some(s[1..]) else None
  }

  /**
   * What is left of `s` once `^\d{4}-?\d{3}(\d|x)` has been matched at its
   * front, or None when it does not match there. The pattern only ever
   * consumes a prefix.
   */
  function AfterPattern(s: string): (rest: Option<string>)
    ensures rest.Some? ==> |rest.value| < |s| && rest.value == s[|s| - |rest.value|..]
    ensures rest.Some? ==> 8 <= |s| - |rest.value| <= 9
  {
    match Digits(s, 4)
    case None => None
    case Some(a) =>
      match Digits(OptionalHyphen(a), 3)
      case None => None
      case Some(b) => CheckChar(b)
  }

  /** The whole of `s` is an ISSN: nothing is left after the pattern. */
  predicate IsIssn(s: string) {
    AfterPattern(s) == Some("")
  }

  /**
   * `ISSN_REGEX.match(s)` succeeds. Python's `$` matches at the end of the
   * string and also just before a newline that ends it.
   */
  predicate RegexMatches(s: string)
    ensures IsIssn(s) ==> RegexMatches(s)
    ensures RegexMatches(s) ==> 8 <= |s| <= 10
    ensures RegexMatches(s) && !IsIssn(s) ==> s[|s| - 1] == '\n'
  {
    AfterPattern(s) == Some("") || AfterPattern(s) == Some("\n")
  }

  /** The accepted shapes written out position by position. */
  predicate IssnShape(s: string) {
    || (&& |s| == 8
        && (forall k :: 0 <= k < 7 ==> IsAsciiDigit(s[k]))
        && IsCheckChar(s[7]))
    || (&& |s| == 9
        && (forall k :: 0 <= k < 4 ==> IsAsciiDigit(s[k]))
        && s[4] == '-'
        && (forall k :: 5 <= k < 8 ==> IsAsciiDigit(s[k]))
        && IsCheckChar(s[8]))
  }

  /** The piecewise matcher accepts exactly the two shapes. */
  lemma {:induction false} IsIssnIffShape(s: string)
    ensures IsIssn(s) <==> IssnShape(s)
  {
    var a := Digits(s, 4);
    if a.Some? {
      var h := OptionalHyphen(a.value);
      var b := Digits(h, 3);
      if b.Some? {
        if |s| > 4 && s[4] == '-' {
          assert h == s[5..];
          assert forall k :: 5 <= k < 8 && k < |s| ==> s[k] == h[k - 5];
        } else {
          assert h == s[4..];
          assert forall k :: 4 <= k < 7 && k < |s| ==> s[k] == h[k - 4];
        }
      }
    }
  }

  /**
   * An ISSN token is 8 or 9 characters of ASCII digits, one hyphen at most
   * (and then at index 4 of a 9-character token), and `x`/`X` at most as the
   * last character; in particular it contains no whitespace.
   */
  lemma IssnAlphabet(s: string)
    requires IsIssn(s)
    ensures |s| == 8 || |s| == 9
    ensures forall k :: 0 <= k < |s| - 1 ==> IsAsciiDigit(s[k]) || (k == 4 && |s| == 9 && s[k] == '-')
    ensures IsCheckChar(s[|s| - 1])
  {
    IsIssnIffShape(s);
  }

  /**
   * On a string that does not end in a newline, `re.match` with the anchored
   * pattern accepts exactly the ISSN tokens.
   */
  lemma MatchWithoutFinalNewline(s: string)
    requires |s| == 0 || s[|s| - 1] != '\n'
    ensures RegexMatches(s) <==> IsIssn(s)
  {
  }

  /** Where the newline quirk shows: the pattern accepts a token followed by a newline. */
  lemma FinalNewlineQuirk()
    ensures RegexMatches("12345678\n")
    ensures !IsIssn("12345678\n")
  {
    assert Digits("12345678\n", 4) == Some("5678\n");
    assert Digits("5678\n", 3) == Some("8\n");
  }

  /**
   * No check-digit arithmetic: replacing the check character of an accepted
   * token by any digit, `x` or `X` gives another accepted token, although
   * ISO 3297 allows exactly one check character for the first seven digits.
   */
  lemma CheckCharacterNotVerified(s: string, c: char)
    requires IsIssn(s) && IsCheckChar(c)
    ensures IsIssn(s[..|s| - 1] + [c])
  {
    IsIssnIffShape(s);
    IsIssnIffShape(s[..|s| - 1] + [c]);
  }

  /** A token with the checksum ISO 3297 rejects is still accepted. */
  lemma WrongCheckDigitAccepted()
    ensures IsIssn("1234-5678")
  {
    assert Digits("1234-5678", 4) == Some("-5678");
    assert Digits("5678", 3) == Some("8");
  }

  /** Near misses: a doubled hyphen, a tenth character, a misplaced hyphen. */
  lemma NearMissesRejected()
    ensures !IsIssn("1234--5678") && !IsIssn("0001-0002X") && !IsIssn("123-45678")
  {
    IsIssnIffShape("1234--5678");
    IsIssnIffShape("0001-0002X");
    IsIssnIffShape("123-45678");
  }

  /** IGNORECASE: a lower-case check character is accepted. */
  lemma AcceptsLowerCaseX()
    ensures IsIssn("1234-567x")
  {
    assert Digits("1234-567x", 4) == Some("-567x");
    assert Digits("567x", 3) == Some("x");
  }

  lemma AcceptsUpperCaseX()
    ensures IsIssn("1234-567X")
  {
    assert Digits("1234-567X", 4) == Some("-567X");
    assert Digits("567X", 3) == Some("X");
  }

  /** The hyphen is optional. */
  lemma AcceptsUnhyphenated()
    ensures IsIssn("1234567X")
  {
    assert Digits("1234567X", 4) == Some("567X");
    assert Digits("567X", 3) == Some("X");
  }
}
