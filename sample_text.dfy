/**
 * The text of the worked examples: `hello` or `HELLO`, one separator, then
 * `world` or `WORLD`. Each fact about a string literal gets a small lemma
 * whose arguments are variables pinned by `requires`: stated directly on
 * the literals inside a larger proof, the converters' recursive definitions
 * would be unfolded over every character and the proof would grow too large.
 */
module SampleText {
  import opened Chars
  import opened Tokens

  /**
   * The two-word examples: `hello` or `HELLO`, one of the separators, then
   * `world` or `WORLD`.
   */
  lemma HelloWorldParts(s: string)
    requires |s| == 11
    requires s[..5] == "hello" || s[..5] == "HELLO"
    requires s[5] == ' ' || s[5] == '-' || s[5] == '_'
    requires s[6..] == "world" || s[6..] == "WORLD"
    ensures s == s[..5] + [s[5]] + s[6..]
    ensures AllAlnum(s[..5]) && AllAlnum(s[6..]) && IsSeparator(WhitespaceHyphenUnderscore, s[5])
    ensures LowerCase(s[..5]) == "hello" && LowerCase(s[6..]) == "world"
    ensures ToUpper(s[6]) == 'W' && ToUpper(ToLower(s[6])) == 'W' && LowerCase(s[7..]) == "orld"
  {
    HelloParts(s[..5]);
    WorldParts(s[6..]);
    assert s[6..][1..] == s[7..];
  }

  /** `helloWorld` assembled from its parts. */
  lemma CamelGlue(x: string, c: char, y: string)
    requires x == "hello" && c == 'W' && y == "orld"
    ensures x + [c] + y == "helloWorld"
  {
  }

  /** `hello` in either case, lower-cased. */
  lemma HelloParts(a: string)
    requires a == "hello" || a == "HELLO"
    ensures AllAlnum(a) && LowerCase(a) == "hello"
  {
    LowerCaseChars(a);
  }

  /** `world` in either case: lower-cased, and its first letter upper-cased. */
  lemma WorldParts(b: string)
    requires b == "world" || b == "WORLD"
    ensures AllAlnum(b) && LowerCase(b) == "world"
    ensures ToUpper(b[0]) == 'W' && ToUpper(ToLower(b[0])) == 'W' && LowerCase(b[1..]) == "orld"
  {
    LowerCaseChars(b);
    OrldParts(b[1..]);
  }

  /** `orld` in either case, lower-cased. */
  lemma OrldParts(b: string)
    requires b == "orld" || b == "ORLD"
    ensures LowerCase(b) == "orld"
  {
    LowerCaseChars(b);
  }
}
