/**
 * `toKebabCase`: reject non-strings, return `''` for empty input or input
 * without words, otherwise split on runs of whitespace, `-` and `_`, clean
 * every word down to `[a-zA-Z0-9]`, lower-case it, drop the words that
 * cleaned to nothing and join the rest with `-`.
 */
module ChainPrompt {
  import opened Chars
  import opened Tokens
  import opened SampleText
  import opened JsValues
  import RefinedPrompt

  /** `toKebabCase` on a string. */
  function KebabCase(s: string): string {
    if |s| == 0 then ""
    else
      var words := Words(s);
      if |words| == 0 then "" else Join(LowerWords(s), "-")
  }

  /** `toKebabCase` on any JavaScript value. */
  function ToKebabCase(input: JsValue): (r: Outcome)
    ensures r.Thrown? <==> !input.Str?
    ensures r.Thrown? ==> r.message == InvalidInput(input)
    ensures input.Str? ==> r == Returned(KebabCase(input.s))
  {
    if TypeOf(input) != "string" then Thrown(InvalidInput(input))
    else Returned(KebabCase(input.s))
  }

  /** The early returns are shortcuts: the result is always the lower-case words joined by `-`. */
  lemma KebabCasePipeline(s: string)
    ensures KebabCase(s) == Join(LowerWords(s), "-")
  {
    if |s| == 0 {
      WordsOfEmpty();
    }
  }

  /**
   * The kebab-case text holds only `[a-z0-9-]`, has no `-` at either end and
   * no two `-` in a row, has one `-` fewer than there are words that do not
   * clean to nothing (none when there are none), and without its hyphens is
   * the input's letters and digits, lower-cased.
   */
  lemma KebabCaseShape(s: string)
    ensures LowerJoinShaped(KebabCase(s), '-', s)
  {
    KebabCasePipeline(s);
    assert KebabCase(s) == Join(LowerWords(s), ['-']);
    LowerJoinShape(s, '-');
  }

  /** Input made only of whitespace, `-` and `_` gives the empty string. */
  lemma KebabCaseOfSeparators(s: string)
    requires AllSeparators(WhitespaceHyphenUnderscore, s)
    ensures KebabCase(s) == ""
  {
    WordsOfSeparators(s);
  }

  /** kebab-case is dot.case with `-` in place of every `.`. */
  lemma KebabIsDotWithHyphens(s: string)
    ensures KebabCase(s) == Replace('.', '-', RefinedPrompt.DotCase(s))
  {
    var ws := LowerWords(s);
    KebabCasePipeline(s);
    RefinedPrompt.DotCasePipeline(s);
    LowerWordsFacts(s);
    forall k, i | 0 <= k < |ws| && 0 <= i < |ws[k]| ensures ws[k][i] != '.' {
      assert IsLowerAlnum(ws[k][i]);
    }
    JoinReplace(ws, '.', '-');
  }

  /**
   * kebab-case leaves its own output as it is: the hyphens are separators
   * again and the words are already clean and lower-case.
   */
  lemma KebabCaseIdempotent(s: string)
    ensures KebabCase(KebabCase(s)) == KebabCase(s)
  {
    var ws := LowerWords(s);
    KebabCasePipeline(s);
    KebabCasePipeline(KebabCase(s));
    if ws != [] {
      LowerWordsFacts(s);
      LowerWordsOfLowerJoin(ws, "-");
    }
  }

  /** Two words of letters and digits around one separator: both lower-cased, with a `-` between. */
  lemma KebabCaseTwoWords(a: string, c: char, b: string)
    requires a != [] && b != [] && AllAlnum(a) && AllAlnum(b)
    requires IsSeparator(WhitespaceHyphenUnderscore, c)
    ensures KebabCase(a + [c] + b) == LowerCase(a) + "-" + LowerCase(b)
  {
    assert Join([a, b], [c]) == a + [c] + b by {
      assert [a, b][1..] == [b];
    }
    LowerWordsOfJoin([a, b], [c]);
    KebabCasePipeline(a + [c] + b);
    var ls := [LowerCase(a), LowerCase(b)];
    assert LowerWords(a + [c] + b) == ls;
    assert Join(ls, "-") == ls[0] + "-" + Join([ls[1]], "-") by {
      assert ls[1..] == [ls[1]];
    }
  }

  /**
   * The three two-word calls after the function, and every other mix of
   * `hello`/`HELLO`, one separator and `world`/`WORLD`, give `hello-world`.
   */
  lemma KebabCaseHelloWorld(s: string)
    requires |s| == 11
    requires s[..5] == "hello" || s[..5] == "HELLO"
    requires s[5] == ' ' || s[5] == '-' || s[5] == '_'
    requires s[6..] == "world" || s[6..] == "WORLD"
    ensures KebabCase(s) == "hello-world"
  {
    HelloWorldParts(s);
    calc {
      KebabCase(s);
      { KebabCaseTwoWords(s[..5], s[5], s[6..]); }
      LowerCase(s[..5]) + "-" + LowerCase(s[6..]);
      { HyphenatedPair("hello", "world"); }
      "hello-world";
    }
  }

  /** The empty and the one-word calls come back unchanged. */
  lemma KebabCaseShortExamples(s: string)
    requires s == "" || s == "single"
    ensures KebabCase(s) == s
  {
    if s != "" {
      assert Join([s], " ") == s;
      LowerWordsOfJoin([s], " ");
      KebabCasePipeline(s);
      LowerCaseOfLower(s);
      assert LowerWords(s) == [s];
    }
  }

  /** The messages thrown for the non-string calls after the function. */
  lemma NonStringExamples()
    ensures ToKebabCase(Number(123.0)) == Thrown("Invalid input: expected a string, but received number")
    ensures ToKebabCase(Null) == Thrown("Invalid input: expected a string, but received object")
  {
    InvalidInputMessages();
  }

  // ---------------------------------------------------------------------
  // Literal text of the examples, kept out of the proofs above so that the
  // literals are not unfolded there

  /** `hello-world` assembled from its parts. */
  lemma HyphenatedPair(x: string, y: string)
    requires x == "hello" && y == "world"
    ensures x + "-" + y == "hello-world"
  {
  }
}
