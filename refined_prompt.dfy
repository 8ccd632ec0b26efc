/**
 * `toCamelCase` and `toDotCase`: reject non-strings, return `''` for empty
 * input or input without words, otherwise split on runs of whitespace, `-`
 * and `_`, clean every word down to `[a-zA-Z0-9]`, case it, and join.
 */
module RefinedPrompt {
  import opened Chars
  import opened Tokens
  import opened SampleText
  import opened JsValues

  // ---------------------------------------------------------------------
  // toCamelCase

  /**
   * What `toCamelCase` maps the word at `index` to: `''` when it cleans to
   * nothing, else the cleaned word lower-cased at index 0 and capitalised at
   * every later index. The index is the word's place before cleaning, so a
   * first word that cleans to nothing leaves the second word capitalised.
   */
  function CamelPiece(word: string, index: nat): string {
    var clean := Clean(word);
    if |clean| == 0 then ""
    else if index == 0 then LowerCase(clean)
    else [ToUpper(clean[0])] + LowerCase(clean[1..])
  }

  function CamelPieces(words: seq<string>): seq<string> {
    seq(|words|, i requires 0 <= i < |words| => CamelPiece(words[i], i))
  }

  /** `toCamelCase` on a string. */
  function CamelCase(s: string): string {
    if |s| == 0 then ""
    else
      var words := Words(s);
      if |words| == 0 then "" else Join(CamelPieces(words), "")
  }

  /** `toCamelCase` on any JavaScript value. */
  function ToCamelCase(input: JsValue): (r: Outcome)
    ensures r.Thrown? <==> !input.Str?
    ensures r.Thrown? ==> r.message == InvalidInput(input)
    ensures input.Str? ==> r == Returned(CamelCase(input.s))
    ensures r.Returned? ==> AllAlnum(r.value)
  {
    if TypeOf(input) != "string" then Thrown(InvalidInput(input))
    else
      CamelCaseText(input.s);
      Returned(CamelCase(input.s))
  }

  /** The early returns are shortcuts: the result is always the pieces of the words put together. */
  lemma CamelCasePipeline(s: string)
    ensures CamelCase(s) == Concat(CamelPieces(Words(s)))
  {
    if |s| == 0 {
      WordsOfEmpty();
    }
    JoinNothing(CamelPieces(Words(s)));
  }

  /**
   * A piece is made of letters and digits and is its word cleaned, up to
   * case; the piece at index 0 has no upper-case letter, and a piece at a
   * later index starts with no lower-case letter and has no upper-case one
   * after that.
   */
  lemma CamelPieceCasing(word: string, index: nat)
    ensures AllAlnum(CamelPiece(word, index))
    ensures LowerCase(CamelPiece(word, index)) == LowerCase(Clean(word))
    ensures index == 0 ==> NoUpper(CamelPiece(word, index))
    ensures index > 0 ==> IsCapitalized(CamelPiece(word, index))
  {
    var clean := Clean(word);
    if |clean| > 0 {
      LowerCaseChars(clean);
      LowerCaseIdempotent(clean);
      if index > 0 {
        var p := [ToUpper(clean[0])] + LowerCase(clean[1..]);
        LowerCaseChars(clean[1..]);
        LowerCaseIdempotent(clean[1..]);
        LowerCaseAppend([ToUpper(clean[0])], LowerCase(clean[1..]));
        LowerCaseAppend([clean[0]], clean[1..]);
        assert clean == [clean[0]] + clean[1..];
        assert p[1..] == LowerCase(clean[1..]);
        assert AllAlnum(p) by {
          assert forall i :: 1 <= i < |p| ==> p[i] == LowerCase(clean[1..])[i - 1];
        }
      }
    }
  }

  /**
   * The camelCase text holds only letters and digits, and is exactly the
   * input's letters and digits, in order, up to case; so its length is the
   * sum of the lengths of the cleaned words.
   */
  lemma CamelCaseText(s: string)
    ensures AllAlnum(CamelCase(s))
    ensures LowerCase(CamelCase(s)) == LowerCase(Clean(s))
    ensures |CamelCase(s)| == |Concat(CleanEach(Words(s)))| == |Clean(s)|
  {
    var words := Words(s);
    var pieces := CamelPieces(words);
    var cleaned := CleanEach(words);
    CamelCasePipeline(s);
    forall k | 0 <= k < |pieces|
      ensures AllAlnum(pieces[k]) && LowerCase(pieces[k]) == LowerCase(cleaned[k])
    {
      CamelPieceCasing(words[k], k);
    }
    ConcatAlnum(pieces);
    LowerCaseConcat(pieces);
    LowerCaseConcat(cleaned);
    assert seq(|pieces|, i requires 0 <= i < |pieces| => LowerCase(pieces[i]))
        == seq(|cleaned|, i requires 0 <= i < |cleaned| => LowerCase(cleaned[i]));
    CleanWords(s);
  }

  /**
   * The camelCase text is the words' pieces put together; the first piece
   * has no upper-case letter and every later one is capitalised.
   */
  lemma CamelCaseShape(s: string)
    ensures var pieces := CamelPieces(Words(s));
      && CamelCase(s) == Concat(pieces)
      && |pieces| == |Words(s)|
      && (forall k :: 0 <= k < |pieces| ==> LowerCase(pieces[k]) == LowerCase(Clean(Words(s)[k])))
      && (pieces != [] ==> NoUpper(pieces[0]))
      && (forall k :: 0 < k < |pieces| ==> IsCapitalized(pieces[k]))
  {
    CamelCasePipeline(s);
    var words := Words(s);
    forall k | 0 <= k < |words|
      ensures LowerCase(CamelPieces(words)[k]) == LowerCase(Clean(words[k]))
      ensures k == 0 ==> NoUpper(CamelPieces(words)[k])
      ensures k > 0 ==> IsCapitalized(CamelPieces(words)[k])
    {
      CamelPieceCasing(words[k], k);
    }
  }

  /**
   * When the first word cleans to nothing, the second word is still
   * capitalised: the text starts with the upper-cased first character of the
   * second word.
   */
  lemma CamelCaseFirstWordCleanedAway(s: string)
    requires |Words(s)| >= 2 && Clean(Words(s)[0]) == [] && Clean(Words(s)[1]) != []
    ensures CamelCase(s) != [] && CamelCase(s)[0] == ToUpper(Clean(Words(s)[1])[0])
  {
    var pieces := CamelPieces(Words(s));
    CamelCasePipeline(s);
    assert pieces[0] == [];
    assert Concat(pieces) == pieces[0] + (pieces[1] + Concat(pieces[2..])) by {
      assert pieces[1..][1..] == pieces[2..];
    }
  }

  /** Input made only of whitespace, `-` and `_` gives the empty string. */
  lemma CamelCaseOfSeparators(s: string)
    requires AllSeparators(WhitespaceHyphenUnderscore, s)
    ensures CamelCase(s) == ""
  {
    WordsOfSeparators(s);
  }

  /** Non-empty words without separators, joined by a run of separators, give the pieces of exactly those words. */
  lemma CamelCaseOfWords(ws: seq<string>, sep: string)
    requires |ws| >= 1 && sep != [] && AllSeparators(WhitespaceHyphenUnderscore, sep)
    requires forall k :: 0 <= k < |ws| ==> ws[k] != [] && NoSeparator(WhitespaceHyphenUnderscore, ws[k])
    ensures CamelCase(Join(ws, sep)) == Concat(CamelPieces(ws))
  {
    WordsOfJoin(ws, sep);
    CamelCasePipeline(Join(ws, sep));
  }

  /** A single word is cleaned and lower-cased. */
  lemma CamelCaseOneWord(w: string)
    requires w != [] && NoSeparator(WhitespaceHyphenUnderscore, w)
    ensures CamelCase(w) == LowerCase(Clean(w))
  {
    assert Join([w], " ") == w;
    CamelCaseOfWords([w], " ");
    assert Concat([CamelPiece(w, 0)]) == CamelPiece(w, 0) + Concat([]);
    assert CamelPieces([w]) == [CamelPiece(w, 0)];
  }

  /**
   * Two words of letters and digits around one separator: the first
   * lower-cased, then the second capitalised.
   */
  lemma CamelCaseTwoWords(a: string, c: char, b: string)
    requires a != [] && b != [] && AllAlnum(a) && AllAlnum(b)
    requires IsSeparator(WhitespaceHyphenUnderscore, c)
    ensures CamelCase(a + [c] + b) == LowerCase(a) + [ToUpper(b[0])] + LowerCase(b[1..])
  {
    AlnumNoSeparator(WhitespaceHyphenUnderscore, a);
    AlnumNoSeparator(WhitespaceHyphenUnderscore, b);
    assert Join([a, b], [c]) == a + [c] + b by {
      assert [a, b][1..] == [b];
    }
    CamelCaseOfWords([a, b], [c]);
    CamelPiecesOfTwo(a, b);
    ConcatTwo(LowerCase(a), [ToUpper(b[0])] + LowerCase(b[1..]));
  }

  lemma CamelPiecesOfTwo(a: string, b: string)
    requires a != [] && b != [] && AllAlnum(a) && AllAlnum(b)
    ensures CamelPieces([a, b]) == [LowerCase(a), [ToUpper(b[0])] + LowerCase(b[1..])]
  {
    CleanOfAlnum(a);
    CleanOfAlnum(b);
  }

  /**
   * A second pass lower-cases everything, because the camelCase text is a
   * single word; so camelCase leaves its own output as it is exactly when
   * that output has no upper-case letter.
   */
  lemma CamelCaseTwice(s: string)
    ensures CamelCase(CamelCase(s)) == LowerCase(Clean(s))
    ensures CamelCase(CamelCase(s)) == CamelCase(s) <==> NoUpper(CamelCase(s))
  {
    var r := CamelCase(s);
    CamelCaseText(s);
    LowerCaseChars(r);
    if r != [] {
      AlnumNoSeparator(WhitespaceHyphenUnderscore, r);
      CamelCaseOneWord(r);
      CleanOfAlnum(r);
    }
    if NoUpper(r) {
      LowerCaseOfLower(r);
    }
  }

  /**
   * The four two-word examples of the documentation comment and of the calls
   * after the function, and every other mix of `hello`/`HELLO`, one
   * separator and `world`/`WORLD`, give `helloWorld`.
   */
  lemma CamelCaseHelloWorld(s: string)
    requires |s| == 11
    requires s[..5] == "hello" || s[..5] == "HELLO"
    requires s[5] == ' ' || s[5] == '-' || s[5] == '_'
    requires s[6..] == "world" || s[6..] == "WORLD"
    ensures CamelCase(s) == "helloWorld"
  {
    HelloWorldParts(s);
    calc {
      CamelCase(s);
      { CamelCaseTwoWords(s[..5], s[5], s[6..]); }
      LowerCase(s[..5]) + [ToUpper(s[6])] + LowerCase(s[7..]);
      { CamelGlue(LowerCase(s[..5]), ToUpper(s[6]), LowerCase(s[7..])); }
      "helloWorld";
    }
  }

  /** The empty and the one-word examples come back unchanged. */
  lemma CamelCaseShortExamples(s: string)
    requires s == "" || s == "single"
    ensures CamelCase(s) == s
  {
    if s != "" {
      AlnumNoSeparator(WhitespaceHyphenUnderscore, s);
      CamelCaseOneWord(s);
      CleanOfAlnum(s);
      LowerCaseOfLower(s);
    }
  }

  // ---------------------------------------------------------------------
  // toDotCase

  /** `toDotCase` on a string. */
  function DotCase(s: string): string {
    if |s| == 0 then ""
    else
      var words := Words(s);
      if |words| == 0 then "" else Join(LowerWords(s), ".")
  }

  /** `toDotCase` on any JavaScript value. */
  function ToDotCase(input: JsValue): (r: Outcome)
    ensures r.Thrown? <==> !input.Str?
    ensures r.Thrown? ==> r.message == InvalidInput(input)
    ensures input.Str? ==> r == Returned(DotCase(input.s))
  {
    if TypeOf(input) != "string" then Thrown(InvalidInput(input))
    else Returned(DotCase(input.s))
  }

  /** The early returns are shortcuts: the result is always the lower-case words joined by `.`. */
  lemma DotCasePipeline(s: string)
    ensures DotCase(s) == Join(LowerWords(s), ".")
  {
    if |s| == 0 {
      WordsOfEmpty();
    }
  }

  /**
   * The dot.case text holds only `[a-z0-9.]`, has no `.` at either end and
   * no two `.` in a row, has one `.` fewer than there are words that do not
   * clean to nothing (none when there are none), and without its dots is the
   * input's letters and digits, lower-cased.
   */
  lemma DotCaseShape(s: string)
    ensures LowerJoinShaped(DotCase(s), '.', s)
  {
    DotCasePipeline(s);
    assert DotCase(s) == Join(LowerWords(s), ['.']);
    LowerJoinShape(s, '.');
  }

  /** Input made only of whitespace, `-` and `_` gives the empty string. */
  lemma DotCaseOfSeparators(s: string)
    requires AllSeparators(WhitespaceHyphenUnderscore, s)
    ensures DotCase(s) == ""
  {
    WordsOfSeparators(s);
  }

  /** Two words of letters and digits around one separator: both lower-cased, with a `.` between. */
  lemma DotCaseTwoWords(a: string, c: char, b: string)
    requires a != [] && b != [] && AllAlnum(a) && AllAlnum(b)
    requires IsSeparator(WhitespaceHyphenUnderscore, c)
    ensures DotCase(a + [c] + b) == LowerCase(a) + "." + LowerCase(b)
  {
    assert Join([a, b], [c]) == a + [c] + b by {
      assert [a, b][1..] == [b];
    }
    LowerWordsOfJoin([a, b], [c]);
    DotCasePipeline(a + [c] + b);
    var ls := [LowerCase(a), LowerCase(b)];
    assert LowerWords(a + [c] + b) == ls;
    assert Join(ls, ".") == ls[0] + "." + Join([ls[1]], ".") by {
      assert ls[1..] == [ls[1]];
    }
  }

  /** A single word is cleaned and lower-cased. */
  lemma DotCaseOneWord(w: string)
    requires w != [] && NoSeparator(WhitespaceHyphenUnderscore, w)
    ensures DotCase(w) == LowerCase(Clean(w))
  {
    assert Join([w], " ") == w;
    WordsOfJoin([w], " ");
    DotCasePipeline(w);
    var piece := LowerPiece(w);
    assert LowerWords(w) == NonEmpty([piece]);
    if Clean(w) == [] {
      assert LowerWords(w) == [];
    } else {
      assert LowerWords(w) == [piece];
    }
  }

  /**
   * A second pass removes the dots, because `.` is not a separator and the
   * dot.case text is a single word; so dot.case leaves its own output as it
   * is exactly when that output has no `.`, that is, when at most one word
   * survives cleaning.
   */
  lemma DotCaseTwice(s: string)
    ensures DotCase(DotCase(s)) == LowerCase(Clean(s))
    ensures DotCase(DotCase(s)) == DotCase(s) <==> Count('.', DotCase(s)) == 0
  {
    var r := DotCase(s);
    DotCaseShape(s);
    DotCaseOfDotted(r);
    LowerCaseIdempotent(Clean(s));
    RemoveCount('.', r);
  }

  /** Text of `[a-z0-9.]` is one word to dot.case, which takes its dots out. */
  lemma DotCaseOfDotted(r: string)
    requires forall i :: 0 <= i < |r| ==> IsLowerAlnum(r[i]) || r[i] == '.'
    ensures DotCase(r) == LowerCase(Remove('.', r))
  {
    CleanIsRemove('.', r);
    if r != [] {
      DottedNoSeparator(r);
      DotCaseOneWord(r);
    }
  }

  /** `.` is not a separator. */
  lemma DottedNoSeparator(r: string)
    requires forall i :: 0 <= i < |r| ==> IsLowerAlnum(r[i]) || r[i] == '.'
    ensures NoSeparator(WhitespaceHyphenUnderscore, r)
  {
    forall i | 0 <= i < |r| ensures !IsSeparator(WhitespaceHyphenUnderscore, r[i]) {
      assert IsLowerAlnum(r[i]) || r[i] == '.';
    }
  }

  /**
   * The four two-word examples of the documentation comment and of the calls
   * after the function, and every other mix of `hello`/`HELLO`, one
   * separator and `world`/`WORLD`, give `hello.world`.
   */
  lemma DotCaseHelloWorld(s: string)
    requires |s| == 11
    requires s[..5] == "hello" || s[..5] == "HELLO"
    requires s[5] == ' ' || s[5] == '-' || s[5] == '_'
    requires s[6..] == "world" || s[6..] == "WORLD"
    ensures DotCase(s) == "hello.world"
  {
    HelloWorldParts(s);
    calc {
      DotCase(s);
      { DotCaseTwoWords(s[..5], s[5], s[6..]); }
      LowerCase(s[..5]) + "." + LowerCase(s[6..]);
      { DottedPair("hello", "world"); }
      "hello.world";
    }
  }

  /** The empty and the one-word examples come back unchanged. */
  lemma DotCaseShortExamples(s: string)
    requires s == "" || s == "single"
    ensures DotCase(s) == s
  {
    if s != "" {
      assert Join([s], " ") == s;
      LowerWordsOfJoin([s], " ");
      DotCasePipeline(s);
      LowerCaseOfLower(s);
      assert LowerWords(s) == [s];
    }
  }

  /** The camelCase and dot.case texts of one input agree up to case once the dots are gone. */
  lemma CamelAndDotAgree(s: string)
    ensures LowerCase(CamelCase(s)) == Remove('.', DotCase(s))
  {
    CamelCaseText(s);
    DotCaseShape(s);
  }

  /** The messages thrown for the non-string calls after the functions. */
  lemma NonStringExamples()
    ensures ToCamelCase(Number(123.0)) == Thrown("Invalid input: expected a string, but received number")
    ensures ToCamelCase(Undefined) == Thrown("Invalid input: expected a string, but received undefined")
    ensures ToDotCase(Number(123.0)) == Thrown("Invalid input: expected a string, but received number")
    ensures ToDotCase(Null) == Thrown("Invalid input: expected a string, but received object")
  {
    InvalidInputMessages();
  }

  // ---------------------------------------------------------------------
  // Literal text of the examples, kept out of the proofs above so that the
  // literals are not unfolded there

  /** `hello.world` assembled from its parts. */
  lemma DottedPair(x: string, y: string)
    requires x == "hello" && y == "world"
    ensures x + "." + y == "hello.world"
  {
  }
}
