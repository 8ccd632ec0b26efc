/**
 * The earlier `toCamelCase`: split on runs of whitespace and `_` (hyphens
 * are kept), lower-case every piece, capitalise every piece after the first
 * and put them together. Nothing is filtered or cleaned, so a leading
 * separator run gives an empty first piece.
 */
module BasicPrompt {
  import opened Chars
  import opened Tokens
  import opened SampleText

  /** What the piece at `index` becomes: lower-cased, and at every index after the first also given an upper-case first character. */
  function BasicPiece(word: string, index: nat): string {
    var lower := LowerCase(word);
    if index == 0 then lower
    else if lower == [] then []
    else [ToUpper(lower[0])] + lower[1..]
  }

  function BasicPieces(words: seq<string>): seq<string> {
    seq(|words|, i requires 0 <= i < |words| => BasicPiece(words[i], i))
  }

  /** The earlier `toCamelCase`: split on runs of whitespace and `_`, turn each fragment into its piece, and put the pieces together. */
  function ToCamelCase(text: string): string {
    Join(BasicPieces(Split(WhitespaceUnderscore, text)), "")
  }

  /**
   * A piece is its word up to case and as long as it; the piece at index 0
   * has no upper-case letter, and a piece at a later index starts with no
   * lower-case letter and has no upper-case one after that.
   */
  lemma BasicPieceCasing(word: string, index: nat)
    ensures LowerCase(BasicPiece(word, index)) == LowerCase(word)
    ensures |BasicPiece(word, index)| == |word|
    ensures index == 0 ==> NoUpper(BasicPiece(word, index))
    ensures index > 0 ==> IsCapitalized(BasicPiece(word, index))
  {
    var lower := LowerCase(word);
    LowerCaseChars(word);
    LowerCaseIdempotent(word);
    if index > 0 && lower != [] {
      var p := [ToUpper(lower[0])] + lower[1..];
      LowerCaseAppend([ToUpper(lower[0])], lower[1..]);
      LowerCaseAppend([lower[0]], lower[1..]);
      assert lower == [lower[0]] + lower[1..];
      assert p[1..] == lower[1..];
    }
  }

  /**
   * The output is the pieces of the split fragments put together, one piece
   * per fragment; the first piece has no upper-case letter and every later
   * one is capitalised.
   */
  lemma ToCamelCaseShape(text: string)
    ensures var words := Split(WhitespaceUnderscore, text);
      var pieces := BasicPieces(words);
      && ToCamelCase(text) == Concat(pieces)
      && |pieces| == |words|
      && (forall k :: 0 <= k < |pieces| ==> LowerCase(pieces[k]) == LowerCase(words[k]))
      && NoUpper(pieces[0])
      && (forall k :: 0 < k < |pieces| ==> IsCapitalized(pieces[k]))
  {
    var words := Split(WhitespaceUnderscore, text);
    JoinNothing(BasicPieces(words));
    forall k | 0 <= k < |words|
      ensures LowerCase(BasicPieces(words)[k]) == LowerCase(words[k])
      ensures k == 0 ==> NoUpper(BasicPieces(words)[k])
      ensures k > 0 ==> IsCapitalized(BasicPieces(words)[k])
    {
      BasicPieceCasing(words[k], k);
    }
  }

  /** The output is the input without its whitespace and `_`, up to case. */
  lemma ToCamelCaseUpToCase(text: string)
    ensures LowerCase(ToCamelCase(text)) == LowerCase(RemoveSeparators(WhitespaceUnderscore, text))
  {
    var words := Split(WhitespaceUnderscore, text);
    var pieces := BasicPieces(words);
    JoinNothing(pieces);
    forall k | 0 <= k < |pieces| ensures LowerCase(pieces[k]) == LowerCase(words[k]) {
      BasicPieceCasing(words[k], k);
    }
    LowerCaseConcat(pieces);
    LowerCaseConcat(words);
    assert seq(|pieces|, i requires 0 <= i < |pieces| => LowerCase(pieces[i]))
        == seq(|words|, i requires 0 <= i < |words| => LowerCase(words[i]));
    SplitConcat(WhitespaceUnderscore, text);
  }

  /**
   * The output holds no whitespace or `_`, it is as long as the input less
   * the separators, and every `-` of the input is still there.
   */
  lemma ToCamelCaseText(text: string)
    ensures NoSeparator(WhitespaceUnderscore, ToCamelCase(text))
    ensures |ToCamelCase(text)| == |text| - SeparatorCount(WhitespaceUnderscore, text)
    ensures Count('-', ToCamelCase(text)) == Count('-', text)
  {
    var r := ToCamelCase(text);
    var removed := RemoveSeparators(WhitespaceUnderscore, text);
    ToCamelCaseUpToCase(text);
    RemoveSeparatorsCounts(WhitespaceUnderscore, text);
    LowerCaseSeparators(WhitespaceUnderscore, r, removed);
    CountLowerCase('-', r);
    CountLowerCase('-', removed);
    assert |r| == |LowerCase(r)| == |LowerCase(removed)| == |removed|;
  }

  /** The empty string splits into one empty piece, which stays empty. */
  lemma ToCamelCaseOfEmpty()
    ensures ToCamelCase("") == ""
  {
    assert Split(WhitespaceUnderscore, "") == [""];
    assert BasicPieces([""]) == [""];
  }

  /** Text without whitespace or `_`, hyphens included, is one piece: it is lower-cased and nothing else. */
  lemma ToCamelCaseOneWord(w: string)
    requires NoSeparator(WhitespaceUnderscore, w)
    ensures ToCamelCase(w) == LowerCase(w)
  {
    LeadingWordOfWord(WhitespaceUnderscore, w);
    assert Split(WhitespaceUnderscore, w) == [w];
    assert BasicPieces([w]) == [LowerCase(w)];
  }

  /**
   * A leading separator gives an empty first piece, so what would have been
   * the first piece is capitalised: the output is the output for the rest
   * with its first character upper-cased.
   */
  lemma ToCamelCaseLeadingSeparator(c: char, t: string)
    requires IsSeparator(WhitespaceUnderscore, c)
    requires t != [] && !IsSeparator(WhitespaceUnderscore, t[0])
    ensures ToCamelCase(t) != []
    ensures ToCamelCase([c] + t) == [ToUpper(ToCamelCase(t)[0])] + ToCamelCase(t)[1..]
  {
    var words := Split(WhitespaceUnderscore, t);
    SplitLeadingSeparator(WhitespaceUnderscore, c, t);
    SplitFragments(WhitespaceUnderscore, t);
    BasicPiecesShifted(words);
    var lower := LowerCase(words[0]);
    var tail := Concat(BasicPieces(words)[1..]);
    ShiftedConcat(lower, BasicPieces(words)[1..]);
    JoinNothing(BasicPieces(words));
    JoinNothing(BasicPieces([""] + words));
    CapitalizeAppend(lower, tail);
  }

  lemma ShiftedConcat(lower: string, tail: seq<string>)
    requires lower != []
    ensures Concat([lower] + tail) == lower + Concat(tail)
    ensures Concat([[], [ToUpper(lower[0])] + lower[1..]] + tail) == [ToUpper(lower[0])] + lower[1..] + Concat(tail)
  {
    var cap := [ToUpper(lower[0])] + lower[1..];
    ConcatCons(lower, tail);
    assert [[], cap] + tail == [[]] + ([cap] + tail);
    ConcatCons([], [cap] + tail);
    ConcatCons(cap, tail);
  }

  lemma CapitalizeAppend(lower: string, tail: string)
    requires lower != []
    ensures [ToUpper(lower[0])] + lower[1..] + tail == [ToUpper((lower + tail)[0])] + (lower + tail)[1..]
  {
    assert (lower + tail)[1..] == lower[1..] + tail;
  }

  /** The pieces after an empty first word: the old first piece capitalised, the later ones unchanged. */
  lemma BasicPiecesShifted(words: seq<string>)
    requires words != [] && words[0] != []
    ensures LowerCase(words[0]) != []
    ensures BasicPieces(words) == [LowerCase(words[0])] + BasicPieces(words)[1..]
    ensures var lower := LowerCase(words[0]);
      BasicPieces([""] + words) == [[], [ToUpper(lower[0])] + lower[1..]] + BasicPieces(words)[1..]
  {
    var pieces := BasicPieces(words);
    var shifted := BasicPieces([""] + words);
    assert shifted[2..] == pieces[1..];
  }

  /** Two words without separators around one separator: the first lower-cased, then the second capitalised. */
  lemma ToCamelCaseTwoWords(a: string, c: char, b: string)
    requires a != [] && b != [] && NoSeparator(WhitespaceUnderscore, a) && NoSeparator(WhitespaceUnderscore, b)
    requires IsSeparator(WhitespaceUnderscore, c)
    ensures ToCamelCase(a + [c] + b) == LowerCase(a) + [ToUpper(ToLower(b[0]))] + LowerCase(b[1..])
  {
    SplitTwo(WhitespaceUnderscore, a, c, b);
    BasicPiecesOfTwo(a, b);
    var pieces := BasicPieces([a, b]);
    assert ToCamelCase(a + [c] + b) == Join(pieces, "");
    JoinNothing(pieces);
    ConcatTwo(pieces[0], pieces[1]);
  }

  lemma BasicPiecesOfTwo(a: string, b: string)
    requires b != []
    ensures BasicPieces([a, b]) == [LowerCase(a), [ToUpper(ToLower(b[0]))] + LowerCase(b[1..])]
  {
    LowerCaseAppend([b[0]], b[1..]);
    assert b == [b[0]] + b[1..];
  }

  /**
   * `hello world` gives `helloWorld`, and so does every other mix of
   * `hello`/`HELLO`, a space or `_`, and `world`/`WORLD`.
   */
  lemma ToCamelCaseHelloWorld(s: string)
    requires |s| == 11
    requires s[..5] == "hello" || s[..5] == "HELLO"
    requires s[5] == ' ' || s[5] == '_'
    requires s[6..] == "world" || s[6..] == "WORLD"
    ensures ToCamelCase(s) == "helloWorld"
  {
    HelloWorldParts(s);
    var a, b := s[..5], s[6..];
    calc {
      ToCamelCase(s);
      { AlnumNoSeparator(WhitespaceUnderscore, a);
        AlnumNoSeparator(WhitespaceUnderscore, b);
        ToCamelCaseTwoWords(a, s[5], b); }
      LowerCase(a) + [ToUpper(ToLower(b[0]))] + LowerCase(b[1..]);
      { CamelGlue(LowerCase(a), ToUpper(ToLower(b[0])), LowerCase(b[1..])); }
      "helloWorld";
    }
  }

  /** Hyphens are not separators here: `hello-world` comes back as it is. */
  lemma ToCamelCaseKeepsHyphens(t: string)
    requires t == "hello-world"
    ensures ToCamelCase(t) == t
  {
    HyphenatedWord(t);
    ToCamelCaseOneWord(t);
    LowerCaseOfLower(t);
  }

  /** A leading space makes the first word capitalised: ` hello world` gives `HelloWorld`. */
  lemma ToCamelCaseLeadingSpace(u: string)
    requires |u| == 12 && u[0] == ' ' && u[1..6] == "hello" && u[6] == ' ' && u[7..] == "world"
    ensures ToCamelCase(u) == "HelloWorld"
  {
    var s := u[1..];
    assert u == [' '] + s;
    assert s[..5] == "hello" && s[5] == ' ' && s[6..] == "world";
    ToCamelCaseHelloWorld(s);
    ToCamelCaseLeadingSeparator(' ', s);
    CapitalGlue(ToCamelCase(s));
  }

  // ---------------------------------------------------------------------
  // Literal text of the examples, kept out of the proofs above so that the
  // literals are not unfolded there

  /** `hello-world` has no separator of the earlier camelCase and no upper-case letter. */
  lemma HyphenatedWord(t: string)
    requires t == "hello-world"
    ensures NoSeparator(WhitespaceUnderscore, t) && NoUpper(t)
  {
  }

  /** `helloWorld` with its first letter upper-cased. */
  lemma CapitalGlue(r: string)
    requires r == "helloWorld"
    ensures [ToUpper(r[0])] + r[1..] == "HelloWorld"
  {
  }
}
