/**
 * Splitting text into words and joining words back: JavaScript's
 * `String.prototype.split` with a one-or-more separator-class regular
 * expression, `Array.prototype.filter` of empty strings and
 * `Array.prototype.join`, and the word pipeline shared by the converters.
 */
module Tokens {
  import opened Chars

  /** The separator class of a split pattern. */
  datatype Separators =
    | WhitespaceHyphenUnderscore  // `/[\s\-_]+/`
    | WhitespaceUnderscore        // `/[\s_]+/`

  predicate IsSeparator(seps: Separators, c: char) {
    IsJsWhitespace(c) || c == '_' || (seps == WhitespaceHyphenUnderscore && c == '-')
  }

  predicate NoSeparator(seps: Separators, w: string) {
    forall i :: 0 <= i < |w| ==> !IsSeparator(seps, w[i])
  }

  predicate AllSeparators(seps: Separators, w: string) {
    forall i :: 0 <= i < |w| ==> IsSeparator(seps, w[i])
  }

  /** The longest prefix of `s` that holds no separator. */
  function LeadingWord(seps: Separators, s: string): (w: string)
    ensures |w| <= |s|
    ensures |w| < |s| ==> IsSeparator(seps, s[|w|])
  {
    if s == [] || IsSeparator(seps, s[0]) then [] else [s[0]] + LeadingWord(seps, s[1..])
  }

  /** `s` without its leading run of separators. */
  function DropSeparators(seps: Separators, s: string): (t: string)
    ensures |t| <= |s|
    ensures s != [] && IsSeparator(seps, s[0]) ==> |t| < |s|
  {
    if s != [] && IsSeparator(seps, s[0]) then DropSeparators(seps, s[1..]) else s
  }

  lemma {:induction false} LeadingWordIsWord(seps: Separators, s: string)
    ensures NoSeparator(seps, LeadingWord(seps, s))
    ensures LeadingWord(seps, s) == s[..|LeadingWord(seps, s)|]
    ensures LeadingWord(seps, s) == [] <==> s == [] || IsSeparator(seps, s[0])
  {
    if s != [] && !IsSeparator(seps, s[0]) {
      LeadingWordIsWord(seps, s[1..]);
    }
  }

  lemma {:induction false} DropSeparatorsStops(seps: Separators, s: string)
    ensures DropSeparators(seps, s) == [] || !IsSeparator(seps, DropSeparators(seps, s)[0])
  {
    if s != [] && IsSeparator(seps, s[0]) {
      DropSeparatorsStops(seps, s[1..]);
    }
  }

  /**
   * `String.prototype.split` with a pattern matching one or more separators: the
   * fragments between maximal separator runs, in order. A leading or
   * trailing run gives an empty first or last fragment, and `""` splits
   * into `[""]`.
   */
  function Split(seps: Separators, s: string): (fs: seq<string>)
    ensures |fs| >= 1
    ensures s == [] ==> fs == [[]]
    decreases |s|
  {
    var w := LeadingWord(seps, s);
    if |w| == |s| then [w]
    else [w] + Split(seps, DropSeparators(seps, s[|w|..]))
  }

  /** `s` with every separator taken out. */
  function RemoveSeparators(seps: Separators, s: string): string {
    if s == [] then [] else (if IsSeparator(seps, s[0]) then [] else [s[0]]) + RemoveSeparators(seps, s[1..])
  }

  /** `Array.prototype.filter` keeping the non-empty strings, in order. */
  function NonEmpty(ws: seq<string>): (r: seq<string>)
    ensures |r| <= |ws|
    ensures forall k :: 0 <= k < |r| ==> r[k] != [] && r[k] in ws
  {
    if ws == [] then [] else (if ws[0] == [] then [] else [ws[0]]) + NonEmpty(ws[1..])
  }

  /** `Array.prototype.join` with the empty joiner: the strings put together. */
  function Concat(ws: seq<string>): string {
    if ws == [] then [] else ws[0] + Concat(ws[1..])
  }

  /** `Array.prototype.join`: the strings with `sep` between each two neighbours. */
  function Join(ws: seq<string>, sep: string): string {
    if |ws| == 0 then [] else if |ws| == 1 then ws[0] else ws[0] + sep + Join(ws[1..], sep)
  }

  /**
   * The words `toCamelCase`, `toDotCase` and `toKebabCase` start from: the
   * fragments between runs of whitespace, `-` and `_`, without the empty ones.
   */
  function Words(s: string): seq<string> {
    NonEmpty(Split(WhitespaceHyphenUnderscore, s))
  }

  /** Each word cleaned of everything but letters and digits. */
  function CleanEach(ws: seq<string>): seq<string> {
    seq(|ws|, i requires 0 <= i < |ws| => Clean(ws[i]))
  }

  /** What dot.case and kebab-case map one word to: its letters and digits, lower-cased (empty when it has none). */
  function LowerPiece(word: string): string {
    var clean := Clean(word);
    if |clean| > 0 then LowerCase(clean) else ""
  }

  /**
   * The words `toDotCase` and `toKebabCase` join: every word cleaned and
   * lower-cased, and the words that cleaned to nothing dropped.
   */
  function LowerWords(s: string): seq<string> {
    var words := Words(s);
    NonEmpty(seq(|words|, i requires 0 <= i < |words| => LowerPiece(words[i])))
  }

  // ---------------------------------------------------------------------
  // Splitting

  lemma {:induction false} RemoveSeparatorsAppend(seps: Separators, a: string, b: string)
    ensures RemoveSeparators(seps, a + b) == RemoveSeparators(seps, a) + RemoveSeparators(seps, b)
  {
    if a != [] {
      assert (a + b)[1..] == a[1..] + b;
      RemoveSeparatorsAppend(seps, a[1..], b);
    } else {
      assert a + b == b;
    }
  }

  lemma {:induction false} RemoveSeparatorsOfWord(seps: Separators, w: string)
    requires NoSeparator(seps, w)
    ensures RemoveSeparators(seps, w) == w
  {
    if w != [] {
      RemoveSeparatorsOfWord(seps, w[1..]);
    }
  }

  lemma ConcatCons(w: string, ws: seq<string>)
    ensures Concat([w] + ws) == w + Concat(ws)
  {
    assert ([w] + ws)[1..] == ws;
  }

  /** Taking the separators out of `s` keeps its leading word. */
  lemma RemoveSeparatorsLeading(seps: Separators, s: string)
    ensures RemoveSeparators(seps, s)
         == LeadingWord(seps, s) + RemoveSeparators(seps, s[|LeadingWord(seps, s)|..])
  {
    var w := LeadingWord(seps, s);
    LeadingWordIsWord(seps, s);
    assert s == w + s[|w|..];
    RemoveSeparatorsAppend(seps, w, s[|w|..]);
    RemoveSeparatorsOfWord(seps, w);
  }

  /** A leading run of separators contributes nothing once separators are taken out. */
  lemma {:induction false} RemoveSeparatorsDrop(seps: Separators, t: string)
    ensures RemoveSeparators(seps, DropSeparators(seps, t)) == RemoveSeparators(seps, t)
  {
    if t != [] && IsSeparator(seps, t[0]) {
      RemoveSeparatorsDrop(seps, t[1..]);
    }
  }

  /** The fragments of a split, put together, are the input without its separators. */
  lemma {:induction false} SplitConcat(seps: Separators, s: string)
    ensures Concat(Split(seps, s)) == RemoveSeparators(seps, s)
    decreases |s|
  {
    var w := LeadingWord(seps, s);
    if |w| == |s| {
      LeadingWordIsWord(seps, s);
      RemoveSeparatorsOfWord(seps, w);
      assert s == w;
      ConcatCons(w, []);
    } else {
      var rest := DropSeparators(seps, s[|w|..]);
      RemoveSeparatorsLeading(seps, s);
      RemoveSeparatorsDrop(seps, s[|w|..]);
      SplitConcat(seps, rest);
      assert Split(seps, s) == [w] + Split(seps, rest);
      ConcatCons(w, Split(seps, rest));
    }
  }

  /**
   * The fragments of a split hold no separator, and only the first and the
   * last can be empty; the first is empty exactly when the text starts with
   * a separator or is empty.
   */
  lemma {:induction false} SplitFragments(seps: Separators, s: string)
    ensures SplitShaped(seps, Split(seps, s))
    ensures Split(seps, s)[0] == [] <==> s == [] || IsSeparator(seps, s[0])
    decreases |s|
  {
    var w := LeadingWord(seps, s);
    LeadingWordIsWord(seps, s);
    if |w| < |s| {
      var rest := DropSeparators(seps, s[|w|..]);
      DropSeparatorsStops(seps, s[|w|..]);
      SplitFragments(seps, rest);
      assert Split(seps, s) == [w] + Split(seps, rest);
      assert ([w] + Split(seps, rest))[1..] == Split(seps, rest);
    }
  }

  /** Text made only of separators splits into empty fragments alone. */
  lemma {:induction false} SplitOfSeparators(seps: Separators, s: string)
    requires AllSeparators(seps, s)
    ensures forall k :: 0 <= k < |Split(seps, s)| ==> Split(seps, s)[k] == []
    decreases |s|
  {
    var w := LeadingWord(seps, s);
    assert w == [];
    if |s| > 0 {
      assert s[|w|..] == s;
      DropSeparatorsOfRun(seps, s, []);
      assert s + [] == s;
      assert Split(seps, s) == [w] + Split(seps, []);
    }
  }

  lemma {:induction false} NonEmptyOfEmpties(ws: seq<string>)
    requires forall k :: 0 <= k < |ws| ==> ws[k] == []
    ensures NonEmpty(ws) == []
  {
    if ws != [] {
      NonEmptyOfEmpties(ws[1..]);
    }
  }

  lemma {:induction false} NonEmptyOfNonEmpties(ws: seq<string>)
    requires forall k :: 0 <= k < |ws| ==> ws[k] != []
    ensures NonEmpty(ws) == ws
  {
    if ws != [] {
      NonEmptyOfNonEmpties(ws[1..]);
      assert ws == [ws[0]] + ws[1..];
    }
  }

  /** Dropping empty strings does not change what the words put together give. */
  lemma {:induction false} NonEmptyConcat(ws: seq<string>)
    ensures Concat(NonEmpty(ws)) == Concat(ws)
  {
    if ws != [] {
      NonEmptyConcat(ws[1..]);
      var head := if ws[0] == [] then [] else [ws[0]];
      assert NonEmpty(ws) == head + NonEmpty(ws[1..]);
      if ws[0] != [] {
        assert (head + NonEmpty(ws[1..]))[1..] == NonEmpty(ws[1..]);
      } else {
        assert NonEmpty(ws) == NonEmpty(ws[1..]);
        assert Concat(ws) == Concat(ws[1..]);
      }
    }
  }

  /**
   * The filter works part by part and keeps the order: filtering a list is
   * filtering its parts and putting the results together.
   */
  lemma {:induction false} NonEmptyAppend(a: seq<string>, b: seq<string>)
    ensures NonEmpty(a + b) == NonEmpty(a) + NonEmpty(b)
  {
    if a != [] {
      assert (a + b)[1..] == a[1..] + b;
      NonEmptyAppend(a[1..], b);
    } else {
      assert a + b == b;
    }
  }

  /** One word is kept exactly when it is non-empty. */
  lemma NonEmptyOne(w: string)
    ensures NonEmpty([w]) == if w == [] then [] else [w]
  {
    assert [w][1..] == [];
  }

  /** Every non-empty word of the list is kept. */
  lemma {:induction false} NonEmptyKeeps(ws: seq<string>)
    ensures forall w :: w in ws && w != [] ==> w in NonEmpty(ws)
  {
    if ws != [] {
      NonEmptyKeeps(ws[1..]);
      forall w | w in ws && w != [] ensures w in NonEmpty(ws) {
        if w != ws[0] {
          assert w in ws[1..];
        }
      }
    }
  }

  /** The input made only of separators has no words. */
  lemma WordsOfSeparators(s: string)
    requires AllSeparators(WhitespaceHyphenUnderscore, s)
    ensures Words(s) == []
  {
    SplitOfSeparators(WhitespaceHyphenUnderscore, s);
    NonEmptyOfEmpties(Split(WhitespaceHyphenUnderscore, s));
  }

  // ---------------------------------------------------------------------
  // Joining

  lemma {:induction false} JoinPrefix(ws: seq<string>, sep: string)
    requires |ws| >= 1
    ensures |ws[0]| <= |Join(ws, sep)| && Join(ws, sep)[..|ws[0]|] == ws[0]
  {
    if |ws| > 1 {
      assert Join(ws, sep) == ws[0] + (sep + Join(ws[1..], sep));
    }
  }

  lemma {:induction false} LeadingWordOfWord(seps: Separators, w: string)
    requires NoSeparator(seps, w)
    ensures LeadingWord(seps, w) == w
  {
    if w != [] {
      LeadingWordOfWord(seps, w[1..]);
    }
  }

  lemma {:induction false} LeadingWordStops(seps: Separators, w: string, t: string)
    requires NoSeparator(seps, w) && t != [] && IsSeparator(seps, t[0])
    ensures LeadingWord(seps, w + t) == w
  {
    if w != [] {
      assert (w + t)[1..] == w[1..] + t;
      LeadingWordStops(seps, w[1..], t);
    } else {
      assert w + t == t;
    }
  }

  lemma {:induction false} DropSeparatorsOfRun(seps: Separators, run: string, t: string)
    requires AllSeparators(seps, run)
    requires t == [] || !IsSeparator(seps, t[0])
    ensures DropSeparators(seps, run + t) == t
  {
    if run != [] {
      assert (run + t)[1..] == run[1..] + t;
      DropSeparatorsOfRun(seps, run[1..], t);
    } else {
      assert run + t == t;
    }
  }

  /** A word, a non-empty run of separators and text that does not start with one split at the run. */
  lemma SplitStep(seps: Separators, w: string, run: string, t: string)
    requires NoSeparator(seps, w) && run != [] && AllSeparators(seps, run)
    requires t == [] || !IsSeparator(seps, t[0])
    ensures Split(seps, w + (run + t)) == [w] + Split(seps, t)
  {
    var s := w + (run + t);
    LeadingWordStops(seps, w, run + t);
    assert s[|w|..] == run + t;
    DropSeparatorsOfRun(seps, run, t);
  }

  /** Two words without separators around one separator split into those two words. */
  lemma SplitTwo(seps: Separators, a: string, c: char, b: string)
    requires a != [] && b != [] && NoSeparator(seps, a) && NoSeparator(seps, b) && IsSeparator(seps, c)
    ensures Split(seps, a + [c] + b) == [a, b]
  {
    SplitStep(seps, a, [c], b);
    assert a + ([c] + b) == a + [c] + b;
    LeadingWordOfWord(seps, b);
  }

  /** A separator in front adds an empty first fragment and changes nothing else. */
  lemma SplitLeadingSeparator(seps: Separators, c: char, t: string)
    requires IsSeparator(seps, c) && (t == [] || !IsSeparator(seps, t[0]))
    ensures Split(seps, [c] + t) == [""] + Split(seps, t)
  {
    SplitStep(seps, "", [c], t);
    assert [] + ([c] + t) == [c] + t;
  }

  /** A join of words whose first is non-empty unless it is the only one does not start with a separator. */
  lemma JoinHead(seps: Separators, ws: seq<string>, sep: string)
    requires |ws| >= 1 && NoSeparator(seps, ws[0]) && (|ws| > 1 ==> ws[0] != [])
    ensures Join(ws, sep) == [] || !IsSeparator(seps, Join(ws, sep)[0])
  {
    JoinPrefix(ws, sep);
    if ws[0] != [] {
      assert Join(ws, sep)[0] == ws[0][0];
    }
  }

  /** Words that a split can give back: none holds a separator, and only the first and the last may be empty. */
  predicate SplitShaped(seps: Separators, ws: seq<string>) {
    && |ws| >= 1
    && NoSeparator(seps, ws[0])
    && (|ws| > 1 ==> (|ws| > 2 ==> ws[1] != []) && SplitShaped(seps, ws[1..]))
  }

  lemma {:induction false} SplitShapedOfWords(seps: Separators, ws: seq<string>)
    requires |ws| >= 1
    requires forall k :: 0 <= k < |ws| ==> ws[k] != [] && NoSeparator(seps, ws[k])
    ensures SplitShaped(seps, ws)
  {
    if |ws| > 1 {
      var ws' := ws[1..];
      assert forall k :: 0 <= k < |ws'| ==> ws'[k] == ws[k + 1];
      SplitShapedOfWords(seps, ws');
    }
  }

  /**
   * Splitting undoes joining: words without separators, of which only the
   * first and the last may be empty, joined by a non-empty run of
   * separators, split back into the same words.
   */
  lemma {:induction false} SplitJoin(seps: Separators, ws: seq<string>, sep: string)
    requires SplitShaped(seps, ws) && sep != [] && AllSeparators(seps, sep)
    ensures Split(seps, Join(ws, sep)) == ws
  {
    if |ws| == 1 {
      LeadingWordOfWord(seps, ws[0]);
    } else {
      SplitJoinStep(seps, ws, sep);
      SplitJoin(seps, ws[1..], sep);
      assert [ws[0]] + ws[1..] == ws;
    }
  }

  lemma SplitJoinStep(seps: Separators, ws: seq<string>, sep: string)
    requires SplitShaped(seps, ws) && |ws| > 1 && sep != [] && AllSeparators(seps, sep)
    ensures Split(seps, Join(ws, sep)) == [ws[0]] + Split(seps, Join(ws[1..], sep))
  {
    var tail := Join(ws[1..], sep);
    assert Join(ws, sep) == ws[0] + (sep + tail);
    JoinHead(seps, ws[1..], sep);
    SplitStep(seps, ws[0], sep, tail);
  }

  /**
   * Non-empty words that do not contain `j`, joined by `j`: the result is
   * empty exactly when there are no words, has no `j` at either end and no
   * two `j` next to each other, and holds one `j` fewer than there are words.
   */
  lemma {:induction false} JoinShape(ws: seq<string>, j: char)
    requires forall k :: 0 <= k < |ws| ==> ws[k] != []
    requires forall k, i :: 0 <= k < |ws| && 0 <= i < |ws[k]| ==> ws[k][i] != j
    ensures var r := Join(ws, [j]);
      && (r == [] <==> ws == [])
      && (r != [] ==> r[0] != j && r[|r| - 1] != j)
      && (forall i :: 0 <= i < |r| - 1 ==> !(r[i] == j && r[i + 1] == j))
      && Count(j, r) == if ws == [] then 0 else |ws| - 1
  {
    var r := Join(ws, [j]);
    if |ws| == 1 {
      Absent(j, j, ws[0]);
    } else if |ws| > 1 {
      var w := ws[0];
      var tail := Join(ws[1..], [j]);
      JoinShape(ws[1..], j);
      assert r == w + [j] + tail;
      assert tail != [] && tail[0] == ws[1][0] by {
        JoinPrefix(ws[1..], [j]);
      }
      forall i | 0 <= i < |r| - 1
        ensures !(r[i] == j && r[i + 1] == j)
      {
        if i < |w| {
          assert r[i] == w[i];
        } else if i > |w| {
          assert r[i] == tail[i - |w| - 1] && r[i + 1] == tail[i + 1 - |w| - 1];
        }
      }
      assert r[|r| - 1] == tail[|tail| - 1];
      Absent(j, j, w);
      CountAppend(j, w + [j], tail);
      CountAppend(j, w, [j]);
    }
  }

  /** Taking the joiner out of a join of words without it gives the words put together. */
  lemma {:induction false} JoinRemove(ws: seq<string>, j: char)
    requires forall k, i :: 0 <= k < |ws| && 0 <= i < |ws[k]| ==> ws[k][i] != j
    ensures Remove(j, Join(ws, [j])) == Concat(ws)
  {
    if |ws| == 1 {
      Absent(j, j, ws[0]);
      assert Concat(ws) == ws[0] + Concat([]);
    } else if |ws| > 1 {
      JoinRemove(ws[1..], j);
      Absent(j, j, ws[0]);
      assert Join(ws, [j]) == ws[0] + ([j] + Join(ws[1..], [j]));
      RemoveAppend(j, ws[0], [j] + Join(ws[1..], [j]));
      RemoveAppend(j, [j], Join(ws[1..], [j]));
    }
  }

  /** Replacing the joiner `a` by `b` in a join of words without `a` is joining by `b`. */
  lemma {:induction false} JoinReplace(ws: seq<string>, a: char, b: char)
    requires forall k, i :: 0 <= k < |ws| && 0 <= i < |ws[k]| ==> ws[k][i] != a
    ensures Replace(a, b, Join(ws, [a])) == Join(ws, [b])
  {
    if |ws| == 1 {
      Absent(a, b, ws[0]);
    } else if |ws| > 1 {
      JoinReplace(ws[1..], a, b);
      Absent(a, b, ws[0]);
      ReplaceAppend(a, b, ws[0] + [a], Join(ws[1..], [a]));
      ReplaceAppend(a, b, ws[0], [a]);
    }
  }

  /** Every character of a join comes from a word or is the joiner. */
  lemma {:induction false} JoinChars(ws: seq<string>, j: char, i: nat)
    requires i < |Join(ws, [j])|
    ensures Join(ws, [j])[i] == j
         || exists k, m :: 0 <= k < |ws| && 0 <= m < |ws[k]| && Join(ws, [j])[i] == ws[k][m]
  {
    if |ws| == 1 {
      assert Join(ws, [j])[i] == ws[0][i];
    } else if |ws| > 1 {
      var r := Join(ws, [j]);
      assert r == ws[0] + [j] + Join(ws[1..], [j]);
      if i < |ws[0]| {
        assert r[i] == ws[0][i];
      } else if i > |ws[0]| {
        var i' := i - |ws[0]| - 1;
        JoinChars(ws[1..], j, i');
        assert r[i] == Join(ws[1..], [j])[i'];
        if r[i] != j {
          var k, m :| 0 <= k < |ws[1..]| && 0 <= m < |ws[1..][k]| && r[i] == ws[1..][k][m];
          assert r[i] == ws[k + 1][m];
        }
      }
    }
  }

  // ---------------------------------------------------------------------
  // The word pipeline

  /** Cleaning each word and putting them together is cleaning them put together. */
  lemma {:induction false} CleanEachConcat(ws: seq<string>)
    ensures Concat(CleanEach(ws)) == Clean(Concat(ws))
  {
    if ws != [] {
      CleanEachConcat(ws[1..]);
      assert CleanEach(ws)[1..] == CleanEach(ws[1..]);
      CleanAppend(ws[0], Concat(ws[1..]));
    }
  }

  lemma {:induction false} CleanRemoveSeparators(seps: Separators, s: string)
    ensures Clean(RemoveSeparators(seps, s)) == Clean(s)
  {
    if s != [] {
      CleanRemoveSeparators(seps, s[1..]);
      var head := if IsSeparator(seps, s[0]) then [] else [s[0]];
      CleanAppend(head, RemoveSeparators(seps, s[1..]));
      assert Clean(head) == if IsAlnum(s[0]) then [s[0]] else [] by {
        if head != [] {
          assert Clean(head) == (if IsAlnum(s[0]) then [s[0]] else []) + Clean([]);
        }
      }
    }
  }

  /** The cleaned words, put together, are exactly the letters and digits of the input. */
  lemma CleanWords(s: string)
    ensures Concat(CleanEach(Words(s))) == Clean(s)
  {
    var fs := Split(WhitespaceHyphenUnderscore, s);
    CleanEachConcat(Words(s));
    NonEmptyConcat(fs);
    SplitConcat(WhitespaceHyphenUnderscore, s);
    CleanRemoveSeparators(WhitespaceHyphenUnderscore, s);
  }

  lemma {:induction false} LowerCaseConcat(ws: seq<string>)
    ensures LowerCase(Concat(ws)) == Concat(seq(|ws|, i requires 0 <= i < |ws| => LowerCase(ws[i])))
  {
    if ws != [] {
      LowerCaseConcat(ws[1..]);
      LowerCaseAppend(ws[0], Concat(ws[1..]));
      var ls := seq(|ws|, i requires 0 <= i < |ws| => LowerCase(ws[i]));
      assert ls[1..] == seq(|ws[1..]|, i requires 0 <= i < |ws[1..]| => LowerCase(ws[1..][i]));
    }
  }

  /** `NonEmpty` keeps the count of non-empty strings. */
  lemma {:induction false} NonEmptyPointwise(xs: seq<string>, ys: seq<string>)
    requires |xs| == |ys|
    requires forall k :: 0 <= k < |xs| ==> (xs[k] == []) == (ys[k] == [])
    ensures |NonEmpty(xs)| == |NonEmpty(ys)|
  {
    if xs != [] {
      NonEmptyPointwise(xs[1..], ys[1..]);
    }
  }

  /**
   * The words dot.case and kebab-case join are non-empty and hold only
   * `[a-z0-9]`; put together they are the input's letters and digits
   * lower-cased; and there are as many of them as words that do not clean
   * to nothing.
   */
  lemma LowerWordsFacts(s: string)
    ensures forall k :: 0 <= k < |LowerWords(s)| ==> LowerWords(s)[k] != [] && AllLowerAlnum(LowerWords(s)[k])
    ensures Concat(LowerWords(s)) == LowerCase(Clean(s))
    ensures |LowerWords(s)| == |NonEmpty(CleanEach(Words(s)))|
  {
    var words := Words(s);
    var pieces := seq(|words|, i requires 0 <= i < |words| => LowerPiece(words[i]));
    var cleaned := CleanEach(words);
    forall i | 0 <= i < |words|
      ensures pieces[i] == LowerCase(cleaned[i])
    {
      if |cleaned[i]| == 0 {
        assert cleaned[i] == [];
      }
    }
    assert pieces == seq(|cleaned|, i requires 0 <= i < |cleaned| => LowerCase(cleaned[i]));
    forall k | 0 <= k < |LowerWords(s)|
      ensures AllLowerAlnum(LowerWords(s)[k])
    {
      assert LowerWords(s)[k] in pieces;
      var i :| 0 <= i < |pieces| && pieces[i] == LowerWords(s)[k];
      LowerCaseChars(cleaned[i]);
    }
    NonEmptyConcat(pieces);
    LowerCaseConcat(cleaned);
    CleanWords(s);
    NonEmptyPointwise(pieces, cleaned);
  }

  // ---------------------------------------------------------------------
  // Facts the converters share

  lemma WordsOfEmpty()
    ensures Words("") == []
  {
    assert Split(WhitespaceHyphenUnderscore, "") == [""];
  }

  /** Joining with `''` is putting the words together. */
  lemma {:induction false} JoinNothing(ws: seq<string>)
    ensures Join(ws, "") == Concat(ws)
  {
    if |ws| == 1 {
      assert Concat(ws) == ws[0] + Concat([]);
    } else if |ws| > 1 {
      JoinNothing(ws[1..]);
      assert ws[0] + "" == ws[0];
    }
  }

  /** The number of separators in `s`. */
  function SeparatorCount(seps: Separators, s: string): nat {
    if s == [] then 0 else (if IsSeparator(seps, s[0]) then 1 else 0) + SeparatorCount(seps, s[1..])
  }

  /**
   * Taking the separators out leaves no separator, shortens the text by the
   * number of separators and keeps every other character as often as it was.
   */
  lemma {:induction false} RemoveSeparatorsCounts(seps: Separators, s: string)
    ensures NoSeparator(seps, RemoveSeparators(seps, s))
    ensures |RemoveSeparators(seps, s)| + SeparatorCount(seps, s) == |s|
    ensures forall c :: !IsSeparator(seps, c) ==> Count(c, RemoveSeparators(seps, s)) == Count(c, s)
  {
    if s != [] {
      RemoveSeparatorsCounts(seps, s[1..]);
      var head := if IsSeparator(seps, s[0]) then [] else [s[0]];
      assert RemoveSeparators(seps, s) == head + RemoveSeparators(seps, s[1..]);
      forall c | !IsSeparator(seps, c)
        ensures Count(c, RemoveSeparators(seps, s)) == Count(c, s)
      {
        CountAppend(c, head, RemoveSeparators(seps, s[1..]));
      }
    }
  }

  /** Two texts equal up to case hold their separators at the same places. */
  lemma LowerCaseSeparators(seps: Separators, x: string, y: string)
    requires LowerCase(x) == LowerCase(y) && NoSeparator(seps, y)
    ensures NoSeparator(seps, x)
  {
    LowerCaseChars(x);
    LowerCaseChars(y);
    forall i | 0 <= i < |x| ensures !IsSeparator(seps, x[i]) {
      assert ToLower(x[i]) == ToLower(y[i]);
      if IsUpper(y[i]) {
        assert IsLower(ToLower(y[i]));
      }
    }
  }

  lemma ConcatTwo(x: string, y: string)
    ensures Concat([x, y]) == x + y
  {
    assert [x, y][1..] == [y];
    assert Concat([y]) == y + Concat([]);
  }

  /** Words made of letters and digits put together are made of letters and digits. */
  lemma {:induction false} ConcatAlnum(ws: seq<string>)
    requires forall k :: 0 <= k < |ws| ==> AllAlnum(ws[k])
    ensures AllAlnum(Concat(ws))
  {
    if ws != [] {
      ConcatAlnum(ws[1..]);
      assert Concat(ws) == ws[0] + Concat(ws[1..]);
    }
  }

  /** Non-empty words without separators, joined by a run of separators, are the words of the result. */
  lemma WordsOfJoin(ws: seq<string>, sep: string)
    requires |ws| >= 1 && sep != [] && AllSeparators(WhitespaceHyphenUnderscore, sep)
    requires forall k :: 0 <= k < |ws| ==> ws[k] != [] && NoSeparator(WhitespaceHyphenUnderscore, ws[k])
    ensures Words(Join(ws, sep)) == ws
  {
    SplitShapedOfWords(WhitespaceHyphenUnderscore, ws);
    SplitJoin(WhitespaceHyphenUnderscore, ws, sep);
    NonEmptyOfNonEmpties(ws);
  }

  /** Lower-case words of letters and digits, joined by a run of separators, are found again as they are. */
  lemma LowerWordsOfLowerJoin(ws: seq<string>, sep: string)
    requires |ws| >= 1 && sep != [] && AllSeparators(WhitespaceHyphenUnderscore, sep)
    requires forall k :: 0 <= k < |ws| ==> ws[k] != [] && AllLowerAlnum(ws[k])
    ensures LowerWords(Join(ws, sep)) == ws
  {
    LowerWordsOfJoin(ws, sep);
    forall k | 0 <= k < |ws| ensures LowerCase(ws[k]) == ws[k] {
      LowerCaseOfLower(ws[k]);
    }
  }

  /** Letters and digits are never separators. */
  lemma AlnumNoSeparator(seps: Separators, w: string)
    requires AllAlnum(w)
    ensures NoSeparator(seps, w)
  {
    forall i | 0 <= i < |w| ensures !IsSeparator(seps, w[i]) {
      assert IsAlnum(w[i]);
    }
  }

  /**
   * Non-empty words of letters and digits, joined by a run of separators:
   * dot.case and kebab-case find exactly these words again, lower-cased.
   */
  lemma LowerWordsOfJoin(ws: seq<string>, sep: string)
    requires |ws| >= 1 && sep != [] && AllSeparators(WhitespaceHyphenUnderscore, sep)
    requires forall k :: 0 <= k < |ws| ==> ws[k] != [] && AllAlnum(ws[k])
    ensures LowerWords(Join(ws, sep)) == seq(|ws|, i requires 0 <= i < |ws| => LowerCase(ws[i]))
  {
    forall k | 0 <= k < |ws| ensures NoSeparator(WhitespaceHyphenUnderscore, ws[k]) {
      AlnumNoSeparator(WhitespaceHyphenUnderscore, ws[k]);
    }
    WordsOfJoin(ws, sep);
    var pieces := seq(|ws|, i requires 0 <= i < |ws| => LowerPiece(ws[i]));
    assert LowerWords(Join(ws, sep)) == NonEmpty(pieces);
    var lowered := seq(|ws|, i requires 0 <= i < |ws| => LowerCase(ws[i]));
    forall k | 0 <= k < |ws| ensures pieces[k] == lowered[k] && pieces[k] != [] {
      CleanOfAlnum(ws[k]);
    }
    assert pieces == lowered;
    NonEmptyOfNonEmpties(pieces);
  }

  /**
   * What the lower-case words of `s` joined by a character `j` that is
   * neither a letter nor a digit look like: only `[a-z0-9]` and `j` occur,
   * `j` is at neither end and never doubled, there is one `j` fewer than
   * words that do not clean to nothing, and without the `j`s the result is
   * the input's letters and digits, lower-cased.
   */
  predicate LowerJoinShaped(r: string, j: char, s: string) {
    var n := |NonEmpty(CleanEach(Words(s)))|;
    && (forall i :: 0 <= i < |r| ==> IsLowerAlnum(r[i]) || r[i] == j)
    && (r != [] ==> r[0] != j && r[|r| - 1] != j)
    && (forall i :: 0 <= i < |r| - 1 ==> !(r[i] == j && r[i + 1] == j))
    && Count(j, r) == (if n == 0 then 0 else n - 1)
    && Remove(j, r) == LowerCase(Clean(s))
  }

  lemma LowerJoinShape(s: string, j: char)
    requires !IsLowerAlnum(j)
    ensures LowerJoinShaped(Join(LowerWords(s), [j]), j, s)
  {
    var ws := LowerWords(s);
    var r := Join(ws, [j]);
    LowerWordsFacts(s);
    assert forall k, i :: 0 <= k < |ws| && 0 <= i < |ws[k]| ==> ws[k][i] != j by {
      forall k, i | 0 <= k < |ws| && 0 <= i < |ws[k]| ensures ws[k][i] != j {
        assert IsLowerAlnum(ws[k][i]);
      }
    }
    JoinShape(ws, j);
    JoinRemove(ws, j);
    forall i | 0 <= i < |r| ensures IsLowerAlnum(r[i]) || r[i] == j {
      JoinChars(ws, j, i);
      if r[i] != j {
        var k, m :| 0 <= k < |ws| && 0 <= m < |ws[k]| && r[i] == ws[k][m];
        assert AllLowerAlnum(ws[k]);
      }
    }
  }
}
