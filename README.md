# Case conversion of free text

This project models the string case converters of the repository in Dafny
and proves what they promise. The converters are:

- `toCamelCase` and `toDotCase` in `refined_prompt.js`;
- `toKebabCase` in `chain_prompt.js`;
- the earlier `toCamelCase` in `basic_prompt.js`.

The refined converters work the same way:

1. A value that is not a string makes them throw
   `Error("Invalid input: expected a string, but received " + typeof input)`.
2. An empty string gives `''`.
3. Otherwise the text is split on runs of whitespace, `-` and `_`, and the
   empty fragments are dropped. If no word is left, the result is `''`.
4. Every word is cleaned down to `[a-zA-Z0-9]`.
5. camelCase lower-cases the word at index 0. It capitalises every later
   word: the first character is upper-cased and the rest lower-cased. The
   words are then concatenated. The index counts the words *before*
   cleaning. So when the first word cleans to nothing, the second word is
   still capitalised (`"!! hello world"` gives `"HelloWorld"`).
6. dot.case and kebab-case lower-case every cleaned word and drop the ones
   that cleaned to nothing. They join the rest with `.` or `-`.

The earlier `toCamelCase` has no type check and does not filter or clean.
It splits on runs of whitespace and `_` only, so hyphens stay in the text.
A leading separator gives an empty first piece, so the first real word is
capitalised.

Modules:

- `Chars` (`chars.dfy`):
  - character classes, including ECMAScript's `\s`;
  - ASCII `toLowerCase`/`toUpperCase`;
  - the `[^a-zA-Z0-9]` filter;
  - counting, removing and replacing one character.
- `Tokens` (`tokens.dfy`):
  - `String.prototype.split` with a `[…]+` pattern;
  - `filter` of empty strings;
  - `join`;
  - the word pipeline the refined converters share.
- `JsValues` (`js_values.dfy`): JavaScript values, `typeof`, and the outcome
  of a call, either a returned string or a thrown message.
- `RefinedPrompt` (`refined_prompt.dfy`): `toCamelCase` and `toDotCase`.
- `ChainPrompt` (`chain_prompt.dfy`): `toKebabCase`.
- `BasicPrompt` (`basic_prompt.dfy`): the earlier `toCamelCase`.
- `SampleText` (`sample_text.dfy`): facts about the text of the worked examples (`hello`/`HELLO`, a separator, `world`/`WORLD`), used by the example lemmas of the converters.

All four converters are pure expressions. The refined converters are guard
clauses followed by a `split`/`filter`/`map`/`join` chain. The earlier
`toCamelCase` is a single `split`/`map`/`join` chain, with no guard and no
filter. They are modelled as functions, with
lemmas about them. `CamelCase`, `DotCase` and `KebabCase` are the
converters on strings. `ToCamelCase`, `ToDotCase` and `ToKebabCase` take
any JavaScript value.

The worked examples are stated over families of inputs rather than
literals. For example, every 11-character text of `hello`/`HELLO`, one
separator and `world`/`WORLD` gives `helloWorld`. That family includes the
documented calls `'hello world'`, `'hello-world'`, `'hello_world'` and
`'HELLO WORLD'`.

## Model

| member | source | states |
|---|---|---|
| `JsValues.TypeOf` | refined_prompt.js:95-96 | `typeof` is `"string"` exactly for strings, and `"object"` for `null` |
| `JsValues.InvalidInput` | refined_prompt.js:35 | the thrown message: the fixed text followed by the `typeof` name; `InvalidInputMessages` and the `To…` functions state it for the documented calls and for every non-string |
| `JsValues.InvalidInputMessages` | refined_prompt.js:81-143 | the thrown message names `number` for `123`, `undefined` for `undefined` and `object` for `null` |
| `Chars.IsJsWhitespace` | refined_prompt.js:45 | the `\s` class: the ECMAScript white-space and line-terminator characters; `SplitFragments` and `SplitConcat` state what splitting on it gives |
| `Chars.IsAlnum` | refined_prompt.js:56 | the `[a-zA-Z0-9]` class; `Clean`, `CleanOfAlnum` and `CleanIsRemove` state the filter built on it |
| `Chars.ToLower` | refined_prompt.js:63 | a lower-cased character is never an upper-case letter; it is a letter or digit exactly when the original was, and then it is in `[a-z0-9]`; only upper-case letters change, each into a lower-case letter |
| `Chars.ToUpper` | refined_prompt.js:67 | an upper-cased character is never a lower-case letter, keeps its letter-or-digit class and lower-cases to the same character as the original |
| `Chars.CaseRoundTrip` | refined_prompt.js:63-67 | lower-casing an upper-case letter gives a lower-case letter that upper-cases back to it, and the other way round |
| `Chars.LowerCase` | refined_prompt.js:63 | lower-casing keeps the length of the text |
| `Chars.LowerCaseChars` | refined_prompt.js:63 | lower-casing works character by character, leaves no upper-case letter, and turns `[a-zA-Z0-9]` text into `[a-z0-9]` text |
| `Chars.LowerCaseIdempotent` | refined_prompt.js:63 | lower-casing twice is lower-casing once |
| `Chars.LowerCaseOfLower` | refined_prompt.js:63 | text without upper-case letters is unchanged by lower-casing |
| `Chars.Clean` | refined_prompt.js:56 | the cleaned word holds only `[a-zA-Z0-9]` and is no longer than the word |
| `Chars.CleanAppend` | refined_prompt.js:56 | cleaning a concatenation is concatenating the cleaned parts |
| `Chars.CleanOfAlnum` | refined_prompt.js:56 | cleaning leaves a word of letters and digits unchanged |
| `Chars.CleanIsRemove` | refined_prompt.js:117 | in text of letters, digits and one other character `c`, cleaning removes exactly the `c`s |
| `Chars.RemoveCount` | refined_prompt.js:121 | removing `c` shortens the text by the number of `c`s, and changes nothing exactly when there is none |
| `Tokens.IsSeparator` | refined_prompt.js:45 | the two separator classes: `[\s\-_]` of the refined converters and kebab-case (also chain_prompt.js:15) and `[\s_]` of the earlier camelCase (basic_prompt.js:3), which differ only in `-`; `SplitFragments`, `SplitConcat` and `BasicPrompt.ToCamelCaseText` state what splitting on them gives |
| `Tokens.LeadingWord` | refined_prompt.js:45 | the first fragment of a split is no longer than the text and is followed by a separator when it stops early |
| `Tokens.DropSeparators` | refined_prompt.js:45 | the greedy `+` of the pattern: a leading separator run is consumed whole; the result is shorter when the text starts with a separator, and `DropSeparatorsStops` states that it never starts with one |
| `Tokens.Split` | refined_prompt.js:45 | a split never gives an empty list: `""` splits into `[""]` |
| `Tokens.SplitConcat` | refined_prompt.js:45 | the fragments of a split, put together, are the text without its separators |
| `Tokens.SplitFragments` | refined_prompt.js:45 | no fragment holds a separator; only the first and the last can be empty; the first is empty exactly when the text is empty or starts with a separator |
| `Tokens.SplitOfSeparators` | refined_prompt.js:45 | text made only of separators splits into empty fragments alone |
| `Tokens.SplitJoin` | refined_prompt.js:45 | split undoes join: fragments that a split could give, joined by a run of separators, split back into the same fragments |
| `Tokens.SplitTwo` | refined_prompt.js:45 | two words around one separator split into exactly those two words |
| `Tokens.SplitLeadingSeparator` | basic_prompt.js:3 | a separator in front adds an empty first fragment and changes nothing else |
| `Tokens.NonEmpty` | refined_prompt.js:46 | the filter keeps only non-empty words, each taken from the list, and never lengthens it; `NonEmptyAppend`, `NonEmptyOne` and `NonEmptyKeeps` give the other direction and the order |
| `Tokens.NonEmptyConcat` | refined_prompt.js:46 | dropping the empty strings does not change what the words give when put together |
| `Tokens.NonEmptyOfNonEmpties` | refined_prompt.js:46 | the filter keeps a list of non-empty words as it is |
| `Tokens.NonEmptyAppend` | refined_prompt.js:46 | the filter keeps the order: filtering a concatenation is concatenating the filtered parts |
| `Tokens.NonEmptyOne` | refined_prompt.js:46 | a single word is kept exactly when it is non-empty |
| `Tokens.NonEmptyKeeps` | refined_prompt.js:46 | every non-empty word of the list is kept |
| `Tokens.Words` | refined_prompt.js:44-46 | the words the refined converters start from; `CleanWords`, `WordsOfSeparators` and `WordsOfJoin` state what they are, and `NonEmptyAppend` and `NonEmptyOne` with `SplitFragments` that they are the split fragments in order minus the empty ones |
| `Tokens.WordsOfSeparators` | refined_prompt.js:44-50 | text made only of whitespace, `-` and `_` has no words |
| `Tokens.WordsOfJoin` | refined_prompt.js:44-46 | non-empty words without separators, joined by a run of separators, are exactly the words found again |
| `Tokens.CleanWords` | refined_prompt.js:44-56 | the cleaned words, put together, are exactly the letters and digits of the input, in order |
| `Tokens.JoinNothing` | refined_prompt.js:69 | `join('')` is putting the words together |
| `Tokens.Concat` | refined_prompt.js:69 | `join('')`; `JoinNothing`, `SplitConcat` and `NonEmptyConcat` state what it gives |
| `Tokens.Join` | refined_prompt.js:121 | `join(sep)`; `JoinShape`, `JoinRemove`, `JoinReplace` and `SplitJoin` state its joiner placement, count, removal, replacement and inverse |
| `Tokens.JoinShape` | refined_prompt.js:120-121 | non-empty words joined by a character they lack: empty exactly when there are no words, no joiner at either end or doubled, one joiner fewer than words |
| `Tokens.JoinRemove` | refined_prompt.js:121 | taking the joiner out of a join gives the words put together |
| `Tokens.JoinReplace` | chain_prompt.js:30 | replacing joiner `a` by `b` in a join of words without `a` is joining by `b` |
| `Tokens.LowerWordsFacts` | refined_prompt.js:114-120 | the words dot.case and kebab-case join are non-empty and in `[a-z0-9]`; put together they are the input's letters and digits lower-cased; there are as many of them as words that do not clean to nothing |
| `Tokens.LowerPiece` | refined_prompt.js:115-119 | one word of dot.case and kebab-case: its letters and digits lower-cased, empty when it has none; `LowerWordsFacts` states the result for every word |
| `Tokens.LowerWords` | refined_prompt.js:114-120 | the words dot.case and kebab-case join; `LowerWordsFacts`, `LowerWordsOfJoin` and `LowerJoinShape` state what they are |
| `Tokens.LowerWordsOfJoin` | refined_prompt.js:105-120 | words of letters and digits joined by a separator run are found again, each lower-cased |
| `Tokens.LowerJoinShape` | refined_prompt.js:114-121 | the lower-case words joined by a non-alphanumeric `j` hold only `[a-z0-9]` and `j`; `j` is at neither end and never doubled; there is one `j` fewer than surviving words; without the `j`s the text is the input's letters and digits, lower-cased |
| `Tokens.RemoveSeparatorsCounts` | basic_prompt.js:3 | taking separators out leaves none, shortens the text by their number and keeps every other character as often as it occurred |
| `RefinedPrompt.ToCamelCase` | refined_prompt.js:32-70 | throws the `typeof` message exactly for non-strings; for a string returns its camelCase text, which holds only letters and digits |
| `RefinedPrompt.CamelCase` | refined_prompt.js:38-69 | camelCase of a string; `CamelCasePipeline`, `CamelCaseShape`, `CamelCaseText` and `CamelCaseTwice` state what it gives |
| `RefinedPrompt.CamelPiece` | refined_prompt.js:54-68 | one word of camelCase at its pre-clean index; `CamelPieceCasing` and `CamelCaseFirstWordCleanedAway` state what it gives |
| `RefinedPrompt.CamelPieces` | refined_prompt.js:53-54 | the indexed `map`: each word paired with its place in the list before cleaning; `CamelCaseShape` states one piece per word with piece 0 lower-case and later pieces capitalised |
| `RefinedPrompt.CamelCasePipeline` | refined_prompt.js:39-69 | the early returns agree with the pipeline: the result is always the pieces of the words put together |
| `RefinedPrompt.CamelPieceCasing` | refined_prompt.js:53-68 | a piece holds only letters and digits and is its cleaned word up to case; the piece at index 0 has no upper-case letter; a later piece is capitalised with the rest lower-case |
| `RefinedPrompt.CamelCaseText` | refined_prompt.js:53-69 | the output holds only letters and digits and is the input's letters and digits in order, up to case; its length is the sum of the cleaned words' lengths |
| `RefinedPrompt.CamelCaseShape` | refined_prompt.js:53-69 | the output is one piece per word put together; the first piece has no upper-case letter and every later piece is capitalised |
| `RefinedPrompt.CamelCaseFirstWordCleanedAway` | refined_prompt.js:58-67 | when the first word cleans to nothing and the second does not, the output starts with the second word's first letter upper-cased |
| `RefinedPrompt.CamelCaseOfSeparators` | refined_prompt.js:44-50 | input made only of whitespace, `-` and `_` gives `''` |
| `RefinedPrompt.CamelCaseOfWords` | refined_prompt.js:44-69 | words without separators joined by a separator run give exactly those words' pieces put together |
| `RefinedPrompt.CamelCaseOneWord` | refined_prompt.js:53-69 | a single word comes out cleaned and lower-cased |
| `RefinedPrompt.CamelCaseTwoWords` | refined_prompt.js:53-69 | two words of letters and digits around one separator give the first lower-cased, then the second capitalised |
| `RefinedPrompt.CamelCaseTwice` | refined_prompt.js:32-70 | a second pass gives the input's letters and digits lower-cased, so camelCase keeps its own output exactly when it has no upper-case letter |
| `RefinedPrompt.CamelCaseHelloWorld` | refined_prompt.js:73-76 | `'hello world'`, `'hello-world'`, `'hello_world'`, `'HELLO WORLD'` (and the other case and separator mixes) give `'helloWorld'` |
| `RefinedPrompt.CamelCaseShortExamples` | refined_prompt.js:77-78 | `''` gives `''` and `'single'` gives `'single'` |
| `RefinedPrompt.ToDotCase` | refined_prompt.js:93-122 | throws the `typeof` message exactly for non-strings; for a string returns its dot.case text |
| `RefinedPrompt.DotCase` | refined_prompt.js:99-121 | dot.case of a string; `DotCasePipeline`, `DotCaseShape` and `DotCaseTwice` state what it gives |
| `RefinedPrompt.DotCasePipeline` | refined_prompt.js:100-121 | the early returns agree with the pipeline: the result is always the lower-case words joined by `.` |
| `RefinedPrompt.DotCaseShape` | refined_prompt.js:114-121 | the output holds only `[a-z0-9.]`, has no `.` at either end and none doubled, has one `.` fewer than words that survive cleaning (none when none survive), and without its dots is the input's letters and digits lower-cased |
| `RefinedPrompt.DotCaseOfSeparators` | refined_prompt.js:105-111 | input made only of whitespace, `-` and `_` gives `''` |
| `RefinedPrompt.DotCaseTwoWords` | refined_prompt.js:105-121 | two words of letters and digits around one separator give both lower-cased with a `.` between |
| `RefinedPrompt.DotCaseOneWord` | refined_prompt.js:105-121 | a single word comes out cleaned and lower-cased |
| `RefinedPrompt.DotCaseOfDotted` | refined_prompt.js:105-121 | text of `[a-z0-9.]` is one word, and dot.case takes its dots out |
| `RefinedPrompt.DotCaseTwice` | refined_prompt.js:93-122 | a second pass gives the input's letters and digits lower-cased, so dot.case keeps its own output exactly when it has no `.` |
| `RefinedPrompt.DotCaseHelloWorld` | refined_prompt.js:125-128 | `'hello world'`, `'hello-world'`, `'hello_world'`, `'HELLO WORLD'` (and the other mixes) give `'hello.world'` |
| `RefinedPrompt.DotCaseShortExamples` | refined_prompt.js:129-130 | `''` gives `''` and `'single'` gives `'single'` |
| `RefinedPrompt.CamelAndDotAgree` | refined_prompt.js:53-69 | camelCase lower-cased is dot.case with its dots removed |
| `RefinedPrompt.NonStringExamples` | refined_prompt.js:81-143 | `toCamelCase(123)`, `toCamelCase(undefined)`, `toDotCase(123)` and `toDotCase(null)` throw the messages naming `number`, `undefined`, `number` and `object` |
| `ChainPrompt.ToKebabCase` | chain_prompt.js:2-31 | throws the `typeof` message exactly for non-strings; for a string returns its kebab-case text |
| `ChainPrompt.KebabCase` | chain_prompt.js:8-30 | kebab-case of a string; `KebabCasePipeline`, `KebabCaseShape`, `KebabIsDotWithHyphens` and `KebabCaseIdempotent` state what it gives |
| `ChainPrompt.KebabCasePipeline` | chain_prompt.js:9-30 | the early returns agree with the pipeline: the result is always the lower-case words joined by `-` |
| `ChainPrompt.KebabCaseShape` | chain_prompt.js:23-30 | the output holds only `[a-z0-9-]`, has no `-` at either end and none doubled, has one `-` fewer than surviving words, and without its hyphens is the input's letters and digits lower-cased |
| `ChainPrompt.KebabCaseOfSeparators` | chain_prompt.js:14-20 | input made only of whitespace, `-` and `_` gives `''` |
| `ChainPrompt.KebabIsDotWithHyphens` | chain_prompt.js:14-30 | kebab-case is dot.case with every `.` replaced by `-` |
| `ChainPrompt.KebabCaseIdempotent` | chain_prompt.js:14-30 | kebab-case leaves its own output unchanged |
| `ChainPrompt.KebabCaseTwoWords` | chain_prompt.js:14-30 | two words of letters and digits around one separator give both lower-cased with a `-` between |
| `ChainPrompt.KebabCaseHelloWorld` | chain_prompt.js:34-36 | `'hello world'`, `'hello_world'`, `'HELLO-WORLD'` (and the other mixes) give `'hello-world'` |
| `ChainPrompt.KebabCaseShortExamples` | chain_prompt.js:37-38 | `''` gives `''` and `'single'` gives `'single'` |
| `ChainPrompt.NonStringExamples` | chain_prompt.js:41-51 | `toKebabCase(123)` and `toKebabCase(null)` throw the messages naming `number` and `object` |
| `BasicPrompt.ToCamelCase` | basic_prompt.js:1-9 | the earlier camelCase; `ToCamelCaseShape`, `ToCamelCaseUpToCase` and `ToCamelCaseText` state what it gives |
| `BasicPrompt.BasicPiece` | basic_prompt.js:4-7 | one piece of the earlier camelCase; `BasicPieceCasing` states what it gives |
| `BasicPrompt.BasicPieces` | basic_prompt.js:4-7 | the indexed `map` over the unfiltered fragments; `ToCamelCaseShape` states one piece per fragment with piece 0 lower-case and later pieces capitalised |
| `BasicPrompt.BasicPieceCasing` | basic_prompt.js:4-7 | a piece is its fragment up to case and as long as it; piece 0 has no upper-case letter; a later piece is capitalised with the rest lower-case |
| `BasicPrompt.ToCamelCaseShape` | basic_prompt.js:2-8 | the output is one piece per split fragment put together; the first piece has no upper-case letter and every later one is capitalised |
| `BasicPrompt.ToCamelCaseUpToCase` | basic_prompt.js:2-8 | the output is the input without whitespace and `_`, up to case |
| `BasicPrompt.ToCamelCaseText` | basic_prompt.js:3-8 | the output holds no whitespace or `_`; its length is the input's less the separators; every `-` of the input is kept |
| `BasicPrompt.ToCamelCaseOfEmpty` | basic_prompt.js:2-8 | `''` splits into one empty piece and gives `''` |
| `BasicPrompt.ToCamelCaseOneWord` | basic_prompt.js:2-8 | text without whitespace or `_`, hyphens included, is only lower-cased |
| `BasicPrompt.ToCamelCaseLeadingSeparator` | basic_prompt.js:3-6 | a leading separator makes an empty piece 0, so the output is the output for the rest with its first character upper-cased |
| `BasicPrompt.ToCamelCaseTwoWords` | basic_prompt.js:2-8 | two words around one separator give the first lower-cased, then the second capitalised |
| `BasicPrompt.ToCamelCaseHelloWorld` | basic_prompt.js:2-8 | `'hello world'`, `'hello_world'`, `'HELLO WORLD'` and the other space/`_` mixes give `'helloWorld'` |
| `BasicPrompt.ToCamelCaseKeepsHyphens` | basic_prompt.js:3 | `'hello-world'` comes back unchanged, because `-` is not a separator |
| `BasicPrompt.ToCamelCaseLeadingSpace` | basic_prompt.js:3-6 | `' hello world'` gives `'HelloWorld'`: the empty first piece leaves `hello` capitalised |

## Left out

- The Express server and the comment routes of the backend are left out. They are database and network I/O with no algorithm of their own.
- The `console.log` and `try`/`catch` lines after each function are not modelled as code. Their expected outputs are stated as lemmas instead.
- JavaScript strings are UTF-16. Dafny characters are Unicode scalar values, so lone surrogates are not modelled. A character outside the Basic Multilingual Plane counts as one character here, not two code units.
- Chars.LowerCase: `toLowerCase` and `toUpperCase` change only ASCII letters here.
  - This is exact for the refined converters and kebab-case, because they case only cleaned `[a-zA-Z0-9]` text.
  - It is not exact for the earlier `toCamelCase`, which cases uncleaned text. Non-ASCII case mapping (which can also change a string's length) is not modelled there.
  - `BasicPrompt.ToCamelCaseText` therefore states the length only for the ASCII casing of the model.
- The earlier `toCamelCase` is modelled on strings only. The code has no type check, so a non-string either makes the engine throw a `TypeError` whose message depends on the value, or, when the value carries its own `split` (a `String` object, say), is converted. None of this is modelled.
- JsValues.JsValue: a `Number` carries a `real`, not an IEEE double. Only its `typeof` matters here.
- JsValues.JsValue: objects, functions and symbols carry no contents, because only their `typeof` is observed.
