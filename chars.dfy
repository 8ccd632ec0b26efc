/**
 * Character classes, ASCII case mapping and the per-character string filters
 * the case converters are built from.
 */
module Chars {

  /** JavaScript's `\s`: the WhiteSpace and LineTerminator code points of ECMAScript. */
  predicate IsJsWhitespace(c: char) {
    || c == '\t' || c == '\n' || c == '\U{000B}' || c == '\U{000C}' || c == '\r' || c == ' '
    || c == '\U{00A0}' || c == '\U{1680}' || ('\U{2000}' <= c <= '\U{200A}')
    || c == '\U{2028}' || c == '\U{2029}' || c == '\U{202F}' || c == '\U{205F}'
    || c == '\U{3000}' || c == '\U{FEFF}'
  }

  predicate IsUpper(c: char) { 'A' <= c <= 'Z' }
  predicate IsLower(c: char) { 'a' <= c <= 'z' }
  predicate IsDigit(c: char) { '0' <= c <= '9' }

  /** The regular-expression class `[a-zA-Z0-9]`. */
  predicate IsAlnum(c: char) { IsUpper(c) || IsLower(c) || IsDigit(c) }

  /** What a lower-case word may hold: `[a-z0-9]`. */
  predicate IsLowerAlnum(c: char) { IsLower(c) || IsDigit(c) }

  /** `toLowerCase` on one character; only ASCII letters change. */
  function ToLower(c: char): (d: char)
    ensures !IsUpper(d)
    ensures IsAlnum(d) == IsAlnum(c) && IsLowerAlnum(d) == IsAlnum(c)
    ensures !IsUpper(c) ==> d == c
    ensures IsUpper(c) ==> IsLower(d)
  {
    if IsUpper(c) then (c as int + 32) as char else c
  }

  /** `toUpperCase` on one character; only ASCII letters change. */
  function ToUpper(c: char): (d: char)
    ensures !IsLower(d)
    ensures IsAlnum(d) == IsAlnum(c)
    ensures ToLower(d) == ToLower(c)
  {
    if IsLower(c) then (c as int - 32) as char else c
  }

  /** Each ASCII letter and its other case map to each other. */
  lemma CaseRoundTrip(c: char)
    ensures IsUpper(c) ==> IsLower(ToLower(c)) && ToUpper(ToLower(c)) == c
    ensures IsLower(c) ==> IsUpper(ToUpper(c)) && ToLower(ToUpper(c)) == c
  {
  }

  /** `String.prototype.toLowerCase` for text whose letters are ASCII. */
  function LowerCase(s: string): (r: string)
    ensures |r| == |s|
  {
    if s == [] then [] else [ToLower(s[0])] + LowerCase(s[1..])
  }

  /** No upper-case ASCII letter occurs in `s`. */
  predicate NoUpper(s: string) {
    forall i :: 0 <= i < |s| ==> !IsUpper(s[i])
  }

  /** `s` is empty, or starts with a character that is not a lower-case letter and has no upper-case letter after it. */
  predicate IsCapitalized(s: string) {
    s != [] ==> !IsLower(s[0]) && NoUpper(s[1..])
  }

  predicate AllAlnum(s: string) {
    forall i :: 0 <= i < |s| ==> IsAlnum(s[i])
  }

  predicate AllLowerAlnum(s: string) {
    forall i :: 0 <= i < |s| ==> IsLowerAlnum(s[i])
  }

  /** `String.prototype.replace` deleting every character outside `[a-zA-Z0-9]`: the letters and digits of `w`, in order. */
  function Clean(w: string): (r: string)
    ensures |r| <= |w|
    ensures AllAlnum(r)
  {
    if w == [] then [] else (if IsAlnum(w[0]) then [w[0]] else []) + Clean(w[1..])
  }

  /** The number of occurrences of `c` in `s`. */
  function Count(c: char, s: string): nat {
    if s == [] then 0 else (if s[0] == c then 1 else 0) + Count(c, s[1..])
  }

  /** `s` with every occurrence of `c` taken out. */
  function Remove(c: char, s: string): string {
    if s == [] then [] else (if s[0] == c then [] else [s[0]]) + Remove(c, s[1..])
  }

  /** `s` with every `a` replaced by `b`. */
  function Replace(a: char, b: char, s: string): string {
    seq(|s|, i requires 0 <= i < |s| => if s[i] == a then b else s[i])
  }

  /** Lower-casing works character by character. */
  lemma {:induction false} LowerCaseAt(s: string, i: nat)
    requires i < |s|
    ensures LowerCase(s)[i] == ToLower(s[i])
  {
    if i > 0 {
      LowerCaseAt(s[1..], i - 1);
    }
  }

  /** Lower-cased text has no upper-case letter, and is `[a-z0-9]` when the text was `[a-zA-Z0-9]`. */
  lemma LowerCaseChars(s: string)
    ensures forall i :: 0 <= i < |s| ==> LowerCase(s)[i] == ToLower(s[i])
    ensures NoUpper(LowerCase(s))
    ensures AllAlnum(LowerCase(s)) == AllAlnum(s)
    ensures AllAlnum(s) ==> AllLowerAlnum(LowerCase(s))
  {
    forall i | 0 <= i < |s| ensures LowerCase(s)[i] == ToLower(s[i]) {
      LowerCaseAt(s, i);
    }
  }

  lemma {:induction false} LowerCaseAppend(a: string, b: string)
    ensures LowerCase(a + b) == LowerCase(a) + LowerCase(b)
  {
    if a != [] {
      assert (a + b)[1..] == a[1..] + b;
      LowerCaseAppend(a[1..], b);
    } else {
      assert a + b == b;
    }
  }

  /** Lower-casing twice is lower-casing once. */
  lemma {:induction false} LowerCaseIdempotent(s: string)
    ensures LowerCase(LowerCase(s)) == LowerCase(s)
  {
    if s != [] {
      LowerCaseIdempotent(s[1..]);
    }
  }

  /** Lower-casing leaves text without upper-case letters as it is. */
  lemma {:induction false} LowerCaseOfLower(s: string)
    requires NoUpper(s)
    ensures LowerCase(s) == s
  {
    if s != [] {
      LowerCaseOfLower(s[1..]);
    }
  }

  lemma ReplaceAppend(a: char, b: char, x: string, y: string)
    ensures Replace(a, b, x + y) == Replace(a, b, x) + Replace(a, b, y)
  {
  }

  /** Cleaning distributes over concatenation. */
  lemma {:induction false} CleanAppend(a: string, b: string)
    ensures Clean(a + b) == Clean(a) + Clean(b)
  {
    if a != [] {
      assert (a + b)[1..] == a[1..] + b;
      CleanAppend(a[1..], b);
    } else {
      assert a + b == b;
    }
  }

  /** Cleaning leaves a string of letters and digits as it is. */
  lemma {:induction false} CleanOfAlnum(w: string)
    requires AllAlnum(w)
    ensures Clean(w) == w
  {
    if w != [] {
      CleanOfAlnum(w[1..]);
    }
  }

  lemma {:induction false} CountAppend(c: char, a: string, b: string)
    ensures Count(c, a + b) == Count(c, a) + Count(c, b)
  {
    if a != [] {
      assert (a + b)[1..] == a[1..] + b;
      CountAppend(c, a[1..], b);
    } else {
      assert a + b == b;
    }
  }

  lemma {:induction false} RemoveAppend(c: char, a: string, b: string)
    ensures Remove(c, a + b) == Remove(c, a) + Remove(c, b)
  {
    if a != [] {
      assert (a + b)[1..] == a[1..] + b;
      RemoveAppend(c, a[1..], b);
    } else {
      assert a + b == b;
    }
  }

  /** A string without `c` has no `c` to count, remove or replace. */
  lemma {:induction false} Absent(c: char, d: char, s: string)
    requires forall i :: 0 <= i < |s| ==> s[i] != c
    ensures Count(c, s) == 0 && Remove(c, s) == s && Replace(c, d, s) == s
  {
    if s != [] {
      Absent(c, d, s[1..]);
    }
  }

  /** Removing `c` takes out as many characters as there are `c`s, and nothing when there are none. */
  lemma {:induction false} RemoveCount(c: char, s: string)
    ensures |Remove(c, s)| + Count(c, s) == |s|
    ensures Count(c, s) == 0 <==> Remove(c, s) == s
  {
    if s != [] {
      RemoveCount(c, s[1..]);
      if s[0] == c {
        assert |Remove(c, s)| < |s|;
      } else {
        assert Remove(c, s) == [s[0]] + Remove(c, s[1..]);
      }
    }
  }

  /** In text made of letters, digits and a character `c` that is neither, cleaning is removing `c`. */
  lemma {:induction false} CleanIsRemove(c: char, s: string)
    requires !IsAlnum(c)
    requires forall i :: 0 <= i < |s| ==> IsAlnum(s[i]) || s[i] == c
    ensures Clean(s) == Remove(c, s)
  {
    if s != [] {
      CleanIsRemove(c, s[1..]);
    }
  }

  /** Lower-casing changes no character into or out of `c` when `c` is not an ASCII letter. */
  lemma {:induction false} CountLowerCase(c: char, s: string)
    requires !IsUpper(c) && !IsLower(c)
    ensures Count(c, LowerCase(s)) == Count(c, s)
  {
    if s != [] {
      assert LowerCase(s)[1..] == LowerCase(s[1..]);
      CountLowerCase(c, s[1..]);
    }
  }
}
