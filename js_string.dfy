/**
  The JavaScript string built-ins that the user form schema calls
  (`trim`, `split`, `join`, `length`, ASCII case mapping), on strings of
  Unicode scalar values, together with the completion of an evaluation that
  may throw.
 */
module JsString {

  /** The result of evaluating a JavaScript expression: a value, or a thrown TypeError. */
  datatype Completion<T> = Normal(value: T) | Throw

  /** The characters `String.prototype.trim` removes: WhiteSpace and LineTerminator. */
  predicate IsWhiteSpace(c: char) {
    || c == '\t' || c == '\n' || c == '\U{B}' || c == '\U{C}' || c == '\r' || c == ' '
    || c == '\U{A0}' || c == '\U{1680}' || ('\U{2000}' <= c <= '\U{200A}')
    || c == '\U{2028}' || c == '\U{2029}' || c == '\U{202F}' || c == '\U{205F}'
    || c == '\U{3000}' || c == '\U{FEFF}'
  }

  predicate AllWhiteSpace(s: string) {
    forall i :: 0 <= i < |s| ==> IsWhiteSpace(s[i])
  }

  predicate IsAsciiLower(c: char) { 'a' <= c <= 'z' }

  predicate IsAsciiUpper(c: char) { 'A' <= c <= 'Z' }

  /** `toLocaleUpperCase` on one character, restricted to ASCII letters: a lower-case letter
      becomes the upper-case letter at the same place in the alphabet. */
  function ToUpperChar(c: char): (r: char)
    ensures !IsAsciiLower(r)
    ensures IsAsciiLower(c) ==> IsAsciiUpper(r) && r as int - 'A' as int == c as int - 'a' as int
    ensures IsAsciiLower(c) || r == c
    ensures IsWhiteSpace(r) == IsWhiteSpace(c) && (r == ' ') == (c == ' ')
  {
    if IsAsciiLower(c) then (c as int - 32) as char else c
  }

  /** `toLowerCase` on one character, restricted to ASCII letters: an upper-case letter
      becomes the lower-case letter at the same place in the alphabet. */
  function ToLowerChar(c: char): (r: char)
    ensures !IsAsciiUpper(r)
    ensures IsAsciiUpper(c) ==> IsAsciiLower(r) && r as int - 'a' as int == c as int - 'A' as int
    ensures IsAsciiUpper(c) || r == c
    ensures ToUpperChar(r) == ToUpperChar(c)
  {
    if IsAsciiUpper(c) then (c as int + 32) as char else c
  }

  /** `s.toLowerCase()`: the same string up to the case of its ASCII letters, with none upper-case. */
  function ToLowerCase(s: string): (r: string)
    ensures |r| == |s|
    ensures forall i :: 0 <= i < |r| ==> !IsAsciiUpper(r[i]) && ToUpperChar(r[i]) == ToUpperChar(s[i])
  {
    seq(|s|, i requires 0 <= i < |s| => ToLowerChar(s[i]))
  }

  lemma LowerCaseIdempotent(s: string)
    ensures ToLowerCase(ToLowerCase(s)) == ToLowerCase(s)
  {
  }

  /** The number of UTF-16 code units of one scalar value: two outside the Basic Multilingual Plane. */
  function CodeUnits(c: char): (n: nat)
    ensures 1 <= n <= 2
    ensures n == 1 <==> (c as int) < 0x1_0000
  {
    if (c as int) < 0x1_0000 then 1 else 2
  }

  /** `s.length`: JavaScript counts UTF-16 code units, not characters. */
  function Utf16Length(s: string): (n: nat)
    ensures |s| <= n <= 2 * |s|
    ensures n == |s| <==> forall i :: 0 <= i < |s| ==> (s[i] as int) < 0x1_0000
  {
    if s == [] then 0 else CodeUnits(s[0]) + Utf16Length(s[1..])
  }

  /** A single character has as many code units as its encoding. */
  lemma Utf16LengthOfChar(c: char)
    ensures Utf16Length([c]) == CodeUnits(c)
  {
    assert [c][1..] == [];
  }

  /** The code-unit length of a concatenation is the sum of the lengths; with `Utf16LengthOfChar`
      this fixes the length of every string as the sum of the code units of its characters. */
  lemma {:induction false} Utf16LengthAppend(a: string, b: string)
    ensures Utf16Length(a + b) == Utf16Length(a) + Utf16Length(b)
    decreases |a|
  {
    if a != [] {
      assert (a + b)[0] == a[0] && (a + b)[1..] == a[1..] + b;
      Utf16LengthAppend(a[1..], b);
    } else {
      assert a + b == b;
    }
  }

  /** The number of white space characters at the start of `s`. */
  function LeadingWhiteSpace(s: string): (n: nat)
    ensures n <= |s|
    ensures forall i :: 0 <= i < n ==> IsWhiteSpace(s[i])
    ensures n < |s| ==> !IsWhiteSpace(s[n])
    decreases |s|
  {
    if s != [] && IsWhiteSpace(s[0]) then 1 + LeadingWhiteSpace(s[1..]) else 0
  }

  /** The number of white space characters at the end of `s`. */
  function TrailingWhiteSpace(s: string): (n: nat)
    ensures n <= |s|
    ensures forall i :: |s| - n <= i < |s| ==> IsWhiteSpace(s[i])
    ensures n < |s| ==> !IsWhiteSpace(s[|s| - 1 - n])
    decreases |s|
  {
    if s != [] && IsWhiteSpace(s[|s| - 1]) then 1 + TrailingWhiteSpace(s[..|s| - 1]) else 0
  }

  /** `trimStart`. */
  function TrimStart(s: string): string {
    s[LeadingWhiteSpace(s)..]
  }

  /** `trimEnd`. */
  function TrimEnd(s: string): string {
    s[..|s| - TrailingWhiteSpace(s)]
  }

  /** `s.trim()`: no white space at either end, and empty exactly when `s` is all white space. */
  function Trim(s: string): (r: string)
    ensures r == [] || (!IsWhiteSpace(r[0]) && !IsWhiteSpace(r[|r| - 1]))
    ensures r == [] <==> AllWhiteSpace(s)
  {
    var n := LeadingWhiteSpace(s);
    var t := s[n..];
    var m := TrailingWhiteSpace(t);
    assert AllWhiteSpace(s) ==> n == |s|;
    assert t != [] ==> !IsWhiteSpace(t[0]);
    TrimEnd(TrimStart(s))
  }

  /** `r` is the slice of `s` at offset `a`, with only white space before and after it. */
  ghost predicate SurroundedBy(s: string, a: int, r: string) {
    && 0 <= a <= |s| - |r|
    && r == s[a..a + |r|]
    && AllWhiteSpace(s[..a])
    && AllWhiteSpace(s[a + |r|..])
  }

  /** The trim of `s` is a slice of `s` with only white space around it. */
  lemma TrimSurrounded(s: string)
    ensures exists a :: SurroundedBy(s, a, Trim(s))
  {
    var n := LeadingWhiteSpace(s);
    var t := s[n..];
    var r := Trim(s);
    assert r == s[n..n + |r|];
    assert s[n + |r|..] == t[|r|..];
    assert SurroundedBy(s, n, r);
  }

  /** A string without white space at either end is its own trim. */
  lemma TrimOfTrimmed(s: string)
    requires s == [] || (!IsWhiteSpace(s[0]) && !IsWhiteSpace(s[|s| - 1]))
    ensures Trim(s) == s
  {
  }

  /** Trimming a string that ends in one white space character only drops that character. */
  lemma TrimTrailing(s: string, c: char)
    requires s != [] && !IsWhiteSpace(s[0]) && !IsWhiteSpace(s[|s| - 1])
    requires IsWhiteSpace(c)
    ensures Trim(s + [c]) == s
  {
    assert TrimStart(s + [c]) == s + [c];
    assert (s + [c])[..|s|] == s;
  }

  /** `s.split(sep)` for a one-character separator: never empty; "" splits into [""]. */
  function Split(s: string, sep: char): (r: seq<string>)
    ensures |r| >= 1
    ensures forall w :: w in r ==> sep !in w
    decreases |s|
  {
    if s == [] then [[]]
    else
      var rest := Split(s[1..], sep);
      if s[0] == sep then [[]] + rest
      else
        assert rest[0] in rest;
        [[s[0]] + rest[0]] + rest[1..]
  }

  /** The total number of characters of `words`. */
  function TotalLength(words: seq<string>): nat
  {
    if words == [] then 0 else |words[0]| + TotalLength(words[1..])
  }

  /** `words.join(sep)`: the words in order with one separator between neighbours, so it starts
      with the first word and is as long as the words plus one separator per gap. */
  function Join(words: seq<string>, sep: char): (r: string)
    ensures words != [] ==> |r| == TotalLength(words) + |words| - 1
    ensures words != [] ==> words[0] <= r
  {
    if words == [] then []
    else if |words| == 1 then words[0]
    else words[0] + [sep] + Join(words[1..], sep)
  }

  /** A string without the separator is a single word. */
  lemma {:induction false} SplitWithoutSeparator(s: string, sep: char)
    requires sep !in s
    ensures Split(s, sep) == [s]
    decreases |s|
  {
    if s != [] {
      assert s[0] != sep && sep !in s[1..];
      SplitWithoutSeparator(s[1..], sep);
      assert [s[0]] + s[1..] == s;
    }
  }

  /** Splitting distributes over an occurrence of the separator. */
  lemma {:induction false} SplitAtSeparator(a: string, b: string, sep: char)
    ensures Split(a + [sep] + b, sep) == Split(a, sep) + Split(b, sep)
    decreases |a|
  {
    var s := a + [sep] + b;
    if a == [] {
      assert s[1..] == b;
    } else {
      assert s[0] == a[0] && s[1..] == a[1..] + [sep] + b;
      SplitAtSeparator(a[1..], b, sep);
      var ra, rb := Split(a[1..], sep), Split(b, sep);
      assert Split(s[1..], sep) == ra + rb;
      if a[0] != sep {
        assert (ra + rb)[0] == ra[0] && (ra + rb)[1..] == ra[1..] + rb;
      }
    }
  }

  /** Joining the pieces of a split gives back the string. */
  lemma {:induction false} JoinSplit(s: string, sep: char)
    ensures Join(Split(s, sep), sep) == s
    decreases |s|
  {
    if s != [] {
      JoinSplit(s[1..], sep);
      var rest := Split(s[1..], sep);
      if s[0] == sep {
        assert ([[]] + rest)[1..] == rest;
      } else if |rest| > 1 {
        assert ([[s[0]] + rest[0]] + rest[1..])[1..] == rest[1..];
      }
    }
  }

  /** Splitting a join of words without the separator gives back the words. */
  lemma {:induction false} SplitJoin(words: seq<string>, sep: char)
    requires words != []
    requires forall w :: w in words ==> sep !in w
    ensures Split(Join(words, sep), sep) == words
    decreases |words|
  {
    SplitWithoutSeparator(words[0], sep);
    if |words| > 1 {
      SplitJoin(words[1..], sep);
      SplitAtSeparator(words[0], Join(words[1..], sep), sep);
    }
  }
}
