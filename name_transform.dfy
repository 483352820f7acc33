/**
  The transform the schema applies to an accepted name: trim it, split it at every space
  character, upper-case the first character of each word and keep the rest, and join the
  words again with single spaces. An empty word has no first character, so upper-casing it
  throws a TypeError.
 */
module NameTransform {
  import opened JsString

  /** Position `i` of `t` starts a word: it is the first character or follows a space. */
  predicate StartsWord(t: string, i: int)
    requires 0 <= i < |t|
  {
    i == 0 || t[i - 1] == ' '
  }

  /**
    Reference definition of the transform on a trimmed string: every character
    that starts a word is upper-cased, every other character is kept.
   */
  function CapitalizeInitials(t: string): string
  {
    seq(|t|, i requires 0 <= i < |t| => if StartsWord(t, i) then ToUpperChar(t[i]) else t[i])
  }

  /** Two spaces in a row at position `i` of `t`. */
  predicate DoubleSpaceAt(t: string, i: int) {
    0 <= i < |t| - 1 && t[i] == ' ' && t[i + 1] == ' '
  }

  /** `t` splits on spaces into non-empty words only. */
  predicate WellSpaced(t: string) {
    && t != []
    && t[0] != ' '
    && t[|t| - 1] != ' '
    && forall i :: 0 <= i < |t| - 1 ==> !DoubleSpaceAt(t, i)
  }

  /** One word with its first character upper-cased and the rest kept; throws on an empty word. */
  function CapitalizeWord(word: string): (r: Completion<string>)
    ensures r.Throw? <==> word == []
    ensures r.Normal? ==> |r.value| == |word| && r.value[1..] == word[1..]
    ensures r.Normal? ==> !IsAsciiLower(r.value[0]) && (IsAsciiLower(word[0]) || r.value[0] == word[0])
    ensures r.Normal? ==> (' ' in r.value <==> ' ' in word)
  {
    if word == [] then Throw
    else
      var w := [ToUpperChar(word[0])] + word[1..];
      assert w[0] == ToUpperChar(word[0]) && w[1..] == word[1..];
      assert ' ' in w ==> w[0] == ' ' || ' ' in w[1..];
      assert ' ' in word ==> word[0] == ' ' || ' ' in word[1..];
      Normal(w)
  }

  /** `words.map(...)`: throws at the first empty word, otherwise capitalizes each word. */
  function CapitalizeWords(words: seq<string>): (r: Completion<seq<string>>)
    ensures r.Throw? <==> "" in words
    ensures r.Normal? ==> |r.value| == |words|
    ensures r.Normal? ==> forall i :: 0 <= i < |words| ==> CapitalizeWord(words[i]) == Normal(r.value[i])
    decreases |words|
  {
    if words == [] then Normal([])
    else
      match CapitalizeWord(words[0])
      case Throw => Throw
      case Normal(w) =>
        match CapitalizeWords(words[1..])
        case Throw =>
          assert words == [words[0]] + words[1..];
          Throw
        case Normal(ws) =>
          assert words == [words[0]] + words[1..];
          Normal([w] + ws)
  }

  /** The whole transform: it throws exactly when the trimmed name has an empty word, and otherwise
      agrees with the reference definition on the trimmed name. */
  function CapitalizeName(name: string): (r: Completion<string>)
    ensures r.Throw? <==> "" in Split(Trim(name), ' ')
    ensures r.Normal? ==> r.value == CapitalizeInitials(Trim(name))
  {
    var t := Trim(name);
    match CapitalizeWords(Split(t, ' '))
    case Throw => Throw
    case Normal(ws) =>
      JoinCapitalized(Split(t, ' '));
      JoinSplit(t, ' ');
      Normal(Join(ws, ' '))
  }

  /** The reference definition splits at a space. */
  lemma CapitalizeInitialsAtSpace(a: string, b: string)
    ensures CapitalizeInitials(a + [' '] + b) == CapitalizeInitials(a) + [' '] + CapitalizeInitials(b)
  {
    var s := a + [' '] + b;
    var lhs, rhs := CapitalizeInitials(s), CapitalizeInitials(a) + [' '] + CapitalizeInitials(b);
    forall i | 0 <= i < |s| ensures lhs[i] == rhs[i] {
      if i < |a| {
        assert StartsWord(s, i) == StartsWord(a, i);
      } else if i > |a| {
        assert s[i] == b[i - |a| - 1];
        assert StartsWord(s, i) == StartsWord(b, i - |a| - 1);
      }
    }
  }

  /** On a single word, the reference definition upper-cases its first character only. */
  lemma CapitalizeInitialsOfWord(word: string)
    requires word != [] && ' ' !in word
    ensures CapitalizeWord(word) == Normal(CapitalizeInitials(word))
  {
    var r := CapitalizeInitials(word);
    var w := [ToUpperChar(word[0])] + word[1..];
    forall i | 0 <= i < |word| ensures r[i] == w[i] {
      if i > 0 {
        assert word[i - 1] in word;
      }
    }
    assert r == w;
  }

  /** Capitalizing the words and joining them is the reference definition of the joined words. */
  lemma {:induction false} JoinCapitalized(words: seq<string>)
    requires words != []
    requires forall w :: w in words ==> ' ' !in w
    requires "" !in words
    ensures CapitalizeWords(words).Normal?
    ensures Join(CapitalizeWords(words).value, ' ') == CapitalizeInitials(Join(words, ' '))
    decreases |words|
  {
    CapitalizeInitialsOfWord(words[0]);
    if |words| > 1 {
      assert words[1..][0] == words[1];
      JoinCapitalized(words[1..]);
      var ws := CapitalizeWords(words[1..]).value;
      var cw := CapitalizeWords(words).value;
      assert cw == [cw[0]] + ws;
      assert cw[1..] == ws;
      CapitalizeInitialsAtSpace(words[0], Join(words[1..], ' '));
    }
  }

  /** Applying the reference definition twice gives the same string as once. */
  lemma CapitalizeInitialsIdempotent(t: string)
    ensures CapitalizeInitials(CapitalizeInitials(t)) == CapitalizeInitials(t)
  {
    var r := CapitalizeInitials(t);
    forall i | 0 <= i < |t| ensures CapitalizeInitials(r)[i] == r[i] {
      CapitalizeInitialsStableAt(t, i);
    }
  }

  lemma CapitalizeInitialsStableAt(t: string, i: int)
    requires 0 <= i < |t|
    ensures CapitalizeInitials(CapitalizeInitials(t))[i] == CapitalizeInitials(t)[i]
  {
    var r := CapitalizeInitials(t);
    if i > 0 {
      assert r[i - 1] == ' ' <==> t[i - 1] == ' ';
    }
  }

  /** The reference definition keeps every space where it was, and no others. */
  lemma CapitalizeInitialsKeepsSpaces(t: string)
    ensures forall i :: 0 <= i < |t| ==> (CapitalizeInitials(t)[i] == ' ' <==> t[i] == ' ')
  {
  }

  /** A string splits into non-empty words exactly when it is non-empty, neither begins nor ends
      with a space and has no two spaces in a row. */
  lemma WellSpacedIff(t: string)
    ensures "" !in Split(t, ' ') <==> WellSpaced(t)
  {
    if WellSpaced(t) {
      WellSpacedHasNoEmptyWord(t);
    } else {
      IllSpacedHasEmptyWord(t);
    }
  }

  lemma {:induction false} WellSpacedHasNoEmptyWord(t: string)
    requires WellSpaced(t)
    ensures "" !in Split(t, ' ')
    decreases |t|
  {
    if ' ' !in t {
      SplitWithoutSeparator(t, ' ');
    } else {
      var i :| 0 <= i < |t| && t[i] == ' ';
      var a, b := t[..i], t[i + 1..];
      assert 0 < i < |t| - 1;
      assert t == a + [' '] + b;
      SplitAtSeparator(a, b, ' ');
      assert WellSpaced(a) && WellSpaced(b) by {
        assert !DoubleSpaceAt(t, i - 1) && !DoubleSpaceAt(t, i);
        forall j | 0 <= j < |a| - 1 ensures !DoubleSpaceAt(a, j) {
          assert !DoubleSpaceAt(t, j);
        }
        forall j | 0 <= j < |b| - 1 ensures !DoubleSpaceAt(b, j) {
          assert !DoubleSpaceAt(t, j + i + 1);
        }
      }
      WellSpacedHasNoEmptyWord(a);
      WellSpacedHasNoEmptyWord(b);
    }
  }

  lemma IllSpacedHasEmptyWord(t: string)
    requires !WellSpaced(t)
    ensures "" in Split(t, ' ')
  {
    if t == [] {
    } else if t[0] == ' ' {
      assert t == [] + [' '] + t[1..];
      SplitAtSeparator([], t[1..], ' ');
    } else if t[|t| - 1] == ' ' {
      assert t == t[..|t| - 1] + [' '] + [];
      SplitAtSeparator(t[..|t| - 1], [], ' ');
    } else {
      var i :| 0 <= i < |t| - 1 && DoubleSpaceAt(t, i);
      var b := t[i + 2..];
      assert t == t[..i] + [' '] + ([] + [' '] + b);
      SplitAtSeparator(t[..i], [] + [' '] + b, ' ');
      SplitAtSeparator([], b, ' ');
    }
  }

  /** The transform throws exactly when the name is all white space, or has two spaces in a row
      once trimmed. */
  lemma NameTransformThrows(name: string)
    ensures CapitalizeName(name).Throw? <==> AllWhiteSpace(name) || exists i :: DoubleSpaceAt(Trim(name), i)
  {
    WellSpacedIff(Trim(name));
  }

  /** When the trimmed name splits into non-empty words, the result is those words, each with its
      first character upper-cased and the rest unchanged, joined by single spaces: as many words,
      and as long as the trimmed name. */
  lemma NameTransformShape(name: string)
    requires "" !in Split(Trim(name), ' ')
    ensures CapitalizeName(name).Normal?
    ensures
      var t, r := Trim(name), CapitalizeName(name).value;
      var words, out := Split(t, ' '), Split(r, ' ');
      && |r| == |t|
      && r == Join(out, ' ')
      && |out| == |words|
      && forall k :: 0 <= k < |words| ==>
           |out[k]| == |words[k]| > 0
           && out[k][0] == ToUpperChar(words[k][0])
           && !IsAsciiLower(out[k][0])
           && out[k][1..] == words[k][1..]
  {
    var t := Trim(name);
    var words := Split(t, ' ');
    var cw := CapitalizeWords(words).value;
    forall w | w in cw ensures ' ' !in w {
      var k :| 0 <= k < |cw| && cw[k] == w;
      assert words[k] in words;
    }
    SplitJoin(cw, ' ');
    JoinSplit(t, ' ');
  }

  /** Capitalizing an already capitalized name changes nothing. */
  lemma NameTransformIdempotent(name: string)
    requires CapitalizeName(name).Normal?
    ensures CapitalizeName(CapitalizeName(name).value) == CapitalizeName(name)
  {
    var t := Trim(name);
    var r := CapitalizeName(name).value;
    WellSpacedIff(t);
    CapitalizeInitialsTrimmed(t);
    TrimOfTrimmed(r);
    WellSpacedIff(r);
    CapitalizeInitialsIdempotent(t);
  }

  /** On a trimmed, well-spaced string the reference definition gives a trimmed, well-spaced string. */
  lemma CapitalizeInitialsTrimmed(t: string)
    requires WellSpaced(t) && !IsWhiteSpace(t[0]) && !IsWhiteSpace(t[|t| - 1])
    ensures var r := CapitalizeInitials(t);
      WellSpaced(r) && !IsWhiteSpace(r[0]) && !IsWhiteSpace(r[|r| - 1])
  {
    var r := CapitalizeInitials(t);
    var n := |t| - 1;
    assert r[0] == ToUpperChar(t[0]);
    assert r[n] == ToUpperChar(t[n]) || r[n] == t[n];
    CapitalizeInitialsKeepsSpaces(t);
    forall i | 0 <= i < |r| - 1 ensures !DoubleSpaceAt(r, i) {
      assert !DoubleSpaceAt(t, i);
    }
  }

  /** A capitalized name is trimmed, splits into non-empty words only, and no word starts with a
      lower-case letter. */
  lemma NameTransformOutput(name: string)
    requires CapitalizeName(name).Normal?
    ensures var r := CapitalizeName(name).value;
      && Trim(r) == r
      && WellSpaced(r)
      && forall w :: w in Split(r, ' ') ==> w != [] && !IsAsciiLower(w[0])
  {
    var t := Trim(name);
    var r := CapitalizeName(name).value;
    assert WellSpaced(r) && Trim(r) == r by {
      WellSpacedIff(t);
      CapitalizeInitialsTrimmed(t);
      TrimOfTrimmed(r);
    }
    var out := Split(r, ' ');
    assert forall k :: 0 <= k < |out| ==> out[k] != [] && !IsAsciiLower(out[k][0]) by {
      NameTransformShape(name);
    }
    forall w | w in out ensures w != [] && !IsAsciiLower(w[0]) {
      var k :| 0 <= k < |out| && out[k] == w;
    }
  }
}
