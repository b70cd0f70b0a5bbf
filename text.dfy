/**
 * Text handling shared by the search server: the whitespace tokenizer,
 * the control-character validity test, and the ascending order of words
 * that the server's ordered word sets follow.
 */
module Text {

  /** The space character is the only separator the tokenizer knows. */
  const Space: char := ' '

  /** A word or a text is valid when no character lies below the space. */
  predicate IsValidWord(word: string) {
    forall i | 0 <= i < |word| :: word[i] >= Space
  }

  /** Length of the run of non-space characters that starts the text. */
  function RunLength(s: string): (k: nat)
    ensures k <= |s|
    ensures forall i | 0 <= i < k :: s[i] != Space
    ensures k < |s| ==> s[k] == Space
  {
    if s == [] || s[0] == Space then 0 else 1 + RunLength(s[1..])
  }

  /**
   * Reference definition of tokenization: the maximal space-free runs of
   * the text, left to right.
   */
  function Words(s: string): seq<string>
    decreases |s|
  {
    if s == [] then []
    else if s[0] == Space then Words(s[1..])
    else
      var k := RunLength(s);
      [s[..k]] + Words(s[k..])
  }

  predicate SpaceFree(w: string) {
    forall i | 0 <= i < |w| :: w[i] != Space
  }

  /** Every token is non-empty and contains no space. */
  lemma {:induction false} WordsAreNonEmptyRuns(s: string)
    ensures forall j | 0 <= j < |Words(s)| :: Words(s)[j] != [] && SpaceFree(Words(s)[j])
    decreases |s|
  {
    if s == [] {
    } else if s[0] == Space {
      WordsAreNonEmptyRuns(s[1..]);
    } else {
      var k := RunLength(s);
      WordsAreNonEmptyRuns(s[k..]);
      assert Words(s) == [s[..k]] + Words(s[k..]);
    }
  }

  /** Splitting at a space splits the token list: no token crosses a space. */
  lemma {:induction false} WordsOfSpaceJoin(a: string, b: string)
    ensures Words(a + [Space] + b) == Words(a) + Words(b)
    decreases |a|
  {
    if a == [] {
      assert (a + [Space] + b)[1..] == b;
    } else if a[0] == Space {
      assert (a + [Space] + b)[1..] == a[1..] + [Space] + b;
      WordsOfSpaceJoin(a[1..], b);
    } else {
      var s := a + [Space] + b;
      var k := RunLength(a);
      RunLengthOfPrefix(a, [Space] + b);
      assert s == a + ([Space] + b);
      assert s[..k] == a[..k];
      assert s[k..] == a[k..] + [Space] + b;
      WordsOfSpaceJoin(a[k..], b);
    }
  }

  /** The run at the start of `a + rest` stops inside `a` when `a` contains a space. */
  lemma {:induction false} RunLengthOfPrefix(a: string, rest: string)
    requires RunLength(a) < |a| || (rest != [] && rest[0] == Space)
    ensures RunLength(a + rest) == RunLength(a)
    decreases |a|
  {
    if a == [] {
    } else if a[0] == Space {
    } else {
      assert (a + rest)[1..] == a[1..] + rest;
      RunLengthOfPrefix(a[1..], rest);
    }
  }

  /** A pending non-empty run followed by a space is emitted as one token. */
  lemma PendingWordThenSpace(w: string, rest: string)
    requires w != [] && SpaceFree(w)
    requires rest != [] && rest[0] == Space
    ensures Words(w + rest) == [w] + Words(rest[1..])
  {
    RunLengthOfPrefix(w, rest);
    RunLengthOfRun(w);
    var s := w + rest;
    assert s[..|w|] == w;
    assert s[|w|..] == rest;
  }

  lemma {:induction false} RunLengthOfRun(w: string)
    requires SpaceFree(w)
    ensures RunLength(w) == |w|
    decreases |w|
  {
    if w != [] {
      RunLengthOfRun(w[1..]);
    }
  }

  /** A non-empty space-free text is exactly one token. */
  lemma WordsOfRun(w: string)
    requires SpaceFree(w)
    ensures Words(w) == if w == [] then [] else [w]
  {
    if w != [] {
      RunLengthOfRun(w);
      assert w[..|w|] == w;
      assert w[|w|..] == [];
    }
  }

  /**
   * The tokenizer: one pass over the text, collecting the current run and
   * emitting it at each space and at the end. The result is the list of
   * maximal space-free runs.
   */
  method SplitIntoWords(text: string) returns (words: seq<string>)
    ensures words == Words(text)
    ensures forall j | 0 <= j < |words| :: words[j] != [] && SpaceFree(words[j])
  {
    words := [];
    var word: string := [];
    var i := 0;
    assert word + text[i..] == text;
    while i < |text|
      invariant 0 <= i <= |text|
      invariant SpaceFree(word)
      invariant words + Words(word + text[i..]) == Words(text)
    {
      var c := text[i];
      if c == Space {
        if word != [] {
          SpaceStep(words, word, text, i);
          words := words + [word];
          word := [];
        } else {
          SpaceStep(words, word, text, i);
        }
      } else {
        CharStep(words, word, text, i);
        word := word + [c];
      }
      i := i + 1;
    }
    assert word + text[i..] == word;
    WordsOfRun(word);
    if word != [] {
      words := words + [word];
    }
    WordsAreNonEmptyRuns(text);
  }

  /** At a space the pending run, if any, is emitted and the space skipped. */
  lemma SpaceStep(words: seq<string>, word: string, text: string, i: nat)
    requires i < |text| && text[i] == Space && SpaceFree(word)
    requires words + Words(word + text[i..]) == Words(text)
    ensures word != [] ==> (words + [word]) + Words([] + text[i + 1..]) == Words(text)
    ensures word == [] ==> words + Words(word + text[i + 1..]) == Words(text)
  {
    assert text[i..][1..] == text[i + 1..];
    assert [] + text[i + 1..] == text[i + 1..];
    if word != [] {
      PendingWordThenSpace(word, text[i..]);
      assert words + ([word] + Words(text[i + 1..])) == (words + [word]) + Words(text[i + 1..]);
    } else {
      assert word + text[i..] == text[i..];
    }
  }

  /** Any other character extends the pending run. */
  lemma CharStep(words: seq<string>, word: string, text: string, i: nat)
    requires i < |text| && text[i] != Space && SpaceFree(word)
    requires words + Words(word + text[i..]) == Words(text)
    ensures words + Words((word + [text[i]]) + text[i + 1..]) == Words(text)
    ensures SpaceFree(word + [text[i]])
  {
    ShiftChar(word, text, i);
  }

  lemma ShiftChar(word: string, text: string, i: nat)
    requires i < |text|
    ensures word + text[i..] == (word + [text[i]]) + text[i + 1..]
  {
  }

  /**
   * Ascending order of words, as the ordered word sets of the server keep
   * them: lexicographic by character code, a proper prefix first.
   */
  predicate LexLess(a: string, b: string)
    decreases |a|
  {
    if a == [] then b != []
    else if b == [] then false
    else if a[0] != b[0] then a[0] < b[0]
    else LexLess(a[1..], b[1..])
  }

  lemma {:induction false} LexLessIrreflexive(a: string)
    ensures !LexLess(a, a)
    decreases |a|
  {
    if a != [] {
      LexLessIrreflexive(a[1..]);
    }
  }

  lemma {:induction false} LexLessTransitive(a: string, b: string, c: string)
    requires LexLess(a, b) && LexLess(b, c)
    ensures LexLess(a, c)
    decreases |a|
  {
    if a != [] && b != [] && c != [] && a[0] == b[0] && b[0] == c[0] {
      LexLessTransitive(a[1..], b[1..], c[1..]);
    }
  }

  lemma {:induction false} LexLessTotal(a: string, b: string)
    requires a != b
    ensures LexLess(a, b) || LexLess(b, a)
    decreases |a|
  {
    if a != [] && b != [] && a[0] == b[0] {
      assert a == [a[0]] + a[1..] && b == [b[0]] + b[1..];
      LexLessTotal(a[1..], b[1..]);
    }
  }

  /** The least word of a non-empty set, found by one pass over the set. */
  method MinWord(s: set<string>) returns (m: string)
    requires s != {}
    ensures m in s
    ensures forall w | w in s && w != m :: LexLess(m, w)
  {
    m :| m in s;
    var rest := s - {m};
    while rest != {}
      invariant rest <= s && m in s && m !in rest
      invariant forall w | w in s - rest && w != m :: LexLess(m, w)
      decreases rest
    {
      var w :| w in rest;
      if LexLess(w, m) {
        forall v | v in s - (rest - {w}) && v != w
          ensures LexLess(w, v)
        {
          if v != m {
            LexLessTransitive(w, m, v);
          }
        }
        m := w;
      } else {
        LexLessTotal(w, m);
      }
      rest := rest - {w};
    }
  }
}
