/**
 * `count_words_naive`: the number of words of a text, a word being a maximal run of characters
 * that are not whitespace.
 */
module WordCount {

  /** Rust's `char::is_whitespace`: the characters with the Unicode `White_Space` property. */
  predicate IsWhitespace(c: char) {
    ('\t' <= c <= '\r') || c == ' ' || c == '\U{0085}' || c == '\U{00A0}' || c == '\U{1680}'
    || ('\U{2000}' <= c <= '\U{200A}') || c == '\U{2028}' || c == '\U{2029}' || c == '\U{202F}'
    || c == '\U{205F}' || c == '\U{3000}'
  }

  /** Whether a word starts at index `i`: a non-whitespace character after whitespace or at the start. */
  predicate StartsWord(s: string, i: nat)
    requires i < |s|
  {
    !IsWhitespace(s[i]) && (i == 0 || IsWhitespace(s[i - 1]))
  }

  /** The number of maximal runs of non-whitespace characters: the number of word starts. */
  function Words(s: string): nat
    decreases |s|
  {
    if s == [] then 0
    else Words(s[..|s| - 1]) + (if StartsWord(s, |s| - 1) then 1 else 0)
  }

  /** The scanner as the source writes it: a word is counted when the whitespace after it is met. */
  method CountWordsNaive(text: string) returns (wordCount: nat)
    ensures wordCount == Words(text)
  {
    wordCount := 0;
    var inWord := false;
    for i := 0 to |text|
      invariant inWord <==> i > 0 && !IsWhitespace(text[i - 1])
      invariant wordCount + (if inWord then 1 else 0) == Words(text[..i])
    {
      assert text[..i + 1][..i] == text[..i];
      assert StartsWord(text[..i + 1], i) == StartsWord(text, i);
      var c := text[i];
      if IsWhitespace(c) {
        if inWord {
          inWord := false;
          wordCount := wordCount + 1;
        }
        continue;
      }
      inWord := true;
    }
    assert text[..|text|] == text;
    if inWord == true {
      wordCount := wordCount + 1;
    }
  }

  predicate AllWhitespace(s: string) {
    forall i | 0 <= i < |s| :: IsWhitespace(s[i])
  }

  /** A text has no words exactly when it is all whitespace (the empty text included). */
  lemma {:induction false} NoWordsIffWhitespace(s: string)
    ensures Words(s) == 0 <==> AllWhitespace(s)
    decreases |s|
  {
    if s != [] {
      var init := s[..|s| - 1];
      NoWordsIffWhitespace(init);
      assert forall i | 0 <= i < |init| :: init[i] == s[i];
      if !IsWhitespace(s[|s| - 1]) && Words(init) == 0 {
        assert StartsWord(s, |s| - 1);
      }
    }
  }

  /** Texts meeting at whitespace (or at an end) count separately. */
  lemma {:induction false} WordsConcat(a: string, b: string)
    requires a == [] || b == [] || IsWhitespace(a[|a| - 1]) || IsWhitespace(b[0])
    ensures Words(a + b) == Words(a) + Words(b)
    decreases |b|
  {
    if b == [] {
      assert a + b == a;
    } else {
      var b' := b[..|b| - 1];
      assert (a + b)[..|a + b| - 1] == a + b';
      if b' == [] {
        assert a + b' == a;
        assert StartsWord(a + b, |a + b| - 1) == StartsWord(b, 0);
      } else {
        WordsConcat(a, b');
        assert StartsWord(a + b, |a + b| - 1) == StartsWord(b, |b| - 1);
      }
    }
  }

  /** Counting the space-joined text counts each part. */
  lemma JoinedBySpace(a: string, b: string)
    ensures Words(a + " " + b) == Words(a) + Words(b)
  {
    WordsConcat(a, " ");
    assert Words(" ") == 0 by {
      NoWordsIffWhitespace(" ");
    }
    WordsConcat(a + " ", b);
  }

  /**
   * Whitespace around the text or repeated between words changes nothing: any non-empty run
   * of whitespace counts like a single space.
   */
  lemma WhitespaceRunsCollapse(a: string, w: string, b: string)
    requires w != [] && AllWhitespace(w)
    ensures Words(a + w + b) == Words(a + " " + b)
    ensures Words(w + b) == Words(b) && Words(a + w) == Words(a)
  {
    NoWordsIffWhitespace(w);
    WordsConcat(a, w);
    WordsConcat(a + w, b);
    WordsConcat(w, b);
    JoinedBySpace(a, b);
  }

  /** A text holding a non-whitespace character has a word, ending in whitespace or not. */
  lemma LastWordCounted(s: string, i: nat)
    requires i < |s| && !IsWhitespace(s[i])
    ensures Words(s) >= 1
  {
    NoWordsIffWhitespace(s);
  }

  /** A non-empty text without whitespace is one word. */
  lemma {:induction false} OneWord(w: string)
    requires w != [] && forall i | 0 <= i < |w| :: !IsWhitespace(w[i])
    ensures Words(w) == 1
    decreases |w|
  {
    if |w| > 1 {
      OneWord(w[..|w| - 1]);
    } else {
      assert w[..0] == [];
    }
  }

  /** The example: two spaces, a tab and a final newline still give three words. */
  lemma ThreeWords()
    ensures Words("one  two\tthree\n") == 3
  {
    OneWord("three");
    NoWordsIffWhitespace("\n");
    assert "three" + "\n" == "three\n";
    WordsConcat("three", "\n");
    assert Words("three\n") == 1;
    NoWordsIffWhitespace("\t");
    assert "\t" + "three\n" == "\tthree\n";
    WordsConcat("\t", "three\n");
    assert Words("\tthree\n") == 1;
    OneWord("two");
    assert "two" + "\tthree\n" == "two\tthree\n";
    WordsConcat("two", "\tthree\n");
    assert Words("two\tthree\n") == 2;
    NoWordsIffWhitespace("  ");
    assert "  " + "two\tthree\n" == "  two\tthree\n";
    WordsConcat("  ", "two\tthree\n");
    assert Words("  two\tthree\n") == 2;
    OneWord("one");
    assert "one" + "  two\tthree\n" == "one  two\tthree\n";
    WordsConcat("one", "  two\tthree\n");
  }

  /** The paragraph texts joined with single spaces (`join(" ")`). */
  function JoinWithSpaces(texts: seq<string>): string
    decreases |texts|
  {
    if texts == [] then ""
    else if |texts| == 1 then texts[0]
    else JoinWithSpaces(texts[..|texts| - 1]) + " " + texts[|texts| - 1]
  }

  function SumWords(texts: seq<string>): nat
    decreases |texts|
  {
    if texts == [] then 0 else SumWords(texts[..|texts| - 1]) + Words(texts[|texts| - 1])
  }

  /** The words of the space-joined texts are the words of the texts, added up. */
  lemma {:induction false} JoinedWordsAreSum(texts: seq<string>)
    ensures Words(JoinWithSpaces(texts)) == SumWords(texts)
    decreases |texts|
  {
    if |texts| == 1 {
      assert texts[..0] == [];
    } else if |texts| > 1 {
      JoinedWordsAreSum(texts[..|texts| - 1]);
      JoinedBySpace(JoinWithSpaces(texts[..|texts| - 1]), texts[|texts| - 1]);
    }
  }
}
