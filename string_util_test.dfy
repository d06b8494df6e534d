/** The assertions of StringUtilTest, one lemma per equivalence partition,
    stated about the model in StringUtil. */
module StringUtilTest {
  import opened Wrappers
  import opened StringUtil

  // ---------------------------------------------------------------------
  // getNonZeroUnsignedIntegerClipped
  // ---------------------------------------------------------------------

  lemma EmptyStringsAbsent()
    ensures GetNonZeroUnsignedIntegerClipped("") == None
    ensures GetNonZeroUnsignedIntegerClipped("  ") == None
  {
  }

  lemma NotANumberAbsent()
    ensures GetNonZeroUnsignedIntegerClipped("a") == None
    ensures GetNonZeroUnsignedIntegerClipped("aaa") == None
  {
  }

  lemma ZeroAbsent()
    ensures GetNonZeroUnsignedIntegerClipped("0") == None
  {
  }

  lemma ZeroPrefixPresent()
    ensures GetNonZeroUnsignedIntegerClipped("01") == Some(1)
  {
    assert Zeros(1) + Decimal(1) == "01";
    ParseDecimalRoundTrip(1, 1);
  }

  lemma SignedNumbersAbsent()
    ensures GetNonZeroUnsignedIntegerClipped("-1") == None
    ensures GetNonZeroUnsignedIntegerClipped("+1") == None
  {
  }

  lemma NumbersWithWhitespaceAbsent()
    ensures GetNonZeroUnsignedIntegerClipped(" 10 ") == None
    ensures GetNonZeroUnsignedIntegerClipped("1 0") == None
  {
  }

  /** Long.toString((long) Integer.MAX_VALUE + 1), parsed back. */
  lemma BigNumberClipped()
    ensures Decimal(IntMaxValue + 1) == "2147483648"
    ensures GetNonZeroUnsignedIntegerClipped(Decimal(IntMaxValue + 1)) == Some(IntMaxValue)
  {
    assert Decimal(2) == "2";
    assert Decimal(21) == "21";
    assert Decimal(214) == "214";
    assert Decimal(2147) == "2147";
    assert Decimal(21474) == "21474";
    assert Decimal(214748) == "214748";
    assert Decimal(2147483) == "2147483";
    assert Decimal(21474836) == "21474836";
    assert Decimal(214748364) == "214748364";
    assert Decimal(2147483648) == "2147483648";
    ParseDecimalRoundTrip(0, IntMaxValue + 1);
    assert Zeros(0) + Decimal(IntMaxValue + 1) == Decimal(IntMaxValue + 1);
  }

  lemma ValidNumbersPresent()
    ensures GetNonZeroUnsignedIntegerClipped("1") == Some(1)
    ensures GetNonZeroUnsignedIntegerClipped("10") == Some(10)
  {
    assert Decimal(10) == "10";
    ParseDecimalRoundTrip(0, 1);
    ParseDecimalRoundTrip(0, 10);
    assert Zeros(0) + Decimal(1) == "1";
    assert Zeros(0) + Decimal(10) == "10";
  }

  // ---------------------------------------------------------------------
  // containsWordIgnoreCase
  // ---------------------------------------------------------------------

  lemma EmptyWordFails()
    ensures ContainsWordIgnoreCase("typical sentence", "  ") == Err(EmptyWord)
    ensures EmptyWord.Message() == "Word parameter cannot be empty"
  {
  }

  lemma MultipleWordsFails()
    ensures ContainsWordIgnoreCase("typical sentence", "aaa BBB") == Err(NotSingleWord)
    ensures NotSingleWord.Message() == "Word parameter should be a single word"
  {
    TrimOfTwoWords();
    assert "aaa BBB"[3] == ' ';
  }

  /** "aaa BBB" is already trimmed. */
  lemma TrimOfTwoWords()
    ensures Trim("aaa BBB") == "aaa BBB"
  {
    TrimPadded([], "aaa BBB", []);
    assert [] + "aaa BBB" + [] == "aaa BBB";
  }

  lemma EmptySentenceContainsNothing()
    ensures ContainsWordIgnoreCase("", "abc") == Ok(false)
    ensures ContainsWordIgnoreCase("    ", "123") == Ok(false)
  {
    QueryWordsAreWords();
    NoTokensIffBlank("");
    NoTokensIffBlank("    ");
    UnpaddedLookup("", "abc", []);
    UnpaddedLookup("    ", "123", []);
  }

  /** The tokens of a word, then a space, then the rest, after blank padding. */
  lemma PaddedLeadingWord(p: string, x: string, rest: string)
    requires AllWhitespace(p) && IsWord(x)
    ensures Tokens(p + (x + [' '] + rest)) == [x] + Tokens(rest)
  {
    TokensSkipWhitespace(p, x + [' '] + rest);
    TokensOfLeadingWord(x, ' ', rest);
  }

  /** The tokens of a word, then a space, then a rest whose tokens are known,
      after blank padding. */
  lemma PaddedWordThen(p: string, x: string, rest: string, ts: seq<string>)
    requires AllWhitespace(p) && IsWord(x) && Tokens(rest) == ts
    ensures Tokens(p + (x + [' '] + rest)) == [x] + ts
  {
    PaddedLeadingWord(p, x, rest);
  }

  /** The tokens of three words x, y and z, each padded by blanks and the first
      two followed by a space. */
  lemma TokensOfThreeWords(p: string, x: string, q: string, y: string, r: string, z: string, t: string)
    requires AllWhitespace(p) && AllWhitespace(q) && AllWhitespace(r) && AllWhitespace(t)
    requires IsWord(x) && IsWord(y) && IsWord(z)
    ensures Tokens(p + (x + [' '] + (q + (y + [' '] + (r + z + t))))) == [x, y, z]
  {
    var last := r + z + t;
    TokensOfPaddedWord(r, z, t);
    PaddedWordThen(q, y, last, [z]);
    assert [y] + [z] == [y, z];
    PaddedWordThen(p, x, q + (y + [' '] + last), [y, z]);
    assert [x] + [y, z] == [x, y, z];
  }

  /** containsWordIgnoreCase on a sentence whose tokens are known, for a
      query word with blank padding. */
  lemma Lookup(sentence: string, word: string, p: string, w: string, q: string, tokens: seq<string>)
    requires word == p + w + q
    requires AllWhitespace(p) && AllWhitespace(q) && IsWord(w)
    requires Tokens(sentence) == tokens
    ensures ContainsWordIgnoreCase(sentence, word) == Ok(AnyMatch(tokens, w))
  {
    ContainsPaddedWord(sentence, p, w, q);
  }

  /** Lookup for a query word without padding. */
  lemma UnpaddedLookup(sentence: string, w: string, tokens: seq<string>)
    requires IsWord(w)
    requires Tokens(sentence) == tokens
    ensures ContainsWordIgnoreCase(sentence, w) == Ok(AnyMatch(tokens, w))
  {
    Lookup(sentence, w, [], w, [], tokens);
  }

  /** The query words of the tests are single words. */
  lemma QueryWordsAreWords()
    ensures IsWord("bb") && IsWord("bbbb") && IsWord("Bbb") && IsWord("CCc@1")
    ensures IsWord("aaa") && IsWord("bbB") && IsWord("abc") && IsWord("123")
  {
  }

  /** "  ccc  " is the word "ccc" padded by two blanks on each side. */
  lemma PaddedCcc()
    ensures "  ccc  " == "  " + "ccc" + "  "
    ensures AllWhitespace("  ") && IsWord("ccc")
  {
  }

  lemma TokensOfAaaBbbCcc()
    ensures Tokens("aaa bbb ccc") == ["aaa", "bbb", "ccc"]
  {
    assert "aaa bbb ccc" == [] + ("aaa" + [' '] + ([] + ("bbb" + [' '] + ([] + "ccc" + []))));
    TokensOfThreeWords([], "aaa", [], "bbb", [], "ccc", []);
  }

  lemma TokensOfAaaBbbCccMixedCase()
    ensures Tokens("aaa bBb ccc") == ["aaa", "bBb", "ccc"]
  {
    assert "aaa bBb ccc" == [] + ("aaa" + [' '] + ([] + ("bBb" + [' '] + ([] + "ccc" + []))));
    TokensOfThreeWords([], "aaa", [], "bBb", [], "ccc", []);
  }

  lemma TokensOfAaaBbbCccAt1()
    ensures Tokens("aaa bBb ccc@1") == ["aaa", "bBb", "ccc@1"]
  {
    assert "aaa bBb ccc@1" == [] + ("aaa" + [' '] + ([] + ("bBb" + [' '] + ([] + "ccc@1" + []))));
    TokensOfThreeWords([], "aaa", [], "bBb", [], "ccc@1", []);
  }

  lemma TokensOfExtraSpaces()
    ensures Tokens("  AAA   bBb   ccc  ") == ["AAA", "bBb", "ccc"]
  {
    assert "  AAA   bBb   ccc  " == "  " + ("AAA" + [' '] + ("  " + ("bBb" + [' '] + ("  " + "ccc" + "  "))));
    TokensOfThreeWords("  ", "AAA", "  ", "bBb", "  ", "ccc", "  ");
  }

  lemma TokensOfAaa()
    ensures Tokens("Aaa") == ["Aaa"]
  {
    TokensOfPaddedWord([], "Aaa", []);
    assert [] + "Aaa" + [] == "Aaa";
  }

  lemma TokensOfBbbCccBbb()
    ensures Tokens("bBb ccc  bbb") == ["bBb", "ccc", "bbb"]
  {
    assert "bBb ccc  bbb" == [] + ("bBb" + [' '] + ([] + ("ccc" + [' '] + (" " + "bbb" + []))));
    TokensOfThreeWords([], "bBb", [], "ccc", " ", "bbb", []);
  }

  lemma FourWordsShape()
    ensures "AAA bBb ccc  bbb" == [] + ("AAA" + [' '] + "bBb ccc  bbb")
    ensures IsWord("AAA")
    ensures ["AAA"] + ["bBb", "ccc", "bbb"] == ["AAA", "bBb", "ccc", "bbb"]
  {
  }

  lemma TokensOfFourWords()
    ensures Tokens("AAA bBb ccc  bbb") == ["AAA", "bBb", "ccc", "bbb"]
  {
    FourWordsShape();
    TokensOfBbbCccBbb();
    PaddedWordThen([], "AAA", "bBb ccc  bbb", ["bBb", "ccc", "bbb"]);
  }

  lemma NoMatchForBb()
    ensures !AnyMatch(["aaa", "bbb", "ccc"], "bb")
  {
  }

  lemma NoMatchForBbbb()
    ensures !AnyMatch(["aaa", "bbb", "ccc"], "bbbb")
  {
  }

  lemma MatchForBbb()
    ensures AnyMatch(["aaa", "bBb", "ccc"], "Bbb")
  {
    assert EqualsIgnoreCase(["aaa", "bBb", "ccc"][1], "Bbb");
  }

  lemma MatchForCccAt1()
    ensures AnyMatch(["aaa", "bBb", "ccc@1"], "CCc@1")
  {
    assert EqualsIgnoreCase(["aaa", "bBb", "ccc@1"][2], "CCc@1");
  }

  lemma MatchForAaa()
    ensures AnyMatch(["AAA", "bBb", "ccc"], "aaa")
  {
    assert EqualsIgnoreCase(["AAA", "bBb", "ccc"][0], "aaa");
  }

  lemma MatchForOnlyWord()
    ensures AnyMatch(["Aaa"], "aaa")
  {
    assert EqualsIgnoreCase(["Aaa"][0], "aaa");
  }

  lemma MatchForCcc()
    ensures AnyMatch(["aaa", "bbb", "ccc"], "ccc")
  {
    assert EqualsIgnoreCase(["aaa", "bbb", "ccc"][2], "ccc");
  }

  lemma MatchForBbB()
    ensures AnyMatch(["AAA", "bBb", "ccc", "bbb"], "bbB")
  {
    assert EqualsIgnoreCase(["AAA", "bBb", "ccc", "bbb"][1], "bbB");
  }

  /** Sentence word bigger than query word. */
  lemma QueryWordPartOfSentenceWord()
    ensures ContainsWordIgnoreCase("aaa bbb ccc", "bb") == Ok(false)
  {
    TokensOfAaaBbbCcc();
    NoMatchForBb();
    QueryWordsAreWords();
    UnpaddedLookup("aaa bbb ccc", "bb", ["aaa", "bbb", "ccc"]);
  }

  /** Query word bigger than sentence word. */
  lemma SentenceWordPartOfQueryWord()
    ensures ContainsWordIgnoreCase("aaa bbb ccc", "bbbb") == Ok(false)
  {
    TokensOfAaaBbbCcc();
    NoMatchForBbbb();
    QueryWordsAreWords();
    UnpaddedLookup("aaa bbb ccc", "bbbb", ["aaa", "bbb", "ccc"]);
  }

  lemma MatchesMiddleWordIgnoringCase()
    ensures ContainsWordIgnoreCase("aaa bBb ccc", "Bbb") == Ok(true)
  {
    TokensOfAaaBbbCccMixedCase();
    MatchForBbb();
    QueryWordsAreWords();
    UnpaddedLookup("aaa bBb ccc", "Bbb", ["aaa", "bBb", "ccc"]);
  }

  lemma MatchesLastWordIgnoringCase()
    ensures ContainsWordIgnoreCase("aaa bBb ccc@1", "CCc@1") == Ok(true)
  {
    TokensOfAaaBbbCccAt1();
    MatchForCccAt1();
    QueryWordsAreWords();
    UnpaddedLookup("aaa bBb ccc@1", "CCc@1", ["aaa", "bBb", "ccc@1"]);
  }

  lemma MatchesInSentenceWithExtraSpaces()
    ensures ContainsWordIgnoreCase("  AAA   bBb   ccc  ", "aaa") == Ok(true)
  {
    TokensOfExtraSpaces();
    MatchForAaa();
    QueryWordsAreWords();
    UnpaddedLookup("  AAA   bBb   ccc  ", "aaa", ["AAA", "bBb", "ccc"]);
  }

  lemma MatchesOnlyWordIgnoringCase()
    ensures ContainsWordIgnoreCase("Aaa", "aaa") == Ok(true)
  {
    TokensOfAaa();
    MatchForOnlyWord();
    QueryWordsAreWords();
    UnpaddedLookup("Aaa", "aaa", ["Aaa"]);
  }

  lemma MatchesTrimmedQueryWord()
    ensures ContainsWordIgnoreCase("aaa bbb ccc", "  ccc  ") == Ok(true)
  {
    TokensOfAaaBbbCcc();
    MatchForCcc();
    PaddedCcc();
    Lookup("aaa bbb ccc", "  ccc  ", "  ", "ccc", "  ", ["aaa", "bbb", "ccc"]);
  }

  lemma MultipleMatches()
    ensures ContainsWordIgnoreCase("AAA bBb ccc  bbb", "bbB") == Ok(true)
  {
    TokensOfFourWords();
    MatchForBbB();
    QueryWordsAreWords();
    UnpaddedLookup("AAA bBb ccc  bbb", "bbB", ["AAA", "bBb", "ccc", "bbb"]);
  }
}
