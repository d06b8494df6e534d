# StringUtil: clipped integer parsing and whole-word search

This project models two string helpers of the address-book application
(`seedu.address.commons.util.StringUtil`):

- **getNonZeroUnsignedIntegerClipped(s)** returns an `Optional` integer.
  - It is present exactly when `s` is a non-empty run of ASCII digits whose
    value is not zero. Leading zeros are allowed.
  - Signs, whitespace and any other character make it absent.
  - A value above `Integer.MAX_VALUE` (2147483647) is clipped to that maximum.
  - The model is `StringUtil.GetNonZeroUnsignedIntegerClipped`, which returns
    an `Option<int>`.
- **containsWordIgnoreCase(sentence, word)** works like this.
  - It trims `word`.
  - A word that trims to nothing fails with "Word parameter cannot be
    empty".
  - A trimmed word that still holds whitespace fails with "Word parameter
    should be a single word".
  - Otherwise it splits the sentence on runs of whitespace. The answer is
    whether some token equals the word, ignoring case.
  - The model is `StringUtil.ContainsWordIgnoreCase`. It returns a
    `Result<bool, WordError>`: the value `Ok(b)`, or the error kind that
    replaces the `IllegalArgumentException`.

`StringUtil.java` is not part of this model. Its behaviour is taken from
the tests in `StringUtilTest.java`, which pin each equivalence partition down.
`StringUtilTest` in `string_util_test.dfy` restates each assertion of
those tests as a lemma about the model.

How the pieces are modelled:

- Strings are Dafny's `string`, a sequence of characters.
- The digit class is ASCII `0`-`9`.
- Whitespace is the regular-expression class `\s`: space and the control
  characters U+0009 to U+000D.
- The library calls that `StringUtil.java` makes are not visible. The model
  assumes the usual implementation of these helpers:
  - `String.trim` for the word, modelled by `StringUtil.Trim`, which works on
    indices like the library routine;
  - `split("\\s+")` for the sentence, modelled by `StringUtil.Tokens`;
  - `equalsIgnoreCase` for each token, modelled by
    `StringUtil.EqualsIgnoreCase`, which uses the library's per-character
    test with ASCII case folding;
  - a search for any matching token, modelled by `StringUtil.AnyMatch`.

Files:

- `wrappers.dfy`: `Option` and `Result`.
- `string_util.dfy`: the model and its lemmas.
- `string_util_test.dfy`: the test partitions, as lemmas.

## Model

| member | source | states |
|---|---|---|
| `StringUtil.GetNonZeroUnsignedIntegerClipped` | src/test/java/seedu/address/commons/util/StringUtilTest.java:17-49 | present exactly when the input is a non-empty all-digit string with a non-zero digit; the value then lies in 1..Integer.MAX_VALUE; it is the decimal value when that fits and Integer.MAX_VALUE when it does not |
| `StringUtil.DigitsValue` | src/test/java/seedu/address/commons/util/StringUtilTest.java:17-49 | the exact, unbounded value of a digit string, most significant digit first, stated through its lemmas: positive exactly when a digit is not '0' (DigitsValuePositive), unchanged by leading zeros (LeadingZerosValue), and the inverse of Decimal (DecimalValue) |
| `StringUtil.DigitsValuePositive` | src/test/java/seedu/address/commons/util/StringUtilTest.java:28-32 | a digit string denotes a positive number exactly when one of its digits is not '0' ("0" is rejected, "01" accepted) |
| `StringUtil.Decimal` | src/test/java/seedu/address/commons/util/StringUtilTest.java:43 | the rendering of n by Long.toString: a non-empty digit string that starts with '0' only for n = 0; DigitsValue reads it back as n (DecimalValue) |
| `StringUtil.DecimalValue` | src/test/java/seedu/address/commons/util/StringUtilTest.java:43 | the decimal rendering of n (Long.toString) reads back as n |
| `StringUtil.LeadingZerosValue` | src/test/java/seedu/address/commons/util/StringUtilTest.java:31-32 | leading zeros do not change the value of a digit string |
| `StringUtil.ParseDecimalRoundTrip` | src/test/java/seedu/address/commons/util/StringUtilTest.java:28-48 | parsing any number of zeros followed by the decimal rendering of n gives absent for 0, n for 1..Integer.MAX_VALUE, and Integer.MAX_VALUE above that |
| `StringUtil.Trim` | src/test/java/seedu/address/commons/util/StringUtilTest.java:66-69 | the result is empty exactly when the input is all whitespace; otherwise it is a slice of the input with only whitespace outside it and no whitespace at either end |
| `StringUtil.TrimPadded` | src/test/java/seedu/address/commons/util/StringUtilTest.java:123 | trimming a text padded by whitespace gives back the text when it neither starts nor ends with whitespace |
| `StringUtil.Tokens` | src/test/java/seedu/address/commons/util/StringUtilTest.java:88-126 | the split of a sentence on runs of whitespace: t is a token exactly when it is a maximal whitespace-free stretch (TokensAreWholeWords), every token is a word (TokensAreWords), no tokens exactly for a blank sentence (NoTokensIffBlank), and the tokens of a join are the join of the tokens (TokensOfJoin) |
| `StringUtil.TokensAreWords` | src/test/java/seedu/address/commons/util/StringUtilTest.java:88-92 | every token of the split is non-empty and free of whitespace (the empty tokens are discarded) |
| `StringUtil.NoTokensIffBlank` | src/test/java/seedu/address/commons/util/StringUtilTest.java:110-112 | a sentence splits into no tokens exactly when it is all whitespace |
| `StringUtil.TokensAreWholeWords` | src/test/java/seedu/address/commons/util/StringUtilTest.java:94-102 | a string is a token of the sentence exactly when it occupies a maximal whitespace-free stretch of it (whole words only, never a part of one) |
| `StringUtil.TokensOfJoin` | src/test/java/seedu/address/commons/util/StringUtilTest.java:121 | the tokens of two texts joined by a whitespace character are the tokens of the first followed by those of the second |
| `StringUtil.TokensSkipWhitespace` | src/test/java/seedu/address/commons/util/StringUtilTest.java:121 | leading whitespace does not change the tokens |
| `StringUtil.TokensOfPaddedWord` | src/test/java/seedu/address/commons/util/StringUtilTest.java:122-123 | a single word with whitespace around it has itself as its only token |
| `StringUtil.SingleTokenIffNoWhitespace` | src/test/java/seedu/address/commons/util/StringUtilTest.java:71-75 | a trimmed word splits into exactly one token exactly when it holds no whitespace, so the split-length check is the "single word" check |
| `StringUtil.EqualsIgnoreCase` | src/test/java/seedu/address/commons/util/StringUtilTest.java:118-123 | equal lengths and, at each position, the library's three-way character test (same, same upper-cased, same upper- then lower-cased); proved to be equality of the lower-cased strings and an equivalence relation |
| `StringUtil.CharEqualsIgnoreCaseIsLowerEquality` | src/test/java/seedu/address/commons/util/StringUtilTest.java:118-123 | the three-way character test holds exactly when the lower-cased characters are equal |
| `StringUtil.EqualsIgnoreCaseIsLowerCaseEquality` | src/test/java/seedu/address/commons/util/StringUtilTest.java:118-120 | two strings are equal ignoring case exactly when their lower-cased forms are equal |
| `StringUtil.EqualsIgnoreCaseIsEquivalence` | src/test/java/seedu/address/commons/util/StringUtilTest.java:118-123 | equality ignoring case is reflexive, symmetric and transitive |
| `StringUtil.AnyMatch` | src/test/java/seedu/address/commons/util/StringUtilTest.java:118-126 | true exactly when some token equals the word ignoring case |
| `StringUtil.AnyMatchConcat` | src/test/java/seedu/address/commons/util/StringUtilTest.java:125-126 | searching two token lists joined is searching either of them |
| `StringUtil.AnyTokenMatchIffWholeWordMatch` | src/test/java/seedu/address/commons/util/StringUtilTest.java:94-102 | some token matches the word exactly when some whole word of the sentence matches it |
| `StringUtil.WordError.Message` | src/test/java/seedu/address/commons/util/StringUtilTest.java:66-75 | each error kind carries its own message, "Word parameter cannot be empty" or "Word parameter should be a single word" |
| `StringUtil.ContainsWordIgnoreCase` | src/test/java/seedu/address/commons/util/StringUtilTest.java:65-127 | the empty-word error exactly when the word is all whitespace; the single-word error exactly when the trimmed word is non-empty and holds whitespace; otherwise true exactly when some whole word of the sentence equals the trimmed word ignoring case |
| `StringUtil.ContainsPaddedWord` | src/test/java/seedu/address/commons/util/StringUtilTest.java:123 | a valid word with whitespace around it gives the same answer as the bare word |
| `StringUtil.BlankSentenceContainsNoWord` | src/test/java/seedu/address/commons/util/StringUtilTest.java:110-112 | an empty or all-whitespace sentence contains no valid word |
| `StringUtil.MatchHasSameLength` | src/test/java/seedu/address/commons/util/StringUtilTest.java:114-116 | a match needs a token as long as the trimmed word, so a strict part of a token, or a strict extension of one, never matches |
| `StringUtil.ContainsWordInJoin` | src/test/java/seedu/address/commons/util/StringUtilTest.java:94-98 | on two sentences joined by whitespace the answer is the disjunction of the answers on each, so a match is found first, in the middle, last, or several times over |
| `StringUtil.WordCaseIrrelevant` | src/test/java/seedu/address/commons/util/StringUtilTest.java:118-123 | two query words whose trimmed forms agree ignoring case give the same result on every sentence, the same error kind included |
| `StringUtilTest.EmptyStringsAbsent` | src/test/java/seedu/address/commons/util/StringUtilTest.java:20-22 | "" and "  " give absent |
| `StringUtilTest.NotANumberAbsent` | src/test/java/seedu/address/commons/util/StringUtilTest.java:24-26 | "a" and "aaa" give absent |
| `StringUtilTest.ZeroAbsent` | src/test/java/seedu/address/commons/util/StringUtilTest.java:28-29 | "0" gives absent |
| `StringUtilTest.ZeroPrefixPresent` | src/test/java/seedu/address/commons/util/StringUtilTest.java:31-32 | "01" gives 1 |
| `StringUtilTest.SignedNumbersAbsent` | src/test/java/seedu/address/commons/util/StringUtilTest.java:34-36 | "-1" and "+1" give absent |
| `StringUtilTest.NumbersWithWhitespaceAbsent` | src/test/java/seedu/address/commons/util/StringUtilTest.java:38-40 | " 10 " and "1 0" give absent |
| `StringUtilTest.BigNumberClipped` | src/test/java/seedu/address/commons/util/StringUtilTest.java:42-44 | Integer.MAX_VALUE + 1 renders as "2147483648", which gives Integer.MAX_VALUE |
| `StringUtilTest.ValidNumbersPresent` | src/test/java/seedu/address/commons/util/StringUtilTest.java:46-48 | "1" gives 1 and "10" gives 10 |
| `StringUtilTest.EmptyWordFails` | src/test/java/seedu/address/commons/util/StringUtilTest.java:65-69 | the word "  " fails with the empty-word error and its message |
| `StringUtilTest.MultipleWordsFails` | src/test/java/seedu/address/commons/util/StringUtilTest.java:71-75 | the word "aaa BBB" fails with the single-word error and its message |
| `StringUtilTest.EmptySentenceContainsNothing` | src/test/java/seedu/address/commons/util/StringUtilTest.java:110-112 | "" and "    " contain neither "abc" nor "123" |
| `StringUtilTest.QueryWordPartOfSentenceWord` | src/test/java/seedu/address/commons/util/StringUtilTest.java:115 | "bb" is not found in "aaa bbb ccc" |
| `StringUtilTest.SentenceWordPartOfQueryWord` | src/test/java/seedu/address/commons/util/StringUtilTest.java:116 | "bbbb" is not found in "aaa bbb ccc" |
| `StringUtilTest.MatchesMiddleWordIgnoringCase` | src/test/java/seedu/address/commons/util/StringUtilTest.java:119 | "Bbb" is found in "aaa bBb ccc" |
| `StringUtilTest.MatchesLastWordIgnoringCase` | src/test/java/seedu/address/commons/util/StringUtilTest.java:120 | "CCc@1" is found in "aaa bBb ccc@1" |
| `StringUtilTest.MatchesInSentenceWithExtraSpaces` | src/test/java/seedu/address/commons/util/StringUtilTest.java:121 | "aaa" is found in "  AAA   bBb   ccc  " |
| `StringUtilTest.MatchesOnlyWordIgnoringCase` | src/test/java/seedu/address/commons/util/StringUtilTest.java:122 | "aaa" is found in "Aaa" |
| `StringUtilTest.MatchesTrimmedQueryWord` | src/test/java/seedu/address/commons/util/StringUtilTest.java:123 | "  ccc  " is found in "aaa bbb ccc" |
| `StringUtilTest.MultipleMatches` | src/test/java/seedu/address/commons/util/StringUtilTest.java:126 | "bbB" is found in "AAA bBb ccc  bbb" |

## Left out

- getDetails(Throwable), which formats an exception with its stack trace, is
  not modelled. It depends on runtime class names and stack traces.
- Null arguments are not modelled. The `NullPointerException` for a null word
  or sentence has no counterpart, because Dafny strings cannot be null.
- Locale-dependent and non-ASCII case folding is not modelled.
  `equalsIgnoreCase` is modelled on ASCII letters only.
- ContainsWordIgnoreCase uses one whitespace class, `\s`, for both trimming
  and splitting. Java's `String.trim` strips every character up to U+0020,
  so it also strips the control characters that `\s` leaves alone. A word
  padded by such a character is treated differently here.
- Java's `split` keeps a leading empty token when the sentence starts with
  whitespace, and `"".split("\\s+")` is `[""]`. `Tokens` drops these empty
  tokens. The answer is the same, because the trimmed word is never empty.
