/** The string helpers of seedu.address.commons.util.StringUtil: parsing a
    positive integer clipped to Integer.MAX_VALUE, and case-insensitive
    whole-word search in a sentence. Strings are sequences of characters;
    case folding is ASCII only. */
module StringUtil {
  import opened Wrappers

  /** Java's Integer.MAX_VALUE, the largest 32-bit signed integer. */
  const IntMaxValue: int := 0x7FFF_FFFF

  // ---------------------------------------------------------------------
  // Character classes
  // ---------------------------------------------------------------------

  /** The regular-expression class \d: the ASCII digits. */
  predicate IsDigit(c: char) {
    '0' <= c <= '9'
  }

  /** The regular-expression class \s: space, tab, line feed, vertical tab,
      form feed and carriage return. */
  predicate IsWhitespace(c: char) {
    c == ' ' || '\t' <= c <= '\r'
  }

  predicate AllDigits(s: string) {
    forall i :: 0 <= i < |s| ==> IsDigit(s[i])
  }

  predicate AllWhitespace(s: string) {
    forall i :: 0 <= i < |s| ==> IsWhitespace(s[i])
  }

  predicate HasWhitespace(s: string) {
    exists i :: 0 <= i < |s| && IsWhitespace(s[i])
  }

  /** A token of a split sentence: non-empty and free of whitespace. */
  predicate IsWord(t: string) {
    |t| > 0 && !HasWhitespace(t)
  }

  // ---------------------------------------------------------------------
  // getNonZeroUnsignedIntegerClipped
  // ---------------------------------------------------------------------

  /** The whole string matches the pattern \d+ (no sign, no whitespace). */
  predicate IsUnsignedDecimal(s: string) {
    |s| > 0 && AllDigits(s)
  }

  predicate HasNonZeroDigit(s: string) {
    exists i :: 0 <= i < |s| && s[i] != '0'
  }

  function DigitValue(c: char): nat
    requires IsDigit(c)
  {
    c as int - '0' as int
  }

  /** The exact (unbounded) value of a string of decimal digits, most
      significant digit first; leading zeros contribute nothing. */
  function DigitsValue(s: string): nat
    requires AllDigits(s)
  {
    if s == [] then 0 else DigitsValue(s[..|s| - 1]) * 10 + DigitValue(s[|s| - 1])
  }

  /** A string of digits denotes a positive number exactly when one of its
      digits is not zero. */
  lemma {:induction false} DigitsValuePositive(s: string)
    requires AllDigits(s)
    ensures DigitsValue(s) > 0 <==> HasNonZeroDigit(s)
  {
    if s != [] {
      var init := s[..|s| - 1];
      DigitsValuePositive(init);
      if HasNonZeroDigit(init) {
        var i :| 0 <= i < |init| && init[i] != '0';
        assert s[i] != '0';
      }
      if HasNonZeroDigit(s) {
        var i :| 0 <= i < |s| && s[i] != '0';
        if i < |s| - 1 {
          assert init[i] != '0';
        }
      }
    }
  }

  /** Clipping to Integer.MAX_VALUE instead of overflowing. */
  function Clip(n: int): int {
    if n > IntMaxValue then IntMaxValue else n
  }

  /** getNonZeroUnsignedIntegerClipped: present exactly for strings of
      digits that denote a positive number, and then the number itself,
      or Integer.MAX_VALUE when the number is larger. */
  function GetNonZeroUnsignedIntegerClipped(s: string): (r: Option<int>)
    ensures r.Some? <==> IsUnsignedDecimal(s) && HasNonZeroDigit(s)
    ensures r.Some? ==> 1 <= r.value <= IntMaxValue
    ensures r.Some? && DigitsValue(s) <= IntMaxValue ==> r.value == DigitsValue(s)
    ensures r.Some? && DigitsValue(s) > IntMaxValue ==> r.value == IntMaxValue
  {
    if IsUnsignedDecimal(s) then
      DigitsValuePositive(s);
      var v := DigitsValue(s);
      if v == 0 then None else Some(Clip(v))
    else
      None
  }

  function DigitChar(d: nat): char
    requires d < 10
  {
    ('0' as int + d) as char
  }

  /** The decimal rendering of a natural number without leading zeros, as
      Long.toString writes a non-negative value. */
  function Decimal(n: nat): (r: string)
    ensures IsUnsignedDecimal(r)
    ensures r[0] == '0' <==> n == 0
  {
    if n < 10 then [DigitChar(n)] else Decimal(n / 10) + [DigitChar(n % 10)]
  }

  /** Reading back a rendered number gives the number. */
  lemma {:induction false} DecimalValue(n: nat)
    ensures DigitsValue(Decimal(n)) == n
  {
    if n >= 10 {
      var d := Decimal(n);
      assert d[..|d| - 1] == Decimal(n / 10);
      DecimalValue(n / 10);
    }
  }

  function Zeros(z: nat): (r: string)
    ensures |r| == z && forall i :: 0 <= i < z ==> r[i] == '0'
  {
    seq(z, _ => '0')
  }

  lemma {:induction false} ZerosValue(z: nat)
    ensures AllDigits(Zeros(z)) && DigitsValue(Zeros(z)) == 0
  {
    if z > 0 {
      assert Zeros(z)[..z - 1] == Zeros(z - 1);
      ZerosValue(z - 1);
    }
  }

  /** Leading zeros do not change the value of a string of digits. */
  lemma {:induction false} LeadingZerosValue(z: nat, t: string)
    requires AllDigits(t)
    ensures AllDigits(Zeros(z) + t) && DigitsValue(Zeros(z) + t) == DigitsValue(t)
    decreases |t|
  {
    if t == [] {
      assert Zeros(z) + t == Zeros(z);
      ZerosValue(z);
    } else {
      var u := Zeros(z) + t;
      assert u[..|u| - 1] == Zeros(z) + t[..|t| - 1];
      LeadingZerosValue(z, t[..|t| - 1]);
    }
  }

  /** The parser inverts Long.toString, with any number of leading zeros:
      zero is absent, a positive number is present and clipped. */
  lemma ParseDecimalRoundTrip(z: nat, n: nat)
    ensures GetNonZeroUnsignedIntegerClipped(Zeros(z) + Decimal(n))
         == if n == 0 then None else if n <= IntMaxValue then Some(n) else Some(IntMaxValue)
  {
    var s := Zeros(z) + Decimal(n);
    LeadingZerosValue(z, Decimal(n));
    DecimalValue(n);
    DigitsValuePositive(s);
  }

  // ---------------------------------------------------------------------
  // Trimming (taken to be String.trim)
  // ---------------------------------------------------------------------

  /** The first index at or after i that is not whitespace (or |s|). */
  function TrimStartIndex(s: string, i: nat): (r: nat)
    requires i <= |s|
    ensures i <= r <= |s|
    ensures forall k :: i <= k < r ==> IsWhitespace(s[k])
    ensures r < |s| ==> !IsWhitespace(s[r])
    decreases |s| - i
  {
    if i < |s| && IsWhitespace(s[i]) then TrimStartIndex(s, i + 1) else i
  }

  /** The end of s[lo..j] once its trailing whitespace is dropped. */
  function TrimEndIndex(s: string, lo: nat, j: nat): (r: nat)
    requires lo <= j <= |s|
    ensures lo <= r <= j
    ensures forall k :: r <= k < j ==> IsWhitespace(s[k])
    ensures r > lo ==> !IsWhitespace(s[r - 1])
  {
    if j > lo && IsWhitespace(s[j - 1]) then TrimEndIndex(s, lo, j - 1) else j
  }

  /** Trimming, as String.trim is taken to do it: the string with its
      surrounding whitespace removed. The
      result is a slice s[i..i + |r|] whose outside is all whitespace and
      whose ends are not whitespace. */
  function Trim(s: string): (r: string)
    ensures r == [] <==> AllWhitespace(s)
    ensures r != [] ==> !IsWhitespace(r[0]) && !IsWhitespace(r[|r| - 1])
    ensures exists i :: 0 <= i <= |s| - |r| && r == s[i..i + |r|]
                     && AllWhitespace(s[..i]) && AllWhitespace(s[i + |r|..])
  {
    var lo := TrimStartIndex(s, 0);
    var hi := TrimEndIndex(s, lo, |s|);
    assert AllWhitespace(s[..lo]) && AllWhitespace(s[hi..]);
    assert hi == lo ==> AllWhitespace(s) by {
      if hi == lo {
        forall k | 0 <= k < |s| ensures IsWhitespace(s[k]) {
        }
      }
    }
    assert hi > lo ==> !IsWhitespace(s[lo]);
    s[lo..hi]
  }

  /** Trimming a non-empty text that neither starts nor ends with
      whitespace, padded by whitespace on both sides, gives back the text. */
  lemma TrimPadded(p: string, w: string, q: string)
    requires AllWhitespace(p) && AllWhitespace(q)
    requires w != [] && !IsWhitespace(w[0]) && !IsWhitespace(w[|w| - 1])
    ensures Trim(p + w + q) == w
  {
    var s := p + w + q;
    var e := |p| + |w|;
    assert s[|p|] == w[0] && s[e - 1] == w[|w| - 1];
    assert forall k :: 0 <= k < |p| ==> s[k] == p[k];
    assert forall k :: e <= k < |s| ==> s[k] == q[k - e];
    assert TrimStartIndex(s, 0) == |p|;
    assert TrimEndIndex(s, |p|, |s|) == e;
    assert s[|p|..e] == w;
  }

  // ---------------------------------------------------------------------
  // Splitting on runs of whitespace (taken to be String.split("\\s+"))
  // ---------------------------------------------------------------------

  /** The length of the longest whitespace-free prefix. */
  function RunLength(s: string): (r: nat)
    ensures r <= |s|
    ensures forall i :: 0 <= i < r ==> !IsWhitespace(s[i])
    ensures r < |s| ==> IsWhitespace(s[r])
  {
    if s == [] || IsWhitespace(s[0]) then 0 else 1 + RunLength(s[1..])
  }

  /** A whitespace-free prefix followed by whitespace or the end is the run. */
  lemma RunLengthUnique(s: string, n: nat)
    requires n <= |s|
    requires forall i :: 0 <= i < n ==> !IsWhitespace(s[i])
    requires n < |s| ==> IsWhitespace(s[n])
    ensures RunLength(s) == n
  {
  }

  /** The tokens of a sentence split on runs of whitespace, in order, empty
      tokens dropped. */
  function Tokens(s: string): seq<string>
    decreases |s|
  {
    if s == [] then []
    else if IsWhitespace(s[0]) then Tokens(s[1..])
    else
      var k := RunLength(s);
      [s[..k]] + Tokens(s[k..])
  }

  /** Every token is a word: no token is empty and none holds whitespace. */
  lemma {:induction false} TokensAreWords(s: string)
    ensures forall k :: 0 <= k < |Tokens(s)| ==> IsWord(Tokens(s)[k])
    decreases |s|
  {
    if s != [] {
      if IsWhitespace(s[0]) {
        TokensAreWords(s[1..]);
      } else {
        var k := RunLength(s);
        TokensAreWords(s[k..]);
      }
    }
  }

  /** A sentence has no tokens exactly when it is all whitespace. */
  lemma {:induction false} NoTokensIffBlank(s: string)
    ensures Tokens(s) == [] <==> AllWhitespace(s)
    decreases |s|
  {
    if s != [] && IsWhitespace(s[0]) {
      NoTokensIffBlank(s[1..]);
      if AllWhitespace(s[1..]) {
        forall i | 0 <= i < |s| ensures IsWhitespace(s[i]) {
          if i > 0 { assert s[i] == s[1..][i - 1]; }
        }
      }
    }
  }

  /** The text s[i..j] is a whole word of s: non-empty, free of whitespace
      and bounded by whitespace or the ends of s. */
  predicate IsWordAt(s: string, i: int, j: int) {
    && 0 <= i < j <= |s|
    && (forall p :: i <= p < j ==> !IsWhitespace(s[p]))
    && (i == 0 || IsWhitespace(s[i - 1]))
    && (j == |s| || IsWhitespace(s[j]))
  }

  /** Whole words of a suffix s[d..] are whole words of s, shifted by d,
      and back, as long as the word does not start the suffix or the
      suffix follows whitespace. */
  lemma WordAtShift(s: string, d: nat, i: int, j: int)
    requires d <= |s| && 0 <= i
    requires 1 <= i || (0 < d && IsWhitespace(s[d - 1]))
    ensures IsWordAt(s[d..], i, j) <==> IsWordAt(s, i + d, j + d)
    ensures IsWordAt(s[d..], i, j) ==> s[d..][i..j] == s[i + d..j + d]
  {
    var s' := s[d..];
    if 0 <= i < j <= |s'| {
      assert forall p :: i <= p < j ==> s'[p] == s[p + d];
      assert (forall p :: i <= p < j ==> !IsWhitespace(s'[p]))
         <==> (forall p :: i + d <= p < j + d ==> !IsWhitespace(s[p])) by {
        if forall p :: i + d <= p < j + d ==> !IsWhitespace(s[p]) {
          forall p | i <= p < j ensures !IsWhitespace(s'[p]) {
            assert s'[p] == s[p + d];
          }
        }
      }
      if i > 0 { assert s'[i - 1] == s[i + d - 1]; }
      if j < |s'| { assert s'[j] == s[j + d]; }
      assert s'[i..j] == s[i + d..j + d];
    }
  }

  /** A whole word of s beyond position d is a whole word of the suffix
      s[d..]. */
  lemma WholeWordOfSuffix(s: string, d: nat, i: int, j: int)
    requires d <= |s| && IsWordAt(s, i, j)
    requires d < i || (d == i && 0 < d && IsWhitespace(s[d - 1]))
    ensures IsWholeWordOf(s[d..], s[i..j])
  {
    WordAtShift(s, d, i - d, j - d);
    assert IsWordAt(s[d..], i - d, j - d);
  }

  /** A whole word of the suffix s[d..] that does not start it, or a suffix
      that follows whitespace, is a whole word of s. */
  lemma WholeWordOfWhole(s: string, d: nat, i: int, j: int)
    requires d <= |s| && IsWordAt(s[d..], i, j)
    requires 1 <= i || (0 < d && IsWhitespace(s[d - 1]))
    ensures IsWholeWordOf(s, s[d..][i..j])
  {
    WordAtShift(s, d, i, j);
    assert IsWordAt(s, i + d, j + d);
  }

  /** t is a whole word of s. */
  ghost predicate IsWholeWordOf(s: string, t: string) {
    exists i, j :: IsWordAt(s, i, j) && s[i..j] == t
  }

  /** The split skips a leading whitespace character. */
  lemma TokensSkipOne(s: string)
    requires s != [] && IsWhitespace(s[0])
    ensures Tokens(s) == Tokens(s[1..])
  {
  }

  /** The split takes the leading whitespace-free run as its first token. */
  lemma TokensTakeRun(s: string)
    requires s != [] && !IsWhitespace(s[0])
    ensures RunLength(s) > 0
    ensures Tokens(s) == [s[..RunLength(s)]] + Tokens(s[RunLength(s)..])
  {
  }

  /** Inductive steps of TokensAreWholeWords over leading whitespace. */
  lemma TokenAfterWhitespace(s: string, t: string)
    requires s != [] && IsWhitespace(s[0])
    requires t in Tokens(s[1..]) ==> IsWholeWordOf(s[1..], t)
    ensures t in Tokens(s) ==> IsWholeWordOf(s, t)
  {
    var s' := s[1..];
    TokensSkipOne(s);
    if t in Tokens(s) {
      var i, j :| IsWordAt(s', i, j) && s'[i..j] == t;
      WholeWordOfWhole(s, 1, i, j);
    }
  }

  lemma WordAfterWhitespace(s: string, t: string)
    requires s != [] && IsWhitespace(s[0])
    requires IsWholeWordOf(s[1..], t) ==> t in Tokens(s[1..])
    ensures IsWholeWordOf(s, t) ==> t in Tokens(s)
  {
    var s' := s[1..];
    TokensSkipOne(s);
    if IsWholeWordOf(s, t) {
      var i, j :| IsWordAt(s, i, j) && s[i..j] == t;
      assert i != 0;
      WholeWordOfSuffix(s, 1, i, j);
    }
  }

  /** The whole word at the start of s is its leading run; any other
      whole word starts after that run. */
  lemma WordAtStartIsRun(s: string, i: int, j: int)
    requires IsWordAt(s, i, j)
    ensures i == 0 ==> j == RunLength(s)
    ensures i > 0 ==> i > RunLength(s)
  {
  }

  /** Inductive steps of TokensAreWholeWords over a leading token. */
  lemma TokenAfterRun(s: string, t: string)
    requires s != [] && !IsWhitespace(s[0])
    requires t in Tokens(s[RunLength(s)..]) ==> IsWholeWordOf(s[RunLength(s)..], t)
    ensures t in Tokens(s) ==> IsWholeWordOf(s, t)
  {
    var k := RunLength(s);
    var rest := s[k..];
    TokensTakeRun(s);
    if t in Tokens(s) {
      if t == s[..k] {
        assert IsWordAt(s, 0, k) && s[0..k] == t;
      } else {
        assert t in Tokens(rest);
        var i, j :| IsWordAt(rest, i, j) && rest[i..j] == t;
        assert i != 0;
        WholeWordOfWhole(s, k, i, j);
      }
    }
  }

  lemma WordAfterRun(s: string, t: string)
    requires s != [] && !IsWhitespace(s[0])
    requires IsWholeWordOf(s[RunLength(s)..], t) ==> t in Tokens(s[RunLength(s)..])
    ensures IsWholeWordOf(s, t) ==> t in Tokens(s)
  {
    var k := RunLength(s);
    var rest := s[k..];
    TokensTakeRun(s);
    if IsWholeWordOf(s, t) {
      var i, j :| IsWordAt(s, i, j) && s[i..j] == t;
      WordAtStartIsRun(s, i, j);
      if i == 0 {
        assert t == s[..k];
      } else {
        WholeWordOfSuffix(s, k, i, j);
      }
    }
  }

  /** The tokens are exactly the maximal whitespace-free runs of the
      sentence: a reference definition of the split independent of its
      recursion. */
  lemma {:induction false} TokensAreWholeWords(s: string, t: string)
    ensures t in Tokens(s) <==> IsWholeWordOf(s, t)
    decreases |s|
  {
    if s == [] {
    } else if IsWhitespace(s[0]) {
      TokensAreWholeWords(s[1..], t);
      TokenAfterWhitespace(s, t);
      WordAfterWhitespace(s, t);
    } else {
      TokensAreWholeWords(s[RunLength(s)..], t);
      TokenAfterRun(s, t);
      WordAfterRun(s, t);
    }
  }

  /** Splitting at a whitespace character splits the tokens there: the
      tokens of a + [c] + b are those of a followed by those of b. */
  lemma {:induction false} TokensOfJoin(a: string, c: char, b: string)
    requires IsWhitespace(c)
    ensures Tokens(a + [c] + b) == Tokens(a) + Tokens(b)
    decreases |a|
  {
    var s := a + [c] + b;
    if a == [] {
      assert s[1..] == b;
    } else if IsWhitespace(a[0]) {
      assert s[1..] == a[1..] + [c] + b;
      TokensOfJoin(a[1..], c, b);
    } else {
      var k := RunLength(a);
      assert s[k] == if k < |a| then a[k] else c;
      forall i | 0 <= i < k ensures !IsWhitespace(s[i]) {
        assert s[i] == a[i];
      }
      RunLengthUnique(s, k);
      assert s[..k] == a[..k];
      assert s[k..] == a[k..] + [c] + b;
      TokensOfJoin(a[k..], c, b);
    }
  }

  /** A sentence that starts with a word and a whitespace character has
      that word as its first token. */
  lemma TokensOfLeadingWord(w: string, c: char, rest: string)
    requires IsWord(w) && IsWhitespace(c)
    ensures Tokens(w + [c] + rest) == [w] + Tokens(rest)
  {
    TokensOfJoin(w, c, rest);
    TokensOfPaddedWord([], w, []);
    assert [] + w + [] == w;
  }

  /** Whitespace in front of a text adds no tokens. */
  lemma {:induction false} TokensSkipWhitespace(p: string, s: string)
    requires AllWhitespace(p)
    ensures Tokens(p + s) == Tokens(s)
    decreases |p|
  {
    if p != [] {
      assert (p + s)[0] == p[0];
      TokensSkipOne(p + s);
      assert (p + s)[1..] == p[1..] + s;
      TokensSkipWhitespace(p[1..], s);
    } else {
      assert p + s == s;
    }
  }

  /** A single word padded with whitespace splits into that word alone. */
  lemma TokensOfPaddedWord(p: string, w: string, q: string)
    requires AllWhitespace(p) && AllWhitespace(q) && IsWord(w)
    ensures Tokens(p + w + q) == [w]
  {
    assert p + w + q == p + (w + q);
    TokensSkipWhitespace(p, w + q);
    var s := w + q;
    forall i | 0 <= i < |w| ensures !IsWhitespace(s[i]) {
      assert s[i] == w[i];
    }
    if |w| < |s| {
      assert s[|w|] == q[0];
    }
    RunLengthUnique(s, |w|);
    assert s[..|w|] == w;
    assert s[|w|..] == q;
    NoTokensIffBlank(q);
  }

  /** A non-empty text with no whitespace at its ends splits into one token
      exactly when it has no whitespace at all. */
  lemma SingleTokenIffNoWhitespace(w: string)
    requires w != [] && !IsWhitespace(w[0]) && !IsWhitespace(w[|w| - 1])
    ensures |Tokens(w)| == 1 <==> !HasWhitespace(w)
  {
    if !HasWhitespace(w) {
      TokensOfPaddedWord([], w, []);
      assert [] + w + [] == w;
    } else {
      var k := RunLength(w);
      assert k < |w|;
      var rest := w[k..];
      assert rest[|rest| - 1] == w[|w| - 1];
      NoTokensIffBlank(rest);
      assert Tokens(w) == [w[..k]] + Tokens(rest);
    }
  }

  // ---------------------------------------------------------------------
  // containsWordIgnoreCase
  // ---------------------------------------------------------------------

  /** ASCII lower-casing of one character. */
  function ToLowerAscii(c: char): char {
    if 'A' <= c <= 'Z' then (c as int + 32) as char else c
  }

  /** ASCII upper-casing of one character. */
  function ToUpperAscii(c: char): char {
    if 'a' <= c <= 'z' then (c as int - 32) as char else c
  }

  /** Two characters agree ignoring case by the test the Java library gives
      for String.equalsIgnoreCase: the same character, or the same once
      upper-cased, or the same once upper-cased and then lower-cased (here
      with ASCII case folding only). */
  predicate CharEqualsIgnoreCase(x: char, y: char) {
    x == y
    || ToUpperAscii(x) == ToUpperAscii(y)
    || ToLowerAscii(ToUpperAscii(x)) == ToLowerAscii(ToUpperAscii(y))
  }

  /** Equality ignoring case, the comparison containsWordIgnoreCase is taken
      to make: equal lengths, and characters that agree ignoring case at
      every position. */
  predicate EqualsIgnoreCase(a: string, b: string) {
    |a| == |b| && forall i :: 0 <= i < |a| ==> CharEqualsIgnoreCase(a[i], b[i])
  }

  /** The ASCII lower-cased string. */
  function ToLowerCase(s: string): (r: string)
    ensures |r| == |s|
    ensures forall i :: 0 <= i < |s| ==> r[i] == ToLowerAscii(s[i])
  {
    seq(|s|, i requires 0 <= i < |s| => ToLowerAscii(s[i]))
  }

  /** The three-way character test is the same as comparing the lower-cased
      characters. */
  lemma CharEqualsIgnoreCaseIsLowerEquality(x: char, y: char)
    ensures CharEqualsIgnoreCase(x, y) <==> ToLowerAscii(x) == ToLowerAscii(y)
  {
  }

  /** Ignoring case means comparing the lower-cased strings. */
  lemma EqualsIgnoreCaseIsLowerCaseEquality(a: string, b: string)
    ensures EqualsIgnoreCase(a, b) <==> ToLowerCase(a) == ToLowerCase(b)
  {
    if EqualsIgnoreCase(a, b) {
      forall i | 0 <= i < |a| ensures ToLowerCase(a)[i] == ToLowerCase(b)[i] {
        CharEqualsIgnoreCaseIsLowerEquality(a[i], b[i]);
      }
    }
    if ToLowerCase(a) == ToLowerCase(b) {
      assert |a| == |b|;
      forall i | 0 <= i < |a| ensures CharEqualsIgnoreCase(a[i], b[i]) {
        assert ToLowerCase(a)[i] == ToLowerCase(b)[i];
        CharEqualsIgnoreCaseIsLowerEquality(a[i], b[i]);
      }
    }
  }

  /** Equality ignoring case is an equivalence relation. */
  lemma EqualsIgnoreCaseIsEquivalence(a: string, b: string, c: string)
    ensures EqualsIgnoreCase(a, a)
    ensures EqualsIgnoreCase(a, b) ==> EqualsIgnoreCase(b, a)
    ensures EqualsIgnoreCase(a, b) && EqualsIgnoreCase(b, c) ==> EqualsIgnoreCase(a, c)
  {
    EqualsIgnoreCaseIsLowerCaseEquality(a, b);
    EqualsIgnoreCaseIsLowerCaseEquality(b, c);
    EqualsIgnoreCaseIsLowerCaseEquality(a, c);
  }

  /** Lower-casing neither creates nor removes whitespace. */
  lemma EqualsIgnoreCaseKeepsWhitespace(a: string, b: string)
    requires EqualsIgnoreCase(a, b)
    ensures forall i :: 0 <= i < |a| ==> (IsWhitespace(a[i]) <==> IsWhitespace(b[i]))
  {
  }

  /** Whether some token equals the word ignoring case: the search over the
      tokens that containsWordIgnoreCase is taken to make. */
  function AnyMatch(tokens: seq<string>, w: string): (r: bool)
    ensures r <==> exists k :: 0 <= k < |tokens| && EqualsIgnoreCase(tokens[k], w)
  {
    if tokens == [] then false
    else if EqualsIgnoreCase(tokens[0], w) then true
    else
      var r := AnyMatch(tokens[1..], w);
      assert r ==> exists k :: 0 <= k < |tokens| && EqualsIgnoreCase(tokens[k], w) by {
        if r {
          var k :| 0 <= k < |tokens[1..]| && EqualsIgnoreCase(tokens[1..][k], w);
          assert tokens[k + 1] == tokens[1..][k];
        }
      }
      assert (exists k :: 0 <= k < |tokens| && EqualsIgnoreCase(tokens[k], w)) ==> r by {
        if exists k :: 0 <= k < |tokens| && EqualsIgnoreCase(tokens[k], w) {
          var k :| 0 <= k < |tokens| && EqualsIgnoreCase(tokens[k], w);
          assert k != 0;
          assert tokens[1..][k - 1] == tokens[k];
        }
      }
      r
  }

  /** Searching a concatenation of token lists searches both. */
  lemma AnyMatchConcat(ta: seq<string>, tb: seq<string>, w: string)
    ensures AnyMatch(ta + tb, w) == (AnyMatch(ta, w) || AnyMatch(tb, w))
  {
    if AnyMatch(ta + tb, w) {
      var k :| 0 <= k < |ta + tb| && EqualsIgnoreCase((ta + tb)[k], w);
      if k >= |ta| { assert tb[k - |ta|] == (ta + tb)[k]; }
    }
    if AnyMatch(ta, w) {
      var k :| 0 <= k < |ta| && EqualsIgnoreCase(ta[k], w);
      assert (ta + tb)[k] == ta[k];
    }
    if AnyMatch(tb, w) {
      var k :| 0 <= k < |tb| && EqualsIgnoreCase(tb[k], w);
      assert (ta + tb)[k + |ta|] == tb[k];
    }
  }

  /** Some token matches exactly when some whole word of the sentence does. */
  lemma AnyTokenMatchIffWholeWordMatch(s: string, w: string)
    ensures AnyMatch(Tokens(s), w) <==> exists i, j :: IsWordAt(s, i, j) && EqualsIgnoreCase(s[i..j], w)
  {
    var toks := Tokens(s);
    if AnyMatch(toks, w) {
      var k :| 0 <= k < |toks| && EqualsIgnoreCase(toks[k], w);
      TokensAreWholeWords(s, toks[k]);
      var i, j :| IsWordAt(s, i, j) && s[i..j] == toks[k];
    }
    if exists i, j :: IsWordAt(s, i, j) && EqualsIgnoreCase(s[i..j], w) {
      var i, j :| IsWordAt(s, i, j) && EqualsIgnoreCase(s[i..j], w);
      TokensAreWholeWords(s, s[i..j]);
      var k :| 0 <= k < |toks| && toks[k] == s[i..j];
    }
  }

  /** The two ways containsWordIgnoreCase rejects its word argument, each
      with the message of its IllegalArgumentException. */
  datatype WordError = EmptyWord | NotSingleWord {
    function Message(): (m: string)
      ensures m == "Word parameter cannot be empty" <==> this == EmptyWord
      ensures m == "Word parameter should be a single word" <==> this == NotSingleWord
    {
      match this
      case EmptyWord => "Word parameter cannot be empty"
      case NotSingleWord => "Word parameter should be a single word"
    }
  }

  /** containsWordIgnoreCase: the word is trimmed; an empty word and a word
      of several tokens are errors; otherwise the answer is whether some
      whole word of the sentence equals the trimmed word ignoring case. */
  function ContainsWordIgnoreCase(sentence: string, word: string): (r: Result<bool, WordError>)
    ensures r == Err(EmptyWord) <==> AllWhitespace(word)
    ensures r == Err(NotSingleWord) <==> !AllWhitespace(word) && HasWhitespace(Trim(word))
    ensures r.Ok? ==> IsWord(Trim(word))
    ensures r.Ok? ==> (r.value <==> exists i, j :: IsWordAt(sentence, i, j)
                                              && EqualsIgnoreCase(sentence[i..j], Trim(word)))
  {
    var w := Trim(word);
    if w == [] then Err(EmptyWord)
    else
      SingleTokenIffNoWhitespace(w);
      if |Tokens(w)| != 1 then Err(NotSingleWord)
      else
        AnyTokenMatchIffWholeWordMatch(sentence, w);
        Ok(AnyMatch(Tokens(sentence), w))
  }

  /** A valid word, with whatever whitespace around it, is looked up among
      the tokens of the sentence without its padding. */
  lemma ContainsPaddedWord(sentence: string, p: string, w: string, q: string)
    requires AllWhitespace(p) && AllWhitespace(q) && IsWord(w)
    ensures ContainsWordIgnoreCase(sentence, p + w + q) == Ok(AnyMatch(Tokens(sentence), w))
  {
    var word := p + w + q;
    TrimPadded(p, w, q);
    assert word[|p|] == w[0];
    SingleTokenIffNoWhitespace(w);
  }

  /** A sentence made only of whitespace (the empty one included) contains
      no word. */
  lemma BlankSentenceContainsNoWord(sentence: string, word: string)
    requires AllWhitespace(sentence)
    requires ContainsWordIgnoreCase(sentence, word).Ok?
    ensures ContainsWordIgnoreCase(sentence, word) == Ok(false)
  {
  }

  /** Only a whole word of the same length can match: a word that is a
      strict part of a sentence word, or that strictly contains one, never
      matches it. */
  lemma MatchHasSameLength(sentence: string, word: string)
    requires ContainsWordIgnoreCase(sentence, word) == Ok(true)
    ensures exists k :: 0 <= k < |Tokens(sentence)| && |Tokens(sentence)[k]| == |Trim(word)|
  {
    var i, j :| IsWordAt(sentence, i, j) && EqualsIgnoreCase(sentence[i..j], Trim(word));
    TokensAreWholeWords(sentence, sentence[i..j]);
    var k :| 0 <= k < |Tokens(sentence)| && Tokens(sentence)[k] == sentence[i..j];
  }

  /** Joining two sentences with a whitespace character: the word occurs in
      the joined sentence exactly when it occurs in one of the parts, so a
      match is found at any position and several matches do no harm. */
  lemma ContainsWordInJoin(a: string, c: char, b: string, word: string)
    requires IsWhitespace(c)
    requires ContainsWordIgnoreCase(a, word).Ok?
    ensures ContainsWordIgnoreCase(a + [c] + b, word)
         == Ok(ContainsWordIgnoreCase(a, word).value || ContainsWordIgnoreCase(b, word).value)
  {
    var w := Trim(word);
    TokensOfJoin(a, c, b);
    AnyMatchConcat(Tokens(a), Tokens(b), w);
  }

  /** The case of the query word does not matter: two words whose trimmed
      forms agree ignoring case give the same result, error or answer, on
      every sentence. */
  lemma WordCaseIrrelevant(sentence: string, word: string, other: string)
    requires EqualsIgnoreCase(Trim(word), Trim(other))
    ensures ContainsWordIgnoreCase(sentence, other) == ContainsWordIgnoreCase(sentence, word)
  {
    var w, o := Trim(word), Trim(other);
    EqualsIgnoreCaseKeepsWhitespace(w, o);
    assert AllWhitespace(word) <==> AllWhitespace(other) by {
      assert w == [] <==> o == [];
    }
    assert HasWhitespace(w) <==> HasWhitespace(o);
    forall t: string ensures EqualsIgnoreCase(t, w) <==> EqualsIgnoreCase(t, o) {
      EqualsIgnoreCaseIsEquivalence(t, w, o);
      EqualsIgnoreCaseIsEquivalence(t, o, w);
      EqualsIgnoreCaseIsEquivalence(w, o, w);
    }
  }
}
