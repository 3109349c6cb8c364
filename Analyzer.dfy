/** `analyze_string`: the properties derived from a submitted string. Every
    property is computed on the stripped text; the SHA-256 digest is a function
    the caller supplies (see `Digest`). */
module Analyzer {
  import opened Text

  /** The lower-case hexadecimal SHA-256 digest of a text. The digest algorithm
      itself is outside the model: it is passed in as a function of this type. */
  type Digest = String

  /** Equal digests only for equal texts: the collision resistance the store's
      keying relies on. */
  ghost predicate Injective(hash: String -> Digest) {
    forall a, b :: hash(a) == hash(b) ==> a == b
  }

  datatype Properties = Properties(
    length: nat,
    isPalindrome: bool,
    uniqueCharacters: nat,
    wordCount: nat,
    sha256Hash: Digest,
    characterFrequencyMap: map<char, nat>)

  /** The set of distinct characters of `s` (`set(s)`). */
  function Chars(s: String): set<char> {
    set c | c in s
  }

  /** Each character of `s` mapped to its number of occurrences in `s`. */
  function Frequencies(s: String): map<char, nat> {
    map c | c in s :: multiset(s)[c]
  }

  /** The distinct characters of a text are no more than its characters. */
  lemma {:induction false} CharsBound(s: String)
    ensures |Chars(s)| <= |s|
  {
    if s != [] {
      var init := s[..|s| - 1];
      CharsBound(init);
      assert s == init + [s[|s| - 1]];
      assert Chars(s) == Chars(init) + {s[|s| - 1]};
    }
  }

  /** The properties of `value`, all read off its stripped text. The length is
      zero exactly for an empty or all-whitespace value; otherwise there is at
      least one distinct character and at least one word, and there are never
      more distinct characters than characters. */
  function Analysis(hash: String -> Digest, value: String): (r: Properties)
    ensures r.length <= |value|
    ensures r.length == 0 <==> Blank(value)
    ensures r.uniqueCharacters <= r.length
    ensures r.length > 0 ==> r.uniqueCharacters > 0 && r.wordCount > 0
  {
    var cleaned := Trim(value);
    CharsBound(cleaned);
    assert cleaned != [] ==> cleaned[0] in Chars(cleaned) && !Blank(cleaned);
    Properties(
      |cleaned|,
      Palindromic(cleaned),
      |Chars(cleaned)|,
      |Words(cleaned)|,
      hash(cleaned),
      Frequencies(cleaned))
  }

  /** The palindrome test of `analyze_string`: the lowered text equals its lowered
      reverse. */
  predicate Palindromic(cleaned: String) {
    Lower(cleaned) == Lower(Reverse(cleaned))
  }

  /** `analyze_string`: the properties of `value`, as `Analysis` states them. */
  method Analyze(hash: String -> Digest, value: String) returns (p: Properties)
    ensures p == Analysis(hash, value)
  {
    var cleaned := Trim(value);
    var freq := CountCharacters(cleaned);
    p := Properties(
      |cleaned|,
      Palindromic(cleaned),
      |Chars(cleaned)|,
      |Words(cleaned)|,
      hash(cleaned),
      freq);
  }

  /** The frequency-map loop of `analyze_string`: one pass over the text, bumping
      the count of each character met, starting from zero. */
  method CountCharacters(cleaned: String) returns (freq: map<char, nat>)
    ensures freq == Frequencies(cleaned)
  {
    freq := map[];
    for i := 0 to |cleaned|
      invariant freq == Frequencies(cleaned[..i])
    {
      var c := cleaned[i];
      FrequenciesSnoc(cleaned[..i], c);
      assert cleaned[..i + 1] == cleaned[..i] + [c];
      freq := freq[c := (if c in freq then freq[c] else 0) + 1];
    }
    assert cleaned[..|cleaned|] == cleaned;
  }

  /** Counting one more character bumps its count, starting from zero. */
  lemma FrequenciesSnoc(s: String, c: char)
    ensures Frequencies(s + [c]) == Frequencies(s)[c := multiset(s)[c] + 1]
    ensures c in Frequencies(s) <==> multiset(s)[c] > 0
  {
    var f, g := Frequencies(s + [c]), Frequencies(s)[c := multiset(s)[c] + 1];
    assert multiset(s + [c]) == multiset(s) + multiset{c};
    assert f.Keys == g.Keys by {
      forall d ensures d in f <==> d in g {
        assert d in s + [c] <==> d in s || d == c;
      }
    }
  }

  // ---------------------------------------------------------------- sums of counts

  /** The sum of the counts of a frequency map. */
  ghost function Total(m: map<char, nat>): nat
    decreases |m|
  {
    if m == map[] then 0
    else
      var k :| k in m;
      assert |m - {k}| < |m| by { assert (m - {k}).Keys == m.Keys - {k}; }
      m[k] + Total(m - {k})
  }

  /** Any key may be taken out first: the sum does not depend on the order. */
  lemma {:induction false} TotalRemove(m: map<char, nat>, k: char)
    requires k in m
    ensures Total(m) == m[k] + Total(m - {k})
    decreases |m|
  {
    var j :| j in m && Total(m) == m[j] + Total(m - {j});
    if j != k {
      assert (m - {j}).Keys == m.Keys - {j};
      assert (m - {k}).Keys == m.Keys - {k};
      TotalRemove(m - {j}, k);
      TotalRemove(m - {k}, j);
      assert m - {j} - {k} == m - {k} - {j};
    }
  }

  /** The counts of the frequency map of `s` add up to the length of `s`. */
  lemma {:induction false} FrequenciesTotal(s: String)
    ensures Total(Frequencies(s)) == |s|
    decreases |s|
  {
    if s != [] {
      var p, c := s[..|s| - 1], s[|s| - 1];
      assert s == p + [c];
      FrequenciesTotal(p);
      FrequenciesSnoc(p, c);
      var f := Frequencies(s);
      TotalRemove(f, c);
      assert f - {c} == Frequencies(p) - {c};
      if c in Frequencies(p) {
        TotalRemove(Frequencies(p), c);
      } else {
        assert Frequencies(p) - {c} == Frequencies(p);
      }
    }
  }

  // ---------------------------------------------------------------- properties of Analysis

  /** `length` is the length of the stripped text, which is stripped of exactly
      the leading and trailing whitespace. */
  lemma LengthIsTrimmedLength(hash: String -> Digest, value: String)
    ensures Analysis(hash, value).length == |Trim(value)| <= |value|
    ensures Analysis(hash, value).length == 0 <==> forall i :: 0 <= i < |value| ==> IsSpace(value[i])
  {
  }

  /** `is_palindrome` holds exactly when the lowered stripped text is its own
      reverse, that is, when it reads the same from both ends. */
  lemma PalindromeMeaning(hash: String -> Digest, value: String)
    ensures Analysis(hash, value).isPalindrome <==> Lower(Trim(value)) == Reverse(Lower(Trim(value)))
    ensures Analysis(hash, value).isPalindrome <==>
      forall i :: 0 <= i < |Trim(value)| ==>
        LowerChar(Trim(value)[i]) == LowerChar(Trim(value)[|Trim(value)| - 1 - i])
  {
    PalindromicMeaning(Trim(value));
  }

  lemma PalindromicMeaning(t: String)
    ensures Palindromic(t) <==> Lower(t) == Reverse(Lower(t))
    ensures Palindromic(t) <==> forall i :: 0 <= i < |t| ==> LowerChar(t[i]) == LowerChar(t[|t| - 1 - i])
  {
    var l, m := Lower(t), Reverse(Lower(t));
    assert Lower(Reverse(t)) == m;
    assert l == m <==> forall i :: 0 <= i < |t| ==> l[i] == m[i];
  }

  /** Texts of at most one character after stripping are palindromes. */
  lemma ShortTextIsPalindrome(hash: String -> Digest, value: String)
    requires |Trim(value)| <= 1
    ensures Analysis(hash, value).isPalindrome
  {
    ShortPalindromic(Trim(value));
  }

  lemma ShortPalindromic(t: String)
    requires |t| <= 1
    ensures Palindromic(t)
  {
    assert Reverse(t) == t;
  }

  /** `word_count` is the number of maximal non-whitespace runs of the stripped
      text. */
  lemma WordCountIsRunCount(hash: String -> Digest, value: String)
    ensures Analysis(hash, value).wordCount == RunEnds(Trim(value))
  {
    WordsCountRuns(Trim(value));
  }

  /** The frequency map has exactly the characters of the stripped text as keys,
      each mapped to its number of occurrences; its key count is
      `unique_characters` and its counts add up to `length`. */
  lemma FrequencyMapMeaning(hash: String -> Digest, value: String)
    ensures var p, t := Analysis(hash, value), Trim(value);
      && p.characterFrequencyMap.Keys == Chars(t)
      && (forall c :: c in p.characterFrequencyMap ==>
            0 < p.characterFrequencyMap[c] == multiset(t)[c])
      && |p.characterFrequencyMap| == p.uniqueCharacters
      && Total(p.characterFrequencyMap) == p.length
  {
    var t := Trim(value);
    assert Frequencies(t).Keys == Chars(t);
    FrequenciesTotal(t);
  }

  /** An empty or all-whitespace value analyses to the empty text's properties. */
  lemma BlankValue(hash: String -> Digest, value: String)
    requires forall i :: 0 <= i < |value| ==> IsSpace(value[i])
    ensures Analysis(hash, value) == Properties(0, true, 0, 0, hash([]), map[])
  {
    var t := Trim(value);
    assert t == [];
    assert Chars(t) == {};
  }

  /** Only the stripped text matters: a value and its stripped form analyse alike. */
  lemma {:induction false} AnalysisOfTrimmed(hash: String -> Digest, value: String)
    ensures Analysis(hash, Trim(value)) == Analysis(hash, value)
  {
    TrimIdempotent(value);
  }

  /** With a collision-free digest, two values share a digest exactly when they
      share their stripped text, and then they share all their properties. */
  lemma SameDigestSameAnalysis(hash: String -> Digest, a: String, b: String)
    requires Injective(hash)
    ensures Analysis(hash, a).sha256Hash == Analysis(hash, b).sha256Hash <==> Trim(a) == Trim(b)
    ensures Trim(a) == Trim(b) ==> Analysis(hash, a) == Analysis(hash, b)
  {
  }
}
