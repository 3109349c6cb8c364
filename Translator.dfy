/** The keyword rules of `filter_by_natural_language`, which turn a query into
    filter criteria or a parse error. */
module Translator {
  import opened Wrappers
  import opened Text
  import opened Filter

  /** The three ways the translation fails, each answered with status 400. */
  datatype ParseError =
    | UnparsableNumber     // "longer than" without an integer word after it
    | UnparsableCharacter  // "contain" without a word after it
    | NothingRecognized    // none of the four keywords occurs

  /** `q.split(sep)[1].split()[0]`: the first word of the piece after the first
      occurrence of `sep`; `None` where Python raises `IndexError`. */
  function FirstWordAfter(q: String, sep: String): (r: Option<String>)
    requires sep != []
    ensures r.Some? ==> IsWord(r.value) && Within(r.value, q)
  {
    match PieceAfter(q, sep)
    case None => None
    case Some(piece) =>
      var words := Words(piece);
      WordsWithin(piece);
      if words == [] then None else Some(words[0])
  }

  /** The "longer than" rule: `min_length` is one more than the integer that
      follows the phrase. */
  function LongerThanRule(q: String): (r: Result<Option<int>, ParseError>)
    ensures r.Success? ==> (r.value.Some? <==> Contains(q, "longer than"))
  {
    if !Contains(q, "longer than") then Success(None)
    else
      match FirstWordAfter(q, "longer than")
      case None => Failure(UnparsableNumber)
      case Some(word) => MinLengthAfter(word)
  }

  /** `int(word) + 1`, or the number error where `int()` refuses the word. */
  function MinLengthAfter(word: String): Result<Option<int>, ParseError> {
    match ParseInt(word)
    case None => Failure(UnparsableNumber)
    case Some(n) => Success(Some(n + 1))
  }

  /** The "contain" rule: `q.split("contain")[1].strip().split()[0][0]`, the first
      character of the first word after the keyword. */
  function ContainRule(q: String): (r: Result<Option<String>, ParseError>)
    ensures r.Success? ==> (r.value.Some? <==> Contains(q, "contain"))
    ensures r.Success? && r.value.Some? ==>
      |r.value.value| == 1 && r.value.value[0] in q && !IsSpace(r.value.value[0])
  {
    if !Contains(q, "contain") then Success(None)
    else
      match PieceAfter(q, "contain")
      case None => Failure(UnparsableCharacter)
      case Some(piece) =>
        var words := Words(Trim(piece));
        WordsWithin(Trim(piece));
        if words == [] then Failure(UnparsableCharacter)
        else Success(Some([words[0][0]]))
  }

  /** `filter_by_natural_language` up to the call of `list_strings`: the rules
      run in the source's order against the lowered query, a failing rule stops
      the translation, and a query that sets nothing is refused. */
  function Translate(query: String): (r: Result<Criteria, ParseError>)
    ensures r == Failure(NothingRecognized) <==>
      && !Contains(Lower(query), "palindromic") && !Contains(Lower(query), "longer than")
      && !Contains(Lower(query), "single word") && !Contains(Lower(query), "contain")
    ensures r.Success? ==> r.value.maxLength == None
    ensures r.Success? ==>
      r.value.isPalindrome == (if Contains(Lower(query), "palindromic") then Some(true) else None)
    ensures r.Success? ==>
      r.value.wordCount == (if Contains(Lower(query), "single word") then Some(1) else None)
    ensures r.Success? ==> (r.value.minLength.Some? <==> Contains(Lower(query), "longer than"))
    ensures r.Success? ==> (r.value.containsCharacter.Some? <==> Contains(Lower(query), "contain"))
    ensures r.Success? && r.value.containsCharacter.Some? ==>
      var ch := r.value.containsCharacter.value;
      |ch| == 1 && !IsUpper(ch[0]) && !IsSpace(ch[0])
    ensures r == Failure(UnparsableNumber) ==> Contains(Lower(query), "longer than")
    ensures r == Failure(UnparsableCharacter) ==> Contains(Lower(query), "contain")
  {
    var q := Lower(query);
    var isPalindrome := if Contains(q, "palindromic") then Some(true) else None;
    match LongerThanRule(q)
    case Failure(e) => Failure(e)
    case Success(minLength) =>
      var wordCount := if Contains(q, "single word") then Some(1) else None;
      match ContainRule(q)
      case Failure(e) => Failure(e)
      case Success(containsCharacter) =>
        var parsed := Criteria(isPalindrome, minLength, None, wordCount, containsCharacter);
        if parsed == NoCriteria then Failure(NothingRecognized) else Success(parsed)
  }

  // ---------------------------------------------------------------- the word after a keyword

  /** `q` reads `pre + sep + gap + w + post`: `sep` first occurs right after
      `pre`, no further `sep` starts inside `gap + w`, `gap` is blank, `w` is a
      word and `post` is empty, starts with whitespace or starts with another
      `sep` (which cuts the word off there). */
  predicate WordFollows(q: String, sep: String, pre: String, gap: String, w: String, post: String) {
    && q == pre + sep + gap + w + post
    && (forall k :: 0 <= k < |pre| ==> !OccursAt(q, sep, k))
    && (forall k :: |pre| + |sep| <= k < |pre| + |sep| + |gap| + |w| ==> !OccursAt(q, sep, k))
    && Blank(gap) && IsWord(w) && (post == [] || IsSpace(post[0]) || OccursAt(post, sep, 0))
  }

  /** `q` reads `pre + sep + gap + post`: `sep` first occurs right after `pre`,
      `gap` is blank and no further `sep` starts inside it, and `post` is empty
      or starts with `sep`; so no word follows the first `sep`. */
  predicate NothingFollows(q: String, sep: String, pre: String, gap: String, post: String) {
    && q == pre + sep + gap + post
    && (forall k :: 0 <= k < |pre| ==> !OccursAt(q, sep, k))
    && (forall k :: |pre| + |sep| <= k < |pre| + |sep| + |gap| ==> !OccursAt(q, sep, k))
    && Blank(gap) && (post == [] || OccursAt(post, sep, 0))
  }

  /** In a query where `w` follows `sep`, `w` is the first word after `sep`,
      with or without stripping the piece first. */
  lemma FirstWordFollows(q: String, sep: String, pre: String, gap: String, w: String, post: String)
    requires sep != [] && WordFollows(q, sep, pre, gap, w, post)
    ensures FirstWordAfter(q, sep) == Some(w)
    ensures PieceAfter(q, sep).Some?
    ensures var ws := Words(Trim(PieceAfter(q, sep).value)); ws != [] && ws[0] == w
  {
    if post == [] || IsSpace(post[0]) {
      WordEndsAtSpace(q, sep, pre, gap, w, post);
    } else {
      WordEndsAtSep(q, sep, pre, gap, w, post);
    }
  }

  /** `FirstWordFollows` where whitespace or the end of `q` ends the word. */
  lemma WordEndsAtSpace(q: String, sep: String, pre: String, gap: String, w: String, post: String)
    requires sep != [] && q == pre + sep + (gap + w) + post
    requires forall k :: 0 <= k < |pre| ==> !OccursAt(q, sep, k)
    requires forall k :: |pre| + |sep| <= k < |pre| + |sep| + |gap + w| ==> !OccursAt(q, sep, k)
    requires Blank(gap) && IsWord(w) && (post == [] || IsSpace(post[0]))
    ensures FirstWordAfter(q, sep) == Some(w)
    ensures PieceAfter(q, sep).Some?
    ensures var ws := Words(Trim(PieceAfter(q, sep).value)); ws != [] && ws[0] == w
  {
    var rest := PieceAfterStartsWith(q, sep, pre, gap + w, post);
    var piece := gap + w + rest;
    assert PieceAfter(q, sep) == Some(piece);
    assert rest != [] ==> rest[0] == post[0];
    WordAfterGap(gap, w, rest);
    assert Words(piece)[0] == w;
  }

  /** `FirstWordFollows` where another `sep` ends the word. */
  lemma WordEndsAtSep(q: String, sep: String, pre: String, gap: String, w: String, post: String)
    requires sep != [] && q == pre + sep + (gap + w) + post
    requires forall k :: 0 <= k < |pre| ==> !OccursAt(q, sep, k)
    requires forall k :: |pre| + |sep| <= k < |pre| + |sep| + |gap + w| ==> !OccursAt(q, sep, k)
    requires Blank(gap) && IsWord(w) && OccursAt(post, sep, 0)
    ensures FirstWordAfter(q, sep) == Some(w)
    ensures PieceAfter(q, sep).Some?
    ensures var ws := Words(Trim(PieceAfter(q, sep).value)); ws != [] && ws[0] == w
  {
    PieceAfterIs(q, sep, pre, gap + w, post);
    assert gap + w + [] == gap + w;
    WordAfterGap(gap, w, []);
  }

  /** In a query where nothing follows `sep`, there is no first word after it,
      with or without stripping the piece first. */
  lemma NoWordFollows(q: String, sep: String, pre: String, gap: String, post: String)
    requires sep != [] && NothingFollows(q, sep, pre, gap, post)
    ensures FirstWordAfter(q, sep) == None
    ensures PieceAfter(q, sep) == Some(gap) && Words(Trim(gap)) == []
  {
    PieceAfterIs(q, sep, pre, gap, post);
    assert Trim(gap) == [];
  }

  /** The "longer than" rule reads the word after the phrase: `min_length` is
      one more than its integer value, and a word that is not an integer is a
      number error. */
  lemma LongerThanReadsWord(q: String, pre: String, gap: String, w: String, post: String)
    requires WordFollows(q, "longer than", pre, gap, w, post)
    ensures LongerThanRule(q) ==
      if ParseInt(w).Some? then Success(Some(ParseInt(w).value + 1)) else Failure(UnparsableNumber)
  {
    FirstWordFollows(q, "longer than", pre, gap, w, post);
    RuleReadsFirstWord(q, w);
  }

  /** With `w` as the first word after "longer than", the rule parses `w`. */
  lemma RuleReadsFirstWord(q: String, w: String)
    requires FirstWordAfter(q, "longer than") == Some(w)
    ensures LongerThanRule(q) ==
      if ParseInt(w).Some? then Success(Some(ParseInt(w).value + 1)) else Failure(UnparsableNumber)
  {
    assert PieceAfter(q, "longer than").Some?;
    assert LongerThanRule(q) == MinLengthAfter(w);
  }

  /** "longer than" with no word after it is a number error. */
  lemma LongerThanWithoutWord(q: String, pre: String, gap: String, post: String)
    requires NothingFollows(q, "longer than", pre, gap, post)
    ensures LongerThanRule(q) == Failure(UnparsableNumber)
  {
    NoWordFollows(q, "longer than", pre, gap, post);
  }

  /** The "contain" rule reads the first character of the word after the
      keyword. */
  lemma ContainReadsWord(q: String, pre: String, gap: String, w: String, post: String)
    requires WordFollows(q, "contain", pre, gap, w, post)
    ensures ContainRule(q) == Success(Some([w[0]]))
  {
    FirstWordFollows(q, "contain", pre, gap, w, post);
  }

  /** "contain" with no word after it is a character error. */
  lemma ContainWithoutWord(q: String, pre: String, gap: String, post: String)
    requires NothingFollows(q, "contain", pre, gap, post)
    ensures ContainRule(q) == Failure(UnparsableCharacter)
  {
    NoWordFollows(q, "contain", pre, gap, post);
  }

  // ---------------------------------------------------------------- lemmas

  /** A query whose lowered form has the word `w` after "longer than" is
      refused when `w` is not an integer, and otherwise, when it is accepted,
      asks for `min_length = int(w) + 1`. */
  lemma TranslateReadsNumber(query: String, pre: String, gap: String, w: String, post: String)
    requires WordFollows(Lower(query), "longer than", pre, gap, w, post)
    ensures ParseInt(w).None? ==> Translate(query) == Failure(UnparsableNumber)
    ensures Translate(query).Success? ==>
      ParseInt(w).Some? && Translate(query).value.minLength == Some(ParseInt(w).value + 1)
  {
    LongerThanReadsWord(Lower(query), pre, gap, w, post);
  }

  /** A query whose lowered form has the word `w` after "contain", once the
      "longer than" rule has passed, is accepted and asks for the character
      `w[0]`. */
  lemma TranslateReadsCharacter(query: String, pre: String, gap: String, w: String, post: String)
    requires WordFollows(Lower(query), "contain", pre, gap, w, post)
    ensures LongerThanRule(Lower(query)).Success? ==> Translate(query).Success?
    ensures Translate(query).Success? ==> Translate(query).value.containsCharacter == Some([w[0]])
  {
    ContainReadsWord(Lower(query), pre, gap, w, post);
  }

  /** "longer than" with no word after it refuses the query. */
  lemma TranslateRefusesMissingNumber(query: String, pre: String, gap: String, post: String)
    requires NothingFollows(Lower(query), "longer than", pre, gap, post)
    ensures Translate(query) == Failure(UnparsableNumber)
  {
    LongerThanWithoutWord(Lower(query), pre, gap, post);
  }

  /** "contain" with no word after it refuses the query, with the character
      error unless the "longer than" rule failed first. */
  lemma TranslateRefusesMissingCharacter(query: String, pre: String, gap: String, post: String)
    requires NothingFollows(Lower(query), "contain", pre, gap, post)
    ensures Translate(query).Failure? && Translate(query) != Failure(NothingRecognized)
    ensures LongerThanRule(Lower(query)).Success? ==> Translate(query) == Failure(UnparsableCharacter)
  {
    ContainWithoutWord(Lower(query), pre, gap, post);
  }

  /** A query whose only keyword is "palindromic" asks for palindromes and
      nothing else. */
  lemma PalindromicOnly(query: String)
    requires Contains(Lower(query), "palindromic")
    requires !Contains(Lower(query), "longer than") && !Contains(Lower(query), "single word")
    requires !Contains(Lower(query), "contain")
    ensures Translate(query) == Success(NoCriteria.(isPalindrome := Some(true)))
  {
    var q := Lower(query);
    assert LongerThanRule(q) == Success(None);
    assert ContainRule(q) == Success(None);
  }

  /** `"longer than N"` sets exactly `min_length = N + 1`, for every integer `N`
      whose decimal form is within `int()`'s digit limit, and is refused with a
      number error otherwise. */
  lemma LongerThanReadsBackNumber(n: int)
    ensures var m := if n < 0 then -n else n;
      Translate("longer than " + IntString(n)) ==
        if |Decimal(m)| <= MaxIntDigits then Success(NoCriteria.(minLength := Some(n + 1)))
        else Failure(UnparsableNumber)
  {
    var q := "longer than " + IntString(n);
    OnlyLongerThanOccurs(n);
    LongerThanRuleReadsNumber(n);
    assert ContainRule(q) == Success(None);
  }

  /** The query `"longer than N"` is already lower case and holds no other keyword. */
  lemma OnlyLongerThanOccurs(n: int)
    ensures var q := "longer than " + IntString(n);
      && Lower(q) == q
      && !Contains(q, "palindromic") && !Contains(q, "single word") && !Contains(q, "contain")
  {
    var q := "longer than " + IntString(n);
    LongerThanQueryChars(n);
    LowerOfLowercase(q);
    FirstCharacterAbsent(q, "palindromic");
    FirstCharacterAbsent(q, "single word");
    FirstCharacterAbsent(q, "contain");
  }

  /** The characters of `"longer than N"`: no capital and none of `p`, `s`, `c`;
      after the phrase, no `l` either. */
  lemma LongerThanQueryChars(n: int)
    ensures forall c :: c in "longer than " + IntString(n) ==>
      !IsUpper(c) && c != 'p' && c != 's' && c != 'c'
    ensures forall k :: 11 <= k < |"longer than " + IntString(n)| ==>
      ("longer than " + IntString(n))[k] != 'l'
  {
    var digits := IntString(n);
    var q := "longer than " + digits;
    IntStringHasNoSpace(n);
    forall k | 0 <= k < |q| ensures !IsUpper(q[k]) && q[k] != 'p' && q[k] != 's' && q[k] != 'c'
      ensures 11 <= k ==> q[k] != 'l'
    {
      if k >= 12 {
        assert q[k] == digits[k - 12] && q[k] in digits;
      }
    }
  }

  /** The "longer than" rule on `"longer than N"` reads `N` back, within
      `int()`'s digit limit. */
  lemma LongerThanRuleReadsNumber(n: int)
    ensures var m := if n < 0 then -n else n;
      LongerThanRule("longer than " + IntString(n)) ==
        if |Decimal(m)| <= MaxIntDigits then Success(Some(n + 1)) else Failure(UnparsableNumber)
  {
    var digits := IntString(n);
    var q := "longer than " + digits;
    IntStringHasNoSpace(n);
    LongerThanQueryChars(n);
    assert q == [] + "longer than" + " " + digits + [];
    NoOccurrenceIn(q, "longer than", 0, 0);
    NoOccurrenceIn(q, "longer than", 11, 12 + |digits|);
    assert Blank(" ");
    assert WordFollows(q, "longer than", [], " ", digits, []);
    LongerThanReadsWord(q, [], " ", digits, []);
    ParseIntString(n);
  }

  /** The example query "strings longer than 5 chars" asks for `min_length = 6`
      and nothing else. */
  lemma LongerThanFiveChars(query: String)
    requires query == "strings longer than 5 chars"
    ensures Translate(query) == Success(NoCriteria.(minLength := Some(6)))
  {
    FiveCharsIsLowerCase(query);
    FiveCharsLacksPalindromic(query);
    FiveCharsLacksPair(query, "single word");
    FiveCharsLacksPair(query, "contain");
    FiveCharsWordFollows(query);
    FirstWordFollows(query, "longer than", "strings ", " ", "5", " chars");
    RuleReadsFirstWord(query, "5");
    MinLengthAfterFive();
    assert ContainRule(query) == Success(None);
  }

  // Each fact about the example query is proved on its own: together they make
  // one proof obligation too large for the solver.

  lemma FiveCharsIsLowerCase(q: String)
    requires q == "strings longer than 5 chars"
    ensures Lower(q) == q
  {
    LowerOfLowercase(q);
  }

  lemma FiveCharsLacksPalindromic(q: String)
    requires q == "strings longer than 5 chars"
    ensures !Contains(q, "palindromic")
  {
    FirstCharacterAbsent(q, "palindromic");
  }

  /** Neither "single word" nor "contain" occurs: their first two characters
      never stand side by side in the query. */
  lemma FiveCharsLacksPair(q: String, keyword: String)
    requires q == "strings longer than 5 chars"
    requires keyword == "single word" || keyword == "contain"
    ensures !Contains(q, keyword)
  {
    FirstPairAbsent(q, keyword);
  }

  /** In "strings longer than 5 chars" the word after "longer than" is "5". */
  lemma FiveCharsWordFollows(q: String)
    requires q == "strings longer than 5 chars"
    ensures WordFollows(q, "longer than", "strings ", " ", "5", " chars")
  {
    assert q == "strings " + "longer than" + " " + "5" + " chars";
    NoOccurrenceIn(q, "longer than", 0, 8);
    NoOccurrenceIn(q, "longer than", 19, 21);
    assert Blank(" ") && IsWord("5") && IsSpace(" chars"[0]);
  }

  /** A second "longer than" cuts the first word short: in
      "longer than 5longer than 3" the rule reads "5" and asks for
      `min_length = 6`. */
  lemma LongerThanCutShort(q: String)
    requires q == "longer than 5longer than 3"
    ensures LongerThanRule(q) == Success(Some(6))
  {
    CutShortWordFollows(q);
    FirstWordFollows(q, "longer than", [], " ", "5", "longer than 3");
    RuleReadsFirstWord(q, "5");
    MinLengthAfterFive();
  }

  /** In "longer than 5longer than 3" the word after the first "longer than"
      is "5", ended by the second one. */
  lemma CutShortWordFollows(q: String)
    requires q == "longer than 5longer than 3"
    ensures WordFollows(q, "longer than", [], " ", "5", "longer than 3")
  {
    assert q == [] + "longer than" + " " + "5" + "longer than 3";
    NoOccurrenceIn(q, "longer than", 0, 0);
    NoOccurrenceIn(q, "longer than", 11, 13);
    assert "longer than 3"[0..11] == "longer than";
    assert Blank(" ") && IsWord("5");
  }

  /** A second "contain" cuts the first word short: in "contain acontain b"
      the rule reads the character "a". */
  lemma ContainCutShort(q: String)
    requires q == "contain acontain b"
    ensures ContainRule(q) == Success(Some("a"))
  {
    assert q == [] + "contain" + " " + "a" + "contain b";
    NoOccurrenceIn(q, "contain", 0, 0);
    NoOccurrenceIn(q, "contain", 7, 9);
    assert "contain b"[0..7] == "contain";
    assert Blank(" ") && IsWord("a");
    ContainReadsWord(q, [], " ", "a", "contain b");
  }

  /** `int("5") + 1 == 6`. */
  lemma MinLengthAfterFive()
    ensures MinLengthAfter("5") == Success(Some(6))
  {
    assert IsDigits("5") && DigitsValue("5") == 5;
  }
}
