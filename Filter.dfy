/** `list_strings`: narrowing the stored entries by up to five optional criteria. */
module Filter {
  import opened Wrappers
  import opened Text
  import opened Entries

  /** The five optional query parameters of `list_strings`; `None` is an absent
      parameter. */
  datatype Criteria = Criteria(
    isPalindrome: Option<bool>,
    minLength: Option<int>,
    maxLength: Option<int>,
    wordCount: Option<int>,
    containsCharacter: Option<String>)

  const NoCriteria := Criteria(None, None, None, None, None)

  /** `e` satisfies every criterion that is present. Length, palindrome and word
      count are read from the analysis; the text test is a case-sensitive
      substring test against the value as submitted, not its stripped form. */
  predicate Matches(c: Criteria, e: Entry) {
    && (c.isPalindrome.Some? ==> e.properties.isPalindrome == c.isPalindrome.value)
    && (c.minLength.Some? ==> e.properties.length >= c.minLength.value)
    && (c.maxLength.Some? ==> e.properties.length <= c.maxLength.value)
    && (c.wordCount.Some? ==> e.properties.wordCount == c.wordCount.value)
    && (c.containsCharacter.Some? ==> Contains(e.value, c.containsCharacter.value))
  }

  /** The entries of `entries` that match `c`, in their original order: the
      single-pass reference for what filtering returns. */
  function Select(entries: seq<Entry>, c: Criteria): (r: seq<Entry>)
    ensures |r| <= |entries|
    ensures forall e :: e in r <==> e in entries && Matches(c, e)
    ensures multiset(r) <= multiset(entries)
  {
    if entries == [] then []
    else
      assert entries == [entries[0]] + entries[1..];
      (if Matches(c, entries[0]) then [entries[0]] else []) + Select(entries[1..], c)
  }

  /** The condition of one of the list comprehensions of `list_strings`. */
  datatype Test =
    | PalindromeIs(flag: bool)
    | LengthAtLeast(bound: int)
    | LengthAtMost(bound: int)
    | WordCountIs(count: int)
    | ValueContains(text: String)

  predicate Passes(t: Test, e: Entry) {
    match t
    case PalindromeIs(flag) => e.properties.isPalindrome == flag
    case LengthAtLeast(bound) => e.properties.length >= bound
    case LengthAtMost(bound) => e.properties.length <= bound
    case WordCountIs(count) => e.properties.wordCount == count
    case ValueContains(text) => Contains(e.value, text)
  }

  /** `[r for r in results if <t>]`. */
  function Where(results: seq<Entry>, t: Test): (r: seq<Entry>)
    ensures |r| <= |results|
    ensures forall e :: e in r <==> e in results && Passes(t, e)
  {
    if results == [] then []
    else
      assert results == [results[0]] + results[1..];
      (if Passes(t, results[0]) then [results[0]] else []) + Where(results[1..], t)
  }

  /** One filtering step of `list_strings`: the comprehension for `t` when its
      parameter is present, and the results unchanged when it is absent. */
  function Narrow(results: seq<Entry>, t: Option<Test>): (r: seq<Entry>)
    ensures |r| <= |results|
    ensures forall e :: e in r <==> e in results && (t.Some? ==> Passes(t.value, e))
  {
    if t.Some? then Where(results, t.value) else results
  }

  /** The filters of `list_strings`, applied one after the other as the source
      applies them, each only when its parameter is present. */
  function ApplyFilters(entries: seq<Entry>, c: Criteria): (r: seq<Entry>)
    ensures |r| <= |entries|
    ensures forall e :: e in r <==> e in entries && Matches(c, e)
  {
    var r1 := Narrow(entries, if c.isPalindrome.Some? then Some(PalindromeIs(c.isPalindrome.value)) else None);
    var r2 := Narrow(r1, if c.minLength.Some? then Some(LengthAtLeast(c.minLength.value)) else None);
    var r3 := Narrow(r2, if c.maxLength.Some? then Some(LengthAtMost(c.maxLength.value)) else None);
    var r4 := Narrow(r3, if c.wordCount.Some? then Some(WordCountIs(c.wordCount.value)) else None);
    Narrow(r4, if c.containsCharacter.Some? then Some(ValueContains(c.containsCharacter.value)) else None)
  }

  /** The response of `list_strings`. */
  datatype ListResponse = ListResponse(data: seq<Entry>, count: nat, filtersApplied: Criteria)

  /** `list_strings` over the store's entries in enumeration order: the
      surviving entries are exactly the matching ones, in order, `count` is
      their number and every parameter, present or not, is echoed back. */
  function ListStrings(entries: seq<Entry>, c: Criteria): (r: ListResponse)
    ensures r.data == Select(entries, c)
    ensures r.count == |r.data| && r.filtersApplied == c
    ensures forall e :: e in r.data <==> e in entries && Matches(c, e)
  {
    var data := ApplyFilters(entries, c);
    FiltersCompose(entries, c);
    ListResponse(data, |data|, c)
  }

  // ---------------------------------------------------------------- lemmas

  /** Absent criteria impose nothing. */
  lemma {:induction false} SelectNothing(entries: seq<Entry>)
    ensures Select(entries, NoCriteria) == entries
  {
    if entries != [] {
      SelectNothing(entries[1..]);
    }
  }

  /** A list comprehension over already selected entries selects by the
      conjunction of both conditions. */
  lemma {:induction false} WhereAfterSelect(entries: seq<Entry>, c: Criteria, t: Test, d: Criteria)
    requires forall e :: Matches(d, e) <==> Matches(c, e) && Passes(t, e)
    ensures Where(Select(entries, c), t) == Select(entries, d)
  {
    if entries != [] {
      var h, tail := entries[0], entries[1..];
      var rest := Select(tail, c);
      WhereAfterSelect(tail, c, t, d);
      if Matches(c, h) {
        assert Select(entries, c) == [h] + rest;
        assert ([h] + rest)[1..] == rest;
      } else {
        assert Select(entries, c) == rest;
      }
    }
  }

  /** Applying the present filters one after the other is the same as keeping,
      in one pass, the entries that satisfy all of them. */
  lemma FiltersCompose(entries: seq<Entry>, c: Criteria)
    ensures ApplyFilters(entries, c) == Select(entries, c)
  {
    var c1 := NoCriteria.(isPalindrome := c.isPalindrome);
    var c2 := c1.(minLength := c.minLength);
    var c3 := c2.(maxLength := c.maxLength);
    var c4 := c3.(wordCount := c.wordCount);
    SelectNothing(entries);
    var r1 := Narrow(entries, if c.isPalindrome.Some? then Some(PalindromeIs(c.isPalindrome.value)) else None);
    if c.isPalindrome.Some? {
      WhereAfterSelect(entries, NoCriteria, PalindromeIs(c.isPalindrome.value), c1);
    }
    assert r1 == Select(entries, c1);
    var r2 := Narrow(r1, if c.minLength.Some? then Some(LengthAtLeast(c.minLength.value)) else None);
    if c.minLength.Some? {
      WhereAfterSelect(entries, c1, LengthAtLeast(c.minLength.value), c2);
    }
    assert r2 == Select(entries, c2);
    var r3 := Narrow(r2, if c.maxLength.Some? then Some(LengthAtMost(c.maxLength.value)) else None);
    if c.maxLength.Some? {
      WhereAfterSelect(entries, c2, LengthAtMost(c.maxLength.value), c3);
    }
    assert r3 == Select(entries, c3);
    var r4 := Narrow(r3, if c.wordCount.Some? then Some(WordCountIs(c.wordCount.value)) else None);
    if c.wordCount.Some? {
      WhereAfterSelect(entries, c3, WordCountIs(c.wordCount.value), c4);
    }
    assert r4 == Select(entries, c4);
    if c.containsCharacter.Some? {
      WhereAfterSelect(entries, c4, ValueContains(c.containsCharacter.value), c);
    } else {
      assert c4 == c;
    }
  }

  /** Entries of lengths 3, 5 and 7 filtered by a minimum length of 5 leave the
      last two, and the count says 2. */
  lemma MinLengthExample(a: Entry, b: Entry, d: Entry)
    requires a.properties.length == 3 && b.properties.length == 5 && d.properties.length == 7
    ensures var r := ListStrings([a, b, d], NoCriteria.(minLength := Some(5)));
      r.data == [b, d] && r.count == 2
  {
    var c := NoCriteria.(minLength := Some(5));
    assert [a, b, d][1..] == [b, d];
    assert [b, d][1..] == [d];
    assert Select([d], c) == [d];
    assert Select([b, d], c) == [b, d];
    assert Select([a, b, d], c) == [b, d];
  }

  /** The text criterion looks at the value as submitted: whitespace that
      stripping removes still matches. */
  lemma ContainsSeesUnstrippedValue(e: Entry)
    requires e.value == " Ab "
    ensures Matches(NoCriteria.(containsCharacter := Some(" ")), e)
    ensures !Contains(Trim(e.value), " ")
  {
    var v := e.value;
    assert OccursAt(v, " ", 0);
    assert v[0] == ' ' && v[1] == 'A' && v[2] == 'b' && v[3] == ' ';
    TrimOfSpacedAb(v);
    var t := v[1..3];
    assert t[0] == 'A' && t[1] == 'b';
    FirstCharacterAbsent(t, " ");
  }

  /** The text criterion is case-sensitive. */
  lemma ContainsIsCaseSensitive(e: Entry)
    requires e.value == " Ab "
    ensures !Matches(NoCriteria.(containsCharacter := Some("a")), e)
    ensures Matches(NoCriteria.(containsCharacter := Some("A")), e)
  {
    assert OccursAt(e.value, "A", 1);
    FirstCharacterAbsent(e.value, "a");
  }

  lemma TrimOfSpacedAb(v: String)
    requires |v| == 4 && v[0] == ' ' && v[1] == 'A' && v[2] == 'b' && v[3] == ' '
    ensures Trim(v) == v[1..3]
  {
    var u := v[1..];
    assert u[0] == 'A' && !IsSpace(u[0]);
    assert TrimStart(u) == u;
    assert TrimStart(v) == u;
    var w := u[..|u| - 1];
    assert w == v[1..3] && w[|w| - 1] == 'b';
    assert TrimEnd(w) == w;
    assert IsSpace(u[|u| - 1]);
    assert TrimEnd(u) == w;
  }
}
