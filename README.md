# FIK001 string analyzer — a Dafny model

This project models the core of the FIK001 String Analyzer service (`app.py`).
It covers four parts:

- **`analyze_string`** strips a submitted string and derives its properties:
  - length;
  - a case-insensitive palindrome flag;
  - the number of distinct characters;
  - the word count;
  - the SHA-256 digest of the stripped text;
  - a character-frequency map.
- **The store** is the in-memory `database` dict, keyed by the digest of the stripped text. The routes that act on it are:
  - `create_string`, which refuses an empty value (400) and a duplicate (409);
  - `get_string` and `delete_string`, which answer 404 for an absent key.
- **`list_strings`** narrows the stored entries by up to five optional criteria. It returns the survivors, their count and an echo of the criteria.
- **`filter_by_natural_language`** turns the keywords "palindromic", "longer than N", "single word" and "contain X" into criteria, or refuses the query, and then lists with them.

Modules:

- `Text` holds the Python string primitives the core relies on:
  - `strip`, `split()`, `split(sep)[1]`, `lower`, `[::-1]`;
  - the `in` substring test;
  - `int()` of a token.

  It also renders integers in decimal (`IntString`, `Decimal`). The source never does this. The rendering exists only to state `ParseIntString` and `LongerThanReadsBackNumber`, which read a rendered integer back.
- `Analyzer` holds:
  - `analyze_string`, as the function `Analysis`;
  - the method `Analyze`, whose frequency loop is `CountCharacters`;
  - the lemmas about these.
- `Entries` holds the stored record.
- `Filter` holds `list_strings`. The source filters by successive list comprehensions (`Where`, applied by `ApplyFilters`). This is proved equal to the single-pass selection `Select`.
- `Translator` holds the keyword rules. It also holds the lemmas that read the number and the character out of a query split around its keyword.
- `Store` is a class holding `database` as a `map` plus the dict's insertion order. Its methods are the routes.

The digest function is a parameter of the store (`hash`). Lemmas that need "same digest only for the same text" state it as the predicate `Injective(hash)`.

## Model

| member | source | states |
|---|---|---|
| Text.Trim | app.py:18 | `strip()`: the result is the slice of the input that follows its blank prefix (`TrimStart`) and precedes a blank suffix. It is empty exactly when every character is whitespace. Otherwise it begins and ends with a non-whitespace character. |
| Text.TrimStart | app.py:18 | The left half of `strip()`: the result is a suffix of the input, the cut-off prefix is all whitespace, and the result is empty or starts with a non-whitespace character. |
| Text.TrimEnd | app.py:18 | The right half of `strip()`: the result is a prefix of the input, the cut-off suffix is all whitespace, and the result is empty or ends with a non-whitespace character. |
| Text.TrimStartAt | app.py:18 | The converse of `TrimStart`: a blank prefix followed by a non-whitespace character, or by the end, is exactly what it removes. |
| Text.TrimIdempotent | app.py:18 | Stripping an already stripped text changes nothing. |
| Text.Lower | app.py:19 | `lower()` maps each character by position and leaves no upper-case letter in the result. |
| Text.Reverse | app.py:19 | `[::-1]`: position `i` of the result holds position `len-1-i` of the input. |
| Text.Words | app.py:21 | `split()` yields only non-empty tokens without whitespace. It yields none exactly when the text is all whitespace. |
| Text.FirstWord | app.py:21 | `split()` yields the maximal runs in order: after a blank prefix, a word followed by whitespace or the end is the first token, and the remaining tokens are those of the rest. |
| Text.WordAfterGap | app.py:112-120 | A blank gap, then a word, then whitespace or the end: the word is the first token of `split()` and of `strip().split()`. |
| Text.WordsWithin | app.py:21 | Every character of every token comes from the split text. |
| Text.WordsCountRuns | app.py:21 | The number of tokens of `split()` equals the number of maximal non-whitespace runs. The run count is defined independently, by counting run ends. |
| Text.RunEndsOfAllSpace | app.py:21 | An all-whitespace text has no runs, hence no words. |
| Text.Find | app.py:108-118 | The first index at or after `from` where the pattern occurs, or none when it occurs nowhere there. |
| Text.Contains | app.py:108-118 | `pat in s` holds exactly when the pattern occurs at some index of `s`. The same test serves `contains_character in r["value"]` (app.py:88). |
| Text.FirstCharacterAbsent | app.py:108-118 | A pattern whose first character is not in `s` is not in `s`. |
| Text.FirstPairAbsent | app.py:108-118 | A pattern whose first two characters never stand side by side in `s` is not in `s`. |
| Text.PieceAfter | app.py:112-120 | `s.split(sep)[1]` is defined exactly when `sep` occurs in `s`. It starts right after the first occurrence and is a slice of `s`. It ends at the next occurrence of `sep` or at the end of `s`, and no occurrence starts inside it. |
| Text.PieceAfterIs | app.py:112-120 | The converse of `PieceAfter`: in `pre + sep + piece + post`, with `sep` first occurring after `pre`, none starting inside `piece`, and `post` empty or starting with `sep`, the result is `piece`. |
| Text.PieceAfterStartsWith | app.py:112-120 | In `pre + sep + head + post`, with `sep` first occurring after `pre` and none starting inside `head`, the result is `head` followed by a prefix of `post`. |
| Text.ParseDigits | app.py:112 | `int()` of an unsigned token succeeds exactly for 1 to 4300 decimal digits, and gives their value. |
| Text.ParseInt | app.py:112 | `int()` of a token succeeds exactly for an optional `+` or `-` followed by 1 to 4300 decimal digits. The value is that of the digits, negated after `-`. |
| Text.ParseIntString | app.py:112 | `int()` reads back every rendered integer within the digit limit, `ParseInt(IntString(n)) == Some(n)`, and refuses it beyond the limit. |
| Text.IntStringHasNoSpace | app.py:112 | A rendered integer is a single whitespace-free token of sign and digits. |
| Analyzer.Analysis | app.py:16-36 | `analyze_string`: `length` is at most the value's length, and it is zero exactly for an empty or all-whitespace value. There are never more distinct characters than characters. A non-blank value has at least one distinct character and at least one word. |
| Analyzer.Analyze | app.py:16-36 | The method computes exactly `Analysis(hash, value)`. |
| Analyzer.CountCharacters | app.py:25-27 | The frequency loop ends with each character of the text mapped to its number of occurrences. Its loop invariant is the same statement for the prefix seen so far. |
| Analyzer.FrequenciesTotal | app.py:25-27 | The counts of the frequency map add up to the length of the text. |
| Analyzer.LengthIsTrimmedLength | app.py:18-30 | `length` is the length of the stripped value. It is zero exactly when the value is empty or all whitespace. |
| Analyzer.PalindromeMeaning | app.py:19 | `is_palindrome` holds iff the lowered stripped text equals its own reverse. Equivalently, it holds iff character `i` and character `len-1-i` agree after lowering, for every `i`. |
| Analyzer.ShortTextIsPalindrome | app.py:19 | A stripped text of length 0 or 1 is a palindrome. |
| Analyzer.WordCountIsRunCount | app.py:21 | `word_count` is the number of maximal non-whitespace runs of the stripped text. |
| Analyzer.FrequencyMapMeaning | app.py:20-27 | The map's keys are exactly the characters of the stripped text, each mapped to its positive occurrence count. `unique_characters` is the number of keys, and the counts sum to `length`. |
| Analyzer.BlankValue | app.py:18-36 | An empty or all-whitespace value gives length 0, palindrome, 0 distinct characters, 0 words, the digest of the empty text and an empty map. |
| Analyzer.AnalysisOfTrimmed | app.py:18 | A value and its stripped form have the same properties. |
| Analyzer.SameDigestSameAnalysis | app.py:18-22 | For a collision-free digest, two values share a digest iff they share their stripped text. When they share it, all their properties are equal. |
| Filter.Select | app.py:76-88 | The single-pass reference: an entry survives iff it is among the inputs and satisfies every present criterion. Survivors are a sub-multiset of the inputs, and there are no more of them than inputs. |
| Filter.Where | app.py:80-88 | One list comprehension `[r for r in results if <test>]`: an entry survives iff it is among the inputs and passes the test. Survivors are no more than the inputs. |
| Filter.Narrow | app.py:79-88 | One `if <param> is not None:` step: with the parameter absent the results are unchanged, otherwise they are the comprehension's survivors. |
| Filter.ApplyFilters | app.py:79-88 | The five steps in the source's order: an entry survives iff it is among the inputs and satisfies every present criterion. Survivors are no more than the inputs. |
| Filter.FiltersCompose | app.py:79-88 | The five successive comprehensions, each applied only when its parameter is present, return exactly `Select`: the order-preserving subsequence of matching entries. |
| Filter.SelectNothing | app.py:79-88 | With every parameter absent, every entry is returned, in order. |
| Filter.WhereAfterSelect | app.py:79-88 | One more comprehension over selected entries selects by the conjunction of both conditions. |
| Filter.ListStrings | app.py:67-100 | `data` is `Select` of the entries, in order. `count` is its length and `filters_applied` echoes all five parameters. An entry is in `data` iff it is stored and matches. |
| Filter.MinLengthExample | app.py:81-92 | Entries of lengths 3, 5 and 7 filtered with `min_length=5` give the last two, and `count == 2`. |
| Filter.ContainsSeesUnstrippedValue | app.py:87-88 | The text test looks at the value as submitted. `" Ab "` matches `" "`, although its stripped text `"Ab"` has no space. |
| Filter.ContainsIsCaseSensitive | app.py:87-88 | `" Ab "` matches `"A"` but not `"a"`. |
| Translator.FirstWordAfter | app.py:112 | `q.split(sep)[1].split()[0]`, when it exists, is a whitespace-free word taken from `q`. |
| Translator.FirstWordFollows | app.py:112-120 | In a query that reads `pre + sep + gap + w + post`, the first word after `sep` is `w`, with or without `strip()`. The conditions: `sep` first occurs after `pre` and not again before `post`, `gap` is blank and `w` is a word. `post` is empty, starts with whitespace, or starts with a second `sep` that cuts the word off. |
| Translator.NoWordFollows | app.py:112-120 | In a query where only a blank gap follows the first `sep` before the next one or the end, there is no first word after `sep`. |
| Translator.LongerThanRule | app.py:110-115 | When the rule succeeds, it sets `min_length` exactly when "longer than" occurs. |
| Translator.LongerThanReadsWord | app.py:110-115 | With `w` the word after the first "longer than" (ended by whitespace, the end or the next "longer than"), the rule gives `min_length = int(w) + 1`, or the number error when `int(w)` fails. |
| Translator.RuleReadsFirstWord | app.py:112-115 | Once the first word after "longer than" is `w`, the rule's outcome is decided by `int(w)` alone. |
| Translator.LongerThanWithoutWord | app.py:110-115 | "longer than" with no word after it is the number error. |
| Translator.ContainRule | app.py:118-123 | When the rule succeeds, it sets `contains_character` exactly when "contain" occurs. The value is one non-whitespace character of the query. |
| Translator.LongerThanCutShort | app.py:110-115 | In "longer than 5longer than 3" the second occurrence ends the first word, so the rule gives `min_length = 6`. |
| Translator.ContainReadsWord | app.py:118-123 | With `w` the word after the first "contain" (ended by whitespace, the end or the next "contain"), the rule gives `contains_character = w[0]`. |
| Translator.ContainCutShort | app.py:118-123 | In "contain acontain b" the second occurrence ends the first word, so the rule gives the character `a`. |
| Translator.ContainWithoutWord | app.py:118-123 | "contain" with no word after it is the character error. |
| Translator.Translate | app.py:105-126 | The query is refused as unrecognised iff none of the four keywords occurs in the lowered query. On success: `is_palindrome` and `word_count` are set exactly for their keywords, `max_length` is never set, and `min_length` / `contains_character` are present iff their keywords occur. The character is a single lower-case non-whitespace character. A number or character error occurs only when its keyword is present. |
| Translator.TranslateReadsNumber | app.py:105-115 | With `w` the word after the first "longer than" of the lowered query: a non-integer `w` refuses the query with the number error, and an accepted query has `min_length = int(w) + 1`. |
| Translator.TranslateReadsCharacter | app.py:105-123 | With `w` the word after the first "contain" of the lowered query: once the "longer than" rule passes, the query is accepted with `contains_character = w[0]`. |
| Translator.TranslateRefusesMissingNumber | app.py:110-115 | A lowered query with no word after "longer than" is refused with the number error. |
| Translator.TranslateRefusesMissingCharacter | app.py:110-123 | A lowered query with no word after "contain" is refused, not as unrecognised. It is the character error unless the number error came first. |
| Translator.PalindromicOnly | app.py:108-126 | A query whose only keyword is "palindromic" translates to exactly `is_palindrome = True`. |
| Translator.LongerThanReadsBackNumber | app.py:110-113 | For every integer `N` within `int()`'s digit limit, the query `"longer than N"` translates to exactly `min_length = N + 1`. Beyond the limit it is the number error. |
| Translator.LongerThanRuleReadsNumber | app.py:110-115 | The "longer than" rule alone on `"longer than N"`: `N + 1` within the digit limit, the number error beyond it. |
| Translator.OnlyLongerThanOccurs | app.py:105-118 | `"longer than N"` is already lower case and holds none of the other three keywords. |
| Translator.LongerThanFiveChars | app.py:105-126 | The query "strings longer than 5 chars" translates to exactly `min_length = 6`. |
| Store.EntriesInOrder | app.py:76 | `database.values()` lists the entry of each key in insertion order. |
| Store.Without | app.py:142 | `del` removes `key` from the insertion order and keeps the other keys. Distinctness is preserved, and exactly one key is removed when it was present. |
| Store.Store.constructor | app.py:9 | The store starts empty and consistent. |
| Store.Store.CreateString | app.py:40-57 | An empty value is refused with `InvalidValue`, and a value whose stripped text is stored is refused with `Conflict`; both refusals leave the store unchanged. Otherwise exactly one key, the digest of the stripped text, is added. It maps to the entry holding that id, the untrimmed value, its analysis and the timestamp, and the entry is appended to `values()`. |
| Store.Store.GetString | app.py:60-65 | Absent digest gives `NotFound`. Otherwise the result is the stored entry under the digest of the stripped argument, and it is listed by `values()`. Under a collision-free digest, that entry has the same stripped text and the same properties as the argument. |
| Store.Store.DeleteString | app.py:137-143 | Absent digest gives `NotFound` and leaves the store unchanged. Otherwise exactly that key is removed from the dict and from the insertion order, and the store stays consistent. |
| Store.Store.ListStrings | app.py:68-100 | The listing is `Select` of the stored entries in insertion order, with the count and the echoed criteria. |
| Store.Store.FilterByNaturalLanguage | app.py:103-134 | A refused query is answered with the translator's error. Otherwise the listing is for the translated criteria, echoing the original query and the parsed criteria. |
| Store.Added | app.py:56 | Adding an entry under a new key keeps the store consistent and appends the entry to `values()`. |
| Store.Removed | app.py:142 | Removing a stored key keeps the store consistent. |
| Store.ValuesHoldEveryEntry | app.py:65-76 | Every stored entry appears in `values()`. |
| Store.OneEntryPerText | app.py:45-56 | No two stored entries share a stripped text. |
| Store.CreateThenGet | app.py:40-65 | Creating a new value and then fetching it by the same value returns the created entry. Its id is the digest and its properties are the value's analysis. |
| Store.CreateTwice | app.py:40-57 | Creating two values with the same stripped text: the first succeeds, the second is refused with `Conflict`, and the store holds only the first entry. |
| Store.DeleteTwice | app.py:137-143 | Deleting a stored value succeeds. A second delete, or a fetch, of the same value answers `NotFound`. |

## Left out

- HTTP layer:
  - FastAPI routing, the pydantic request model, `HTTPException` and the status codes are not modelled. Refusals are the datatype tags `InvalidValue`, `Conflict`, `NotFound` and `ParseError`.
  - Because of route order, `/strings/filter-by-natural-language` is shadowed by `/strings/{string_value}` (app.py:59 versus app.py:102). This is a matching concern of the framework and is not modelled.
  - The `isinstance(request.value, str)` check (app.py:41) is implied by the types and has no counterpart.
- SHA-256 and its hexadecimal rendering (app.py:22, 62, 139) are not part of this model. The digest is the store's `hash` parameter. Properties that depend on collision freedom carry the hypothesis `Injective(hash)`.
- The clock read `datetime.utcnow().isoformat() + "Z"` (app.py:54) is the `createdAt` parameter of `CreateString`.
- Concurrency: the model is single-threaded, and the source has no locking either.
- Text.Lower: maps only the ASCII letters `A`–`Z`. Python's full Unicode case mapping, including characters that lower to two characters, is not modelled.
- Text.IsSpace: is the fixed set of characters for which Python's `str.isspace()` holds. It is not derived from the Unicode database.
- Text.ParseInt: accepts an optional `+` or `-` sign followed by 1 to 4300 ASCII digits. The 4300-digit limit is the default of `sys.get_int_max_str_digits()` (Python 3.10.7 and later). Python's `int()` also accepts underscores between digits and non-ASCII decimal digits; those are not modelled. The limit is not modelled as configurable.
- Store.Store.CreateString: refuses only the empty value, as the code does (app.py:41). A whitespace-only value is accepted and stored under the digest of the empty text.
- Concrete natural-language examples: only "strings longer than 5 chars" is proved on its literal text (`LongerThanFiveChars`). Others, such as "show me palindromic strings" or "gibberish with no trigger", are covered by `Translate`'s contract and by `PalindromicOnly`, not on their literal text.
- Store.Store.FilterByNaturalLanguage: the `parsed_filters` dict is echoed as the `Criteria` record it denotes. The record has `None` where the dict has no key.
