# String analyzer service: a Dafny model of its core

The service takes strings and computes a fixed set of properties for each one:
- length
- palindrome test
- number of distinct characters
- word count
- SHA-256 digest
- character frequency map

It keeps the analysed records in an in-memory dictionary, `STRING_DICT`, keyed by the digest of the value. It answers listing queries given either as structured parameters or as a short English sentence.

This project models the four parts of `main.py` that do the work:

- **The analyzer** (`analyzer.dfy`, module `Analyzer`). This is the property computation of `analyze_string` (main.py:54-60) and the record it builds (main.py:62-74). It is written as pure functions, with lemmas stating what each property means.
- **The record store** (`store.dfy`, module `Store`). The class `RecordStore` holds `STRING_DICT`. The dictionary keeps insertion order, so the class stores it as a `map` from digest to record plus a `seq` of keys in insertion order. Its methods model these operations:
  - insert (main.py:50-52, 76)
  - lookup (main.py:85-89)
  - delete (main.py:165-167)
  - the filtering loop (main.py:100-127)
  - the natural-language listing (main.py:132-156)

  Each method is proved against the state-level functions `Values()` and `Select`. The invariant `Valid()` holds throughout: every key is listed once, and every record sits under the digest of its value, which is also its id. A second invariant, `Analyzed()`, is also preserved: every stored record is exactly what the analysis produces for its value.
- **The structured filter** (`filter.dfy`, module `Filter`). This is the test that each stored record must pass (main.py:103-112) and the order-preserving selection it induces. It also includes the `filters_applied` echo (main.py:115-121).
- **The natural-language translator** (`translator.dfy`, module `Translator`). This is the phrase scan of `filter_by_natural_language` (main.py:132-148). Its two regular expressions become explicit scanners. The `\d+` scanner is proved to return the leftmost maximal digit run (`FirstRun`); the `letter\s+([a-z])` scanner is proved to match exactly where the pattern does and to report the leftmost match (`LetterMatchIsRegex`, `Letter`). `int` of the first digit run fails on more than 4300 digits, as Python's default limit on integer-string conversion makes it fail.

Support modules:
- `text.dfy` (module `Text`) holds the Python string primitives the core relies on:
  - ASCII `str.lower`
  - the `str.isspace` character set
  - slicing reversal
  - the substring operator `in`, proved equivalent to "occurs at some index"
  - `set(s)`
- `wrappers.dfy` holds `Option` and `Result`.

Inputs the core cannot compute itself are parameters:
- SHA-256 (main.py:16-18) is the store's constructor argument `hash`. `Valid()` requires it to be injective.
- The `datetime.now` stamp (main.py:59) is an argument `stamp` of `Insert`.

### Where the code and the specification differ

The model follows the code in each of these cases:

- `unique_characters` counts the distinct characters of the lower-cased value (main.py:57). The specification calls it case-sensitive.
- `word_count` is `len(value.split() if value.strip() else 0)` (main.py:58). For an empty or all-whitespace value this is `len(0)`, which raises `TypeError`, so nothing is stored. The specification says such a value has 0 words. In the model, `Analyzer.WordCount` and `Analyzer.Analyze` return `Failure(BlankValue)`, and `Store.RecordStore.Insert` then leaves the store unchanged.
- `contains_character` is a substring test on the value, and an empty string filters nothing (main.py:111). The specification describes a one-character lookup in the frequency map, with an error for longer input.
- The translator has no negation and no conflict detection. "palindrome but not palindrome" asks for palindromes (`Translator.NegationIgnored`). The specification expects `ConflictingFilters` there.
- The translator only recognises these phrases:
  - "palindrom"
  - "single word" / "one word"
  - "longer than" followed by the first number in the query
  - "contain" together with `letter <a-z>`

  The specification lists more phrases.
- Structured parameters are never rejected. A minimum above the maximum selects nothing (`Filter.EmptyLengthRange`), as the specification says.

## Model

| member | source | states |
|---|---|---|
| Text.ContainsIff | main.py:135-139 | the substring test `p in s` holds exactly when `p` occurs at some index of `s` |
| Analyzer.IsPalindrome | main.py:56 | the empty string and every one-character string are palindromes |
| Analyzer.PalindromeMirror | main.py:54-56 | `value[::-1].lower() == value.lower()` holds iff each character equals its mirror image up to ASCII case |
| Analyzer.PalindromeIgnoresCase | main.py:56 | a value and its lower-cased form get the same palindrome verdict |
| Analyzer.RacecarIsPalindrome | main.py:56 | "Racecar" is a palindrome and "hello world" is not |
| Analyzer.UniqueCharacters | main.py:57 | `len(set(value.lower()))` is at most the length, and positive for a non-empty value |
| Analyzer.UniqueCharactersMeaning | main.py:57 | the count equals the number of distinct lower-cased forms of the value's characters |
| Analyzer.Tokens | main.py:58 | `split()` yields at most as many tokens as there are characters |
| Analyzer.TokensCount | main.py:58 | the number of tokens of `split()` equals the number of word starts, counted independently |
| Analyzer.TokensWellFormed | main.py:58 | every token of `split()` is non-empty and free of whitespace |
| Analyzer.TokensEmpty | main.py:58 | `split()` is empty exactly when `strip()` is empty |
| Analyzer.WordCount | main.py:58 | a word count, when there is one, lies between 1 and the length |
| Analyzer.WordCountMeaning | main.py:58 | the word count fails exactly on a blank value and otherwise is the number of word starts, at least 1 |
| Analyzer.TwoWords | main.py:58 | "a b" has two words |
| Analyzer.BlankWordCount | main.py:58 | "" and " \t" make the word count raise |
| Analyzer.OccurrencesMultiset | main.py:60 | `value.count(c)` is the multiplicity of `c` in the value |
| Analyzer.FrequencyMap | main.py:60 | the frequency map has at most as many entries as the value has characters |
| Analyzer.FrequencyMapMeaning | main.py:60 | the frequency map's keys are exactly the value's characters, each mapped to its positive multiplicity |
| Analyzer.FrequencyTotal | main.py:60 | the counts of the frequency map add up to the length |
| Analyzer.Analyze | main.py:54-60 | the analysis fails exactly when the value is blank |
| Analyzer.AnalyzeConsistent | main.py:54-60 | a successful analysis has the value's length, the given digest, the mirror palindrome verdict, unique characters equal to the size of `set(value.lower())` and between 1 and the length, the word-start count, and a frequency map over the value's characters summing to its length |
| Analyzer.NewRecord | main.py:62-74 | the record fails exactly on a blank value; otherwise `id` and `sha256_hash` are the digest, and value and `created_at` are the inputs |
| Analyzer.NewRecordDeterministic | main.py:54-74 | analysing a value again gives the same record except for the creation stamp |
| Filter.Matches | main.py:103-112 | with no parameter every record passes, and with a minimum above the maximum none does |
| Filter.Select | main.py:101-113 | the selection is never longer than the store |
| Filter.SelectMembers | main.py:101-113 | a record is selected iff it is in the store and passes every supplied test |
| Filter.SelectAppend | main.py:101-113 | selection distributes over concatenation, so the result keeps store order |
| Filter.SelectLength | main.py:101-113 | the result is no longer than the store, and equally long iff every record passes |
| Filter.SelectAll | main.py:101-113 | when every record passes, the result is the whole store |
| Filter.AllUnset | main.py:103-112 | with no parameter, or only an empty `contains_character`, every record is listed |
| Filter.EmptyLengthRange | main.py:105-108 | `min_length > max_length` selects nothing, without an error |
| Filter.EmptyCharacterIsUnset | main.py:111 | an empty `contains_character` selects the same records as an absent one |
| Filter.SelectSame | main.py:101-113 | two criteria that agree on every record select the same records |
| Filter.FiltersApplied | main.py:115-121 | the keys of `filters_applied` are exactly the names of the supplied parameters |
| Filter.FiltersAppliedValues | main.py:115-121 | each supplied parameter is echoed with its value, and the echo is empty iff none is supplied |
| Translator.DigitRunEnd | main.py:140 | the scan ends at the end of the maximal digit run |
| Translator.FirstDigit | main.py:140 | the position found is a digit, and no digit comes before it |
| Translator.FirstRun | main.py:140 | `re.findall(r"\d+", q)` is empty iff `q` has no digit; otherwise its first element is the leftmost maximal run of digits |
| Translator.DecimalLeadingZero | main.py:140 | a leading zero does not change the value `int` reads from a digit string |
| Translator.DecimalRoundTrip | main.py:140 | `int(str(n)) == n` |
| Translator.FirstNumberAfter | main.py:140 | `re.findall(r"\d+", q)[0]` of a digit-free prefix, the digits of `n` and a non-digit is `n` |
| Translator.SpaceRunEnd | main.py:143 | the scan ends at the end of the maximal whitespace run |
| Translator.LetterMatchIsRegex | main.py:143 | the scanner matches at `k` iff `letter\s+([a-z])` matches at `k` for some whitespace length |
| Translator.FindLetter | main.py:143 | the position found is the leftmost match |
| Translator.Letter | main.py:143-145 | a letter is found iff the pattern matches somewhere; it is the letter after the leftmost match, a lower-case ASCII letter |
| Translator.Translate | main.py:132-148 | a translation never raises NameError, and a successful one is non-empty and has no maximum length |
| Translator.Scan | main.py:135-148 | the phrase scan of a lower-cased query never raises NameError, and a successful one is non-empty with no maximum length |
| Translator.TranslateIgnoresCase | main.py:132 | a query and its lower-cased form translate alike |
| Translator.TranslateRange | main.py:132-148 | a translation never asks for non-palindromes or a maximum length; it asks for word count 1, a minimum of at least 1, and one lower-case letter; and it is never empty |
| Translator.TranslateFailure | main.py:132-148 | never NameError; NoNumber iff "longer than" occurs without any digit; TooManyDigits iff it occurs and the first digit run has more than 4300 digits; Unparsable iff no phrase matches; so it succeeds in every other case |
| Translator.TranslateOutcome | main.py:135-141 | on success `is_palindrome`, `word_count` and `min_length` are set iff their phrases occur, with `min_length` one more than the first number |
| Translator.TranslateLetter | main.py:142-145 | on success `contains_character` is set iff "contain" occurs and the pattern matches, and then it is the letter after the leftmost match |
| Translator.TranslateAsWritten | main.py:132-148 | as written, a translation never reaches a number or a letter: a success sets neither `min_length` nor `contains_character` and is non-empty |
| Translator.AsWrittenAgrees | main.py:132-148 | without "longer than" and "contain", the file as written and the working translation agree |
| Translator.AsWrittenFailsOnRegex | main.py:139-145 | as written, every query mentioning "longer than" or "contain" raises NameError |
| Translator.LongerThanTen | main.py:139-141 | "strings longer than 10" raises NameError as written, and translates to `min_length` 11 once `re` is imported |
| Translator.NothingRecognised | main.py:147-148 | a query with no phrase is unparsable |
| Translator.NegationIgnored | main.py:135-136 | "palindrome but not palindrome" still asks for palindromes |
| Store.AddEntry | main.py:76 | adding a record under a fresh digest keeps the store consistent, appends it to the values, and keeps any per-entry property the new record shares |
| Store.RemoveEntry | main.py:166 | popping a key keeps the store consistent, removes exactly its record from the values, and keeps any per-entry property |
| Store.RecordStore.constructor | main.py:13 | the store starts empty and valid |
| Store.RecordStore.ValuesUnique | main.py:50-52 | stored ids are the digests of their values, and no value is stored twice |
| Store.RecordStore.Insert | main.py:50-76 | a known digest is a Conflict and a blank value an error, both leaving the store unchanged; otherwise exactly the analysed record is added under its digest and appended last, and the invariants are kept |
| Store.RecordStore.Get | main.py:85-89 | succeeds iff the digest is a key, returning the record stored for that value, which is its analysis; NotFound otherwise; the store is not changed |
| Store.RecordStore.Delete | main.py:165-167 | NotFound and no change when the digest is absent; otherwise exactly that entry is removed, the others keep their order, and the invariants are kept |
| Store.RecordStore.GetFiltered | main.py:100-127 | the loop returns the selection of the stored values in store order, its count, and `filters_applied` |
| Store.RecordStore.FilterByNaturalLanguage | main.py:132-156 | a failed translation is returned as the error; otherwise the listing of the parsed criteria, echoing the query and the criteria |
| Store.InsertTwiceConflicts | main.py:50-52 | inserting a value twice adds one record, and the second call is a Conflict |
| Store.ReinsertKeepsIdentity | main.py:50-76 | insert, delete, insert gives the same id and properties under the new stamp, with the record last in order |

## Left out

- HTTP transport is not modelled: FastAPI routing, status codes, `HTTPException`/`JSONResponse`, request JSON parsing and `schema.StringInput` validation (main.py:1-49, 80, 92, 130, 160). `schema.py` is not part of this model. The model's error values stand for the status codes. Routing order is among the transport details left out: the route `/strings/{string_value}` (main.py:80) is declared before `/strings/filter-by-natural-language` (main.py:130). The model calls each handler directly.
- SHA-256 and UTF-8 encoding (main.py:16-18) are a caller-supplied function `hash`, assumed injective. Collisions are taken not to occur.
- `datetime.now(timezone.utc)` (main.py:59) is a caller-supplied stamp. No monotonicity is assumed.
- Unicode case mapping is left out. `Text.Lower` maps only `A`-`Z`, where Python's `str.lower` covers all of Unicode. `\d` is ASCII digits only, where Python's `re` also matches other Unicode digits. `Text.IsSpace` is Python's full `str.isspace` set.
- The `interpreted_query` merge (main.py:151-156) is modelled as a record holding the listing, the original query and the parsed criteria. JSON shaping is not modelled.
- Concurrency: the service is a single process with one global dictionary.
- Python's limit on `int` of a long digit string is modelled at its default of 4300 digits, as in Python 3.10.7 and later (`Translator.MaxStrDigits`). Raising or lowering it at run time through `sys.set_int_max_str_digits` or `PYTHONINTMAXSTRDIGITS` is not modelled.
- Translator.LongerThanTen: states only that `min_length` is 11. The other criteria of that example are covered in general by Translator.TranslateOutcome.

## Findings

| source | as written | input that shows it | evidently intended | confidence | as-written member | corrected member |
|---|---|---|---|---|---|---|
| main.py:140-143 | `re.findall` and `re.search` are called, but `re` is never imported, so `filter_by_natural_language` raises NameError on any query with "longer than" or "contain" | "strings longer than 10" | `import re`: the query yields `min_length` 11 | not executed | Translator.TranslateAsWritten (with Translator.LongerThanTen, Translator.AsWrittenFailsOnRegex) | Translator.Translate (with Translator.TranslateFailure, Translator.TranslateOutcome, Translator.TranslateLetter), used by Store.RecordStore.FilterByNaturalLanguage |
