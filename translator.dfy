/**
 * The query translation of `filter_by_natural_language` (main.py:132-148): the
 * lower-cased query is scanned for fixed phrases, each filling one criterion.
 * The two regular expressions are written out as scanners:
 * `re.findall(r"\d+", q)[0]` is the first run of digits, and
 * `re.search(r"letter\s+([a-z])", q)` is the first `letter`, a whitespace run
 * and a lower-case ASCII letter.
 */
module Translator {
  import opened Wrappers
  import opened Text
  import opened Filter

  /** Why a query yields no criteria. */
  datatype NLError =
    | Unparsable  // no phrase matched: the 400 "Unable to parse" of main.py:147-148
    | NoNumber    // "longer than" without any digit: `[0]` on an empty list raises IndexError
    | TooManyDigits  // `int` refuses a digit string longer than Python's conversion limit: ValueError
    | NameError   // `re` is used but never imported (main.py:140,143)

  // ---------------------------------------------------------------------------
  // The first number: `int(re.findall(r"\d+", q)[0])`

  predicate IsDigit(c: char) {
    '0' <= c <= '9'
  }

  /** The end of the digit run that starts at `i`. */
  function DigitRunEnd(q: string, i: nat): (j: nat)
    requires i <= |q|
    ensures i <= j <= |q|
    ensures forall k :: i <= k < j ==> IsDigit(q[k])
    ensures j == |q| || !IsDigit(q[j])
    decreases |q| - i
  {
    if i < |q| && IsDigit(q[i]) then DigitRunEnd(q, i + 1) else i
  }

  /** The index of the first digit at or after `i`. */
  function FirstDigit(q: string, i: nat): (r: Option<nat>)
    requires i <= |q|
    ensures r.Some? ==> i <= r.value < |q| && IsDigit(q[r.value])
    ensures forall k :: i <= k < |q| && (r.None? || k < r.value) ==> !IsDigit(q[k])
    decreases |q| - i
  {
    if i == |q| then None
    else if IsDigit(q[i]) then Some(i)
    else FirstDigit(q, i + 1)
  }

  function DigitValue(c: char): nat
    requires IsDigit(c)
  {
    c as int - '0' as int
  }

  /** `int(ds)` for a string of ASCII digits. */
  function DecimalValue(ds: string): nat
    requires forall k :: 0 <= k < |ds| ==> IsDigit(ds[k])
  {
    if ds == [] then 0
    else 10 * DecimalValue(ds[..|ds| - 1]) + DigitValue(ds[|ds| - 1])
  }

  /**
   * `sys.get_int_max_str_digits()` by default (Python 3.10.7 and later): `int`
   * raises ValueError on a decimal string with more digits.
   */
  const MaxStrDigits := 4300

  /**
   * `ds` is the digit run of `q` starting at `i`, which is the leftmost digit
   * and where the run cannot be extended: the first match of `\d+`.
   */
  predicate LeftmostRunAt(q: string, i: int, ds: string) {
    && 0 <= i && i + |ds| <= |q|
    && (forall k :: 0 <= k < i ==> !IsDigit(q[k]))
    && q[i..i + |ds|] == ds
    && (i + |ds| == |q| || !IsDigit(q[i + |ds|]))
  }

  /** `re.findall(r"\d+", q)[0]`: the first maximal digit run of `q`, if there is a digit at all. */
  function FirstRun(q: string): (r: Option<string>)
    ensures r.None? <==> forall k :: 0 <= k < |q| ==> !IsDigit(q[k])
    ensures r.Some? ==> r.value != [] && forall k :: 0 <= k < |r.value| ==> IsDigit(r.value[k])
    ensures r.Some? ==> exists i :: LeftmostRunAt(q, i, r.value)
  {
    match FirstDigit(q, 0)
    case None => None
    case Some(i) =>
      var ds := q[i..DigitRunEnd(q, i)];
      assert LeftmostRunAt(q, i, ds);
      Some(ds)
  }

  /** Leading zeros do not change the value `int` reads: "longer than 007" means 7. */
  lemma {:induction false} DecimalLeadingZero(ds: string)
    requires forall k :: 0 <= k < |ds| ==> IsDigit(ds[k])
    ensures DecimalValue("0" + ds) == DecimalValue(ds)
    decreases |ds|
  {
    if ds != [] {
      var front := ds[..|ds| - 1];
      DecimalLeadingZero(front);
      assert ("0" + ds)[..|ds|] == "0" + front;
    }
  }

  /** The value of the first maximal digit run of `q`, if there is a digit at all. */
  function FirstNumber(q: string): Option<nat> {
    match FirstRun(q)
    case None => None
    case Some(ds) => Some(DecimalValue(ds))
  }

  /** `str(n)`: the decimal digits of `n`. */
  function DecimalString(n: nat): (ds: string)
    ensures ds != []
    ensures forall k :: 0 <= k < |ds| ==> IsDigit(ds[k])
  {
    if n < 10 then [('0' as int + n) as char]
    else DecimalString(n / 10) + [('0' as int + n % 10) as char]
  }

  /** Reading back the digits of `n` gives `n`. */
  lemma {:induction false} DecimalRoundTrip(n: nat)
    ensures DecimalValue(DecimalString(n)) == n
  {
    if n >= 10 {
      DecimalRoundTrip(n / 10);
      var ds := DecimalString(n);
      assert ds[..|ds| - 1] == DecimalString(n / 10);
    }
  }

  /** The number after a digit-free prefix is the one found, wherever it ends. */
  lemma FirstNumberAfter(p: string, n: nat, rest: string)
    requires forall k :: 0 <= k < |p| ==> !IsDigit(p[k])
    requires rest == [] || !IsDigit(rest[0])
    ensures FirstRun(p + DecimalString(n) + rest) == Some(DecimalString(n))
    ensures FirstNumber(p + DecimalString(n) + rest) == Some(n)
  {
    var ds := DecimalString(n);
    var q := p + ds + rest;
    assert IsDigit(q[|p|]);
    var i := FirstDigit(q, 0).value;
    assert i == |p|;
    assert forall k :: |p| <= k < |p| + |ds| ==> q[k] == ds[k - |p|];
    assert |p| + |ds| < |q| ==> q[|p| + |ds|] == rest[0];
    var j := DigitRunEnd(q, i);
    assert j == |p| + |ds|;
    assert q[i..j] == ds;
    DecimalRoundTrip(n);
  }

  // ---------------------------------------------------------------------------
  // The letter: `re.search(r"letter\s+([a-z])", q).group(1)`

  /** The end of the whitespace run that starts at `i`. */
  function SpaceRunEnd(q: string, i: nat): (j: nat)
    requires i <= |q|
    ensures i <= j <= |q|
    ensures forall k :: i <= k < j ==> IsSpace(q[k])
    ensures j == |q| || !IsSpace(q[j])
    decreases |q| - i
  {
    if i < |q| && IsSpace(q[i]) then SpaceRunEnd(q, i + 1) else i
  }

  /** The pattern matches at `k`: `letter`, at least one whitespace character, then `a`-`z`. */
  predicate LetterMatchAt(q: string, k: int) {
    OccursAt(q, "letter", k) &&
    var j := SpaceRunEnd(q, k + 6);
    k + 6 < j < |q| && 'a' <= q[j] <= 'z'
  }

  /**
   * The scanner agrees with the regular expression: since no letter is
   * whitespace, `\s+` can only match the whole run.
   */
  lemma LetterMatchIsRegex(q: string, k: int)
    ensures LetterMatchAt(q, k) <==> exists m :: RegexMatch(q, k, m)
  {
    if LetterMatchAt(q, k) {
      var m := SpaceRunEnd(q, k + 6) - (k + 6);
      assert RegexMatch(q, k, m);
    }
    if m :| RegexMatch(q, k, m) {
      assert !IsSpace(q[k + 6 + m]);
    }
  }

  /**
   * `letter\s+([a-z])` matches at `k` with `m` whitespace characters between
   * the word and the captured letter.
   */
  predicate RegexMatch(q: string, k: int, m: int) {
    OccursAt(q, "letter", k) && 1 <= m && k + 6 + m < |q| && 'a' <= q[k + 6 + m] <= 'z' &&
    forall i :: k + 6 <= i < k + 6 + m ==> IsSpace(q[i])
  }

  /** The leftmost position at or after `i` where the pattern matches. */
  function FindLetter(q: string, i: nat): (r: Option<nat>)
    requires i <= |q|
    ensures r.Some? ==> i <= r.value < |q| && LetterMatchAt(q, r.value)
    ensures forall k :: i <= k < |q| && (r.None? || k < r.value) ==> !LetterMatchAt(q, k)
    decreases |q| - i
  {
    if i == |q| then None
    else if LetterMatchAt(q, i) then Some(i)
    else FindLetter(q, i + 1)
  }

  /** `match.group(1)` of the first match, if any: the letter after the leftmost match. */
  function Letter(q: string): (r: Option<char>)
    ensures r.Some? <==> exists k :: LetterMatchAt(q, k)
    ensures r.Some? ==>
      exists k :: LetterMatchAt(q, k) && (forall j :: 0 <= j < k ==> !LetterMatchAt(q, j)) && r.value == q[SpaceRunEnd(q, k + 6)]
    ensures r.Some? ==> 'a' <= r.value <= 'z'
  {
    match FindLetter(q, 0)
    case None => None
    case Some(k) => Some(q[SpaceRunEnd(q, k + 6)])
  }

  // ---------------------------------------------------------------------------
  // The translation

  /**
   * main.py:132-148 with its regular expressions in working order: each phrase
   * found in the lower-cased query fills one criterion, and a query matching
   * none of them is unparsable.
   */
  function Translate(query: string): (r: Result<Criteria, NLError>)
    ensures r != Failure(NameError)
    ensures r.Success? ==> r.value != NoCriteria && r.value.maxLength.None?
  {
    Scan(Lower(query))
  }

  /** The phrase scan of main.py:135-148 over the already lower-cased query `q`. */
  function Scan(q: string): (r: Result<Criteria, NLError>)
    ensures r != Failure(NameError)
    ensures r.Success? ==> r.value != NoCriteria && r.value.maxLength.None?
  {
    var palindrome := if Contains(q, "palindrom") then Some(true) else None;
    var words := if Contains(q, "single word") || Contains(q, "one word") then Some(1) else None;
    var run := FirstRun(q);
    if Contains(q, "longer than") && run.None? then Failure(NoNumber)
    else if Contains(q, "longer than") && |run.value| > MaxStrDigits then Failure(TooManyDigits)
    else
      var minLength := if Contains(q, "longer than") then Some(DecimalValue(run.value) + 1) else None;
      var letter := if Contains(q, "contain") && Letter(q).Some? then Some([Letter(q).value]) else None;
      if palindrome.None? && words.None? && minLength.None? && letter.None? then Failure(Unparsable)
      else Success(Criteria(palindrome, minLength, None, words, letter))
  }

  /** Upper and lower case give the same translation. */
  lemma TranslateIgnoresCase(query: string)
    ensures Translate(query) == Translate(Lower(query))
  {
    LowerIdempotent(query);
  }

  /**
   * What a query can produce: `is_palindrome` is only ever `true` (there is no
   * negation), `word_count` only 1, `max_length` never, `min_length` at least
   * 1, and `contains_character` one lower-case letter.
   */
  lemma TranslateRange(query: string)
    requires Translate(query).Success?
    ensures var c := Translate(query).value;
      && c.isPalindrome != Some(false)
      && c.maxLength.None?
      && (c.wordCount.None? || c.wordCount == Some(1))
      && (c.minLength.None? || c.minLength.value >= 1)
      && (c.containsCharacter.None? || (|c.containsCharacter.value| == 1 && 'a' <= c.containsCharacter.value[0] <= 'z'))
      && c != NoCriteria
  {
  }

  /** When the query fails: a length phrase without a usable number, or no phrase at all. */
  lemma TranslateFailure(query: string)
    ensures var q := Lower(query);
      var r := Translate(query);
      && r != Failure(NameError)
      && (r == Failure(NoNumber) <==> Contains(q, "longer than") && forall k :: 0 <= k < |q| ==> !IsDigit(q[k]))
      && (r == Failure(TooManyDigits) <==>
            Contains(q, "longer than") && FirstRun(q).Some? && |FirstRun(q).value| > MaxStrDigits)
      && (r == Failure(Unparsable) <==>
            !Contains(q, "palindrom") && !Contains(q, "single word") && !Contains(q, "one word") &&
            !Contains(q, "longer than") && !(Contains(q, "contain") && exists k :: LetterMatchAt(q, k)))
  {
  }

  /** Which phrase sets which of the other criteria, and to what value, when the query succeeds. */
  lemma TranslateOutcome(query: string)
    requires Translate(query).Success?
    ensures var q := Lower(query);
      var c := Translate(query).value;
      && (c.isPalindrome == Some(true) <==> Contains(q, "palindrom"))
      && (c.wordCount == Some(1) <==> Contains(q, "single word") || Contains(q, "one word"))
      && (c.minLength.Some? <==> Contains(q, "longer than"))
      && (c.minLength.Some? ==> c.minLength == Some(FirstNumber(q).value + 1))
  {
  }

  /** `contains_character` is set when "contain" occurs and the pattern matches, to the letter after the leftmost match. */
  lemma TranslateLetter(query: string)
    requires Translate(query).Success?
    ensures var q := Lower(query);
      var c := Translate(query).value;
      && (c.containsCharacter.Some? <==> Contains(q, "contain") && exists k :: LetterMatchAt(q, k))
      && (c.containsCharacter.Some? ==> c.containsCharacter == Some([Letter(q).value]))
  {
  }

  // ---------------------------------------------------------------------------
  // The translation as the file is written

  /**
   * main.py:132-148 as written: the module `re` is never imported, so reaching
   * line 140 or line 143 raises `NameError` before any criterion is used.
   */
  function TranslateAsWritten(query: string): (r: Result<Criteria, NLError>)
    ensures r != Failure(NoNumber) && r != Failure(TooManyDigits)
    ensures r.Success? ==> r.value != NoCriteria && r.value.minLength.None? && r.value.containsCharacter.None?
  {
    var q := Lower(query);
    var palindrome := if Contains(q, "palindrom") then Some(true) else None;
    var words := if Contains(q, "single word") || Contains(q, "one word") then Some(1) else None;
    if Contains(q, "longer than") || Contains(q, "contain") then Failure(NameError)
    else if palindrome.None? && words.None? then Failure(Unparsable)
    else Success(Criteria(palindrome, None, None, words, None))
  }

  /** Without the two regex phrases the file as written and the working translation agree. */
  lemma AsWrittenAgrees(query: string)
    requires !Contains(Lower(query), "longer than") && !Contains(Lower(query), "contain")
    ensures TranslateAsWritten(query) == Translate(query)
  {
  }

  /** Every query that mentions a length or a letter fails as written. */
  lemma AsWrittenFailsOnRegex(query: string)
    requires Contains(Lower(query), "longer than") || Contains(Lower(query), "contain")
    ensures TranslateAsWritten(query) == Failure(NameError)
  {
  }

  /** What the scanners find in "strings longer than 10". */
  lemma LongerThanTenFound(q: string)
    requires q == "strings longer than 10"
    ensures Contains(q, "longer than") && FirstNumber(q) == Some(10)
  {
    assert q[8..19] == "longer than";
    ContainsAt(q, "longer than", 8);
    assert DecimalString(10) == "10";
    assert q == "strings longer than " + DecimalString(10) + "";
    FirstNumberAfter("strings longer than ", 10, "");
  }

  /** "strings longer than 10": NameError as written, `min_length` 11 once `re` is imported. */
  lemma LongerThanTen(query: string)
    requires query == "strings longer than 10"
    ensures TranslateAsWritten(query) == Failure(NameError)
    ensures Translate(query).Success? && Translate(query).value.minLength == Some(11)
  {
    LowerOfLower(query);
    var q := Lower(query);
    LongerThanTenFound(q);
  }

  /** A query naming no phrase is unparsable. */
  lemma NothingRecognised(query: string)
    requires query == "xyz abc"
    ensures Translate(query) == Failure(Unparsable)
  {
    LowerOfLower(query);
    var q := Lower(query);
    ContainsLength(q, "palindrom");
    ContainsLength(q, "single word");
    ContainsLength(q, "one word");
    ContainsLength(q, "longer than");
    assert 'o' !in q;
    NotContainsChar(q, "contain", 1);
  }

  /** There is no negation and no conflict detection: "not palindrome" still asks for palindromes. */
  lemma NegationIgnored(query: string)
    requires query == "palindrome but not palindrome"
    ensures Translate(query).Success? && Translate(query).value.isPalindrome == Some(true)
  {
    LowerOfLower(query);
    var q := Lower(query);
    NegationIgnoredScan(q);
  }

  lemma NegationIgnoredScan(q: string)
    requires q == "palindrome but not palindrome"
    ensures Contains(q, "palindrom") && !Contains(q, "longer than")
  {
    assert q[..9] == "palindrom";
    ContainsAt(q, "palindrom", 0);
    assert 'g' !in q;
    NotContainsChar(q, "longer than", 3);
  }
}
