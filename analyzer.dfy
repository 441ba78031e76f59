/**
 * The property computation of `analyze_string` (main.py:54-60) and the record it
 * builds (main.py:62-74). The SHA-256 digest and the `datetime.now` stamp are
 * computed by the caller and passed in.
 */
module Analyzer {
  import opened Wrappers
  import opened Text

  /** A hex digest as produced by `hashlib.sha256(...).hexdigest()`. */
  type Digest = string

  /** An ISO-8601 creation time, supplied by the caller. */
  type Stamp = string

  datatype Properties = Properties(
    length: nat,
    isPalindrome: bool,
    uniqueCharacters: nat,
    wordCount: nat,
    sha256Hash: Digest,
    characterFrequencyMap: map<char, nat>)

  datatype Record = Record(id: Digest, value: string, properties: Properties, createdAt: Stamp)

  /** `len(0)` raises a `TypeError` when the value is empty or all whitespace. */
  datatype AnalysisError = BlankValue

  // ---------------------------------------------------------------------------
  // is_palindrome

  /**
   * `value[::-1].lower() == value.lower()`; the empty string and every
   * one-character string pass.
   */
  predicate IsPalindrome(s: string)
    ensures |s| <= 1 ==> IsPalindrome(s)
  {
    assert |s| <= 1 ==> Reverse(s) == s;
    Lower(Reverse(s)) == Lower(s)
  }

  /** A palindrome reads the same from both ends, ignoring ASCII case. */
  lemma PalindromeMirror(s: string)
    ensures IsPalindrome(s) <==> forall i :: 0 <= i < |s| ==> LowerChar(s[i]) == LowerChar(s[|s| - 1 - i])
  {
    if forall i :: 0 <= i < |s| ==> LowerChar(s[i]) == LowerChar(s[|s| - 1 - i]) {
      assert forall i :: 0 <= i < |s| ==> Lower(Reverse(s))[i] == Lower(s)[i];
    }
  }

  /** The test ignores case: a value and its lower-cased form agree. */
  lemma PalindromeIgnoresCase(s: string)
    ensures IsPalindrome(s) == IsPalindrome(Lower(s))
  {
    PalindromeMirror(s);
    PalindromeMirror(Lower(s));
    LowerIdempotent(s);
  }

  lemma RacecarIsPalindrome()
    ensures IsPalindrome("Racecar")
    ensures !IsPalindrome("hello world")
  {
    PalindromeMirror("Racecar");
    PalindromeMirror("hello world");
    assert LowerChar("hello world"[0]) != LowerChar("hello world"[10]);
  }

  // ---------------------------------------------------------------------------
  // unique_characters

  /**
   * `len(set(value.lower()))`: there are at most as many distinct lower-cased
   * characters as characters, and at least one in a non-empty value.
   */
  function UniqueCharacters(s: string): (n: nat)
    ensures n <= |s|
    ensures |s| > 0 ==> n > 0
  {
    CharSetBound(Lower(s));
    assert |s| > 0 ==> Lower(s)[0] in CharSet(Lower(s));
    |CharSet(Lower(s))|
  }

  /** The count is the number of distinct values `LowerChar` takes on the characters of `s`. */
  lemma UniqueCharactersMeaning(s: string)
    ensures UniqueCharacters(s) == |set i | 0 <= i < |s| :: LowerChar(s[i])|
  {
    var folded := set i | 0 <= i < |s| :: LowerChar(s[i]);
    forall c | c in CharSet(Lower(s))
      ensures c in folded
    {
      var i :| 0 <= i < |s| && Lower(s)[i] == c;
    }
    assert CharSet(Lower(s)) == folded;
  }

  // ---------------------------------------------------------------------------
  // word_count

  /** `s.lstrip()`: the suffix of `s` left after its leading whitespace. */
  function SkipSpaces(s: string): (r: string)
    ensures |r| <= |s|
    ensures r != [] ==> !IsSpace(r[0])
  {
    if s != [] && IsSpace(s[0]) then SkipSpaces(s[1..]) else s
  }

  /** What `SkipSpaces` removes is a run of whitespace, and what it keeps is the rest of `s`. */
  lemma {:induction false} SkipSpacesSpec(s: string)
    ensures SkipSpaces(s) == s[|s| - |SkipSpaces(s)|..]
    ensures forall i :: 0 <= i < |s| - |SkipSpaces(s)| ==> IsSpace(s[i])
    decreases |s|
  {
    if s != [] && IsSpace(s[0]) {
      SkipSpacesSpec(s[1..]);
    }
  }

  /** The longest prefix of `s` without whitespace. */
  function LeadingWord(s: string): (w: string)
    ensures |w| <= |s|
    ensures s != [] && !IsSpace(s[0]) ==> |w| >= 1
  {
    if s == [] || IsSpace(s[0]) then [] else [s[0]] + LeadingWord(s[1..])
  }

  /** `LeadingWord` is a whitespace-free prefix that stops at whitespace or at the end. */
  lemma {:induction false} LeadingWordSpec(s: string)
    ensures LeadingWord(s) == s[..|LeadingWord(s)|]
    ensures forall i :: 0 <= i < |LeadingWord(s)| ==> !IsSpace(s[i])
    ensures |LeadingWord(s)| == |s| || IsSpace(s[|LeadingWord(s)|])
    decreases |s|
  {
    if s != [] && !IsSpace(s[0]) {
      LeadingWordSpec(s[1..]);
    }
  }

  /** `s.split()`: the maximal runs of non-whitespace characters, in order. */
  function Tokens(s: string): (ts: seq<string>)
    ensures |ts| <= |s|
    decreases |s|
  {
    var t := SkipSpaces(s);
    if t == [] then []
    else
      var w := LeadingWord(t);
      [w] + Tokens(t[|w|..])
  }

  /**
   * An independent count of the words of `s`: the positions holding a
   * non-whitespace character that starts the string or follows whitespace.
   * `afterSpace` says whether the character before `s` was whitespace.
   */
  function WordStarts(s: string, afterSpace: bool): nat
    decreases |s|
  {
    if s == [] then 0
    else (if afterSpace && !IsSpace(s[0]) then 1 else 0) + WordStarts(s[1..], IsSpace(s[0]))
  }

  /** Leading whitespace starts no word. */
  lemma {:induction false} WordStartsSkip(s: string)
    ensures WordStarts(s, true) == WordStarts(SkipSpaces(s), true)
    decreases |s|
  {
    if s != [] && IsSpace(s[0]) {
      WordStartsSkip(s[1..]);
    }
  }

  /** A word of non-whitespace characters contributes at most one start. */
  lemma {:induction false} WordStartsWord(t: string, n: nat, afterSpace: bool)
    requires n <= |t|
    requires forall i :: 0 <= i < n ==> !IsSpace(t[i])
    requires n == |t| || IsSpace(t[n])
    ensures WordStarts(t, afterSpace) == (if afterSpace && n > 0 then 1 else 0) + WordStarts(t[n..], true)
    decreases n
  {
    if n == 0 {
      if t != [] {
        assert IsSpace(t[0]);
      }
    } else {
      WordStartsWord(t[1..], n - 1, false);
      assert t[1..][n - 1..] == t[n..];
    }
  }

  /** `len(s.split())` is the number of word starts. */
  lemma {:induction false} TokensCount(s: string)
    ensures |Tokens(s)| == WordStarts(s, true)
    decreases |s|
  {
    var t := SkipSpaces(s);
    WordStartsSkip(s);
    if t != [] {
      var w := LeadingWord(t);
      LeadingWordSpec(t);
      WordStartsWord(t, |w|, true);
      TokensCount(t[|w|..]);
    }
  }

  /** A non-empty string without whitespace. */
  predicate IsWord(w: string) {
    w != [] && forall i :: 0 <= i < |w| ==> !IsSpace(w[i])
  }

  /** Every token is a non-empty run free of whitespace. */
  lemma {:induction false} TokensWellFormed(s: string)
    ensures forall k :: 0 <= k < |Tokens(s)| ==> IsWord(Tokens(s)[k])
    decreases |s|
  {
    var t := SkipSpaces(s);
    if t != [] {
      var w := LeadingWord(t);
      LeadingWordSpec(t);
      var rest := Tokens(t[|w|..]);
      TokensWellFormed(t[|w|..]);
      assert Tokens(s) == [w] + rest;
      assert IsWord(w);
      forall k | 0 <= k < |Tokens(s)|
        ensures IsWord(Tokens(s)[k])
      {
        if k > 0 {
          assert Tokens(s)[k] == rest[k - 1];
        }
      }
    }
  }

  /** `s.split()` is empty exactly when `s.strip()` is empty. */
  lemma {:induction false} TokensEmpty(s: string)
    ensures Tokens(s) == [] <==> !HasNonSpace(s)
    decreases |s|
  {
    var t := SkipSpaces(s);
    SkipSpacesSpec(s);
    if t != [] {
      assert !IsSpace(s[|s| - |t|]);
    } else {
      assert forall i :: 0 <= i < |s| ==> IsSpace(s[i]);
    }
  }

  /**
   * `len(value.split() if value.strip() else 0)`: the token count when `value`
   * has a non-whitespace character; otherwise `len(0)` raises.
   */
  function WordCount(s: string): (r: Result<nat, AnalysisError>)
    ensures r.Success? ==> 1 <= r.value <= |s|
  {
    TokensEmpty(s);
    if HasNonSpace(s) then Success(|Tokens(s)|) else Failure(BlankValue)
  }

  /** The word count is the number of word starts, and at least one, or the input is blank. */
  lemma WordCountMeaning(s: string)
    ensures WordCount(s).Failure? <==> !HasNonSpace(s)
    ensures WordCount(s).Success? ==> WordCount(s).value == WordStarts(s, true) >= 1
  {
    TokensCount(s);
    TokensEmpty(s);
  }

  lemma TwoWords()
    ensures WordCount("a b") == Success(2)
  {
    var s := "a b";
    assert !IsSpace(s[0]) && IsSpace(s[1]) && !IsSpace(s[2]);
    assert WordStarts(s, true) == 2;
    WordCountMeaning(s);
  }

  lemma BlankWordCount()
    ensures WordCount("") == Failure(BlankValue)
    ensures WordCount(" \t") == Failure(BlankValue)
  {
  }

  // ---------------------------------------------------------------------------
  // character_frequency_map

  /** `s.count(c)` for a single character `c`. */
  function Occurrences(s: string, c: char): nat
    decreases |s|
  {
    if s == [] then 0 else (if s[0] == c then 1 else 0) + Occurrences(s[1..], c)
  }

  /** `str.count` agrees with the multiset of the characters. */
  lemma {:induction false} OccurrencesMultiset(s: string, c: char)
    ensures Occurrences(s, c) == multiset(s)[c]
    decreases |s|
  {
    if s != [] {
      OccurrencesMultiset(s[1..], c);
      assert s == [s[0]] + s[1..];
    }
  }

  /** `{char: value.count(char) for char in set(value)}`. */
  function FrequencyMap(s: string): (m: map<char, nat>)
    ensures |m| <= |s|
  {
    CharSetBound(s);
    assert (map c | c in CharSet(s) :: Occurrences(s, c)).Keys == CharSet(s);
    map c | c in CharSet(s) :: Occurrences(s, c)
  }

  /** The keys are exactly the characters of `s`, each mapped to its number of occurrences. */
  lemma FrequencyMapMeaning(s: string)
    ensures FrequencyMap(s).Keys == CharSet(s)
    ensures forall c :: c in FrequencyMap(s) ==> FrequencyMap(s)[c] == multiset(s)[c] > 0
  {
    forall c | c in FrequencyMap(s)
      ensures FrequencyMap(s)[c] == multiset(s)[c] > 0
    {
      OccurrencesMultiset(s, c);
    }
  }

  /** The sum of the values of a map. */
  ghost function Total(m: map<char, nat>): nat
    decreases |m|
  {
    if m == map[] then 0
    else
      var k :| k in m;
      m[k] + Total(m - {k})
  }

  /** The sum does not depend on which key is taken first. */
  lemma {:induction false} TotalRemove(m: map<char, nat>, k: char)
    requires k in m
    ensures Total(m) == m[k] + Total(m - {k})
    decreases |m|
  {
    var j :| j in m && Total(m) == m[j] + Total(m - {j});
    if j != k {
      var mj, mk := m - {j}, m - {k};
      TotalRemove(mj, k);
      TotalRemove(mk, j);
      assert mj - {k} == mk - {j};
    }
  }

  /** The counts of the frequency map add up to the length of the value. */
  lemma {:induction false} FrequencyTotal(s: string)
    ensures Total(FrequencyMap(s)) == |s|
    decreases |s|
  {
    if s == [] {
      assert FrequencyMap(s) == map[];
    } else {
      var c, t := s[0], s[1..];
      FrequencyTotal(t);
      var m, n := FrequencyMap(s), FrequencyMap(t);
      assert c in m;
      TotalRemove(m, c);
      assert m[c] == 1 + Occurrences(t, c);
      assert m - {c} == n - {c};
      if c in CharSet(t) {
        TotalRemove(n, c);
      } else {
        assert n - {c} == n;
        OccurrencesMultiset(t, c);
      }
    }
  }

  // ---------------------------------------------------------------------------
  // The whole analysis

  /**
   * The properties main.py:54-60 compute for `value`, or the `TypeError` of
   * main.py:58 for a blank value.
   */
  function Analyze(value: string, digest: Digest): (r: Result<Properties, AnalysisError>)
    ensures r.Failure? <==> !HasNonSpace(value)
  {
    match WordCount(value)
    case Failure(e) => Failure(e)
    case Success(words) =>
      Success(Properties(
        length := |value|,
        isPalindrome := IsPalindrome(value),
        uniqueCharacters := UniqueCharacters(value),
        wordCount := words,
        sha256Hash := digest,
        characterFrequencyMap := FrequencyMap(value)))
  }

  /** A successful analysis is internally consistent with the value it describes. */
  lemma AnalyzeConsistent(value: string, digest: Digest)
    requires Analyze(value, digest).Success?
    ensures var p := Analyze(value, digest).value;
      && p.length == |value|
      && p.sha256Hash == digest
      && (p.isPalindrome <==> forall i :: 0 <= i < |value| ==> LowerChar(value[i]) == LowerChar(value[|value| - 1 - i]))
      && p.uniqueCharacters == |CharSet(Lower(value))| == |set i | 0 <= i < |value| :: LowerChar(value[i])|
      && 0 < p.uniqueCharacters <= p.length
      && p.wordCount == WordStarts(value, true) >= 1
      && p.characterFrequencyMap.Keys == CharSet(value)
      && (forall c :: c in p.characterFrequencyMap ==> p.characterFrequencyMap[c] == multiset(value)[c])
      && Total(p.characterFrequencyMap) == |value|
  {
    PalindromeMirror(value);
    UniqueCharactersMeaning(value);
    WordCountMeaning(value);
    FrequencyMapMeaning(value);
    FrequencyTotal(value);
  }

  /** The record main.py:62-74 builds, keyed and identified by `digest`. */
  function NewRecord(value: string, digest: Digest, stamp: Stamp): (r: Result<Record, AnalysisError>)
    ensures r.Failure? <==> !HasNonSpace(value)
    ensures r.Success? ==> r.value.id == r.value.properties.sha256Hash == digest
    ensures r.Success? ==> r.value.value == value && r.value.createdAt == stamp
  {
    match Analyze(value, digest)
    case Failure(e) => Failure(e)
    case Success(p) => Success(Record(digest, value, p, stamp))
  }

  /** Re-creating a record for the same value gives the same id and properties; only the stamp differs. */
  lemma NewRecordDeterministic(value: string, digest: Digest, stamp1: Stamp, stamp2: Stamp)
    requires NewRecord(value, digest, stamp1).Success?
    ensures NewRecord(value, digest, stamp2).Success?
    ensures NewRecord(value, digest, stamp2).value
         == NewRecord(value, digest, stamp1).value.(createdAt := stamp2)
  {
  }
}
