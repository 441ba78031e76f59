/**
 * The selection rule of `get_strings_filtered` (main.py:100-127): the optional
 * query parameters, the test each stored record must pass, the order-preserving
 * selection it produces, and the `filters_applied` echo.
 */
module Filter {
  import opened Wrappers
  import opened Text
  import opened Analyzer

  /** The five optional query parameters; `None` is Python's `None`. */
  datatype Criteria = Criteria(
    isPalindrome: Option<bool>,
    minLength: Option<int>,
    maxLength: Option<int>,
    wordCount: Option<int>,
    containsCharacter: Option<string>)

  /** No parameter supplied. */
  const NoCriteria := Criteria(None, None, None, None, None)

  /** A value echoed in `filters_applied`. */
  datatype FilterValue = BoolValue(b: bool) | IntValue(i: int) | TextValue(s: string)

  /**
   * The record passes every `continue` test of main.py:103-112. The character
   * test is a substring test on the value, and it is skipped when the parameter
   * is `None` or the empty string (both are falsy).
   */
  predicate Matches(r: Record, c: Criteria)
    ensures c == NoCriteria ==> Matches(r, c)
    ensures c.minLength.Some? && c.maxLength.Some? && c.minLength.value > c.maxLength.value ==> !Matches(r, c)
  {
    var p := r.properties;
    && (c.isPalindrome.Some? ==> p.isPalindrome == c.isPalindrome.value)
    && (c.minLength.Some? ==> p.length >= c.minLength.value)
    && (c.maxLength.Some? ==> p.length <= c.maxLength.value)
    && (c.wordCount.Some? ==> p.wordCount == c.wordCount.value)
    && (c.containsCharacter.Some? && c.containsCharacter.value != [] ==> Contains(r.value, c.containsCharacter.value))
  }

  /** The records of `rs` that pass, in their original order. */
  function Select(rs: seq<Record>, c: Criteria): (ts: seq<Record>)
    ensures |ts| <= |rs|
    decreases |rs|
  {
    if rs == [] then []
    else (if Matches(rs[0], c) then [rs[0]] else []) + Select(rs[1..], c)
  }

  /** A record is selected exactly when it is stored and passes every supplied test. */
  lemma {:induction false} SelectMembers(rs: seq<Record>, c: Criteria)
    ensures forall r :: r in Select(rs, c) <==> r in rs && Matches(r, c)
    decreases |rs|
  {
    if rs != [] {
      SelectMembers(rs[1..], c);
      assert rs == [rs[0]] + rs[1..];
    }
  }

  /** Selection distributes over concatenation, so it keeps the records' relative order. */
  lemma {:induction false} SelectAppend(rs: seq<Record>, ts: seq<Record>, c: Criteria)
    ensures Select(rs + ts, c) == Select(rs, c) + Select(ts, c)
    decreases |rs|
  {
    if rs == [] {
      assert rs + ts == ts;
    } else {
      SelectAppend(rs[1..], ts, c);
      assert (rs + ts)[0] == rs[0];
      assert (rs + ts)[1..] == rs[1..] + ts;
    }
  }

  /** The result is never longer than the store, and equal to it only when everything passes. */
  lemma {:induction false} SelectLength(rs: seq<Record>, c: Criteria)
    ensures |Select(rs, c)| <= |rs|
    ensures |Select(rs, c)| == |rs| <==> forall i :: 0 <= i < |rs| ==> Matches(rs[i], c)
    decreases |rs|
  {
    if rs != [] {
      SelectLength(rs[1..], c);
      if forall i :: 0 <= i < |rs| ==> Matches(rs[i], c) {
        assert forall i :: 0 <= i < |rs| - 1 ==> Matches(rs[1..][i], c) by {
          forall i | 0 <= i < |rs| - 1 ensures Matches(rs[1..][i], c) {
            assert rs[1..][i] == rs[i + 1];
          }
        }
      }
      if |Select(rs, c)| == |rs| {
        forall i | 0 <= i < |rs| ensures Matches(rs[i], c) {
          if i > 0 {
            assert rs[i] == rs[1..][i - 1];
          }
        }
      }
    }
  }

  /** Without a supplied test every record is kept. */
  lemma AllUnset(rs: seq<Record>)
    ensures Select(rs, NoCriteria) == rs
    ensures Select(rs, NoCriteria.(containsCharacter := Some([]))) == rs
  {
    SelectLength(rs, NoCriteria);
    SelectLength(rs, NoCriteria.(containsCharacter := Some([])));
    SelectAll(rs, NoCriteria);
    SelectAll(rs, NoCriteria.(containsCharacter := Some([])));
  }

  /** When every record passes, selection is the identity. */
  lemma {:induction false} SelectAll(rs: seq<Record>, c: Criteria)
    requires forall i :: 0 <= i < |rs| ==> Matches(rs[i], c)
    ensures Select(rs, c) == rs
    decreases |rs|
  {
    if rs != [] {
      assert Matches(rs[0], c);
      SelectAll(rs[1..], c);
    }
  }

  /** `min_length > max_length` selects nothing; it is not an error. */
  lemma EmptyLengthRange(rs: seq<Record>, c: Criteria)
    requires c.minLength.Some? && c.maxLength.Some? && c.minLength.value > c.maxLength.value
    ensures Select(rs, c) == []
  {
    SelectMembers(rs, c);
  }

  /** An empty `contains_character` acts as if it were not supplied. */
  lemma EmptyCharacterIsUnset(rs: seq<Record>, c: Criteria)
    requires c.containsCharacter == Some([])
    ensures Select(rs, c) == Select(rs, c.(containsCharacter := None))
  {
    SelectSame(rs, c, c.(containsCharacter := None));
  }

  /** Two criteria with the same verdict on every record select the same records. */
  lemma {:induction false} SelectSame(rs: seq<Record>, c: Criteria, d: Criteria)
    requires forall r :: Matches(r, c) == Matches(r, d)
    ensures Select(rs, c) == Select(rs, d)
    decreases |rs|
  {
    if rs != [] {
      SelectSame(rs[1..], c, d);
    }
  }

  /** The names of the supplied parameters. */
  function AppliedNames(c: Criteria): set<string> {
    (if c.isPalindrome.Some? then {"is_palindrome"} else {})
    + (if c.minLength.Some? then {"min_length"} else {})
    + (if c.maxLength.Some? then {"max_length"} else {})
    + (if c.wordCount.Some? then {"word_count"} else {})
    + (if c.containsCharacter.Some? then {"contains_character"} else {})
  }

  /** `filters_applied` (main.py:115-121): its keys are the names of the parameters that are not `None`. */
  function FiltersApplied(c: Criteria): (m: map<string, FilterValue>)
    ensures m.Keys == AppliedNames(c)
  {
    var m1 := if c.isPalindrome.Some? then map["is_palindrome" := BoolValue(c.isPalindrome.value)] else map[];
    var m2 := if c.minLength.Some? then m1["min_length" := IntValue(c.minLength.value)] else m1;
    var m3 := if c.maxLength.Some? then m2["max_length" := IntValue(c.maxLength.value)] else m2;
    var m4 := if c.wordCount.Some? then m3["word_count" := IntValue(c.wordCount.value)] else m3;
    if c.containsCharacter.Some? then m4["contains_character" := TextValue(c.containsCharacter.value)] else m4
  }

  /**
   * Each supplied parameter is echoed with its value, an empty
   * `contains_character` included although it filters nothing, and the echo is
   * empty exactly when nothing is supplied.
   */
  lemma FiltersAppliedValues(c: Criteria)
    ensures c.isPalindrome.Some? ==> FiltersApplied(c)["is_palindrome"] == BoolValue(c.isPalindrome.value)
    ensures c.minLength.Some? ==> FiltersApplied(c)["min_length"] == IntValue(c.minLength.value)
    ensures c.maxLength.Some? ==> FiltersApplied(c)["max_length"] == IntValue(c.maxLength.value)
    ensures c.wordCount.Some? ==> FiltersApplied(c)["word_count"] == IntValue(c.wordCount.value)
    ensures c.containsCharacter.Some? ==> FiltersApplied(c)["contains_character"] == TextValue(c.containsCharacter.value)
    ensures FiltersApplied(c) == map[] <==> c == NoCriteria
  {
  }
}
