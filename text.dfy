/**
 * The string primitives the service relies on: `str.lower()` restricted to ASCII,
 * the whitespace set of `str.split()` / `str.strip()` / regex `\s`, slicing
 * `value[::-1]`, and the substring test `needle in hay`.
 */
module Text {

  /** `c.lower()` for the ASCII letters; every other character is left as it is. */
  function LowerChar(c: char): (d: char)
    ensures 'A' <= c <= 'Z' ==> 'a' <= d <= 'z' && d as int - c as int == 32
    ensures !('A' <= c <= 'Z') ==> d == c
  {
    if 'A' <= c <= 'Z' then (c as int + 32) as char else c
  }

  /** `s.lower()`, character by character. */
  function Lower(s: string): (r: string)
    ensures |r| == |s|
    ensures forall i :: 0 <= i < |s| ==> r[i] == LowerChar(s[i])
  {
    seq(|s|, i requires 0 <= i < |s| => LowerChar(s[i]))
  }

  /** Lower-casing twice is lower-casing once. */
  lemma LowerIdempotent(s: string)
    ensures Lower(Lower(s)) == Lower(s)
  {
    assert forall i :: 0 <= i < |s| ==> LowerChar(LowerChar(s[i])) == LowerChar(s[i]);
  }

  /** A string without upper-case ASCII letters is its own lower-case form. */
  lemma LowerOfLower(s: string)
    requires forall i :: 0 <= i < |s| ==> !('A' <= s[i] <= 'Z')
    ensures Lower(s) == s
  {
  }

  /**
   * Python's `str.isspace()`, which is the separator set of `str.split()`,
   * what `str.strip()` removes, and what the regex class `\s` matches on `str`.
   */
  predicate IsSpace(c: char) {
    var n := c as int;
    (0x09 <= n <= 0x0D) || (0x1C <= n <= 0x20) || n == 0x85 || n == 0xA0 || n == 0x1680 ||
    (0x2000 <= n <= 0x200A) || n == 0x2028 || n == 0x2029 || n == 0x202F || n == 0x205F ||
    n == 0x3000
  }

  /** Some character of `s` is not whitespace: `s.strip()` is non-empty, hence truthy. */
  predicate HasNonSpace(s: string) {
    exists i :: 0 <= i < |s| && !IsSpace(s[i])
  }

  /** `s[::-1]`. */
  function Reverse(s: string): (r: string)
    ensures |r| == |s|
    ensures forall i :: 0 <= i < |s| ==> r[i] == s[|s| - 1 - i]
  {
    seq(|s|, i requires 0 <= i < |s| => s[|s| - 1 - i])
  }

  /** `s` starts with `p`. */
  predicate IsPrefix(p: string, s: string) {
    |p| <= |s| && s[..|p|] == p
  }

  /** `p in s` for strings: `p` occurs somewhere in `s` as a contiguous block. */
  predicate Contains(s: string, p: string)
    decreases |s|
  {
    IsPrefix(p, s) || (|s| > |p| && Contains(s[1..], p))
  }

  /** An occurrence of `p` in `s` starting at index `i`. */
  predicate OccursAt(s: string, p: string, i: int) {
    0 <= i && i + |p| <= |s| && s[i..i + |p|] == p
  }

  /** The scan `Contains` finds an occurrence exactly when there is one. */
  lemma {:induction false} ContainsIff(s: string, p: string)
    ensures Contains(s, p) <==> exists i :: OccursAt(s, p, i)
    decreases |s|
  {
    if IsPrefix(p, s) {
      assert OccursAt(s, p, 0);
    } else if |s| > |p| {
      ContainsIff(s[1..], p);
      if Contains(s[1..], p) {
        var i :| OccursAt(s[1..], p, i);
        assert forall k :: 0 <= k < |p| ==> p[k] == s[i + 1 + k];
        assert OccursAt(s, p, i + 1);
      }
      if i :| OccursAt(s, p, i) {
        assert i != 0;
        assert forall k :: 0 <= k < |p| ==> p[k] == s[1..][i - 1 + k];
        assert OccursAt(s[1..], p, i - 1);
      }
    }
  }

  /** An occurrence at a known index makes `Contains` true. */
  lemma ContainsAt(s: string, p: string, i: int)
    requires OccursAt(s, p, i)
    ensures Contains(s, p)
  {
    ContainsIff(s, p);
  }

  /** The empty string occurs in every string; nothing longer occurs in a shorter string. */
  lemma ContainsLength(s: string, p: string)
    ensures p == [] ==> Contains(s, p)
    ensures |p| > |s| ==> !Contains(s, p)
  {
    ContainsIff(s, p);
    if p == [] {
      assert OccursAt(s, p, 0);
    }
  }

  /** A string that misses one of the characters of `p` does not contain `p`. */
  lemma NotContainsChar(s: string, p: string, i: int)
    requires 0 <= i < |p| && p[i] !in s
    ensures !Contains(s, p)
  {
    ContainsIff(s, p);
  }

  /** The set of characters of `s`: `set(s)`. */
  function CharSet(s: string): (r: set<char>)
    ensures forall c :: c in r <==> c in s
  {
    set c | c in s
  }

  /** There are never more distinct characters than characters. */
  lemma {:induction false} CharSetBound(s: string)
    ensures |CharSet(s)| <= |s|
  {
    if s != [] {
      CharSetBound(s[1..]);
      assert CharSet(s) == {s[0]} + CharSet(s[1..]);
    }
  }
}
