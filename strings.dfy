/**
 * The two string built-ins the followed-team filter relies on:
 * `String.prototype.toLowerCase` and `String.prototype.includes`.
 */
module Strings {

  /**
   * Lower-case form of one character. The upper-case letters of Basic Latin,
   * of the Latin-1 Supplement (without the multiplication sign) and of the
   * fullwidth Latin block map to their lower-case partners, which sit 32 code
   * points higher; every other character is its own lower-case form.
   */
  function Lower(c: char): char {
    if 'A' <= c <= 'Z' then (c as int + 32) as char
    else if '\U{C0}' <= c <= '\U{DE}' && c != '\U{D7}' then (c as int + 32) as char
    else if '\U{FF21}' <= c <= '\U{FF3A}' then (c as int + 32) as char
    else c
  }

  /** `s.toLowerCase()`: `Lower` applied to every character. */
  function ToLower(s: string): (r: string)
    ensures |r| == |s|
    ensures forall i :: 0 <= i < |s| ==> r[i] == Lower(s[i])
  {
    if s == [] then [] else [Lower(s[0])] + ToLower(s[1..])
  }

  /** `needle` occurs in `haystack` starting at index `i`. */
  predicate OccursAt(haystack: string, needle: string, i: int) {
    0 <= i <= |haystack| - |needle| && needle == haystack[i..i + |needle|]
  }

  /** Specification of substring search: `needle` occurs at some index of `haystack`. */
  ghost predicate Contains(haystack: string, needle: string) {
    exists i :: OccursAt(haystack, needle, i)
  }

  /** `haystack.includes(needle)`: try each start position from the left. */
  function Includes(haystack: string, needle: string): bool
    decreases |haystack|
  {
    if |needle| > |haystack| then false
    else if haystack[..|needle|] == needle then true
    else Includes(haystack[1..], needle)
  }

  /** An occurrence is either at index 0 or an occurrence in the tail, shifted by one. */
  lemma ContainsStep(haystack: string, needle: string)
    requires |needle| <= |haystack| && haystack[..|needle|] != needle
    ensures Contains(haystack, needle) <==> Contains(haystack[1..], needle)
  {
    var tail := haystack[1..];
    if Contains(tail, needle) {
      var j :| OccursAt(tail, needle, j);
      assert tail[j..j + |needle|] == haystack[j + 1..j + 1 + |needle|];
      assert OccursAt(haystack, needle, j + 1);
    }
    if Contains(haystack, needle) {
      var i :| OccursAt(haystack, needle, i);
      assert i != 0;
      assert tail[i - 1..i - 1 + |needle|] == haystack[i..i + |needle|];
      assert OccursAt(tail, needle, i - 1);
    }
  }

  /** The scan finds the needle exactly when it occurs somewhere. */
  lemma {:induction false} IncludesIffContains(haystack: string, needle: string)
    ensures Includes(haystack, needle) <==> Contains(haystack, needle)
    decreases |haystack|
  {
    if |needle| > |haystack| {
    } else if haystack[..|needle|] == needle {
      assert OccursAt(haystack, needle, 0);
    } else {
      ContainsStep(haystack, needle);
      IncludesIffContains(haystack[1..], needle);
    }
  }

  /** The empty string occurs in every string; a non-empty one never occurs in the empty string. */
  lemma EmptyNeedle(haystack: string, needle: string)
    ensures Includes(haystack, "")
    ensures needle != "" ==> !Includes("", needle)
  {
    assert haystack[..0] == "";
  }

  /** Lower-casing a lower-case character changes nothing. */
  lemma LowerIdempotent(c: char)
    ensures Lower(Lower(c)) == Lower(c)
  {
  }

  /** Lower-casing a lower-cased string changes nothing. */
  lemma ToLowerIdempotent(s: string)
    ensures ToLower(ToLower(s)) == ToLower(s)
  {
    var once := ToLower(s);
    forall i | 0 <= i < |s| ensures ToLower(once)[i] == once[i] {
      LowerIdempotent(s[i]);
    }
  }

  /** A string whose characters are the lower-case forms of those of `s`, one by one, is `s` lower-cased. */
  lemma ToLowerFromChars(s: string, lowered: string)
    requires |lowered| == |s|
    requires forall k :: 0 <= k < |s| ==> Lower(s[k]) == lowered[k]
    ensures ToLower(s) == lowered
  {
  }

  /** Only the empty string lower-cases to the empty string. */
  lemma ToLowerEmpty(s: string)
    ensures ToLower(s) == "" <==> s == ""
  {
    assert |ToLower(s)| == |s|;
  }
}
