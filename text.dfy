/**
 * Strings as the database compares them in a case-insensitive containment
 * lookup (`icontains`): both sides are lower-cased character by character,
 * ASCII letters only, and then searched for as a contiguous run.
 */
module Text {

  /** Lower-cases an ASCII capital letter; every other character is kept. */
  function LowerChar(c: char): (d: char)
    ensures 'A' <= c <= 'Z' ==> 'a' <= d <= 'z' && d as int == c as int + 32
    ensures !('A' <= c <= 'Z') ==> d == c
    ensures !('A' <= d <= 'Z')
  {
    if 'A' <= c <= 'Z' then (c as int + 32) as char else c
  }

  function Lower(s: string): (r: string)
    ensures |r| == |s|
    ensures forall i :: 0 <= i < |s| ==> r[i] == LowerChar(s[i])
  {
    seq(|s|, i requires 0 <= i < |s| => LowerChar(s[i]))
  }

  /** `needle` occurs in `hay` starting at position `i`. */
  predicate OccursAt(needle: string, hay: string, i: nat) {
    i + |needle| <= |hay| && hay[i..i + |needle|] == needle
  }

  /** `needle` occurs in `hay` as a contiguous run of characters. */
  predicate IsInfix(needle: string, hay: string) {
    exists i: nat :: i <= |hay| && OccursAt(needle, hay, i)
  }

  /** The `icontains` lookup: `needle` occurs in `hay`, ignoring ASCII case. */
  predicate ContainsIgnoringCase(hay: string, needle: string) {
    IsInfix(Lower(needle), Lower(hay))
  }

  /** The empty keyword is contained in every string (`LIKE '%%'`). */
  lemma EmptyIsContained(hay: string)
    ensures ContainsIgnoringCase(hay, "")
  {
    assert OccursAt(Lower(""), Lower(hay), 0);
  }
}
