/**
 * Strings as the search sees them: lower-casing and substring containment.
 *
 * `Lower` is the ASCII restriction of JavaScript's `String.prototype.toLowerCase`:
 * only 'A'..'Z' change. `Contains` is the mathematical notion of a substring;
 * `Includes` is the left-to-right scan that `String.prototype.includes` performs,
 * proved to agree with `Contains`.
 */
module Text {

  predicate IsUpper(c: char) {
    'A' <= c <= 'Z'
  }

  /** ASCII lower-casing of one character. */
  function Lower(c: char): (r: char)
    ensures !IsUpper(r)
    ensures IsUpper(c) <==> r != c
    ensures IsUpper(c) ==> r as int - c as int == 'a' as int - 'A' as int
  {
    if IsUpper(c) then (c as int + ('a' as int - 'A' as int)) as char else c
  }

  /** Character-wise lower-casing of a string: same length, every character through `Lower`, no upper-case letter left. */
  function LowerString(s: string): (r: string)
    ensures |r| == |s|
    ensures forall i :: 0 <= i < |s| ==> r[i] == Lower(s[i])
    ensures forall i :: 0 <= i < |r| ==> !IsUpper(r[i])
  {
    seq(|s|, i requires 0 <= i < |s| => Lower(s[i]))
  }

  /** Lower-casing twice is the same as lower-casing once. */
  lemma LowerStringIdempotent(s: string)
    ensures LowerString(LowerString(s)) == LowerString(s)
  {
  }

  /** Lower-casing commutes with taking a slice. */
  lemma LowerStringSlice(s: string, i: int, j: int)
    requires 0 <= i <= j <= |s|
    ensures LowerString(s[i..j]) == LowerString(s)[i..j]
  {
  }

  /** `t` occurs in `s` starting at index `i`. */
  predicate OccursAt(s: string, t: string, i: int) {
    0 <= i && i + |t| <= |s| && s[i..i + |t|] == t
  }

  /** `t` is a substring of `s`. */
  ghost predicate Contains(s: string, t: string) {
    exists i :: OccursAt(s, t, i)
  }

  /** Once `t` does not start `s`, every occurrence of `t` in `s` is an occurrence in `s[1..]`, shifted by one. */
  lemma ContainsTail(s: string, t: string)
    requires |s| > 0 && !OccursAt(s, t, 0)
    ensures Contains(s, t) <==> Contains(s[1..], t)
  {
    if Contains(s, t) {
      var i :| OccursAt(s, t, i);
      assert i > 0;
      assert s[1..][i - 1..i - 1 + |t|] == s[i..i + |t|];
      assert OccursAt(s[1..], t, i - 1);
    }
    if Contains(s[1..], t) {
      var i :| OccursAt(s[1..], t, i);
      assert s[1..][i..i + |t|] == s[i + 1..i + 1 + |t|];
      assert OccursAt(s, t, i + 1);
    }
  }

  /** The scan `s.includes(t)`: try every start position from the left. */
  function Includes(s: string, t: string): (r: bool)
    ensures r <==> Contains(s, t)
    decreases |s|
  {
    if |t| > |s| then
      assert forall i :: !OccursAt(s, t, i);
      false
    else if s[..|t|] == t then
      assert OccursAt(s, t, 0);
      true
    else
      ContainsTail(s, t);
      Includes(s[1..], t)
  }

  /** The empty string occurs in every string, as with `"abc".includes("")`. */
  lemma EmptyIsIncluded(s: string)
    ensures Includes(s, [])
  {
  }

  /** An exact occurrence is also an occurrence once both sides are lower-cased. */
  lemma ContainsLowered(s: string, t: string)
    requires Contains(s, t)
    ensures Contains(LowerString(s), LowerString(t))
  {
    var i :| OccursAt(s, t, i);
    LowerStringSlice(s, i, i + |t|);
    assert OccursAt(LowerString(s), LowerString(t), i);
  }

  /** A string that lacks the first character of `t` cannot contain `t`. */
  lemma MissingFirstCharacter(s: string, t: string)
    requires |t| > 0 && t[0] !in s
    ensures !Contains(s, t)
  {
  }
}
