/**
 * The character-level primitives the colour pipeline relies on, restricted
 * to ASCII: Python's `str.lower()`, `str.upper()`, `str.strip()`, the
 * substring test `w in s`, and the regular-expression classes `\d` and `\s`.
 */
module Ascii {

  /** `\s` of Python's `re` module and `str.isspace()`, on ASCII characters:
      space, tab, line feed, vertical tab, form feed, carriage return and the
      four separators U+001C..U+001F. */
  predicate IsSpace(c: char) {
    c == ' ' || ('\U{09}' <= c <= '\U{0D}') || ('\U{1C}' <= c <= '\U{1F}')
  }

  /** `\d` of Python's `re` module, on ASCII characters. */
  predicate IsDigit(c: char) {
    '0' <= c <= '9'
  }

  predicate AllSpace(s: string) {
    forall i :: 0 <= i < |s| ==> IsSpace(s[i])
  }

  predicate AllDigits(s: string) {
    forall i :: 0 <= i < |s| ==> IsDigit(s[i])
  }

  predicate IsUpperLetter(c: char) {
    'A' <= c <= 'Z'
  }

  predicate IsLowerLetter(c: char) {
    'a' <= c <= 'z'
  }

  function LowerChar(c: char): (d: char)
    ensures !IsUpperLetter(d)
    ensures IsUpperLetter(c) ==> d as int == c as int + 32
    ensures !IsUpperLetter(c) ==> d == c
  {
    if IsUpperLetter(c) then (c as int + 32) as char else c
  }

  function UpperChar(c: char): (d: char)
    ensures !IsLowerLetter(d)
    ensures IsLowerLetter(c) ==> d as int == c as int - 32
    ensures !IsLowerLetter(c) ==> d == c
  {
    if IsLowerLetter(c) then (c as int - 32) as char else c
  }

  /** Python's `s.lower()`: every ASCII capital becomes its small letter. */
  function Lower(s: string): (r: string)
    ensures |r| == |s|
    ensures forall i :: 0 <= i < |s| ==> r[i] == LowerChar(s[i])
  {
    seq(|s|, i requires 0 <= i < |s| => LowerChar(s[i]))
  }

  /** Python's `s.upper()`: every ASCII small letter becomes its capital. */
  function Upper(s: string): (r: string)
    ensures |r| == |s|
    ensures forall i :: 0 <= i < |s| ==> r[i] == UpperChar(s[i])
  {
    seq(|s|, i requires 0 <= i < |s| => UpperChar(s[i]))
  }

  /** Lowering twice is lowering once, so anything computed from `s.lower()`
      gives the same answer for `s` and for `s.lower()`. */
  lemma LowerIdempotent(s: string)
    ensures Lower(Lower(s)) == Lower(s)
  {
  }

  predicate StartsWith(s: string, w: string) {
    |w| <= |s| && s[..|w|] == w
  }

  /** Python's substring test `w in s`, scanning `s` from the left. */
  function Contains(s: string, w: string): bool
    decreases |s|
  {
    StartsWith(s, w) || (s != [] && Contains(s[1..], w))
  }

  /** `w` occurs in `s` starting at position `i`. */
  predicate OccursAt(s: string, w: string, i: int) {
    0 <= i <= |s| - |w| && s[i..i + |w|] == w
  }

  /** `w in s` holds exactly when `w` occurs at some position of `s`. */
  lemma {:induction false} ContainsIff(s: string, w: string)
    ensures Contains(s, w) <==> exists i :: OccursAt(s, w, i)
    decreases |s|
  {
    if s != [] {
      ContainsIff(s[1..], w);
      if Contains(s[1..], w) {
        var i :| OccursAt(s[1..], w, i);
        assert s[1..][i..i + |w|] == s[i + 1..i + 1 + |w|];
        assert OccursAt(s, w, i + 1);
      }
      if i :| OccursAt(s, w, i) && i > 0 {
        assert s[1..][i - 1..i - 1 + |w|] == s[i..i + |w|];
        assert OccursAt(s[1..], w, i - 1);
      }
    }
    if StartsWith(s, w) {
      assert OccursAt(s, w, 0);
    }
  }

  /** A word with a character that `s` lacks does not occur in `s`. */
  lemma NotContainsByChar(s: string, w: string, c: char)
    requires c in w && c !in s
    ensures !Contains(s, w)
  {
    ContainsIff(s, w);
    var j :| 0 <= j < |w| && w[j] == c;
    forall i | 0 <= i <= |s| - |w|
      ensures !OccursAt(s, w, i)
    {
      assert s[i..i + |w|][j] == s[i + j];
    }
  }

  /** Greedy `\s*` from position `i`: where the white-space run ends. */
  function SpaceEnd(s: string, i: nat): (j: nat)
    requires i <= |s|
    ensures i <= j <= |s|
    ensures forall k :: i <= k < j ==> IsSpace(s[k])
    ensures j == |s| || !IsSpace(s[j])
    decreases |s| - i
  {
    if i < |s| && IsSpace(s[i]) then SpaceEnd(s, i + 1) else i
  }

  /** `[a, b)` holds only white space. */
  predicate Spaces(s: string, a: nat, b: nat) {
    a <= b <= |s| && forall k :: a <= k < b ==> IsSpace(s[k])
  }

  lemma {:induction false} SpaceEndIff(s: string, a: nat, b: nat)
    requires a <= b <= |s|
    ensures SpaceEnd(s, a) == b <==> Spaces(s, a, b) && (b == |s| || !IsSpace(s[b]))
    decreases b - a
  {
    if a < b && IsSpace(s[a]) {
      SpaceEndIff(s, a + 1, b);
    }
  }


  /** Where the white-space run that ends at `j` starts, looking no further
      back than `lo`. */
  function SpaceStart(s: string, lo: nat, j: nat): (a: nat)
    requires lo <= j <= |s|
    ensures lo <= a <= j
    ensures forall k :: a <= k < j ==> IsSpace(s[k])
    ensures a == lo || !IsSpace(s[a - 1])
    decreases j
  {
    if lo < j && IsSpace(s[j - 1]) then SpaceStart(s, lo, j - 1) else j
  }

  /** Python's `s.strip()` with no argument: the text between the leading
      and the trailing white space. */
  function Strip(s: string): string
  {
    var a := SpaceEnd(s, 0);
    s[a..SpaceStart(s, a, |s|)]
  }

  /** `s.strip()` removes only white space, from both ends, and leaves text
      that neither starts nor ends with white space. */
  lemma StripBounds(s: string) returns (a: nat, b: nat)
    ensures a <= b <= |s| && Strip(s) == s[a..b]
    ensures Spaces(s, 0, a) && Spaces(s, b, |s|)
    ensures a < b ==> !IsSpace(s[a]) && !IsSpace(s[b - 1])
  {
    a := SpaceEnd(s, 0);
    b := SpaceStart(s, a, |s|);
  }

  /** The stripped line is empty exactly when the raw line is all white space. */
  lemma StripEmptyIff(s: string)
    ensures Strip(s) == [] <==> AllSpace(s)
  {
    var a, b := StripBounds(s);
    if a < b {
      assert Strip(s)[0] == s[a];
    }
  }

  /** A line that neither starts nor ends with white space is left as is. */
  lemma StripUnchanged(s: string)
    requires s != [] && !IsSpace(s[0]) && !IsSpace(s[|s| - 1])
    ensures Strip(s) == s
  {
  }
}
