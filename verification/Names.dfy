/**
  Names compared without regard to case, as strcasecmp and tolower do for ASCII text.
 */
module Names {

  function LowerChar(c: char): char {
    if 'A' <= c <= 'Z' then (c as int + 32) as char else c
  }

  function Lower(s: string): (r: string)
    ensures |r| == |s|
  {
    seq(|s|, i requires 0 <= i < |s| => LowerChar(s[i]))
  }

  /** strcasecmp(a, b) == 0 */
  predicate SameName(a: string, b: string) {
    Lower(a) == Lower(b)
  }

  /** The two cases of one letter. */
  predicate TwoCases(c: char, d: char) {
    ('A' <= c <= 'Z' && d as int == c as int + 32) || ('A' <= d <= 'Z' && c as int == d as int + 32)
  }

  predicate CaseEqual(a: string, b: string) {
    |a| == |b| && forall i :: 0 <= i < |a| ==> a[i] == b[i] || TwoCases(a[i], b[i])
  }

  lemma LowerCharExactly(c: char, d: char)
    ensures LowerChar(c) == LowerChar(d) <==> c == d || TwoCases(c, d)
  {
  }

  /** Two names are the same exactly when they have the same letters, upper or lower case, and are otherwise
      equal character by character. */
  lemma SameNameExactly(a: string, b: string)
    ensures SameName(a, b) <==> CaseEqual(a, b)
  {
    hide LowerChar, TwoCases;
    forall i | 0 <= i < |a| && i < |b|
      ensures Lower(a)[i] == Lower(b)[i] <==> a[i] == b[i] || TwoCases(a[i], b[i])
    {
      LowerCharExactly(a[i], b[i]);
    }
    if CaseEqual(a, b) { assert Lower(a) == Lower(b); }
    if SameName(a, b) { assert |Lower(a)| == |Lower(b)|; }
  }
}
