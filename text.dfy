/**
 The string operations the search filters rely on: lower-casing (restricted to
 ASCII) and the substring test of JavaScript's `String.prototype.includes`.
 */
module Text {

  /** Maps an ASCII upper-case letter to its lower-case letter; every other character is kept. */
  function LowerChar(c: char): char
  {
    if 'A' <= c <= 'Z' then (c as int + 32) as char else c
  }

  /** `s.toLowerCase()`, restricted to ASCII letters. */
  function Lower(s: string): (t: string)
    ensures |t| == |s|
    ensures forall i :: 0 <= i < |s| ==> t[i] == LowerChar(s[i])
  {
    if s == [] then [] else [LowerChar(s[0])] + Lower(s[1..])
  }

  /** `n` occurs in `h` starting at position `i`. */
  predicate OccursAt(h: string, n: string, i: nat)
  {
    i + |n| <= |h| && h[i..i + |n|] == n
  }

  /** `h.includes(n)`: `n` is a prefix of `h` or of some suffix of `h`. */
  predicate Contains(h: string, n: string): (b: bool)
    ensures b ==> |n| <= |h|
  {
    n <= h || (h != [] && Contains(h[1..], n))
  }

  /** `h.toLowerCase().includes(n.toLowerCase())`. */
  predicate ContainsIgnoringCase(h: string, n: string): (b: bool)
    ensures n == "" ==> b
    ensures b ==> |n| <= |h|
  {
    Contains(Lower(h), Lower(n))
  }

  /** An occurrence at some position makes the recursive test hold. */
  lemma {:induction false} ContainsOfOccurs(h: string, n: string, i: nat)
    requires OccursAt(h, n, i)
    ensures Contains(h, n)
  {
    if i == 0 {
      assert h[..|n|] == n;
    } else {
      assert h[1..][i - 1..i - 1 + |n|] == h[i..i + |n|];
      ContainsOfOccurs(h[1..], n, i - 1);
    }
  }

  /** When the recursive test holds, the needle occurs at some position. */
  lemma {:induction false} OccursOfContains(h: string, n: string) returns (i: nat)
    requires Contains(h, n)
    ensures i <= |h| && OccursAt(h, n, i)
  {
    if n <= h {
      i := 0;
      assert h[..|n|] == n;
    } else {
      var j := OccursOfContains(h[1..], n);
      assert h[1..][j..j + |n|] == h[j + 1..j + 1 + |n|];
      i := j + 1;
    }
  }

  /** The recursive test agrees with the definition by positions. */
  lemma ContainsIffOccurs(h: string, n: string)
    ensures Contains(h, n) <==> exists i: nat :: i <= |h| && OccursAt(h, n, i)
  {
    if Contains(h, n) {
      var i := OccursOfContains(h, n);
    }
    forall i: nat | i <= |h| && OccursAt(h, n, i)
      ensures Contains(h, n)
    {
      ContainsOfOccurs(h, n, i);
    }
  }

  /** Lower-casing twice is lower-casing once. */
  lemma LowerIdempotent(s: string)
    ensures Lower(Lower(s)) == Lower(s)
  {
    assert forall i :: 0 <= i < |s| ==> LowerChar(LowerChar(s[i])) == LowerChar(s[i]);
  }

  /** Lower-casing commutes with taking a slice. */
  lemma LowerSlice(s: string, i: nat, j: nat)
    requires i <= j <= |s|
    ensures Lower(s)[i..j] == Lower(s[i..j])
  {
  }

  /**
   The case-insensitive test does not depend on the case of either argument,
   and an exact occurrence is always a case-insensitive one.
   */
  lemma {:induction false} ContainsIgnoringCaseProperties(h: string, n: string)
    ensures ContainsIgnoringCase(Lower(h), n) == ContainsIgnoringCase(h, n)
    ensures ContainsIgnoringCase(h, Lower(n)) == ContainsIgnoringCase(h, n)
    ensures Contains(h, n) ==> ContainsIgnoringCase(h, n)
  {
    LowerIdempotent(h);
    LowerIdempotent(n);
    if Contains(h, n) {
      ContainsIffOccurs(h, n);
      var i: nat :| i <= |h| && OccursAt(h, n, i);
      LowerSlice(h, i, i + |n|);
      assert OccursAt(Lower(h), Lower(n), i);
      ContainsIffOccurs(Lower(h), Lower(n));
    }
  }
}
