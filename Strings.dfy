/**
 * The string operations the list transforms rely on: lower-casing, the
 * `includes` substring test, and the `<` order on strings.
 */
module Strings {

  predicate IsUpper(c: char)
  {
    'A' <= c <= 'Z'
  }

  /** `toLowerCase` on one character, restricted to the ASCII letters. */
  function ToLowerChar(c: char): (r: char)
    ensures !IsUpper(r)
    ensures !IsUpper(c) ==> r == c
    ensures IsUpper(c) ==> r as int - c as int == 'a' as int - 'A' as int
  {
    if IsUpper(c) then (c as int + ('a' as int - 'A' as int)) as char else c
  }

  /** `String.prototype.toLowerCase`, character by character. */
  function Lower(s: string): (r: string)
    ensures |r| == |s|
    ensures forall k :: 0 <= k < |s| ==> r[k] == ToLowerChar(s[k])
  {
    if s == [] then [] else [ToLowerChar(s[0])] + Lower(s[1..])
  }

  /** Lower-casing a lower-cased string changes nothing. */
  lemma LowerIdempotent(s: string)
    ensures Lower(Lower(s)) == Lower(s)
  {
    assert forall k :: 0 <= k < |s| ==> Lower(Lower(s))[k] == Lower(s)[k];
  }

  predicate IsPrefix(prefix: string, s: string)
  {
    |prefix| <= |s| && s[..|prefix|] == prefix
  }

  /** `s.includes(needle)`: does `needle` start at some position of `s`? */
  predicate Includes(s: string, needle: string)
    decreases |s|
  {
    IsPrefix(needle, s) || (|s| > 0 && Includes(s[1..], needle))
  }

  /** `needle` sits in `s` starting at position `i`. */
  predicate OccursAt(needle: string, s: string, i: int)
  {
    0 <= i && i + |needle| <= |s| && s[i..i + |needle|] == needle
  }

  /** Reference definition: `needle` occurs as a contiguous slice of `s`. */
  ghost predicate IsSubstring(needle: string, s: string)
  {
    exists i :: OccursAt(needle, s, i)
  }

  /** `includes` decides exactly the substring relation, in both directions. */
  lemma {:induction false} IncludesIsSubstring(s: string, needle: string)
    ensures Includes(s, needle) <==> IsSubstring(needle, s)
    decreases |s|
  {
    if IsPrefix(needle, s) {
      assert OccursAt(needle, s, 0);
    } else if |s| > 0 {
      IncludesIsSubstring(s[1..], needle);
      if Includes(s[1..], needle) {
        var i :| OccursAt(needle, s[1..], i);
        assert s[i + 1..i + 1 + |needle|] == s[1..][i..i + |needle|];
        assert OccursAt(needle, s, i + 1);
      }
      if IsSubstring(needle, s) {
        var i :| OccursAt(needle, s, i);
        assert i != 0;
        assert s[1..][i - 1..i - 1 + |needle|] == s[i..i + |needle|];
        assert OccursAt(needle, s[1..], i - 1);
      }
    } else {
      assert forall i :: !OccursAt(needle, s, i);
    }
  }

  /** Every string includes the empty string. */
  lemma IncludesEmpty(s: string)
    ensures Includes(s, "")
  {
  }

  /** JavaScript's `a < b` on strings: lexicographic, a proper prefix is smaller. */
  predicate LexLess(a: string, b: string)
  {
    if |a| == 0 then |b| > 0
    else if |b| == 0 then false
    else if a[0] != b[0] then a[0] < b[0]
    else LexLess(a[1..], b[1..])
  }

  lemma {:induction false} LexLessIrreflexive(a: string)
    ensures !LexLess(a, a)
  {
    if |a| > 0 {
      LexLessIrreflexive(a[1..]);
    }
  }

  lemma {:induction false} LexLessAsymmetric(a: string, b: string)
    ensures LexLess(a, b) ==> !LexLess(b, a)
  {
    if |a| > 0 && |b| > 0 && a[0] == b[0] {
      LexLessAsymmetric(a[1..], b[1..]);
    }
  }

  lemma {:induction false} LexLessTransitive(a: string, b: string, c: string)
    ensures LexLess(a, b) && LexLess(b, c) ==> LexLess(a, c)
  {
    if |a| > 0 && |b| > 0 && |c| > 0 && a[0] == b[0] && b[0] == c[0] {
      LexLessTransitive(a[1..], b[1..], c[1..]);
    }
  }

  /** Two different strings are always ordered one way or the other. */
  lemma {:induction false} LexLessTotal(a: string, b: string)
    ensures a == b || LexLess(a, b) || LexLess(b, a)
  {
    if |a| > 0 && |b| > 0 && a[0] == b[0] {
      LexLessTotal(a[1..], b[1..]);
      if a[1..] == b[1..] {
        assert a == [a[0]] + a[1..] && b == [b[0]] + b[1..];
      }
    }
  }

  /** "Not greater than": the order a comparator built on `<` sorts into. */
  predicate LexLe(a: string, b: string)
  {
    !LexLess(b, a)
  }

  lemma LexLeTransitive(a: string, b: string, c: string)
    ensures LexLe(a, b) && LexLe(b, c) ==> LexLe(a, c)
  {
    LexLessTotal(a, b);
    LexLessTotal(b, c);
    LexLessTransitive(a, b, c);
    LexLessAsymmetric(a, c);
    LexLessIrreflexive(a);
  }

  lemma LexLessImpliesLe(a: string, b: string)
    ensures LexLess(a, b) ==> LexLe(a, b)
  {
    LexLessAsymmetric(a, b);
  }
}
