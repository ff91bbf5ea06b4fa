/**
 The character sets `generate_password` draws from, as predicates and as
 enumerations, and the counting facts about distinct strings over them.
 */
module Alphabet {

  /** No character occurs twice. */
  predicate Distinct(s: string)
  {
    forall i, j :: 0 <= i < j < |s| ==> s[i] != s[j]
  }

  predicate IsDigit(c: char) { '0' <= c <= '9' }
  predicate IsUpper(c: char) { 'A' <= c <= 'Z' }
  predicate IsLower(c: char) { 'a' <= c <= 'z' }

  /** Codes 33..126 with special characters; digits and ASCII letters without. */
  predicate InAlphabet(c: char, special: bool)
  {
    if special then 33 <= c as int <= 126 else IsDigit(c) || IsUpper(c) || IsLower(c)
  }

  /** The number of characters the draws can produce: 94 or 10 + 26 + 26. */
  function AlphabetSize(special: bool): nat
  {
    if special then 94 else 62
  }

  /** The characters with codes lo..hi, in increasing order. */
  function CharRange(lo: nat, hi: int): (r: string)
    requires hi < 0xD800
    ensures |r| == if lo <= hi then hi - lo + 1 else 0
    ensures forall c :: c in r <==> lo <= c as int <= hi
    ensures Distinct(r)
    decreases hi - lo
  {
    if lo > hi then []
    else
      var rest := CharRange(lo + 1, hi);
      ConcatDistinct([lo as char], rest);
      [lo as char] + rest
  }

  /** Every character of the alphabet exactly once. */
  function Enumerate(special: bool): (r: string)
    ensures |r| == AlphabetSize(special)
    ensures forall c :: c in r <==> InAlphabet(c, special)
    ensures Distinct(r)
  {
    if special then CharRange(33, 126)
    else
      var d, u, l := CharRange(48, 57), CharRange(65, 90), CharRange(97, 122);
      assert forall i, j :: 0 <= i < |d| && 0 <= j < |u| ==> d[i] != u[j] by {
        forall i, j | 0 <= i < |d| && 0 <= j < |u| ensures d[i] != u[j] {
          assert d[i] in d && u[j] in u;
        }
      }
      ConcatDistinct(d, u);
      ConcatDistinct(d + u, l);
      d + u + l
  }

  /** Two distinct strings with no common character concatenate to a distinct string. */
  lemma ConcatDistinct(a: string, b: string)
    requires Distinct(a) && Distinct(b)
    requires forall c :: c in a ==> c !in b
    ensures Distinct(a + b)
  {
    var s := a + b;
    forall i, j | 0 <= i < j < |s| ensures s[i] != s[j] {
      if i < |a| && j >= |a| {
        assert s[i] in a && s[j] == b[j - |a|];
      }
    }
  }

  /** The set of a distinct string's characters has as many elements as the string. */
  lemma {:induction false} DistinctCardinality(s: string)
    requires Distinct(s)
    ensures |set c | c in s| == |s|
  {
    if s != [] {
      var rest := s[1..];
      assert Distinct(rest);
      DistinctCardinality(rest);
      assert s[0] !in rest;
      assert (set c | c in s) == (set c | c in rest) + {s[0]};
    }
  }

  /** A distinct string whose characters all lie in a distinct string is no longer than it. */
  lemma Pigeonhole(s: string, a: string)
    requires Distinct(s) && Distinct(a)
    requires forall c :: c in s ==> c in a
    ensures |s| <= |a|
  {
    DistinctCardinality(s);
    DistinctCardinality(a);
    SubsetCardinality(set c | c in s, set c | c in a);
  }

  lemma SubsetCardinality(x: set<char>, y: set<char>)
    requires x <= y
    ensures |x| <= |y|
  {
    assert y == x + (y - x);
  }

  /** A distinct string over the alphabet has at most `AlphabetSize` characters. */
  lemma LengthBoundedByAlphabet(s: string, special: bool)
    requires Distinct(s)
    requires forall c :: c in s ==> InAlphabet(c, special)
    ensures |s| <= AlphabetSize(special)
  {
    Pigeonhole(s, Enumerate(special));
  }

  /** A distinct string over the alphabet shorter than it misses some alphabet character. */
  lemma {:induction false} SomeCharacterUnused(s: string, special: bool) returns (c: char)
    requires Distinct(s)
    requires forall x :: x in s ==> InAlphabet(x, special)
    requires |s| < AlphabetSize(special)
    ensures InAlphabet(c, special) && c !in s
  {
    var a := Enumerate(special);
    if forall x :: x in a ==> x in s {
      Pigeonhole(a, s);
      assert false;
    }
    var x :| x in a && x !in s;
    c := x;
  }
}
