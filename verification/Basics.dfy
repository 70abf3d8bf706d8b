/**
 What several components share: optional values, lists without repetition, and letters and digits.
 */
module Basics {
  datatype Option<+T> = None | Some(value: T)

  predicate Distinct<T(==)>(s: seq<T>) {
    forall i, j :: 0 <= i < j < |s| ==> s[i] != s[j]
  }

  // The elements of a set in some order.
  method Listed<T(==)>(elements: set<T>) returns (s: seq<T>)
    ensures Distinct(s) && forall x :: x in s <==> x in elements
  {
    s := [];
    var left := elements;
    while left != {}
      invariant left <= elements && Distinct(s) && forall x :: x in s <==> x in elements && x !in left
      decreases left
    {
      var x :| x in left;
      assert x !in s;
      s := s + [x];
      left := left - {x};
    }
  }

  const UPPER := "ABCDEFGHIJKLMNOPQRSTUVWXYZ"
  const LOWER := "abcdefghijklmnopqrstuvwxyz"
  const DIGITS := "0123456789"

  lemma UpperMeans(c: char)
    ensures 'A' <= c <= 'Z' <==> c in UPPER
  {
  }

  lemma LowerMeans(c: char)
    ensures 'a' <= c <= 'z' <==> c in LOWER
  {
  }

  lemma DigitMeans(c: char)
    ensures '0' <= c <= '9' <==> c in DIGITS
  {
  }
}
