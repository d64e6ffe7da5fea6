/**
 * Ordinal, case-insensitive string comparison, as used by the store to match
 * student names. The fold is limited to the ASCII letters: a lower-case
 * letter folds to its upper-case form and every other character is its own fold.
 */
module IgnoreCase {

  /** True of the ASCII lower-case letters. */
  predicate IsLower(c: char) {
    'a' <= c <= 'z'
  }

  /** The case-folded form of one character. */
  function FoldChar(c: char): (u: char)
    ensures !IsLower(u)
    ensures !IsLower(c) ==> u == c
    ensures IsLower(c) ==> 'A' <= u <= 'Z' && c as int - u as int == 'a' as int - 'A' as int
  {
    if IsLower(c) then (c as int - ('a' as int - 'A' as int)) as char else c
  }

  /** The case-folded form of a string, character by character. */
  function Fold(s: string): (r: string)
    ensures |r| == |s|
    ensures forall i :: 0 <= i < |s| ==> r[i] == FoldChar(s[i])
  {
    if s == [] then [] else [FoldChar(s[0])] + Fold(s[1..])
  }

  /** Ordinal comparison ignoring case: equal lengths, and the folded characters agree position by position. */
  predicate EqualsIgnoreCase(a: string, b: string): (r: bool)
    ensures a == b ==> r
    ensures r ==> |a| == |b|
    ensures r <==> Fold(a) == Fold(b)
  {
    assert |a| == |b| ==> forall i :: 0 <= i < |a| ==> Fold(a)[i] == FoldChar(a[i]) && Fold(b)[i] == FoldChar(b[i]);
    |a| == |b| && forall i :: 0 <= i < |a| ==> FoldChar(a[i]) == FoldChar(b[i])
  }

  /** Two strings are equal ignoring case exactly when their folds are equal. */
  lemma EqualsIgnoreCaseIsFoldEquality(a: string, b: string)
    ensures EqualsIgnoreCase(a, b) <==> Fold(a) == Fold(b)
  {
    if EqualsIgnoreCase(a, b) {
      assert forall i :: 0 <= i < |a| ==> Fold(a)[i] == Fold(b)[i];
    }
    if Fold(a) == Fold(b) {
      assert forall i :: 0 <= i < |a| ==> FoldChar(a[i]) == Fold(a)[i] == Fold(b)[i] == FoldChar(b[i]);
    }
  }

  /** Folding a folded string changes nothing. */
  lemma FoldIdempotent(s: string)
    ensures Fold(Fold(s)) == Fold(s)
  {
    assert forall i :: 0 <= i < |s| ==> Fold(Fold(s))[i] == Fold(s)[i];
  }

  /** Comparison ignoring case is an equivalence relation. */
  lemma EqualsIgnoreCaseIsEquivalence(a: string, b: string, c: string)
    ensures EqualsIgnoreCase(a, a)
    ensures EqualsIgnoreCase(a, b) ==> EqualsIgnoreCase(b, a)
    ensures EqualsIgnoreCase(a, b) && EqualsIgnoreCase(b, c) ==> EqualsIgnoreCase(a, c)
  {
  }

  /** Names differing only in letter case match; names differing in a letter or in length do not. */
  lemma NameExamples()
    ensures EqualsIgnoreCase("Alice", "aLICE") && EqualsIgnoreCase("Alice", "alice")
    ensures EqualsIgnoreCase("Bob", "bob")
    ensures !EqualsIgnoreCase("Alice", "Alise") && !EqualsIgnoreCase("Alice", "bob")
  {
    assert FoldChar("Alice"[3]) != FoldChar("Alise"[3]);
  }
}
