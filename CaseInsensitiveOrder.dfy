/**
  String.CASE_INSENSITIVE_ORDER, the comparator of the TreeSet that collects
  process names. Character case is mapped with the ASCII letters only.
 */
module CaseInsensitiveOrder {

  /** Character.toUpperCase on the ASCII letters. */
  function ToUpperCase(c: char): char {
    if 'a' <= c <= 'z' then (c as int - 32) as char else c
  }

  /** Character.toLowerCase on the ASCII letters. */
  function ToLowerCase(c: char): char {
    if 'A' <= c <= 'Z' then (c as int + 32) as char else c
  }

  /** The case-folded char that the comparator ends up comparing. */
  function Fold(c: char): char {
    ToLowerCase(ToUpperCase(c))
  }

  /**
    One position of the comparator: chars that are equal, or equal once
    upper-cased, or equal once lower-cased again, compare equal; otherwise the
    difference of the lower-cased upper cases decides.
   */
  function CompareChars(c1: char, c2: char): (d: int)
    ensures d == Fold(c1) as int - Fold(c2) as int
  {
    if c1 == c2 then 0
    else
      var u1, u2 := ToUpperCase(c1), ToUpperCase(c2);
      if u1 == u2 then 0
      else
        var l1, l2 := ToLowerCase(u1), ToLowerCase(u2);
        if l1 == l2 then 0 else l1 as int - l2 as int
  }

  /**
    The comparator: the first position where the chars differ decides; when one
    string is a prefix of the other, the difference of the lengths decides.
   */
  function CompareIgnoreCase(a: string, b: string): int
  {
    if a == [] || b == [] then |a| - |b|
    else
      var d := CompareChars(a[0], b[0]);
      if d != 0 then d else CompareIgnoreCase(a[1..], b[1..])
  }

  /** a comes strictly before b in the case-insensitive order. */
  predicate Below(a: string, b: string) {
    CompareIgnoreCase(a, b) < 0
  }

  /** a and b are equal ignoring case: the TreeSet keeps only one of them. */
  predicate SameIgnoringCase(a: string, b: string) {
    CompareIgnoreCase(a, b) == 0
  }

  lemma {:induction false} CompareAntisymmetric(a: string, b: string)
    ensures CompareIgnoreCase(a, b) == -CompareIgnoreCase(b, a)
  {
    if a != [] && b != [] {
      CompareAntisymmetric(a[1..], b[1..]);
    }
  }

  lemma {:induction false} CompareReflexive(a: string)
    ensures SameIgnoringCase(a, a)
  {
    if a != [] {
      CompareReflexive(a[1..]);
    }
  }

  /** Equality ignoring case is equality of lengths and of every folded char. */
  lemma {:induction false} SameIgnoringCaseFolds(a: string, b: string)
    ensures SameIgnoringCase(a, b) <==> |a| == |b| && forall k :: 0 <= k < |a| ==> Fold(a[k]) == Fold(b[k])
  {
    if a != [] && b != [] {
      SameIgnoringCaseFolds(a[1..], b[1..]);
      if Fold(a[0]) == Fold(b[0]) {
        assert forall k :: 1 <= k < |a| ==> a[k] == a[1..][k - 1];
        assert forall k :: 1 <= k < |b| ==> b[k] == b[1..][k - 1];
      }
    }
  }

  /** The order is transitive, and the composite is strict as soon as one step is. */
  lemma {:induction false} CompareTransitive(a: string, b: string, c: string)
    requires CompareIgnoreCase(a, b) <= 0 && CompareIgnoreCase(b, c) <= 0
    ensures CompareIgnoreCase(a, c) <= 0
    ensures CompareIgnoreCase(a, c) == 0 ==> CompareIgnoreCase(a, b) == 0 && CompareIgnoreCase(b, c) == 0
  {
    if a != [] && b != [] && c != [] {
      if Fold(a[0]) == Fold(b[0]) && Fold(b[0]) == Fold(c[0]) {
        CompareTransitive(a[1..], b[1..], c[1..]);
      }
    }
  }

  lemma SameSymmetric(a: string, b: string)
    requires SameIgnoringCase(a, b)
    ensures SameIgnoringCase(b, a)
  {
    CompareAntisymmetric(a, b);
  }

  lemma SameTransitive(a: string, b: string, c: string)
    requires SameIgnoringCase(a, b) && SameIgnoringCase(b, c)
    ensures SameIgnoringCase(a, c)
  {
    CompareTransitive(a, b, c);
    CompareAntisymmetric(a, b);
    CompareAntisymmetric(b, c);
    CompareTransitive(c, b, a);
    CompareAntisymmetric(a, c);
  }

  lemma BelowTransitive(a: string, b: string, c: string)
    requires Below(a, b) && Below(b, c)
    ensures Below(a, c)
  {
    CompareTransitive(a, b, c);
  }
}
