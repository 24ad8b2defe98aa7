/** The order that java.lang.String.compareTo puts on strings, with strings as
    sequences of chars. The merge step of the sort compares signatures with it. */
module JavaStrings {

  /** String.compareTo: the difference of the first pair of chars at which the two
      strings differ or, when one string is a prefix of the other, the difference
      of their lengths. Zero exactly when the strings are equal. */
  function CompareTo(a: string, b: string): (r: int)
    ensures r == 0 <==> a == b
    decreases |a|
  {
    if a == [] || b == [] then |a| - |b|
    else if a[0] != b[0] then a[0] as int - b[0] as int
    else CompareTo(a[1..], b[1..])
  }

  /** `a` may stay before `b`: the merge's tie rule `compareTo(...) <= 0`. */
  predicate Le(a: string, b: string) {
    CompareTo(a, b) <= 0
  }

  /** Non-decreasing under compareTo. */
  ghost predicate Sorted(s: seq<string>) {
    forall p, q :: 0 <= p < q < |s| ==> Le(s[p], s[q])
  }

  /** compareTo is antisymmetric: swapping the arguments negates the result. */
  lemma {:induction false} CompareToAntisymmetric(a: string, b: string)
    ensures CompareTo(a, b) == -CompareTo(b, a)
    decreases |a|
  {
    if a != [] && b != [] && a[0] == b[0] {
      CompareToAntisymmetric(a[1..], b[1..]);
    }
  }

  /** Any two strings are comparable, and only equal strings compare both ways. */
  lemma {:induction false} LeTotal(a: string, b: string)
    ensures Le(a, b) || Le(b, a)
    ensures Le(a, b) && Le(b, a) ==> a == b
  {
    CompareToAntisymmetric(a, b);
  }

  /** Every string compares <= 0 to itself. */
  lemma {:induction false} LeReflexive(a: string)
    ensures Le(a, a)
  {
  }

  /** compareTo <= 0 is transitive. */
  lemma {:induction false} LeTransitive(a: string, b: string, c: string)
    requires Le(a, b) && Le(b, c)
    ensures Le(a, c)
    decreases |a|
  {
    if a != [] && b != [] && c != [] && a[0] == b[0] && b[0] == c[0] {
      LeTransitive(a[1..], b[1..], c[1..]);
    }
  }

  /** A strict step anywhere in a chain makes the whole chain strict. */
  lemma {:induction false} LtTransitive(a: string, b: string, c: string)
    requires Le(a, b) && Le(b, c)
    requires CompareTo(a, b) < 0 || CompareTo(b, c) < 0
    ensures CompareTo(a, c) < 0
  {
    LeTransitive(a, b, c);
    if a == c {
      LeTotal(a, b);
    }
  }
}
