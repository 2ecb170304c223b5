/**
 * The order in which realm names are sorted. The application compares names
 * with `localeCompare`, whose order depends on the runtime's locale; here it
 * is the lexicographic order on character codes, a strict total order.
 */
module Collation {
  /** `a` sorts strictly before `b`. */
  predicate Before(a: string, b: string)
    ensures Before(a, b) ==> a != b
    ensures |a| < |b| && a == b[..|a|] ==> Before(a, b)
  {
    if a == [] then b != []
    else if b == [] then false
    else if a[0] != b[0] then a[0] < b[0]
    else Before(a[1..], b[1..])
  }

  lemma {:induction false} BeforeIrreflexive(a: string)
    ensures !Before(a, a)
  {
    if a != [] {
      BeforeIrreflexive(a[1..]);
    }
  }

  lemma {:induction false} BeforeAsymmetric(a: string, b: string)
    requires Before(a, b)
    ensures !Before(b, a)
  {
    if a != [] && b != [] && a[0] == b[0] {
      BeforeAsymmetric(a[1..], b[1..]);
    }
  }

  lemma {:induction false} BeforeTotal(a: string, b: string)
    requires a != b
    ensures Before(a, b) || Before(b, a)
  {
    if a != [] && b != [] && a[0] == b[0] {
      assert a == [a[0]] + a[1..] && b == [b[0]] + b[1..];
      BeforeTotal(a[1..], b[1..]);
    }
  }

  lemma {:induction false} BeforeTransitive(a: string, b: string, c: string)
    requires Before(a, b) && Before(b, c)
    ensures Before(a, c)
  {
    if a != [] && a[0] == b[0] && b[0] == c[0] {
      BeforeTransitive(a[1..], b[1..], c[1..]);
    }
  }

  /** "Not after" is transitive: the order used by a stable ascending sort. */
  lemma NotAfterTransitive(a: string, b: string, c: string)
    requires !Before(b, a) && !Before(c, b)
    ensures !Before(c, a)
  {
    if Before(c, a) {
      if a != b { BeforeTotal(a, b); }
      if b != c { BeforeTotal(b, c); }
      if a == b {
        BeforeAsymmetric(c, a);
      } else if b == c {
        BeforeAsymmetric(c, a);
      } else {
        BeforeTransitive(a, b, c);
        BeforeAsymmetric(a, c);
      }
    }
  }
}
