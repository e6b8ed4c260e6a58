/** Bit strings and their order: the common language of every kind of key. */
module Codes {

  type Code = seq<bool>

  ghost predicate Agree(a: Code, b: Code, n: nat) {
    n <= |a| && n <= |b| && forall i | 0 <= i < n :: a[i] == b[i]
  }

  /** The number of leading bits on which a and b agree. */
  ghost function Diff(a: Code, b: Code): (d: nat)
    ensures Agree(a, b, d)
    ensures d < |a| && d < |b| ==> a[d] != b[d]
  {
    if a == [] || b == [] || a[0] != b[0] then 0 else 1 + Diff(a[1..], b[1..])
  }

  /** Neither is a proper prefix of the other. */
  ghost predicate Comparable(a: Code, b: Code) {
    a == b || (Diff(a, b) < |a| && Diff(a, b) < |b|)
  }

  /** Bit string a sorts strictly before b. */
  ghost predicate Before(a: Code, b: Code) {
    Diff(a, b) < |a| && Diff(a, b) < |b| && b[Diff(a, b)]
  }

  lemma {:induction false} DiffIs(a: Code, b: Code, d: nat)
    requires Agree(a, b, d)
    requires d < |a| && d < |b| && a[d] != b[d]
    ensures Diff(a, b) == d && Diff(b, a) == d
  {
    if d > 0 {
      DiffIs(a[1..], b[1..], d - 1);
    }
  }

  lemma {:induction false} DiffAtLeast(a: Code, b: Code, n: nat)
    requires Agree(a, b, n)
    ensures Diff(a, b) >= n
  {
    if n > 0 {
      DiffAtLeast(a[1..], b[1..], n - 1);
    }
  }

  lemma {:induction false} DiffSame(a: Code)
    ensures Diff(a, a) == |a| && !Before(a, a)
  {
    if a != [] {
      DiffSame(a[1..]);
    }
  }

  lemma BeforeIs(a: Code, b: Code, d: nat)
    requires Agree(a, b, d)
    requires d < |a| && d < |b| && !a[d] && b[d]
    ensures Before(a, b) && !Before(b, a) && a != b
  {
    DiffIs(a, b, d);
  }
}
