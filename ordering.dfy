/**
 * The order in which the grouping step emits its groups: Python compares
 * strings lexicographically by code point (a proper prefix comes first),
 * and the (year, key) pairs of a group-by are compared year first.
 */
module Ordering {

  /** Python's `a < b` on `str`. */
  predicate StrLess(a: string, b: string)
    decreases |a|
  {
    if a == [] then b != []
    else if b == [] then false
    else a[0] < b[0] || (a[0] == b[0] && StrLess(a[1..], b[1..]))
  }

  lemma {:induction false} StrLessIrreflexive(a: string)
    ensures !StrLess(a, a)
    decreases |a|
  {
    if a != [] {
      StrLessIrreflexive(a[1..]);
    }
  }

  lemma {:induction false} StrLessTransitive(a: string, b: string, c: string)
    requires StrLess(a, b) && StrLess(b, c)
    ensures StrLess(a, c)
    decreases |a|
  {
    if a != [] && a[0] == b[0] && b[0] == c[0] {
      StrLessTransitive(a[1..], b[1..], c[1..]);
    }
  }

  lemma {:induction false} StrLessTotal(a: string, b: string)
    requires a != b
    ensures StrLess(a, b) || StrLess(b, a)
    decreases |a|
  {
    if a != [] && b != [] && a[0] == b[0] {
      assert a == [a[0]] + a[1..] && b == [b[0]] + b[1..];
      StrLessTotal(a[1..], b[1..]);
    }
  }

  /** The lexicographic order on (year, key) pairs that pandas sorts groups by. */
  predicate SlotLess(y1: int, k1: string, y2: int, k2: string)
  {
    y1 < y2 || (y1 == y2 && StrLess(k1, k2))
  }

  lemma SlotLessIrreflexive(y: int, k: string)
    ensures !SlotLess(y, k, y, k)
  {
    StrLessIrreflexive(k);
  }

  lemma SlotLessTransitive(y1: int, k1: string, y2: int, k2: string, y3: int, k3: string)
    requires SlotLess(y1, k1, y2, k2) && SlotLess(y2, k2, y3, k3)
    ensures SlotLess(y1, k1, y3, k3)
  {
    if y1 == y2 && y2 == y3 {
      StrLessTransitive(k1, k2, k3);
    }
  }

  lemma SlotLessTotal(y1: int, k1: string, y2: int, k2: string)
    requires (y1, k1) != (y2, k2)
    ensures SlotLess(y1, k1, y2, k2) || SlotLess(y2, k2, y1, k1)
  {
    if y1 == y2 {
      StrLessTotal(k1, k2);
    }
  }
}
