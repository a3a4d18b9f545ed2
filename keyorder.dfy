/**
 * The order in which `Array.prototype.sort` puts object keys when called
 * without a comparator: lexicographic, character by character, a proper
 * prefix first.
 */
module KeyOrder {

  /** `a` sorts at or before `b`. */
  predicate Le(a: string, b: string) {
    a == [] || (b != [] && (a[0] < b[0] || (a[0] == b[0] && Le(a[1..], b[1..]))))
  }

  /** `a` sorts strictly before `b`. */
  predicate Less(a: string, b: string) {
    Le(a, b) && a != b
  }

  lemma {:induction false} Reflexive(a: string)
    ensures Le(a, a)
  {
    if a != [] {
      Reflexive(a[1..]);
    }
  }

  lemma {:induction false} Total(a: string, b: string)
    ensures Le(a, b) || Le(b, a)
  {
    if a != [] && b != [] && a[0] == b[0] {
      Total(a[1..], b[1..]);
    }
  }

  lemma {:induction false} Antisymmetric(a: string, b: string)
    requires Le(a, b) && Le(b, a)
    ensures a == b
  {
    if a != [] && b != [] {
      Antisymmetric(a[1..], b[1..]);
      assert a == [a[0]] + a[1..];
      assert b == [b[0]] + b[1..];
    }
  }

  lemma {:induction false} Transitive(a: string, b: string, c: string)
    requires Le(a, b) && Le(b, c)
    ensures Le(a, c)
  {
    if a != [] && b != [] && c != [] && a[0] == b[0] == c[0] {
      Transitive(a[1..], b[1..], c[1..]);
    }
  }

  /** Two distinct keys are strictly ordered one way or the other. */
  lemma Trichotomy(a: string, b: string)
    ensures a == b || Less(a, b) || Less(b, a)
  {
    Total(a, b);
  }
}
