/** `String.prototype.localeCompare` on the ISO-8601 date strings of the
    store, abstracted as the lexicographic order on character codes. */
module StringOrder {

  /** `a` sorts before or equal to `b`. */
  predicate Le(a: string, b: string)
    decreases |a|
  {
    if |a| == 0 then true
    else if |b| == 0 then false
    else if a[0] != b[0] then a[0] < b[0]
    else Le(a[1..], b[1..])
  }

  /** `a.localeCompare(b)`: negative, zero or positive as `a` sorts before,
      equal to or after `b`. */
  function Compare(a: string, b: string): (r: int)
    ensures r < 0 <==> Le(a, b) && a != b
    ensures r == 0 <==> a == b
    ensures r > 0 <==> Le(b, a) && a != b
    ensures -1 <= r <= 1
  {
    LeTotal(a, b);
    LeStrict(a, b);
    if a == b then 0
    else if Le(a, b) then -1
    else 1
  }

  /** Distinct strings are ordered one way only. */
  lemma LeStrict(a: string, b: string)
    ensures a != b ==> !(Le(a, b) && Le(b, a))
  {
  }

  lemma {:induction false} LeReflexive(a: string)
    ensures Le(a, a)
    decreases |a|
  {
    if |a| > 0 {
      LeReflexive(a[1..]);
    }
  }

  lemma {:induction false} LeTotal(a: string, b: string)
    ensures Le(a, b) || Le(b, a)
    decreases |a|
  {
    if |a| > 0 && |b| > 0 && a[0] == b[0] {
      LeTotal(a[1..], b[1..]);
    }
  }

  lemma {:induction false} LeAntisymmetric(a: string, b: string)
    requires Le(a, b) && Le(b, a)
    ensures a == b
    decreases |a|
  {
    if |a| > 0 {
      LeAntisymmetric(a[1..], b[1..]);
      assert a == [a[0]] + a[1..];
      assert b == [b[0]] + b[1..];
    }
  }

  lemma {:induction false} LeTransitive(a: string, b: string, c: string)
    requires Le(a, b) && Le(b, c)
    ensures Le(a, c)
    decreases |a|
  {
    if |a| > 0 && a[0] == b[0] && b[0] == c[0] {
      LeTransitive(a[1..], b[1..], c[1..]);
    }
  }
}
