module Prelude {
  datatype Option<T> = None | Some(value: T)

  lemma MultipleIsFar(e: int, d: int)
    requires 0 < d
    ensures e >= 1 ==> e * d >= d
    ensures e <= -1 ==> e * d <= -d
  {
  }

  lemma QuotientIs(n: int, d: int, q: int, r: int)
    requires n == q * d + r && 0 <= r < d
    ensures n / d == q && n % d == r
  {
    var e := n / d - q;
    assert e * d == r - n % d;
    MultipleIsFar(e, d);
  }
}
