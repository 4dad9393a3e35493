// What several of the modules need.
module Common {
  datatype Option<T> = None | Some(value: T)

  const TWO_64: nat := 0x1_0000_0000_0000_0000

  type Word = w: nat | w < TWO_64

  // A number has one quotient and one remainder.
  lemma Quotient(x: nat, d: nat, a: nat, b: nat)
    requires 0 < d && b < d && x == d * a + b
    ensures x / d == a && x % d == b
  {
    var q := x / d - a;
    assert d * (x / d) + x % d == d * a + b;
    assert d * q == b - x % d;
    assert q >= 1 ==> d * q >= d;
    assert q <= -1 ==> d * q + d <= 0;
  }
}
