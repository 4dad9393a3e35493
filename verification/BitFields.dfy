// Numbers as bits: shifts, masks and ors.
module BitFields {
  import opened Common

  const WORD_BITS: nat := 64

  // Bit i of a number.
  function BitAt(a: nat, i: nat): (b: nat)
    ensures b <= 1
    decreases i
  {
    if i == 0 then a % 2 else BitAt(a / 2, i - 1)
  }

  // w bits from bit lo on: (a >> lo) & ((1 << w) - 1).
  function Slice(a: nat, lo: nat, w: nat): nat
    decreases w
  {
    if w == 0 then 0 else BitAt(a, lo) + 2 * Slice(a, lo + 1, w - 1)
  }

  function Shl(a: nat, n: nat): nat {
    if n == 0 then a else 2 * Shl(a, n - 1)
  }

  // (x & mask) | (base & ~mask) for the mask of w bits from bit lo on.
  function Merge(x: nat, base: nat, lo: nat, w: nat): nat
    decreases lo + w
  {
    if lo > 0 then base % 2 + 2 * Merge(x / 2, base / 2, lo - 1, w)
    else if w > 0 then x % 2 + 2 * Merge(x / 2, base / 2, 0, w - 1)
    else base
  }

  function Or(a: nat, b: nat): nat {
    if a == 0 && b == 0 then 0 else (if a % 2 == 1 || b % 2 == 1 then 1 else 0) + 2 * Or(a / 2, b / 2)
  }

  function Pow2(n: nat): (p: nat)
    ensures p > 0
  {
    if n == 0 then 1 else 2 * Pow2(n - 1)
  }

  // ---------- powers ----------

  lemma {:induction false} Pow2Add(m: nat, n: nat)
    ensures Pow2(m + n) == Pow2(m) * Pow2(n)
  {
    if m > 0 {
      Pow2Add(m - 1, n);
    }
  }

  lemma Pow2Word()
    ensures Pow2(WORD_BITS) == TWO_64
  {
    Pow2Half();
    Pow2Add(32, 32);
  }

  lemma Pow2Half()
    ensures Pow2(32) == 0x1_0000_0000
  {
    assert Pow2(2) == 4;
    Pow2Add(2, 2);
    Pow2Add(4, 4);
    Pow2Add(8, 8);
    Pow2Add(16, 16);
  }

  lemma Pow2Int()
    ensures Pow2(31) == 0x8000_0000
  {
    Pow2Half();
    assert Pow2(32) == 2 * Pow2(31);
  }

  lemma {:induction false} Pow2Mono(m: nat, n: nat)
    requires m <= n
    ensures Pow2(m) <= Pow2(n)
  {
    if m < n {
      Pow2Mono(m, n - 1);
    }
  }

  // ---------- bits ----------

  lemma {:induction false} BitOfZero(i: nat)
    ensures BitAt(0, i) == 0
  {
    if i > 0 {
      BitOfZero(i - 1);
    }
  }

  // Numbers are their bits.
  lemma {:induction false} SameNumber(a: nat, b: nat, n: nat)
    requires a < Pow2(n) && b < Pow2(n) && forall i :: 0 <= i < n ==> BitAt(a, i) == BitAt(b, i)
    ensures a == b
  {
    if n > 0 {
      assert BitAt(a, 0) == BitAt(b, 0);
      forall i | 0 <= i < n - 1
        ensures BitAt(a / 2, i) == BitAt(b / 2, i)
      {
        assert BitAt(a, i + 1) == BitAt(b, i + 1);
      }
      SameNumber(a / 2, b / 2, n - 1);
    }
  }

  lemma {:induction false} SliceBit(a: nat, lo: nat, w: nat, i: nat)
    ensures BitAt(Slice(a, lo, w), i) == if i < w then BitAt(a, lo + i) else 0
    decreases w
  {
    if w == 0 {
      BitOfZero(i);
    } else {
      var s := Slice(a, lo, w);
      assert s / 2 == Slice(a, lo + 1, w - 1) && s % 2 == BitAt(a, lo);
      if i > 0 {
        SliceBit(a, lo + 1, w - 1, i - 1);
      }
    }
  }

  lemma {:induction false} ShlBit(a: nat, n: nat, i: nat)
    ensures BitAt(Shl(a, n), i) == if i < n then 0 else BitAt(a, i - n)
  {
    if n > 0 && i > 0 {
      assert Shl(a, n) / 2 == Shl(a, n - 1);
      ShlBit(a, n - 1, i - 1);
    }
  }

  lemma {:induction false} MergeBit(x: nat, base: nat, lo: nat, w: nat, i: nat)
    ensures BitAt(Merge(x, base, lo, w), i) == if lo <= i < lo + w then BitAt(x, i) else BitAt(base, i)
    decreases lo + w
  {
    var m := Merge(x, base, lo, w);
    if lo > 0 {
      assert m / 2 == Merge(x / 2, base / 2, lo - 1, w) && m % 2 == base % 2;
      if i > 0 {
        MergeBit(x / 2, base / 2, lo - 1, w, i - 1);
      }
    } else if w > 0 {
      assert m / 2 == Merge(x / 2, base / 2, 0, w - 1) && m % 2 == x % 2;
      if i > 0 {
        MergeBit(x / 2, base / 2, 0, w - 1, i - 1);
      }
    }
  }

  lemma {:induction false} OrZero(a: nat)
    ensures Or(a, 0) == a && Or(0, a) == a
  {
    if a > 0 {
      OrZero(a / 2);
    }
  }

  lemma {:induction false} OrSplit(a: nat, b: nat)
    ensures Or(a, b) / 2 == Or(a / 2, b / 2) && Or(a, b) % 2 == if a % 2 == 1 || b % 2 == 1 then 1 else 0
  {
  }

  lemma {:induction false} OrBit(a: nat, b: nat, i: nat)
    ensures BitAt(Or(a, b), i) == if BitAt(a, i) == 1 || BitAt(b, i) == 1 then 1 else 0
    decreases i
  {
    hide Or;
    OrSplit(a, b);
    if i > 0 {
      OrBit(a / 2, b / 2, i - 1);
    }
  }
}
