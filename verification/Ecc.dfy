// The check bits mem.c puts beside register file words, and the distance of the code.
module Ecc {
  import BitFields

  type Byte = b: int | 0 <= b < 256

  // byte[0] to byte[7].
  function Row64(i: nat): set<nat> {
    if i == 0 then
      {0, 1, 3, 4, 6, 8, 10, 11, 13, 15, 17, 19, 21, 23, 25, 26, 28, 30, 32, 34, 36, 38, 40, 42, 44,
       46, 48, 50, 52, 54, 56, 57, 59, 61, 63}
    else if i == 1 then
      {0, 2, 3, 5, 6, 9, 10, 12, 13, 16, 17, 20, 21, 24, 25, 27, 28, 31, 32, 35, 36, 39, 40, 43, 44,
       47, 48, 51, 52, 55, 56, 58, 59, 62, 63}
    else if i == 2 then
      {1, 2, 3, 7, 8, 9, 10, 14, 15, 16, 17, 22, 23, 24, 25, 29, 30, 31, 32, 37, 38, 39, 40, 45, 46,
       47, 48, 53, 54, 55, 56, 60, 61, 62, 63}
    else if i == 3 then
      {4, 5, 6, 7, 8, 9, 10, 18, 19, 20, 21, 22, 23, 24, 25, 33, 34, 35, 36, 37, 38, 39, 40, 49, 50,
       51, 52, 53, 54, 55, 56}
    else if i == 4 then
      {11, 12, 13, 14, 15, 16, 17, 18, 19, 20, 21, 22, 23, 24, 25, 41, 42, 43, 44, 45, 46, 47, 48,
       49, 50, 51, 52, 53, 54, 55, 56}
    else if i == 5 then
      {26, 27, 28, 29, 30, 31, 32, 33, 34, 35, 36, 37, 38, 39, 40, 41, 42, 43, 44, 45, 46, 47, 48,
       49, 50, 51, 52, 53, 54, 55, 56}
    else if i == 6 then
      {57, 58, 59, 60, 61, 62, 63}
    else if i == 7 then
      {0, 1, 2, 4, 5, 7, 10, 11, 12, 14, 17, 18, 21, 23, 24, 26, 27, 29, 32, 33, 36, 38, 39, 41, 44,
       46, 47, 50, 51, 53, 56, 57, 58, 60, 63}
    else {}
  }

  // byte[0] to byte[6].
  function Row32(i: nat): set<nat> {
    if i == 0 then
      {0, 1, 3, 4, 6, 8, 10, 11, 13, 15, 17, 19, 21, 23, 25, 26, 28, 30}
    else if i == 1 then
      {0, 2, 3, 5, 6, 9, 10, 12, 13, 16, 17, 20, 21, 24, 25, 27, 28, 31}
    else if i == 2 then
      {1, 2, 3, 7, 8, 9, 10, 14, 15, 16, 17, 22, 23, 24, 25, 29, 30, 31}
    else if i == 3 then
      {4, 5, 6, 7, 8, 9, 10, 18, 19, 20, 21, 22, 23, 24, 25}
    else if i == 4 then
      {11, 12, 13, 14, 15, 16, 17, 18, 19, 20, 21, 22, 23, 24, 25}
    else if i == 5 then
      {26, 27, 28, 29, 30, 31}
    else if i == 6 then
      {0, 1, 2, 4, 5, 7, 10, 11, 12, 14, 17, 18, 21, 23, 24, 26, 27, 29}
    else {}
  }

  // 32-bit words (fl) get 7 check bits, 64-bit words 8.
  function Width(fl: bool): nat { if fl then 32 else 64 }

  function Checks(fl: bool): nat { if fl then 7 else 8 }

  function Row(fl: bool, i: nat): set<nat> { if fl then Row32(i) else Row64(i) }

  // ---------- words of bits ----------

  function Xor(a: bool, b: bool): bool { a != b }

  // The exclusive or of the bits a row names, among the first n.
  function XorTo(bits: seq<bool>, row: set<nat>, n: nat): bool
    requires n <= |bits|
  {
    if n == 0 then false else Xor(XorTo(bits, row, n - 1), bits[n - 1] && (n - 1) in row)
  }

  // The first m check bits of a word.
  function CheckTo(fl: bool, bits: seq<bool>, m: nat): (c: seq<bool>)
    ensures |c| == m
  {
    if m == 0 then [] else CheckTo(fl, bits, m - 1) + [XorTo(bits, Row(fl, m - 1), |bits|)]
  }

  function Check(fl: bool, bits: seq<bool>): (c: seq<bool>)
    ensures |c| == Checks(fl)
  {
    CheckTo(fl, bits, Checks(fl))
  }

  function Diff(a: seq<bool>, b: seq<bool>): (d: seq<bool>)
    requires |a| == |b|
    ensures |d| == |a| && forall i :: 0 <= i < |d| ==> d[i] == Xor(a[i], b[i])
  {
    seq(|a|, i requires 0 <= i < |a| && |a| == |b| => Xor(a[i], b[i]))
  }

  // How many of the first n bits are set.
  function WeightTo(b: seq<bool>, n: nat): nat
    requires n <= |b|
  {
    if n == 0 then 0 else WeightTo(b, n - 1) + if b[n - 1] then 1 else 0
  }

  function Weight(b: seq<bool>): nat { WeightTo(b, |b|) }

  // How many bits two words differ in.
  function Distance(a: seq<bool>, b: seq<bool>): nat
    requires |a| == |b|
  {
    Weight(Diff(a, b))
  }

  // ---------- the routine ----------

  // Bit j of a byte, lowest first.
  function BitOf(ch: Byte, j: nat): bool {
    if j == 0 then ch % 2 == 1 else BitOf(ch / 2, j - 1)
  }

  // The bits of the first num bytes, the last byte's first.
  function BitsOf(data: seq<Byte>, num: nat): (bits: seq<bool>)
    requires num <= |data|
    ensures |bits| == 8 * num
  {
    seq(8 * num, k requires 0 <= k < 8 * num => BitOf(data[num - 1 - k / 8], k % 8))
  }

  // The number the first n bytes spell, the first byte highest.
  function Number(data: seq<Byte>, n: nat): nat
    requires n <= |data|
  {
    if n == 0 then 0 else 256 * Number(data, n - 1) + data[n - 1]
  }

  // Bits below and above a number put behind another.
  lemma {:induction false} BitBehind(q: nat, b: Byte, n: nat, k: nat)
    requires b < BitFields.Pow2(n)
    ensures BitFields.BitAt(BitFields.Pow2(n) * q + b, k)
         == if k < n then (if BitOf(b, k) then 1 else 0) else BitFields.BitAt(q, k - n)
    decreases n
  {
    if n > 0 {
      var half := BitFields.Pow2(n - 1) * q;
      assert BitFields.Pow2(n) * q == 2 * half;
      if k > 0 {
        assert (2 * half + b) / 2 == half + b / 2;
        BitBehind(q, b / 2, n - 1, k - 1);
      }
    }
  }

  // Bit k of the bits is bit k of the number the bytes spell.
  lemma {:induction false} BitsSpell(data: seq<Byte>, num: nat, k: nat)
    requires num <= |data| && k < 8 * num
    ensures BitsOf(data, num)[k] <==> BitFields.BitAt(Number(data, num), k) == 1
  {
    assert BitFields.Pow2(8) == 256;
    BitBehind(Number(data, num - 1), data[num - 1], 8, k);
    if k >= 8 {
      BitsSpell(data, num - 1, k - 8);
      assert (k - 8) / 8 == k / 8 - 1 && (k - 8) % 8 == k % 8;
    }
  }

  // The loop that takes one byte apart.
  method PushByte(bits: seq<bool>, ch: Byte) returns (bits': seq<bool>)
    ensures |bits'| == |bits| + 8 && bits'[..|bits|] == bits
    ensures forall j :: 0 <= j < 8 ==> bits'[|bits| + j] == BitOf(ch, j)
  {
    var c := ch;
    bits' := bits;
    for j := 0 to 8
      invariant |bits'| == |bits| + j && bits'[..|bits|] == bits
      invariant forall i :: 0 <= i < j ==> bits'[|bits| + i] == BitOf(ch, i)
      invariant forall i: nat :: BitOf(c, i) == BitOf(ch, j + i)
    {
      assert BitOf(c, 0) == BitOf(ch, j + 0);
      bits' := bits' + [c % 2 == 1];
      forall i: nat
        ensures BitOf(c / 2, i) == BitOf(ch, j + 1 + i)
      {
        assert BitOf(c, i + 1) == BitOf(ch, j + (i + 1));
      }
      c := c / 2;
    }
  }

  method FillBits(data: seq<Byte>, num: nat) returns (bits: seq<bool>)
    requires num <= |data|
    ensures bits == BitsOf(data, num)
  {
    bits := [];
    for k := 0 to num
      invariant |bits| == 8 * k && forall m :: 0 <= m < 8 * k ==> bits[m] == BitOf(data[num - 1 - m / 8], m % 8)
    {
      ghost var was := bits;
      bits := PushByte(bits, data[num - 1 - k]);
      forall m | 0 <= m < 8 * k + 8
        ensures bits[m] == BitOf(data[num - 1 - m / 8], m % 8)
      {
        if m < 8 * k {
          assert bits[m] == was[m];
        } else {
          assert m / 8 == k && m % 8 == m - 8 * k;
          assert bits[8 * k + (m - 8 * k)] == BitOf(data[num - 1 - k], m - 8 * k);
        }
      }
    }
  }

  // syndrome: bit i of the result is byte[i].
  method Syndrome(data: seq<Byte>, fl: bool) returns (ch: seq<bool>)
    requires |data| >= Width(fl) / 8
    ensures ch == Check(fl, BitsOf(data, Width(fl) / 8))
  {
    hide Row;
    var bits := FillBits(data, Width(fl) / 8);
    ch := [];
    for i := 0 to Checks(fl)
      invariant ch == CheckTo(fl, bits, i)
    {
      var byte := false;
      for k := 0 to Width(fl)
        invariant byte == XorTo(bits, Row(fl, i), k)
      {
        if k in Row(fl, i) {
          byte := Xor(byte, bits[k]);
        }
      }
      ch := ch + [byte];
    }
  }

  // ---------- linearity ----------

  lemma {:induction false} XorLinear(a: seq<bool>, b: seq<bool>, row: set<nat>, n: nat)
    requires |a| == |b| && n <= |a|
    ensures XorTo(Diff(a, b), row, n) == Xor(XorTo(a, row, n), XorTo(b, row, n))
  {
    if n > 0 {
      XorLinear(a, b, row, n - 1);
    }
  }

  lemma {:induction false} CheckAt(fl: bool, bits: seq<bool>, m: nat, i: nat)
    requires i < m
    ensures CheckTo(fl, bits, m)[i] == XorTo(bits, Row(fl, i), |bits|)
  {
    if i < m - 1 {
      CheckAt(fl, bits, m - 1, i);
    }
  }

  // The check bits of an exclusive or are the exclusive or of the check bits.
  lemma SyndromeLinear(fl: bool, a: seq<bool>, b: seq<bool>)
    requires |a| == |b|
    ensures Check(fl, Diff(a, b)) == Diff(Check(fl, a), Check(fl, b))
  {
    forall i | 0 <= i < Checks(fl)
      ensures Check(fl, Diff(a, b))[i] == Xor(Check(fl, a)[i], Check(fl, b)[i])
    {
      CheckAt(fl, Diff(a, b), Checks(fl), i);
      CheckAt(fl, a, Checks(fl), i);
      CheckAt(fl, b, Checks(fl), i);
      XorLinear(a, b, Row(fl, i), |a|);
    }
  }

  // ---------- columns ----------

  // Which check bits a data bit enters.
  function Column(fl: bool, j: nat): (c: seq<bool>)
    ensures |c| == Checks(fl) && forall i :: 0 <= i < |c| ==> c[i] == (j in Row(fl, i))
  {
    seq(Checks(fl), i requires 0 <= i => j in Row(fl, i))
  }

  // The Hamming position of data bit j: the powers of two are left out.
  function Position(j: nat): nat {
    if j < 1 then 3 else if j < 4 then j + 4 else if j < 11 then j + 5
    else if j < 26 then j + 6 else if j < 57 then j + 7 else j + 8
  }

  lemma Row32Is0(j: nat)
    requires j < 32
    ensures j in Row32(0) <==> Position(j) % 2 == 1
  {
  }

  lemma Row32Is1(j: nat)
    requires j < 32
    ensures j in Row32(1) <==> Position(j) / 2 % 2 == 1
  {
  }

  lemma Row32Is2(j: nat)
    requires j < 32
    ensures j in Row32(2) <==> Position(j) / 4 % 2 == 1
  {
  }

  lemma Row32Is3(j: nat)
    requires j < 32
    ensures j in Row32(3) <==> Position(j) / 8 % 2 == 1
  {
  }

  lemma Row32Is4(j: nat)
    requires j < 32
    ensures j in Row32(4) <==> Position(j) / 16 % 2 == 1
  {
  }

  lemma Row32Is5(j: nat)
    requires j < 32
    ensures j in Row32(5) <==> Position(j) / 32 % 2 == 1
  {
  }

  lemma Row64Is0(j: nat)
    requires j < 64
    ensures j in Row64(0) <==> Position(j) % 2 == 1
  {
  }

  lemma Row64Is1(j: nat)
    requires j < 64
    ensures j in Row64(1) <==> Position(j) / 2 % 2 == 1
  {
  }

  lemma Row64Is2(j: nat)
    requires j < 64
    ensures j in Row64(2) <==> Position(j) / 4 % 2 == 1
  {
    if j < 26 {
      assert Position(j) < 32;
    }
  }

  lemma Row64Is3(j: nat)
    requires j < 64
    ensures j in Row64(3) <==> Position(j) / 8 % 2 == 1
  {
  }

  lemma Row64Is4(j: nat)
    requires j < 64
    ensures j in Row64(4) <==> Position(j) / 16 % 2 == 1
  {
  }

  lemma Row64Is5(j: nat)
    requires j < 64
    ensures j in Row64(5) <==> Position(j) / 32 % 2 == 1
  {
  }

  lemma Row64Is6(j: nat)
    requires j < 64
    ensures j in Row64(6) <==> Position(j) / 64 % 2 == 1
  {
  }

  // The parity of a number below 128.
  function Parity(p: nat): bool {
    Xor(Xor(Xor(p % 2 == 1, p / 2 % 2 == 1), Xor(p / 4 % 2 == 1, p / 8 % 2 == 1)),
        Xor(Xor(p / 16 % 2 == 1, p / 32 % 2 == 1), p / 64 % 2 == 1))
  }

  lemma Row32IsParity(j: nat)
    requires j < 32
    ensures j in Row32(6) <==> !Parity(Position(j))
  {
  }

  lemma Row64IsParity(j: nat)
    requires j < 64
    ensures j in Row64(7) <==> !Parity(Position(j))
  {
    hide Row64;
    hide Parity;
    hide Position;
    if j < 32 {
      LowIsParity(j);
    } else {
      HighIsParity(j);
    }
  }

  lemma LowIsParity(j: nat)
    requires j < 32
    ensures j in Row64(7) <==> !Parity(Position(j))
  {
    hide Row64;
    hide Parity;
    hide Position;
    if j < 16 {
      FirstIsParity(j);
    } else {
      SecondIsParity(j);
    }
  }

  lemma FirstIsParity(j: nat)
    requires j < 16
    ensures j in Row64(7) <==> !Parity(Position(j))
  {
  }

  lemma SecondIsParity(j: nat)
    requires 16 <= j < 32
    ensures j in Row64(7) <==> !Parity(Position(j))
  {
  }

  lemma HighIsParity(j: nat)
    requires 32 <= j < 64
    ensures j in Row64(7) <==> !Parity(Position(j))
  {
    hide Row64;
    hide Parity;
    hide Position;
    if j < 48 {
      ThirdIsParity(j);
    } else {
      FourthIsParity(j);
    }
  }

  lemma ThirdIsParity(j: nat)
    requires 32 <= j < 48
    ensures j in Row64(7) <==> !Parity(Position(j))
  {
  }

  lemma FourthIsParity(j: nat)
    requires 48 <= j < 64
    ensures j in Row64(7) <==> !Parity(Position(j))
  {
  }

  // A column spells its bit's position, and makes the weight odd.
  lemma ColumnIs(fl: bool, j: nat)
    requires j < Width(fl)
    ensures var c, p := Column(fl, j), Position(j);
      && c[0] == (p % 2 == 1) && c[1] == (p / 2 % 2 == 1) && c[2] == (p / 4 % 2 == 1) && c[3] == (p / 8 % 2 == 1)
      && c[4] == (p / 16 % 2 == 1) && c[5] == (p / 32 % 2 == 1) && (fl || c[6] == (p / 64 % 2 == 1))
      && c[Checks(fl) - 1] == !Parity(p) && p < (if fl then 64 else 128)
  {
    hide Row32;
    hide Row64;
    hide Parity;
    if fl {
      Row32Is0(j);
      Row32Is1(j);
      Row32Is2(j);
      Row32Is3(j);
      Row32Is4(j);
      Row32Is5(j);
      Row32IsParity(j);
    } else {
      Row64Is0(j);
      Row64Is1(j);
      Row64Is2(j);
      Row64Is3(j);
      Row64Is4(j);
      Row64Is5(j);
      Row64Is6(j);
      Row64IsParity(j);
    }
  }

  function One(b: bool): nat { if b then 1 else 0 }

  lemma WeightStep(c: seq<bool>, n: nat)
    requires n < |c|
    ensures WeightTo(c, 0) == 0 && WeightTo(c, n + 1) == WeightTo(c, n) + One(c[n])
  {
  }

  lemma WeightOfCheck(c: seq<bool>)
    requires |c| == 7 || |c| == 8
    ensures Weight(c) == One(c[0]) + One(c[1]) + One(c[2]) + One(c[3]) + One(c[4]) + One(c[5]) + One(c[6])
                         + if |c| == 8 then One(c[7]) else 0
  {
    hide WeightTo;
    WeightStep(c, 0);
    WeightStep(c, 1);
    WeightStep(c, 2);
    WeightStep(c, 3);
    WeightStep(c, 4);
    WeightStep(c, 5);
    WeightStep(c, 6);
    if |c| == 8 {
      WeightStep(c, 7);
    }
  }

  lemma NotPowerOfTwo(j: nat)
    requires j < 64
    ensures var p := Position(j);
      p < 128 && One(p % 2 == 1) + One(p / 2 % 2 == 1) + One(p / 4 % 2 == 1) + One(p / 8 % 2 == 1)
        + One(p / 16 % 2 == 1)
      + One(p / 32 % 2 == 1) + One(p / 64 % 2 == 1) >= 2
  {
  }

  lemma OddOnes(a: bool, b: bool, c: bool, d: bool, e: bool, f: bool, g: bool)
    ensures var last := !Xor(Xor(Xor(a, b), Xor(c, d)), Xor(Xor(e, f), g));
      (One(a) + One(b) + One(c) + One(d) + One(e) + One(f) + One(g) + One(last)) % 2 == 1
  {
  }

  // Every column has odd weight, three or more.
  lemma ColumnWeight(fl: bool, j: nat)
    requires j < Width(fl)
    ensures Weight(Column(fl, j)) % 2 == 1 && Weight(Column(fl, j)) >= 3
  {
    hide Column;
    hide Position;
    hide Weight;
    hide Row;
    hide WeightTo;
    hide Xor;
    ColumnIs(fl, j);
    NotPowerOfTwo(j);
    var p := Position(j);
    OddOnes(p % 2 == 1, p / 2 % 2 == 1, p / 4 % 2 == 1, p / 8 % 2 == 1, p / 16 % 2 == 1, p / 32 % 2 == 1,
      p / 64 % 2 == 1);
    WeightOfCheck(Column(fl, j));
  }

  lemma BitsDetermine(p: nat, q: nat)
    requires p < 128 && q < 128
    requires p % 2 == q % 2 && p / 2 % 2 == q / 2 % 2 && p / 4 % 2 == q / 4 % 2 && p / 8 % 2 == q / 8 % 2
    requires p / 16 % 2 == q / 16 % 2 && p / 32 % 2 == q / 32 % 2 && p / 64 % 2 == q / 64 % 2
    ensures p == q
  {
    Halves(p);
    Halves(q);
  }

  lemma Halves(p: nat)
    requires p < 128
    ensures p == 2 * (p / 2) + p % 2 && p / 2 == 2 * (p / 4) + p / 2 % 2 && p / 4 == 2 * (p / 8) + p / 4 % 2
    ensures p / 8 == 2 * (p / 16) + p / 8 % 2 && p / 16 == 2 * (p / 32) + p / 16 % 2
      && p / 32 == 2 * (p / 64) + p / 32 % 2
    ensures p / 64 == p / 64 % 2
  {
    Half(p, 1);
    Half(p, 2);
    Half(p, 4);
    Half(p, 8);
    Half(p, 16);
    Half(p, 32);
  }

  lemma Half(p: nat, w: nat)
    requires w == 1 || w == 2 || w == 4 || w == 8 || w == 16 || w == 32
    ensures p / w == 2 * (p / (2 * w)) + p / w % 2
  {
    assert p / w / 2 == p / (2 * w);
  }

  // No two data bits have the same column.
  lemma ColumnsDiffer(fl: bool, j: nat, k: nat)
    requires j < Width(fl) && k < Width(fl) && j != k
    ensures Column(fl, j) != Column(fl, k)
  {
    hide Row;
    if Column(fl, j) == Column(fl, k) {
      ColumnIs(fl, j);
      ColumnIs(fl, k);
      BitsDetermine(Position(j), Position(k));
    }
  }

  // ---------- distance ----------

  lemma {:induction false} WeightPeel(b: seq<bool>, n: nat, j: nat)
    requires n <= |b| && j < |b| && b[j]
    ensures WeightTo(b, n) == WeightTo(b[j := false], n) + if j < n then 1 else 0
  {
    if n > 0 {
      WeightPeel(b, n - 1, j);
    }
  }

  lemma {:induction false} XorPeel(b: seq<bool>, row: set<nat>, n: nat, j: nat)
    requires n <= |b| && j < |b| && b[j]
    ensures XorTo(b, row, n) == Xor(XorTo(b[j := false], row, n), j < n && j in row)
  {
    if n > 0 {
      XorPeel(b, row, n - 1, j);
    }
  }

  // Taking one set bit out of a word takes its column out of the check bits.
  lemma CheckPeel(fl: bool, b: seq<bool>, j: nat)
    requires j < |b| && b[j]
    ensures Check(fl, b) == Diff(Check(fl, b[j := false]), Column(fl, j))
  {
    forall i | 0 <= i < Checks(fl)
      ensures Check(fl, b)[i] == Xor(Check(fl, b[j := false])[i], Column(fl, j)[i])
    {
      hide Row;
      CheckAt(fl, b, Checks(fl), i);
      CheckAt(fl, b[j := false], Checks(fl), i);
      XorPeel(b, Row(fl, i), |b|, j);
    }
  }

  lemma {:induction false} SomeSet(b: seq<bool>, n: nat) returns (j: nat)
    requires n <= |b| && WeightTo(b, n) > 0
    ensures j < n && b[j]
  {
    j := n - 1;
    if !b[j] {
      j := SomeSet(b, n - 1);
    }
  }

  lemma {:induction false} NoneSet(b: seq<bool>, n: nat)
    requires n <= |b|
    ensures WeightTo(b, n) == 0 <==> forall i :: 0 <= i < n ==> !b[i]
  {
    if n > 0 {
      NoneSet(b, n - 1);
    }
  }

  lemma {:induction false} XorNone(b: seq<bool>, row: set<nat>, n: nat)
    requires n <= |b| && forall i :: 0 <= i < n ==> !b[i]
    ensures !XorTo(b, row, n)
  {
    if n > 0 {
      XorNone(b, row, n - 1);
    }
  }

  // The check bits of a word without set bits.
  lemma CheckNone(fl: bool, b: seq<bool>)
    requires Weight(b) == 0
    ensures forall i :: 0 <= i < Checks(fl) ==> !Check(fl, b)[i]
  {
    hide Row;
    NoneSet(b, |b|);
    forall i | 0 <= i < Checks(fl)
      ensures !Check(fl, b)[i]
    {
      CheckAt(fl, b, Checks(fl), i);
      XorNone(b, Row(fl, i), |b|);
    }
  }

  lemma {:induction false} OddDiff(a: seq<bool>, b: seq<bool>, n: nat)
    requires |a| == |b| && n <= |a|
    ensures WeightTo(Diff(a, b), n) % 2 == (WeightTo(a, n) + WeightTo(b, n)) % 2
  {
    if n > 0 {
      OddDiff(a, b, n - 1);
    }
  }

  // A word of weight w has check bits of weight w modulo two.
  lemma {:induction false} CheckParity(fl: bool, b: seq<bool>)
    requires |b| == Width(fl)
    ensures Weight(Check(fl, b)) % 2 == Weight(b) % 2
    decreases Weight(b)
  {
    hide Row;
    hide Column;
    hide Check;
    hide WeightTo;
    hide Diff;
    if Weight(b) == 0 {
      CheckNone(fl, b);
      NoneSet(Check(fl, b), Checks(fl));
    } else {
      var j := SomeSet(b, |b|);
      WeightPeel(b, |b|, j);
      CheckParity(fl, b[j := false]);
      CheckPeel(fl, b, j);
      OddDiff(Check(fl, b[j := false]), Column(fl, j), Checks(fl));
      ColumnWeight(fl, j);
    }
  }

  // A word with one set bit has that bit's column as its check bits.
  lemma CheckOfOne(fl: bool, b: seq<bool>) returns (j: nat)
    requires |b| == Width(fl) && Weight(b) == 1
    ensures j < |b| && b[j] && Check(fl, b) == Column(fl, j)
  {
    hide Row;
    j := SomeSet(b, |b|);
    WeightPeel(b, |b|, j);
    CheckPeel(fl, b, j);
    CheckNone(fl, b[j := false]);
    assert Diff(Check(fl, b[j := false]), Column(fl, j)) == Column(fl, j);
  }

  // Two set bits never cancel in the check bits.
  lemma CheckOfTwo(fl: bool, b: seq<bool>)
    requires |b| == Width(fl) && Weight(b) == 2
    ensures Weight(Check(fl, b)) > 0
  {
    hide Row;
    hide Column;
    hide Check;
    var j := SomeSet(b, |b|);
    WeightPeel(b, |b|, j);
    var k := CheckOfOne(fl, b[j := false]);
    CheckPeel(fl, b, j);
    ColumnsDiffer(fl, k, j);
    NoneSet(Check(fl, b), Checks(fl));
    if Weight(Check(fl, b)) == 0 {
      forall i | 0 <= i < Checks(fl)
        ensures Column(fl, k)[i] == Column(fl, j)[i]
      {
        assert !Check(fl, b)[i];
      }
    }
  }

  // A word that is not zero has four bits set, check bits counted in.
  lemma FourBits(fl: bool, b: seq<bool>)
    requires |b| == Width(fl) && Weight(b) > 0
    ensures Weight(b) + Weight(Check(fl, b)) >= 4
  {
    hide Row;
    hide Column;
    hide Check;
    CheckParity(fl, b);
    if Weight(b) == 1 {
      var j := CheckOfOne(fl, b);
      ColumnWeight(fl, j);
    } else if Weight(b) == 2 {
      CheckOfTwo(fl, b);
    }
  }

  // Any two different words and their check bits differ in at least four bits.
  lemma DistanceFour(fl: bool, x: seq<bool>, y: seq<bool>)
    requires |x| == |y| == Width(fl) && x != y
    ensures Distance(x, y) + Distance(Check(fl, x), Check(fl, y)) >= 4
  {
    hide Row;
    hide Check;
    SyndromeLinear(fl, x, y);
    NoneSet(Diff(x, y), |x|);
    assert exists i :: 0 <= i < |x| && x[i] != y[i];
    var i :| 0 <= i < |x| && x[i] != y[i];
    assert Diff(x, y)[i];
    FourBits(fl, Diff(x, y));
  }

  // ---------- the words syndrome is given ----------

  // A byte is its bits.
  lemma {:induction false} SameByte(a: Byte, b: Byte, n: nat)
    requires a < BitFields.Pow2(n) && b < BitFields.Pow2(n) && forall j :: 0 <= j < n ==> BitOf(a, j) == BitOf(b, j)
    ensures a == b
  {
    if n > 0 {
      assert BitOf(a, 0) == BitOf(b, 0);
      forall j | 0 <= j < n - 1
        ensures BitOf(a / 2, j) == BitOf(b / 2, j)
      {
        assert BitOf(a, j + 1) == BitOf(b, j + 1);
      }
      SameByte(a / 2, b / 2, n - 1);
    }
  }

  // Different bytes have different bits.
  lemma BitsOfApart(data: seq<Byte>, data': seq<Byte>, num: nat)
    requires num <= |data| && num <= |data'| && BitsOf(data, num) == BitsOf(data', num)
    ensures data[..num] == data'[..num]
  {
    forall k | 0 <= k < num
      ensures data[k] == data'[k]
    {
      forall j | 0 <= j < 8
        ensures BitOf(data[k], j) == BitOf(data'[k], j)
      {
        var m := 8 * (num - 1 - k) + j;
        assert m / 8 == num - 1 - k && m % 8 == j;
        assert BitsOf(data, num)[m] == BitsOf(data', num)[m];
      }
      assert BitFields.Pow2(8) == 256 by {
        assert BitFields.Pow2(4) == 16;
      }
      SameByte(data[k], data'[k], 8);
    }
  }

  // What syndrome is given differs, with what it returns, in at least four bits from
  // any other word.
  lemma WordsFourApart(fl: bool, data: seq<Byte>, data': seq<Byte>)
    requires var n := Width(fl) / 8; n <= |data| && n <= |data'| && data[..n] != data'[..n]
    ensures var x, y := BitsOf(data, Width(fl) / 8), BitsOf(data', Width(fl) / 8);
      Distance(x, y) + Distance(Check(fl, x), Check(fl, y)) >= 4
  {
    hide Check;
    hide BitsOf;
    var n := Width(fl) / 8;
    if BitsOf(data, n) == BitsOf(data', n) {
      BitsOfApart(data, data', n);
    }
    DistanceFour(fl, BitsOf(data, n), BitsOf(data', n));
  }

  lemma {:induction false} WeightTriangle(a: seq<bool>, b: seq<bool>, c: seq<bool>, n: nat)
    requires |a| == |b| == |c| && n <= |a|
    ensures WeightTo(Diff(a, c), n) <= WeightTo(Diff(a, b), n) + WeightTo(Diff(b, c), n)
    ensures WeightTo(Diff(a, b), n) == WeightTo(Diff(b, a), n)
  {
    if n > 0 {
      WeightTriangle(a, b, c, n - 1);
    }
  }

  // How many bits of word x and its check bits were received wrong.
  function Errors(fl: bool, x: seq<bool>, word: seq<bool>, check: seq<bool>): nat
    requires |x| == |word| && |check| == Checks(fl)
  {
    Distance(x, word) + Distance(Check(fl, x), check)
  }

  // However a word was received, another word is as many wrong bits away as are left
  // of four: one wrong bit can be put right, and two are never taken for one.
  lemma ErrorsApart(fl: bool, x: seq<bool>, y: seq<bool>, word: seq<bool>, check: seq<bool>)
    requires |x| == |y| == |word| == Width(fl) && |check| == Checks(fl) && x != y
    ensures Errors(fl, x, word, check) + Errors(fl, y, word, check) >= 4
  {
    hide Check;
    DistanceFour(fl, x, y);
    WeightTriangle(x, word, y, |x|);
    WeightTriangle(y, word, x, |x|);
    WeightTriangle(Check(fl, x), check, Check(fl, y), |check|);
    WeightTriangle(Check(fl, y), check, Check(fl, x), |check|);
  }

  // One to three wrong bits are noticed: the check bits of what was received are not
  // those that were received.
  lemma ErrorsNoticed(fl: bool, x: seq<bool>, word: seq<bool>, check: seq<bool>)
    requires |x| == |word| == Width(fl) && |check| == Checks(fl) && 1 <= Errors(fl, x, word, check) <= 3
    ensures Check(fl, word) != check
  {
    hide Check;
    if Check(fl, word) == check {
      NoDistance(word, |word|);
      NoDistance(check, |check|);
      if x != word {
        ErrorsApart(fl, x, word, word, check);
      }
    }
  }

  lemma {:induction false} NoDistance(a: seq<bool>, n: nat)
    requires n <= |a|
    ensures WeightTo(Diff(a, a), n) == 0
  {
    if n > 0 {
      NoDistance(a, n - 1);
    }
  }
}
