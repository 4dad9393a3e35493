// The 64-bit simulated memory of iob_main.cc: 64-byte lines in the B-tree behind a
// one-line cache.

// Addresses, big-endian words, and what a run of accesses means.
module FlatMemory {
  import opened Common
  import opened Atoms

  const TWO_40: nat := 0x100_0000_0000

  // (key & 0xffffffffff) >> 6: the line of a 40-bit byte address.
  function LineOf(key: Key): Key {
    (key % TWO_40) / 64
  }

  // key & 0x38: where the 8-byte word starts in its line.
  function OffsetOf(key: Key): (o: nat)
    ensures o <= ATOM_DATA_SIZE - 8 && o % 8 == 0
  {
    key / 8 % 8 * 8
  }

  // bw_lib.c masks after shifting and iob_main.cc before; both find the same line.
  lemma MaskAfterShift(key: Key)
    ensures LineOf(key) == key / 64 % 0x4_0000_0000
  {
    var q, r := key / TWO_40, key % TWO_40;
    assert key / 64 == q * 0x4_0000_0000 + r / 64;
  }

  ghost predicate SameWord(k: Key, k': Key) {
    k % TWO_40 / 8 == k' % TWO_40 / 8
  }

  lemma CellOf(x: Key)
    ensures LineOf(x) == x % TWO_40 / 8 / 8 && OffsetOf(x) == x % TWO_40 / 8 % 8 * 8
  {
    var q, r := x / TWO_40, x % TWO_40;
    var w, b := r / 8, r % 8;
    var l, o := w / 8, w % 8;
    Quotient(r, 64, l, 8 * o + b);
    Quotient(x, 8, 0x20_0000_0000 * q + w, b);
    Quotient(x / 8, 8, 0x4_0000_0000 * q + l, o);
  }

  lemma SameWordIffSameCell(k: Key, k': Key)
    ensures SameWord(k, k') <==> LineOf(k) == LineOf(k') && OffsetOf(k) == OffsetOf(k')
  {
    CellOf(k);
    CellOf(k');
  }

  // ---------- words in lines ----------

  function Pow256(n: nat): (p: nat)
    ensures p > 0
  {
    if n == 0 then 1 else 256 * Pow256(n - 1)
  }

  function Decode(b: seq<Byte>): nat {
    if b == [] then 0 else Decode(b[..|b| - 1]) * 256 + b[|b| - 1]
  }

  function Encode(v: nat, n: nat): (b: seq<Byte>)
    ensures |b| == n
  {
    if n == 0 then [] else Encode(v / 256, n - 1) + [v % 256]
  }

  lemma {:induction false} DecodeBound(b: seq<Byte>)
    ensures Decode(b) < Pow256(|b|)
  {
    if b != [] {
      DecodeBound(b[..|b| - 1]);
    }
  }

  // The first byte is the highest.
  lemma {:induction false} FirstHighest(b: Byte, rest: seq<Byte>)
    ensures Decode([b] + rest) == b * Pow256(|rest|) + Decode(rest)
  {
    var all := [b] + rest;
    if rest == [] {
      assert all[..0] == [];
    } else {
      var n := |rest| - 1;
      assert all[..|all| - 1] == [b] + rest[..n];
      FirstHighest(b, rest[..n]);
      assert b * Pow256(n + 1) == 256 * (b * Pow256(n));
    }
  }

  lemma QuotientBound(v: nat, p: nat)
    requires v < 256 * p
    ensures v / 256 < p
  {
  }

  lemma {:induction false} DecodeEncode(v: nat, n: nat)
    requires v < Pow256(n)
    ensures Decode(Encode(v, n)) == v
  {
    if n > 0 {
      var b := Encode(v, n);
      assert b[..n - 1] == Encode(v / 256, n - 1);
      QuotientBound(v, Pow256(n - 1));
      assert b[n - 1] == v % 256 && v == v / 256 * 256 + v % 256;
      DecodeEncode(v / 256, n - 1);
    }
  }

  lemma Pow256Of8()
    ensures Pow256(8) == TWO_64
  {
    assert Pow256(2) == 0x1_0000;
    assert Pow256(4) == 0x1_0000_0000;
    assert Pow256(6) == 0x1_0000_0000_0000;
  }

  // ---------- memory as lines ----------

  // Every line is present; a line never stored reads as zeros.
  type Lines = imap<Key, seq<Byte>>

  ghost predicate IsMemory(m: Lines) {
    forall k: Key :: k in m && |m[k]| == ATOM_DATA_SIZE
  }

  ghost function ReadWord(m: Lines, key: Key): Word
    requires IsMemory(m)
  {
    var o := OffsetOf(key);
    DecodeBound(m[LineOf(key)][o..o + 8]);
    Pow256Of8();
    Decode(m[LineOf(key)][o..o + 8])
  }

  function PutBytes(line: seq<Byte>, o: nat, b: seq<Byte>): (r: seq<Byte>)
    requires o + |b| <= |line|
    ensures |r| == |line|
  {
    line[..o] + b + line[o + |b|..]
  }

  ghost function WriteWord(m: Lines, key: Key, v: Word): (m': Lines)
    requires IsMemory(m)
    ensures IsMemory(m')
  {
    m[LineOf(key) := PutBytes(m[LineOf(key)], OffsetOf(key), Encode(v, 8))]
  }

  // A word reads back what was last written to it, and writing it disturbs no other.
  lemma ReadAfterWrite(m: Lines, key: Key, v: Word, key': Key)
    requires IsMemory(m)
    ensures ReadWord(WriteWord(m, key, v), key') == if SameWord(key, key') then v else ReadWord(m, key')
  {
    SameWordIffSameCell(key, key');
    var o, o' := OffsetOf(key), OffsetOf(key');
    var m' := WriteWord(m, key, v);
    if LineOf(key) == LineOf(key') {
      var line, line' := m[LineOf(key)], m'[LineOf(key)];
      if o == o' {
        assert line'[o..o + 8] == Encode(v, 8);
        Pow256Of8();
        DecodeEncode(v, 8);
      } else {
        assert o + 8 <= o' || o' + 8 <= o;
        assert line'[o'..o' + 8] == line[o'..o' + 8];
      }
    }
  }

  // ---------- runs of accesses ----------

  datatype Access = Read(key: Key) | Write(key: Key, value: Word)

  // A read of line 0 before any access found its line takes the empty cache for
  // a hit and dereferences its null pointer.
  datatype Answer = Value(word: Word) | NullDereference | Done

  // lines: the contents.  stored: the lines in the tree.  warm: the cache cannot
  // be mistaken for a hit on line 0.
  datatype State = State(lines: Lines, stored: set<Key>, warm: bool)

  ghost predicate Good(s: State) {
    && IsMemory(s.lines)
    && (forall k: Key :: k !in s.stored ==> s.lines[k] == Zeros())
  }

  function Zeros(): (z: seq<Byte>)
    ensures |z| == ATOM_DATA_SIZE && forall i :: 0 <= i < |z| ==> z[i] == 0
  {
    seq(ATOM_DATA_SIZE, i => 0)
  }

  ghost predicate Faults(s: State, a: Access) {
    a.Read? && !s.warm && LineOf(a.key) == 0
  }

  ghost function Step(s: State, a: Access): (State, Answer)
    requires Good(s)
  {
    var line := LineOf(a.key);
    if Faults(s, a) then (s, NullDereference)
    else
      var warm := s.warm || line in s.stored;
      match a
      case Read(key) => (s.(warm := warm), Value(ReadWord(s.lines, key)))
      case Write(key, v) => (State(WriteWord(s.lines, key, v), s.stored + {line}, warm), Done)
  }

  ghost function After(s: State, run: seq<Access>): (s': State)
    requires Good(s)
    ensures Good(s')
  {
    if run == [] then s
    else
      var s1 := After(s, run[..|run| - 1]);
      Step(s1, run[|run| - 1]).0
  }

  // What access i of a run answers.
  ghost function AnswerAt(s: State, run: seq<Access>, i: nat): Answer
    requires Good(s) && i < |run|
  {
    Step(After(s, run[..i]), run[i]).1
  }

  // The last value a run writes to the word at `key`, or what it held before.
  ghost function LastWritten(before: Lines, run: seq<Access>, key: Key): Word
    requires IsMemory(before)
  {
    if run == [] then ReadWord(before, key)
    else
      var a := run[|run| - 1];
      if a.Write? && SameWord(a.key, key) then a.value else LastWritten(before, run[..|run| - 1], key)
  }

  ghost function LinesWritten(run: seq<Access>): set<Key> {
    set i | 0 <= i < |run| && run[i].Write? :: LineOf(run[i].key)
  }

  lemma {:induction false} RunMemory(s: State, run: seq<Access>, key: Key)
    requires Good(s)
    ensures ReadWord(After(s, run).lines, key) == LastWritten(s.lines, run, key)
  {
    if run != [] {
      var a := run[|run| - 1];
      var s1 := After(s, run[..|run| - 1]);
      RunMemory(s, run[..|run| - 1], key);
      if a.Write? {
        ReadAfterWrite(s1.lines, a.key, a.value, key);
      }
    }
  }

  // A read anywhere in any run answers the last value written to its word, the
  // word's initial value if there was none, unless it is the one case that faults.
  lemma {:induction false} ReadsLastWrite(s: State, run: seq<Access>, i: nat)
    requires Good(s) && i < |run| && run[i].Read?
    ensures AnswerAt(s, run, i) ==
      if Faults(After(s, run[..i]), run[i]) then NullDereference
      else Value(LastWritten(s.lines, run[..i], run[i].key))
  {
    RunMemory(s, run[..i], run[i].key);
  }

  // An access finds its line if the line was in the image or was written earlier.
  ghost predicate Finds(s: State, run: seq<Access>, j: nat)
    requires j < |run|
  {
    LineOf(run[j].key) in s.stored + LinesWritten(run[..j])
  }

  lemma LinesWrittenSnoc(run: seq<Access>, a: Access)
    ensures LinesWritten(run + [a]) == LinesWritten(run) + (if a.Write? then {LineOf(a.key)} else {})
  {
    var run' := run + [a];
    forall k | k in LinesWritten(run')
      ensures k in LinesWritten(run) + (if a.Write? then {LineOf(a.key)} else {})
    {
      var j :| 0 <= j < |run'| && run'[j].Write? && LineOf(run'[j].key) == k;
      assert j == |run| || run[j] == run'[j];
    }
    forall k | k in LinesWritten(run)
      ensures k in LinesWritten(run')
    {
      var j :| 0 <= j < |run| && run[j].Write? && LineOf(run[j].key) == k;
      assert run'[j] == run[j];
    }
    if a.Write? {
      assert run'[|run|] == a;
    }
  }

  lemma {:induction false} RunStored(s: State, run: seq<Access>)
    requires Good(s)
    ensures After(s, run).stored == s.stored + LinesWritten(run)
  {
    if run != [] {
      var n := |run| - 1;
      RunStored(s, run[..n]);
      LinesWrittenSnoc(run[..n], run[n]);
      assert run == run[..n] + [run[n]];
    }
  }

  ghost predicate FaultFree(s: State, run: seq<Access>)
    requires Good(s)
  {
    run == [] || (FaultFree(s, run[..|run| - 1]) && !Faults(After(s, run[..|run| - 1]), run[|run| - 1]))
  }

  ghost predicate SomeFind(s: State, run: seq<Access>, n: nat)
    requires n <= |run|
  {
    exists j :: 0 <= j < n && Finds(s, run, j)
  }

  lemma {:induction false} RunWarm(s: State, run: seq<Access>)
    requires Good(s) && FaultFree(s, run)
    ensures After(s, run).warm <==> s.warm || SomeFind(s, run, |run|)
  {
    if run != [] {
      var n := |run| - 1;
      RunWarm(s, run[..n]);
      RunStored(s, run[..n]);
      FindsPrefix(s, run, n);
      assert Finds(s, run, n) <==> LineOf(run[n].key) in After(s, run[..n]).stored;
    }
  }

  lemma FindsPrefix(s: State, run: seq<Access>, n: nat)
    requires n <= |run|
    ensures SomeFind(s, run[..n], n) <==> SomeFind(s, run, n)
  {
    forall j | 0 <= j < n
      ensures Finds(s, run[..n], j) <==> Finds(s, run, j)
    {
      assert run[..n][..j] == run[..j];
    }
  }

  // Every read of line 0 comes after an access that found its line.
  ghost predicate LineZeroAfterFind(s: State, run: seq<Access>) {
    forall i :: 0 <= i < |run| && run[i].Read? && LineOf(run[i].key) == 0 ==> SomeFind(s, run, i)
  }

  // Exactly which runs never dereference the null pointer.
  lemma {:induction false} FaultFreeIff(s: State, run: seq<Access>)
    requires Good(s)
    ensures FaultFree(s, run) <==> s.warm || LineZeroAfterFind(s, run)
  {
    if run != [] {
      var n := |run| - 1;
      var init := run[..n];
      FaultFreeIff(s, init);
      FindsPrefix(s, run, n);
      assert LineZeroAfterFind(s, init) <==>
        forall i :: 0 <= i < n && run[i].Read? && LineOf(run[i].key) == 0 ==> SomeFind(s, run, i) by {
        forall i | 0 <= i < n
          ensures init[i] == run[i] && (SomeFind(s, init, i) <==> SomeFind(s, run, i))
        {
          FindsPrefix(s, run, i);
          FindsPrefix(s, init, i);
          assert init[..i] == run[..i];
        }
      }
      if FaultFree(s, init) {
        RunWarm(s, init);
      }
    }
  }

  // In particular every run that keeps off line 0 answers every read with the
  // last value written.
  lemma RunsOffLineZero(s: State, run: seq<Access>, i: nat)
    requires Good(s) && i < |run| && run[i].Read?
    requires forall j :: 0 <= j < |run| ==> LineOf(run[j].key) != 0
    ensures AnswerAt(s, run, i) == Value(LastWritten(s.lines, run[..i], run[i].key))
  {
    ReadsLastWrite(s, run, i);
  }

  function ZeroLine(k: Key): seq<Byte> {
    Zeros()
  }

  // The empty memory as init_jbus_model_call leaves it without an image.
  ghost function Blank(oram: bool): (s: State)
    ensures Good(s)
  {
    State(imap k: Key :: ZeroLine(k), {}, oram)
  }

  // The fault is real: writing word 0 of a fresh memory and reading it back
  // follows the null pointer, because the write that inserts a line does not
  // fill the cache.  A second write finds the line and cures it.
  lemma FaultExample(v: Word)
    ensures AnswerAt(Blank(false), [Write(0, v), Read(0)], 1) == NullDereference
    ensures AnswerAt(Blank(false), [Write(0, v), Write(0, v), Read(0)], 2) == Value(v)
  {
    var s, w := Blank(false), Write(0, v);
    var run := [w, w, Read(0)];
    assert [w, Read(0)][..1] == [w] && [w][..0] == [];
    assert After(s, [w]) == Step(s, w).0;
    assert run[..2] == [w, w] && [w, w][..1] == [w];
    ReadAfterWrite(After(s, [w]).lines, 0, v, 0);
  }
}

module SimMemory {
  import opened Common
  import opened Atoms
  import opened BTreeHeap
  import opened FlatMemory
  import BTreeSpec

  // get_eight_byte: `val <<= 8` drops what leaves 64 bits.
  method GetEightByte(data: array<Byte>, key: Key) returns (val: Word)
    requires data.Length == ATOM_DATA_SIZE + 1
    ensures var o := OffsetOf(key); val == Decode(data[o..o + 8])
  {
    var mask := OffsetOf(key);
    val := 0;
    var i := 0;
    while i < 8
      invariant 0 <= i <= 8
      invariant val == Decode(data[mask..mask + i])
    {
      DecodeBound(data[mask..mask + i]);
      ShiftFits(i, val);
      assert data[mask..mask + i + 1][..i] == data[mask..mask + i];
      val := val * 256 % TWO_64 + data[mask + i];
      i := i + 1;
    }
  }

  lemma {:induction false} ShiftFits(i: nat, val: nat)
    requires i < 8 && val < Pow256(i)
    ensures val * 256 + 255 < TWO_64
  {
    Pow256Of8();
    Pow256Mono(i + 1, 8);
    assert val * 256 + 256 <= 256 * Pow256(i);
  }

  lemma {:induction false} Pow256Mono(m: nat, n: nat)
    requires m <= n
    ensures Pow256(m) <= Pow256(n)
  {
    if m < n {
      Pow256Mono(m, n - 1);
    }
  }

  // write_eight_byte: the word goes in big-endian, last byte first.
  method WriteEightByte(data: array<Byte>, key: Key, value: Word)
    requires data.Length == ATOM_DATA_SIZE + 1
    modifies data
    ensures data[..ATOM_DATA_SIZE] == PutBytes(old(data[..ATOM_DATA_SIZE]), OffsetOf(key), Encode(value, 8))
  {
    var mask := OffsetOf(key);
    var val: nat := value;
    ghost var rest := [];
    assert Encode(val, 8) + rest == Encode(value, 8);
    var i := 7;
    while i >= 0
      invariant -1 <= i <= 7 && |rest| == 7 - i
      invariant Encode(val, i + 1) + rest == Encode(value, 8)
      invariant data[mask + i + 1..mask + 8] == rest
      invariant forall j :: 0 <= j < data.Length && !(mask + i < j < mask + 8) ==> data[j] == old(data[j])
    {
      ghost var b := val % 256;
      data[mask + i] := val % 256;
      assert Encode(val, i + 1) + rest == Encode(val / 256, i) + ([b] + rest);
      assert data[mask + i..mask + 8] == [b] + data[mask + i + 1..mask + 8];
      rest := [b] + rest;
      val := val / 256;
      i := i - 1;
    }
    assert data[mask..mask + 8] == Encode(value, 8);
  }

  // ---------- stored atoms as memory ----------

  type Stock = map<Key, Atom>

  // Who owns which buffer.
  type Owners = map<object, Atom>

  ghost predicate HasBuffer(a: Atom, owner: Owners) {
    a.data.Length == ATOM_DATA_SIZE + 1 && a.data in owner && owner[a.data] == a
  }

  // Stored lines are 64 bytes each, in buffers of their own.
  ghost predicate Buffered(m: Stock, owner: Owners) {
    forall k :: k in m ==> m[k].key == k && HasBuffer(m[k], owner)
  }

  // What line k holds: zeros until it is stored.
  ghost function LineAt(m: Stock, owner: Owners, k: Key): (b: seq<Byte>)
    requires Buffered(m, owner)
    reads owner.Keys
    ensures |b| == ATOM_DATA_SIZE
  {
    if k in m then m[k].data[..ATOM_DATA_SIZE] else Zeros()
  }

  ghost function LinesOf(m: Stock, owner: Owners): (l: Lines)
    requires Buffered(m, owner)
    reads owner.Keys
    ensures IsMemory(l)
  {
    imap k: Key :: LineAt(m, owner, k)
  }

  lemma ZerosReadZero(l: Lines, key: Key)
    requires IsMemory(l) && l[LineOf(key)] == Zeros()
    ensures ReadWord(l, key) == 0
  {
    DecodeZeros(Zeros()[OffsetOf(key)..OffsetOf(key) + 8]);
  }

  lemma {:induction false} DecodeZeros(b: seq<Byte>)
    requires forall i :: 0 <= i < |b| ==> b[i] == 0
    ensures Decode(b) == 0
  {
    if b != [] {
      DecodeZeros(b[..|b| - 1]);
    }
  }

  // The bytes a hit decodes are the word memory holds.
  lemma HitReadsWord(m: Stock, owner: Owners, key: Key)
    requires Buffered(m, owner) && LineOf(key) in m
    ensures var data, o := m[LineOf(key)].data, OffsetOf(key);
      ReadWord(LinesOf(m, owner), key) == Decode(data[o..o + 8])
  {
    var data, o := m[LineOf(key)].data, OffsetOf(key);
    assert data[..ATOM_DATA_SIZE][o..o + 8] == data[o..o + 8];
  }

  lemma LineOwned(m: Stock, owner: Owners, k: Key)
    requires Buffered(m, owner) && k in m
    ensures m[k].data in owner && m[k].data.Length == ATOM_DATA_SIZE + 1
  {
  }

  // l is what memory held before the word at `key` was rewritten in its line.
  lemma {:induction false} LineRewritten(m: Stock, owner: Owners, l: Lines, key: Key, v: Word)
    requires Buffered(m, owner) && LineOf(key) in m && IsMemory(l)
    requires forall k :: k in m && k != LineOf(key) ==> m[k].data[..ATOM_DATA_SIZE] == l[k]
    requires forall k: Key :: k !in m ==> l[k] == Zeros()
    requires m[LineOf(key)].data[..ATOM_DATA_SIZE] == PutBytes(l[LineOf(key)], OffsetOf(key), Encode(v, 8))
    ensures LinesOf(m, owner) == WriteWord(l, key, v)
  {
    forall k: Key
      ensures LineAt(m, owner, k) == WriteWord(l, key, v)[k]
    {
    }
  }

  // Storing a line that was not stored.
  lemma LineInserted(m: Stock, owner: Owners, a: Atom)
    requires Buffered(m, owner) && a.key !in m && a.data !in owner && a.data.Length == ATOM_DATA_SIZE + 1
    ensures Buffered(m[a.key := a], owner[a.data := a])
    ensures LinesOf(m[a.key := a], owner[a.data := a]) == LinesOf(m, owner)[a.key := a.data[..ATOM_DATA_SIZE]]
  {
    forall k: Key
      ensures LineAt(m[a.key := a], owner[a.data := a], k)
           == if k == a.key then a.data[..ATOM_DATA_SIZE] else LineAt(m, owner, k)
    {
    }
  }

  lemma EmptyIsBlank(oram: bool)
    ensures State(LinesOf(map[], map[]), {}, oram) == Blank(oram)
  {
    assert LinesOf(map[], map[]) == Blank(oram).lines by {
      forall k: Key
        ensures LineAt(map[], map[], k) == ZeroLine(k)
      {
      }
    }
  }

  // The cached line is the stored line of the cached address; an empty cache
  // holds an address no lookup asks for, or 0.
  ghost predicate CacheAgrees(m: Stock, line: Atom?, lastAddr: Key) {
    if line == null then lastAddr == 0 || lastAddr == TWO_64 - 1
    else lastAddr in m && m[lastAddr] == line
  }

  // sysMem and pli_var of iob_main.cc.
  class Memory {
    const sysMem: BTree
    var line: Atom?      // pli_var.data[0]
    var lastAddr: Key    // pli_var.last_addr[0]
    ghost var owner: Owners
    ghost var Repr: set<object>

    ghost predicate Valid()
      reads this, Repr
    {
      StoreValid() && CacheAgrees(sysMem.atoms, line, lastAddr)
    }

    ghost predicate StoreValid()
      reads this, Repr
    {
      && {this, sysMem} <= Repr && sysMem.root in Repr && sysMem.root.Repr <= Repr && owner.Keys <= Repr
      && {this, sysMem} !! sysMem.root.Repr && ({this, sysMem} + sysMem.root.Repr) !! owner.Keys
      && sysMem.Valid()
      && Buffered(sysMem.atoms, owner)
    }

    // What the memory stands for.
    ghost function Abstract(): (s: State)
      requires Valid()
      reads this, Repr
      ensures Good(s)
    {
      State(LinesOf(sysMem.atoms, owner), sysMem.atoms.Keys, line != null || lastAddr != 0)
    }

    // init_jbus_model_call up to the reading of the image.
    constructor (oram: bool)
      ensures Valid() && fresh(Repr) && Abstract() == Blank(oram)
    {
      sysMem := new BTree.Create();
      line := null;
      lastAddr := if oram then TWO_64 - 1 else 0;
      owner := map[];
      new;
      Repr := {this, sysMem} + sysMem.root.Repr;
      EmptyIsBlank(oram);
    }

    // The found line becomes the cached one.
    method Keep(data: Atom, maskAddr: Key)
      requires StoreValid() && maskAddr in sysMem.atoms && sysMem.atoms[maskAddr] == data
      modifies this`line, this`lastAddr
      ensures Valid() && line == data
      ensures Abstract().warm && Abstract().lines == old(LinesOf(sysMem.atoms, owner))
        && Abstract().stored == sysMem.atoms.Keys
    {
      line := data;
      lastAddr := maskAddr;
    }

    // read_64b_call
    method Read64(key: Key) returns (r: Answer)
      requires Valid()
      modifies this`line, this`lastAddr
      ensures Valid()
      ensures Abstract() == Step(old(Abstract()), Access.Read(key)).0
      ensures r == Step(old(Abstract()), Access.Read(key)).1
    {
      hide BTree.Valid;
      hide Buffered;
      hide ReadWord;
      hide WriteWord;
      var maskAddr := LineOf(key);
      if lastAddr == maskAddr {
        if line == null {
          return NullDereference;
        }
        LineOwned(sysMem.atoms, owner, maskAddr);
        HitReadsWord(sysMem.atoms, owner, key);
        var val := GetEightByte(line.data, key);
        r := Value(val);
      } else {
        ghost var visited;
        var data;
        data, visited := sysMem.Find(maskAddr);
        if data != null {
          Keep(data, maskAddr);
          LineOwned(sysMem.atoms, owner, maskAddr);
          HitReadsWord(sysMem.atoms, owner, key);
          var val := GetEightByte(line.data, key);
          r := Value(val);
        } else {
          ZerosReadZero(LinesOf(sysMem.atoms, owner), key);
          r := Value(0);
        }
      }
    }

    // write_64b_call
    method Write64(key: Key, value: Word)
      requires Valid()
      modifies Repr
      ensures Valid() && fresh(Repr - old(Repr))
      ensures Abstract() == Step(old(Abstract()), Access.Write(key, value)).0
    {
      hide CacheAgrees;
      hide BTree.Valid;
      hide Buffered;
      hide IsMemory;
      hide Good;
      hide LinesOf;
      hide ReadWord;
      hide WriteWord;
      var maskAddr := LineOf(key);
      Invalidate(maskAddr);
      ghost var visited;
      var data;
      data, visited := sysMem.Find(maskAddr);
      if data != null {
        LineOwned(sysMem.atoms, owner, maskAddr);
        Overwrite(data, key, value);
      } else {
        InsertLine(key, value);
      }
    }

    // A write drops its line from the cache first; only a stored line can be there.
    method Invalidate(maskAddr: Key)
      requires Valid() && maskAddr < TWO_64 - 1
      modifies this`lastAddr
      ensures StoreValid() && LinesOf(sysMem.atoms, owner) == old(LinesOf(sysMem.atoms, owner))
      ensures maskAddr !in sysMem.atoms ==> lastAddr == old(lastAddr)
    {
      hide BTree.Valid;
      hide Buffered;
      if lastAddr == maskAddr {
        lastAddr := 0;
      }
    }

    // The arm of write_64b_call for a stored line.
    method Overwrite(data: Atom, key: Key, value: Word)
      requires StoreValid() && LineOf(key) in sysMem.atoms && sysMem.atoms[LineOf(key)] == data
      modifies this`line, this`lastAddr, data.data
      ensures Valid()
      ensures Abstract() == State(WriteWord(old(LinesOf(sysMem.atoms, owner)), key, value), sysMem.atoms.Keys, true)
    {
      hide BTree.Valid;
      hide WriteWord;
      ghost var m, l := sysMem.atoms, LinesOf(sysMem.atoms, owner);
      Keep(data, LineOf(key));
      WriteEightByte(line.data, key, value);
      forall k | k in m && k != LineOf(key)
        ensures m[k].data[..ATOM_DATA_SIZE] == l[k]
      {
        assert owner[m[k].data] == m[k] && owner[data.data] == data;
      }
      LineRewritten(m, owner, l, key, value);
    }

    // The arm of write_64b_call for a new line: cleared but for the word.
    method InsertLine(key: Key, value: Word)
      requires Valid() && LineOf(key) !in sysMem.atoms
      modifies this`owner, this`Repr, sysMem, sysMem.root.Repr
      ensures Valid() && fresh(Repr - old(Repr))
      ensures Abstract() == State(WriteWord(old(Abstract().lines), key, value), old(Abstract().stored) + {LineOf(key)},
        old(Abstract().warm))
    {
      hide BTree.Valid;
      hide Buffered;
      hide LinesOf;
      hide ReadWord;
      var atom := new Atom(LineOf(key));
      assert atom.data[..ATOM_DATA_SIZE] == Zeros();
      WriteEightByte(atom.data, key, value);
      Store(atom);
    }

    // The tree takes the line in.
    method AddLine(atom: Atom)
      requires StoreValid() && atom.key !in sysMem.atoms
      requires atom.data !in Repr && atom.data.Length == ATOM_DATA_SIZE + 1
      modifies this`owner, this`Repr, sysMem, sysMem.root.Repr
      ensures StoreValid() && fresh(Repr - old(Repr) - {atom.data})
      ensures sysMem.atoms == old(sysMem.atoms)[atom.key := atom]
      ensures LinesOf(sysMem.atoms, owner) == old(LinesOf(sysMem.atoms, owner))[atom.key := atom.data[..ATOM_DATA_SIZE]]
    {
      hide BTree.Valid;
      hide LinesOf;
      hide Buffered;
      LineInserted(sysMem.atoms, owner, atom);
      owner := owner[atom.data := atom];
      sysMem.Insert(atom);
      Repr := Repr + sysMem.root.Repr + {atom.data};
    }

    method Store(atom: Atom)
      requires Valid() && atom.key !in sysMem.atoms
      requires atom.data !in Repr && atom.data.Length == ATOM_DATA_SIZE + 1
      modifies this`owner, this`Repr, sysMem, sysMem.root.Repr
      ensures Valid() && fresh(Repr - old(Repr) - {atom.data})
      ensures Abstract() == State(old(Abstract().lines)[atom.key := atom.data[..ATOM_DATA_SIZE]],
        old(Abstract().stored) + {atom.key}, old(Abstract().warm))
    {
      hide BTree.Valid;
      hide Good;
      hide LinesOf;
      hide Buffered;
      AddLine(atom);
    }
  }
}
