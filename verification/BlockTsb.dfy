// How block_tsb.c turns the pages of a block into table entries.
module BlockTsb {
  import opened Common
  import opened BitFields
  import opened TsbSpec
  import opened TsbHeap

  // What a block says about its entries: the bits of an address that make the index
  // (the table's size bits counted in) and the tag, the bits of the tag and data words
  // they fill, and the words that fill the rest.
  datatype Fields = Fields(pageLog: nat, indexLo: nat, indexW: nat, tteLo: nat, tteW: nat, tagLo: nat, tagW: nat,
                           dataLo: nat, dataW: nat, tagBase: Word, dataBase: Word)

  predicate Within(f: Fields) {
    f.tagLo + f.tagW <= WORD_BITS && f.dataLo + f.dataW <= WORD_BITS && f.indexLo + f.indexW <= WORD_BITS
    && f.tteLo + f.tteW <= WORD_BITS && f.pageLog <= WORD_BITS
  }

  lemma {:induction false} MergeBound(x: nat, base: nat, lo: nat, w: nat, n: nat)
    requires lo + w <= n && base < Pow2(n)
    ensures Merge(x, base, lo, w) < Pow2(n)
    decreases lo + w
  {
    if lo > 0 {
      MergeBound(x / 2, base / 2, lo - 1, w, n - 1);
    } else if w > 0 {
      MergeBound(x / 2, base / 2, 0, w - 1, n - 1);
    }
  }

  function Index(f: Fields, va: nat): nat {
    Slice(va, f.indexLo, f.indexW)
  }

  function Tag(f: Fields, va: nat): (t: Word)
    requires Within(f)
  {
    var tagaddr := Shl(Slice(va, f.tteLo, f.tteW), f.tagLo);
    Pow2Word();
    MergeBound(tagaddr, f.tagBase, f.tagLo, f.tagW, WORD_BITS);
    Merge(tagaddr, f.tagBase, f.tagLo, f.tagW)
  }

  function Data(f: Fields, ra: nat): (d: Word)
    requires Within(f)
  {
    Pow2Word();
    MergeBound(ra, f.dataBase, f.dataLo, f.dataW, WORD_BITS);
    Merge(ra, f.dataBase, f.dataLo, f.dataW)
  }

  // tag2va
  function Tag2Va(f: Fields, tag: nat, index: nat): nat {
    Or(Shl(Merge(tag, 0, f.tagLo, f.tagW), f.tteLo), Shl(index, f.indexLo))
  }

  // Index and tag together take every bit above the page, and the tag field has room.
  ghost predicate Covering(f: Fields) {
    && Within(f) && f.tteW <= f.tagW
    && forall i :: f.pageLog <= i < WORD_BITS ==> Taken(f, i)
  }

  predicate Taken(f: Fields, i: nat) {
    (f.indexLo <= i < f.indexLo + f.indexW) || (f.tteLo <= i < f.tteLo + f.tteW)
  }

  ghost predicate OnPage(f: Fields, va: nat) {
    va < Pow2(WORD_BITS) && forall i :: 0 <= i < f.pageLog ==> BitAt(va, i) == 0
  }

  // Bit i of the tag field.
  lemma TagBit(f: Fields, va: nat, i: nat)
    requires Within(f) && i < f.tagW
    ensures BitAt(Tag(f, va), f.tagLo + i) == if i < f.tteW then BitAt(va, f.tteLo + i) else 0
  {
    var tagaddr := Shl(Slice(va, f.tteLo, f.tteW), f.tagLo);
    MergeBit(tagaddr, f.tagBase, f.tagLo, f.tagW, f.tagLo + i);
    ShlBit(Slice(va, f.tteLo, f.tteW), f.tagLo, f.tagLo + i);
    SliceBit(va, f.tteLo, f.tteW, i);
  }

  // Two different pages never share both index and tag.
  lemma PagesDiffer(f: Fields, va: nat, va': nat)
    requires Covering(f) && OnPage(f, va) && OnPage(f, va')
    requires Index(f, va) == Index(f, va') && Tag(f, va) == Tag(f, va')
    ensures va == va'
  {
    forall i | 0 <= i < WORD_BITS
      ensures BitAt(va, i) == BitAt(va', i)
    {
      if i >= f.pageLog {
        assert Taken(f, i);
        if f.indexLo <= i < f.indexLo + f.indexW {
          SliceBit(va, f.indexLo, f.indexW, i - f.indexLo);
          SliceBit(va', f.indexLo, f.indexW, i - f.indexLo);
        } else {
          TagBit(f, va, i - f.tteLo);
          TagBit(f, va', i - f.tteLo);
        }
      }
    }
    SameNumber(va, va', WORD_BITS);
  }

  lemma {:induction false} OrBound(a: nat, b: nat, n: nat)
    requires a < Pow2(n) && b < Pow2(n)
    ensures Or(a, b) < Pow2(n)
  {
    if n > 0 {
      OrBound(a / 2, b / 2, n - 1);
    }
  }

  lemma {:induction false} SliceBound(a: nat, lo: nat, w: nat)
    ensures Slice(a, lo, w) < Pow2(w)
    decreases w
  {
    if w > 0 {
      SliceBound(a, lo + 1, w - 1);
    }
  }

  lemma {:induction false} ShlBound(a: nat, w: nat, n: nat)
    requires a < Pow2(w)
    ensures Shl(a, n) < Pow2(w + n)
  {
    if n > 0 {
      ShlBound(a, w, n - 1);
    }
  }

  // The tag field of a tag that starts at bit 0 is the slice it was made of.
  lemma {:induction false} FieldIsSlice(f: Fields, va: nat)
    requires Covering(f) && f.tagLo == 0
    ensures Merge(Tag(f, va), 0, 0, f.tagW) == Slice(va, f.tteLo, f.tteW)
  {
    var m, s := Merge(Tag(f, va), 0, 0, f.tagW), Slice(va, f.tteLo, f.tteW);
    forall i | 0 <= i < WORD_BITS
      ensures BitAt(m, i) == BitAt(s, i)
    {
      MergeBit(Tag(f, va), 0, 0, f.tagW, i);
      SliceBit(va, f.tteLo, f.tteW, i);
      BitOfZero(i);
      if i < f.tagW {
        TagBit(f, va, i);
      }
    }
    MergeBound(Tag(f, va), 0, 0, f.tagW, WORD_BITS);
    SliceBound(va, f.tteLo, f.tteW);
    Pow2Mono(f.tteW, WORD_BITS);
    SameNumber(m, s, WORD_BITS);
  }

  // The bits of a page address, from its tag and its index.
  lemma {:induction false} BitRecovered(f: Fields, va: nat, i: nat)
    requires Covering(f) && OnPage(f, va) && i < WORD_BITS
    ensures BitAt(Or(Shl(Slice(va, f.tteLo, f.tteW), f.tteLo), Shl(Index(f, va), f.indexLo)), i) == BitAt(va, i)
  {
    hide Slice;
    hide Shl;
    hide Or;
    var s := Slice(va, f.tteLo, f.tteW);
    OrBit(Shl(s, f.tteLo), Shl(Index(f, va), f.indexLo), i);
    assert i >= f.pageLog ==> Taken(f, i);
    ShlBit(s, f.tteLo, i);
    ShlBit(Index(f, va), f.indexLo, i);
    if i >= f.tteLo {
      SliceBit(va, f.tteLo, f.tteW, i - f.tteLo);
    }
    if i >= f.indexLo {
      SliceBit(va, f.indexLo, f.indexW, i - f.indexLo);
    }
  }

  // When the tag field starts at bit 0, tag2va gives the page back.
  lemma Tag2VaRecovers(f: Fields, va: nat)
    requires Covering(f) && f.tagLo == 0 && OnPage(f, va)
    ensures Tag2Va(f, Tag(f, va), Index(f, va)) == va
  {
    hide Slice;
    hide Shl;
    hide Or;
    hide BitAt;
    hide Pow2;
    hide Tag;
    hide Merge;
    var s := Slice(va, f.tteLo, f.tteW);
    var hi, lo := Shl(s, f.tteLo), Shl(Index(f, va), f.indexLo);
    FieldIsSlice(f, va);
    forall i | 0 <= i < WORD_BITS
      ensures BitAt(Or(hi, lo), i) == BitAt(va, i)
    {
      BitRecovered(f, va, i);
    }
    SliceBound(va, f.tteLo, f.tteW);
    SliceBound(va, f.indexLo, f.indexW);
    ShlBound(s, f.tteW, f.tteLo);
    ShlBound(Index(f, va), f.indexW, f.indexLo);
    Pow2Mono(f.tteW + f.tteLo, WORD_BITS);
    Pow2Mono(f.indexW + f.indexLo, WORD_BITS);
    OrBound(hi, lo, WORD_BITS);
    SameNumber(Or(hi, lo), va, WORD_BITS);
  }

  // ---------- pages of a block ----------

  function PageSize(f: Fields): (p: nat)
    ensures p > 0
  {
    Pow2(f.pageLog)
  }

  function PageCount(f: Fields, length: nat): nat {
    if length == 0 then 0 else Whole(length - 1, PageSize(f)) + 1
  }

  function Whole(a: nat, p: nat): nat
    requires p > 0
  {
    a / p
  }

  // The address of page n of a block that starts at `at`, which is on a page.
  function PageAt(f: Fields, at: nat, n: nat): nat {
    Start(at, PageSize(f)) + Times(n, PageSize(f))
  }

  // at & ~(p - 1)
  function Start(at: nat, p: nat): (a: nat)
    requires p > 0
    ensures a <= at < a + p && (at % p == 0 ==> a == at)
  {
    at - at % p
  }

  function Times(n: nat, p: nat): (t: nat)
    ensures t == n * p
  {
    if n == 0 then 0 else p + Times(n - 1, p)
  }

  // Every byte of an aligned block is on exactly one of its pages, its real address at
  // the same offset on the same page.
  lemma EveryByteOnce(f: Fields, va: nat, ra: nat, length: nat, o: nat) returns (n: nat)
    requires va % PageSize(f) == 0 && ra % PageSize(f) == 0 && o < length
    ensures n < PageCount(f, length) && PageAt(f, va, n) <= va + o < PageAt(f, va, n) + PageSize(f)
    ensures va + o - PageAt(f, va, n) == ra + o - PageAt(f, ra, n)
    ensures forall m :: 0 <= m < PageCount(f, length) && PageAt(f, va, m) <= va + o < PageAt(f, va, m) + PageSize(f) ==>
      m == n
  {
    hide PageAt;
    hide PageSize;
    var p := PageSize(f);
    n := o / p;
    OnPageOf(o, p);
    QuotientMono(o, length - 1, p);
    PageIs(f, va, n);
    PageIs(f, ra, n);
    forall m: nat | PageAt(f, va, m) <= va + o < PageAt(f, va, m) + p
      ensures m == n
    {
      PageIs(f, va, m);
      OneMultiple(m, n, o, p);
    }
  }

  // Byte o of a block at `at` is on page n.
  predicate ByteOn(f: Fields, at: nat, n: nat, o: nat) {
    PageAt(f, at, n) <= at + o < PageAt(f, at, n) + Pow2(f.pageLog)
  }

  ghost predicate HoldsByte(f: Fields, at: nat, length: nat, n: nat) {
    exists o: nat :: o < length && ByteOn(f, at, n, o)
  }

  // The pages of an aligned block are those that have a byte of it, and no others.
  lemma {:induction false} PagesExact(f: Fields, va: nat, length: nat, n: nat)
    requires va % PageSize(f) == 0
    ensures n < PageCount(f, length) <==> HoldsByte(f, va, length, n)
  {
    hide PageAt;
    hide Pow2;
    var p := PageSize(f);
    PageIs(f, va, n);
    if n < PageCount(f, length) {
      OnPageOf(length - 1, p);
      if n < (length - 1) / p {
        MulStep(n, (length - 1) / p, p);
      }
      assert n * p < length;
      assert ByteOn(f, va, n, n * p);
    }
    if HoldsByte(f, va, length, n) {
      var o: nat :| o < length && ByteOn(f, va, n, o);
      var m := EveryByteOnce(f, va, va, length, o);
      PageIs(f, va, m);
      OneMultiple(m, n, o, p);
    }
  }

  lemma PageIs(f: Fields, at: nat, n: nat)
    requires at % PageSize(f) == 0
    ensures PageAt(f, at, n) == at + n * PageSize(f)
  {
  }

  lemma OnPageOf(o: nat, p: nat)
    requires p > 0
    ensures o / p * p <= o < o / p * p + p
  {
    assert o == o / p * p + o % p;
  }

  lemma OneMultiple(m: nat, n: nat, o: nat, p: nat)
    requires m * p <= o < m * p + p && n * p <= o < n * p + p
    ensures m == n
  {
    if m < n {
      MulStep(m, n, p);
    } else if n < m {
      MulStep(n, m, p);
    }
  }

  lemma MulStep(m: nat, n: nat, p: nat)
    requires m < n
    ensures m * p + p <= n * p
  {
    assert n * p == m * p + p + (n - m - 1) * p;
  }

  lemma QuotientMono(a: nat, b: nat, p: nat)
    requires a <= b && p > 0
    ensures a / p <= b / p
  {
    var q, r := a / p, b / p;
    assert a == p * q + a % p && b == p * r + b % p;
    if r < q {
      MulStep(r, q, p);
    }
  }

  // Page addresses have no bits below the page.
  lemma {:induction false} MultipleBits(q: nat, l: nat, i: nat)
    requires i < l
    ensures BitAt(q * Pow2(l), i) == 0
    decreases i
  {
    var a := q * Pow2(l);
    assert a == 2 * (q * Pow2(l - 1));
    if i > 0 {
      MultipleBits(q, l - 1, i - 1);
    }
  }

  lemma PageOnPage(f: Fields, at: nat, n: nat)
    requires at % PageSize(f) == 0 && PageAt(f, at, n) < TWO_64
    ensures OnPage(f, PageAt(f, at, n))
  {
    Pow2Word();
    var p := PageSize(f);
    var q := at / p + n;
    assert PageAt(f, at, n) == q * p;
    forall i | 0 <= i < f.pageLog
      ensures BitAt(PageAt(f, at, n), i) == 0
    {
      MultipleBits(q, f.pageLog, i);
    }
  }

  // ---------- adding a block to a table ----------

  // Bit i of an index is a bit of the address.
  lemma {:induction false} IndexBitAt(f: Fields, va: nat, i: nat)
    ensures BitAt(Index(f, va), i) == if i < f.indexW then BitAt(va, f.indexLo + i) else 0
  {
    SliceBit(va, f.indexLo, f.indexW, i);
  }

  function PairOf(f: Fields, va: nat, ra: nat, n: nat): Pair
    requires Within(f)
  {
    Pair(Tag(f, PageAt(f, va, n)), Data(f, PageAt(f, ra, n)))
  }

  function SlotOf(f: Fields, va: nat, base: nat, m: nat): nat {
    base + Index(f, PageAt(f, va, m))
  }

  // Page m is the first thing at its slot.
  ghost predicate IsFirst(f: Fields, va: nat, base: nat, s: State, m: nat)
    requires SlotOf(f, va, base, m) < |s.slots|
  {
    s.slots[SlotOf(f, va, base, m)] == EMPTY && forall i :: 0 <= i < m ==>
      SlotOf(f, va, base, i) != SlotOf(f, va, base, m)
  }

  // Pages 0..n fit the table whose entries are the slots from `base` on, and none that
  // comes to an empty slot is a pair no slot can hold.
  ghost predicate Addable(f: Fields, va: nat, ra: nat, base: nat, s: State, n: nat) {
    && Within(f) && Room(s.start, |s.cells| + 2 * n)
    && forall m :: 0 <= m < n ==>
         SlotOf(f, va, base, m) < |s.slots| && (IsFirst(f, va, base, s, m) ==> Holdable(PairOf(f, va, ra, m)))
  }

  // The state after pages 0..n were added.
  ghost function PagesAdded(f: Fields, va: nat, ra: nat, base: nat, s: State, n: nat): (s': State)
    requires Inv(s) && Addable(f, va, ra, base, s, n)
    ensures Inv(s') && s'.start == s.start && |s'.slots| == |s.slots| && |s'.cells| <= |s.cells| + 2 * n
    decreases n, 0
  {
    if n == 0 then s
    else
      var before := PagesAdded(f, va, ra, base, s, n - 1);
      var k := SlotOf(f, va, base, n - 1);
      HeldByThen(f, va, ra, base, s, n - 1);
      AddWalks(before, k, PairOf(f, va, ra, n - 1), k);
      Add(before, k, PairOf(f, va, ra, n - 1))
  }

  // A page that finds its slot empty is the first there.
  lemma HeldByThen(f: Fields, va: nat, ra: nat, base: nat, s: State, m: nat)
    requires Inv(s) && Addable(f, va, ra, base, s, m) && Addable(f, va, ra, base, s, m + 1)
    ensures PagesAdded(f, va, ra, base, s, m).slots[SlotOf(f, va, base, m)] == EMPTY ==> Holdable(PairOf(f, va, ra, m))
    decreases m, 2
  {
    hide Walk;
    hide Add;
    hide Inv;
    hide Holdable;
    var k := SlotOf(f, va, base, m);
    PagesWalk(f, va, ra, base, s, m, k);
    EmptyWalk(PagesAdded(f, va, ra, base, s, m), k);
    EmptyWalk(s, k);
    NoPairs(f, va, ra, base, m, k);
  }

  // What pages 0..n put at slot k.
  ghost function PairsAtSlot(f: Fields, va: nat, ra: nat, base: nat, n: nat, k: nat): seq<Pair>
    requires Within(f)
  {
    if n == 0 then [] else
      var here := if SlotOf(f, va, base, n - 1) == k then [PairOf(f, va, ra, n - 1)] else [];
      PairsAtSlot(f, va, ra, base, n - 1, k) + here
  }

  lemma {:induction false} NoPairs(f: Fields, va: nat, ra: nat, base: nat, n: nat, k: nat)
    requires Within(f)
    ensures PairsAtSlot(f, va, ra, base, n, k) == [] <==> forall i :: 0 <= i < n ==> SlotOf(f, va, base, i) != k
  {
    if n > 0 {
      NoPairs(f, va, ra, base, n - 1, k);
    }
  }

  // Adding pages appends to each slot's walk what they put there.
  lemma {:induction false} PagesWalk(f: Fields, va: nat, ra: nat, base: nat, s: State, n: nat, k: nat)
    requires Inv(s) && Addable(f, va, ra, base, s, n) && k < |s.slots|
    ensures Walk(PagesAdded(f, va, ra, base, s, n), k) == Walk(s, k) + PairsAtSlot(f, va, ra, base, n, k)
    decreases n, 1
  {
    hide Walk;
    hide Add;
    hide Inv;
    hide SlotOf;
    hide PairOf;
    if n == 0 {
      assert Walk(s, k) + [] == Walk(s, k);
    } else {
      PagesWalk(f, va, ra, base, s, n - 1, k);
      HeldByThen(f, va, ra, base, s, n - 1);
      var before := PagesAdded(f, va, ra, base, s, n - 1);
      var j, p := SlotOf(f, va, base, n - 1), PairOf(f, va, ra, n - 1);
      AddWalks(before, j, p, k);
      Tail(Walk(s, k), PairsAtSlot(f, va, ra, base, n - 1, k), if j == k then [p] else []);
    }
  }

  lemma Tail(a: seq<Pair>, b: seq<Pair>, c: seq<Pair>)
    ensures a + b + c == a + (b + c)
  {
  }

  lemma {:induction false} NoPage(f: Fields, va: nat, ra: nat, base: nat, s: State)
    requires Inv(s) && Addable(f, va, ra, base, s, 0)
    ensures PagesAdded(f, va, ra, base, s, 0) == s
  {
  }

  lemma FewerPages(f: Fields, va: nat, ra: nat, base: nat, s: State, m: nat, n: nat)
    requires m <= n && Addable(f, va, ra, base, s, n)
    ensures Addable(f, va, ra, base, s, m)
  {
  }

  lemma NextPage(f: Fields, va: nat, ra: nat, base: nat, s: State, m: nat, n: nat)
    requires Inv(s) && m < n && Addable(f, va, ra, base, s, n)
    ensures Addable(f, va, ra, base, s, m) && Addable(f, va, ra, base, s, m + 1)
    ensures var before := PagesAdded(f, va, ra, base, s, m);
      && Room(before.start, |before.cells|) && Inv(before)
      && base + Index(f, PageAt(f, va, m)) < |before.slots|
      && PagesAdded(f, va, ra, base, s, m + 1) ==
           Add(before, base + Index(f, PageAt(f, va, m)), Pair(Tag(f, PageAt(f, va, m)), Data(f, PageAt(f, ra, m))))
  {
    hide Inv;
    hide Add;
    hide Index;
    hide Tag;
    hide Data;
    assert SlotOf(f, va, base, m) < |s.slots|;
  }

  // A table takes an entry in at an index.
  ghost predicate Accepts(tsb: Tsb, allowConflicts: bool, base: nat, s: State, index: nat) {
    && index < tsb.numEntries && base + index < |s.slots|
    && (s.slots[base + index] == EMPTY || (allowConflicts && tsb.linkPtr != null))
  }

  // add_block_tsb_to_tsb: pages are added until one is refused; of an aligned block,
  // exactly the pages with a byte of it.
  method AddBlock(tsb: Tsb, f: Fields, va: Word, ra: Word, length: nat, allowConflicts: bool,
                  area: LinkArea, ghost users: seq<TsbEntry>, ghost base: nat, ghost s: State)
    returns (r: Outcome, ghost done: nat)
    requires |tsb.entries| == tsb.numEntries && base + tsb.numEntries <= |users|
      && users[base..base + tsb.numEntries] == tsb.entries
    requires tsb.linkPtr == null || tsb.linkPtr == area
    requires Represents(users, area, s) && Inv(s) && Addable(f, va, ra, base, s, PageCount(f, length))
    modifies tsb.entries, area, area.entries
    ensures done <= PageCount(f, length) && (r.Added? <==> done == PageCount(f, length))
    ensures Addable(f, va, ra, base, s, done) && Represents(users, area, PagesAdded(f, va, ra, base, s, done))
    ensures r.Added? && va % PageSize(f) == 0 ==> forall n: nat :: n < done <==> HoldsByte(f, va, length, n)
    ensures forall m :: 0 <= m < done ==>
      Addable(f, va, ra, base, s, m)
      && Accepts(tsb, allowConflicts, base, PagesAdded(f, va, ra, base, s, m), Index(f, PageAt(f, va, m)))
    ensures !r.Added? ==>
      !Accepts(tsb, allowConflicts, base, PagesAdded(f, va, ra, base, s, done), Index(f, PageAt(f, va, done)))
  {
    hide HoldsByte;
    hide PageCount;
    hide Represents;
    hide Addable;
    hide PagesAdded;
    hide Room;
    hide PairOf;
    hide Index;
    hide Tag;
    hide Data;
    hide Add;
    hide Inv;
    hide PageAt;
    var numPages := PageCount(f, length);
    FewerPages(f, va, ra, base, s, 0, numPages);
    NoPage(f, va, ra, base, s);
    r, done := Added, 0;
    var pageNum := 0;
    while pageNum < numPages
      invariant 0 <= pageNum <= numPages && done == pageNum && r == Added
      invariant Addable(f, va, ra, base, s, pageNum) && Represents(users, area, PagesAdded(f, va, ra, base, s, pageNum))
      invariant forall i :: 0 <= i < |area.entries| ==> area.entries[i] in old(area.entries) || fresh(area.entries[i])
      invariant forall m :: 0 <= m < pageNum ==>
        Addable(f, va, ra, base, s, m)
        && Accepts(tsb, allowConflicts, base, PagesAdded(f, va, ra, base, s, m), Index(f, PageAt(f, va, m)))
    {
      var pageVa, pageRa := PageAt(f, va, pageNum), PageAt(f, ra, pageNum);
      ghost var before := PagesAdded(f, va, ra, base, s, pageNum);
      NextPage(f, va, ra, base, s, pageNum, numPages);
      r := tsb.AddEntry(Index(f, pageVa), Tag(f, pageVa), Data(f, pageRa), allowConflicts, area, users, base, before);
      if r != Added {
        return;
      }
      pageNum := pageNum + 1;
      done := pageNum;
    }
    if va % PageSize(f) == 0 {
      forall n: nat
        ensures n < done <==> HoldsByte(f, va, length, n)
      {
        PagesExact(f, va, length, n);
      }
    }
  }

  lemma {:induction false} SlotHasPage(f: Fields, va: nat, ra: nat, base: nat, n: nat, m: nat)
    requires Within(f) && m < n
    ensures PairOf(f, va, ra, m) in PairsAtSlot(f, va, ra, base, n, SlotOf(f, va, base, m))
  {
    if m < n - 1 {
      SlotHasPage(f, va, ra, base, n - 1, m);
    }
  }

  lemma {:induction false} SlotFromPage(f: Fields, va: nat, ra: nat, base: nat, n: nat, k: nat, p: Pair)
    returns (m: nat)
    requires Within(f) && p in PairsAtSlot(f, va, ra, base, n, k)
    ensures m < n && SlotOf(f, va, base, m) == k && PairOf(f, va, ra, m) == p
  {
    m := n - 1;
    if !(SlotOf(f, va, base, m) == k && PairOf(f, va, ra, m) == p) {
      m := SlotFromPage(f, va, ra, base, n - 1, k, p);
    }
  }

  // Looking an address up: the walk from the index of a page meets the page's own
  // entry, and of the block's entries no other with its tag.
  lemma {:induction false} PageFound(f: Fields, va: nat, ra: nat, base: nat, s: State, n: nat, m: nat)
    requires Inv(s) && Addable(f, va, ra, base, s, n) && Covering(f) && m < n
    requires va % PageSize(f) == 0 && PageAt(f, va, n) <= TWO_64
    ensures var k := SlotOf(f, va, base, m);
      && PairOf(f, va, ra, m) in Walk(PagesAdded(f, va, ra, base, s, n), k)
      && forall p :: p in PairsAtSlot(f, va, ra, base, n, k) && p.tag == Tag(f, PageAt(f, va, m)) ==>
        p == PairOf(f, va, ra, m)
  {
    hide Index;
    hide Tag;
    hide Data;
    hide Walk;
    var k := SlotOf(f, va, base, m);
    PagesWalk(f, va, ra, base, s, n, k);
    SlotHasPage(f, va, ra, base, n, m);
    forall p | p in PairsAtSlot(f, va, ra, base, n, k) && p.tag == Tag(f, PageAt(f, va, m))
      ensures p == PairOf(f, va, ra, m)
    {
      var m' := SlotFromPage(f, va, ra, base, n, k, p);
      PageBelow(f, va, m, n);
      PageBelow(f, va, m', n);
      PageOnPage(f, va, m);
      PageOnPage(f, va, m');
      PagesDiffer(f, PageAt(f, va, m), PageAt(f, va, m'));
      SamePage(f, va, m, m');
    }
  }

  // A data word for a real address: its bits in the data field, the base word's around.
  ghost predicate DataIs(f: Fields, d: Word, ra: nat) {
    forall i: nat :: BitAt(d, i) == if InField(i, f.dataLo, f.dataW) then BitAt(ra, i) else BitAt(f.dataBase, i)
  }

  // Among the pairs from place `from` on there is one with the tag, and all that have it
  // are for the real address.
  ghost predicate Found(f: Fields, pairs: seq<Pair>, from: nat, tag: Word, ra: nat) {
    && (exists j :: from <= j < |pairs| && pairs[j].tag == tag)
    && forall j :: from <= j < |pairs| && pairs[j].tag == tag ==> DataIs(f, pairs[j].data, ra)
  }

  // What the walk from a page's slot finds.
  lemma {:induction false} FoundAt(f: Fields, va: nat, ra: nat, base: nat, s: State, n: nat, m: nat)
    requires Inv(s) && Addable(f, va, ra, base, s, n) && Covering(f) && m < n
    requires va % PageSize(f) == 0 && PageAt(f, va, n) <= TWO_64
    ensures SlotOf(f, va, base, m) < |s.slots|
    ensures var k := SlotOf(f, va, base, m); var before, now := Walk(s, k), Walk(PagesAdded(f, va, ra, base, s, n), k);
      before <= now && Found(f, now, |before|, Tag(f, PageAt(f, va, m)), PageAt(f, ra, m))
  {
    hide Inv;
    hide Walk;
    hide SlotOf;
    hide Tag;
    hide Data;
    hide DataIs;
    hide PageAt;
    hide PageSize;
    hide Covering;
    hide PairsAtSlot;
    hide PagesAdded;
    var k := SlotOf(f, va, base, m);
    PageFound(f, va, ra, base, s, n, m);
    PagesWalk(f, va, ra, base, s, n, k);
    SlotHasPage(f, va, ra, base, n, m);
    DataFits(f, PageAt(f, ra, m));
    var added := PairsAtSlot(f, va, ra, base, n, k);
    var before, now := Walk(s, k), Walk(PagesAdded(f, va, ra, base, s, n), k);
    assert now == before + added;
    var j :| 0 <= j < |added| && added[j] == PairOf(f, va, ra, m);
    assert now[|before| + j] == added[j];
    forall j | |before| <= j < |now| && now[j].tag == Tag(f, PageAt(f, va, m))
      ensures DataIs(f, now[j].data, PageAt(f, ra, m))
    {
      assert now[j] == added[j - |before|] && now[j] in added;
    }
  }

  // Translation.  For a byte of an aligned block, let a be the page address it is on:
  // the walk from the index of a meets, behind what was there before, an entry with
  // the tag of a; and whichever has that tag gives the real address of the page.
  lemma {:induction false} Translates(f: Fields, va: nat, ra: nat, base: nat, s: State, length: nat, o: nat, a: nat)
    requires Inv(s) && Addable(f, va, ra, base, s, PageCount(f, length)) && Covering(f) && o < length
    requires va % PageSize(f) == 0 && ra % PageSize(f) == 0 && PageAt(f, va, PageCount(f, length)) <= TWO_64
    requires a % PageSize(f) == 0 && a <= va + o < a + PageSize(f)
    ensures base + Index(f, a) < |s.slots| && va <= a
    ensures var k, n := base + Index(f, a), PageCount(f, length);
      var before, now := Walk(s, k), Walk(PagesAdded(f, va, ra, base, s, n), k);
      before <= now && Found(f, now, |before|, Tag(f, a), ra + (a - va))
  {
    hide Inv;
    hide Walk;
    hide Index;
    hide Tag;
    hide Found;
    hide Addable;
    hide PageAt;
    hide PageSize;
    hide Covering;
    hide PagesAdded;
    var m := EveryByteOnce(f, va, ra, length, o);
    PageIs(f, va, m);
    PageIs(f, ra, m);
    AlignedPage(va, a, o, m, PageSize(f));
    FoundAt(f, va, ra, base, s, PageCount(f, length), m);
  }

  // The page address of a byte is that of its page.
  lemma AlignedPage(va: nat, a: nat, o: nat, m: nat, p: nat)
    requires p > 0 && va % p == 0 && a % p == 0 && a <= va + o < a + p
    requires va + m * p <= va + o < va + m * p + p
    ensures a == va + m * p
  {
    var x, y := va / p, a / p;
    assert va == x * p && a == y * p;
    assert (x + m) * p == va + m * p;
    OneMultiple(y, x + m, va + o, p);
  }

  lemma DataFits(f: Fields, ra: nat)
    requires Within(f)
    ensures DataIs(f, Data(f, ra), ra)
  {
    forall i: nat
      ensures BitAt(Data(f, ra), i) == if InField(i, f.dataLo, f.dataW) then BitAt(ra, i) else BitAt(f.dataBase, i)
    {
      DataBitAt(f, ra, i);
    }
  }

  lemma PageBelow(f: Fields, at: nat, m: nat, n: nat)
    requires m < n
    ensures PageAt(f, at, m) < PageAt(f, at, n)
  {
    MulStep(m, n, PageSize(f));
  }

  lemma SamePage(f: Fields, at: nat, m: nat, n: nat)
    requires PageAt(f, at, m) == PageAt(f, at, n)
    ensures m == n
  {
    if m < n {
      PageBelow(f, at, m, n);
    } else if n < m {
      PageBelow(f, at, n, m);
    }
  }

  // ---------- pages no slot can hold ----------

  predicate InField(i: nat, lo: nat, w: nat) {
    lo <= i < lo + w
  }

  // All bits of the tag word that pages do not fill are set, and the tag field is no
  // wider than what fills it: some page's tag is that of a link.
  ghost predicate TagMayLink(f: Fields) {
    f.tagW <= f.tteW && forall i :: 0 <= i < WORD_BITS && !InField(i, f.tagLo, f.tagW) ==> BitAt(f.tagBase, i) == 1
  }

  // All bits that pages do not fill are clear: some page's entry is (0, 0).
  ghost predicate EntryMayVanish(f: Fields) {
    && (forall i :: 0 <= i < WORD_BITS && !InField(i, f.tagLo, f.tagW) ==> BitAt(f.tagBase, i) == 0)
    && (forall i :: 0 <= i < WORD_BITS && !InField(i, f.dataLo, f.dataW) ==> BitAt(f.dataBase, i) == 0)
  }

  lemma {:induction false} OnesBit(n: nat, i: nat)
    requires i < n
    ensures BitAt(Pow2(n) - 1, i) == 1
  {
    assert (Pow2(n) - 1) / 2 == Pow2(n - 1) - 1;
    if i > 0 {
      OnesBit(n - 1, i - 1);
    }
  }

  // Bit i of a page's tag.
  lemma {:induction false} TagBitAt(f: Fields, va: nat, i: nat)
    requires Within(f) && i < WORD_BITS
    ensures BitAt(Tag(f, va), i) ==
      if !InField(i, f.tagLo, f.tagW) then BitAt(f.tagBase, i)
      else if i - f.tagLo < f.tteW then BitAt(va, f.tteLo + (i - f.tagLo)) else 0
  {
    if InField(i, f.tagLo, f.tagW) {
      TagBit(f, va, i - f.tagLo);
    } else {
      MergeBit(Shl(Slice(va, f.tteLo, f.tteW), f.tagLo), f.tagBase, f.tagLo, f.tagW, i);
    }
  }

  lemma {:induction false} DataBitAt(f: Fields, ra: nat, i: nat)
    requires Within(f)
    ensures BitAt(Data(f, ra), i) == if InField(i, f.dataLo, f.dataW) then BitAt(ra, i) else BitAt(f.dataBase, i)
  {
    MergeBit(ra, f.dataBase, f.dataLo, f.dataW, i);
  }

  // A word all of whose bits are alike.
  lemma WordIs(a: Word, ones: bool)
    ensures a == (if ones then TWO_64 - 1 else 0) <==> AllBits(a, if ones then 1 else 0)
  {
    hide BitAt;
    Pow2Word();
    var b: Word := if ones then TWO_64 - 1 else 0;
    forall i | 0 <= i < WORD_BITS
      ensures BitAt(b, i) == if ones then 1 else 0
    {
      if ones {
        OnesBit(WORD_BITS, i);
      } else {
        BitOfZero(i);
      }
    }
    if AllBits(a, if ones then 1 else 0) {
      SameNumber(a, b, WORD_BITS);
    }
  }

  ghost predicate AllBits(a: Word, bit: nat) {
    forall i :: 0 <= i < WORD_BITS ==> BitAt(a, i) == bit
  }

  // The page whose tag bits are all set.
  function FullPage(f: Fields): nat {
    Merge(Pow2(WORD_BITS) - 1, 0, f.tteLo, f.tteW)
  }

  lemma FullPageIs(f: Fields)
    requires Within(f) && f.pageLog <= f.tteLo
    ensures OnPage(f, FullPage(f)) && forall i :: f.tteLo <= i < f.tteLo + f.tteW ==> BitAt(FullPage(f), i) == 1
  {
    hide Merge;
    hide BitAt;
    MergeBound(Pow2(WORD_BITS) - 1, 0, f.tteLo, f.tteW, WORD_BITS);
    forall i | 0 <= i < WORD_BITS
      ensures BitAt(FullPage(f), i) == if InField(i, f.tteLo, f.tteW) then 1 else 0
    {
      MergeBit(Pow2(WORD_BITS) - 1, 0, f.tteLo, f.tteW, i);
      OnesBit(WORD_BITS, i);
      BitOfZero(i);
    }
  }

  lemma ZeroPageIs(f: Fields)
    ensures OnPage(f, 0)
  {
    forall i | 0 <= i < f.pageLog
      ensures BitAt(0, i) == 0
    {
      BitOfZero(i);
    }
  }

  // Some page has the tag of a link exactly when the fields leave room for it.
  lemma LinkTagIff(f: Fields)
    requires Within(f) && f.pageLog <= f.tteLo
    ensures (exists va :: OnPage(f, va) && Tag(f, va) == TSB_LINK_TAG) <==> TagMayLink(f)
  {
    hide Tag;
    hide OnPage;
    hide BitAt;
    if TagMayLink(f) {
      var va := FullPage(f);
      FullPageIs(f);
      forall i | 0 <= i < WORD_BITS
        ensures BitAt(Tag(f, va), i) == 1
      {
        TagBitAt(f, va, i);
      }
      WordIs(Tag(f, va), true);
    }
    if va :| OnPage(f, va) && Tag(f, va) == TSB_LINK_TAG {
      WordIs(Tag(f, va), true);
      forall i | 0 <= i < WORD_BITS
        ensures !InField(i, f.tagLo, f.tagW) ==> BitAt(f.tagBase, i) == 1
        ensures InField(i, f.tagLo, f.tagW) ==> i - f.tagLo < f.tteW
      {
        TagBitAt(f, va, i);
      }
      assert f.tagW > 0 ==> InField(f.tagLo + f.tagW - 1, f.tagLo, f.tagW);
    }
  }

  // Some entry is (0, 0) exactly when nothing outside the fields is set; the page at
  // address 0 is such an entry then.
  lemma EmptyEntryIff(f: Fields)
    requires Within(f)
    ensures (exists va, ra :: OnPage(f, va) && OnPage(f, ra) && Pair(Tag(f, va), Data(f, ra)) == EMPTY) <==>
      EntryMayVanish(f)
  {
    hide Tag;
    hide Data;
    hide OnPage;
    hide BitAt;
    if EntryMayVanish(f) {
      ZeroPageIs(f);
      ZeroEntry(f);
    }
    if va, ra :| OnPage(f, va) && OnPage(f, ra) && Pair(Tag(f, va), Data(f, ra)) == EMPTY {
      WordIs(Tag(f, va), false);
      WordIs(Data(f, ra), false);
      forall i | 0 <= i < WORD_BITS
        ensures !InField(i, f.tagLo, f.tagW) ==> BitAt(f.tagBase, i) == 0
        ensures !InField(i, f.dataLo, f.dataW) ==> BitAt(f.dataBase, i) == 0
      {
        TagBitAt(f, va, i);
        DataBitAt(f, ra, i);
      }
    }
  }

  // Exactly which fields keep every page of every block one that a slot can hold.
  lemma PagesHoldableIff(f: Fields)
    requires Within(f) && f.pageLog <= f.tteLo
    ensures (forall va, ra :: OnPage(f, va) && OnPage(f, ra) ==> Holdable(Pair(Tag(f, va), Data(f, ra))))
      <==> !TagMayLink(f) && !EntryMayVanish(f)
  {
    hide Tag;
    hide Data;
    hide OnPage;
    hide TagMayLink;
    hide EntryMayVanish;
    LinkTagIff(f);
    EmptyEntryIff(f);
    if TagMayLink(f) {
      var va :| OnPage(f, va) && Tag(f, va) == TSB_LINK_TAG;
      ZeroPageIs(f);
      assert !Holdable(Pair(Tag(f, va), Data(f, 0)));
    }
  }

  // With both bases zero, the page at address 0 of a block leaves its slot empty.
  lemma LostPage(f: Fields, base: nat, s: State)
    requires Inv(s) && Within(f) && f.tagBase == f.dataBase == 0 && Room(s.start, |s.cells|)
    requires base + Index(f, 0) < |s.slots| && s.slots[base + Index(f, 0)] == EMPTY
    ensures var k, p := base + Index(f, 0), Pair(Tag(f, 0), Data(f, 0));
      !Holdable(p) && Add(s, k, p) == s && Walk(Add(s, k, p), k) == []
  {
    hide Tag;
    hide Data;
    hide Inv;
    forall i | 0 <= i < WORD_BITS
      ensures BitAt(f.tagBase, i) == 0 && BitAt(f.dataBase, i) == 0
    {
      BitOfZero(i);
    }
    ZeroEntry(f);
    var k := base + Index(f, 0);
    assert s.slots[k := EMPTY] == s.slots;
    EmptyWalk(s, k);
  }

  lemma ZeroEntry(f: Fields)
    requires Within(f) && EntryMayVanish(f)
    ensures Pair(Tag(f, 0), Data(f, 0)) == EMPTY
  {
    hide Tag;
    hide Data;
    hide BitAt;
    forall i | 0 <= i < WORD_BITS
      ensures BitAt(Tag(f, 0), i) == 0 && BitAt(Data(f, 0), i) == 0
    {
      TagBitAt(f, 0, i);
      DataBitAt(f, 0, i);
      BitOfZero(i);
      BitOfZero(if i >= f.tagLo then f.tteLo + (i - f.tagLo) else 0);
    }
    WordIs(Tag(f, 0), false);
    WordIs(Data(f, 0), false);
  }
}
