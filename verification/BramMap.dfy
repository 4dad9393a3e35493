// make_mem_map.py: the memory a test touches as sections of storage blocks, and the
// address translator generated for them.
module BramMap {
  import opened Common
  import opened BitFields
  import opened TsbSpec
  import opened MemImage

  const DW_BYTE_SIZE: nat := 8
  const LINE: nat := 64

  // The largest gap, in bits, between accessed addresses of one section.
  const MAX_UNACCESSED: nat := 512 * 16

  function SectionStart(a: nat): nat {
    a / LINE * LINE
  }

  function SectionEnd(a: nat): nat {
    (a / LINE + 1) * LINE
  }

  // Doublewords in a storage block: 128, 256 or 512 bits.
  predicate BlockWidth(dw: nat) {
    dw == 2 || dw == 4 || dw == 8
  }

  // n doublewords from `start` on as one block.  Later doublewords go in front.
  function Packed(data: map<nat, Word>, start: nat, n: nat): (block: seq<Word>)
    ensures |block| == n
  {
    if n == 0 then [] else [Lookup(data, start + 8 * (n - 1))] + Packed(data, start, n - 1)
  }

  lemma {:induction false} PackedAt(data: map<nat, Word>, start: nat, n: nat, i: nat)
    requires i < n
    ensures Packed(data, start, n)[n - 1 - i] == Lookup(data, start + 8 * i)
  {
    if i < n - 1 {
      PackedAt(data, start, n - 1, i);
    }
  }

  // The address block j of a section starts at.
  function BlockStart(start: nat, dw: nat, j: nat): nat {
    start + 8 * dw * j
  }

  lemma NextBlock(start: nat, dw: nat, j: nat)
    ensures BlockStart(start, dw, j + 1) == BlockStart(start, dw, j) + 8 * dw
  {
  }

  method CreateBlocks(start: nat, end: nat, data: map<nat, Word>, dw: nat) returns (blocks: seq<seq<Word>>)
    requires BlockWidth(dw) && start % LINE == 0 && end % LINE == 0 && start <= end
    ensures BlockStart(start, dw, |blocks|) == end
    ensures forall j :: 0 <= j < |blocks| ==> blocks[j] == Packed(data, BlockStart(start, dw, j), dw)
  {
    hide BlockStart;
    hide OnBoundary;
    blocks := [];
    var blockData: seq<Word> := [];
    var addr, wordCnt := start, 0;
    ghost var at: nat := start;
    FirstBlock(start, dw);
    LineBoundary(start, dw);
    while addr < end
      invariant addr == at + 8 * wordCnt <= end && 0 <= wordCnt < dw && OnBoundary(at, dw)
      invariant at == BlockStart(start, dw, |blocks|) && blockData == Packed(data, at, wordCnt)
      invariant forall j :: 0 <= j < |blocks| ==> blocks[j] == Packed(data, BlockStart(start, dw, j), dw)
      decreases end - addr
    {
      WholeBlocks(at, end, dw);
      SmallMod(wordCnt, dw);
      blockData := [Lookup(data, addr)] + blockData;
      if wordCnt % dw == dw - 1 {
        NextBlock(start, dw, |blocks|);
        blocks := blocks + [blockData];
        blockData := [];
        wordCnt := 0;
        at := at + 8 * dw;
      } else {
        wordCnt := wordCnt + 1;
      }
      addr := addr + DW_BYTE_SIZE;
    }
    WholeBlocks(at, end, dw);
  }

  // Whole blocks fit between block boundaries.
  predicate OnBoundary(a: nat, dw: nat) {
    if dw == 2 then a % 16 == 0 else if dw == 4 then a % 32 == 0 else a % 64 == 0
  }

  lemma WholeBlocks(a: nat, end: nat, dw: nat)
    requires BlockWidth(dw) && OnBoundary(a, dw) && end % LINE == 0
    ensures a < end ==> a + 8 * dw <= end
    ensures OnBoundary(a + 8 * dw, dw)
  {
    var e := end / LINE;
    assert end == 64 * e;
    if dw == 2 {
      WholeStep(a, 16, 4 * e);
    } else if dw == 4 {
      WholeStep(a, 32, 2 * e);
    } else {
      WholeStep(a, 64, e);
    }
  }

  lemma WholeStep(a: nat, w: nat, e: nat)
    requires (w == 16 || w == 32 || w == 64) && a % w == 0
    ensures a < w * e ==> a + w <= w * e
    ensures (a + w) % w == 0
  {
    var q := a / w;
    assert a == w * q;
  }

  lemma LineBoundary(a: nat, dw: nat)
    requires BlockWidth(dw) && a % LINE == 0
    ensures OnBoundary(a, dw)
  {
  }

  lemma SmallMod(n: nat, d: nat)
    requires n < d
    ensures n % d == n
  {
  }

  lemma FirstBlock(start: nat, dw: nat)
    ensures BlockStart(start, dw, 0) == start
  {
  }

  class Section {
    const start: nat
    const end: nat
    const blocks: seq<seq<Word>>
    var bramAddr: nat

    // The lines from that of `first` to that of `last`.
    constructor (first: nat, last: nat, data: map<nat, Word>, dw: nat)
      requires BlockWidth(dw) && first <= last
      ensures start == SectionStart(first) && end == SectionEnd(last) && Holds(data, dw)
    {
      var s, e := first / LINE * LINE, (last / LINE + 1) * LINE;
      var b := CreateBlocks(s, e, data, dw);
      start, end, blocks, bramAddr := s, e, b, 0;
    }

    ghost predicate Holds(data: map<nat, Word>, dw: nat) {
      && start % LINE == 0 && end % LINE == 0 && BlockStart(start, dw, |blocks|) == end && start < end
      && forall j :: 0 <= j < |blocks| ==> blocks[j] == Packed(data, BlockStart(start, dw, j), dw)
    }

    predicate Covers(a: nat) {
      start <= a < end
    }
  }

  // ---------- sections of a test ----------

  // The test of addSection.
  predicate Overlaps(n: Section, s: Section) {
    (n.start >= s.start && n.start <= s.end) || (n.end >= s.start && n.end <= s.end)
  }

  method AddSection(sections: seq<Section>, n: Section) returns (r: Option<seq<Section>>)
    ensures r == if exists i :: 0 <= i < |sections| && Overlaps(n, sections[i]) then None else Some(sections + [n])
  {
    for i := 0 to |sections|
      invariant forall j :: 0 <= j < i ==> !Overlaps(n, sections[j])
    {
      if Overlaps(n, sections[i]) {
        return None;
      }
    }
    return Some(sections + [n]);
  }

  ghost predicate Ascending(addrs: seq<nat>) {
    forall i, j :: 0 <= i < j < |addrs| ==> addrs[i] < addrs[j]
  }

  // Sections in order and apart, all below `limit`.
  ghost predicate Ordered(sections: seq<Section>, limit: nat) {
    && (forall i, j :: 0 <= i < j < |sections| ==> sections[i].end < sections[j].start)
    && (forall i :: 0 <= i < |sections| ==> sections[i].start < sections[i].end < limit)
  }

  ghost predicate Covered(sections: seq<Section>, a: nat) {
    exists i :: 0 <= i < |sections| && sections[i].Covers(a)
  }

  // More than 1024 bytes without an access before address i.
  predicate Gap(addrs: seq<nat>, i: nat)
    requires 0 < i < |addrs|
  {
    addrs[i] > addrs[i - 1] + 1024
  }

  // Addresses f to l, with none left out between gaps.
  ghost predicate Stretch(addrs: seq<nat>, f: nat, l: nat) {
    && f <= l < |addrs| && (f == 0 || Gap(addrs, f))
    && forall i :: f < i <= l ==> !Gap(addrs, i)
  }

  // The lines from that of the first address of a stretch to that of the last.
  ghost predicate Group(s: Section, addrs: seq<nat>, f: nat, l: nat) {
    && Stretch(addrs, f, l) && (l == |addrs| - 1 || Gap(addrs, l + 1))
    && s.start == addrs[f] - addrs[f] % 64 && s.end == addrs[l] - addrs[l] % 64 + 64
  }

  // Sections part at the gaps and nowhere else.
  ghost predicate Grouped(sections: seq<Section>, addrs: seq<nat>) {
    forall s :: s in sections ==> exists f: nat, l: nat :: Group(s, addrs, f, l)
  }

  lemma GroupAdded(sections: seq<Section>, s: Section, addrs: seq<nat>, f: nat, l: nat)
    requires Grouped(sections, addrs) && Stretch(addrs, f, l) && (l == |addrs| - 1 || Gap(addrs, l + 1))
    requires s.start == SectionStart(addrs[f]) && s.end == SectionEnd(addrs[l])
    ensures Grouped(sections + [s], addrs)
  {
    Rounding(addrs[f]);
    Rounding(addrs[l]);
    assert Group(s, addrs, f, l);
  }

  lemma NoGroups(addrs: seq<nat>)
    requires |addrs| > 0
    ensures Ordered([], SectionStart(addrs[0])) && Grouped([], addrs) && Stretch(addrs, 0, 0)
  {
  }

  lemma StretchOn(addrs: seq<nat>, f: nat, l: nat)
    requires l + 1 < |addrs|
    ensures Gap(addrs, l + 1) <==> addrs[l + 1] > addrs[l] + 1024
    ensures Stretch(addrs, f, l) && !Gap(addrs, l + 1) ==> Stretch(addrs, f, l + 1)
    ensures Gap(addrs, l + 1) ==> Stretch(addrs, l + 1, l + 1)
  {
  }

  lemma Rounding(a: nat)
    ensures SectionStart(a) <= a < SectionEnd(a) == SectionStart(a) + LINE
  {
  }

  // A section closed before a gap ends before the next one starts.
  lemma GapParts(last: nat, next: nat)
    requires 8 * (next - last) > MAX_UNACCESSED
    ensures SectionEnd(last) < SectionStart(next)
  {
    Rounding(last);
    Rounding(next);
  }

  lemma OrderedBelow(sections: seq<Section>, limit: nat, limit': nat)
    requires Ordered(sections, limit) && limit <= limit'
    ensures Ordered(sections, limit')
  {
  }

  lemma AddFits(sections: seq<Section>, n: Section, limit: nat)
    requires Ordered(sections, n.start) && n.start < n.end < limit
    ensures forall i :: 0 <= i < |sections| ==> !Overlaps(n, sections[i])
    ensures Ordered(sections + [n], limit)
  {
  }

  datatype Failure = Overlap | NotMapped

  // memTestData.  The addresses are the sorted keys of the test map; its two error
  // exits are never taken.
  method MemTestData(addrs: seq<nat>, data: map<nat, Word>, dw: nat)
    returns (failed: Option<Failure>, sections: seq<Section>)
    requires |addrs| >= 2 && Ascending(addrs) && BlockWidth(dw) && forall a :: a in data <==> a in addrs
    ensures failed == None
    ensures fresh(sections) && Ordered(sections, SectionEnd(addrs[|addrs| - 1]) + 1)
    ensures forall i :: 0 <= i < |sections| ==> sections[i].Holds(data, dw)
    ensures forall a :: a in data ==> Covered(sections, a)
    ensures Grouped(sections, addrs)
  {
    hide SectionStart;
    hide SectionEnd;
    hide Packed;
    hide BlockStart;
    hide Grouped;
    hide Stretch;
    hide Gap;
    hide Ordered;
    NoGroups(addrs);
    sections := [];
    var addrPrev := addrs[0];
    var sectFirst := addrPrev;
    var addr := addrPrev;
    var i := 1;
    ghost var f := 0;
    while i < |addrs|
      invariant 1 <= i <= |addrs| && 0 <= f < i && sectFirst == addrs[f] && addrPrev == addr == addrs[i - 1]
      invariant fresh(sections) && Ordered(sections, SectionStart(sectFirst))
      invariant forall j :: 0 <= j < |sections| ==> sections[j].Holds(data, dw)
      invariant forall j :: 0 <= j < f ==> Covered(sections, addrs[j])
      invariant Grouped(sections, addrs) && Stretch(addrs, f, i - 1)
    {
      addr := addrs[i];
      var diff := 8 * (addr - addrPrev);
      StretchOn(addrs, f, i - 1);
      if diff > MAX_UNACCESSED {
        failed, sections := Close(sections, sectFirst, addrPrev, data, dw, addrs, f, i - 1);
        GapParts(addrPrev, addr);
        OrderedBelow(sections, SectionEnd(addrPrev) + 1, SectionStart(addr));
        sectFirst := addr;
        f := i;
      }
      addrPrev := addr;
      i := i + 1;
    }
    failed, sections := Close(sections, sectFirst, addr, data, dw, addrs, f, |addrs| - 1);
    forall a | a in data
      ensures Covered(sections, a)
    {
      var j :| 0 <= j < |addrs| && addrs[j] == a;
    }
    failed := CheckMapped(sections, addrs);
  }

  // Adding the section of addresses f..l, from first to last.
  method Close(sections: seq<Section>, first: nat, last: nat, data: map<nat, Word>, dw: nat, ghost addrs: seq<nat>,
          ghost f: nat, ghost l: nat)
    returns (failed: Option<Failure>, sections': seq<Section>)
    requires f <= l < |addrs| && first == addrs[f] && last == addrs[l] && Ascending(addrs) && BlockWidth(dw)
    requires Ordered(sections, SectionStart(addrs[f]))
    requires forall j :: 0 <= j < |sections| ==> sections[j].Holds(data, dw)
    requires forall j :: 0 <= j < f ==> Covered(sections, addrs[j])
    requires Grouped(sections, addrs) && Stretch(addrs, f, l) && (l == |addrs| - 1 || Gap(addrs, l + 1))
    ensures failed == None && |sections'| == |sections| + 1 && sections'[..|sections|] == sections
      && fresh(sections'[|sections|])
    ensures Ordered(sections', SectionEnd(addrs[l]) + 1)
    ensures forall j :: 0 <= j < |sections'| ==> sections'[j].Holds(data, dw)
    ensures forall j :: 0 <= j <= l ==> Covered(sections', addrs[j])
    ensures Grouped(sections', addrs)
  {
    hide Grouped;
    hide Stretch;
    hide Gap;
    Rounding(first);
    Rounding(last);
    assert first <= last;
    var n := new Section(first, last, data, dw);
    AddFits(sections, n, SectionEnd(last) + 1);
    var r := AddSection(sections, n);
    if r == None {
      return Some(Overlap), sections;
    }
    sections' := r.value;
    failed := None;
    GroupAdded(sections, n, addrs, f, l);
    forall j | 0 <= j <= l
      ensures Covered(sections', addrs[j])
    {
      if j < f {
        var k :| 0 <= k < |sections| && sections[k].Covers(addrs[j]);
        assert sections'[k].Covers(addrs[j]);
      } else {
        assert sections'[|sections|].Covers(addrs[j]);
      }
    }
  }

  // The closing check of memTestData.
  method CheckMapped(sections: seq<Section>, addrs: seq<nat>) returns (failed: Option<Failure>)
    ensures failed == None <==> forall j :: 0 <= j < |addrs| ==> Covered(sections, addrs[j])
  {
    for i := 0 to |addrs|
      invariant forall j :: 0 <= j < i ==> Covered(sections, addrs[j])
    {
      var found := false;
      var k := 0;
      while k < |sections| && !found
        invariant 0 <= k <= |sections|
        invariant found ==> Covered(sections, addrs[i])
        invariant !found ==> forall m :: 0 <= m < k ==> !sections[m].Covers(addrs[i])
        decreases |sections| - k, !found
      {
        if sections[k].Covers(addrs[i]) {
          found := true;
        } else {
          k := k + 1;
        }
      }
      if !found {
        return Some(NotMapped);
      }
    }
    return None;
  }

  // ---------- rows of the storage ----------

  function RowsBefore(sections: seq<Section>, n: nat): nat
    requires n <= |sections|
  {
    if n == 0 then 0 else RowsBefore(sections, n - 1) + |sections[n - 1].blocks|
  }

  function RowsOf(sections: seq<Section>, n: nat): (rows: seq<seq<Word>>)
    requires n <= |sections|
    ensures |rows| == RowsBefore(sections, n)
  {
    if n == 0 then [] else RowsOf(sections, n - 1) + sections[n - 1].blocks
  }

  lemma {:induction false} NoRows(sections: seq<Section>)
    ensures RowsBefore(sections, 0) == 0
  {
  }

  lemma NextRow(sections: seq<Section>, n: nat)
    requires n < |sections|
    ensures RowsBefore(sections, n + 1) == RowsBefore(sections, n) + |sections[n].blocks|
  {
  }

  // mapToBram: sections get consecutive rows; 1 when the storage is too small.
  method MapToBram(sections: seq<Section>, maxBlocks: nat) returns (rv: nat)
    requires forall i, j :: 0 <= i < j < |sections| ==> sections[i] != sections[j]
    modifies sections
    ensures forall i :: 0 <= i < |sections| ==> sections[i].bramAddr == RowsBefore(sections, i)
    ensures rv == if RowsBefore(sections, |sections|) <= maxBlocks then 0 else 1
  {
    hide RowsBefore;
    NoRows(sections);
    hide RowsOf;
    hide Packed;
    var bramAddr := 0;
    var limitExceeded := false;
    for k := 0 to |sections|
      invariant bramAddr == RowsBefore(sections, k) && limitExceeded == (bramAddr > maxBlocks)
      invariant forall i :: 0 <= i < k ==> sections[i].bramAddr == RowsBefore(sections, i)
    {
      NextRow(sections, k);
      sections[k].bramAddr := bramAddr;
      bramAddr := bramAddr + |sections[k].blocks|;
      if bramAddr > maxBlocks {
        limitExceeded := true;
      }
    }
    rv := if limitExceeded then 1 else 0;
  }

  // genCoe
  method GenCoe(sections: seq<Section>) returns (rows: seq<seq<Word>>)
    ensures rows == RowsOf(sections, |sections|)
  {
    rows := [];
    for j := 0 to |sections|
      invariant rows == RowsOf(sections, j)
    {
      var blocks := sections[j].blocks;
      for i := 0 to |blocks|
        invariant rows == RowsOf(sections, j) + blocks[..i]
      {
        rows := rows + [blocks[i]];
      }
      assert blocks[..|blocks|] == blocks;
    }
  }

  lemma {:induction false} RowAt(sections: seq<Section>, n: nat, i: nat, j: nat)
    requires i < n <= |sections| && j < |sections[i].blocks|
    ensures RowsBefore(sections, i) + j < RowsBefore(sections, n)
    ensures RowsOf(sections, n)[RowsBefore(sections, i) + j] == sections[i].blocks[j]
  {
    if i < n - 1 {
      RowAt(sections, n - 1, i, j);
    }
  }

  // Rows of different places are different.
  lemma {:induction false} RowsApart(sections: seq<Section>, i: nat, i': nat)
    requires i < i' <= |sections|
    ensures RowsBefore(sections, i) + |sections[i].blocks| <= RowsBefore(sections, i')
  {
    if i < i' - 1 {
      RowsApart(sections, i, i' - 1);
    }
  }

  // ---------- the generated translator ----------

  // {STORAGE_ADDR_WIDTH{in_section_i}} & bram_addr_i[STORAGE_ADDR_WIDTH-1:0]
  function Term(s: Section, va: nat, dw: nat, size: nat): nat
    requires dw > 0 && size > 0
    reads s
  {
    if s.Covers(va) then ((va - s.start) / (8 * dw) + s.bramAddr) % size else 0
  }

  // storage_addr, the or of the first n sections' terms.
  function StorageAddr(sections: seq<Section>, n: nat, va: nat, dw: nat, size: nat): nat
    requires dw > 0 && size > 0 && n <= |sections|
    reads sections
  {
    if n == 0 then 0 else Or(StorageAddr(sections, n - 1, va, dw, size), Term(sections[n - 1], va, dw, size))
  }

  // hit_any_section
  function HitAny(sections: seq<Section>, n: nat, va: nat): bool
    requires n <= |sections|
  {
    n > 0 && (HitAny(sections, n - 1, va) || sections[n - 1].Covers(va))
  }

  lemma {:induction false} HitIsCovered(sections: seq<Section>, n: nat, va: nat)
    requires n <= |sections|
    ensures HitAny(sections, n, va) <==> exists i :: 0 <= i < n && sections[i].Covers(va)
  {
    if n > 0 {
      HitIsCovered(sections, n - 1, va);
    }
  }

  // Sections are apart, so at most one term counts.
  lemma {:induction false} OneTerm(sections: seq<Section>, n: nat, va: nat, dw: nat, size: nat, k: nat)
    requires dw > 0 && size > 0 && k < |sections| && n <= |sections|
    requires forall i, j :: 0 <= i < j < |sections| ==> sections[i].end < sections[j].start
    requires sections[k].Covers(va) && forall i :: 0 <= i < |sections| ==> sections[i].start < sections[i].end
    ensures StorageAddr(sections, n, va, dw, size) == if k < n then Term(sections[k], va, dw, size) else 0
  {
    if n > 0 {
      OneTerm(sections, n - 1, va, dw, size, k);
      OrZero(StorageAddr(sections, n - 1, va, dw, size));
      OrZero(Term(sections[n - 1], va, dw, size));
    }
  }

  // ---------- what the translator is for ----------

  // Sections as memTestData and mapToBram leave them, in a storage of `size` rows or more.
  ghost predicate Laid(sections: seq<Section>, data: map<nat, Word>, dw: nat, size: nat)
    reads sections
  {
    && BlockWidth(dw) && RowsBefore(sections, |sections|) <= size && size > 0
    && (forall i, j :: 0 <= i < j < |sections| ==> sections[i].end < sections[j].start)
    && (forall i :: 0 <= i < |sections| ==> sections[i].start < sections[i].end)
    && (forall i :: 0 <= i < |sections| ==>
      && sections[i].Holds(data, dw)
      && sections[i].bramAddr == RowsBefore(sections, i))
  }

  // The block of a covered address, and where in it.
  lemma BlockOf(s: Section, data: map<nat, Word>, dw: nat, va: nat) returns (j: nat, off: nat)
    requires BlockWidth(dw) && s.Holds(data, dw) && s.Covers(va)
    ensures j == (va - s.start) / (8 * dw) < |s.blocks| && off < 8 * dw
    ensures va == BlockStart(s.start, dw, j) + off && off == va % (8 * dw)
    ensures s.start % (8 * dw) == 0
  {
    var w := 8 * dw;
    j, off := (va - s.start) / w, (va - s.start) % w;
    assert va - s.start == w * j + off;
    if j >= |s.blocks| {
      MulAtLeast(w, |s.blocks|, j);
    }
    WholeLine(s.start, dw, j, off);
  }

  lemma MulAtLeast(w: nat, a: nat, b: nat)
    requires a <= b
    ensures w * a <= w * b
  {
  }

  lemma WholeLine(start: nat, dw: nat, j: nat, off: nat)
    requires BlockWidth(dw) && start % LINE == 0 && off < 8 * dw
    ensures start % (8 * dw) == 0 && (start + 8 * dw * j + off) % (8 * dw) == off
  {
    var q := start / LINE;
    assert start == 64 * q;
    if dw == 2 {
      Remainder(16, 4 * q + j, off);
      Remainder(16, 4 * q, 0);
    } else if dw == 4 {
      Remainder(32, 2 * q + j, off);
      Remainder(32, 2 * q, 0);
    } else {
      Remainder(64, q + j, off);
      Remainder(64, q, 0);
    }
  }

  lemma Remainder(w: nat, q: nat, off: nat)
    requires w == 16 || w == 32 || w == 64
    requires off < w
    ensures (w * q + off) % w == off && (w * q + off) / w == q
  {
  }

  // Where a covered address goes: block j of section k, at offset off.
  lemma TranslatesTo(sections: seq<Section>, data: map<nat, Word>, dw: nat, size: nat, va: nat)
    returns (k: nat, j: nat, off: nat)
    requires Laid(sections, data, dw, size) && Covered(sections, va)
    ensures k < |sections| && j < |sections[k].blocks| && sections[k].Covers(va)
    ensures StorageAddr(sections, |sections|, va, dw, size) == RowsBefore(sections, k) + j
    ensures va == BlockStart(sections[k].start, dw, j) + off && off == va % (8 * dw) < 8 * dw
    ensures sections[k].Holds(data, dw) && sections[k].start % (8 * dw) == 0
  {
    hide BlockStart;
    hide Term;
    hide StorageAddr;
    hide Packed;
    hide RowsOf;
    hide RowsBefore;
    k :| 0 <= k < |sections| && sections[k].Covers(va);
    j, off := BlockOf(sections[k], data, dw, va);
    RowAt(sections, |sections|, k, j);
    OneTerm(sections, |sections|, va, dw, size, k);
    TermIs(sections[k], va, dw, size, j);
  }

  lemma TermIs(s: Section, va: nat, dw: nat, size: nat, j: nat)
    requires dw > 0 && s.Covers(va) && j == (va - s.start) / (8 * dw) && s.bramAddr + j < size
    ensures Term(s, va, dw, size) == s.bramAddr + j
  {
    SmallMod(s.bramAddr + j, size);
  }

  // Reading through the translator gives the original data: for every covered
  // doubleword the row it selects holds the word at the doubleword's place.
  lemma {:induction false} TranslatedRead(sections: seq<Section>, data: map<nat, Word>, dw: nat, size: nat, va: nat)
    requires Laid(sections, data, dw, size) && va % 8 == 0 && Covered(sections, va)
    ensures HitAny(sections, |sections|, va)
    ensures var row := StorageAddr(sections, |sections|, va, dw, size);
      && row < |RowsOf(sections, |sections|)| && |RowsOf(sections, |sections|)[row]| == dw
      && va % (8 * dw) / 8 < dw
      && RowsOf(sections, |sections|)[row][dw - 1 - va % (8 * dw) / 8] == Lookup(data, va)
  {
    hide StorageAddr;
    hide Packed;
    hide RowsOf;
    hide RowsBefore;
    hide BlockStart;
    HitIsCovered(sections, |sections|, va);
    var k, j, off := TranslatesTo(sections, data, dw, size, va);
    RowAt(sections, |sections|, k, j);
    Eighths(sections[k].start, dw, j, off);
    PackedAt(data, BlockStart(sections[k].start, dw, j), dw, off / 8);
  }

  // Where a doubleword is in its block.
  lemma Eighths(start: nat, dw: nat, j: nat, off: nat)
    requires start % LINE == 0 && (BlockStart(start, dw, j) + off) % 8 == 0 && off < 8 * dw
    ensures off / 8 < dw && off == 8 * (off / 8)
  {
    EighthOf(start, dw, j, off);
  }

  // Addresses share a row exactly when they share a block.
  lemma {:induction false} TranslatorInjective(sections: seq<Section>, data: map<nat, Word>, dw: nat, size: nat,
          va: nat, va': nat)
    requires Laid(sections, data, dw, size) && Covered(sections, va) && Covered(sections, va')
    ensures StorageAddr(sections, |sections|, va, dw, size) == StorageAddr(sections, |sections|, va', dw, size)
      <==> va - va % (8 * dw) == va' - va' % (8 * dw)
  {
    hide StorageAddr;
    hide RowsBefore;
    var k, j, off := TranslatesTo(sections, data, dw, size, va);
    var k', j', off' := TranslatesTo(sections, data, dw, size, va');
    if k < k' {
      RowsApart(sections, k, k');
      BlocksInOrder(sections[k], dw, j, off, sections[k'], j');
    } else if k' < k {
      RowsApart(sections, k', k);
      BlocksInOrder(sections[k'], dw, j', off', sections[k], j);
    } else {
      SameBlock(sections[k].start, dw, j, j');
    }
  }

  lemma SameBlock(start: nat, dw: nat, j: nat, j': nat)
    requires dw > 0
    ensures BlockStart(start, dw, j) == BlockStart(start, dw, j') <==> j == j'
  {
    if j < j' {
      MulAtLeast(8 * dw, j + 1, j');
    } else if j' < j {
      MulAtLeast(8 * dw, j' + 1, j);
    }
  }

  // Blocks of different sections start at different addresses.
  lemma BlocksInOrder(s: Section, dw: nat, j: nat, off: nat, s': Section, j': nat)
    requires s.Covers(BlockStart(s.start, dw, j) + off) && s.end < s'.start
    ensures BlockStart(s.start, dw, j) < BlockStart(s'.start, dw, j')
  {
    MulAtLeast(8 * dw, 0, j');
  }

  lemma EighthOf(start: nat, dw: nat, j: nat, off: nat)
    requires start % LINE == 0 && (start + 8 * dw * j + off) % 8 == 0
    ensures off % 8 == 0
  {
    assert start + 8 * dw * j == 8 * (8 * (start / LINE) + dw * j);
  }

  // makeMapping from the accessed addresses on.  It fails exactly when the sections need
  // more rows than the storage has; otherwise the rows and the translator give every
  // accessed address its data.
  method MakeMapping(addrs: seq<nat>, data: map<nat, Word>, dw: nat, maxBlocks: nat, ghost size: nat)
    returns (rv: nat, sections: seq<Section>, rows: seq<seq<Word>>)
    requires |addrs| >= 2 && Ascending(addrs) && BlockWidth(dw) && forall a :: a in data <==> a in addrs
    requires 0 < maxBlocks <= size
    ensures Grouped(sections, addrs) && forall a :: a in data ==> Covered(sections, a)
    ensures forall i :: 0 <= i < |sections| ==> sections[i].Holds(data, dw)
    ensures rv == 0 <==> RowsBefore(sections, |sections|) <= maxBlocks
    ensures rv == 0 ==> Laid(sections, data, dw, size) && rows == RowsOf(sections, |sections|)
  {
    hide Packed;
    hide RowsOf;
    var failed;
    failed, sections := MemTestData(addrs, data, dw);
    rows := [];
    rv := MapToBram(sections, maxBlocks);
    if rv != 0 {
      return;
    }
    rows := GenCoe(sections);
  }
}
