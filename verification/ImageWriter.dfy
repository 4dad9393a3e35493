// Printing tables, link areas and blocks into one image, with the map of printed
// regions that keeps them apart.
module ImageWriter {
  import opened Common
  import opened TsbSpec
  import opened TsbHeap
  import opened MemImage

  datatype Region = Region(start: nat, stop: nat)

  predicate Apart(r: Region, q: Region) {
    r.stop <= q.start || r.start >= q.stop
  }

  // Regions that are not empty are apart exactly when they share no address.
  lemma ApartIffDisjoint(r: Region, q: Region)
    requires r.start < r.stop && q.start < q.stop
    ensures Apart(r, q) <==> forall a: nat :: !(InRegion(a, r) && InRegion(a, q))
  {
    if !Apart(r, q) {
      var a := if r.start < q.start then q.start else r.start;
      assert InRegion(a, r) && InRegion(a, q);
    }
  }

  predicate InRegion(a: nat, r: Region) {
    r.start <= a < r.stop
  }

  // `size` bytes from `start` on are apart from all regions.
  ghost predicate Free(start: nat, size: nat, regions: seq<Region>) {
    forall i :: 0 <= i < |regions| ==> start + size <= regions[i].start || regions[i].stop <= start
  }

  datatype Status = Ok | StopBeforeStart | Collision

  const BYTES_PER_ENTRY: nat := 16

  // The words of a table, entry by entry.
  function TableWords(slots: seq<Pair>): (ws: seq<Word>)
    ensures |ws| == 2 * |slots|
  {
    seq(2 * |slots|, j requires 0 <= j < 2 * |slots| => if j % 2 == 0 then slots[j / 2].tag else slots[j / 2].data)
  }

  // The words of a link area: each entry prints its link twice.
  function LinkWords(cells: seq<Cell>): (ws: seq<Word>)
    ensures |ws| == 4 * |cells|
  {
    seq(4 * |cells|, j requires 0 <= j < 4 * |cells| =>
      if j % 4 == 0 then cells[j / 4].pair.tag else if j % 4 == 1 then cells[j / 4].pair.data else cells[j / 4].link)
  }

  // A memory holds an object's words and is otherwise as it was.
  ghost predicate Holds(was: map<nat, Word>, mem: map<nat, Word>, start: nat, words: seq<Word>) {
    forall a: nat :: Lookup(mem, a) == if InRun(a, start, |words|) then words[IndexIn(a, start)] else Lookup(was, a)
  }

  class Image {
    var regions: seq<Region>
    var out: seq<Line>

    constructor ()
      ensures Valid() && regions == [] && out == []
    {
      regions, out := [], [];
    }

    // What a reader of the image so far has collected.
    ghost function Mem(fill: bool): map<nat, Word>
      reads this`out
    {
      ReadFrom(fill, out).mem
    }

    // Regions do not overlap, and every word printed is in one.
    ghost predicate Valid()
      reads this
    {
      && (forall i, j :: 0 <= i < j < |regions| ==> Apart(regions[j], regions[i]))
      && (forall i :: 0 <= i < |regions| ==> regions[i].start <= regions[i].stop)
      && (forall a: nat :: Known(a) ==> InSome(a))
    }

    ghost predicate Known(a: nat)
      reads this`out
    {
      a in Mem(false) || a in Mem(true)
    }

    ghost predicate InSome(a: nat)
      reads this`regions
    {
      exists i :: 0 <= i < |regions| && regions[i].start <= a < regions[i].stop
    }

    // check_entry_vs_vector and add_object_to_physmap
    method AddRegion(start: nat, stop: nat) returns (st: Status)
      requires Valid()
      modifies this`regions
      ensures Valid()
      ensures st.Ok? ==> regions == old(regions) + [Region(start, stop)]
      ensures !st.Ok? ==> regions == old(regions)
      ensures st.StopBeforeStart? <==> stop < start
      ensures st.Ok? <==> start <= stop && forall i :: 0 <= i < |old(regions)| ==>
        Apart(Region(start, stop), old(regions)[i])
      ensures st.Ok? ==> forall a: nat :: Known(a) ==> !(start <= a < stop)
    {
      if stop < start {
        return StopBeforeStart;
      }
      var check := Region(start, stop);
      for i := 0 to |regions|
        invariant regions == old(regions) && forall j :: 0 <= j < i ==> Apart(check, regions[j])
      {
        if !(check.stop <= regions[i].start || check.start >= regions[i].stop) {
          return Collision;
        }
      }
      forall a: nat | Known(a)
        ensures !(start <= a < stop)
      {
        assert InSome(a);
      }
      ghost var before := regions;
      regions := regions + [check];
      forall a: nat | Known(a)
        ensures InSome(a)
      {
        assert old(Known(a)) && old(InSome(a));
        ghost var i :| 0 <= i < |before| && before[i].start <= a < before[i].stop;
        assert regions[i] == before[i];
      }
      return Ok;
    }

    method Print(l: Line)
      modifies this`out
      ensures out == old(out) + [l]
      ensures forall fill :: ReadFrom(fill, out) == ReadLine(fill, ReadFrom(fill, old(out)), l)
    {
      out := out + [l];
      ReadNext(false, old(out), l);
      ReadNext(true, old(out), l);
    }

    // The first n words of an object have been dealt with, and nothing else changed
    // since `plain` and `filled` were what a reader had; of them the first c have
    // been printed or counted.
    ghost predicate Done(plain: map<nat, Word>, filled: map<nat, Word>, start: nat, words: seq<Word>, n: nat, c: nat,
            envZero: bool)
      reads this`out
    {
      Printed(false, plain, Mem(false), start, words, n, c) && Printed(envZero, filled, Mem(true), start, words, n, c)
    }

    // Both readers have exactly the printed words of the first n; one that honours
    // comments finds the others too when there are comments.
    ghost predicate Shows(start: nat, words: seq<Word>, groups: nat, n: nat, envZero: bool)
      requires 4 * groups <= |words|
      reads this`out
    {
      Kept(Mem(false), start, words, groups, n) && (!envZero ==> Kept(Mem(true), start, words, groups, n))
    }

    ghost predicate Stands(at: nat)
      reads this`out
    {
      ReadFrom(false, out).at == at && ReadFrom(true, out).at == at
    }

    method PrintAt(addr: Word)
      modifies this`out
      ensures Mem(false) == old(Mem(false)) && Mem(true) == old(Mem(true)) && Stands(addr)
    {
      Print(At(addr));
    }

    method PrintBlank()
      modifies this`out
      ensures forall fill :: ReadFrom(fill, out) == old(ReadFrom(fill, out))
      ensures Mem(false) == old(Mem(false)) && Mem(true) == old(Mem(true))
    {
      Print(Blank);
    }

    // Words where the readers stand.
    method PrintData(ws: seq<Word>, ghost plain: map<nat, Word>, ghost filled: map<nat, Word>, ghost start: nat,
            ghost words: seq<Word>, ghost n: nat, ghost envZero: bool)
      requires Done(plain, filled, start, words, n, n, envZero) && Stands(start + 8 * n)
      requires n + |ws| <= |words| && words[n..n + |ws|] == ws
      modifies this`out
      ensures Done(plain, filled, start, words, n + |ws|, n + |ws|, envZero) && Stands(start + 8 * (n + |ws|))
      ensures Adds(old(Mem(false)), Mem(false), start + 8 * n, |ws|)
      ensures Adds(old(Mem(true)), Mem(true), start + 8 * n, |ws|)
    {
      hide Adds;
      hide ReadFrom;
      hide InRun;
      StoreAdds(ReadFrom(false, out), ws);
      StoreAdds(ReadFrom(true, out), ws);
      PrintWords(false, plain, ReadFrom(false, out), start, words, n, |ws|);
      PrintWords(envZero, filled, ReadFrom(true, out), start, words, n, |ws|);
      Print(Words(ws));
    }

    // The zeros from word c to word n, as a comment or not at all.
    method PrintGap(lastAddr: Word, gap: nat, printedData: bool, envZero: bool, ghost plain: map<nat, Word>,
            ghost filled: map<nat, Word>, ghost start: nat, ghost words: seq<Word>, ghost n: nat, ghost c: nat)
      requires Done(plain, filled, start, words, n, c, envZero) && lastAddr == start + 8 * c && gap == 8 * (n - c)
      requires forall i :: c <= i < n ==> words[i] == 0
      requires !printedData ==> Stands(lastAddr)
      modifies this`out
      ensures Done(plain, filled, start, words, n, n, envZero)
      ensures Mem(false) == old(Mem(false)) && (!envZero ==> Mem(true) == old(Mem(true)))
    {
      if envZero {
        if printedData {
          PrintBlank();
          PrintAt(lastAddr);
        }
        CountZeros(false, plain, ReadFrom(false, out), start, words, n, c);
        CountZeros(true, filled, ReadFrom(true, out), start, words, n, c);
        Print(ZeroBytes(gap));
        PrintBlank();
      } else {
        PrintBlank();
      }
    }

    // Regions are apart, what was known and the n words from `start` lie in them, and
    // nothing was known about those words.
    ghost predicate Opened(plain: map<nat, Word>, filled: map<nat, Word>, start: nat, n: nat)
      reads this`regions
    {
      && (forall i, j :: 0 <= i < j < |regions| ==> Apart(regions[j], regions[i]))
      && (forall i :: 0 <= i < |regions| ==> regions[i].start <= regions[i].stop)
      && (forall a: nat :: a in plain || a in filled || InRun(a, start, n) ==> InSome(a))
      && Fresh(plain, start, n) && Fresh(filled, start, n)
    }

    // Registering an object and printing its address line.
    method Open(start: Word, size: nat, ghost words: seq<Word>, ghost envZero: bool) returns (st: Status)
      requires Valid() && 8 * |words| <= size + 7
      modifies this
      ensures if Free(start, size, old(regions)) then st.Ok? else st.Collision?
      ensures st.Ok? ==> regions == old(regions) + [Region(start, start + size)]
      ensures st.Ok? ==> Opened(old(Mem(false)), old(Mem(true)), start, |words|) && Stands(start)
      ensures st.Ok? ==> Done(old(Mem(false)), old(Mem(true)), start, words, 0, 0, envZero)
    {
      st := AddRegion(start, start + size);
      if !st.Ok? {
        return;
      }
      ghost var plain, filled := Mem(false), Mem(true);
      forall a: nat | a in plain || a in filled
        ensures InSome(a) && !InRun(a, start, |words|)
      {
        assert Known(a);
      }
      forall a: nat | InRun(a, start, |words|)
        ensures InSome(a)
      {
        assert start <= a < start + size;
        assert regions[|regions| - 1] == Region(start, start + size);
      }
      PrintAt(start);
      NothingPrinted(false, plain, start, words);
      NothingPrinted(envZero, filled, start, words);
    }

    // An object printed to its end leaves a valid image that holds it.
    lemma Finished(plain: map<nat, Word>, filled: map<nat, Word>, start: nat, words: seq<Word>, envZero: bool)
      requires Done(plain, filled, start, words, |words|, |words|, envZero) && Opened(plain, filled, start, |words|)
      ensures Valid() && Holds(plain, Mem(false), start, words) && Holds(filled, Mem(true), start, words)
      ensures envZero ==> forall a: nat :: InRun(a, start, |words|) ==> a in Mem(true)
    {
    }

    // Zeros left out at the end of what has been dealt with.
    lemma Skipped(plain: map<nat, Word>, filled: map<nat, Word>, start: nat, words: seq<Word>, n: nat, c: nat, k: nat,
            envZero: bool)
      requires Done(plain, filled, start, words, n, c, envZero) && Opened(plain, filled, start, |words|)
        && n + k <= |words|
      requires forall i :: n <= i < n + k ==> words[i] == 0
      ensures Done(plain, filled, start, words, n + k, c, envZero)
    {
      SkipZeros(false, plain, Mem(false), start, words, n, c, k);
      SkipZeros(envZero, filled, Mem(true), start, words, n, c, k);
    }

    lemma NothingShown(start: nat, words: seq<Word>, groups: nat, envZero: bool)
      requires 4 * groups <= |words|
      ensures Shows(start, words, groups, 0, envZero)
    {
    }

    // A group of four left out, and one printed.
    lemma SkippedShows(plain: map<nat, Word>, filled: map<nat, Word>, start: nat, words: seq<Word>, groups: nat, n: nat,
            c: nat, envZero: bool)
      requires 4 * groups <= |words| && n % 4 == 0 && LeftOut(words, groups, n)
      requires Shows(start, words, groups, n, envZero) && Done(plain, filled, start, words, n, c, envZero)
      requires Fresh(plain, start, |words|) && Fresh(filled, start, |words|)
      ensures Shows(start, words, groups, n + 4, envZero)
    {
      KeptSkip(false, plain, Mem(false), start, words, groups, n, c);
      if !envZero {
        KeptSkip(envZero, filled, Mem(true), start, words, groups, n, c);
      }
    }

    method PrintGroup(ws: seq<Word>, ghost plain: map<nat, Word>, ghost filled: map<nat, Word>, ghost start: nat,
            ghost words: seq<Word>, ghost groups: nat, ghost n: nat, ghost envZero: bool)
      requires Done(plain, filled, start, words, n, n, envZero) && Stands(start + 8 * n)
      requires n + |ws| <= |words| && words[n..n + |ws|] == ws && |ws| <= 4
      requires 4 * groups <= |words| && n % 4 == 0 && !LeftOut(words, groups, n)
      requires Shows(start, words, groups, n, envZero)
      modifies this`out
      ensures Done(plain, filled, start, words, n + |ws|, n + |ws|, envZero) && Stands(start + 8 * (n + |ws|))
      ensures Shows(start, words, groups, n + |ws|, envZero)
    {
      hide Printed;
      hide ReadFrom;
      ghost var was, was' := Mem(false), Mem(true);
      PrintData(ws, plain, filled, start, words, n, envZero);
      KeptOn(was, Mem(false), start, words, groups, n, |ws|);
      if !envZero {
        KeptOn(was', Mem(true), start, words, groups, n, |ws|);
      }
    }

    // Between two groups of a table: n words dealt with, the last n - c of them left out.
    ghost predicate AtGroup(plain: map<nat, Word>, filled: map<nat, Word>, start: nat, words: seq<Word>, groups: nat,
            n: nat, c: nat, skip: bool, lastAddr: nat, printedData: bool, envZero: bool)
      requires 4 * groups <= |words|
      reads this`out
    {
      && Done(plain, filled, start, words, n, c, envZero) && Shows(start, words, groups, n, envZero)
      && c <= n && (forall i :: c <= i < n ==> words[i] == 0)
      && if skip then lastAddr == start + 8 * c && (!printedData ==> Stands(lastAddr))
         else c == n && Stands(start + 8 * c)
    }

    lemma SkipGroup(plain: map<nat, Word>, filled: map<nat, Word>, start: nat, words: seq<Word>, groups: nat, n: nat,
            c: nat, skip: bool, lastAddr: nat, printedData: bool, envZero: bool)
      requires 4 * groups <= |words| && n % 4 == 0 && LeftOut(words, groups, n)
      requires AtGroup(plain, filled, start, words, groups, n, c, skip, lastAddr, printedData, envZero)
      requires Opened(plain, filled, start, |words|)
      ensures AtGroup(plain, filled, start, words, groups, n + 4, c, true, if skip then lastAddr else start + 8 * n,
        printedData, envZero)
    {
      hide Printed;
      hide Kept;
      hide Mem;
      Skipped(plain, filled, start, words, n, c, 4, envZero);
      SkippedShows(plain, filled, start, words, groups, n, c, envZero);
    }

    // What is printed for the zeros before a group that is printed.
    method Resume(lastAddr: Word, addr: Word, skip: bool, printedData: bool, envZero: bool,
            ghost plain: map<nat, Word>, ghost filled: map<nat, Word>, ghost start: nat, ghost words: seq<Word>,
            ghost groups: nat, ghost n: nat, ghost c: nat)
      requires 4 * groups <= |words| && addr == start + 8 * n
      requires AtGroup(plain, filled, start, words, groups, n, c, skip, lastAddr, printedData, envZero)
      modifies this`out
      ensures AtGroup(plain, filled, start, words, groups, n, n, false, lastAddr, printedData, envZero)
    {
      hide Printed;
      hide Kept;
      hide ReadFrom;
      if skip {
        PrintGap(lastAddr, addr - lastAddr, printedData, envZero, plain, filled, start, words, n, c);
        PrintAt(addr);
      }
    }

    // What is printed behind the last entry.
    method EndTable(lastAddr: Word, addr: Word, skip: bool, printedData: bool, envZero: bool,
            ghost plain: map<nat, Word>, ghost filled: map<nat, Word>, ghost start: nat, ghost words: seq<Word>,
            ghost groups: nat, ghost n: nat, ghost c: nat)
      requires 4 * groups <= |words| && addr == start + 8 * n
      requires AtGroup(plain, filled, start, words, groups, n, c, skip, lastAddr, printedData, envZero)
      modifies this`out
      ensures Done(plain, filled, start, words, n, n, envZero) && Shows(start, words, groups, n, envZero)
    {
      hide Printed;
      hide Kept;
      hide ReadFrom;
      if skip {
        PrintGap(lastAddr, addr - lastAddr, printedData, envZero, plain, filled, start, words, n, c);
      }
      PrintBlank();
    }

    // write_tsb
    method WriteTsb(tsb: Tsb, suppressZero: bool, envZero: bool, ghost slots: seq<Pair>) returns (st: Status)
      requires Valid() && tsb.numEntries == |tsb.entries| == |slots| && tsb.numEntries % 2 == 0
      requires tsb.startAddr + tsb.numEntries * BYTES_PER_ENTRY < TWO_64
      requires forall i :: 0 <= i < |slots| ==>
        && tsb.entries[i].tag == slots[i].tag
        && tsb.entries[i].data == slots[i].data
      modifies this
      ensures if Free(tsb.startAddr, 16 * tsb.numEntries, old(regions)) then st.Ok? else st.Collision?
      ensures st.Ok? ==> Valid()
      ensures st.Ok? ==>
        regions == old(regions) + [Region(tsb.startAddr, tsb.startAddr + tsb.numEntries * BYTES_PER_ENTRY)]
      ensures st.Ok? ==> Holds(old(Mem(false)), Mem(false), tsb.startAddr, TableWords(slots))
      ensures st.Ok? ==> Holds(old(Mem(true)), Mem(true), tsb.startAddr, TableWords(slots))
      ensures st.Ok? && envZero ==> forall a: nat :: InRun(a, tsb.startAddr, 2 * |slots|) ==> a in Mem(true)
      ensures st.Ok? ==>
        Shows(tsb.startAddr, TableWords(slots), if suppressZero then |slots| / 2 else 0, 2 * |slots|, envZero)
    {
      hide Free;
      hide InRun;
      hide TableWords;
      hide Opened;
      hide Valid;
      hide Holds;
      hide Done;
      hide Mem;
      hide Stands;
      hide Shows;
      hide LeftOut;
      ghost var words, start := TableWords(slots), tsb.startAddr;
      ghost var groups: nat := if suppressZero then |slots| / 2 else 0;
      ghost var plain, filled := Mem(false), Mem(true);
      st := Open(tsb.startAddr, tsb.numEntries * BYTES_PER_ENTRY, words, envZero);
      if !st.Ok? {
        return;
      }
      NothingShown(start, words, groups, envZero);
      ghost var known := regions;
      var lastAddr: Word, skip, printedData := tsb.startAddr, false, false;
      ghost var c: nat := 0;
      var i := 0;
      while i < tsb.numEntries
        invariant 0 <= i <= tsb.numEntries && i % 2 == 0 && regions == known && Opened(plain, filled, start, |words|)
        invariant AtGroup(plain, filled, start, words, groups, 2 * i, c, skip, lastAddr, printedData, envZero)
      {
        var e, f := tsb.entries[i], tsb.entries[i + 1];
        TableGroup(slots, suppressZero, i);
        if suppressZero && e.tag == 0 && e.data == 0 && f.tag == 0 && f.data == 0 {
          SkipGroup(plain, filled, start, words, groups, 2 * i, c, skip, lastAddr, printedData, envZero);
          if !skip {
            lastAddr := tsb.startAddr + i * 16;
          }
          skip := true;
          i := i + 2;
          continue;
        }
        TwoEntries(slots, i);
        Resume(lastAddr, tsb.startAddr + i * 16, skip, printedData, envZero, plain, filled, start, words, groups,
          2 * i, c);
        skip := false;
        PrintGroup([e.tag, e.data, f.tag, f.data], plain, filled, start, words, groups, 2 * i, envZero);
        printedData := true;
        i := i + 2;
        c := 2 * i;
      }
      EndTable(lastAddr, tsb.startAddr + i * 16, skip, printedData, envZero, plain, filled, start, words, groups,
        2 * i, c);
      Finished(plain, filled, start, words, envZero);
    }

    // write_tsb_link
    method WriteTsbLink(area: LinkArea, ghost cells: seq<Cell>) returns (st: Status)
      requires Valid() && area.CellsAre(cells) && area.startAddr + |cells| * LINK_SIZE < TWO_64
      modifies this
      ensures if Free(area.startAddr, 32 * |cells|, old(regions)) then st.Ok? else st.Collision?
      ensures st.Ok? ==> Valid()
      ensures st.Ok? ==>
        regions == old(regions) + [Region(area.startAddr, area.startAddr + |cells| * LINK_SIZE)]
      ensures st.Ok? ==> Holds(old(Mem(false)), Mem(false), area.startAddr, LinkWords(cells))
      ensures st.Ok? ==> Holds(old(Mem(true)), Mem(true), area.startAddr, LinkWords(cells))
      ensures st.Ok? ==> Shows(area.startAddr, LinkWords(cells), 0, 4 * |cells|, true)
    {
      hide Free;
      hide Printed;
      hide InRun;
      hide LinkWords;
      hide ReadFrom;
      hide Kept;
      ghost var words, start := LinkWords(cells), area.startAddr;
      ghost var plain, filled := Mem(false), Mem(true);
      st := Open(area.startAddr, |area.entries| * LINK_SIZE, words, true);
      if !st.Ok? {
        return;
      }
      NothingShown(start, words, 0, true);
      ghost var known := regions;
      var i := 0;
      while i < |area.entries|
        invariant 0 <= i <= |cells| && regions == known && area.CellsAre(cells) && Opened(plain, filled, start, |words|)
        invariant Done(plain, filled, start, words, 4 * i, 4 * i, true) && Stands(start + 8 * (4 * i))
        invariant Shows(start, words, 0, 4 * i, true)
      {
        var e := area.entries[i];
        assert e.Is(start, area.entries, i, cells[i]);
        CellWords(cells, i);
        PrintGroup([e.tag, e.data, e.link, e.link], plain, filled, start, words, 0, 4 * i, true);
        i := i + 1;
      }
      Finished(plain, filled, start, words, true);
    }
  }

  lemma EntryWords(slots: seq<Pair>, i: nat)
    requires i < |slots|
    ensures TableWords(slots)[2 * i] == slots[i].tag && TableWords(slots)[2 * i + 1] == slots[i].data
  {
  }

  // Entries i and i + 1 are one group.
  lemma TableGroup(slots: seq<Pair>, suppressZero: bool, i: nat)
    requires i + 1 < |slots| && i % 2 == 0 && |slots| % 2 == 0
    ensures LeftOut(TableWords(slots), if suppressZero then |slots| / 2 else 0, 2 * i) <==>
      && suppressZero
      && slots[i].tag == 0 && slots[i].data == 0 && slots[i + 1].tag == 0 && slots[i + 1].data == 0
  {
    hide TableWords;
    EntryWords(slots, i);
    EntryWords(slots, i + 1);
  }

  lemma TwoEntries(slots: seq<Pair>, i: nat)
    requires i + 1 < |slots|
    ensures TableWords(slots)[2 * i..2 * i + 4] == [slots[i].tag, slots[i].data, slots[i + 1].tag, slots[i + 1].data]
  {
    hide TableWords;
    FourWords(TableWords(slots), 2 * i);
    EntryWords(slots, i);
    EntryWords(slots, i + 1);
  }

  lemma FourWords(ws: seq<Word>, j: nat)
    requires j + 4 <= |ws|
    ensures ws[j..j + 4] == [ws[j], ws[j + 1], ws[j + 2], ws[j + 3]]
  {
  }

  lemma CellWords(cells: seq<Cell>, i: nat)
    requires i < |cells|
    ensures var c := cells[i];
      LinkWords(cells)[4 * i..4 * i + 4] == [c.pair.tag, c.pair.data, c.link, c.link]
  {
    CellWord(cells, i, 0);
    CellWord(cells, i, 1);
    CellWord(cells, i, 2);
    CellWord(cells, i, 3);
    FourWords(LinkWords(cells), 4 * i);
  }

  lemma CellWord(cells: seq<Cell>, i: nat, j: nat)
    requires i < |cells| && j < 4
    ensures LinkWords(cells)[4 * i + j] == if j == 0 then cells[i].pair.tag else if j == 1 then cells[i].pair.data
      else cells[i].link
  {
  }
}
