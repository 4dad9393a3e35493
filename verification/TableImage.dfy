// Walking tables and link areas by physical address in the image that is read back.
module TableImage {
  import opened Common
  import opened TsbSpec
  import opened TsbHeap
  import opened MemImage
  import opened ImageWriter

  // ---------- walking memory ----------

  // Following link addresses from a meets exactly these pairs.
  ghost predicate Spells(mem: map<nat, Word>, a: nat, pairs: seq<Pair>)
    decreases |pairs|
  {
    && pairs != [] && Lookup(mem, a) == pairs[0].tag && Lookup(mem, a + 8) == pairs[0].data
    && var link := Lookup(mem, a + 16);
       if |pairs| == 1 then link == EOL else link != EOL && Spells(mem, link, pairs[1..])
  }

  // What a table walk from the entry at a meets.
  ghost predicate WalksTo(mem: map<nat, Word>, a: nat, pairs: seq<Pair>) {
    var p := Pair(Lookup(mem, a), Lookup(mem, a + 8));
    if p == EMPTY then pairs == [] else if p.tag != TSB_LINK_TAG then pairs == [p] else Spells(mem, p.data, pairs)
  }

  lemma {:induction false} SpellsOne(mem: map<nat, Word>, a: nat, p: seq<Pair>, q: seq<Pair>)
    requires Spells(mem, a, p) && Spells(mem, a, q)
    ensures p == q
    decreases |p|
  {
    if |p| > 1 {
      SpellsOne(mem, Lookup(mem, a + 16), p[1..], q[1..]);
      assert p == [p[0]] + p[1..] && q == [q[0]] + q[1..];
    }
  }

  // A walk has one outcome.
  lemma WalkIsOne(mem: map<nat, Word>, a: nat, p: seq<Pair>, q: seq<Pair>)
    requires WalksTo(mem, a, p) && WalksTo(mem, a, q)
    ensures p == q
  {
    if Lookup(mem, a) == TSB_LINK_TAG {
      SpellsOne(mem, Lookup(mem, a + 8), p, q);
    }
  }

  // ---------- memory that holds a state ----------

  ghost predicate HoldsWords(mem: map<nat, Word>, start: nat, words: seq<Word>) {
    forall a: nat :: InRun(a, start, |words|) ==> Lookup(mem, a) == words[IndexIn(a, start)]
  }

  lemma WordAt(mem: map<nat, Word>, start: nat, words: seq<Word>, j: nat)
    requires HoldsWords(mem, start, words) && j < |words|
    ensures Lookup(mem, start + 8 * j) == words[j]
  {
    assert InRun(start + 8 * j, start, |words|) && IndexIn(start + 8 * j, start) == j;
  }

  lemma CellAt(mem: map<nat, Word>, start: Word, cells: seq<Cell>, i: nat)
    requires HoldsWords(mem, start, LinkWords(cells)) && i < |cells|
    ensures var a := start + LINK_SIZE * i;
      Lookup(mem, a) == cells[i].pair.tag && Lookup(mem, a + 8) == cells[i].pair.data
        && Lookup(mem, a + 16) == cells[i].link
  {
    hide HoldsWords;
    hide LinkWords;
    WordAt(mem, start, LinkWords(cells), 4 * i);
    WordAt(mem, start, LinkWords(cells), 4 * i + 1);
    WordAt(mem, start, LinkWords(cells), 4 * i + 2);
    CellWord(cells, i, 0);
    CellWord(cells, i, 1);
    CellWord(cells, i, 2);
  }

  lemma SlotAt(mem: map<nat, Word>, start: Word, slots: seq<Pair>, k: nat)
    requires HoldsWords(mem, start, TableWords(slots)) && k < |slots|
    ensures Pair(Lookup(mem, start + BYTES_PER_ENTRY * k), Lookup(mem, start + BYTES_PER_ENTRY * k + 8)) == slots[k]
  {
    hide HoldsWords;
    hide TableWords;
    WordAt(mem, start, TableWords(slots), 2 * k);
    WordAt(mem, start, TableWords(slots), 2 * k + 1);
    EntryWords(slots, k);
  }

  ghost predicate InArea(cells: seq<Cell>, chain: seq<nat>) {
    forall j :: 0 <= j < |chain| ==> chain[j] < |cells|
  }

  lemma PairsSplit(cells: seq<Cell>, i: nat, d: seq<nat>)
    requires i < |cells| && InArea(cells, d)
    ensures InArea(cells, [i] + d) && PairsAt(cells, [i] + d) == [cells[i].pair] + PairsAt(cells, d)
  {
  }

  lemma {:induction false} ChainInArea(cells: seq<Cell>, i: nat)
    requires Forward(cells) && i < |cells|
    ensures InArea(cells, ChainFrom(cells, i)) && ChainFrom(cells, i) != []
  {
    ChainIncreases(cells, i);
  }

  // The pairs of a chain are its first entry's and those of the rest.
  lemma {:induction false} ChainPairs(cells: seq<Cell>, i: nat)
    requires Forward(cells) && i < |cells|
    ensures InArea(cells, ChainFrom(cells, i))
    ensures if cells[i].next.None? then PairsAt(cells, ChainFrom(cells, i)) == [cells[i].pair]
      else
        && InArea(cells, ChainFrom(cells, cells[i].next.value)) && ChainFrom(cells, cells[i].next.value) != []
        && PairsAt(cells, ChainFrom(cells, i)) == [cells[i].pair]
          + PairsAt(cells, ChainFrom(cells, cells[i].next.value))
  {
    if cells[i].next.Some? {
      ChainInArea(cells, cells[i].next.value);
      PairsSplit(cells, i, ChainFrom(cells, cells[i].next.value));
    }
  }

  lemma SpellsMore(mem: map<nat, Word>, a: nat, p: Pair, rest: seq<Pair>)
    requires Lookup(mem, a) == p.tag && Lookup(mem, a + 8) == p.data && Lookup(mem, a + 16) != EOL
    requires rest != [] && Spells(mem, Lookup(mem, a + 16), rest)
    ensures Spells(mem, a, [p] + rest)
  {
    assert ([p] + rest)[1..] == rest;
  }

  // From an entry of the area, memory spells the rest of its chain.
  lemma {:induction false} ChainSpelled(mem: map<nat, Word>, s: State, i: nat)
    requires Sized(s) && HoldsWords(mem, s.start, LinkWords(s.cells)) && i < |s.cells|
    ensures InArea(s.cells, ChainFrom(s.cells, i))
    ensures Spells(mem, s.start + LINK_SIZE * i, PairsAt(s.cells, ChainFrom(s.cells, i)))
    decreases |s.cells| - i
  {
    hide HoldsWords;
    hide LinkWords;
    hide ChainFrom;
    hide PairsAt;
    CellAt(mem, s.start, s.cells, i);
    ChainPairs(s.cells, i);
    if s.cells[i].next.Some? {
      var n := s.cells[i].next.value;
      ChainSpelled(mem, s, n);
      SpellsMore(mem, s.start + LINK_SIZE * i, s.cells[i].pair, PairsAt(s.cells, ChainFrom(s.cells, n)));
    }
  }

  // In memory that holds the link area and a table whose entries are the slots from
  // `base` on, a walk by physical address from entry k meets what the in-memory walk
  // from that slot meets.
  lemma WalkByAddress(mem: map<nat, Word>, s: State, start: Word, base: nat, n: nat, k: nat)
    requires Inv(s) && base + n <= |s.slots| && k < n
    requires HoldsWords(mem, start, TableWords(s.slots[base..base + n])) && HoldsWords(mem, s.start, LinkWords(s.cells))
    ensures WalksTo(mem, start + BYTES_PER_ENTRY * k, Walk(s, base + k))
  {
    hide HoldsWords;
    hide LinkWords;
    hide TableWords;
    hide Spells;
    SlotAt(mem, start, s.slots[base..base + n], k);
    var slot := s.slots[base + k];
    if Linked(slot) {
      assert Anchored(s, base + k);
      ChainSpelled(mem, s, HeadOf(s.start, slot));
    }
  }

  // ---------- objects in one image ----------

  // What was printed for a region: words from its start on.
  datatype Placed = Placed(region: Region, words: seq<Word>)

  ghost predicate Fitting(o: Placed) {
    o.region.start <= o.region.stop && 8 * |o.words| <= o.region.stop - o.region.start + 7
  }

  // The image has these objects, each in its own region.
  ghost predicate AllHold(image: Image, objs: seq<Placed>)
    reads image
  {
    && image.Valid() && |objs| == |image.regions|
    && forall u :: 0 <= u < |objs| ==> Fitting(objs[u]) && objs[u].region == image.regions[u] && InImage(image, objs[u])
  }

  ghost predicate InImage(image: Image, o: Placed)
    reads image`out
  {
    HoldsWords(image.Mem(false), o.region.start, o.words)
  }

  lemma HoldsWordsAfter(was: map<nat, Word>, mem: map<nat, Word>, start: nat, words: seq<Word>)
    requires Holds(was, mem, start, words)
    ensures HoldsWords(mem, start, words)
  {
  }

  // Printing an object leaves those in other regions alone.
  lemma OtherStays(was: map<nat, Word>, mem: map<nat, Word>, o: Placed, o': Placed)
    requires Fitting(o) && Fitting(o') && Apart(o.region, o'.region)
    requires Holds(was, mem, o.region.start, o.words) && HoldsWords(was, o'.region.start, o'.words)
    ensures HoldsWords(mem, o'.region.start, o'.words)
  {
  }

  // Every valid image has its regions, whatever is in them.
  function Unclaimed(rs: seq<Region>): (os: seq<Placed>)
    ensures |os| == |rs| && forall u :: 0 <= u < |rs| ==> os[u] == Placed(rs[u], [])
  {
    seq(|rs|, u requires 0 <= u < |rs| => Placed(rs[u], []))
  }

  lemma AnyImage(image: Image)
    requires image.Valid()
    ensures AllHold(image, Unclaimed(image.regions))
  {
    hide ReadFrom;
    forall u | 0 <= u < |image.regions|
      ensures InImage(image, Unclaimed(image.regions)[u])
    {
      NoWords(image.Mem(false), image.regions[u].start);
    }
  }

  lemma NoWords(mem: map<nat, Word>, start: nat)
    ensures HoldsWords(mem, start, [])
  {
  }

  // No two regions share an address: each is apart from all before it.
  ghost predicate Separate(rs: seq<Region>) {
    forall i, j :: 0 <= i < j < |rs| ==> rs[i].stop <= rs[j].start || rs[j].stop <= rs[i].start
  }

  function RegionsOf(objs: seq<Placed>): (rs: seq<Region>)
    ensures |rs| == |objs| && forall i :: 0 <= i < |objs| ==> rs[i] == objs[i].region
  {
    seq(|objs|, i requires 0 <= i < |objs| => objs[i].region)
  }

  lemma HeldSeparate(image: Image, objs: seq<Placed>)
    requires AllHold(image, objs)
    ensures Separate(RegionsOf(objs)) && image.regions == RegionsOf(objs)
  {
    forall i, j | 0 <= i < j < |objs|
      ensures objs[i].region.stop <= objs[j].region.start || objs[j].region.stop <= objs[i].region.start
    {
      assert Apart(image.regions[j], image.regions[i]);
    }
  }

  // An object that is refused is not apart from one before it.
  lemma RefusedClash(objs: seq<Placed>, o: Placed, all: seq<Placed>)
    requires objs + [o] <= all && o.region.start <= o.region.stop
    requires !Free(o.region.start, o.region.stop - o.region.start, RegionsOf(objs))
    ensures !Separate(RegionsOf(all))
  {
    var i :| 0 <= i < |objs| && !(o.region.stop <= objs[i].region.start || objs[i].region.stop <= o.region.start);
    assert all[i] == objs[i] && all[|objs|] == o;
  }

  // One more object.
  lemma ObjectAdded(was: map<nat, Word>, image: Image, objs: seq<Placed>, o: Placed)
    requires image.Valid() && Fitting(o) && |image.regions| == |objs| + 1 && image.regions[|objs|] == o.region
    requires forall u :: 0 <= u < |objs| ==>
      Fitting(objs[u]) && objs[u].region == image.regions[u] && HoldsWords(was, objs[u].region.start, objs[u].words)
    requires Holds(was, image.Mem(false), o.region.start, o.words)
    ensures AllHold(image, objs + [o])
  {
    hide HoldsWords;
    hide Holds;
    hide ReadFrom;
    hide Fitting;
    HoldsWordsAfter(was, image.Mem(false), o.region.start, o.words);
    forall u | 0 <= u < |objs|
      ensures InImage(image, objs[u])
    {
      assert Apart(image.regions[|objs|], image.regions[u]);
      OtherStays(was, image.Mem(false), o, objs[u]);
    }
  }

  // Words known before are still what they were.
  ghost predicate Keeps(was: map<nat, Word>, mem: map<nat, Word>) {
    forall a: nat :: a in was ==> Lookup(mem, a) == was[a]
  }

  // Nothing changed but in regions b and on.
  ghost predicate OnlyIn(was: map<nat, Word>, mem: map<nat, Word>, regions: seq<Region>, b: nat) {
    forall a: nat :: Lookup(mem, a) == Lookup(was, a) || InRegions(regions, b, a)
  }

  ghost predicate InRegions(regions: seq<Region>, b: nat, a: nat) {
    exists i :: b <= i < |regions| && regions[i].start <= a < regions[i].stop
  }

  lemma OnlyInMore(was: map<nat, Word>, mid: map<nat, Word>, mem: map<nat, Word>, regions: seq<Region>, b: nat,
          o: Placed)
    requires OnlyIn(was, mid, regions, b) && b <= |regions| && Fitting(o) && Holds(mid, mem, o.region.start, o.words)
    ensures OnlyIn(was, mem, regions + [o.region], b)
  {
    var rs := regions + [o.region];
    forall a: nat
      ensures Lookup(mem, a) == Lookup(was, a) || InRegions(rs, b, a)
    {
      if InRun(a, o.region.start, |o.words|) {
        assert rs[|regions|].start <= a < rs[|regions|].stop;
      } else if InRegions(regions, b, a) {
        var i :| b <= i < |regions| && regions[i].start <= a < regions[i].stop;
        assert rs[i] == regions[i];
      }
    }
  }

  ghost predicate Begins(rs: seq<Region>, regions: seq<Region>) {
    |rs| <= |regions| && forall i :: 0 <= i < |rs| ==> rs[i] == regions[i]
  }

  // Old words lie in old regions, so they stay.
  lemma OldStays(was: map<nat, Word>, old': seq<Region>, image: Image)
    requires image.Valid() && Begins(old', image.regions) && OnlyIn(was, image.Mem(false), image.regions, |old'|)
    requires forall a: nat :: a in was ==> InRegions(old', 0, a)
    ensures Keeps(was, image.Mem(false))
  {
    hide ReadFrom;
    forall a: nat | a in was
      ensures Lookup(image.Mem(false), a) == was[a]
    {
      var i :| 0 <= i < |old'| && old'[i].start <= a < old'[i].stop;
      assert old'[i] == image.regions[i];
      forall j | |old'| <= j < |image.regions|
        ensures !(image.regions[j].start <= a < image.regions[j].stop)
      {
        assert Apart(image.regions[j], image.regions[i]);
      }
    }
  }

  // ---------- writing all tables ----------

  // Tables that share a link area, as one state; users are all their entries.
  datatype Group = Group(area: LinkArea, users: seq<TsbEntry>, state: State)

  // Where a table belongs: its group, and which of the group's slots it begins at.
  datatype Home = Home(group: nat, base: nat)

  function SlotsOf(tsb: Tsb, base: nat, s: State): seq<Pair>
    requires base + tsb.numEntries <= |s.slots|
  {
    s.slots[base..base + tsb.numEntries]
  }

  ghost predicate Housed(tsb: Tsb, home: Home, groups: seq<Group>) {
    && home.group < |groups| && tsb.numEntries == |tsb.entries| && tsb.numEntries % 2 == 0
    && tsb.startAddr + tsb.numEntries * BYTES_PER_ENTRY < TWO_64
    && var g := groups[home.group];
       && home.base + tsb.numEntries <= |g.users| == |g.state.slots|
       && g.users[home.base..home.base + tsb.numEntries] == tsb.entries
  }

  ghost predicate AllHoused(tsbs: seq<Tsb>, homes: seq<Home>, groups: seq<Group>) {
    |homes| == |tsbs| && forall t :: 0 <= t < |tsbs| ==> Housed(tsbs[t], homes[t], groups)
  }

  // Group g's area is areas[g]; a group beyond those never needed one.
  ghost predicate Linking(areas: seq<LinkArea>, groups: seq<Group>) {
    && |areas| <= |groups|
    && forall g :: 0 <= g < |groups| ==>
         Inv(groups[g].state) && if g < |areas| then groups[g].area == areas[g] else groups[g].state.cells == []
  }

  function TableObj(tsb: Tsb, home: Home, groups: seq<Group>): Placed
    requires Housed(tsb, home, groups)
  {
    Placed(Region(tsb.startAddr, tsb.startAddr + tsb.numEntries * BYTES_PER_ENTRY),
           TableWords(SlotsOf(tsb, home.base, groups[home.group].state)))
  }

  function AreaObj(s: State): Placed {
    Placed(Region(s.start, s.start + |s.cells| * LINK_SIZE), LinkWords(s.cells))
  }

  function TableObjs(tsbs: seq<Tsb>, homes: seq<Home>, groups: seq<Group>, t: nat): (os: seq<Placed>)
    requires AllHoused(tsbs, homes, groups) && t <= |tsbs|
    ensures |os| == t && forall u :: 0 <= u < t ==> os[u] == TableObj(tsbs[u], homes[u], groups)
  {
    if t == 0 then [] else TableObjs(tsbs, homes, groups, t - 1) + [TableObj(tsbs[t - 1], homes[t - 1], groups)]
  }

  function AreaObjs(groups: seq<Group>, n: nat): (os: seq<Placed>)
    requires n <= |groups|
    ensures |os| == n && forall u :: 0 <= u < n ==> os[u] == AreaObj(groups[u].state)
  {
    if n == 0 then [] else AreaObjs(groups, n - 1) + [AreaObj(groups[n - 1].state)]
  }

  // Walking table entry k by address meets what was added at its slot.
  ghost predicate EntryWalks(mem: map<nat, Word>, tsb: Tsb, home: Home, groups: seq<Group>, k: nat)
    requires Housed(tsb, home, groups) && k < tsb.numEntries && Inv(groups[home.group].state)
  {
    WalksTo(mem, tsb.startAddr + BYTES_PER_ENTRY * k, Walk(groups[home.group].state, home.base + k))
  }

  // write_tsbs, one table at a time.
  method WriteNext(image: Image, tsb: Tsb, suppressZero: bool, envZero: bool, ghost home: Home,
          ghost groups: seq<Group>, ghost objs: seq<Placed>, ghost was: map<nat, Word>, ghost b: nat)
    returns (st: Status)
    requires Housed(tsb, home, groups) && SlotsAre(groups[home.group].users, groups[home.group].state.slots)
    requires AllHold(image, objs) && b <= |objs| && OnlyIn(was, image.Mem(false), image.regions, b)
    modifies image
    ensures if Free(tsb.startAddr, 16 * tsb.numEntries, old(image.regions)) then st.Ok? else st.Collision?
    ensures st.Ok? ==> AllHold(image, objs + [TableObj(tsb, home, groups)])
    ensures st.Ok? ==> OnlyIn(was, image.Mem(false), image.regions, b)
  {
    hide Free;
    hide HoldsWords;
    hide TableWords;
    hide Holds;
    hide ReadFrom;
    hide OnlyIn;
    ghost var mid, rs := image.Mem(false), image.regions;
    ghost var slots := SlotsOf(tsb, home.base, groups[home.group].state);
    assert forall i :: 0 <= i < |slots| ==> tsb.entries[i] == groups[home.group].users[home.base + i];
    st := image.WriteTsb(tsb, suppressZero, envZero, slots);
    if st.Ok? {
      ghost var o := TableObj(tsb, home, groups);
      ObjectAdded(mid, image, objs, o);
      OnlyInMore(was, mid, image.Mem(false), rs, b, o);
    }
  }

  // write_tsb_links, one area at a time.
  method WriteNextArea(image: Image, area: LinkArea, ghost s: State, ghost objs: seq<Placed>, ghost was: map<nat, Word>,
          ghost b: nat)
    returns (st: Status)
    requires area.startAddr == s.start && area.CellsAre(s.cells) && Inv(s)
    requires AllHold(image, objs) && b <= |objs| && OnlyIn(was, image.Mem(false), image.regions, b)
    modifies image
    ensures if Free(s.start, 32 * |s.cells|, old(image.regions)) then st.Ok? else st.Collision?
    ensures st.Ok? ==> AllHold(image, objs + [AreaObj(s)])
    ensures st.Ok? ==> OnlyIn(was, image.Mem(false), image.regions, b)
  {
    hide Free;
    hide HoldsWords;
    hide LinkWords;
    hide Holds;
    hide ReadFrom;
    hide OnlyIn;
    ghost var mid, rs := image.Mem(false), image.regions;
    st := image.WriteTsbLink(area, s.cells);
    if st.Ok? {
      ghost var o := AreaObj(s);
      ObjectAdded(mid, image, objs, o);
      OnlyInMore(was, mid, image.Mem(false), rs, b, o);
    }
  }

  lemma {:induction false} TablesTo(tsbs: seq<Tsb>, homes: seq<Home>, groups: seq<Group>, t: nat)
    requires AllHoused(tsbs, homes, groups) && t < |tsbs|
    ensures TableObjs(tsbs, homes, groups, t) + [TableObj(tsbs[t], homes[t], groups)]
         <= TableObjs(tsbs, homes, groups, |tsbs|)
  {
    hide Housed;
    hide TableObj;
  }

  lemma {:induction false} AreasTo(groups: seq<Group>, g: nat, n: nat)
    requires g < n <= |groups|
    ensures AreaObjs(groups, g) + [AreaObj(groups[g].state)] <= AreaObjs(groups, n)
  {
    hide AreaObj;
  }

  // write_tsbs
  method WriteTsbs(image: Image, tsbs: seq<Tsb>, suppressZero: bool, envZero: bool,
                   ghost homes: seq<Home>, ghost groups: seq<Group>, ghost objs: seq<Placed>)
    returns (st: Status)
    requires AllHold(image, objs) && AllHoused(tsbs, homes, groups)
    requires forall g :: 0 <= g < |groups| ==> Represents(groups[g].users, groups[g].area, groups[g].state)
    modifies image
    ensures st.Ok? || st.Collision?
    ensures st.Ok? ==> AllHold(image, objs + TableObjs(tsbs, homes, groups, |tsbs|))
    ensures st.Ok? ==> OnlyIn(old(image.Mem(false)), image.Mem(false), image.regions, |objs|)
    ensures !st.Ok? ==> !Separate(RegionsOf(objs + TableObjs(tsbs, homes, groups, |tsbs|)))
  {
    hide Free;
    hide Separate;
    hide RegionsOf;
    hide TableWords;
    hide LinkWords;
    hide HoldsWords;
    hide Holds;
    hide ReadFrom;
    hide Represents;
    hide OnlyIn;
    hide AllHold;
    ghost var was := image.Mem(false);
    AtFirst(image, objs);
    st := Ok;
    ghost var all := objs;
    assert objs + TableObjs(tsbs, homes, groups, 0) == all;
    var t := 0;
    while t < |tsbs|
      invariant 0 <= t <= |tsbs| && st.Ok? && all == objs + TableObjs(tsbs, homes, groups, t) && AllHold(image, all)
      invariant OnlyIn(was, image.Mem(false), image.regions, |objs|)
    {
      GroupSlots(groups[homes[t].group]);
      HeldSeparate(image, all);
      st := WriteNext(image, tsbs[t], suppressZero, envZero, homes[t], groups, all, was, |objs|);
      if !st.Ok? {
        TablesTo(tsbs, homes, groups, t);
        RefusedClash(all, TableObj(tsbs[t], homes[t], groups), objs + TableObjs(tsbs, homes, groups, |tsbs|));
        return;
      }
      all := all + [TableObj(tsbs[t], homes[t], groups)];
      t := t + 1;
    }
  }

  // write_tsb_links
  method WriteTsbLinks(image: Image, areas: seq<LinkArea>, ghost groups: seq<Group>, ghost objs: seq<Placed>,
                       ghost was: map<nat, Word>, ghost b: nat)
    returns (st: Status)
    requires AllHold(image, objs) && Linking(areas, groups) && b <= |objs|
      && OnlyIn(was, image.Mem(false), image.regions, b)
    requires forall g :: 0 <= g < |groups| ==> Represents(groups[g].users, groups[g].area, groups[g].state)
    modifies image
    ensures st.Ok? || st.Collision?
    ensures st.Ok? ==> AllHold(image, objs + AreaObjs(groups, |areas|))
    ensures st.Ok? ==> OnlyIn(was, image.Mem(false), image.regions, b)
    ensures !st.Ok? ==> !Separate(RegionsOf(objs + AreaObjs(groups, |areas|)))
  {
    hide Free;
    hide Separate;
    hide RegionsOf;
    hide TableWords;
    hide LinkWords;
    hide HoldsWords;
    hide Holds;
    hide ReadFrom;
    hide Represents;
    hide Inv;
    hide OnlyIn;
    hide AllHold;
    st := Ok;
    ghost var all := objs;
    assert objs + AreaObjs(groups, 0) == all;
    var g := 0;
    while g < |areas|
      invariant 0 <= g <= |areas| && st.Ok? && all == objs + AreaObjs(groups, g) && AllHold(image, all)
      invariant OnlyIn(was, image.Mem(false), image.regions, b)
    {
      GroupArea(groups[g]);
      HeldSeparate(image, all);
      st := WriteNextArea(image, areas[g], groups[g].state, all, was, b);
      if !st.Ok? {
        AreasTo(groups, g, |areas|);
        RefusedClash(all, AreaObj(groups[g].state), objs + AreaObjs(groups, |areas|));
        return;
      }
      all := all + [AreaObj(groups[g].state)];
      g := g + 1;
    }
  }

  // write_tsbs and write_tsb_links behind whatever is in the image already, and the
  // image read back: if no two regions overlap, walking any table by address gives
  // what was added there, every object is in its place and nothing else has changed.
  method WriteTables(image: Image, tsbs: seq<Tsb>, areas: seq<LinkArea>, suppressZero: bool, envZero: bool,
                     ghost homes: seq<Home>, ghost groups: seq<Group>, ghost objs: seq<Placed>)
    returns (st: Status, mem: map<nat, Word>)
    requires AllHold(image, objs) && AllHoused(tsbs, homes, groups) && Linking(areas, groups)
    requires forall g :: 0 <= g < |groups| ==> Represents(groups[g].users, groups[g].area, groups[g].state)
    modifies image
    ensures var all := objs + TableObjs(tsbs, homes, groups, |tsbs|) + AreaObjs(groups, |areas|);
      if Separate(RegionsOf(all)) then st.Ok? else st.Collision?
    ensures st.Ok? ==> AllHold(image, objs + TableObjs(tsbs, homes, groups, |tsbs|) + AreaObjs(groups, |areas|))
    ensures st.Ok? ==> mem == image.Mem(false) && Keeps(old(image.Mem(false)), mem)
    ensures st.Ok? ==> OnlyIn(old(image.Mem(false)), mem, image.regions, |objs|)
    ensures st.Ok? ==> forall t, k :: 0 <= t < |tsbs| && 0 <= k < tsbs[t].numEntries ==>
      EntryWalks(mem, tsbs[t], homes[t], groups, k)
  {
    hide Separate;
    hide RegionsOf;
    hide HoldsWords;
    hide Holds;
    hide ReadFrom;
    hide EntryWalks;
    hide Represents;
    hide Housed;
    hide Inv;
    hide OnlyIn;
    hide AllHold;
    hide Keeps;
    hide TableObjs;
    hide AreaObjs;
    hide Image.Valid;
    ghost var was, rs := image.Mem(false), image.regions;
    mem := map[];
    AtFirst(image, objs);
    ghost var tables := objs + TableObjs(tsbs, homes, groups, |tsbs|);
    ghost var all := tables + AreaObjs(groups, |areas|);
    st := WriteTsbs(image, tsbs, suppressZero, envZero, homes, groups, objs);
    if !st.Ok? {
      SeparatePrefix(tables, all);
      return;
    }
    st := WriteTsbLinks(image, areas, groups, tables, was, |objs|);
    if !st.Ok? {
      return;
    }
    mem := MemImageData(image.out);
    HeldSeparate(image, all);
    StillBegins(image, rs, objs, all);
    OldStays(was, rs, image);
    TablesWalk(mem, image, tsbs, areas, homes, groups, objs);
  }

  lemma SeparatePrefix(objs: seq<Placed>, all: seq<Placed>)
    requires objs <= all && !Separate(RegionsOf(objs))
    ensures !Separate(RegionsOf(all))
  {
    var i, j :| 0 <= i < j < |objs|
      && !(objs[i].region.stop <= objs[j].region.start || objs[j].region.stop <= objs[i].region.start);
    assert all[i] == objs[i] && all[j] == objs[j];
  }

  lemma AtFirst(image: Image, objs: seq<Placed>)
    requires AllHold(image, objs)
    ensures OnlyIn(image.Mem(false), image.Mem(false), image.regions, |objs|)
    ensures |image.regions| == |objs| && forall u :: 0 <= u < |objs| ==> image.regions[u] == objs[u].region
    ensures forall a: nat :: a in image.Mem(false) ==> InRegions(image.regions, 0, a)
  {
    hide ReadFrom;
    forall a: nat | a in image.Mem(false)
      ensures InRegions(image.regions, 0, a)
    {
      assert image.Known(a) && image.InSome(a);
    }
  }

  lemma StillBegins(image: Image, rs: seq<Region>, objs: seq<Placed>, all: seq<Placed>)
    requires AllHold(image, all) && objs <= all && |rs| == |objs| && forall u :: 0 <= u < |objs| ==>
      rs[u] == objs[u].region
    ensures image.Valid() && Begins(rs, image.regions)
  {
  }

  lemma GroupSlots(g: Group)
    requires Represents(g.users, g.area, g.state)
    ensures SlotsAre(g.users, g.state.slots)
  {
  }

  lemma GroupArea(g: Group)
    requires Represents(g.users, g.area, g.state)
    ensures g.area.startAddr == g.state.start && g.area.CellsAre(g.state.cells)
  {
  }

  lemma {:induction false} TablesWalk(mem: map<nat, Word>, image: Image, tsbs: seq<Tsb>, areas: seq<LinkArea>,
          homes: seq<Home>, groups: seq<Group>, objs: seq<Placed>)
    requires AllHoused(tsbs, homes, groups) && Linking(areas, groups) && mem == image.Mem(false)
    requires AllHold(image, objs + TableObjs(tsbs, homes, groups, |tsbs|) + AreaObjs(groups, |areas|))
    ensures forall t, k :: 0 <= t < |tsbs| && 0 <= k < tsbs[t].numEntries ==>
      EntryWalks(mem, tsbs[t], homes[t], groups, k)
  {
    hide Inv;
    hide ReadFrom;
    hide EntryWalks;
    hide AllHold;
    hide TableObjs;
    hide AreaObjs;
    forall t, k | 0 <= t < |tsbs| && 0 <= k < tsbs[t].numEntries
      ensures EntryWalks(mem, tsbs[t], homes[t], groups, k)
    {
      OneWalks(mem, image, tsbs, areas, homes, groups, objs, t, k);
    }
  }

  lemma {:induction false} OneWalks(mem: map<nat, Word>, image: Image, tsbs: seq<Tsb>, areas: seq<LinkArea>,
          homes: seq<Home>, groups: seq<Group>, objs: seq<Placed>, t: nat, k: nat)
    requires AllHoused(tsbs, homes, groups) && Linking(areas, groups) && mem == image.Mem(false)
    requires AllHold(image, objs + TableObjs(tsbs, homes, groups, |tsbs|) + AreaObjs(groups, |areas|))
    requires t < |tsbs| && k < tsbs[t].numEntries
    ensures EntryWalks(mem, tsbs[t], homes[t], groups, k)
  {
    hide HoldsWords;
    hide LinkWords;
    hide TableWords;
    hide WalksTo;
    hide Inv;
    hide ReadFrom;
    hide AllHold;
    hide TableObjs;
    hide AreaObjs;
    hide Walk;
    assert Housed(tsbs[t], homes[t], groups);
    var g := homes[t].group;
    TableThere(mem, image, tsbs, areas, homes, groups, objs, t);
    AreaThere(mem, image, tsbs, areas, homes, groups, objs, g);
    WalkByAddress(mem, groups[g].state, tsbs[t].startAddr, homes[t].base, tsbs[t].numEntries, k);
  }

  lemma ObjThere(image: Image, all: seq<Placed>, u: nat)
    requires AllHold(image, all) && u < |all|
    ensures HoldsWords(image.Mem(false), all[u].region.start, all[u].words)
  {
    assert InImage(image, all[u]);
  }

  lemma InMiddle(a: seq<Placed>, b: seq<Placed>, c: seq<Placed>, i: nat)
    ensures i < |b| ==> (a + b + c)[|a| + i] == b[i]
    ensures i < |c| ==> (a + b + c)[|a| + |b| + i] == c[i]
  {
  }

  lemma {:induction false} TableThere(mem: map<nat, Word>, image: Image, tsbs: seq<Tsb>, areas: seq<LinkArea>,
          homes: seq<Home>, groups: seq<Group>, objs: seq<Placed>, t: nat)
    requires AllHoused(tsbs, homes, groups) && Linking(areas, groups) && mem == image.Mem(false) && t < |tsbs|
    requires AllHold(image, objs + TableObjs(tsbs, homes, groups, |tsbs|) + AreaObjs(groups, |areas|))
    ensures HoldsWords(mem, tsbs[t].startAddr, TableWords(SlotsOf(tsbs[t], homes[t].base,
      groups[homes[t].group].state)))
  {
    hide HoldsWords;
    hide TableWords;
    hide Inv;
    hide ReadFrom;
    hide AllHold;
    var ts, ars := TableObjs(tsbs, homes, groups, |tsbs|), AreaObjs(groups, |areas|);
    assert ts[t] == TableObj(tsbs[t], homes[t], groups);
    InMiddle(objs, ts, ars, t);
    ObjThere(image, objs + ts + ars, |objs| + t);
  }

  lemma {:induction false} AreaThere(mem: map<nat, Word>, image: Image, tsbs: seq<Tsb>, areas: seq<LinkArea>,
          homes: seq<Home>, groups: seq<Group>, objs: seq<Placed>, g: nat)
    requires AllHoused(tsbs, homes, groups) && Linking(areas, groups) && mem == image.Mem(false) && g < |groups|
    requires AllHold(image, objs + TableObjs(tsbs, homes, groups, |tsbs|) + AreaObjs(groups, |areas|))
    ensures HoldsWords(mem, groups[g].state.start, LinkWords(groups[g].state.cells))
  {
    hide HoldsWords;
    hide LinkWords;
    hide Inv;
    hide ReadFrom;
    hide AllHold;
    hide Housed;
    if g < |areas| {
      var ts, ars := TableObjs(tsbs, homes, groups, |tsbs|), AreaObjs(groups, |areas|);
      assert ars[g] == AreaObj(groups[g].state);
      InMiddle(objs, ts, ars, g);
      ObjThere(image, objs + ts + ars, |objs| + |ts| + g);
    } else {
      NoCells(mem, groups[g].state.start);
    }
  }

  lemma NoCells(mem: map<nat, Word>, start: nat)
    ensures HoldsWords(mem, start, LinkWords([]))
  {
  }
}
