// The tables and link areas of goldfinger as the objects tsb.c and tsb_link.c update.
module TsbHeap {
  import opened Common
  import opened TsbSpec

  class TsbEntry {
    var tag: Word
    var data: Word

    constructor ()
      ensures tag == 0 && data == 0
    {
      tag, data := 0, 0;
    }
  }

  class LinkEntry {
    var tag: Word
    var data: Word
    var link: Word        // address of the next entry
    var myLink: Word      // address of this entry
    var next: LinkEntry?

    // init_entry
    constructor ()
      ensures tag == 0 && data == 0 && link == EOL && myLink == EOL && next == null
    {
      tag, data, link, myLink, next := 0, 0, EOL, EOL, null;
    }

    // The entry is cell i of an area whose entries are `all`.
    ghost predicate Is(start: Word, all: seq<LinkEntry>, i: nat, c: Cell)
      reads this
    {
      && tag == c.pair.tag && data == c.pair.data && link == c.link
      && myLink == start + LINK_SIZE * i
      && match c.next
         case None => next == null
         case Some(j) => j < |all| && next == all[j]
    }
  }

  class LinkArea {
    const startAddr: Word
    var entries: seq<LinkEntry>

    constructor (start: Word)
      ensures startAddr == start && entries == []
    {
      startAddr, entries := start, [];
    }

    ghost predicate CellsAre(cells: seq<Cell>)
      reads this, entries
    {
      && |entries| == |cells|
      && (forall i :: 0 <= i < |cells| ==> entries[i].Is(startAddr, entries, i, cells[i]))
      && (forall i, j :: 0 <= i < j < |entries| ==> entries[i] != entries[j])
    }

    // start_new_chain
    method StartNewChain(tag: Word, data: Word, ghost cells: seq<Cell>) returns (entry: LinkEntry)
      requires CellsAre(cells) && startAddr + LINK_SIZE * |cells| < TWO_64
      modifies this
      ensures fresh(entry) && entries == old(entries) + [entry]
      ensures CellsAre(cells + [Cell(Pair(tag, data), EOL, None)])
    {
      entry := new LinkEntry();
      var newIndex := |entries|;
      entries := entries + [entry];
      entry.tag := tag;
      entry.data := data;
      entry.link := EOL;
      entry.myLink := startAddr + newIndex * LINK_SIZE;
      entry.next := null;
      forall i | 0 <= i < |cells|
        ensures entries[i].Is(startAddr, entries, i, cells[i])
      {
        assert entries[i] == old(entries)[i] && old(entries)[i].Is(startAddr, old(entries), i, cells[i]);
      }
    }

    // add_to_chain: the pair goes behind the entry that ends its chain.
    method AddToChain(linkEntry: LinkEntry, tag: Word, data: Word, ghost cells: seq<Cell>, ghost last: nat)
      requires CellsAre(cells) && startAddr + LINK_SIZE * |cells| < TWO_64
      requires last < |cells| && entries[last] == linkEntry
      modifies this, linkEntry
      ensures |entries| == |old(entries)| + 1 && entries == old(entries) + [entries[|old(entries)|]]
      ensures fresh(entries[|old(entries)|])
      ensures CellsAre(AppendCell(startAddr, cells, last, Pair(tag, data)))
    {
      var entry := new LinkEntry();
      var newIndex := |entries|;
      entries := entries + [entry];
      entry.tag := tag;
      entry.data := data;
      entry.link := EOL;
      entry.myLink := startAddr + newIndex * LINK_SIZE;
      entry.next := null;
      linkEntry.link := entry.myLink;
      linkEntry.next := entry;
      ghost var cells' := AppendCell(startAddr, cells, last, Pair(tag, data));
      forall i | 0 <= i < |cells'|
        ensures entries[i].Is(startAddr, entries, i, cells'[i])
      {
        if i < |cells| {
          assert entries[i] == old(entries)[i] && old(entries[i].Is(startAddr, entries, i, cells[i]));
        }
      }
    }

    // The loop of tsb_link_add_entry that follows a chain to its end.
    method Chase(first: nat, ghost cells: seq<Cell>) returns (linkEntry: LinkEntry)
      requires CellsAre(cells) && Forward(cells) && first < |cells|
      ensures LastFrom(cells, first) < |cells| && linkEntry == entries[LastFrom(cells, first)]
    {
      linkEntry := entries[first];
      ghost var i := first;
      ChainIncreases(cells, first);
      while linkEntry.next != null
        invariant i < |cells| && linkEntry == entries[i] && LastFrom(cells, i) == LastFrom(cells, first)
        decreases |cells| - i
      {
        assert entries[i].Is(startAddr, entries, i, cells[i]);
        linkEntry := linkEntry.next;
        i := cells[i].next.value;
      }
      assert entries[i].Is(startAddr, entries, i, cells[i]);
    }
  }

  // ---------- tables sharing an area ----------

  ghost predicate SlotsAre(users: seq<TsbEntry>, slots: seq<Pair>)
    reads users
  {
    && |users| == |slots|
    && (forall k :: 0 <= k < |users| ==> users[k].tag == slots[k].tag && users[k].data == slots[k].data)
    && (forall k, k' :: 0 <= k < k' < |users| ==> users[k] != users[k'])
  }

  // The entries of all tables that share the area, and the area, are a state.
  ghost predicate Represents(users: seq<TsbEntry>, area: LinkArea, s: State)
    reads users, area, area.entries
  {
    area.startAddr == s.start && area.CellsAre(s.cells) && SlotsAre(users, s.slots)
  }

  // tsb_link_add_entry
  method TsbLinkAddEntry(area: LinkArea, tag: Word, data: Word, tsbEntry: TsbEntry, ghost users: seq<TsbEntry>,
          ghost k: nat, ghost s: State)
    requires Represents(users, area, s) && Inv(s) && Room(s.start, |s.cells|)
    requires k < |users| && users[k] == tsbEntry && s.slots[k] != EMPTY
    modifies tsbEntry, area, area.entries
    ensures Represents(users, area, Add(s, k, Pair(tag, data)))
    ensures forall i :: 0 <= i < |area.entries| ==> area.entries[i] in old(area.entries) || fresh(area.entries[i])
  {
    hide AppendCell;
    hide ChainFrom;
    hide LastFrom;
    hide LinksAgree;
    hide Chain;
    hide PairsAt;
    hide Forward;
    if tsbEntry.tag == TSB_LINK_TAG {
      ChainIncreases(s.cells, HeadOf(s.start, s.slots[k]));
      assert Anchored(s, k);
      var index := (tsbEntry.data - area.startAddr) / LINK_SIZE;
      var linkEntry := area.Chase(index, s.cells);
      area.AddToChain(linkEntry, tag, data, s.cells, LastFrom(s.cells, index));
    } else {
      ghost var cells := s.cells + [Cell(s.slots[k], EOL, None)];
      var linkEntry := area.StartNewChain(tsbEntry.tag, tsbEntry.data, s.cells);
      area.AddToChain(linkEntry, tag, data, cells, |s.cells|);
      assert area.entries[|s.cells|] == linkEntry;
      tsbEntry.tag := TSB_LINK_TAG;
      tsbEntry.data := linkEntry.myLink;
    }
  }

  datatype Outcome = Added | IndexOutOfRange | VaCollision | NoLinkArea

  class Tsb {
    const numEntries: nat
    const startAddr: Word
    const entries: seq<TsbEntry>
    const linkPtr: LinkArea?

    constructor (num: nat, start: Word, es: seq<TsbEntry>, area: LinkArea?)
      ensures numEntries == num && startAddr == start && entries == es && linkPtr == area
    {
      numEntries, startAddr, entries, linkPtr := num, start, es, area;
    }

    // add_entry.  The table's entries are users[base..]; area is its link area if it
    // has one.
    method AddEntry(index: nat, tag: Word, data: Word, allowConflicts: bool,
                    area: LinkArea, ghost users: seq<TsbEntry>, ghost base: nat, ghost s: State)
      returns (r: Outcome)
      requires |entries| == numEntries && base + numEntries <= |users| && users[base..base + numEntries] == entries
      requires linkPtr == null || linkPtr == area
      requires Represents(users, area, s) && Inv(s) && Room(s.start, |s.cells|)
      modifies entries, area, area.entries
      ensures r == if index >= numEntries then IndexOutOfRange
                   else if s.slots[base + index] == EMPTY then Added
                   else if !allowConflicts then VaCollision
                   else if linkPtr == null then NoLinkArea
                   else Added
      ensures Represents(users, area, if r.Added? then Add(s, base + index, Pair(tag, data)) else s)
      ensures forall i :: 0 <= i < |area.entries| ==> area.entries[i] in old(area.entries) || fresh(area.entries[i])
    {
      if index >= numEntries {
        return IndexOutOfRange;
      }
      var e := entries[index];
      assert e == users[base..base + numEntries][index] == users[base + index];
      if e.tag == 0 && e.data == 0 {
        // no collision
        e.tag := tag;
        e.data := data;
        return Added;
      }
      if !allowConflicts {
        return VaCollision;
      }
      if linkPtr == null {
        return NoLinkArea;
      }
      TsbLinkAddEntry(linkPtr, tag, data, e, users, base + index, s);
      return Added;
    }
  }
}
