// A whole memory image: goldfinger prints the blocks of all sections, then the tables,
// then their link areas.
module WholeImage {
  import opened Common
  import opened TsbSpec
  import opened TsbHeap
  import opened MemImage
  import opened ImageWriter
  import opened BlockImage
  import opened TableImage

  // A block as block_generate_image finds it.
  datatype Block = Block(pa: Word, words: seq<Word32>, bytes: nat, compress: bool)

  ghost predicate Printable(b: Block, paSize: nat) {
    && |b.words| == b.bytes / BYTES_PER_WORD && b.pa < paSize && b.pa + b.bytes + 64 < TWO_64
    && !Stale(b.words, b.compress)
  }

  // Where everything goes: the blocks, the tables of 16 bytes an entry, the link areas of
  // 32 bytes an entry.
  ghost function Extents(bs: seq<Block>, tsbs: seq<Tsb>, groups: seq<Group>, n: nat): seq<Region>
    requires n <= |groups|
  {
    seq(|bs|, b requires 0 <= b < |bs| => Region(bs[b].pa, bs[b].pa + bs[b].bytes))
    + seq(|tsbs|, t requires 0 <= t < |tsbs| => Region(tsbs[t].startAddr, tsbs[t].startAddr + 16 * tsbs[t].numEntries))
    + seq(n, g requires 0 <= g < n <= |groups| =>
        Region(groups[g].state.start, groups[g].state.start + 32 * |groups[g].state.cells|))
  }

  lemma {:induction false} ExtentsAre(bs: seq<Block>, tsbs: seq<Tsb>, homes: seq<Home>, groups: seq<Group>, n: nat)
    requires AllHoused(tsbs, homes, groups) && n <= |groups|
    ensures RegionsOf(BlockObjs(bs, |bs|) + TableObjs(tsbs, homes, groups, |tsbs|) + AreaObjs(groups, n))
         == Extents(bs, tsbs, groups, n)
  {
    hide TableWords;
    hide LinkWords;
    hide Doubles;
  }

  // What a reader finds of a block: its words, one after the other, the first of each
  // eight bytes in the upper half.
  ghost predicate BlockReads(mem: map<nat, Word>, b: Block) {
    forall i :: 0 <= i < |b.words| ==>
      b.words[i] == if i % 2 == 0 then Lookup(mem, b.pa + 4 * i) / TWO_32 else Lookup(mem, b.pa + 4 * i - 4) % TWO_32
  }

  lemma {:induction false} HeldReads(mem: map<nat, Word>, b: Block)
    requires HoldsWords(mem, b.pa, Doubles(b.words))
    ensures BlockReads(mem, b)
  {
    hide HoldsWords;
    hide Doubles;
    forall i | 0 <= i < |b.words|
      ensures b.words[i] == if i % 2 == 0 then Lookup(mem, b.pa + 4 * i) / TWO_32
                            else Lookup(mem, b.pa + 4 * i - 4) % TWO_32
    {
      DoublesSpell(b.words, i);
      WordAt(mem, b.pa, Doubles(b.words), i / 2);
      assert 8 * (i / 2) == if i % 2 == 0 then 4 * i else 4 * i - 4;
    }
  }

  function BlockObj(b: Block): Placed {
    Placed(Region(b.pa, b.pa + b.bytes), Doubles(b.words))
  }

  function BlockObjs(bs: seq<Block>, n: nat): (os: seq<Placed>)
    requires n <= |bs|
    ensures |os| == n && forall u :: 0 <= u < n ==> os[u] == BlockObj(bs[u])
  {
    if n == 0 then [] else BlockObjs(bs, n - 1) + [BlockObj(bs[n - 1])]
  }

  lemma BlockFits(b: Block, paSize: nat)
    requires Printable(b, paSize)
    ensures Fitting(BlockObj(b))
  {
    hide Doubles;
    hide Stale;
    assert b.bytes == 4 * (b.bytes / 4) + b.bytes % 4;
  }

  method WriteBlock(image: Image, b: Block, paSize: nat, envZero: bool, ghost objs: seq<Placed>) returns (st: Status)
    requires AllHold(image, objs) && Printable(b, paSize)
    modifies image
    ensures if Free(b.pa, b.bytes, old(image.regions)) then st.Ok? else st.Collision?
    ensures st.Ok? ==> AllHold(image, objs + [BlockObj(b)])
  {
    hide Free;
    hide HoldsWords;
    hide Holds;
    hide ReadFrom;
    hide Doubles;
    hide Stale;
    hide Misplaces;
    ghost var was := image.Mem(false);
    NotMisplaced(b);
    st := GenerateImage(image, b.pa, paSize, b.words, b.bytes, b.compress, envZero);
    if st.Ok? {
      BlockFits(b, paSize);
      ObjectAdded(was, image, objs, BlockObj(b));
    }
  }

  lemma NotMisplaced(b: Block)
    requires !Stale(b.words, b.compress)
    ensures !Misplaces(b.words, b.compress)
  {
  }

  lemma {:induction false} BlocksTo(bs: seq<Block>, b: nat, n: nat)
    requires b < n <= |bs|
    ensures BlockObjs(bs, b) + [BlockObj(bs[b])] <= BlockObjs(bs, n)
  {
    hide BlockObj;
  }

  // The blocks, one at a time; they all go in exactly when they are apart.
  method WriteBlocks(image: Image, bs: seq<Block>, paSize: nat, envZero: bool) returns (st: Status)
    requires AllHold(image, []) && forall b :: 0 <= b < |bs| ==> Printable(bs[b], paSize)
    modifies image
    ensures st.Ok? || st.Collision?
    ensures st.Ok? ==> AllHold(image, BlockObjs(bs, |bs|))
    ensures !st.Ok? ==> !Separate(RegionsOf(BlockObjs(bs, |bs|)))
  {
    hide Free;
    hide Separate;
    hide RegionsOf;
    hide HoldsWords;
    hide ReadFrom;
    hide Doubles;
    hide AllHold;
    hide Printable;
    st := Ok;
    ghost var objs: seq<Placed> := [];
    var b := 0;
    while b < |bs|
      invariant 0 <= b <= |bs| && st.Ok? && objs == BlockObjs(bs, b) && AllHold(image, objs)
    {
      HeldSeparate(image, objs);
      st := WriteBlock(image, bs[b], paSize, envZero, objs);
      if !st.Ok? {
        BlocksTo(bs, b, |bs|);
        RefusedClash(objs, BlockObj(bs[b]), BlockObjs(bs, |bs|));
        return;
      }
      objs := objs + [BlockObj(bs[b])];
      b := b + 1;
    }
  }

  // Blocks, tables and link areas in one image.  It is written exactly when all of them
  // are apart; and then a reader finds every word of every block at its address and
  // walks every table to what was added there.
  method WriteImage(bs: seq<Block>, paSize: nat, tsbs: seq<Tsb>, areas: seq<LinkArea>, suppressZero: bool,
          envZero: bool, ghost homes: seq<Home>, ghost groups: seq<Group>)
    returns (st: Status, mem: map<nat, Word>)
    requires forall b :: 0 <= b < |bs| ==> Printable(bs[b], paSize)
    requires AllHoused(tsbs, homes, groups) && Linking(areas, groups)
    requires forall g :: 0 <= g < |groups| ==> Represents(groups[g].users, groups[g].area, groups[g].state)
    ensures if Separate(Extents(bs, tsbs, groups, |areas|)) then st.Ok? else st.Collision?
    ensures st.Ok? ==> forall b :: 0 <= b < |bs| ==> BlockReads(mem, bs[b])
    ensures st.Ok? ==> forall t, k :: 0 <= t < |tsbs| && 0 <= k < tsbs[t].numEntries ==>
      EntryWalks(mem, tsbs[t], homes[t], groups, k)
  {
    hide HoldsWords;
    hide BlockReads;
    hide ReadFrom;
    hide Doubles;
    hide EntryWalks;
    hide Represents;
    hide Inv;
    hide OnlyIn;
    hide Keeps;
    hide AllHold;
    hide Printable;
    hide Housed;
    hide Separate;
    hide RegionsOf;
    hide Extents;
    var image := new Image();
    mem := map[];
    EmptyHolds(image);
    ghost var objs := BlockObjs(bs, |bs|);
    ghost var all := objs + TableObjs(tsbs, homes, groups, |tsbs|) + AreaObjs(groups, |areas|);
    ExtentsAre(bs, tsbs, homes, groups, |areas|);
    st := WriteBlocks(image, bs, paSize, envZero);
    if !st.Ok? {
      SeparatePrefix(objs, all);
      return;
    }
    st, mem := WriteTables(image, tsbs, areas, suppressZero, envZero, homes, groups, objs);
    if st.Ok? {
      BlocksThere(image, mem, bs, all);
    }
  }

  lemma EmptyHolds(image: Image)
    requires image.Valid() && image.regions == []
    ensures AllHold(image, [])
  {
  }

  lemma {:induction false} BlocksThere(image: Image, mem: map<nat, Word>, bs: seq<Block>, all: seq<Placed>)
    requires AllHold(image, all) && mem == image.Mem(false) && BlockObjs(bs, |bs|) <= all
    ensures forall b :: 0 <= b < |bs| ==> BlockReads(mem, bs[b])
  {
    hide BlockReads;
    hide HoldsWords;
    hide ReadFrom;
    hide Doubles;
    forall b | 0 <= b < |bs|
      ensures BlockReads(mem, bs[b])
    {
      assert all[b] == BlockObj(bs[b]) && InImage(image, all[b]);
      HeldReads(mem, bs[b]);
    }
  }
}
