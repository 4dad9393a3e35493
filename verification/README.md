# Verified models of the OpenPiton support code

The C, C++ and Python tools around the OpenPiton RTL hold a few algorithms whose mistakes would
show up far away: the tree behind the simulated memory, the protocol of the distributed
simulation, the translation tables in a memory image. This project models them in Dafny and
proves what they are for.

| files | source | what is proved |
|---|---|---|
| `BTreeSpec.dfy`, `BTree.dfy` | `b_ary.c` | the heap B-tree, with its splits and root growth, is a finite map that never overwrites, and searches are logarithmic |
| `SimMemory.dfy` | `iob_main.cc` | the memory behind its one-line cache answers every run of reads and writes as a flat memory, with the exact runs that fault |
| `Lockstep.dfy`, `MpiProtocol.dfy`, `MpiRuns.dfy` | `my_metro_tile.cpp`, `my_metro_chipset.cpp`, `my_metro_fake_mem.cpp`, `metro_mpi.cpp` | every interleaving of the processes refines a lock-step machine, never deadlocks, holds at most two messages a channel, and all ranks leave together with one verdict, that of the first traps the tiles commit |
| `MetroGrid.dfy` | the same, and `pyhplib.py` | every grid with edge controllers is wired so, and the generated controller map always describes such a grid |
| `TsbSpec.dfy`, `TsbHeap.dfy` | `tsb.c`, `tsb_link.c` | tables sharing a link area hold exactly what was added, with the exact runs for which this holds |
| `MemImage.dfy`, `ImageWriter.dfy`, `TableImage.dfy` | `tsb.c`, `tsb_link.c`, `physmap.c`, `make_mem_map.py` | printed tables, read back and walked by address, give what was added |
| `BlockTsb.dfy` | `block_tsb.c` | pages cover a block once, and every byte of it is translated to its real address by the walk from its index; with the exact fields whose pages a table can hold |
| `BlockImage.dfy` | `block.c` | a printed block reads back as its words, with the exact blocks that do not |
| `WholeImage.dfy` | `goldfinger.c` | blocks and tables whose addresses are apart, and only those, make one image, and all of it reads back right |
| `ImageLoad.dfy` | `bw_lib.c` | the image loader of the simulated memory and the Python reader agree |
| `BramMap.dfy` | `make_mem_map.py` | reads through the generated address translator return the original data |
| `Ecc.dfy` | `mem.c` | both check-bit codes have distance four: one wrong bit can be put right, up to three are noticed |
| `InterruptSpec.dfy`, `Interrupts.dfy` | `iob.cc`, `cpx.cc`, `cpx.h`, `pcx.h` | interrupts leave once, in order, for the core they were queued for, one step after their request, and none waits for ever, whatever arrives meanwhile |
| `LatencySpec.dfy`, `LatencyCtrl.dfy` | `bw_lat_mem_ctrl.cc` | the controller's state is a function of the windows of accesses it saw; its answers close in on the curves by a twentieth a window, and stay in range, over every trace |
| `Common.dfy`, `BitFields.dfy` | | what several modules need: options, 64-bit words, numbers as bits |

Each imperative part of the source is a class or a method with loops, proved against a
value-level function; what the source promises is then proved about that function.
`dafny verify dfyconfig.toml` checks everything.

## How the parts fit

`MemImage` is the meeting point: `goldfinger`'s writers are proved against the reader of
`make_mem_map.py` and put together in `WholeImage`; `BlockTsb` fills the tables that are
written; `ImageLoad` proves that the C reader loads the same words into the memory of
`SimMemory`; and `BramMap` starts from the same map of words. `McMapping` produces the grids of
`MetroGrid`, which instantiate the network of `MpiProtocol`, which refines `Lockstep`.

## Where the code falls short

- `iob_main.cc:196-207` takes `last_addr == 0` for "nothing cached", so a read of line 0 before
  any access found its line follows a null pointer (`FlatMemory.FaultExample`). `FaultFreeIff`
  says exactly which runs never do.
- `block.c:567-573` computes `zero_line` for full lines only. A short last line behind a
  suppressed one is printed at the address where the zeros began (`BlockImage.MisplacesExample`).
  `BlockImage.GenerateImage` says exactly which blocks are printed right; lengths that are a
  multiple of 32 bytes always are.
- `tsb.c:558-563` takes a (0, 0) entry for an empty one and the all-ones tag for a link. As the
  first pair of a slot the former is lost and the latter corrupts the table; as a later pair both
  are kept. `TsbSpec.RunCorrectIff` says exactly which runs are right, and
  `BlockTsb.PagesHoldableIff` which fields and base words can produce such an entry.
- `bw_lat_mem_ctrl.cc:299-300` lowers the overflow factor only while it is above a hundredth, so
  after the first overloaded window it never returns to 0 (`LatencySpec.FactorRange`).

## Assumptions

- MPI: messages between two ranks arrive in order (section 3.5 of MPI 3.1) and standard-mode
  sends are buffered (section 3.4 of MPI 3.1). `PRONOC_T1` and `PRONOC_T2` are the grid's
  dimensions, `PRONOC_T3` is 1, `smart_max` is the same everywhere and `gotFinish` never
  fires. The RTL model of a rank is a parameter: what it puts out, what `eval` makes of its
  inputs, what it commits. `mcs_map_info.tmp.h` is not part of this model; the map it holds is taken to
  be the one `get_mc_mapping` builds.
- Doubles of the latency controller are reals; a window whose last access is in the cycle of its
  first has an infinite bandwidth. Curves fall strictly in bandwidth and have a point, and the
  window size and the frequency are not zero.
- Clocks and random delays are parameters; `random() & 7` may give any value up to 7.
- Tables have an even number of entries, start addresses and lengths fit below 2^64 and block
  addresses fit the physical address size; a link area has fewer than 2^26 entries, so that
  `new_index * LINK_SIZE` stays within an int.
- The Python of `make_mem_map.py` divides as integers where it uses `/`, and a test touches at
  least two addresses.
- Address lines of an image carry a comment, as `goldfinger` prints them; without one the C
  reader takes the line end for a digit.

## Model

| member | source | states |
|---|---|---|
| `BTreeHeap.Node.Create` | piton/tools/pli/iop/b_ary.c:29-38 | a new node is empty and valid |
| `BTreeHeap.Copy` | piton/tools/pli/iop/b_ary.c:42-60 | a shift, within one node or between two, of keys and children together; overlapping ranges come out right and nothing else moves |
| `BTreeHeap.ScanNode` | piton/tools/pli/iop/b_ary.c:64-76 | the binary search returns the number of keys not above the sought one, and whether that last one is equal |
| `BTreeHeap.AddData` | piton/tools/pli/iop/b_ary.c:81-125 | a node takes a key and a subtree in, or is left with the lower half and yields the middle key and a new right half, in all four arms |
| `BTreeHeap.SplitLow` | piton/tools/pli/iop/b_ary.c:102-115 | the arms of a split for a key that goes left of or into the middle |
| `BTreeHeap.SplitHigh` | piton/tools/pli/iop/b_ary.c:116-123 | the arm of a split for a key that goes right of the middle |
| `BTreeHeap.RecursiveInsert` | piton/tools/pli/iop/b_ary.c:129-157 | the heap below the node becomes the tree the value-level insertion gives, with the same promoted key and right half, and owns only its old and new objects |
| `BTreeHeap.InsertAtRoot` | piton/tools/pli/iop/b_ary.c:162-177 | the root grows exactly when it was split |
| `BTreeHeap.BTree.Insert` | piton/tools/pli/iop/b_ary.c:162-177 | the tree stays a B-tree, and the stored map gains the atom when its key was absent and is unchanged otherwise |
| `BTreeHeap.BTree.Find` | piton/tools/pli/iop/b_ary.c:181-191 | the atom stored for the key or null, visiting at most one node a level; visiting h+1 nodes takes 2*3^h-1 stored keys |
| `BTreeSpec.InsertCorrect` | piton/tools/pli/iop/b_ary.c:129-177 | every insertion keeps sorted separated keys, two to four keys in every node but the root, and leaves at one depth; the in-order sequence gains the atom at its rank |
| `BTreeSpec.InsertMaps` | piton/tools/pli/iop/b_ary.c:162-177 | as a map from keys to atoms, an insertion adds and never overwrites |
| `BTreeSpec.InsInOrder` | piton/tools/pli/iop/b_ary.c:129-157 | one level of the recursion, with or without a split below, puts the atom at its rank in the whole sequence |
| `BTreeSpec.InsShape` | piton/tools/pli/iop/b_ary.c:129-157 | one level of the recursion keeps node sizes and leaf depth |
| `BTreeSpec.KidBetweenKeys` | piton/tools/pli/iop/b_ary.c:129-157 | everything in a subtree lies between the keys around it |
| `BTreeSpec.PromotedGap` | piton/tools/pli/iop/b_ary.c:141-147 | the second scan, for the promoted key, finds the slot the child was in |
| `BTreeSpec.SearchStep` | piton/tools/pli/iop/b_ary.c:186-190 | one node of the search loop ends the search or leaves one child that has the answer |
| `BTreeSpec.HeightBound` | piton/tools/pli/iop/b_ary.c:162-177 | a non-empty tree with leaves h levels below the root holds at least 2*3^h-1 keys |
| `FlatMemory.MaskAfterShift` | piton/tools/pli/iop/bw_lib.c:116-121 | masking after the shift finds the same line as iob_main.cc, which masks before it |
| `FlatMemory.ReadAfterWrite` | piton/tools/pli/iop/iob_main.cc:144-173 | an eight-byte word reads back what was written to it, and writing it changes no other word |
| `FlatMemory.FirstHighest` | piton/tools/pli/iop/iob_main.cc:144-173 | of the bytes of a word the first is the most significant |
| `FlatMemory.ReadsLastWrite` | piton/tools/pli/iop/iob_main.cc:177-298 | in every run, every read answers the last value written to its word or the initial one, unless it is a read that faults |
| `FlatMemory.FaultFreeIff` | piton/tools/pli/iop/iob_main.cc:196-207 | a run never follows the null cache pointer exactly when the cache was filled before or every read of line 0 comes after an access that found its line |
| `FlatMemory.FaultExample` | piton/tools/pli/iop/iob_main.cc:196-297 | writing word 0 of a fresh memory and reading it back follows the null pointer; a second write cures it |
| `FlatMemory.RunsOffLineZero` | piton/tools/pli/iop/iob_main.cc:177-298 | runs that keep off line 0 answer every read with the last value written |
| `SimMemory.GetEightByte` | piton/tools/pli/iop/iob_main.cc:144-155 | the eight bytes at the word's place, first byte highest |
| `SimMemory.WriteEightByte` | piton/tools/pli/iop/iob_main.cc:157-173 | the eight bytes of the value at the word's place, and no other byte of the line |
| `SimMemory.Memory.constructor` | piton/tools/pli/iop/iob_main.cc:98-110 | an empty tree and an empty cache stand for a memory of zeros |
| `SimMemory.Memory.Read64` | piton/tools/pli/iop/iob_main.cc:177-239 | through a cache hit, a tree hit or a miss, the answer and the new state are those of the flat memory |
| `SimMemory.Memory.Write64` | piton/tools/pli/iop/iob_main.cc:243-298 | overwriting a stored line or inserting a cleared one is a write of the flat memory, and the cached line stays the stored one |
| `ImageLoad.A2h` | piton/tools/pli/iop/bw_lib.c:79-101 | the bytes of a line's words behind what the buffer holds |
| `ImageLoad.AlignBuf` | piton/tools/pli/iop/bw_lib.c:105-111 | the front line leaves the buffer and the rest moves down |
| `ImageLoad.ReadMem` | piton/tools/pli/iop/bw_lib.c:125-196 | loading an image of whole aligned lines, none given twice, gives every word the value memImageData reads for it |
| `Traps.CheckTrap` | piton/tools/verilator/my_metro_tile.cpp:230-271 | the trap of the first commit that hits one, bad traps before good ones |
| `Traps.FirstTrapIs` | piton/tools/verilator/my_metro_tile.cpp:230-271 | a tile goes on exactly when no commit hits a trap, and otherwise reports the first commit's |
| `Lockstep.SyncAt` | piton/tools/verilator/my_metro_tile.cpp:182-198 | what one phase of the lock-step machine does to one rank: a round on what its neighbours put out, then the vote if it is due |
| `Lockstep.StatesFollow` | piton/tools/verilator/my_metro_tile.cpp:170-205 | the model of a rank is evaluated once a round on what its neighbours put out in that round, on the port that faces it; its clock rises where a tick begins, and the rest of the reset comes before the first tick of the main loop |
| `Lockstep.SyncTogether` | piton/tools/verilator/my_metro_tile.cpp:378-395 | all ranks are at one place of their programs in every phase |
| `Lockstep.LatchStays` | piton/tools/verilator/my_metro_tile.cpp:383 | a latched trap is never replaced |
| `Lockstep.LatchedIff` | piton/tools/verilator/my_metro_tile.cpp:230-271 | a tile has latched a bad trap exactly when the first of its commits at a trap, over the ends of all ticks of its main loop so far, is at a bad one; a good trap exactly when that commit is at one that is good and not bad; nothing exactly when there is no such commit |
| `Lockstep.OnlyTilesLatch` | piton/tools/verilator/my_metro_chipset.cpp:336-340 | ranks other than tiles vote to continue |
| `Lockstep.VerdictOrigin` | piton/tools/verilator/metro_mpi.cpp:42-47 | a verdict comes from one vote, and from commits: bad exactly when by then the first commit of some tile at a trap was at a bad one, good exactly when that held for no tile and some tile's was at a good one |
| `Lockstep.UndecidedRunsOn` | piton/tools/verilator/my_metro_tile.cpp:385-388 | a vote sends every rank on exactly when no commit of any tile has been at a trap |
| `Lockstep.FirstVote` | piton/tools/verilator/my_metro_tile.cpp:378-392 | the first vote comes after the two rounds of the reset and one tick more than the initial delay, of smart_max + 2 rounds each, and none comes before |
| `Lockstep.VoteAgain` | piton/tools/verilator/my_metro_tile.cpp:385-391 | after an undecided vote the next comes exactly one tick more than the interval later, in rounds of smart_max + 2 a tick |
| `Lockstep.DecidedEnds` | piton/tools/verilator/my_metro_tile.cpp:394-395 | after a decided vote and exactly the closing ticks every rank is out with that verdict |
| `MpiProtocol.StepKeeps` | piton/tools/verilator/my_metro_tile.cpp:170-205 | every step of every rank, blocked or not by others, keeps local states, channels and votes in agreement with the lock-step machine |
| `MpiProtocol.ReceivedIs` | piton/tools/verilator/metro_mpi.cpp:99-121 | the message a receive of round k takes is what that neighbour put out in its own round k |
| `MpiProtocol.TallyIs` | piton/tools/verilator/metro_mpi.cpp:42-47 | the all-reduce of a vote gives the largest trap the ranks had latched at that vote |
| `MpiRuns.RefinesLockstep` | piton/tools/verilator/my_metro_tile.cpp:170-205 | in every interleaving each rank is where the lock-step machine is after as many phases, with the same inputs at the end of a round |
| `MpiRuns.FewInFlight` | piton/tools/verilator/my_metro_tile.cpp:170-205 | neighbours are at most one phase apart and a channel never holds more than two messages |
| `MpiRuns.FindEnabled` | piton/tools/verilator/my_metro_tile.cpp:170-177 | from any blocked rank, following who waits for whom ends at a rank that can step |
| `MpiRuns.NoDeadlock` | piton/tools/verilator/my_metro_tile.cpp:170-177 | while some rank has not left its main loop, some rank can step |
| `MpiRuns.SameExit` | piton/tools/verilator/my_metro_tile.cpp:381-395 | two ranks that left their main loops did so in the same phase with the same verdict, and some vote decided it from the commits of the tiles: bad when the first commit of some tile at a trap was at a bad one, otherwise good |
| `MpiRuns.EveryRunFinishes` | piton/tools/verilator/my_metro_tile.cpp:378-395 | if the lock-step machine finishes, every run of the processes is of bounded length and ends with all ranks out |
| `MetroGrid.GetEdgeRank` | piton/tools/verilator/my_metro_tile.cpp:103-110 | the rank of the first map entry for a tile's port, or none |
| `MetroGrid.RankOfXY` | piton/tools/verilator/my_metro_tile.cpp:83-101 | coordinates and ranks convert into each other |
| `MetroGrid.TileSymmetric` | piton/tools/verilator/my_metro_tile.cpp:113-151 | each neighbour of a tile has the tile as its neighbour on the opposite port |
| `MetroGrid.TileNeighbours` | piton/tools/verilator/my_metro_tile.cpp:113-151 | inside the grid east and west are the next ranks, north and south those a row away; tile 0 has the chipset in the west |
| `MetroGrid.ControllerLinks` | piton/tools/verilator/my_metro_fake_mem.cpp:220-227 | each edge controller is linked to the port of its tile, by the opposite port and by no other |
| `MetroGrid.NoController` | piton/tools/verilator/my_metro_tile.cpp:103-110 | an edge port without a controller leads nowhere |
| `MetroGrid.GridIsWired` | piton/tools/verilator/my_metro_fake_mem.cpp:220-227 | on every grid the neighbour relation is symmetric and two ranks share at most one link; rank 1 and the chipset name each other |
| `MetroGrid.GridWaits` | piton/tools/verilator/my_metro_tile.cpp:170-177 | the measure that orders waits on a grid: east by x, north by y, south last |
| `MetroGrid.GridNeverSticks` | piton/tools/verilator/my_metro_chipset.cpp:116-119 | the simulation of a grid of any size with any edge controllers never deadlocks |
| `MetroGrid.GridFinishes` | piton/tools/verilator/my_metro_fake_mem.cpp:245-264 | and it ends, within a bounded number of steps, if its lock-step machine does |
| `McMapping.GetMcMapping` | piton/tools/bin/pyhplib.py:412-444 | the nested loops build the map step by step |
| `McMapping.MappingIsWellFormed` | piton/tools/bin/pyhplib.py:412-444 | controllers sit on real edge ports, never tile 0's west port, no port and no endpoint twice: a grid the simulation can run on; endpoints follow the tiles' in the order north, south, west, east, each by its column or row |
| `McMapping.MappedIff` | piton/tools/bin/pyhplib.py:412-444 | exactly the first so many wanted edge tiles, in the order of the loops, get a controller |
| `TsbHeap.LinkArea.StartNewChain` | piton/tools/src/goldfinger/tsb_link.c:688-706 | a new entry with its own address and no successor |
| `TsbHeap.LinkArea.AddToChain` | piton/tools/src/goldfinger/tsb_link.c:735-755 | a new entry behind the end of a chain, by pointer and by address |
| `TsbHeap.LinkArea.Chase` | piton/tools/src/goldfinger/tsb_link.c:573-589 | the end of the chain |
| `TsbHeap.TsbLinkAddEntry` | piton/tools/src/goldfinger/tsb_link.c:558-617 | the objects become those of the value-level add, through an old chain or a new one |
| `TsbHeap.Tsb.AddEntry` | piton/tools/src/goldfinger/tsb.c:547-603 | the four outcomes of an add, and the new state when it succeeds |
| `TsbSpec.AddWalks` | piton/tools/src/goldfinger/tsb.c:547-603 | an add appends its pair to what a walk from its slot meets and changes no other walk, over all tables sharing the area |
| `TsbSpec.AddCorrectIff` | piton/tools/src/goldfinger/tsb.c:558-563 | an add does that exactly when it does not put (0, 0) or the link tag into an empty slot |
| `TsbSpec.FalseLink` | piton/tools/src/goldfinger/tsb_link.c:565-571 | a pair with the link tag in an empty slot breaks the chains |
| `TsbSpec.RunCorrectIff` | piton/tools/src/goldfinger/tsb.c:547-603 | a run of adds builds what it is asked for, with the chains partitioning the area after every step, exactly when the first pair at every slot is one a slot can hold |
| `TsbSpec.RunWalks` | piton/tools/src/goldfinger/tsb_link.c:558-617 | after such a run a walk from any slot meets exactly the pairs added there, in order |
| `TsbSpec.ChainsPartition` | piton/tools/src/goldfinger/tsb_link.c:688-755 | chains are acyclic and end in the end-of-list mark, and every entry of the area is on exactly one |
| `MemImage.MemImageData` | piton/tools/src/proto/make_mem_map.py:275-299 | the words of the image by address |
| `MemImage.GivenLast` | piton/tools/src/proto/make_mem_map.py:275-299 | words given at an address replace what was there, one doubleword after the other, and change nothing else |
| `MemImage.GoesOn` | piton/tools/src/proto/make_mem_map.py:275-299 | a line of words goes on where the one before stopped |
| `MemImage.AddsNothing` | piton/tools/src/proto/make_mem_map.py:275-299 | other lines add nothing; a reader that honours zero comments takes them for that many zero bytes |
| `ImageWriter.Image.AddRegion` | piton/tools/src/goldfinger/physmap.c:300-332 | a region is taken exactly when it is in order and overlaps none before it, so printed words never land in each other's regions |
| `ImageWriter.ApartIffDisjoint` | piton/tools/src/goldfinger/physmap.c:300-332 | the test on the bounds of two regions says that they have no address in common |
| `ImageWriter.Image.WriteTsb` | piton/tools/src/goldfinger/tsb.c:688-767 | a table is printed exactly when its addresses are free; what is printed reads back as the table and changes nothing else; with suppression exactly the pairs of entries that are all zeros are left out, without it none, and the zero comments account for them |
| `ImageWriter.Image.WriteTsbLink` | piton/tools/src/goldfinger/tsb_link.c:505-525 | an area is printed exactly when its addresses are free, all of it, and reads back as its entries |
| `TableImage.WalkByAddress` | piton/tools/src/goldfinger/tsb_link.c:832-839 | walking by physical address in the read-back memory gives the pairs the in-memory walk gives |
| `TableImage.WalkIsOne` | piton/tools/src/proto/make_mem_map.py:275-299 | such a walk has one outcome |
| `TableImage.OldStays` | piton/tools/src/goldfinger/physmap.c:300-332 | regions being apart, words printed for later regions leave every word read back before as it was |
| `TableImage.AnyImage` | piton/tools/src/goldfinger/physmap.c:300-332 | every image whose regions are apart is one that tables can be printed behind |
| `TableImage.WriteTables` | piton/tools/src/goldfinger/tsb.c:274-276 | all tables and all link areas printed behind whatever the image holds and read back: this succeeds exactly when all regions are apart; then every entry of every table walks to what was added there, every object is in its place and nothing else changed |
| `WholeImage.WriteImage` | piton/tools/src/goldfinger/goldfinger.c:185-199 | blocks, then tables, then link areas in one image: it is written exactly when all their address ranges are apart, and then every word of every block and every table walk reads back right |
| `BlockTsb.EveryByteOnce` | piton/tools/src/goldfinger/block_tsb.c:448-474 | every byte of an aligned block is on exactly one of its pages, its real address at the same offset of the same page |
| `BlockTsb.PagesExact` | piton/tools/src/goldfinger/block_tsb.c:448-474 | the pages of an aligned block are exactly those that hold a byte of it |
| `BlockTsb.IndexBitAt` | piton/tools/src/goldfinger/block_tsb.c:477 | which bit of an address is which bit of the index |
| `BlockTsb.TagBitAt` | piton/tools/src/goldfinger/block_tsb.c:484-488 | which bit of an address, or of the base word, is which bit of the tag |
| `BlockTsb.DataBitAt` | piton/tools/src/goldfinger/block_tsb.c:489 | the data word has the real address in its field and the base word around it |
| `BlockTsb.PagesDiffer` | piton/tools/src/goldfinger/block_tsb.c:477-488 | two pages with the same index and tag are the same page when index and tag take all bits above the page and the tag field has room |
| `BlockTsb.Tag2VaRecovers` | piton/tools/src/goldfinger/block_tsb.c:602-611 | a page address comes back from its tag and index when the tag field starts at bit 0 |
| `BlockTsb.AddBlock` | piton/tools/src/goldfinger/block_tsb.c:422-500 | the pages of a block go into the table one by one until one is refused, for a taken slot or want of one; of an aligned block these are exactly the pages with a byte of it |
| `BlockTsb.PagesWalk` | piton/tools/src/goldfinger/block_tsb.c:467-497 | each slot gains the pages of the block that have its index, in order, behind what it held |
| `BlockTsb.PageFound` | piton/tools/src/goldfinger/block_tsb.c:467-497 | the walk from a page's index meets its entry, and no other entry of the block with its tag |
| `BlockTsb.Translates` | piton/tools/src/goldfinger/block_tsb.c:448-497 | for every byte of an aligned block, the walk from the index of its page meets an entry with the tag of the page, and whichever the block put there with that tag has the bits of the real address of the page |
| `BlockTsb.PagesHoldableIff` | piton/tools/src/goldfinger/block_tsb.c:487-488 | exactly which fields and base words keep every page from being (0, 0) or a link to the table |
| `BlockTsb.LostPage` | piton/tools/src/goldfinger/block_tsb.c:487-496 | with zero base words the page at address 0 leaves its slot empty |
| `BlockImage.GenerateImage` | piton/tools/src/goldfinger/block.c:497-670 | a block is printed exactly when its addresses are free, and reads back as its words exactly when no short line was misplaced, with or without compression; with compression exactly the full lines of zeros are left out |
| `BlockImage.LineLeftOut` | piton/tools/src/goldfinger/block.c:567-602 | what is left out, in words of the block: a full line of eight zeros, when compressing |
| `BlockImage.DoublesSpell` | piton/tools/src/goldfinger/block.c:605-655 | an even word of a block is the upper half of a printed doubleword, an odd one the lower half, with zero behind an odd last word |
| `BlockImage.DisplacedHolds` | piton/tools/src/goldfinger/block.c:567-602 | a short line printed behind a suppressed one is right only if it is zeros |
| `BlockImage.MisplacesExample` | piton/tools/src/goldfinger/block.c:567-602 | a line of zeros and one word more is misplaced when compressing |
| `BramMap.CreateBlocks` | piton/tools/src/proto/make_mem_map.py:77-96 | block j holds the section's doublewords from its start on, later ones in front |
| `BramMap.AddSection` | piton/tools/src/proto/make_mem_map.py:122-134 | refused exactly when the new section overlaps one before it |
| `BramMap.MemTestData` | piton/tools/src/proto/make_mem_map.py:363-402 | sections are aligned, in order and apart, and cover every accessed address; they part exactly where more than 1024 bytes lie between accesses, each from the line of its first access to that of its last; neither error exit is taken |
| `BramMap.MapToBram` | piton/tools/src/proto/make_mem_map.py:301-323 | sections get consecutive rows, and 1 is returned exactly when the storage is too small |
| `BramMap.GenCoe` | piton/tools/src/proto/make_mem_map.py:168-186 | the rows of all sections in order |
| `BramMap.TranslatedRead` | piton/tools/src/proto/make_mem_map.py:188-265 | the row the translator selects for a covered doubleword holds that doubleword, at its place |
| `BramMap.TranslatorInjective` | piton/tools/src/proto/make_mem_map.py:222-240 | two covered addresses share a row exactly when they share a block |
| `BramMap.MakeMapping` | piton/tools/src/proto/make_mem_map.py:405-430 | from accessed addresses to rows and translator: it fails exactly when the rows of the sections are more than the storage has, and otherwise covers and lays out every accessed address |
| `Ecc.Syndrome` | piton/tools/pli/mem/mem.c:47-149 | the check bits are the exclusive ors of the named data bits |
| `Ecc.SyndromeLinear` | piton/tools/pli/mem/mem.c:63-146 | the check bits of an exclusive or are the exclusive or of the check bits |
| `Ecc.ColumnIs` | piton/tools/pli/mem/mem.c:63-142 | a data bit enters the check bits its Hamming position names, and the last one so that it enters an odd number |
| `Ecc.CheckParity` | piton/tools/pli/mem/mem.c:63-142 | a word and its check bits have weights of one parity |
| `Ecc.DistanceFour` | piton/tools/pli/mem/mem.c:47-149 | two different words, check bits counted in, differ in at least four bits |
| `Ecc.BitsOfApart` | piton/tools/pli/mem/mem.c:47-61 | the bits taken from the bytes determine the bytes |
| `Ecc.BitsSpell` | piton/tools/pli/mem/mem.c:47-61 | bit k of them is bit k of the number the bytes spell, first byte highest |
| `Ecc.WordsFourApart` | piton/tools/pli/mem/mem.c:47-149 | two different inputs of the routine, with what it returns, are four bits apart |
| `Ecc.ErrorsApart` | piton/tools/pli/mem/mem.c:47-149 | however a word was received, the wrong bits counted from two different words add up to four: one error can be put right, and two are never taken for one |
| `Ecc.ErrorsNoticed` | piton/tools/pli/mem/mem.c:47-149 | one to three wrong bits leave check bits that do not fit the word |
| `Interrupts.CpxPacket.Xlation` | piton/tools/pli/iop/cpx.cc:41-56 | a packet for the core of the event with its word and delays |
| `Interrupts.Iob.constructor` | piton/tools/pli/iop/iob.cc:26-81 | an empty bridge with the boot packet queued |
| `Interrupts.FindThread` | piton/tools/pli/iop/iob.cc:57-62 | the lowest bit set in the boot mask |
| `Interrupts.Iob.QueuePacket` | piton/tools/pli/iop/iob.cc:164-183 | a used or new packet, for the core and with the word that was asked for, queued behind the others |
| `Interrupts.Iob.GenEvent` | piton/tools/pli/iop/iob.cc:158-200 | every record of the list that asks for more is queued, in order, and counted down |
| `Interrupts.Iob.HandlePcx` | piton/tools/pli/iop/iob.cc:236-255 | the head waits or moves on; every packet object stays in one place, queue or pool, and none is lost |
| `Interrupts.Iob.HandleCpx` | piton/tools/pli/iop/iob.cc:342-357 | the head waits, asks or is due |
| `Interrupts.Iob.DriveCpx` | piton/tools/pli/iop/iob.cc:261-315 | the head leaves when it is due and its object goes to the pool |
| `Interrupts.Iob.DriveReq` | piton/tools/pli/iop/iob.cc:326-338 | the request becomes the grant |
| `Interrupts.Iob.DoIob` | piton/tools/pli/iop/iob.cc:364-379 | grants served, then both queues |
| `Interrupts.Iob.Clock` | piton/tools/pli/iop/iob_main.cc:116-129 | the three calls of a clock are one tick of the value-level machine, and keep every packet object; a new one is made only for an empty pool |
| `InterruptSpec.ServesOne` | piton/tools/pli/iop/iob.cc:367-373 | the grant loop frees a selector of the granted core if one is taken and leaves all others alone, the sign of a char included |
| `InterruptSpec.GrantBit` | piton/tools/pli/iop/iob.cc:367-373 | of the bits the grant loop looks at, the one of the granted core is set and no other |
| `InterruptSpec.CpxStep` | piton/tools/pli/iop/iob.cc:342-357 | the selector test never holds a packet back, and a packet is due exactly one step after its request |
| `InterruptSpec.TickStep` | piton/tools/pli/iop/iob.cc:261-379 | every tick keeps the invariant and drives a word exactly when a request went out in the tick before; that request was for the core the word was queued for; nothing is lost, doubled or overtaken |
| `InterruptSpec.TickCosts` | piton/tools/pli/iop/iob.cc:236-379 | every tick takes a step off the way of the first n words, whatever waits behind them |
| `InterruptSpec.RunConserves` | piton/tools/pli/iop/iob.cc:158-379 | over every run each interrupt leaves once, in queueing order, with its own word and the request of its own core |
| `InterruptSpec.AllDelivered` | piton/tools/pli/iop/iob.cc:158-379 | in every run, whatever is queued meanwhile and whatever the random delays, a bounded number of ticks drives all words that waited, to their cores, in order and before anything queued later |
| `InterruptSpec.HeadExact` | piton/tools/pli/iop/iob.cc:261-357 | a packet at the head is driven in exactly the tick its waits name, to its core, and nothing before it |
| `InterruptSpec.EventLeaves` | piton/tools/pli/iop/iob.cc:236-379 | an event with nothing before it is driven max(1, d) ticks after its delay ends, where d is the random delay of that tick, whatever is queued meanwhile |
| `InterruptSpec.IdleDrives` | piton/tools/pli/iop/iob.cc:158-379 | an interrupt queued on an idle bridge is driven max(1, d) ticks after its third, to its core with its word |
| `InterruptSpec.GeneratedIsRun` | piton/tools/pli/iop/iob.cc:158-200 | a trigger of the event list is a run of queueings |
| `InterruptSpec.TriggerRaises` | piton/tools/pli/iop/iob.cc:158-200 | a record is raised by exactly the first triggers of its list, as many as it asks for, for its core and with its word |
| `InterruptSpec.BootStarts` | piton/tools/pli/iop/iob.cc:26-81 | the bridge starts in the invariant with one packet, for the core of the boot thread, nine ticks from leaving |
| `InterruptSpec.BootsLowest` | piton/tools/pli/iop/iob.cc:57-82 | the boot thread is the lowest of the mask, and 0 for an empty one |
| `InterruptSpec.BootWordIs` | piton/tools/pli/iop/iob.cc:63-80 | the fields of the boot word: the thread, its place in its core and two set bits |
| `LatencyCtrl.LoadCurves` | piton/tools/pli/Realistic_lat/bw_lat_mem_ctrl.cc:50-115 | scaled points of every file, the least latency, and the largest bandwidth and latency of each curve |
| `LatencyCtrl.BwLatMemCtrl.LatencyOn` | piton/tools/pli/Realistic_lat/bw_lat_mem_ctrl.cc:252-315 | the loop and the line give the curve as a function of bandwidth |
| `LatencyCtrl.BwLatMemCtrl.SearchForLatencyOnCurve` | piton/tools/pli/Realistic_lat/bw_lat_mem_ctrl.cc:173-333 | the estimate moves as the value-level search says, which LatencySpec.TraceMoves states, and no assert fails |
| `LatencyCtrl.BwLatMemCtrl.UpdateLatency` | piton/tools/pli/Realistic_lat/bw_lat_mem_ctrl.cc:335-350 | a full window is turned into its bandwidth and share of reads |
| `LatencyCtrl.BwLatMemCtrl.Access` | piton/tools/pli/Realistic_lat/bw_lat_mem_ctrl.cc:352-423 | the counters stand for the open window of the whole trace, the estimate and the answer for its full windows; reads and writes add up to the count, which stays below the window size |
| `LatencyCtrl.BwLatMemCtrl.GetBandwidth` | piton/tools/pli/Realistic_lat/bw_lat_mem_ctrl.cc:163-167 | the last estimate, within the curves' bandwidths |
| `LatencyCtrl.DelayIs` | piton/tools/pli/Realistic_lat/bw_lat_mem_ctrl.cc:421-422 | the answer is the latency in cycles of the simulated clock, and at the curves' own 2.1 GHz the latency itself |
| `LatencySpec.OneMore` | piton/tools/pli/Realistic_lat/bw_lat_mem_ctrl.cc:364-388 | an access joins the open window or closes it |
| `LatencySpec.TraceMoves` | piton/tools/pli/Realistic_lat/bw_lat_mem_ctrl.cc:173-350 | over every trace: the estimate moves only where a window fills. Then the latency closes in by a twentieth on the curve's value at the new bandwidth or, under overload, on the curve's largest, each with the overflow factor on top; the factor goes up by two hundredths or down by one; and the answer is the estimate without its fraction, never below the lead-off latency |
| `LatencySpec.ReadsAre` | piton/tools/pli/Realistic_lat/bw_lat_mem_ctrl.cc:364-380 | the reads of a window are counted |
| `LatencySpec.OneKind` | piton/tools/pli/Realistic_lat/bw_lat_mem_ctrl.cc:181-189 | windows of reads alone use curve 50, of writes alone curve 0 |
| `LatencySpec.BandwidthIs` | piton/tools/pli/Realistic_lat/bw_lat_mem_ctrl.cc:335-350 | n accesses in n cycles at 2.1 GHz are one access a cycle, and in general accesses per cycle scale with the clock |
| `LatencySpec.IndexNearest` | piton/tools/pli/Realistic_lat/bw_lat_mem_ctrl.cc:181-189 | the curve of the nearest even percentage of reads, from 0 to 50 |
| `LatencySpec.AtPoint` | piton/tools/pli/Realistic_lat/bw_lat_mem_ctrl.cc:252-289 | a curve passes through its points |
| `LatencySpec.AtOnLine` | piton/tools/pli/Realistic_lat/bw_lat_mem_ctrl.cc:252-289 | above all its points a curve is level; elsewhere the latency is on the line through the next point below and the one before it, below all points through the last two |
| `LatencySpec.AtBetween` | piton/tools/pli/Realistic_lat/bw_lat_mem_ctrl.cc:276-289 | between two neighbouring points the latency is on their line and between theirs |
| `LatencySpec.AtRises` | piton/tools/pli/Realistic_lat/bw_lat_mem_ctrl.cc:252-289 | on a curve whose latencies do not fall where bandwidth grows, more bandwidth never means less latency |
| `LatencySpec.TraceInRange` | piton/tools/pli/Realistic_lat/bw_lat_mem_ctrl.cc:173-350 | over every trace, the bandwidth stays between 0 and the curves' largest, the overflow factor is not negative and answers are no lower than the truncated lead-off latency |
| `LatencySpec.FactorRange` | piton/tools/pli/Realistic_lat/bw_lat_mem_ctrl.cc:226-314 | the overflow factor is at most two hundredths an overloaded window, and after the first one it never is 0 again |
| `LatencySpec.LatencyBounded` | piton/tools/pli/Realistic_lat/bw_lat_mem_ctrl.cc:173-333 | latencies exceed the curves' largest by no more than the overflow factor can, when curves do not fall at their low end |
| `LatencySpec.SteadyCloses` | piton/tools/pli/Realistic_lat/bw_lat_mem_ctrl.cc:206-221 | under a steady load the estimated bandwidth closes in by a twentieth of the difference each window |
| `LatencySpec.SteadyTrace` | piton/tools/pli/Realistic_lat/bw_lat_mem_ctrl.cc:335-388 | a trace that repeats one window is a steady load |
| `LatencySpec.SteadyLatency` | piton/tools/pli/Realistic_lat/bw_lat_mem_ctrl.cc:222-319 | under it the latency closes in on the curve by a twentieth each window once the bandwidth has settled |
| `LatencySpec.SteadyRises` | piton/tools/pli/Realistic_lat/bw_lat_mem_ctrl.cc:206-319 | on its way up it rises with every window and never passes the curve |

## Left out

- Parent pointers of the B-tree: written by `b_recursiveInsert`, read by nothing.
- `SimMemory.Memory.Read64`: the 32 cache slots of `pli_var` are one, since only slot 0 is used; the masks of addresses and bytes are written as division and remainder.
- `ImageLoad.ReadMem`: partial lines, unaligned sections and lines given twice, which load stale bytes or keep the first line; addresses from 2^40 on, which `read_mem` masks and `memImageData` does not; the text of a line is already split into an address or words.
- `MpiProtocol.StepKeeps`: the side exchange of the latency model and the closing statistics messages.
- `McMapping.GetMcMapping`: the list elements are numbers, so spellings of a number other than Python's own never match; positions in the resulting list are not characterised, since out-of-order insertions do not follow the index list.
- `MetroGrid.GridNeverSticks`: says that some process can step, not that a scheduler is fair; `MetroGrid.GridFinishes` bounds every schedule.
- `TsbHeap.Tsb.AddEntry`: block pointers, kept for error messages only; the CSM variants of tables and link areas.
- `ImageWriter.Image.WriteTsb`: an odd number of entries, for which the C code reads past the end of the table, so that what it prints is undefined; after a collision nothing is said, since the program stops.
- `BlockImage.GenerateImage`: start addresses beyond the physical address size, of which only the first address line is masked; ELF sections, byte order and the text of numbers; in the stale case only what a reader that ignores zero comments gets.
- `BramMap.TranslatedRead`: the chunk bits appended to `storage_addr_out`, and the text of the Verilog module.
- `Ecc.Syndrome`: the exclusive ors are sets of bit numbers, folded in index order, and the result is a list of bits instead of a char.
- `Interrupts.Iob.QueuePacket`: the fields packed into the words of an event's packet.
- `BlockTsb.AddBlock`: fields lie within 64 bits; the CSM variant.
- `LatencyCtrl.BwLatMemCtrl.SearchForLatencyOnCurve`: rounding of doubles, and latencies that do not fit 32 bits; reading the curve files.
- `LatencyCtrl.BwLatMemCtrl.Access`: `GetQsMemLoadCycleLimit`, which is not called, and the theoretical bandwidth, which is not read.
- `WholeImage.WriteImage`: blocks with a short last line behind a suppressed one; for a reader that honours zero comments these spill over the end of their region even where the line is zeros.
- ELF reading, configuration parsing, symbol tables, PLI and DPI glue, Verilog generators.
