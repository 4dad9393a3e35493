// Translation tables whose collisions spill into a shared link area, as values: what
// goldfinger's tsb.c and tsb_link.c build.
module TsbSpec {
  import opened Common

  const TSB_LINK_TAG: Word := TWO_64 - 1
  const EOL: Word := TWO_64 - 1
  const LINK_SIZE: nat := 32

  datatype Pair = Pair(tag: Word, data: Word)

  const EMPTY := Pair(0, 0)

  // A link entry; `next` is the number of the entry its next pointer leads to.
  datatype Cell = Cell(pair: Pair, link: Word, next: Option<nat>)

  // slots: the entries of all tables that share the link area.  cells: the link
  // area.  own[i]: the slot whose collision appended cell i.
  datatype State = State(start: Word, slots: seq<Pair>, cells: seq<Cell>, own: seq<nat>)

  // Two more entries keep all addresses of the area below the end-of-list mark, and
  // their numbers times 32 within a C int.
  ghost predicate Room(start: Word, n: nat) {
    n + 2 <= 0x400_0000 && start + LINK_SIZE * (n + 2) < TWO_64
  }

  function Addr(start: Word, i: nat): (a: Word)
    requires start + LINK_SIZE * i < TWO_64
  {
    start + LINK_SIZE * i
  }

  // ---------- chains ----------

  ghost predicate Forward(cells: seq<Cell>) {
    forall i :: 0 <= i < |cells| && cells[i].next.Some? ==> i < cells[i].next.value < |cells|
  }

  ghost function ChainFrom(cells: seq<Cell>, i: nat): (chain: seq<nat>)
    requires Forward(cells) && i < |cells|
    decreases |cells| - i
  {
    [i] + if cells[i].next.None? then [] else ChainFrom(cells, cells[i].next.value)
  }

  ghost function LastFrom(cells: seq<Cell>, i: nat): (l: nat)
    requires Forward(cells) && i < |cells|
    decreases |cells| - i
  {
    if cells[i].next.None? then i else LastFrom(cells, cells[i].next.value)
  }

  lemma {:induction false} ChainIncreases(cells: seq<Cell>, i: nat)
    requires Forward(cells) && i < |cells|
    ensures var c := ChainFrom(cells, i);
      && c != [] && c[0] == i && c[|c| - 1] == LastFrom(cells, i)
      && (forall j :: 0 <= j < |c| ==> i <= c[j] < |cells|)
      && (forall j, j' :: 0 <= j < j' < |c| ==> c[j] < c[j'])
      && LastFrom(cells, i) < |cells| && cells[LastFrom(cells, i)].next.None?
    decreases |cells| - i
  {
    if cells[i].next.Some? {
      ChainIncreases(cells, cells[i].next.value);
    }
  }

  // What the address words of the area say is what the pointers say.
  ghost predicate LinksAgree(start: Word, cells: seq<Cell>)
    requires Forward(cells) && start + LINK_SIZE * |cells| < TWO_64
  {
    forall i :: 0 <= i < |cells| ==>
      cells[i].link == if cells[i].next.None? then EOL else Addr(start, cells[i].next.value)
  }

  predicate Linked(slot: Pair) {
    slot.tag == TSB_LINK_TAG
  }

  function HeadOf(start: Word, slot: Pair): (h: int) {
    (slot.data - start) / LINK_SIZE
  }

  ghost predicate Sized(s: State) {
    && |s.own| == |s.cells| && s.start + LINK_SIZE * |s.cells| < TWO_64
    && Forward(s.cells) && LinksAgree(s.start, s.cells)
  }

  ghost predicate Anchored(s: State, k: nat)
    requires Sized(s) && k < |s.slots|
  {
    var h := HeadOf(s.start, s.slots[k]);
    0 <= h < |s.cells| && s.slots[k].data == Addr(s.start, h)
  }

  // The cells of slot k's chain, in order.
  ghost function Chain(s: State, k: nat): seq<nat>
    requires Sized(s) && k < |s.slots| && (Linked(s.slots[k]) ==> Anchored(s, k))
  {
    if Linked(s.slots[k]) then ChainFrom(s.cells, HeadOf(s.start, s.slots[k])) else []
  }

  // Every chain hangs on its slot, and the chains partition the area: a cell is on
  // the chain of its owner and on no other.
  ghost predicate Inv(s: State) {
    && Sized(s)
    && (forall k :: 0 <= k < |s.slots| && Linked(s.slots[k]) ==> Anchored(s, k))
    && (forall i :: 0 <= i < |s.cells| ==> s.own[i] < |s.slots| && Linked(s.slots[s.own[i]]))
    && (forall i, k :: 0 <= i < |s.cells| && 0 <= k < |s.slots| ==> (i in Chain(s, k) <==> s.own[i] == k))
  }

  // ---------- what a slot holds ----------

  ghost function PairsAt(cells: seq<Cell>, chain: seq<nat>): (pairs: seq<Pair>)
    requires forall j :: 0 <= j < |chain| ==> chain[j] < |cells|
    ensures |pairs| == |chain| && forall j :: 0 <= j < |chain| ==> pairs[j] == cells[chain[j]].pair
  {
    seq(|chain|, j requires 0 <= j < |chain| && chain[j] < |cells| => cells[chain[j]].pair)
  }

  // The pairs a walk from the slot meets.
  ghost function Walk(s: State, k: nat): seq<Pair>
    requires Inv(s) && k < |s.slots|
  {
    if s.slots[k] == EMPTY then []
    else if !Linked(s.slots[k]) then [s.slots[k]]
    else
      ChainIncreases(s.cells, HeadOf(s.start, s.slots[k]));
      PairsAt(s.cells, Chain(s, k))
  }

  // ---------- add_entry ----------

  function AppendCell(start: Word, cells: seq<Cell>, last: nat, p: Pair): (cells': seq<Cell>)
    requires last < |cells| && start + LINK_SIZE * |cells| < TWO_64
  {
    cells[last := cells[last].(link := Addr(start, |cells|), next := Some(|cells|))] + [Cell(p, EOL, None)]
  }

  ghost function Add(s: State, k: nat, p: Pair): State
    requires Inv(s) && k < |s.slots| && Room(s.start, |s.cells|)
  {
    var slot, n := s.slots[k], |s.cells|;
    if slot == EMPTY then
      s.(slots := s.slots[k := p])
    else if Linked(slot) then
      ChainIncreases(s.cells, HeadOf(s.start, slot));
      s.(cells := AppendCell(s.start, s.cells, LastFrom(s.cells, HeadOf(s.start, slot)), p), own := s.own + [k])
    else
      State(s.start, s.slots[k := Pair(TSB_LINK_TAG, Addr(s.start, n))],
            AppendCell(s.start, s.cells + [Cell(slot, EOL, None)], n, p), s.own + [k, k])
  }

  // A pair an empty slot can hold: (0, 0) would leave it empty, and the link tag
  // would make it a link.
  predicate Holdable(p: Pair) {
    p != EMPTY && p.tag != TSB_LINK_TAG
  }

  // ---------- how chains change ----------

  lemma {:induction false} AppendAfter(start: Word, cells: seq<Cell>, last: nat, p: Pair, i: nat)
    requires Forward(cells) && i < |cells| && last < |cells| && cells[last].next.None?
    requires start + LINK_SIZE * |cells| < TWO_64
    ensures Forward(AppendCell(start, cells, last, p))
    ensures ChainFrom(AppendCell(start, cells, last, p), i) ==
      ChainFrom(cells, i) + if LastFrom(cells, i) == last then [|cells|] else []
    decreases |cells| - i
  {
    var cells' := AppendCell(start, cells, last, p);
    if i == last {
      assert ChainFrom(cells', |cells|) == [|cells|];
    } else if cells[i].next.Some? {
      AppendAfter(start, cells, last, p, cells[i].next.value);
      assert cells'[i] == cells[i];
    }
  }

  lemma {:induction false} AppendLoose(cells: seq<Cell>, c: Cell, i: nat)
    requires Forward(cells) && i < |cells| && c.next.None?
    ensures Forward(cells + [c]) && ChainFrom(cells + [c], i) == ChainFrom(cells, i)
      && LastFrom(cells + [c], i) == LastFrom(cells, i)
    decreases |cells| - i
  {
    if cells[i].next.Some? {
      AppendLoose(cells, c, cells[i].next.value);
    }
  }

  lemma AppendAgrees(start: Word, cells: seq<Cell>, last: nat, p: Pair)
    requires Forward(cells) && last < |cells| && cells[last].next.None?
    requires start + LINK_SIZE * (|cells| + 1) < TWO_64 && LinksAgree(start, cells)
    ensures Forward(AppendCell(start, cells, last, p)) && LinksAgree(start, AppendCell(start, cells, last, p))
  {
  }

  lemma LastOwner(s: State, k: nat)
    requires Inv(s) && k < |s.slots| && Linked(s.slots[k])
    ensures var h := HeadOf(s.start, s.slots[k]);
      0 <= h < |s.cells| && LastFrom(s.cells, h) < |s.cells| && s.own[LastFrom(s.cells, h)] == k
  {
    var h := HeadOf(s.start, s.slots[k]);
    assert Anchored(s, k);
    ChainIncreases(s.cells, h);
    var c := Chain(s, k);
    assert c[|c| - 1] in c;
  }

  // The end of a chain is on no other chain.
  lemma LastIsOwn(s: State, k: nat, k': nat)
    requires Inv(s) && k < |s.slots| && k' < |s.slots| && Linked(s.slots[k]) && Linked(s.slots[k'])
    requires Anchored(s, k) && Anchored(s, k')
    requires LastFrom(s.cells, HeadOf(s.start, s.slots[k])) == LastFrom(s.cells, HeadOf(s.start, s.slots[k']))
    ensures k == k'
  {
    LastOwner(s, k);
    LastOwner(s, k');
  }

  // ---------- add_entry on an empty slot ----------

  lemma FillKeeps(s: State, k: nat, p: Pair)
    requires Inv(s) && k < |s.slots| && Room(s.start, |s.cells|) && s.slots[k] == EMPTY && p.tag != TSB_LINK_TAG
    ensures Inv(Add(s, k, p))
    ensures forall k' :: 0 <= k' < |s.slots| && k' != k ==> Walk(Add(s, k, p), k') == Walk(s, k')
    ensures Walk(Add(s, k, p), k) == if p == EMPTY then [] else [p]
  {
    var s' := Add(s, k, p);
    assert !Linked(s.slots[k]) && !Linked(s'.slots[k]);
    forall k' | 0 <= k' < |s.slots| && Linked(s'.slots[k'])
      ensures Anchored(s', k') && Chain(s', k') == Chain(s, k')
    {
      assert Anchored(s, k');
    }
  }

  // A pair with the link tag in an empty slot poses as a link to cells that are not
  // the slot's.
  lemma FalseLink(s: State, k: nat, p: Pair)
    requires Inv(s) && k < |s.slots| && Room(s.start, |s.cells|) && s.slots[k] == EMPTY && p.tag == TSB_LINK_TAG
    ensures !Inv(Add(s, k, p))
  {
    var s' := Add(s, k, p);
    if Anchored(s', k) {
      var h := HeadOf(s'.start, s'.slots[k]);
      assert s.own[h] != k by {
        assert Linked(s.slots[s.own[h]]);
      }
      assert Chain(s', k)[0] == h && h in Chain(s', k);
    }
  }

  // ---------- add_entry on a linked slot ----------

  // Cells that were there keep their pairs.
  lemma AppendPairs(start: Word, cells: seq<Cell>, last: nat, p: Pair)
    requires last < |cells| && start + LINK_SIZE * |cells| < TWO_64
    ensures var cells' := AppendCell(start, cells, last, p);
      |cells'| == |cells| + 1 && cells'[|cells|].pair == p && forall i :: 0 <= i < |cells| ==>
        cells'[i].pair == cells[i].pair
  {
  }

  // Slot k' after a pair was appended to the chain of slot k.
  lemma GrowAt(s: State, k: nat, p: Pair, k': nat)
    requires Inv(s) && k < |s.slots| && Room(s.start, |s.cells|) && Linked(s.slots[k])
    requires k' < |s.slots| && Linked(s.slots[k'])
    ensures Sized(Add(s, k, p)) && Anchored(Add(s, k, p), k')
    ensures Chain(Add(s, k, p), k') == Chain(s, k') + if k' == k then [|s.cells|] else []
  {
    var h, h' := HeadOf(s.start, s.slots[k]), HeadOf(s.start, s.slots[k']);
    assert Anchored(s, k) && Anchored(s, k');
    ChainIncreases(s.cells, h);
    AppendAgrees(s.start, s.cells, LastFrom(s.cells, h), p);
    AppendAfter(s.start, s.cells, LastFrom(s.cells, h), p, h');
    if LastFrom(s.cells, h') == LastFrom(s.cells, h) {
      LastIsOwn(s, k, k');
    }
  }

  lemma GrowInv(s: State, k: nat, p: Pair)
    requires Inv(s) && k < |s.slots| && Room(s.start, |s.cells|) && Linked(s.slots[k])
    ensures Inv(Add(s, k, p))
  {
    hide ChainFrom;
    hide LastFrom;
    hide AppendCell;
    var s' := Add(s, k, p);
    GrowAt(s, k, p, k);
    forall k' | 0 <= k' < |s.slots| && Linked(s.slots[k'])
      ensures Anchored(s', k') && Chain(s', k') == Chain(s, k') + if k' == k then [|s.cells|] else []
    {
      GrowAt(s, k, p, k');
    }
    forall i, k' | 0 <= i < |s'.cells| && 0 <= k' < |s.slots|
      ensures i in Chain(s', k') <==> s'.own[i] == k'
    {
      GrowMember(s, k, p, i, k');
    }
  }

  lemma GrowMember(s: State, k: nat, p: Pair, i: nat, k': nat)
    requires Inv(s) && k < |s.slots| && Room(s.start, |s.cells|) && Linked(s.slots[k])
    requires i <= |s.cells| && k' < |s.slots|
    ensures Sized(Add(s, k, p)) && (Linked(s.slots[k']) ==> Anchored(Add(s, k, p), k'))
    ensures i in Chain(Add(s, k, p), k') <==> Add(s, k, p).own[i] == k'
  {
    hide ChainFrom;
    hide LastFrom;
    hide AppendCell;
    GrowAt(s, k, p, k);
    if Linked(s.slots[k']) {
      GrowAt(s, k, p, k');
      ChainIncreases(s.cells, HeadOf(s.start, s.slots[k']));
    }
  }

  lemma GrowWalk(s: State, k: nat, p: Pair, k': nat)
    requires Inv(s) && k < |s.slots| && Room(s.start, |s.cells|) && Linked(s.slots[k]) && k' < |s.slots|
    ensures Inv(Add(s, k, p))
    ensures Walk(Add(s, k, p), k') == Walk(s, k') + if k' == k then [p] else []
  {
    hide ChainFrom;
    hide LastFrom;
    hide AppendCell;
    var s' := Add(s, k, p);
    GrowInv(s, k, p);
    if Linked(s.slots[k']) {
      GrowAt(s, k, p, k');
      var h := HeadOf(s.start, s.slots[k]);
      assert Anchored(s, k);
      ChainIncreases(s.cells, h);
      ChainIncreases(s.cells, HeadOf(s.start, s.slots[k']));
      AppendPairs(s.start, s.cells, LastFrom(s.cells, h), p);
      assert Walk(s', k') == PairsAt(s'.cells, Chain(s', k'));
    }
  }

  // ---------- add_entry on a slot that holds one pair ----------

  // Slot k' after the pair of slot k moved to a chain of its own.
  lemma SpillAt(s: State, k: nat, p: Pair, k': nat)
    requires Inv(s) && k < |s.slots| && Room(s.start, |s.cells|) && Holdable(s.slots[k])
    requires k' < |s.slots| && (k' == k || Linked(s.slots[k']))
    ensures Sized(Add(s, k, p)) && Linked(Add(s, k, p).slots[k']) && Anchored(Add(s, k, p), k')
    ensures Chain(Add(s, k, p), k') == if k' == k then [|s.cells|, |s.cells| + 1] else Chain(s, k')
  {
    var n, s' := |s.cells|, Add(s, k, p);
    var c := Cell(s.slots[k], EOL, None);
    AppendAgrees(s.start, s.cells + [c], n, p);
    if k' == k {
      assert ChainFrom(s'.cells, n + 1) == [n + 1];
    } else {
      var h' := HeadOf(s.start, s.slots[k']);
      assert Anchored(s, k');
      ChainIncreases(s.cells, h');
      AppendLoose(s.cells, c, h');
      AppendAfter(s.start, s.cells + [c], n, p, h');
    }
  }

  lemma SpillInv(s: State, k: nat, p: Pair)
    requires Inv(s) && k < |s.slots| && Room(s.start, |s.cells|) && Holdable(s.slots[k])
    ensures Inv(Add(s, k, p))
  {
    hide ChainFrom;
    hide LastFrom;
    hide AppendCell;
    var s' := Add(s, k, p);
    SpillAt(s, k, p, k);
    forall k' | 0 <= k' < |s.slots| && Linked(s'.slots[k'])
      ensures Anchored(s', k')
    {
      SpillAt(s, k, p, k');
    }
    forall i, k' | 0 <= i < |s'.cells| && 0 <= k' < |s.slots|
      ensures i in Chain(s', k') <==> s'.own[i] == k'
    {
      SpillMember(s, k, p, i, k');
    }
  }

  lemma SpillMember(s: State, k: nat, p: Pair, i: nat, k': nat)
    requires Inv(s) && k < |s.slots| && Room(s.start, |s.cells|) && Holdable(s.slots[k])
    requires i <= |s.cells| + 1 && k' < |s.slots|
    ensures Sized(Add(s, k, p)) && (Linked(Add(s, k, p).slots[k']) ==> Anchored(Add(s, k, p), k'))
    ensures i in Chain(Add(s, k, p), k') <==> Add(s, k, p).own[i] == k'
  {
    hide ChainFrom;
    hide LastFrom;
    hide AppendCell;
    SpillAt(s, k, p, k);
    if k' != k && Linked(s.slots[k']) {
      SpillAt(s, k, p, k');
      ChainIncreases(s.cells, HeadOf(s.start, s.slots[k']));
    }
  }

  lemma SpillWalk(s: State, k: nat, p: Pair, k': nat)
    requires Inv(s) && k < |s.slots| && Room(s.start, |s.cells|) && Holdable(s.slots[k]) && k' < |s.slots|
    ensures Inv(Add(s, k, p))
    ensures Walk(Add(s, k, p), k') == Walk(s, k') + if k' == k then [p] else []
  {
    hide ChainFrom;
    hide LastFrom;
    hide AppendCell;
    var s', n := Add(s, k, p), |s.cells|;
    SpillInv(s, k, p);
    AppendPairs(s.start, s.cells + [Cell(s.slots[k], EOL, None)], n, p);
    if k' == k {
      SpillAt(s, k, p, k);
      assert s'.cells[n].pair == s.slots[k] && s'.cells[n + 1].pair == p;
      assert Walk(s', k) == PairsAt(s'.cells, [n, n + 1]);
    } else if Linked(s.slots[k']) {
      SpillAt(s, k, p, k');
      ChainIncreases(s.cells, HeadOf(s.start, s.slots[k']));
      assert Walk(s', k') == PairsAt(s'.cells, Chain(s', k'));
    }
  }

  // ---------- the effect of one add_entry ----------

  // A slot that holds a pair takes any pair in, an empty one takes in a holdable
  // one; every other slot keeps what it held.
  lemma AddWalks(s: State, k: nat, p: Pair, k': nat)
    requires Inv(s) && k < |s.slots| && Room(s.start, |s.cells|) && k' < |s.slots|
    requires s.slots[k] == EMPTY ==> Holdable(p)
    ensures Inv(Add(s, k, p))
    ensures Walk(Add(s, k, p), k') == Walk(s, k') + if k' == k then [p] else []
  {
    if s.slots[k] == EMPTY {
      FillKeeps(s, k, p);
    } else if Linked(s.slots[k]) {
      GrowWalk(s, k, p, k');
    } else {
      SpillWalk(s, k, p, k');
    }
  }

  lemma EmptyWalk(s: State, k: nat)
    requires Inv(s) && k < |s.slots|
    ensures Walk(s, k) == [] <==> s.slots[k] == EMPTY
  {
    if Linked(s.slots[k]) {
      assert Anchored(s, k);
      ChainIncreases(s.cells, HeadOf(s.start, s.slots[k]));
    }
  }

  // Exactly when add_entry does what it is for: unless the first pair at a slot is
  // (0, 0) or carries the link tag.
  lemma AddCorrectIff(s: State, k: nat, p: Pair)
    requires Inv(s) && k < |s.slots| && Room(s.start, |s.cells|)
    ensures (Inv(Add(s, k, p)) && Walk(Add(s, k, p), k) == Walk(s, k) + [p]) <==> (s.slots[k] == EMPTY ==> Holdable(p))
  {
    EmptyWalk(s, k);
    if s.slots[k] == EMPTY ==> Holdable(p) {
      AddWalks(s, k, p, k);
    } else if p == EMPTY {
      FillKeeps(s, k, p);
    } else {
      FalseLink(s, k, p);
    }
  }

  // ---------- whole runs ----------

  datatype Op = Op(slot: nat, pair: Pair)

  ghost function Blank(start: Word, n: nat): State {
    State(start, seq(n, _ => EMPTY), [], [])
  }

  lemma BlankInv(start: Word, n: nat)
    ensures Inv(Blank(start, n)) && forall k :: 0 <= k < n ==> Walk(Blank(start, n), k) == []
  {
  }

  // What was added at a slot, in order.
  function Added(ops: seq<Op>, k: nat): seq<Pair> {
    if ops == [] then []
    else
      var o := ops[|ops| - 1];
      Added(ops[..|ops| - 1], k) + if o.slot == k then [o.pair] else []
  }

  // The first pair at every slot can be held.
  ghost predicate FirstsHoldable(ops: seq<Op>) {
    forall i :: 0 <= i < |ops| && Added(ops[..i], ops[i].slot) == [] ==> Holdable(ops[i].pair)
  }

  // Enough room for two more entries at every add.
  ghost predicate Fits(start: Word, n: nat, ops: seq<Op>) {
    Room(start, 2 * |ops|) && forall i :: 0 <= i < |ops| ==> ops[i].slot < n
  }

  // The state after a run of adds; none once an add has broken the area.
  ghost function RunOf(start: Word, n: nat, ops: seq<Op>): (r: Option<State>)
    requires Fits(start, n, ops)
    ensures r.Some? ==> Inv(r.value) && r.value.start == start && |r.value.slots| == n && |r.value.cells| <= 2 * |ops|
  {
    if ops == [] then
      BlankInv(start, n);
      Some(Blank(start, n))
    else
      var o, before := ops[|ops| - 1], RunOf(start, n, ops[..|ops| - 1]);
      if before.None? then None
      else if Inv(Add(before.value, o.slot, o.pair)) then Some(Add(before.value, o.slot, o.pair)) else None
  }

  lemma FirstsOfInit(ops: seq<Op>)
    requires ops != []
    ensures var m := |ops| - 1;
      FirstsHoldable(ops) <==>
        FirstsHoldable(ops[..m]) && (Added(ops[..m], ops[m].slot) == [] ==> Holdable(ops[m].pair))
  {
    var m := |ops| - 1;
    forall i | 0 <= i < m
      ensures ops[..m][..i] == ops[..i]
    {
    }
  }

  lemma FitsInit(start: Word, n: nat, ops: seq<Op>)
    requires Fits(start, n, ops) && ops != []
    ensures var m := |ops| - 1; Fits(start, n, ops[..m]) && Room(start, 2 * m) && ops[m].slot < n
  {
  }

  // After any run of adds over any number of tables sharing the area, a walk from a
  // slot meets exactly the pairs added there, in order.
  lemma {:induction false} RunWalks(start: Word, n: nat, ops: seq<Op>, k: nat)
    requires Fits(start, n, ops) && FirstsHoldable(ops) && k < n
    ensures RunOf(start, n, ops).Some? && Walk(RunOf(start, n, ops).value, k) == Added(ops, k)
  {
    hide Walk;
    hide Inv;
    hide Add;
    if ops == [] {
      BlankInv(start, n);
    } else {
      var m := |ops| - 1;
      FirstsOfInit(ops);
      FitsInit(start, n, ops);
      RunWalks(start, n, ops[..m], k);
      RunWalks(start, n, ops[..m], ops[m].slot);
      var s := RunOf(start, n, ops[..m]).value;
      EmptyWalk(s, ops[m].slot);
      AddWalks(s, ops[m].slot, ops[m].pair, k);
    }
  }

  // Whatever is added, a walk meets no more pairs than were added.
  lemma AddShort(s: State, k: nat, p: Pair, k': nat)
    requires Inv(s) && k < |s.slots| && Room(s.start, |s.cells|) && k' < |s.slots| && Inv(Add(s, k, p))
    ensures |Walk(Add(s, k, p), k')| <= |Walk(s, k')| + if k' == k then 1 else 0
    ensures s.slots[k] == EMPTY && !Holdable(p) ==> Walk(Add(s, k, p), k) == []
  {
    if s.slots[k] == EMPTY && p.tag == TSB_LINK_TAG {
      FalseLink(s, k, p);
      assert false;
    } else if s.slots[k] == EMPTY {
      EmptyWalk(s, k);
      FillKeeps(s, k, p);
    } else {
      AddWalks(s, k, p, k');
    }
  }

  lemma {:induction false} RunShort(start: Word, n: nat, ops: seq<Op>, k: nat)
    requires Fits(start, n, ops) && RunOf(start, n, ops).Some? && k < n
    ensures |Walk(RunOf(start, n, ops).value, k)| <= |Added(ops, k)|
  {
    hide Walk;
    hide Inv;
    hide Add;
    if ops == [] {
      BlankInv(start, n);
    } else {
      var m := |ops| - 1;
      FitsInit(start, n, ops);
      RunShort(start, n, ops[..m], k);
      AddShort(RunOf(start, n, ops[..m]).value, ops[m].slot, ops[m].pair, k);
    }
  }

  // A run with a first pair no slot can hold breaks the area or loses a pair.
  lemma {:induction false} RunLoses(start: Word, n: nat, ops: seq<Op>) returns (k: nat)
    requires Fits(start, n, ops) && RunOf(start, n, ops).Some? && !FirstsHoldable(ops)
    ensures k < n && |Walk(RunOf(start, n, ops).value, k)| < |Added(ops, k)|
  {
    hide Walk;
    hide Inv;
    hide Add;
    var m := |ops| - 1;
    FirstsOfInit(ops);
    FitsInit(start, n, ops);
    var s := RunOf(start, n, ops[..m]).value;
    if FirstsHoldable(ops[..m]) {
      k := ops[m].slot;
      RunWalks(start, n, ops[..m], k);
      EmptyWalk(s, k);
    } else {
      k := RunLoses(start, n, ops[..m]);
    }
    AddShort(s, ops[m].slot, ops[m].pair, k);
  }

  // Exactly which runs build what they are asked for, step by step: every walk meets
  // what was added, and the chains partition the area all along.  A first pair that
  // reads as a link to a later entry breaks the chains even where walks come out right.
  lemma {:induction false} RunCorrectIff(start: Word, n: nat, ops: seq<Op>)
    requires Fits(start, n, ops)
    ensures (RunOf(start, n, ops).Some? && forall k :: 0 <= k < n ==>
      Walk(RunOf(start, n, ops).value, k) == Added(ops, k))
      <==> FirstsHoldable(ops)
  {
    if FirstsHoldable(ops) {
      forall k | 0 <= k < n
        ensures RunOf(start, n, ops).Some? && Walk(RunOf(start, n, ops).value, k) == Added(ops, k)
      {
        RunWalks(start, n, ops, k);
      }
      if ops != [] {
        FitsInit(start, n, ops);
        RunWalks(start, n, ops, 0);
      }
    } else if RunOf(start, n, ops).Some? {
      var k := RunLoses(start, n, ops);
    }
  }

  // Every chain visits entries in increasing order, so is acyclic, ends where the
  // link address is the end-of-list mark, and each entry of the area is on exactly
  // one chain.
  lemma ChainsPartition(s: State, i: nat)
    requires Inv(s) && i < |s.cells|
    ensures exists k :: 0 <= k < |s.slots| && i in Chain(s, k)
    ensures forall k, k' :: 0 <= k < |s.slots| && 0 <= k' < |s.slots| && i in Chain(s, k) && i in Chain(s, k') ==>
      k == k'
    ensures forall k :: 0 <= k < |s.slots| && Linked(s.slots[k]) ==>
      var c := Chain(s, k);
      c != [] && c[|c| - 1] < |s.cells| && s.cells[c[|c| - 1]].link == EOL && forall j, j' :: 0 <= j < j' < |c| ==>
        c[j] < c[j']
  {
    assert i in Chain(s, s.own[i]);
    forall k | 0 <= k < |s.slots| && Linked(s.slots[k])
      ensures var c := Chain(s, k);
        c != [] && 0 <= c[|c| - 1] < |s.cells| && s.cells[c[|c| - 1]].link == EOL && forall j,
          j' :: 0 <= j < j' < |c| ==> c[j] < c[j']
    {
      assert Anchored(s, k);
      ChainIncreases(s.cells, HeadOf(s.start, s.slots[k]));
    }
  }
}
