// The B-tree of b_ary.c on the heap: nodes with a key array and a child array
// that are changed in place.  Every method is proved against BTreeSpec.
module BTreeHeap {
  import opened Common
  import opened Atoms
  import opened AtomSeqs
  import opened BTreeSpec

  // Keys live in data[1..size + 1] and children in child[0..size + 1]; the other
  // slots hold whatever they held before.  The parent pointer is never read and
  // is not modelled.
  class Node {
    var size: nat
    const data: array<Atom?>
    const child: array<Node?>
    ghost var tree: Tree
    ghost var Repr: set<object>

    ghost predicate Laid()
      reads this
    {
      data.Length == MAX + 1 && child.Length == MAX + 2 && size <= MAX
    }

    // malloc: nothing is initialised.
    constructor Malloc()
      ensures fresh(data) && fresh(child) && size == 0 && Laid()
    {
      size := 0;
      data := new Atom?[MAX + 1];
      child := new Node?[MAX + 2];
      tree := Nil;
      Repr := {};
    }

    // b_create: an empty leaf.
    constructor Create()
      ensures fresh(Repr) && Valid() && tree == Tree.Node([], [Nil])
      ensures Repr == {this, data, child}
      ensures forall i :: 0 <= i <= MAX ==> child[i] == null
    {
      size := 0;
      data := new Atom?[MAX + 1];
      child := new Node?[MAX + 2];
      tree := Tree.Node([], [Nil]);
      Repr := {this, data, child};
      new;
      for i := 0 to MAX + 1
        invariant forall j :: 0 <= j < i ==> child[j] == null
        modifies child
      {
        child[i] := null;
      }
    }

    // The tree represented by this node is `tree`, on exactly the objects in Repr.
    ghost predicate Valid()
      reads this, Repr
      ensures Valid() ==> this in Repr && data in Repr && child in Repr
      decreases Repr, 0
    {
      && {this, data, child} <= Repr
      && Laid()
      && tree.Node? && |tree.keys| == size && |tree.kids| == size + 1
      && Keys() == tree.keys
      && KidsValid(child[..size + 1], tree.kids, Repr - {this, data, child})
    }

    ghost function Keys(): seq<Atom?>
      requires Laid()
      reads this, data
    {
      data[1..size + 1]
    }
  }

  // The objects of one node.
  ghost function Cells(n: Node?): set<object> {
    if n == null then {} else {n, n.data, n.child}
  }

  ghost function TreeOf(n: Node?): Tree
    reads n
  {
    if n == null then Nil else n.tree
  }

  ghost function ReprOf(n: Node?): set<object>
    reads n
  {
    if n == null then {} else n.Repr
  }

  // Sibling subtrees: each represents its tree, and no two share an object.
  ghost predicate KidsValid(kids: seq<Node?>, trees: seq<Tree>, R: set<object>)
    reads R
    decreases R, 1
  {
    && |kids| == |trees|
    && (forall i :: 0 <= i < |kids| && kids[i] != null ==> kids[i] in R && kids[i].Repr <= R && kids[i].Valid())
    && (forall i :: 0 <= i < |kids| ==> if kids[i] == null then trees[i] == Nil else trees[i] == kids[i].tree)
    && (forall i, j :: 0 <= i < j < |kids| && kids[i] != null && kids[j] != null ==> kids[i].Repr !! kids[j].Repr)
  }

  // b_copy: entries pLo..pHi of p move to qLo..qHi of q, which may be the same node.
  method Copy(p: Node, pLo: int, pHi: int, q: Node, qLo: int, qHi: int)
    requires p.Laid() && q.Laid()
    requires pHi - pLo == qHi - qLo && qLo <= qHi ==> 0 <= pLo && pHi <= MAX && 0 <= qLo && qHi <= MAX
    requires p == q || (p.data != q.data && p.child != q.child)
    modifies q.data, q.child
    ensures pHi - pLo != qHi - qLo || qHi < qLo ==>
      q.data[..] == old(q.data[..]) && q.child[..] == old(q.child[..])
    ensures pHi - pLo == qHi - qLo && qLo <= qHi ==>
      && (forall i :: 0 <= i <= MAX ==>
            q.data[i] == if qLo <= i <= qHi then old(p.data[i - qLo + pLo]) else old(q.data[i]))
      && (forall i :: 0 <= i <= MAX + 1 ==>
            q.child[i] == if qLo <= i <= qHi then old(p.child[i - qLo + pLo]) else old(q.child[i]))
  {
    if pHi - pLo == qHi - qLo && qLo <= qHi {
      if qLo < pLo {
        var i := qLo;
        while i <= qHi
          invariant qLo <= i <= qHi + 1
          invariant forall j :: 0 <= j <= MAX ==>
            q.data[j] == if qLo <= j < i then old(p.data[j - qLo + pLo]) else old(q.data[j])
          invariant forall j :: 0 <= j <= MAX + 1 ==>
            q.child[j] == if qLo <= j < i then old(p.child[j - qLo + pLo]) else old(q.child[j])
        {
          q.data[i] := p.data[i - qLo + pLo];
          q.child[i] := p.child[i - qLo + pLo];
          i := i + 1;
        }
      } else {
        var i := qHi;
        while i >= qLo
          invariant qLo - 1 <= i <= qHi
          invariant forall j :: 0 <= j <= MAX ==>
            q.data[j] == if i < j <= qHi then old(p.data[j - qLo + pLo]) else old(q.data[j])
          invariant forall j :: 0 <= j <= MAX + 1 ==>
            q.child[j] == if i < j <= qHi then old(p.child[j - qLo + pLo]) else old(q.child[j])
        {
          q.data[i] := p.data[i - qHi + pHi];
          q.child[i] := p.child[i - qHi + pHi];
          i := i - 1;
        }
      }
    }
  }

  // b_scanNode: how many of the node's keys are at most `key`, and whether the
  // last of them is `key`.
  method ScanNode(node: Node, key: Key) returns (found: bool, low: nat)
    requires node.Laid() && forall i :: 1 <= i <= node.size ==> node.data[i] != null
    requires forall i, j :: 1 <= i < j <= node.size ==> node.data[i].key < node.data[j].key
    ensures low <= node.size
    ensures forall i :: 1 <= i <= low ==> node.data[i].key <= key
    ensures forall i :: low < i <= node.size ==> key < node.data[i].key
    ensures found <==> 0 < low && node.data[low].key == key
  {
    low := 0;
    var high := node.size;
    while low < high
      invariant 0 <= low <= high <= node.size
      invariant forall i :: 1 <= i <= low ==> node.data[i].key <= key
      invariant forall i :: high < i <= node.size ==> key < node.data[i].key
      decreases high - low
    {
      var middle := (low + high + 1) / 2;
      if key < node.data[middle].key {
        high := middle - 1;
      } else {
        low := middle;
      }
    }
    found := 0 < low && node.data[low].key == key;
  }

  // The arrays of a node with their spare slots cut off.
  ghost predicate Holds(node: Node, ks: seq<Atom?>, cs: seq<Node?>)
    reads node, node.data, node.child
  {
    node.Laid() && node.size == |ks| && |cs| == |ks| + 1 && node.Keys() == ks && node.child[..node.size + 1] == cs
  }

  // The same, slot by slot.
  ghost predicate Slots(node: Node, ks: seq<Atom?>, cs: seq<Node?>)
    reads node, node.data, node.child
  {
    && node.Laid() && |ks| <= MAX && |cs| == |ks| + 1
    && (forall i :: 0 <= i < |ks| ==> node.data[i + 1] == ks[i])
    && (forall i :: 0 <= i < |cs| ==> node.child[i] == cs[i])
  }

  lemma SlotsOf(node: Node, ks: seq<Atom?>, cs: seq<Node?>)
    requires Holds(node, ks, cs)
    ensures Slots(node, ks, cs)
  {
    forall i | 0 <= i < |ks|
      ensures node.data[i + 1] == ks[i]
    {
      assert node.Keys()[i] == node.data[i + 1];
    }
    forall i | 0 <= i < |cs|
      ensures node.child[i] == cs[i]
    {
      assert node.child[..node.size + 1][i] == node.child[i];
    }
  }

  lemma HoldsSlots(node: Node, ks: seq<Atom?>, cs: seq<Node?>)
    requires node.size == |ks| && Slots(node, ks, cs)
    ensures Holds(node, ks, cs)
  {
    assert node.Keys() == ks;
    assert node.child[..node.size + 1] == cs;
  }

  // A node of two keys, cell by cell.
  lemma HoldsTwo(node: Node, ks: seq<Atom?>, cs: seq<Node?>)
    requires node.Laid() && node.size == |ks| == ORDER && |cs| == ORDER + 1
    requires node.data[1] == ks[0] && node.data[2] == ks[1]
    requires node.child[0] == cs[0] && node.child[1] == cs[1] && node.child[2] == cs[2]
    ensures Holds(node, ks, cs)
  {
    HoldsSlots(node, ks, cs);
  }

  // b_addData: `atom` and the child `rp` right of it go behind child `index`.  A
  // full node keeps its first ORDER keys, hands the middle one up and moves the
  // rest to a new node.
  method AddData(atom: Atom, index: nat, node: Node, rp: Node?, ghost ks: seq<Atom?>, ghost cs: seq<Node?>)
    returns (right: Node?, promoted: Atom?)
    requires Holds(node, ks, cs) && index <= |ks|
    modifies node`size, node.data, node.child
    ensures |ks| < MAX ==>
      right == null && Holds(node, InsertAt(ks, index, atom), InsertAt(cs, index + 1, rp))
    ensures |ks| == MAX ==>
      && right != null && fresh(right) && fresh(right.data) && fresh(right.child)
      && Halved(node, promoted, right, InsertAt(ks, index, atom), InsertAt(cs, index + 1, rp))
  {
    promoted := null;
    SlotsOf(node, ks, cs);
    if node.size < MAX {
      if index < node.size {
        Copy(node, index + 1, node.size, node, index + 2, node.size + 1);
      }
      node.size := node.size + 1;
      node.data[index + 1] := atom;
      node.child[index + 1] := rp;
      HoldsSlots(node, InsertAt(ks, index, atom), InsertAt(cs, index + 1, rp));
      right := null;
    } else {
      right, promoted := SplitNode(atom, index, node, rp, ks, cs);
    }
  }

  // Five keys and six children, cut in two with the middle key between them.
  ghost predicate Halved(left: Node, mid: Atom?, right: Node, ks: seq<Atom?>, cs: seq<Node?>)
    requires |ks| == MAX + 1 && |cs| == MAX + 2
    reads left, left.data, left.child, right, right.data, right.child
  {
    && mid == ks[ORDER]
    && Holds(left, ks[..ORDER], cs[..ORDER + 1])
    && Holds(right, ks[ORDER + 1..], cs[ORDER + 1..])
  }

  // The arm of b_addData for a full node.
  method SplitNode(atom: Atom, index: nat, node: Node, rp: Node?, ghost ks: seq<Atom?>, ghost cs: seq<Node?>)
    returns (right: Node, promoted: Atom?)
    requires Holds(node, ks, cs) && |ks| == MAX && index <= MAX
    modifies node`size, node.data, node.child
    ensures fresh(right) && fresh(right.data) && fresh(right.child)
    ensures Halved(node, promoted, right, InsertAt(ks, index, atom), InsertAt(cs, index + 1, rp))
  {
    SlotsOf(node, ks, cs);
    right := new Node.Malloc();
    right.size := ORDER;
    node.size := ORDER;
    if index <= ORDER {
      promoted := SplitLow(atom, index, node, rp, right, ks, cs);
    } else {
      promoted := SplitHigh(atom, index, node, rp, right, ks, cs);
    }
  }

  // The new key goes left or is itself the middle one.
  method SplitLow(atom: Atom, index: nat, node: Node, rp: Node?, right: Node, ghost ks: seq<Atom?>,
          ghost cs: seq<Node?>)
    returns (promoted: Atom?)
    requires node != right && node.data != right.data && node.child != right.child
    requires node.size == right.size == ORDER && Slots(node, ks, cs) && |ks| == MAX && right.Laid() && index <= ORDER
    modifies node.data, node.child, right.data, right.child
    ensures Halved(node, promoted, right, InsertAt(ks, index, atom), InsertAt(cs, index + 1, rp))
  {
    ghost var ks', cs' := InsertAt(ks, index, atom), InsertAt(cs, index + 1, rp);
    assert ks'[3] == ks[2] && ks'[4] == ks[3] && cs'[4] == cs[3] && cs'[5] == cs[4];
    Copy(node, ORDER + 1, MAX, right, 1, ORDER);
    if index == ORDER {
      promoted := atom;
      right.child[0] := rp;
    } else {
      promoted := node.data[ORDER];
      right.child[0] := node.child[ORDER];
      Copy(node, index + 1, ORDER - 1, node, index + 2, ORDER);
      node.data[index + 1] := atom;
      node.child[index + 1] := rp;
    }
    assert ks'[ORDER] == if index == ORDER then atom else ks[ORDER - 1];
    assert node.data[1] == ks'[0] && node.data[2] == ks'[1];
    assert node.child[0] == cs'[0] && node.child[1] == cs'[1] && node.child[2] == cs'[2];
    HoldsTwo(node, ks'[..ORDER], cs'[..ORDER + 1]);
    assert right.data[1] == ks'[3] && right.data[2] == ks'[4];
    assert right.child[0] == cs'[3] && right.child[1] == cs'[4] && right.child[2] == cs'[5];
    HoldsTwo(right, ks'[ORDER + 1..], cs'[ORDER + 1..]);
  }

  // The new key goes right.
  method SplitHigh(atom: Atom, index: nat, node: Node, rp: Node?, right: Node, ghost ks: seq<Atom?>,
          ghost cs: seq<Node?>)
    returns (promoted: Atom?)
    requires node != right && node.data != right.data && node.child != right.child
    requires node.size == right.size == ORDER && Slots(node, ks, cs) && |ks| == MAX && right.Laid()
      && ORDER < index <= MAX
    modifies right.data, right.child
    ensures Halved(node, promoted, right, InsertAt(ks, index, atom), InsertAt(cs, index + 1, rp))
  {
    right.child[0] := node.child[ORDER + 1];
    promoted := node.data[ORDER + 1];
    Copy(node, ORDER + 2, index, right, 1, index - ORDER - 1);
    right.data[index - ORDER] := atom;
    right.child[index - ORDER] := rp;
    Copy(node, index + 1, MAX, right, index - ORDER + 1, ORDER);
    ghost var ks', cs' := InsertAt(ks, index, atom), InsertAt(cs, index + 1, rp);
    assert node.data[1] == ks'[0] && node.data[2] == ks'[1];
    assert node.child[0] == cs'[0] && node.child[1] == cs'[1] && node.child[2] == cs'[2];
    HoldsTwo(node, ks'[..ORDER], cs'[..ORDER + 1]);
    assert right.data[1] == ks'[3] && right.data[2] == ks'[4];
    assert right.child[0] == cs'[3] && right.child[1] == cs'[4] && right.child[2] == cs'[5];
    HoldsTwo(right, ks'[ORDER + 1..], cs'[ORDER + 1..]);
  }

  // ---------- recursive insertion ----------

  ghost predicate SearchTree(n: Node)
    reads n
  {
    WellFormed(n.tree) && Sorted(InOrder(n.tree))
  }

  // The node's key cells, whatever its children currently are.
  ghost predicate KeyCells(node: Node, ks: seq<Atom>)
    reads node, node.data
  {
    && node.Laid() && node.size == |ks|
    && forall i :: 1 <= i <= node.size ==> node.data[i] == ks[i - 1]
  }

  lemma {:induction false} ValidKeyCells(node: Node)
    requires node.Valid()
    ensures KeyCells(node, node.tree.keys)
  {
    forall i | 1 <= i <= node.size
      ensures node.data[i] == node.tree.keys[i - 1]
    {
      assert node.Keys()[i - 1] == node.data[i];
    }
  }

  // Scanning a node finds the rank of the key among the node's keys.
  method Scan(node: Node, key: Key, ghost ks: seq<Atom>) returns (found: bool, index: nat)
    requires KeyCells(node, ks) && Sorted(ks)
    ensures index == Rank(ks, key) && (found <==> 0 < index && ks[index - 1].key == key)
    ensures found <==> Has(ks, key)
    ensures 0 < index ==> node.data[index] == ks[index - 1]
  {
    Pairwise(ks);
    found, index := ScanNode(node, key);
    forall i | 0 <= i < index
      ensures ks[i].key <= key
    {
      assert node.data[i + 1] == ks[i];
    }
    assert index < |ks| ==> node.data[index + 1] == ks[index];
    RankUnique(ks, key, index);
    HasIffRank(ks, key);
  }

  // node and the node split off it stand for the outcome of an insertion.
  ghost predicate Yields(node: Node, rp: Node?, promoted: Atom?, o: Outcome)
    reads node, node.Repr, rp, ReprOf(rp)
  {
    match o
    case Fit(t) =>
      rp == null && node.Valid() && node.tree == t
    case Split(l, m, r) =>
      && rp != null && promoted == m
      && node.Valid() && node.tree == l && rp.Valid() && rp.tree == r
      && node.Repr !! rp.Repr
  }

  // What the last three of six children own.
  ghost function Owned(kids: seq<Node?>): set<object>
    requires |kids| == MAX + 2
    reads kids[3], kids[4], kids[5]
  {
    ReprOf(kids[3]) + ReprOf(kids[4]) + ReprOf(kids[5])
  }

  lemma {:induction false} KidsBehind(kids: seq<Node?>, trees: seq<Tree>, R: set<object>)
    requires KidsValid(kids, trees, R) && |kids| == MAX + 2
    ensures Owned(kids) <= R
    ensures KidsValid(kids[ORDER + 1..], trees[ORDER + 1..], Owned(kids))
  {
    var tail, trees' := kids[ORDER + 1..], trees[ORDER + 1..];
    assert tail == [kids[3], kids[4], kids[5]];
    assert trees' == [trees[3], trees[4], trees[5]];
    assert forall i :: 3 <= i < 6 && kids[i] != null ==> kids[i].Valid();
  }

  lemma {:induction false} KidsAhead(kids: seq<Node?>, trees: seq<Tree>, R: set<object>)
    requires KidsValid(kids, trees, R) && |kids| == MAX + 2
    ensures |trees| == |kids| && KidsValid(kids[..ORDER + 1], trees[..ORDER + 1], R - Owned(kids))
  {
    var S := Owned(kids);
    forall i | 0 <= i < ORDER + 1 && kids[i] != null
      ensures kids[i].Valid() && kids[i].Repr <= R - S
    {
      assert kids[i].Repr !! ReprOf(kids[3]);
      assert kids[i].Repr !! ReprOf(kids[4]);
      assert kids[i].Repr !! ReprOf(kids[5]);
    }
  }

  lemma {:induction false} KidsInsert(kids: seq<Node?>, trees: seq<Tree>, R: set<object>, j: nat, rp: Node?)
    requires KidsValid(kids, trees, R) && j <= |kids|
    requires rp != null ==> rp.Valid() && rp.Repr !! R
    ensures KidsValid(InsertAt(kids, j, rp), InsertAt(trees, j, TreeOf(rp)), R + ReprOf(rp))
  {
    var kids' := InsertAt(kids, j, rp);
    forall i | 0 <= i < |kids'|
      ensures kids'[i] == if i < j then kids[i] else if i == j then rp else kids[i - 1]
    {
    }
  }

  // The children of a node after one of them took the atom.
  method IntoKid(kids: seq<Node?>, ghost trees: seq<Tree>, ghost R: set<object>, index: nat, atom: Atom)
    returns (rp: Node?, promoted: Atom?, ghost R': set<object>)
    requires KidsValid(kids, trees, R) && index < |kids|
    requires kids[index] != null && SearchTree(kids[index])
    modifies kids[index].Repr
    ensures Yields(kids[index], rp, promoted, Ins(trees[index], atom))
    ensures KidsValid(kids, trees[index := kids[index].tree], R')
    ensures ReprOf(rp) !! R' && fresh(R' + ReprOf(rp) - R)
    decreases R, 3
  {
    var c := kids[index];
    ghost var before := c.Repr;
    rp, promoted := RecursiveInsert(c, atom);
    R' := R - before + c.Repr;
    forall i | 0 <= i < |kids| && kids[i] != null && i != index
      ensures kids[i].Valid() && kids[i].Repr <= R' && kids[i].Repr !! c.Repr && kids[i].tree == trees[i]
    {
      assert kids[i].Repr !! before;
    }
  }

  // A node whose arrays are in place takes over children and their objects.
  ghost method Adopt(node: Node, ks: seq<Atom>, cs: seq<Node?>, ts: seq<Tree>, R: set<object>)
    requires Holds(node, ks, cs) && KidsValid(cs, ts, R)
    requires {node, node.data, node.child} !! R
    modifies node`tree, node`Repr
    ensures node.Valid() && node.tree == Tree.Node(ks, ts) && node.Repr == R + {node, node.data, node.child}
  {
    node.tree := Tree.Node(ks, ts);
    node.Repr := R + {node, node.data, node.child};
    assert node.Repr - {node, node.data, node.child} == R;
  }

  ghost method AdoptHalves(node: Node, right: Node, promoted: Atom?, ks: seq<Atom>, cs: seq<Node?>, ts: seq<Tree>,
          R: set<object>)
    requires |ks| == MAX + 1 && |cs| == MAX + 2 && KidsValid(cs, ts, R)
    requires {node, node.data, node.child} !! R
    requires Halved(node, promoted, right, ks, cs)
    requires {right, right.data, right.child} !! R + {node, node.data, node.child}
    modifies node`tree, node`Repr, right`tree, right`Repr
    ensures Yields(node, right, promoted, Halves(ks, ts))
    ensures node.Repr + right.Repr <= R + {node, node.data, node.child} + {right, right.data, right.child}
  {
    hide Node.Valid;
    hide KidsValid;
    KidsBehind(cs, ts, R);
    KidsAhead(cs, ts, R);
    var S := Owned(cs);
    var cs0, cs1, ts0, ts1 := cs[..ORDER + 1], cs[ORDER + 1..], ts[..ORDER + 1], ts[ORDER + 1..];
    Adopt(node, ks[..ORDER], cs0, ts0, R - S);
    assert KidsValid(cs1, ts1, S);
    Adopt(right, ks[ORDER + 1..], cs1, ts1, S);
  }

  // b_addData on a node whose children are in order: the node's tree takes the
  // key and the subtree in.
  method AddOwned(atom: Atom, index: nat, node: Node, rp: Node?,
                  ghost ks: seq<Atom>, ghost kids: seq<Node?>, ghost trees: seq<Tree>, ghost R: set<object>)
    returns (right: Node?, promoted: Atom?)
    requires Holds(node, ks, kids) && KidsValid(kids, trees, R) && index <= |ks|
    requires rp != null ==> rp.Valid() && rp.Repr !! R
    requires {node, node.data, node.child} !! R + ReprOf(rp)
    modifies node, node.data, node.child
    ensures Yields(node, right, promoted, Put(ks, trees, index, atom, old(TreeOf(rp))))
    ensures fresh(Cells(right))
    ensures node.Repr + ReprOf(right) <= R + old(ReprOf(rp)) + Cells(node) + Cells(right)
  {
    ghost var ks', kids', trees' := InsertAt(ks, index, atom), InsertAt(kids, index + 1, rp),
      InsertAt(trees, index + 1, TreeOf(rp));
    ghost var R' := R + ReprOf(rp);
    KidsInsert(kids, trees, R, index + 1, rp);
    right, promoted := AddData(atom, index, node, rp, ks, kids);
    assert KidsValid(kids', trees', R');
    if right == null {
      Adopt(node, ks', kids', trees', R');
    } else {
      AdoptHalves(node, right, promoted, ks', kids', trees', R');
    }
  }

  lemma {:induction false} KidOf(node: Node, index: nat)
    requires node.Valid() && index <= node.size
    ensures var c := node.child[index];
      if c == null then node.tree.kids[index] == Nil else c.Valid() && c.tree == node.tree.kids[index]
  {
    assert node.child[index] == node.child[..node.size + 1][index];
  }

  // b_recursiveInsert.  A null rp says nothing was split off.
  method RecursiveInsert(node: Node, atom: Atom) returns (rp: Node?, promoted: Atom?)
    requires node.Valid() && SearchTree(node)
    modifies node.Repr
    ensures Yields(node, rp, promoted, Ins(old(node.tree), atom))
    ensures fresh(node.Repr + ReprOf(rp) - old(node.Repr))
    decreases node.Repr, 2
  {
    hide KidsValid;
    ghost var t := node.tree;
    ValidKeyCells(node);
    SortedParts(t, 0);
    var found, index := Scan(node, atom.key, t.keys);
    if found {
      rp, promoted := null, null;
    } else {
      KidOf(node, index);
      assert Ins(t, atom) == Absorb(t, index, Ins(t.kids[index], atom));
      if node.child[index] == null {
        rp, promoted := InsertLeaf(node, atom, index);
      } else {
        SortedParts(t, index);
        rp, promoted := InsertBelow(node, atom, index);
      }
    }
  }

  // The arm of b_recursiveInsert for a leaf.
  method InsertLeaf(node: Node, atom: Atom, index: nat) returns (rp: Node?, promoted: Atom?)
    requires node.Valid() && WellFormed(node.tree) && index == Rank(node.tree.keys, atom.key)
    requires node.child[index] == null && node.tree.kids[index] == Nil
    modifies node.Repr
    ensures Yields(node, rp, promoted, Absorb(old(node.tree), index, Ins(Nil, atom)))
    ensures fresh(node.Repr + ReprOf(rp) - old(node.Repr))
  {
    ghost var t := node.tree;
    ghost var kids, R := node.child[..node.size + 1], node.Repr - {node, node.data, node.child};
    assert t.kids[index := Nil] == t.kids;
    rp, promoted := AddOwned(atom, index, node, null, t.keys, kids, t.kids, R);
  }

  // The arm of b_recursiveInsert for an inner node.
  method InsertBelow(node: Node, atom: Atom, index: nat) returns (rp: Node?, promoted: Atom?)
    requires node.Valid() && WellFormed(node.tree) && Sorted(node.tree.keys)
    requires index <= node.size && node.child[index] != null && node.child[index].Valid()
    requires node.child[index].tree == node.tree.kids[index] && SearchTree(node.child[index])
    modifies node.Repr
    ensures Yields(node, rp, promoted, Absorb(old(node.tree), index, Ins(old(node.tree.kids[index]), atom)))
    ensures fresh(node.Repr + ReprOf(rp) - old(node.Repr))
    decreases node.Repr, 1
  {
    ghost var t := node.tree;
    ghost var R := node.Repr - {node, node.data, node.child};
    var kids := node.child[..node.size + 1];
    ValidKeyCells(node);
    ghost var R';
    assert Holds(node, t.keys, kids) && {node, node.data, node.child} !! R;
    rp, promoted, R' := IntoKid(kids, t.kids, R, index, atom);
    assert Holds(node, t.keys, kids) && {node, node.data, node.child} !! R' + ReprOf(rp);
    rp, promoted := AbsorbKid(node, index, rp, promoted, t, kids, t.kids[index := kids[index].tree], R',
      Ins(t.kids[index], atom));
  }

  // When the child was split, the node is scanned again for the promoted key.
  method AbsorbKid(node: Node, index: nat, kidRp: Node?, kidPromoted: Atom?, ghost t: Tree,
                   ghost kids: seq<Node?>, ghost trees: seq<Tree>, ghost R: set<object>, ghost o: Outcome)
    returns (rp: Node?, promoted: Atom?)
    requires t.Node? && |t.kids| == |t.keys| + 1 && index <= |t.keys| && Sorted(t.keys)
    requires Holds(node, t.keys, kids) && KeyCells(node, t.keys) && KidsValid(kids, trees, R)
    requires {node, node.data, node.child} !! R + ReprOf(kidRp) && R !! ReprOf(kidRp)
    requires match o
      case Fit(c) => kidRp == null && trees == t.kids[index := c]
      case Split(l, m, r) =>
        kidRp != null && kidRp.Valid() && kidRp.tree == r && kidPromoted == m && trees == t.kids[index := l]
    modifies node, node.data, node.child
    ensures Yields(node, rp, promoted, Absorb(t, index, o))
    ensures fresh(Cells(rp))
    ensures node.Repr + ReprOf(rp) <= R + old(ReprOf(kidRp)) + Cells(node) + Cells(rp)
  {
    rp, promoted := kidRp, kidPromoted;
    if rp != null {
      var _, again := Scan(node, promoted.key, t.keys);
      rp, promoted := AddOwned(promoted, again, node, rp, t.keys, kids, trees, R);
    } else {
      Adopt(node, t.keys, kids, trees, R);
    }
  }

  // The arm of b_insert that builds a new root above the halves of the old one.
  method GrowRoot(temp: Node, promoted: Atom, rp: Node) returns (root: Node)
    requires temp.Valid() && rp.Valid() && temp.Repr !! rp.Repr
    ensures root.Valid() && root.tree == Tree.Node([promoted], [temp.tree, rp.tree])
    ensures fresh(root.Repr - temp.Repr - rp.Repr)
  {
    root := new Node.Create();
    root.size := 1;
    root.child[0] := temp;
    root.data[1] := promoted;
    root.child[1] := rp;
    ghost var kids, trees, R := [temp, rp], [temp.tree, rp.tree], temp.Repr + rp.Repr;
    assert temp.Valid() && rp.Valid();
    assert KidsValid(kids, trees, R);
    HoldsSlots(root, [promoted], kids);
    Adopt(root, [promoted], kids, trees, R);
  }

  // b_insert on the root pointer.
  method InsertAtRoot(root: Node, atom: Atom) returns (root': Node)
    requires root.Valid() && SearchTree(root)
    modifies root.Repr
    ensures root'.Valid() && fresh(root'.Repr - old(root.Repr))
    ensures root'.tree == BTreeSpec.Insert(old(root.tree), atom)
    ensures old(Ins(root.tree, atom)).Fit? ==> root' == root
  {
    root' := root;
    var rp, promoted := RecursiveInsert(root, atom);
    if rp != null {
      // the root was split: build a new one
      root' := GrowRoot(root, promoted, rp);
    }
  }

  // ---------- the tree itself ----------

  class BTree {
    var root: Node
    ghost var depth: nat             // levels of nodes
    ghost var atoms: map<Key, Atom>  // what is stored

    ghost predicate Valid()
      reads this, root, root.Repr
      ensures Valid() ==> root in root.Repr && this !in root.Repr
    {
      root.Valid() && this !in root.Repr && IsBTree(root.tree, depth) && atoms == MapOf(InOrder(root.tree))
    }

    // b_create
    constructor Create()
      ensures fresh(root.Repr) && Valid() && atoms == map[]
    {
      root := new Node.Create();
      depth := 1;
      atoms := map[];
    }

    // b_insert.  The tree stays a B-tree and the map gains the atom, or nothing
    // happens when the key is present.
    method Insert(atom: Atom)
      requires Valid()
      modifies this, root.Repr
      ensures Valid() && (depth == old(depth) || depth == old(depth) + 1)
      ensures fresh(root.Repr - old(root.Repr))
      ensures atoms == if atom.key in old(atoms) then old(atoms) else old(atoms)[atom.key := atom]
      ensures atom.key in old(atoms) ==> root == old(root) && root.tree == old(root.tree)
    {
      hide Shape;
      hide SortedTo;
      hide MapTo;
      hide InOrder;
      InsertMaps(root.tree, depth, atom);
      ghost var d := if Ins(root.tree, atom).Fit? then depth else depth + 1;
      ghost var m := MapOf(InOrder(BTreeSpec.Insert(root.tree, atom)));
      root := InsertAtRoot(root, atom);
      depth, atoms := d, m;
    }

    // b_Find.  At most one node of each level is visited, so 2 * 3^h - 1 keys
    // are needed to make it visit h + 1 nodes.
    method Find(key: Key) returns (r: Atom?, ghost visited: nat)
      requires Valid()
      ensures if key in atoms then r == atoms[key] else r == null
      ensures 0 < visited <= depth
      ensures atoms != map[] ==> 2 * Pow3(visited - 1) - 1 <= |atoms|
    {
      r, visited := Search(key);
      if atoms != map[] {
        SearchBound(root.tree, depth, visited);
      }
    }

    method Search(key: Key) returns (r: Atom?, ghost visited: nat)
      requires Valid()
      ensures if key in atoms then r == atoms[key] else r == null
      ensures 0 < visited <= depth
    {
      hide KidsValid;
      hide MapOf;
      hide Rank;
      hide Pow3;
      hide SortedTo;
      hide MapTo;
      hide InOrder;
      hide Stored;
      StoredInMap(InOrder(root.tree), key);
      var p: Node := root;
      ghost var level, target := depth, Stored(InOrder(root.tree), key);
      var found, index := Look(p, key);
      visited := 1;
      assert p.Valid() && OnPath(p.tree, level, key, target);
      while !found
        invariant p.Valid() && OnPath(p.tree, level, key, target)
        invariant Looked(p, key, found, index)
        invariant visited + level == depth + 1
        decreases level
      {
        StepDown(p, level, key, target, index);
        if p.child[index] == null {
          return null, visited;
        }
        p := p.child[index];
        level := level - 1;
        found, index := Look(p, key);
        visited := visited + 1;
      }
      r := p.data[index];
    }
  }

  // A subtree of `level` levels where the search for `key` ends in `target`.
  ghost predicate OnPath(t: Tree, level: nat, key: Key, target: Option<Atom>) {
    Shape(t, level, 0) && Sorted(InOrder(t)) && Stored(InOrder(t), key) == target
  }

  lemma NextOnPath(t: Tree, level: nat, key: Key, target: Option<Atom>, index: nat)
    requires t.Node? && OnPath(t, level, key, target) && index <= |t.keys|
    requires Stored(InOrder(t.kids[index]), key) == target
    ensures level > 0 && OnPath(t.kids[index], level - 1, key, target)
  {
    SortedAround(t, index);
    assert Shape(t.kids[index], level - 1, ORDER);
  }

  lemma {:induction false} StepDown(p: Node, level: nat, key: Key, target: Option<Atom>, index: nat)
    requires p.Valid() && OnPath(p.tree, level, key, target)
    requires Looked(p, key, false, index)
    ensures level > 0
    ensures if p.child[index] == null then target == None
            else p.child[index].Valid() && OnPath(p.child[index].tree, level - 1, key, target)
  {
    ChildAt(p, index);
    NextOnPath(p.tree, level, key, target, index);
  }

  // What one scan says about the whole subtree: it ends the search, or leaves
  // one child to search.
  ghost predicate Looked(p: Node, key: Key, found: bool, index: nat)
    requires p.Valid()
    reads p, p.Repr
  {
    && index <= p.size
    && (if found then Stored(InOrder(p.tree), key).Some? && Stored(InOrder(p.tree), key).value == p.data[index]
        else Stored(InOrder(p.tree), key) == Stored(InOrder(p.tree.kids[index]), key))
  }

  lemma {:induction false} ChildAt(p: Node, index: nat)
    requires p.Valid() && index <= p.size
    ensures TreeOf(p.child[index]) == p.tree.kids[index]
    ensures p.child[index] != null ==> p.child[index].Valid()
  {
    assert p.child[index] == p.child[..p.size + 1][index];
  }

  method Look(p: Node, key: Key) returns (found: bool, index: nat)
    requires p.Valid() && Sorted(InOrder(p.tree))
    ensures Looked(p, key, found, index)
  {
    ValidKeyCells(p);
    SearchStep(p.tree, key);
    found, index := Scan(p, key, p.tree.keys);
  }
}
