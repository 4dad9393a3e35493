// Atoms of the simulated memory and the value-level reading of the B-tree that
// b_ary.c builds: what one insertion does to the tree, and why that is right.

module Atoms {
  // `unsigned long long` keys.
  type Key = k: int | 0 <= k < 0x1_0000_0000_0000_0000

  type Byte = b: int | 0 <= b < 256

  const ATOM_DATA_SIZE: nat := 64

  // One 64-byte line.  The key is set before the atom enters the tree and never again.
  class Atom {
    const key: Key
    var size: int
    const data: array<Byte>

    // A cleared line, as write_64b_call allocates it.
    constructor (key: Key)
      ensures this.key == key && size == ATOM_DATA_SIZE
      ensures fresh(data) && data.Length == ATOM_DATA_SIZE + 1
      ensures forall i :: 0 <= i < ATOM_DATA_SIZE ==> data[i] == 0
    {
      this.key := key;
      size := ATOM_DATA_SIZE;
      data := new Byte[ATOM_DATA_SIZE + 1];
      new;
      for i := 0 to ATOM_DATA_SIZE
        invariant forall j :: 0 <= j < i ==> data[j] == 0
        modifies data
      {
        data[i] := 0;
      }
    }
  }
}

// Ascending sequences of atoms, read as maps from keys to atoms.
module AtomSeqs {
  import opened Common
  import opened Atoms

  ghost predicate Sorted(s: seq<Atom>) {
    SortedTo(s, |s|)
  }

  ghost predicate SortedTo(s: seq<Atom>, n: nat)
    requires n <= |s|
  {
    n <= 1 || (s[n - 2].key < s[n - 1].key && SortedTo(s, n - 1))
  }

  ghost predicate Ascending(s: seq<Atom>, n: nat)
    requires n <= |s|
  {
    forall i, j :: 0 <= i < j < n ==> s[i].key < s[j].key
  }

  lemma {:induction false} SortedIffAscending(s: seq<Atom>, n: nat)
    requires n <= |s|
    ensures SortedTo(s, n) <==> Ascending(s, n)
  {
    if n > 1 {
      SortedIffAscending(s, n - 1);
      if SortedTo(s, n) {
        forall i, j | 0 <= i < j < n
          ensures s[i].key < s[j].key
        {
          assert i == n - 2 || j < n - 1 || s[i].key < s[n - 2].key;
        }
      }
    }
  }

  // The pairwise reading of Sorted.
  lemma Pairwise(s: seq<Atom>)
    ensures Sorted(s) <==> Ascending(s, |s|)
  {
    SortedIffAscending(s, |s|);
  }

  predicate Has(s: seq<Atom>, k: Key) {
    exists i :: 0 <= i < |s| && s[i].key == k
  }

  // How many leading atoms have a key that is at most k.
  function Rank(s: seq<Atom>, k: Key): (r: nat)
    ensures r <= |s|
  {
    RankFrom(s, k, 0)
  }

  function RankFrom(s: seq<Atom>, k: Key, i: nat): (r: nat)
    requires i <= |s|
    ensures i <= r <= |s|
    decreases |s| - i
  {
    if i == |s| || k < s[i].key then i else RankFrom(s, k, i + 1)
  }

  lemma {:induction false} RankFromSpec(s: seq<Atom>, k: Key, i: nat)
    requires i <= |s|
    ensures var r := RankFrom(s, k, i);
      (forall j :: i <= j < r ==> s[j].key <= k) && (r < |s| ==> k < s[r].key)
    decreases |s| - i
  {
    if !(i == |s| || k < s[i].key) {
      RankFromSpec(s, k, i + 1);
    }
  }

  lemma RankSpec(s: seq<Atom>, k: Key)
    ensures var r := Rank(s, k);
      (forall j :: 0 <= j < r ==> s[j].key <= k) && (r < |s| ==> k < s[r].key)
  {
    RankFromSpec(s, k, 0);
  }

  function InsertAt<T>(s: seq<T>, i: nat, x: T): (r: seq<T>)
    requires i <= |s|
    ensures |r| == |s| + 1
  {
    s[..i] + [x] + s[i..]
  }

  lemma RankUnique(s: seq<Atom>, k: Key, r: nat)
    requires Sorted(s) && r <= |s|
    requires forall i :: 0 <= i < r ==> s[i].key <= k
    requires r < |s| ==> k < s[r].key
    ensures Rank(s, k) == r
  {
    RankSpec(s, k);
    Pairwise(s);
  }

  lemma HasIffRank(s: seq<Atom>, k: Key)
    requires Sorted(s)
    ensures var r := Rank(s, k); Has(s, k) <==> 0 < r && s[r - 1].key == k
  {
    RankSpec(s, k);
    Pairwise(s);
    var r := Rank(s, k);
    if Has(s, k) {
      var i :| 0 <= i < |s| && s[i].key == k;
      RankUnique(s, k, i + 1);
    }
  }

  lemma RankBetween(s: seq<Atom>, k: Key, r: nat)
    requires Sorted(s) && r <= |s|
    requires r > 0 ==> s[r - 1].key <= k
    requires r < |s| ==> k < s[r].key
    ensures Rank(s, k) == r
  {
    Pairwise(s);
    assert forall j :: 0 <= j < r - 1 ==> s[j].key < s[r - 1].key;
    RankUnique(s, k, r);
  }

  lemma SortedSlice(s: seq<Atom>, lo: nat, hi: nat)
    requires Sorted(s) && lo <= hi <= |s|
    ensures Sorted(s[lo..hi])
  {
    var t := s[lo..hi];
    Pairwise(s);
    Pairwise(t);
    forall i, j | 0 <= i < j < |t|
      ensures t[i].key < t[j].key
    {
      assert s[lo + i].key < s[lo + j].key;
    }
  }

  lemma SortedPieces(b: seq<Atom>, m: seq<Atom>, e: seq<Atom>)
    requires Sorted(b + m + e)
    ensures Sorted(b) && Sorted(m) && Sorted(e)
  {
    var s := b + m + e;
    SortedSlice(s, 0, |b|);
    assert s[0..|b|] == b;
    SortedSlice(s, |b|, |b| + |m|);
    assert s[|b|..|b| + |m|] == m;
    SortedSlice(s, |b| + |m|, |s|);
    assert s[|b| + |m|..|s|] == e;
  }

  lemma BelowLast(s: seq<Atom>, n: nat, k: Key)
    requires Sorted(s) && 0 < n <= |s| && s[n - 1].key < k
    ensures forall i :: 0 <= i < n ==> s[i].key < k
  {
    Pairwise(s);
  }

  // A key that falls strictly between two stretches is ranked inside the middle one.
  lemma RankInside(b: seq<Atom>, m: seq<Atom>, e: seq<Atom>, k: Key)
    requires Sorted(b + m + e)
    requires b != [] ==> b[|b| - 1].key < k
    requires e != [] ==> k < e[0].key
    ensures Rank(b + m + e, k) == |b| + Rank(m, k)
    ensures Has(b + m + e, k) <==> Has(m, k)
  {
    RankPlace(b + m + e, b, m, e, k);
    HasPlace(b + m + e, b, m, e, k);
  }

  lemma RankPlace(s: seq<Atom>, b: seq<Atom>, m: seq<Atom>, e: seq<Atom>, k: Key)
    requires s == b + m + e && Sorted(s)
    requires b != [] ==> b[|b| - 1].key < k
    requires e != [] ==> k < e[0].key
    ensures Rank(s, k) == |b| + Rank(m, k)
  {
    RankSpec(m, k);
    var r := |b| + Rank(m, k);
    if b != [] {
      assert s[|b| - 1] == b[|b| - 1];
      BelowLast(s, |b|, k);
    }
    forall i | 0 <= i < r
      ensures s[i].key <= k
    {
      assert i < |b| || s[i] == m[i - |b|];
    }
    assert r < |b| + |m| ==> s[r] == m[r - |b|];
    assert r == |b| + |m| < |s| ==> s[r] == e[0];
    RankUnique(s, k, r);
  }

  lemma HasPlace(s: seq<Atom>, b: seq<Atom>, m: seq<Atom>, e: seq<Atom>, k: Key)
    requires s == b + m + e && Sorted(s)
    requires b != [] ==> b[|b| - 1].key < k
    requires Rank(s, k) == |b| + Rank(m, k)
    ensures Has(s, k) <==> Has(m, k)
  {
    RankSpec(m, k);
    SortedPieces(b, m, e);
    HasIffRank(s, k);
    HasIffRank(m, k);
    var r := Rank(m, k);
    assert if r > 0 then s[|b| + r - 1] == m[r - 1] else b == [] || s[|b| - 1] == b[|b| - 1];
  }

  lemma InsertAtSorted(s: seq<Atom>, a: Atom)
    requires Sorted(s) && !Has(s, a.key)
    ensures Sorted(InsertAt(s, Rank(s, a.key), a))
  {
    Pairwise(s);
    RankSpec(s, a.key);
    var p := Rank(s, a.key);
    assert forall i :: 0 <= i < p ==> s[i].key < a.key;
    AboveFirst(s, p, a.key);
    SortedBetween(s, p, a, InsertAt(s, p, a));
  }

  lemma SortedBetween(s: seq<Atom>, p: nat, a: Atom, s': seq<Atom>)
    requires Sorted(s) && p <= |s| && s' == InsertAt(s, p, a)
    requires forall i :: 0 <= i < p ==> s[i].key < a.key
    requires forall i :: p <= i < |s| ==> a.key < s[i].key
    ensures Sorted(s')
  {
    Pairwise(s);
    Pairwise(s');
    forall i, j | 0 <= i < j < |s'|
      ensures s'[i].key < s'[j].key
    {
      assert s'[i] == if i < p then s[i] else if i == p then a else s[i - 1];
      assert s'[j] == if j < p then s[j] else if j == p then a else s[j - 1];
    }
  }

  lemma AboveFirst(s: seq<Atom>, n: nat, k: Key)
    requires Sorted(s) && n <= |s| && (n < |s| ==> k < s[n].key)
    ensures forall i :: n <= i < |s| ==> k < s[i].key
  {
    Pairwise(s);
  }

  // The map a sorted sequence stands for.
  function Stored(s: seq<Atom>, k: Key): Option<Atom> {
    var r := Rank(s, k);
    if 0 < r && s[r - 1].key == k then Some(s[r - 1]) else None
  }

  lemma StoredAt(s: seq<Atom>, i: nat)
    requires Sorted(s) && i < |s|
    ensures Stored(s, s[i].key) == Some(s[i])
  {
    RankSpec(s, s[i].key);
    Pairwise(s);
    RankUnique(s, s[i].key, i + 1);
  }

  lemma StoredIffHas(s: seq<Atom>, k: Key)
    requires Sorted(s)
    ensures Stored(s, k).Some? <==> Has(s, k)
    ensures Stored(s, k).Some? ==> Stored(s, k).value in s && Stored(s, k).value.key == k
  {
    HasIffRank(s, k);
  }

  lemma StoredInserted(s: seq<Atom>, a: Atom, k: Key)
    requires Sorted(s) && !Has(s, a.key)
    ensures Stored(InsertAt(s, Rank(s, a.key), a), k) == if k == a.key then Some(a) else Stored(s, k)
  {
    var p := Rank(s, a.key);
    var s' := InsertAt(s, p, a);
    InsertAtSorted(s, a);
    if k == a.key {
      assert s'[p] == a;
      StoredAt(s', p);
    } else {
      StoredElsewhere(s, p, a, s', k);
    }
  }

  lemma StoredElsewhere(s: seq<Atom>, p: nat, a: Atom, s': seq<Atom>, k: Key)
    requires p <= |s| && s' == InsertAt(s, p, a) && Sorted(s) && Sorted(s') && k != a.key
    ensures Stored(s', k) == Stored(s, k)
  {
    if Has(s, k) {
      var i :| 0 <= i < |s| && s[i].key == k;
      var j := if i < p then i else i + 1;
      assert s'[j] == s[i];
      StoredAt(s, i);
      StoredAt(s', j);
    } else {
      HasInserted(s, p, a, k);
      StoredIffHas(s, k);
      StoredIffHas(s', k);
    }
  }

  lemma HasInserted(s: seq<Atom>, p: nat, a: Atom, k: Key)
    requires p <= |s| && k != a.key
    ensures Has(InsertAt(s, p, a), k) ==> Has(s, k)
  {
    var s' := InsertAt(s, p, a);
    if Has(s', k) {
      var i :| 0 <= i < |s'| && s'[i].key == k;
      assert i != p && s'[i] == s[if i < p then i else i - 1];
    }
  }

  // The map of a sequence.
  ghost function MapOf(s: seq<Atom>): map<Key, Atom> {
    MapTo(s, |s|)
  }

  ghost function MapTo(s: seq<Atom>, n: nat): map<Key, Atom>
    requires n <= |s|
  {
    if n == 0 then map[] else MapTo(s, n - 1)[s[n - 1].key := s[n - 1]]
  }

  lemma {:induction false} MapToMembers(s: seq<Atom>, n: nat, k: Key)
    requires n <= |s| && Ascending(s, |s|)
    ensures k in MapTo(s, n) <==> exists i :: 0 <= i < n && s[i].key == k
    ensures forall i :: 0 <= i < n && s[i].key == k ==> MapTo(s, n)[k] == s[i]
  {
    if n > 0 {
      MapToMembers(s, n - 1, k);
    }
  }

  lemma StoredInMap(s: seq<Atom>, k: Key)
    requires Sorted(s)
    ensures Stored(s, k) == if k in MapOf(s) then Some(MapOf(s)[k]) else None
  {
    Pairwise(s);
    MapToMembers(s, |s|, k);
    StoredIffHas(s, k);
    if k in MapOf(s) {
      var i :| 0 <= i < |s| && s[i].key == k;
      StoredAt(s, i);
    }
  }

  lemma {:induction false} MapToSize(s: seq<Atom>, n: nat)
    requires n <= |s| && Ascending(s, |s|)
    ensures |MapTo(s, n)| == n
  {
    if n > 0 {
      MapToSize(s, n - 1);
      MapToMembers(s, n - 1, s[n - 1].key);
    }
  }

  lemma MapOfInserted(s: seq<Atom>, a: Atom)
    requires Sorted(s) && !Has(s, a.key)
    ensures a.key !in MapOf(s)
    ensures MapOf(InsertAt(s, Rank(s, a.key), a)) == MapOf(s)[a.key := a]
  {
    var s' := InsertAt(s, Rank(s, a.key), a);
    InsertAtSorted(s, a);
    StoredIffHas(s, a.key);
    StoredInMap(s, a.key);
    forall k: Key
      ensures k in MapOf(s') <==> k in MapOf(s)[a.key := a]
      ensures k in MapOf(s') ==> MapOf(s')[k] == MapOf(s)[a.key := a][k]
    {
      StoredInMap(s, k);
      StoredInMap(s', k);
      StoredInserted(s, a, k);
    }
  }

  // A search that falls between two stretches ends as in the middle one.
  lemma StoredInside(b: seq<Atom>, m: seq<Atom>, e: seq<Atom>, k: Key)
    requires Sorted(b + m + e)
    requires b != [] ==> b[|b| - 1].key < k
    requires e != [] ==> k < e[0].key
    ensures Stored(b + m + e, k) == Stored(m, k)
  {
    RankInside(b, m, e, k);
    var s := b + m + e;
    var r := Rank(m, k);
    if r > 0 {
      assert s[|b| + r - 1] == m[r - 1];
    } else if b != [] {
      assert s[|b| - 1] == b[|b| - 1];
    }
  }

  lemma Widen(b: seq<Atom>, s: seq<Atom>, e: seq<Atom>, p: nat, a: Atom)
    requires p <= |s|
    ensures b + InsertAt(s, p, a) + e == InsertAt(b + s + e, |b| + p, a)
  {
  }

  lemma Regroup(b: seq<Atom>, x: seq<Atom>, m: Atom, y: seq<Atom>, e: seq<Atom>)
    ensures b + x + ([m] + y + e) == b + (x + [m] + y) + e
  {
  }
}

module BTreeSpec {
  import opened Common
  import opened Atoms
  import opened AtomSeqs

  const ORDER: nat := 2
  const MAX: nat := 2 * ORDER

  // A null child is `Nil`, so a leaf with n keys has n + 1 `Nil` children and
  // leaves and inner nodes have one shape.
  datatype Tree = Nil | Node(keys: seq<Atom>, kids: seq<Tree>)

  // What inserting into a subtree hands back to its parent.
  datatype Outcome = Fit(tree: Tree) | Split(left: Tree, mid: Atom, right: Tree)

  ghost predicate WellFormed(t: Tree) {
    t.Node? ==> |t.kids| == |t.keys| + 1 && forall i :: 0 <= i < |t.kids| ==> WellFormed(t.kids[i])
  }

  // ---------- the tree as a sequence ----------

  // Everything left of child n.
  ghost function Before(ks: seq<Atom>, cs: seq<Tree>, n: nat): seq<Atom>
    requires n <= |ks| && n <= |cs|
    decreases cs, n
  {
    if n == 0 then [] else Before(ks, cs, n - 1) + InOrder(cs[n - 1]) + [ks[n - 1]]
  }

  // Everything right of child n.
  ghost function After(ks: seq<Atom>, cs: seq<Tree>, n: nat): seq<Atom>
    requires n <= |ks| && |cs| == |ks| + 1
    decreases cs, |ks| - n
  {
    if n == |ks| then [] else [ks[n]] + InOrder(cs[n + 1]) + After(ks, cs, n + 1)
  }

  ghost function InOrder(t: Tree): seq<Atom>
    decreases t
  {
    if t.Node? && |t.kids| == |t.keys| + 1 then
      InOrder(t.kids[0]) + After(t.keys, t.kids, 0)
    else
      []
  }

  // ---------- insertion ----------

  // An overfull node gives its middle key away.
  function Halves(ks: seq<Atom>, cs: seq<Tree>): Outcome
    requires |cs| == |ks| + 1
  {
    if |ks| <= MAX then Fit(Node(ks, cs))
    else Split(Node(ks[..ORDER], cs[..ORDER + 1]), ks[ORDER], Node(ks[ORDER + 1..], cs[ORDER + 1..]))
  }

  // Key a and the subtree right of it enter a node at position i.
  function Put(ks: seq<Atom>, cs: seq<Tree>, i: nat, a: Atom, r: Tree): Outcome
    requires |cs| == |ks| + 1 && i <= |ks|
  {
    Halves(InsertAt(ks, i, a), InsertAt(cs, i + 1, r))
  }

  ghost function Ins(t: Tree, a: Atom): Outcome
    requires WellFormed(t)
  {
    if t.Nil? then Split(Nil, a, Nil)
    else
      var i := Rank(t.keys, a.key);
      if 0 < i && t.keys[i - 1].key == a.key then Fit(t)
      else Absorb(t, i, Ins(t.kids[i], a))
  }

  // A node takes over what inserting into its child i came to.  A promoted key
  // is looked up in the node afresh.
  function Absorb(t: Tree, i: nat, o: Outcome): Outcome
    requires t.Node? && |t.kids| == |t.keys| + 1 && i <= |t.keys|
  {
    match o
    case Fit(c) => Fit(Node(t.keys, t.kids[i := c]))
    case Split(l, m, r) => Put(t.keys, t.kids[i := l], Rank(t.keys, m.key), m, r)
  }

  ghost function Insert(root: Tree, a: Atom): Tree
    requires WellFormed(root)
  {
    match Ins(root, a)
    case Fit(t) => t
    case Split(l, m, r) => Node([m], [l, r])
  }

  ghost function Flatten(o: Outcome): seq<Atom> {
    match o
    case Fit(t) => InOrder(t)
    case Split(l, m, r) => InOrder(l) + [m] + InOrder(r)
  }

  // ---------- reading a node as a sequence ----------

  lemma {:induction false} AfterConcat(ks: seq<Atom>, cs: seq<Tree>, n: nat)
    requires n <= |ks| && |cs| == |ks| + 1
    ensures InOrder(cs[0]) + After(ks, cs, 0) == Before(ks, cs, n) + InOrder(cs[n]) + After(ks, cs, n)
  {
    if n > 0 {
      AfterConcat(ks, cs, n - 1);
      assert After(ks, cs, n - 1) == [ks[n - 1]] + InOrder(cs[n]) + After(ks, cs, n);
    }
  }

  // Child n sits between what is before it and what is after it.
  lemma {:induction false} InOrderAround(t: Tree, n: nat)
    requires t.Node? && |t.kids| == |t.keys| + 1 && n <= |t.keys|
    ensures InOrder(t) == Before(t.keys, t.kids, n) + InOrder(t.kids[n]) + After(t.keys, t.kids, n)
  {
    AfterConcat(t.keys, t.kids, n);
  }

  lemma {:induction false} BeforeDepends(ks: seq<Atom>, cs: seq<Tree>, ks': seq<Atom>, cs': seq<Tree>, n: nat)
    requires n <= |ks| && n <= |cs| && n <= |ks'| && n <= |cs'|
    requires ks[..n] == ks'[..n] && cs[..n] == cs'[..n]
    ensures Before(ks, cs, n) == Before(ks', cs', n)
    decreases n
  {
    if n > 0 {
      assert ks[n - 1] == ks[..n][n - 1] == ks'[..n][n - 1] == ks'[n - 1];
      assert cs[n - 1] == cs[..n][n - 1] == cs'[..n][n - 1] == cs'[n - 1];
      assert ks[..n - 1] == ks[..n][..n - 1] && ks'[..n - 1] == ks'[..n][..n - 1];
      assert cs[..n - 1] == cs[..n][..n - 1] && cs'[..n - 1] == cs'[..n][..n - 1];
      BeforeDepends(ks, cs, ks', cs', n - 1);
    }
  }

  lemma {:induction false} AfterDepends(ks: seq<Atom>, cs: seq<Tree>, n: nat, ks': seq<Atom>, cs': seq<Tree>, n': nat)
    requires n <= |ks| && |cs| == |ks| + 1 && n' <= |ks'| && |cs'| == |ks'| + 1
    requires ks[n..] == ks'[n'..] && cs[n + 1..] == cs'[n' + 1..]
    ensures After(ks, cs, n) == After(ks', cs', n')
    decreases |ks| - n
  {
    assert |ks| - n == |ks[n..]| == |ks'[n'..]| == |ks'| - n';
    if n < |ks| {
      assert ks[n] == ks[n..][0] == ks'[n'..][0] == ks'[n'];
      assert cs[n + 1] == cs[n + 1..][0] == cs'[n' + 1..][0] == cs'[n' + 1];
      assert ks[n + 1..] == ks[n..][1..] && ks'[n' + 1..] == ks'[n'..][1..];
      assert cs[n + 2..] == cs[n + 1..][1..] && cs'[n' + 2..] == cs'[n' + 1..][1..];
      AfterDepends(ks, cs, n + 1, ks', cs', n' + 1);
    }
  }

  lemma SameAround(ks: seq<Atom>, cs: seq<Tree>, i: nat, c: Tree)
    requires |cs| == |ks| + 1 && i <= |ks|
    ensures Before(ks, cs[i := c], i) == Before(ks, cs, i)
    ensures After(ks, cs[i := c], i) == After(ks, cs, i)
  {
    BeforeDepends(ks, cs, ks, cs[i := c], i);
    AfterDepends(ks, cs, i, ks, cs[i := c], i);
  }

  // Replacing child i replaces its stretch of the sequence.
  lemma ReplaceKid(ks: seq<Atom>, cs: seq<Tree>, i: nat, c: Tree)
    requires |cs| == |ks| + 1 && i <= |ks|
    ensures InOrder(Node(ks, cs[i := c])) == Before(ks, cs, i) + InOrder(c) + After(ks, cs, i)
  {
    InOrderAround(Node(ks, cs[i := c]), i);
    SameAround(ks, cs, i, c);
  }

  // Cutting a node at key i.
  lemma CutNode(ks: seq<Atom>, cs: seq<Tree>, i: nat)
    requires |cs| == |ks| + 1 && i < |ks|
    ensures InOrder(Node(ks, cs)) == InOrder(Node(ks[..i], cs[..i + 1])) + [ks[i]]
      + InOrder(Node(ks[i + 1..], cs[i + 1..]))
  {
    var l, r := Node(ks[..i], cs[..i + 1]), Node(ks[i + 1..], cs[i + 1..]);
    InOrderAround(Node(ks, cs), i);
    InOrderAround(l, i);
    BeforeDepends(ks, cs, l.keys, l.kids, i);
    AfterDepends(ks, cs, i + 1, r.keys, r.kids, 0);
    assert After(ks, cs, i) == [ks[i]] + InOrder(cs[i + 1]) + After(ks, cs, i + 1);
  }

  // A key and the subtree behind it enter the sequence right after child i.
  lemma InsertedInOrder(ks: seq<Atom>, cs: seq<Tree>, i: nat, a: Atom, r: Tree)
    requires |cs| == |ks| + 1 && i <= |ks|
    ensures InOrder(Node(InsertAt(ks, i, a), InsertAt(cs, i + 1, r)))
         == Before(ks, cs, i) + InOrder(cs[i]) + ([a] + InOrder(r) + After(ks, cs, i))
  {
    var ks', cs' := InsertAt(ks, i, a), InsertAt(cs, i + 1, r);
    InOrderAround(Node(ks', cs'), i);
    assert ks'[..i] == ks[..i] && cs'[..i] == cs[..i] && cs'[i] == cs[i];
    BeforeDepends(ks, cs, ks', cs', i);
    assert ks'[i] == a && cs'[i + 1] == r;
    assert ks'[i + 1..] == ks[i..] && cs'[i + 2..] == cs[i + 1..];
    AfterDepends(ks, cs, i, ks', cs', i + 1);
  }

  lemma {:induction false} PutInOrder(ks: seq<Atom>, cs: seq<Tree>, i: nat, a: Atom, r: Tree)
    requires |cs| == |ks| + 1 && i <= |ks|
    ensures Flatten(Put(ks, cs, i, a, r))
         == Before(ks, cs, i) + InOrder(cs[i]) + ([a] + InOrder(r) + After(ks, cs, i))
  {
    InsertedInOrder(ks, cs, i, a, r);
    HalvesInOrder(InsertAt(ks, i, a), InsertAt(cs, i + 1, r));
  }

  lemma HalvesInOrder(ks: seq<Atom>, cs: seq<Tree>)
    requires |cs| == |ks| + 1
    ensures Flatten(Halves(ks, cs)) == InOrder(Node(ks, cs))
  {
    if |ks| > MAX {
      CutNode(ks, cs, ORDER);
    }
  }

  // ---------- where a key belongs ----------

  // The keys of a node are the ends of the stretches around its children.
  lemma KeysAtEnds(ks: seq<Atom>, cs: seq<Tree>, n: nat)
    requires |cs| == |ks| + 1 && n <= |ks|
    ensures n > 0 ==> Before(ks, cs, n) != [] && Before(ks, cs, n)[|Before(ks, cs, n)| - 1] == ks[n - 1]
    ensures n < |ks| ==> After(ks, cs, n) != [] && After(ks, cs, n)[0] == ks[n]
  {
  }

  // A search tree's node keys ascend, and so does every subtree.
  lemma {:induction false} SortedParts(t: Tree, n: nat)
    requires t.Node? && |t.kids| == |t.keys| + 1 && n <= |t.keys|
    requires Sorted(InOrder(t))
    ensures Sorted(InOrder(t.kids[n])) && Sorted(Before(t.keys, t.kids, n)) && Sorted(After(t.keys, t.kids, n))
    ensures Sorted(t.keys)
  {
    Pairwise(t.keys);
    SortedAround(t, n);
    forall i, j | 0 <= i < j < |t.keys|
      ensures t.keys[i].key < t.keys[j].key
    {
      KeyOrder(t, i, j);
    }
  }

  lemma {:induction false} SortedAround(t: Tree, n: nat)
    requires t.Node? && |t.kids| == |t.keys| + 1 && n <= |t.keys|
    requires Sorted(InOrder(t))
    ensures Sorted(InOrder(t.kids[n])) && Sorted(Before(t.keys, t.kids, n)) && Sorted(After(t.keys, t.kids, n))
  {
    InOrderAround(t, n);
    SortedPieces(Before(t.keys, t.kids, n), InOrder(t.kids[n]), After(t.keys, t.kids, n));
  }

  lemma {:induction false} BeforeHasKeys(ks: seq<Atom>, cs: seq<Tree>, n: nat, i: nat) returns (p: nat)
    requires |cs| == |ks| + 1 && i < n <= |ks|
    ensures p < |Before(ks, cs, n)| && Before(ks, cs, n)[p] == ks[i]
    decreases n
  {
    if i == n - 1 {
      p := |Before(ks, cs, n)| - 1;
    } else {
      p := BeforeHasKeys(ks, cs, n - 1, i);
    }
  }

  lemma {:induction false} KeyOrder(t: Tree, i: nat, j: nat)
    requires t.Node? && |t.kids| == |t.keys| + 1 && i < j < |t.keys|
    requires Sorted(InOrder(t))
    ensures t.keys[i].key < t.keys[j].key
  {
    Pairwise(InOrder(t));
    InOrderAround(t, j);
    var p := BeforeHasKeys(t.keys, t.kids, j, i);
    KeysAtEnds(t.keys, t.kids, j);
    var b, m := Before(t.keys, t.kids, j), InOrder(t.kids[j]);
    assert InOrder(t)[p] == t.keys[i];
    assert InOrder(t)[|b| + |m|] == t.keys[j];
  }

  lemma EndsAround(t: Tree, k: Key, i: nat)
    requires t.Node? && |t.kids| == |t.keys| + 1 && i <= |t.keys| && !Has(t.keys, k)
    requires i > 0 ==> t.keys[i - 1].key <= k
    requires i < |t.keys| ==> k < t.keys[i].key
    ensures var b := Before(t.keys, t.kids, i); b != [] ==> b[|b| - 1].key < k
    ensures var e := After(t.keys, t.kids, i); e != [] ==> k < e[0].key
  {
    KeysAtEnds(t.keys, t.kids, i);
  }

  // The child that a search descends into is the only place its key can be.
  lemma {:induction false} Descend(t: Tree, k: Key)
    requires t.Node? && |t.kids| == |t.keys| + 1
    requires Sorted(InOrder(t)) && Sorted(t.keys) && !Has(t.keys, k)
    ensures var i := Rank(t.keys, k);
      && Rank(InOrder(t), k) == |Before(t.keys, t.kids, i)| + Rank(InOrder(t.kids[i]), k)
      && (Has(InOrder(t), k) <==> Has(InOrder(t.kids[i]), k))
  {
    var i := Rank(t.keys, k);
    InOrderAround(t, i);
    RankSpec(t.keys, k);
    EndsAround(t, k, i);
    RankInside(Before(t.keys, t.kids, i), InOrder(t.kids[i]), After(t.keys, t.kids, i), k);
  }

  // ---------- the B-tree invariant ----------

  // All leaves at one depth; every node holds at most MAX keys and all but the
  // root at least ORDER.
  ghost predicate Shape(t: Tree, depth: nat, least: nat)
    decreases depth
  {
    && (t.Nil? <==> depth == 0)
    && (t.Node? ==>
          && least <= |t.keys| <= MAX
          && |t.kids| == |t.keys| + 1
          && forall i :: 0 <= i < |t.kids| ==> Shape(t.kids[i], depth - 1, ORDER))
  }

  // depth counts levels of nodes; only a root without children may be empty.
  ghost predicate IsBTree(t: Tree, depth: nat) {
    0 < depth && Shape(t, depth, if depth == 1 then 0 else 1) && Sorted(InOrder(t))
  }

  lemma {:induction false} ShapeWellFormed(t: Tree, depth: nat, least: nat)
    requires Shape(t, depth, least)
    ensures WellFormed(t)
    decreases depth
  {
    if t.Node? {
      forall i | 0 <= i < |t.kids|
        ensures WellFormed(t.kids[i])
      {
        ShapeWellFormed(t.kids[i], depth - 1, ORDER);
      }
    }
  }

  // The subtrees of a search tree are separated by the keys around them.
  lemma {:induction false} KidBetweenKeys(t: Tree, n: nat, j: nat)
    requires t.Node? && |t.kids| == |t.keys| + 1 && n <= |t.keys|
    requires Sorted(InOrder(t)) && j < |InOrder(t.kids[n])|
    ensures n > 0 ==> t.keys[n - 1].key < InOrder(t.kids[n])[j].key
    ensures n < |t.keys| ==> InOrder(t.kids[n])[j].key < t.keys[n].key
  {
    Pairwise(InOrder(t));
    InOrderAround(t, n);
    KeysAtEnds(t.keys, t.kids, n);
    var b, m := Before(t.keys, t.kids, n), InOrder(t.kids[n]);
    var s := InOrder(t);
    assert s[|b| + j] == m[j];
    assert n > 0 ==> s[|b| - 1] == t.keys[n - 1];
    assert n < |t.keys| ==> s[|b| + |m|] == t.keys[n];
  }

  // ---------- what insertion does ----------

  ghost predicate WellFormedOutcome(o: Outcome) {
    match o
    case Fit(t) => WellFormed(t)
    case Split(l, _, r) => WellFormed(l) && WellFormed(r)
  }

  lemma {:induction false} PutWellFormed(ks: seq<Atom>, cs: seq<Tree>, i: nat, a: Atom, r: Tree)
    requires |cs| == |ks| + 1 && i <= |ks|
    requires WellFormed(r) && forall j :: 0 <= j < |cs| ==> WellFormed(cs[j])
    ensures WellFormedOutcome(Put(ks, cs, i, a, r))
  {
    var cs' := InsertAt(cs, i + 1, r);
    assert forall j :: 0 <= j < |cs'| ==> WellFormed(cs'[j]);
  }

  // The key a child promotes belongs right behind that child, so scanning the
  // parent again for it finds the position the descent took.
  lemma {:induction false} PromotedGap(t: Tree, i: nat, a: Atom, l: Tree, m: Atom, r: Tree)
    requires t.Node? && |t.kids| == |t.keys| + 1 && i <= |t.keys|
    requires Sorted(InOrder(t)) && Sorted(t.keys) && !Has(t.keys, a.key) && i == Rank(t.keys, a.key)
    requires Flatten(Split(l, m, r)) == InsertAt(InOrder(t.kids[i]), Rank(InOrder(t.kids[i]), a.key), a)
    ensures Rank(t.keys, m.key) == i
  {
    RankSpec(t.keys, a.key);
    var s := InOrder(t.kids[i]);
    var p := Rank(s, a.key);
    var q := |InOrder(l)|;
    assert Flatten(Split(l, m, r))[q] == m;
    assert m == if q < p then s[q] else if q == p then a else s[q - 1];
    if q != p {
      KidBetweenKeys(t, i, if q < p then q else q - 1);
    }
    RankBetween(t.keys, m.key, i);
  }

  lemma {:induction false} HasKey(t: Tree, i: nat)
    requires t.Node? && |t.kids| == |t.keys| + 1 && i < |t.keys|
    ensures Has(InOrder(t), t.keys[i].key)
  {
    InOrderAround(t, i);
    KeysAtEnds(t.keys, t.kids, i);
    var b, m := Before(t.keys, t.kids, i), InOrder(t.kids[i]);
    assert InOrder(t)[|b| + |m|] == t.keys[i];
  }

  // One insertion: the sequence gains the atom at its place, or nothing happens
  // because the key is already there.
  lemma {:induction false} InsInOrder(t: Tree, a: Atom)
    requires WellFormed(t) && Sorted(InOrder(t))
    ensures WellFormedOutcome(Ins(t, a))
    ensures Has(InOrder(t), a.key) ==> Ins(t, a) == Fit(t)
    ensures !Has(InOrder(t), a.key) ==>
      Flatten(Ins(t, a)) == InsertAt(InOrder(t), Rank(InOrder(t), a.key), a)
    decreases t
  {
    if t.Node? {
      var i := Rank(t.keys, a.key);
      SortedParts(t, i);
      HasIffRank(t.keys, a.key);
      if Has(t.keys, a.key) {
        HasKey(t, i - 1);
      } else {
        InsInOrder(t.kids[i], a);
        InsBelow(t, a, i, Ins(t.kids[i], a));
      }
    }
  }

  // The key is known not to be in the node itself.
  lemma {:induction false} InsBelow(t: Tree, a: Atom, i: nat, o: Outcome)
    requires t.Node? && WellFormed(t) && Sorted(InOrder(t)) && Sorted(t.keys)
    requires !Has(t.keys, a.key) && i == Rank(t.keys, a.key)
    requires WellFormedOutcome(o)
    requires var s := InOrder(t.kids[i]);
      if Has(s, a.key) then o == Fit(t.kids[i]) else Flatten(o) == InsertAt(s, Rank(s, a.key), a)
    ensures WellFormedOutcome(Absorb(t, i, o))
    ensures if Has(InOrder(t), a.key) then Absorb(t, i, o) == Fit(t)
      else Flatten(Absorb(t, i, o)) == InsertAt(InOrder(t), Rank(InOrder(t), a.key), a)
  {
    Descend(t, a.key);
    var s := InOrder(t.kids[i]);
    if Has(s, a.key) {
      assert t.kids[i := t.kids[i]] == t.kids;
    } else {
      AbsorbInOrder(t, a, i, o);
      InsBelowSequence(t, a, i, Flatten(o), Flatten(Absorb(t, i, o)));
    }
  }

  lemma {:induction false} InsBelowSequence(t: Tree, a: Atom, i: nat, inner: seq<Atom>, whole: seq<Atom>)
    requires t.Node? && |t.kids| == |t.keys| + 1 && i <= |t.keys|
    requires var s := InOrder(t.kids[i]); inner == InsertAt(s, Rank(s, a.key), a)
    requires Rank(InOrder(t), a.key) == |Before(t.keys, t.kids, i)| + Rank(InOrder(t.kids[i]), a.key)
    requires whole == Before(t.keys, t.kids, i) + inner + After(t.keys, t.kids, i)
    ensures whole == InsertAt(InOrder(t), Rank(InOrder(t), a.key), a)
  {
    var s := InOrder(t.kids[i]);
    InOrderAround(t, i);
    Widen(Before(t.keys, t.kids, i), s, After(t.keys, t.kids, i), Rank(s, a.key), a);
  }

  // What the parent does with its child's outcome.
  lemma {:induction false} AbsorbInOrder(t: Tree, a: Atom, i: nat, o: Outcome)
    requires t.Node? && WellFormed(t) && Sorted(InOrder(t)) && Sorted(t.keys)
    requires !Has(t.keys, a.key) && i == Rank(t.keys, a.key)
    requires WellFormedOutcome(o)
    requires var s := InOrder(t.kids[i]); Flatten(o) == InsertAt(s, Rank(s, a.key), a)
    ensures WellFormedOutcome(Absorb(t, i, o))
    ensures Flatten(Absorb(t, i, o)) == Before(t.keys, t.kids, i) + Flatten(o) + After(t.keys, t.kids, i)
  {
    match o
    case Fit(c) =>
      ReplaceKid(t.keys, t.kids, i, c);
    case Split(l, m, r) =>
      PromotedGap(t, i, a, l, m, r);
      SplitAbove(t.keys, t.kids, i, l, m, r);
  }

  lemma {:induction false} SplitAbove(ks: seq<Atom>, cs: seq<Tree>, i: nat, l: Tree, m: Atom, r: Tree)
    requires |cs| == |ks| + 1 && i <= |ks|
    requires WellFormed(l) && WellFormed(r) && forall j :: 0 <= j < |cs| ==> WellFormed(cs[j])
    ensures WellFormedOutcome(Put(ks, cs[i := l], i, m, r))
    ensures Flatten(Put(ks, cs[i := l], i, m, r)) == Before(ks, cs, i) + Flatten(Split(l, m, r)) + After(ks, cs, i)
  {
    var cs' := cs[i := l];
    SameAround(ks, cs, i, l);
    PutInOrder(ks, cs', i, m, r);
    PutWellFormed(ks, cs', i, m, r);
    Regroup(Before(ks, cs, i), InOrder(l), m, InOrder(r), After(ks, cs, i));
  }


  // ---------- the shape ----------

  ghost predicate ShapeOutcome(o: Outcome, depth: nat, least: nat) {
    match o
    case Fit(t) => Shape(t, depth, least)
    case Split(l, _, r) => Shape(l, depth, ORDER) && Shape(r, depth, ORDER)
  }

  lemma {:induction false} PutShape(ks: seq<Atom>, cs: seq<Tree>, i: nat, a: Atom, r: Tree, depth: nat, least: nat)
    requires Shape(Node(ks, cs), depth, least) && i <= |ks| && Shape(r, depth - 1, ORDER)
    ensures ShapeOutcome(Put(ks, cs, i, a, r), depth, least)
  {
    var cs' := InsertAt(cs, i + 1, r);
    assert forall j :: 0 <= j < |cs'| ==> Shape(cs'[j], depth - 1, ORDER);
  }

  lemma {:induction false} InsShape(t: Tree, a: Atom, depth: nat, least: nat)
    requires Shape(t, depth, least) && WellFormed(t)
    ensures ShapeOutcome(Ins(t, a), depth, least)
    decreases depth
  {
    if t.Node? {
      var i := Rank(t.keys, a.key);
      if !(0 < i && t.keys[i - 1].key == a.key) {
        InsShape(t.kids[i], a, depth - 1, ORDER);
        match Ins(t.kids[i], a)
        case Fit(c) =>
        case Split(l, m, r) =>
          PutShape(t.keys, t.kids[i := l], Rank(t.keys, m.key), m, r, depth, least);
      }
    }
  }

  lemma {:induction false} InsertInOrder(t: Tree, a: Atom)
    requires WellFormed(t) && Sorted(InOrder(t))
    ensures Has(InOrder(t), a.key) ==> Insert(t, a) == t
    ensures !Has(InOrder(t), a.key) ==>
      InOrder(Insert(t, a)) == InsertAt(InOrder(t), Rank(InOrder(t), a.key), a)
  {
    InsInOrder(t, a);
    match Ins(t, a)
    case Fit(_) =>
    case Split(l, m, r) =>
      InOrderOfRoot(l, m, r);
  }

  // The main theorem about b_insert: the tree stays a B-tree, one level deeper
  // exactly when the root splits, and its sequence gains the atom in order
  // unless the key was present, in which case the tree is unchanged.
  lemma {:induction false} InsertCorrect(t: Tree, depth: nat, a: Atom)
    requires IsBTree(t, depth)
    ensures WellFormed(t)
    ensures IsBTree(Insert(t, a), if Ins(t, a).Fit? then depth else depth + 1)
    ensures Has(InOrder(t), a.key) ==> Insert(t, a) == t
    ensures !Has(InOrder(t), a.key) ==>
      InOrder(Insert(t, a)) == InsertAt(InOrder(t), Rank(InOrder(t), a.key), a)
  {
    hide Rank;
    hide InsertAt;
    hide InOrder;
    var least := if depth == 1 then 0 else 1;
    ShapeWellFormed(t, depth, least);
    InsShape(t, a, depth, least);
    InsertInOrder(t, a);
    if !Has(InOrder(t), a.key) {
      InsertAtSorted(InOrder(t), a);
    }
  }

  lemma {:induction false} InOrderOfRoot(l: Tree, m: Atom, r: Tree)
    ensures InOrder(Node([m], [l, r])) == InOrder(l) + [m] + InOrder(r)
  {
    assert After([m], [l, r], 1) == [];
    assert After([m], [l, r], 0) == [m] + InOrder(r);
  }

  // ---------- lookup ----------

  // Insertion as a map update that never overwrites.
  lemma {:induction false} InsertMaps(t: Tree, depth: nat, a: Atom)
    requires IsBTree(t, depth)
    ensures WellFormed(t)
    ensures IsBTree(Insert(t, a), if Ins(t, a).Fit? then depth else depth + 1)
    ensures var m := MapOf(InOrder(t));
      MapOf(InOrder(Insert(t, a))) == if a.key in m then m else m[a.key := a]
    ensures a.key in MapOf(InOrder(t)) ==> Insert(t, a) == t
  {
    var s := InOrder(t);
    InsertCorrect(t, depth, a);
    StoredIffHas(s, a.key);
    StoredInMap(s, a.key);
    if !Has(s, a.key) {
      MapOfInserted(s, a);
    }
  }

  // One step of the search loop.
  lemma {:induction false} SearchStep(t: Tree, k: Key)
    requires t.Node? && |t.kids| == |t.keys| + 1 && Sorted(InOrder(t))
    ensures Sorted(t.keys)
    ensures var i := Rank(t.keys, k);
      Stored(InOrder(t), k) ==
        if 0 < i && t.keys[i - 1].key == k then Some(t.keys[i - 1]) else Stored(InOrder(t.kids[i]), k)
  {
    var i := Rank(t.keys, k);
    var s := InOrder(t);
    SortedParts(t, i);
    HasIffRank(t.keys, k);
    InOrderAround(t, i);
    if Has(t.keys, k) {
      KeysAtEnds(t.keys, t.kids, i);
      var b := Before(t.keys, t.kids, i);
      assert s[|b| - 1] == t.keys[i - 1];
      StoredAt(s, |b| - 1);
    } else {
      RankSpec(t.keys, k);
      EndsAround(t, k, i);
      StoredInside(Before(t.keys, t.kids, i), InOrder(t.kids[i]), After(t.keys, t.kids, i), k);
    }
  }

  // ---------- how deep a tree of n keys can be ----------

  function Pow3(n: nat): (p: nat)
    ensures p > 0
  {
    if n == 0 then 1 else 3 * Pow3(n - 1)
  }

  lemma {:induction false} AfterLength(ks: seq<Atom>, cs: seq<Tree>, n: nat, least: nat)
    requires |cs| == |ks| + 1 && n <= |ks|
    requires forall i :: 0 <= i < |cs| ==> least <= |InOrder(cs[i])|
    ensures (|ks| - n) * (least + 1) <= |After(ks, cs, n)|
    decreases |ks| - n
  {
    if n < |ks| {
      AfterLength(ks, cs, n + 1, least);
      assert (|ks| - n) * (least + 1) == (|ks| - (n + 1)) * (least + 1) + (least + 1);
    }
  }

  lemma {:induction false} SubtreeSize(t: Tree, depth: nat)
    requires Shape(t, depth, ORDER)
    ensures Pow3(depth) - 1 <= |InOrder(t)|
    decreases depth
  {
    if t.Node? {
      NodeSize(t, depth, ORDER);
    }
  }

  lemma {:induction false} NodeSize(t: Tree, depth: nat, least: nat)
    requires t.Node? && Shape(t, depth, least)
    ensures (least + 1) * Pow3(depth - 1) - 1 <= |InOrder(t)|
    decreases depth, 0
  {
    forall i | 0 <= i < |t.kids|
      ensures Pow3(depth - 1) - 1 <= |InOrder(t.kids[i])|
    {
      SubtreeSize(t.kids[i], depth - 1);
    }
    var p := Pow3(depth - 1);
    AfterLength(t.keys, t.kids, 0, p - 1);
    assert least * p <= |t.keys| * p by {
      MulMono(least, |t.keys|, p);
    }
    assert (least + 1) * p == least * p + p;
  }

  lemma MulMono(a: nat, b: nat, c: nat)
    requires a <= b
    ensures a * c <= b * c
  {
  }

  lemma {:induction false} Pow3Mono(m: nat, n: nat)
    requires m <= n
    ensures Pow3(m) <= Pow3(n)
  {
    if m < n {
      Pow3Mono(m, n - 1);
    }
  }

  // A non-empty tree whose leaves are at depth h below the root holds at least
  // 2 * 3^h - 1 keys.
  lemma {:induction false} HeightBound(t: Tree, depth: nat)
    requires IsBTree(t, depth) && InOrder(t) != []
    ensures 2 * Pow3(depth - 1) - 1 <= |InOrder(t)|
  {
    if depth > 1 {
      NodeSize(t, depth, 1);
    }
  }

  // So a search of at most `depth` nodes is logarithmic in what is stored.
  lemma SearchBound(t: Tree, depth: nat, visited: nat)
    requires IsBTree(t, depth) && MapOf(InOrder(t)) != map[] && 0 < visited <= depth
    ensures 2 * Pow3(visited - 1) - 1 <= |MapOf(InOrder(t))|
  {
    var s := InOrder(t);
    Pairwise(s);
    MapToSize(s, |s|);
    HeightBound(t, depth);
    Pow3Mono(visited - 1, depth - 1);
  }
}
