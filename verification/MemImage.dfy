// The memory image goldfinger prints and make_mem_map.py reads back.
module MemImage {
  import opened Common
  import opened TsbSpec

  // A line of the image as its readers see it: an address, words, a comment that
  // counts suppressed zero bytes, or anything else.
  datatype Line = At(addr: Word) | Words(ws: seq<Word>) | ZeroBytes(n: nat) | Blank

  // The reader's running address and what it has collected.
  datatype Reading = Reading(at: nat, mem: map<nat, Word>)

  function Store(r: Reading, ws: seq<Word>): Reading
    decreases |ws|
  {
    if ws == [] then r else
      var before := Store(r, ws[..|ws| - 1]);
      Reading(before.at + 8, before.mem[before.at := ws[|ws| - 1]])
  }

  function Zeros(n: nat): (z: seq<Word>)
    ensures |z| == n && forall i :: 0 <= i < n ==> z[i] == 0
  {
    seq(n, _ => 0)
  }

  // One line.  `fill` makes the reader honour zero_bytes comments; memImageData
  // does not, and takes missing words for zeros.
  function ReadLine(fill: bool, r: Reading, l: Line): Reading {
    match l
    case At(a) => r.(at := a)
    case Words(ws) => Store(r, ws)
    case ZeroBytes(n) => if fill then Store(r, Zeros(n / 8)) else r
    case Blank => r
  }

  function ReadFrom(fill: bool, lines: seq<Line>): Reading
  {
    if lines == [] then Reading(0, map[]) else ReadLine(fill, ReadFrom(fill, lines[..|lines| - 1]), lines[|lines| - 1])
  }

  // memImageData
  method MemImageData(lines: seq<Line>) returns (mem: map<nat, Word>)
    ensures mem == ReadFrom(false, lines).mem
  {
    var at: nat := 0;
    mem := map[];
    for i := 0 to |lines|
      invariant Reading(at, mem) == ReadFrom(false, lines[..i])
    {
      assert lines[..i + 1][..i] == lines[..i];
      match lines[i] {
        case At(a) =>
          at := a;
        case Words(ws) =>
          ghost var r := Reading(at, mem);
          for k := 0 to |ws|
            invariant Reading(at, mem) == Store(r, ws[..k])
          {
            assert ws[..k + 1][..k] == ws[..k];
            mem := mem[at := ws[k]];
            at := at + 8;
          }
          assert ws[..|ws|] == ws;
        case _ =>
      }
    }
    assert lines[..|lines|] == lines;
  }

  // ---------- runs of words ----------

  function Lookup(mem: map<nat, Word>, a: nat): Word {
    if a in mem then mem[a] else 0
  }

  // a is the address of one of n words from start on.
  predicate InRun(a: nat, start: nat, n: nat) {
    start <= a < start + 8 * n && (a - start) % 8 == 0
  }

  function IndexIn(a: nat, start: nat): int {
    (a - start) / 8
  }

  lemma {:induction false} StoreSpec(r: Reading, ws: seq<Word>)
    ensures Store(r, ws).at == r.at + 8 * |ws|
    ensures forall a: nat :: a in Store(r, ws).mem <==> a in r.mem || InRun(a, r.at, |ws|)
    ensures forall a: nat :: a in Store(r, ws).mem ==>
      Store(r, ws).mem[a] == if InRun(a, r.at, |ws|) then ws[IndexIn(a, r.at)] else r.mem[a]
  {
    if ws != [] {
      StoreSpec(r, ws[..|ws| - 1]);
    }
  }

  lemma {:induction false} ReadNext(fill: bool, lines: seq<Line>, l: Line)
    ensures ReadFrom(fill, lines + [l]) == ReadLine(fill, ReadFrom(fill, lines), l)
  {
    assert (lines + [l])[..|lines|] == lines;
  }

  // What is given at an address replaces what was there, word by word, and nothing else.
  lemma {:induction false} GivenLast(fill: bool, lines: seq<Line>, a: Word, ws: seq<Word>, b: nat)
    ensures var m, m' := ReadFrom(fill, lines).mem, ReadFrom(fill, lines + [At(a)] + [Words(ws)]).mem;
      if InRun(b, a, |ws|) then b in m' && m'[b] == ws[(b - a) / 8]
      else (b in m' <==> b in m) && (b in m ==> m'[b] == m[b])
  {
    ReadNext(fill, lines, At(a));
    ReadNext(fill, lines + [At(a)], Words(ws));
    StoreSpec(ReadFrom(fill, lines + [At(a)]), ws);
  }

  // A line of words goes on where the one before it stopped.
  lemma {:induction false} GoesOn(fill: bool, lines: seq<Line>, ws: seq<Word>, ws': seq<Word>)
    ensures ReadFrom(fill, lines + [Words(ws)] + [Words(ws')]) == ReadFrom(fill, lines + [Words(ws + ws')])
  {
    ReadNext(fill, lines, Words(ws));
    ReadNext(fill, lines + [Words(ws)], Words(ws'));
    ReadNext(fill, lines, Words(ws + ws'));
    StoreJoin(ReadFrom(fill, lines), ws, ws');
  }

  lemma {:induction false} StoreJoin(r: Reading, ws: seq<Word>, ws': seq<Word>)
    ensures Store(Store(r, ws), ws') == Store(r, ws + ws')
  {
    if ws' == [] {
      assert ws + ws' == ws;
    } else {
      var n := |ws'| - 1;
      assert (ws + ws')[..|ws| + n] == ws + ws'[..n];
      StoreJoin(r, ws, ws'[..n]);
    }
  }

  // Other lines add nothing, except that a filling reader takes counted bytes for zeros.
  lemma {:induction false} AddsNothing(lines: seq<Line>, n: nat)
    ensures ReadFrom(false, lines + [ZeroBytes(n)]) == ReadFrom(false, lines)
    ensures ReadFrom(false, lines + [Blank]) == ReadFrom(false, lines)
    ensures ReadFrom(true, lines + [Blank]) == ReadFrom(true, lines)
    ensures ReadFrom(true, lines + [ZeroBytes(8 * n)]) == ReadFrom(true, lines + [Words(Zeros(n))])
  {
    ReadNext(false, lines, ZeroBytes(n));
    ReadNext(false, lines, Blank);
    ReadNext(true, lines, Blank);
    ReadNext(true, lines, ZeroBytes(8 * n));
    ReadNext(true, lines, Words(Zeros(n)));
  }

  // ---------- an object being printed ----------

  // The first n words of an object at `start` read back, and nothing else changed
  // since `was`.  A filling reader has found each of the first `c` of them.
  ghost predicate Printed(fill: bool, was: map<nat, Word>, mem: map<nat, Word>, start: nat, words: seq<Word>, n: nat,
          c: nat) {
    && c <= n <= |words|
    && (forall a: nat :: Lookup(mem, a) == if InRun(a, start, n) then words[IndexIn(a, start)] else Lookup(was, a))
    && (forall a: nat :: a in mem ==> a in was || InRun(a, start, n))
    && (fill ==> forall a: nat :: InRun(a, start, c) ==> a in mem)
  }

  // Nothing is known yet about the object's addresses.
  ghost predicate Fresh(was: map<nat, Word>, start: nat, n: nat) {
    forall a: nat :: a in was ==> !InRun(a, start, n)
  }

  lemma RunExtends(a: nat, start: nat, n: nat, k: nat)
    ensures InRun(a, start, n + k) <==> InRun(a, start, n) || InRun(a, start + 8 * n, k)
    ensures !(InRun(a, start, n) && InRun(a, start + 8 * n, k))
    ensures InRun(a, start + 8 * n, k) ==> IndexIn(a, start) == n + IndexIn(a, start + 8 * n)
    ensures InRun(a, start, n) ==> 0 <= IndexIn(a, start) < n
    ensures InRun(a, start + 8 * n, k) ==> 0 <= IndexIn(a, start + 8 * n) < k
  {
  }

  // Printing the next words where the reader stands.
  lemma PrintWords(fill: bool, was: map<nat, Word>, r: Reading, start: nat, words: seq<Word>, n: nat, k: nat)
    requires Printed(fill, was, r.mem, start, words, n, n) && n + k <= |words| && r.at == start + 8 * n
    ensures Store(r, words[n..n + k]).at == start + 8 * (n + k)
    ensures Printed(fill, was, Store(r, words[n..n + k]).mem, start, words, n + k, n + k)
  {
    hide InRun;
    hide IndexIn;
    var ws := words[n..n + k];
    assert |ws| == k;
    var mem := Store(r, ws).mem;
    StoreSpec(r, ws);
    forall a: nat
      ensures InRun(a, start, n + k) <==> InRun(a, start, n) || InRun(a, start + 8 * n, k)
      ensures InRun(a, start + 8 * n, k) ==> IndexIn(a, start) == n + IndexIn(a, start + 8 * n)
      ensures !(InRun(a, start, n) && InRun(a, start + 8 * n, k))
      ensures InRun(a, start, n) ==> 0 <= IndexIn(a, start) < n
      ensures InRun(a, start + 8 * n, k) ==> 0 <= IndexIn(a, start + 8 * n) < k
    {
      RunExtends(a, start, n, k);
    }
    forall a: nat
      ensures Lookup(mem, a) == if InRun(a, start, n + k) then words[IndexIn(a, start)] else Lookup(was, a)
    {
      assert Lookup(r.mem, a) == if InRun(a, start, n) then words[IndexIn(a, start)] else Lookup(was, a);
      if InRun(a, start + 8 * n, k) {
        assert a in mem && mem[a] == ws[IndexIn(a, r.at)];
      }
    }
    forall a: nat | a in mem
      ensures a in was || InRun(a, start, n + k)
    {
      RunExtends(a, start, n, k);
      assert a in r.mem || InRun(a, r.at, |ws|);
    }
    assert fill ==> forall a: nat :: InRun(a, start, n + k) ==> a in mem;
  }

  // Leaving out zeros.
  lemma SkipZeros(fill: bool, was: map<nat, Word>, mem: map<nat, Word>, start: nat, words: seq<Word>, n: nat, c: nat,
          k: nat)
    requires Printed(fill, was, mem, start, words, n, c) && n + k <= |words| && Fresh(was, start, |words|)
    requires forall i :: n <= i < n + k ==> words[i] == 0
    ensures Printed(fill, was, mem, start, words, n + k, c)
  {
    hide InRun;
    hide IndexIn;
    forall a: nat
      ensures InRun(a, start, n + k) <==> InRun(a, start, n) || InRun(a, start + 8 * n, k)
      ensures InRun(a, start + 8 * n, k) ==> n <= IndexIn(a, start) < n + k
      ensures InRun(a, start, n + k) ==> InRun(a, start, |words|)
      ensures !(InRun(a, start, n) && InRun(a, start + 8 * n, k))
    {
      RunExtends(a, start, n, k);
      RunExtends(a, start, n + k, |words| - n - k);
    }
  }

  // A comment that counts the zeros since word c, where the reader stands.
  lemma CountZeros(fill: bool, was: map<nat, Word>, r: Reading, start: nat, words: seq<Word>, n: nat, c: nat)
    requires Printed(fill, was, r.mem, start, words, n, c) && r.at == start + 8 * c
    requires forall i :: c <= i < n ==> words[i] == 0
    ensures var r' := ReadLine(fill, r, ZeroBytes(8 * (n - c)));
      Printed(fill, was, r'.mem, start, words, n, if fill then n else c)
        && r'.at == if fill then start + 8 * n else r.at
  {
    hide InRun;
    hide IndexIn;
    if fill {
      StoreSpec(r, Zeros(n - c));
      forall a: nat
        ensures InRun(a, start, n) <==> InRun(a, start, c) || InRun(a, start + 8 * c, n - c)
        ensures InRun(a, start + 8 * c, n - c) ==> c <= IndexIn(a, start) < n && 0 <= IndexIn(a, start + 8 * c) < n - c
        ensures !(InRun(a, start, c) && InRun(a, start + 8 * c, n - c))
      {
        RunExtends(a, start, c, n - c);
      }
    }
  }

  lemma NothingPrinted(fill: bool, was: map<nat, Word>, start: nat, words: seq<Word>)
    ensures Printed(fill, was, was, start, words, 0, 0)
  {
  }

  // ---------- what is left out ----------

  // Word j is in one of the first `groups` groups of four words, and the group is zeros.
  predicate LeftOut(words: seq<Word>, groups: nat, j: nat)
    requires 4 * groups <= |words|
  {
    var g := j / 4;
    g < groups && words[4 * g] == 0 && words[4 * g + 1] == 0 && words[4 * g + 2] == 0 && words[4 * g + 3] == 0
  }

  // Of the first n words of an object exactly those left out are not there.
  ghost predicate Kept(mem: map<nat, Word>, start: nat, words: seq<Word>, groups: nat, n: nat)
    requires 4 * groups <= |words|
  {
    forall j: nat :: j < n ==> (start + 8 * j in mem <==> !LeftOut(words, groups, j))
  }

  ghost predicate Adds(was: map<nat, Word>, mem: map<nat, Word>, start: nat, k: nat) {
    forall a: nat :: a in mem <==> a in was || InRun(a, start, k)
  }

  lemma {:induction false} StoreAdds(r: Reading, ws: seq<Word>)
    ensures Adds(r.mem, Store(r, ws).mem, r.at, |ws|)
  {
    StoreSpec(r, ws);
  }

  lemma SameGroup(words: seq<Word>, groups: nat, n: nat, j: nat)
    requires 4 * groups <= |words| && n % 4 == 0 && n <= j < n + 4
    ensures LeftOut(words, groups, j) <==> LeftOut(words, groups, n)
  {
  }

  // A group, or the rest of one, that is printed.
  lemma KeptOn(was: map<nat, Word>, mem: map<nat, Word>, start: nat, words: seq<Word>, groups: nat, n: nat, k: nat)
    requires 4 * groups <= |words| && n % 4 == 0 && k <= 4 && !LeftOut(words, groups, n)
    requires Kept(was, start, words, groups, n) && Adds(was, mem, start + 8 * n, k)
    ensures Kept(mem, start, words, groups, n + k)
  {
    hide LeftOut;
    forall j: nat | j < n + k
      ensures start + 8 * j in mem <==> !LeftOut(words, groups, j)
    {
      if j >= n {
        SameGroup(words, groups, n, j);
      }
    }
  }

  // A group that is left out.
  lemma KeptSkip(fill: bool, was: map<nat, Word>, mem: map<nat, Word>, start: nat, words: seq<Word>, groups: nat,
          n: nat, c: nat)
    requires 4 * groups <= |words| && n % 4 == 0 && LeftOut(words, groups, n)
    requires Kept(mem, start, words, groups, n) && Printed(fill, was, mem, start, words, n, c)
    requires Fresh(was, start, |words|)
    ensures Kept(mem, start, words, groups, n + 4)
  {
    assert n + 4 <= |words|;
    hide LeftOut;
    forall j: nat | j < n + 4
      ensures start + 8 * j in mem <==> !LeftOut(words, groups, j)
    {
      if j >= n {
        SameGroup(words, groups, n, j);
        assert InRun(start + 8 * j, start, |words|) && !InRun(start + 8 * j, start, n);
      }
    }
  }
}
