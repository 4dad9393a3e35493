// Printing a block's words with runs of zero lines left out, as block.c does it.
module BlockImage {
  import opened Common
  import opened TsbSpec
  import opened MemImage
  import opened ImageWriter

  const TWO_32: nat := 0x1_0000_0000

  type Word32 = w: nat | w < TWO_32

  const WORDS_PER_LINE: nat := 8
  const BYTES_PER_WORD: nat := 4

  // The block as the reader groups it: pairs of words, an odd last word with a zero.
  function DoubleAt(words: seq<Word32>, j: nat): (d: Word)
    requires 2 * j < |words|
    ensures d == 0 <==> words[2 * j] == 0 && (2 * j + 1 < |words| ==> words[2 * j + 1] == 0)
  {
    words[2 * j] * TWO_32 + if 2 * j + 1 < |words| then words[2 * j + 1] else 0
  }

  function Doubles(words: seq<Word32>): (ds: seq<Word>)
    ensures |ds| == (|words| + 1) / 2
    ensures forall j :: 0 <= j < |ds| ==> 2 * j < |words| && ds[j] == DoubleAt(words, j)
  {
    seq((|words| + 1) / 2, j requires 0 <= j < (|words| + 1) / 2 => DoubleAt(words, j))
  }

  predicate ZeroLine(words: seq<Word32>, i: nat)
    requires i + 7 < |words|
  {
    && words[i] == 0 && words[i + 1] == 0 && words[i + 2] == 0 && words[i + 3] == 0
    && words[i + 4] == 0 && words[i + 5] == 0 && words[i + 6] == 0 && words[i + 7] == 0
  }

  // How many lines are full.
  function Full(words: seq<Word32>): (q: nat)
    ensures WORDS_PER_LINE * q <= |words| < WORDS_PER_LINE * q + WORDS_PER_LINE
  {
    |words| / WORDS_PER_LINE
  }

  // A short last line behind a suppressed line: zero_line still speaks of that one.
  predicate Stale(words: seq<Word32>, compress: bool) {
    && compress && 0 < Full(words) && WORDS_PER_LINE * Full(words) < |words|
    && ZeroLine(words, WORDS_PER_LINE * (Full(words) - 1))
  }

  // ... and with something to print, which then lands where the zeros began.
  predicate Misplaces(words: seq<Word32>, compress: bool) {
    Stale(words, compress) && exists i :: WORDS_PER_LINE * Full(words) <= i < |words| && words[i] != 0
  }

  // A line of zeros and one word more is enough.
  lemma MisplacesExample(w: Word32)
    requires w != 0
    ensures Misplaces([0, 0, 0, 0, 0, 0, 0, 0, w], true) && !Misplaces([0, 0, 0, 0, 0, 0, 0, 0, w], false)
  {
    var words: seq<Word32> := [0, 0, 0, 0, 0, 0, 0, 0, w];
    assert Full(words) == 1 && words[8] == w;
  }

  // The lines that are left out when they are zeros: all full ones, or none.
  function Groups(words: seq<Word32>, compress: bool): (g: nat)
    ensures 4 * g <= |Doubles(words)|
  {
    if compress then Full(words) else 0
  }

  lemma LineLeftOut(words: seq<Word32>, compress: bool, q: nat)
    requires 8 * q < |words|
    ensures LeftOut(Doubles(words), Groups(words, compress), 4 * q) <==>
      compress && 8 * q + 7 < |words| && ZeroLine(words, 8 * q)
  {
    var ds := Doubles(words);
    assert q < Full(words) <==> 8 * q + 7 < |words|;
    if 8 * q + 7 < |words| {
      assert ds[4 * q] == DoubleAt(words, 4 * q) && ds[4 * q + 1] == DoubleAt(words, 4 * q + 1);
      assert ds[4 * q + 2] == DoubleAt(words, 4 * q + 2) && ds[4 * q + 3] == DoubleAt(words, 4 * q + 3);
    }
  }

  // One printed line: up to four groups, and whether the loop stops behind it.
  method LineAt(words: seq<Word32>, i: nat, h: nat) returns (ws: seq<Word>, stop: bool)
    requires i < |words| && i == 2 * h
    ensures stop <==> |words| <= i + 6
    ensures var ds := Doubles(words);
      |ws| == (if |ds| - h < 4 then |ds| - h else 4) && ws == ds[h..h + |ws|]
  {
    ws := [DoubleAt(words, h)];
    if i + 2 >= |words| {
      return ws, true;
    }
    ws := ws + [DoubleAt(words, h + 1)];
    if i + 4 >= |words| {
      return ws, true;
    }
    ws := ws + [DoubleAt(words, h + 2)];
    if i + 6 >= |words| {
      return ws, true;
    }
    ws := ws + [DoubleAt(words, h + 3)];
    stop := false;
  }

  lemma ZeroDoubles(words: seq<Word32>, i: nat, h: nat)
    requires i == 2 * h && i + 7 < |words| && ZeroLine(words, i)
    ensures forall j :: h <= j < h + 4 ==> Doubles(words)[j] == 0
  {
    forall j | h <= j < h + 4
      ensures Doubles(words)[j] == 0
    {
      assert Doubles(words)[j] == DoubleAt(words, j);
      assert 2 * j == i || 2 * j == i + 2 || 2 * j == i + 4 || 2 * j == i + 6;
    }
  }

  // What the reader has when the short line was printed at word c, where the zeros
  // that end at word n began.
  ghost predicate Displaced(plain: map<nat, Word>, mem: map<nat, Word>, start: nat, ds: seq<Word>, n: nat, c: nat) {
    exists m: map<nat, Word> ::
      && c + 4 <= n < |ds| <= n + 4 && Printed(false, plain, m, start, ds, n, c)
      && (forall i :: c <= i < n ==> ds[i] == 0)
      && mem == Store(Reading(start + 8 * c, m), ds[n..]).mem
  }

  // Such an image is right only if the short line was zeros too.
  lemma DisplacedHolds(plain: map<nat, Word>, mem: map<nat, Word>, start: nat, ds: seq<Word>, n: nat, c: nat)
    requires Displaced(plain, mem, start, ds, n, c) && Fresh(plain, start, |ds|)
    ensures Holds(plain, mem, start, ds) <==> forall j :: n <= j < |ds| ==> ds[j] == 0
  {
    var m: map<nat, Word> :|
      && Printed(false, plain, m, start, ds, n, c)
      && mem == Store(Reading(start + 8 * c, m), ds[n..]).mem;
    var k := |ds| - n;
    StoreSpec(Reading(start + 8 * c, m), ds[n..]);
    forall a: nat
      ensures InRun(a, start, |ds|) <==> InRun(a, start, n) || InRun(a, start + 8 * n, k)
      ensures InRun(a, start + 8 * n, k) ==>
        && IndexIn(a, start) == n + IndexIn(a, start + 8 * n)
        && 0 <= IndexIn(a, start + 8 * n) < k
      ensures InRun(a, start + 8 * c, k) ==>
        && InRun(a, start, n) && c <= IndexIn(a, start) < n
        && IndexIn(a, start + 8 * c) == IndexIn(a, start) - c
      ensures !(InRun(a, start, n) && InRun(a, start + 8 * n, k))
    {
      RunExtends(a, start, n, k);
      RunExtends(a, start, c, k);
      RunExtends(a, start, c + k, n - c - k);
    }
    if j :| n <= j < |ds| && ds[j] != 0 {
      var a := start + 8 * j;
      assert InRun(a, start, |ds|) && IndexIn(a, start) == j && !InRun(a, start, n);
      assert a !in plain;
    } else {
      forall a: nat
        ensures Lookup(mem, a) == if InRun(a, start, |ds|) then ds[IndexIn(a, start)] else Lookup(plain, a)
      {
        assert Lookup(m, a) == if InRun(a, start, n) then ds[IndexIn(a, start)] else Lookup(plain, a);
        assert InRun(a, start + 8 * n, k) ==> a !in plain;
      }
    }
  }

  // Between two full lines: n doublewords dealt with, the last n - c of them left out.
  ghost predicate Between(image: Image, plain: map<nat, Word>, filled: map<nat, Word>, start: nat, ds: seq<Word>,
          n: nat, c: nat, skip: bool, lastAddr: nat, envZero: bool)
    reads image
  {
    && image.Done(plain, filled, start, ds, n, c, envZero) && c <= n
    && (forall i :: c <= i < n ==> ds[i] == 0)
    && if skip then lastAddr == start + 8 * c && c + 4 <= n && image.Stands(lastAddr)
       else c == n && image.Stands(start + 8 * c)
  }

  // A full line of zeros is left out.
  lemma LeaveOut(image: Image, plain: map<nat, Word>, filled: map<nat, Word>, start: nat, words: seq<Word32>, q: nat,
          c: nat, skip: bool, lastAddr: nat, envZero: bool)
    requires 8 * q + 7 < |words| && ZeroLine(words, 8 * q)
    requires Between(image, plain, filled, start, Doubles(words), 4 * q, c, skip, lastAddr, envZero)
    requires Fresh(plain, start, |Doubles(words)|) && Fresh(filled, start, |Doubles(words)|)
    ensures Between(image, plain, filled, start, Doubles(words), 4 * q + 4, c, true,
      if skip then lastAddr else start + 32 * q, envZero)
  {
    hide Printed;
    hide Fresh;
    hide ZeroLine;
    hide Doubles;
    var ds := Doubles(words);
    ZeroDoubles(words, 8 * q, 4 * q);
    SkipZeros(false, plain, image.Mem(false), start, ds, 4 * q, c, 4);
    SkipZeros(envZero, filled, image.Mem(true), start, ds, 4 * q, c, 4);
  }

  // The short line printed where the zeros began.
  method PrintDisplaced(image: Image, ws: seq<Word>, ghost plain: map<nat, Word>, ghost filled: map<nat, Word>,
          ghost start: nat, ghost ds: seq<Word>, ghost n: nat, ghost c: nat, ghost lastAddr: nat, ghost envZero: bool)
    requires Between(image, plain, filled, start, ds, n, c, true, lastAddr, envZero)
    requires n < |ds| <= n + 4 && ws == ds[n..]
    modifies image`out
    ensures Displaced(plain, image.Mem(false), start, ds, n, c)
  {
    ghost var r := ReadFrom(false, image.out);
    assert r == Reading(start + 8 * c, r.mem);
    image.Print(Words(ws));
    assert Printed(false, plain, r.mem, start, ds, n, c);
  }

  // All lines are printed or left out; in the stale case the short one is displaced.
  ghost predicate AtEnd(image: Image, plain: map<nat, Word>, filled: map<nat, Word>, start: nat, words: seq<Word32>,
          compress: bool, envZero: bool, c: nat, skip: bool, lastAddr: nat, linePa: nat)
    reads image
  {
    var ds := Doubles(words);
    if Stale(words, compress) then Displaced(plain, image.Mem(false), start, ds, 4 * Full(words), c)
    else
      && image.Done(plain, filled, start, ds, |ds|, c, envZero) && c <= |ds|
      && (forall i :: c <= i < |ds| ==> ds[i] == 0)
      && image.Shows(start, ds, Groups(words, compress), |ds|, envZero)
      && if skip then lastAddr == start + 8 * c && linePa == start + 8 * |ds| && image.Stands(lastAddr) else c == |ds|
  }

  // A full line that is not left out, or the short line, where nothing is skipped.
  method PrintLine(image: Image, words: seq<Word32>, i: nat, ghost q: nat, ghost plain: map<nat, Word>,
          ghost filled: map<nat, Word>, ghost start: nat, ghost lastAddr: nat, ghost envZero: bool,
          ghost compress: bool)
    returns (stop: bool)
    requires i == 8 * q < |words| && Between(image, plain, filled, start, Doubles(words), 4 * q, 4 * q, false, lastAddr,
      envZero)
    requires !LeftOut(Doubles(words), Groups(words, compress), 4 * q)
    requires image.Shows(start, Doubles(words), Groups(words, compress), 4 * q, envZero)
    modifies image`out
    ensures stop <==> |words| <= i + 6
    ensures var ds := Doubles(words);
      if i + 8 <= |words| then Between(image, plain, filled, start, ds, 4 * q + 4, 4 * q + 4, false, lastAddr, envZero)
      else image.Done(plain, filled, start, ds, |ds|, |ds|, envZero)
    ensures var ds := Doubles(words);
      image.Shows(start, ds, Groups(words, compress), if i + 8 <= |words| then 4 * q + 4 else |ds|, envZero)
  {
    hide Printed;
    hide ReadFrom;
    hide DoubleAt;
    hide LeftOut;
    hide Groups;
    hide Kept;
    hide Doubles;
    hide Image.Mem;
    hide Image.Stands;
    var ws;
    ws, stop := LineAt(words, i, i / 2);
    image.PrintGroup(ws, plain, filled, start, Doubles(words), Groups(words, compress), 4 * q, envZero);
  }

  // The three ways the loop ends.
  lemma EndFull(image: Image, plain: map<nat, Word>, filled: map<nat, Word>, start: nat, words: seq<Word32>,
          compress: bool, envZero: bool, q: nat, c: nat, skip: bool, lastAddr: nat, linePa: nat)
    requires |words| == 8 * q && linePa == start + 32 * q
    requires Between(image, plain, filled, start, Doubles(words), 4 * q, c, skip, lastAddr, envZero)
    requires image.Shows(start, Doubles(words), Groups(words, compress), |Doubles(words)|, envZero)
    ensures AtEnd(image, plain, filled, start, words, compress, envZero, c, skip, lastAddr, linePa)
  {
  }

  lemma EndShort(image: Image, plain: map<nat, Word>, filled: map<nat, Word>, start: nat, words: seq<Word32>,
          compress: bool, envZero: bool, q: nat, lastAddr: nat, linePa: nat)
    requires |words| < 8 * q + 8
    requires 8 * q == |words| || !(compress && 0 < q && 8 * q <= |words| && ZeroLine(words, 8 * (q - 1)))
    requires 8 * q <= |words|
    requires image.Done(plain, filled, start, Doubles(words), |Doubles(words)|, |Doubles(words)|, envZero)
    requires image.Shows(start, Doubles(words), Groups(words, compress), |Doubles(words)|, envZero)
    ensures AtEnd(image, plain, filled, start, words, compress, envZero, |Doubles(words)|, false, lastAddr, linePa)
  {
    assert Full(words) == q;
  }

  lemma EndDisplaced(image: Image, plain: map<nat, Word>, filled: map<nat, Word>, start: nat, words: seq<Word32>,
          compress: bool, envZero: bool, q: nat, c: nat, skip: bool, lastAddr: nat, linePa: nat)
    requires compress && 0 < q && 8 * q < |words| < 8 * q + 8 && ZeroLine(words, 8 * (q - 1))
    requires Displaced(plain, image.Mem(false), start, Doubles(words), 4 * q, c)
    ensures AtEnd(image, plain, filled, start, words, compress, envZero, c, skip, lastAddr, linePa)
  {
    assert Full(words) == q;
  }

  // The loop of block_generate_image.
  method PrintLines(image: Image, startPa: Word, words: seq<Word32>, compress: bool, envZero: bool,
                    ghost plain: map<nat, Word>, ghost filled: map<nat, Word>)
    returns (doingCompress: bool, lastAddr: Word, linePa: Word, ghost c: nat)
    requires startPa + BYTES_PER_WORD * |words| + 64 < TWO_64
    requires Between(image, plain, filled, startPa, Doubles(words), 0, 0, false, startPa, envZero)
    requires Fresh(plain, startPa, |Doubles(words)|) && Fresh(filled, startPa, |Doubles(words)|)
    requires image.Shows(startPa, Doubles(words), Groups(words, compress), 0, envZero)
    modifies image`out
    ensures lastAddr <= linePa
    ensures AtEnd(image, plain, filled, startPa, words, compress, envZero, c, doingCompress, lastAddr, linePa)
  {
    hide Printed;
    hide InRun;
    hide Doubles;
    hide ReadFrom;
    hide Displaced;
    hide ZeroLine;
    hide Fresh;
    hide Full;
    hide Store;
    hide AtEnd;
    hide Stale;
    hide Image.Valid;
    hide Image.Mem;
    hide Groups;
    hide LeftOut;
    hide Kept;
    ghost var ds, groups := Doubles(words), Groups(words, compress);
    var zeroLine, printedData := false, false;
    linePa, lastAddr, doingCompress, c := startPa, startPa, false, 0;
    ghost var q: nat := 0;
    var i := 0;
    while i < |words| + WORDS_PER_LINE
      invariant i == 8 * q && lastAddr <= linePa
      invariant i <= |words| ==> linePa == startPa + 32 * q
      invariant i <= |words| ==> Between(image, plain, filled, startPa, ds, 4 * q, c, doingCompress, lastAddr, envZero)
      invariant i <= |words| ==>
        && zeroLine == (0 < q && ZeroLine(words, 8 * (q - 1)))
        && (doingCompress <==> compress && zeroLine)
      invariant i <= |words| ==> image.Shows(startPa, ds, groups, 4 * q, envZero)
      invariant |words| < i ==> AtEnd(image, plain, filled, startPa, words, compress, envZero, c, doingCompress,
        lastAddr, linePa)
    {
      if i >= |words| {
        if i == |words| {
          EndFull(image, plain, filled, startPa, words, compress, envZero, q, c, doingCompress, lastAddr, linePa);
        }
        break;
      }
      LineLeftOut(words, compress, q);
      if i + 7 < |words| {
        zeroLine := ZeroLine(words, i);
      }
      if doingCompress && !zeroLine {
        image.PrintGap(lastAddr, linePa - lastAddr, printedData, envZero, plain, filled, startPa, ds, 4 * q, c);
        image.PrintAt(linePa);
        doingCompress := false;
        c := 4 * q;
      }
      if compress && i + 7 < |words| && zeroLine {
        image.SkippedShows(plain, filled, startPa, ds, groups, 4 * q, c, envZero);
        LeaveOut(image, plain, filled, startPa, words, q, c, doingCompress, lastAddr, envZero);
        if !doingCompress {
          lastAddr := linePa;
        }
        doingCompress := true;
        linePa := linePa + WORDS_PER_LINE * BYTES_PER_WORD;
        i, q := i + WORDS_PER_LINE, q + 1;
        continue;
      }
      printedData := true;
      var stop;
      if doingCompress {
        var ws;
        ws, stop := LineAt(words, i, i / 2);
        PrintDisplaced(image, ws, plain, filled, startPa, ds, 4 * q, c, lastAddr, envZero);
        EndDisplaced(image, plain, filled, startPa, words, compress, envZero, q, c, true, lastAddr, linePa + 32);
        EndDisplaced(image, plain, filled, startPa, words, compress, envZero, q, c, true, lastAddr, linePa);
      } else {
        stop := PrintLine(image, words, i, q, plain, filled, startPa, lastAddr, envZero, compress);
        c := if i + 8 <= |words| then 4 * q + 4 else |ds|;
        if |words| < i + 8 {
          EndShort(image, plain, filled, startPa, words, compress, envZero, q, lastAddr, linePa + 32);
          EndShort(image, plain, filled, startPa, words, compress, envZero, q, lastAddr, linePa);
        }
      }
      if stop {
        break;
      }
      linePa := linePa + WORDS_PER_LINE * BYTES_PER_WORD;
      i, q := i + WORDS_PER_LINE, q + 1;
    }
  }

  // Word by word: an even word is the upper half of its doubleword, an odd one the lower
  // half, and behind an odd last word there is a zero.
  lemma DoublesSpell(words: seq<Word32>, i: nat)
    requires i < |words|
    ensures i / 2 < |Doubles(words)|
    ensures i % 2 == 0 ==> Doubles(words)[i / 2] / TWO_32 == words[i]
    ensures i % 2 == 1 ==> Doubles(words)[i / 2] % TWO_32 == words[i]
    ensures i % 2 == 0 && i + 1 == |words| ==> Doubles(words)[i / 2] % TWO_32 == 0
  {
    var j := i / 2;
    var low := if 2 * j + 1 < |words| then words[2 * j + 1] else 0;
    Quotient(DoubleAt(words, j), TWO_32, words[2 * j], low);
  }

  // What block_generate_image prints behind its loop.
  method CloseImage(image: Image, words: seq<Word32>, compress: bool, doingCompress: bool, lastAddr: Word, linePa: Word,
          envZero: bool, ghost plain: map<nat, Word>, ghost filled: map<nat, Word>, ghost start: nat, ghost c: nat)
    requires AtEnd(image, plain, filled, start, words, compress, envZero, c, doingCompress, lastAddr, linePa)
      && lastAddr <= linePa
    modifies image`out
    ensures var ds := Doubles(words);
      if Stale(words, compress) then Displaced(plain, image.Mem(false), start, ds, 4 * Full(words), c)
      else
        && image.Done(plain, filled, start, ds, |ds|, |ds|, envZero)
        && image.Shows(start, ds, Groups(words, compress), |ds|, envZero)
  {
    hide InRun;
    hide Kept;
    hide Doubles;
    hide ReadFrom;
    hide Displaced;
    hide Store;
    ghost var ds := Doubles(words);
    if doingCompress {
      if envZero {
        if !Stale(words, compress) {
          CountZeros(false, plain, ReadFrom(false, image.out), start, ds, |ds|, c);
          CountZeros(true, filled, ReadFrom(true, image.out), start, ds, |ds|, c);
        }
        image.Print(ZeroBytes(linePa - lastAddr));
        image.PrintBlank();
      }
    }
  }

  // What the closed image holds.
  lemma Ended(image: Image, plain: map<nat, Word>, filled: map<nat, Word>, start: nat, words: seq<Word32>,
          compress: bool, envZero: bool, c: nat)
    requires var ds := Doubles(words);
      && image.Opened(plain, filled, start, |ds|)
      && if Stale(words, compress) then Displaced(plain, image.Mem(false), start, ds, 4 * Full(words), c)
         else image.Done(plain, filled, start, ds, |ds|, |ds|, envZero)
    ensures Holds(plain, image.Mem(false), start, Doubles(words)) <==> !Misplaces(words, compress)
    ensures !Stale(words, compress) ==> image.Valid() && Holds(filled, image.Mem(true), start, Doubles(words))
    ensures !Stale(words, compress) && envZero ==> forall a: nat :: InRun(a, start, |Doubles(words)|) ==>
      a in image.Mem(true)
  {
    hide Printed;
    hide InRun;
    hide Doubles;
    hide ReadFrom;
    hide Displaced;
    hide Holds;
    hide Full;
    if Stale(words, compress) {
      DisplacedHolds(plain, image.Mem(false), start, Doubles(words), 4 * Full(words), c);
      TailDoubles(words);
    } else {
      image.Finished(plain, filled, start, Doubles(words), envZero);
    }
  }

  // block_generate_image from its data on.  The words are the block's; bytes is its
  // length.  The image holds them exactly when no short line was misplaced.
  method GenerateImage(image: Image, startPa: Word, paSize: nat, words: seq<Word32>, bytes: nat, compress: bool,
          envZero: bool)
    returns (st: Status)
    requires image.Valid() && |words| == bytes / BYTES_PER_WORD
    requires startPa < paSize && startPa + bytes + 64 < TWO_64
    modifies image
    ensures if Free(startPa, bytes, old(image.regions)) then st.Ok? else st.Collision?
    ensures st.Ok? ==> image.regions == old(image.regions) + [Region(startPa, startPa + bytes)]
    ensures st.Ok? ==> (Holds(old(image.Mem(false)), image.Mem(false), startPa, Doubles(words)) <==>
      !Misplaces(words, compress))
    ensures st.Ok? && !Stale(words, compress) ==>
      && image.Valid()
      && Holds(old(image.Mem(true)), image.Mem(true), startPa, Doubles(words))
    ensures st.Ok? && !Stale(words, compress) && envZero ==> forall a: nat :: InRun(a, startPa, |Doubles(words)|) ==>
      a in image.Mem(true)
    ensures st.Ok? && !Stale(words, compress) ==>
      image.Shows(startPa, Doubles(words), Groups(words, compress), |Doubles(words)|, envZero)
  {
    hide Kept;
    hide Groups;
    hide Free;
    hide Printed;
    hide InRun;
    hide Doubles;
    hide ReadFrom;
    hide Displaced;
    hide Holds;
    hide AtEnd;
    hide Stale;
    hide Misplaces;
    ghost var plain, filled := image.Mem(false), image.Mem(true);
    image.PrintBlank();
    var adjustedPa := startPa % paSize;
    assert adjustedPa == startPa;
    st := image.Open(adjustedPa, bytes, Doubles(words), envZero);
    if !st.Ok? {
      return;
    }
    image.NothingShown(startPa, Doubles(words), Groups(words, compress), envZero);
    var doingCompress, lastAddr, linePa;
    ghost var c;
    doingCompress, lastAddr, linePa, c := PrintLines(image, startPa, words, compress, envZero, plain, filled);
    CloseImage(image, words, compress, doingCompress, lastAddr, linePa, envZero, plain, filled, startPa, c);
    Ended(image, plain, filled, startPa, words, compress, envZero, c);
  }

  lemma TailDoubles(words: seq<Word32>)
    ensures (forall j :: 4 * Full(words) <= j < |Doubles(words)| ==> Doubles(words)[j] == 0)
      <==> (forall i :: 8 * Full(words) <= i < |words| ==> words[i] == 0)
  {
    var ds := Doubles(words);
    if forall j :: 4 * Full(words) <= j < |ds| ==> ds[j] == 0 {
      forall i | 8 * Full(words) <= i < |words|
        ensures words[i] == 0
      {
        assert ds[i / 2] == DoubleAt(words, i / 2);
      }
    }
    if forall i :: 8 * Full(words) <= i < |words| ==> words[i] == 0 {
      forall j | 4 * Full(words) <= j < |ds|
        ensures ds[j] == 0
      {
        assert ds[j] == DoubleAt(words, j) && words[2 * j] == 0;
      }
    }
  }
}
