// read_mem of bw_lib.c: filling the simulated memory from a printed image, and its
// agreement with memImageData.
module ImageLoad {
  import opened Common
  import opened Atoms
  import opened FlatMemory
  import opened SimMemory
  import BTreeHeap
  import M = MemImage

  const BUFFER: nat := 1024

  function WordBytes(w: Word): (b: seq<Byte>)
    ensures |b| == 8
  {
    Encode(w, 8)
  }

  function BytesOf(ws: seq<Word>): (b: seq<Byte>)
    ensures |b| == 8 * |ws|
  {
    if ws == [] then [] else
      var init := BytesOf(ws[..|ws| - 1]);
      assert |init| == 8 * |ws| - 8;
      init + WordBytes(ws[|ws| - 1])
  }

  lemma {:induction false} BytesAt(ws: seq<Word>, i: nat)
    requires i < |ws|
    ensures BytesOf(ws)[8 * i..8 * i + 8] == WordBytes(ws[i])
  {
    var n := |ws| - 1;
    if i < n {
      BytesAt(ws[..n], i);
      assert BytesOf(ws)[8 * i..8 * i + 8] == BytesOf(ws[..n])[8 * i..8 * i + 8];
    }
  }

  // a2h: the bytes of a line's words behind what the buffer holds.
  method A2h(ws: seq<Word>, cbuf: array<Byte>, cidx: nat) returns (cidx': nat)
    requires cidx + 8 * |ws| <= cbuf.Length
    modifies cbuf
    ensures cidx' == cidx + 8 * |ws| && cbuf[..cidx'] == old(cbuf[..cidx]) + BytesOf(ws)
  {
    cidx' := cidx;
    for k := 0 to |ws|
      invariant cidx' == cidx + 8 * k && cbuf[..cidx'] == old(cbuf[..cidx]) + BytesOf(ws[..k])
    {
      var e := WordBytes(ws[k]);
      ghost var was := cbuf[..cidx'];
      for i := 0 to 8
        invariant cbuf[..cidx' + i] == was + e[..i]
      {
        cbuf[cidx' + i] := e[i];
      }
      assert ws[..k + 1][..k] == ws[..k];
      cidx' := cidx' + 8;
    }
    assert ws[..|ws|] == ws;
  }

  // align_buf: drop the line at the front.
  method AlignBuf(cbuf: array<Byte>, cidx: nat) returns (n: nat)
    requires cidx <= cbuf.Length
    modifies cbuf
    ensures n == if cidx < 64 then cidx else 64
    ensures cidx < 64 ==> cbuf[..] == old(cbuf[..])
    ensures cidx >= 64 ==> cbuf[..cidx - 64] == old(cbuf[64..cidx])
  {
    if cidx < 64 {
      return cidx;
    }
    for i := 64 to cidx
      invariant forall j :: 0 <= j < i - 64 ==> cbuf[j] == old(cbuf[j + 64])
      invariant forall j :: i - 64 <= j < cbuf.Length ==> cbuf[j] == old(cbuf[j])
    {
      cbuf[i - 64] := cbuf[i];
    }
    n := 64;
  }

  // A line of the buffer as an atom.
  method LineAtom(cbuf: array<Byte>, key: Key) returns (atom: Atom)
    requires cbuf.Length >= 64
    ensures fresh(atom) && fresh(atom.data) && atom.key == key && atom.data.Length == ATOM_DATA_SIZE + 1
    ensures atom.data[..ATOM_DATA_SIZE] == cbuf[..64]
  {
    atom := new Atom(key);
    for i := 0 to 64
      invariant atom.data[..i] == cbuf[..i]
    {
      atom.data[i] := cbuf[i];
    }
    atom.data[64] := 0;
  }

  // ---------- what is loaded ----------

  // An image of whole 64-byte lines at their own addresses, none given twice.
  ghost predicate Loadable(lines: seq<M.Line>) {
    && M.ReadFrom(false, lines).at % 64 == 0
    && forall i :: 0 <= i < |lines| ==> LoadableLine(M.ReadFrom(false, lines[..i]), lines[i])
  }

  ghost predicate LoadableLine(r: M.Reading, l: M.Line) {
    match l
    case At(a) => a % 64 == 0 && r.at % 64 == 0
    case Words(ws) => r.at + 8 * |ws| <= TWO_40 && 8 * |ws| <= BUFFER - 64
      && forall a: nat :: M.InRun(a, r.at, |ws|) ==> a !in r.mem
    case _ => true
  }

  // The buffered word at a.
  ghost function Buffered(a: nat, addr: nat, buf: seq<Byte>): nat {
    if addr <= a && a - addr + 8 <= |buf| then Decode(buf[a - addr..a - addr + 8]) else 0
  }

  // Loading has come as far as the reader: the buffer holds the m words from addr on,
  // the memory those of the lines before.
  ghost predicate Matches(r: M.Reading, addr: nat, buf: seq<Byte>, m: nat, s: State)
    requires Good(s)
  {
    && |buf| == 8 * m && r.at == addr + 8 * m && addr % 64 == 0
    && (forall a: nat :: M.InRun(a, addr, m) ==> a in r.mem && r.mem[a] == Buffered(a, addr, buf))
    && (forall a: nat :: a % 8 == 0 && a < TWO_40 && !M.InRun(a, addr, m) ==>
      M.Lookup(r.mem, a) == ReadWord(s.lines, a))
    && (forall k: Key :: k in s.stored ==> 64 * k in r.mem && !M.InRun(64 * k, addr, m))
  }

  lemma RunWord(a: nat, start: nat, n: nat)
    requires M.InRun(a, start, n)
    ensures 0 <= M.IndexIn(a, start) < n && a == start + 8 * M.IndexIn(a, start)
  {
  }

  // A buffered word stays.
  lemma StaysWord(a: nat, addr: nat, buf: seq<Byte>, m: nat, more: seq<Byte>)
    requires |buf| == 8 * m && M.InRun(a, addr, m)
    ensures Buffered(a, addr, buf + more) == Buffered(a, addr, buf)
  {
    hide Decode;
    hide M.InRun;
    hide M.IndexIn;
    RunWord(a, addr, m);
    assert (buf + more)[a - addr..a - addr + 8] == buf[a - addr..a - addr + 8];
  }

  lemma WordBack(w: Word)
    ensures Decode(WordBytes(w)) == w
  {
    Pow256Of8();
    DecodeEncode(w, 8);
  }

  lemma SliceBehind(buf: seq<Byte>, more: seq<Byte>, i: nat)
    requires i + 8 <= |more|
    ensures (buf + more)[|buf| + i..|buf| + i + 8] == more[i..i + 8]
  {
  }

  // A word that arrives is what the reader stores.
  lemma {:induction false} ArrivesWord(a: nat, addr: nat, buf: seq<Byte>, m: nat, ws: seq<Word>)
    requires |buf| == 8 * m && M.InRun(a, addr + 8 * m, |ws|)
    ensures var i := M.IndexIn(a, addr + 8 * m); 0 <= i < |ws| && Buffered(a, addr, buf + BytesOf(ws)) == ws[i]
  {
    hide Buffered;
    hide Decode;
    hide WordBytes;
    hide BytesOf;
    hide M.InRun;
    hide M.IndexIn;
    RunWord(a, addr + 8 * m, |ws|);
    var i: nat, b := M.IndexIn(a, addr + 8 * m), BytesOf(ws);
    BehindBuffer(buf, ws, i);
    BufferedAt(addr, buf + b, |buf| + 8 * i);
    WordBack(ws[i]);
  }

  lemma {:induction false} BehindBuffer(buf: seq<Byte>, ws: seq<Word>, i: nat)
    requires i < |ws|
    ensures |buf| + 8 * i + 8 <= |buf + BytesOf(ws)|
    ensures (buf + BytesOf(ws))[|buf| + 8 * i..|buf| + 8 * i + 8] == WordBytes(ws[i])
  {
    hide BytesOf;
    hide WordBytes;
    BytesAt(ws, i);
    SliceBehind(buf, BytesOf(ws), 8 * i);
  }

  lemma BufferedAt(addr: nat, buf: seq<Byte>, o: nat)
    requires o + 8 <= |buf|
    ensures Buffered(addr + o, addr, buf) == Decode(buf[o..o + 8])
  {
    hide Decode;
  }

  // A line of words arrives in the buffer.
  lemma {:induction false} Arrives(r: M.Reading, addr: nat, buf: seq<Byte>, m: nat, s: State, ws: seq<Word>)
    requires Good(s) && Matches(r, addr, buf, m, s) && LoadableLine(r, M.Words(ws))
    ensures M.Store(r, ws).at == r.at + 8 * |ws|
    ensures Matches(M.Store(r, ws), addr, buf + BytesOf(ws), m + |ws|, s)
  {
    hide ReadWord;
    hide BytesOf;
    hide Buffered;
    hide M.Store;
    hide M.InRun;
    hide M.IndexIn;
    var r', buf' := M.Store(r, ws), buf + BytesOf(ws);
    M.StoreSpec(r, ws);
    forall a: nat
      ensures M.InRun(a, addr, m + |ws|) <==> M.InRun(a, addr, m) || M.InRun(a, r.at, |ws|)
      ensures M.InRun(a, addr, m + |ws|) ==> a in r'.mem && r'.mem[a] == Buffered(a, addr, buf')
    {
      M.RunExtends(a, addr, m, |ws|);
      if M.InRun(a, addr, m) {
        StaysWord(a, addr, buf, m, BytesOf(ws));
      }
      if M.InRun(a, r.at, |ws|) {
        ArrivesWord(a, addr, buf, m, ws);
      }
    }
    forall a: nat | a % 8 == 0 && a < TWO_40 && !M.InRun(a, addr, m + |ws|)
      ensures M.Lookup(r'.mem, a) == ReadWord(s.lines, a)
    {
      assert M.Lookup(r.mem, a) == ReadWord(s.lines, a);
    }
  }

  // One address while the line at the front of the buffer goes to the memory.
  lemma GoesAt(r: M.Reading, addr: nat, buf: seq<Byte>, m: nat, s: State, s': State, a: nat)
    requires Good(s) && Good(s') && Matches(r, addr, buf, m, s) && m >= 8 && addr + 8 * m <= TWO_40
    requires s'.lines == s.lines[addr / 64 := buf[..64]]
    ensures M.InRun(a, addr + 64, m - 8) ==> M.InRun(a, addr, m)
    ensures M.InRun(a, addr + 64, m - 8) ==> a in r.mem && r.mem[a] == Buffered(a, addr + 64, buf[64..])
    ensures a % 8 == 0 && a < TWO_40 && !M.InRun(a, addr + 64, m - 8) ==> M.Lookup(r.mem, a) == ReadWord(s'.lines, a)
  {
    hide ReadWord;
    hide Buffered;
    hide M.InRun;
    M.RunExtends(a, addr, 8, m - 8);
    GoesBuffered(a, addr, buf, m);
    if a % 8 == 0 && a < TWO_40 {
      InLine(a, addr);
      GoesWord(a, addr, buf, s.lines);
    }
  }

  lemma Goes(r: M.Reading, addr: nat, buf: seq<Byte>, m: nat, s: State, s': State)
    requires Good(s) && Good(s') && Matches(r, addr, buf, m, s) && m >= 8 && addr + 8 * m <= TWO_40
    requires s'.lines == s.lines[addr / 64 := buf[..64]] && s'.stored == s.stored + {addr / 64}
    ensures Matches(r, addr + 64, buf[64..], m - 8, s')
  {
    hide ReadWord;
    hide Buffered;
    forall a: nat
      ensures M.InRun(a, addr + 64, m - 8) ==>
        && M.InRun(a, addr, m) && a in r.mem
        && r.mem[a] == Buffered(a, addr + 64, buf[64..])
      ensures a % 8 == 0 && a < TWO_40 && !M.InRun(a, addr + 64, m - 8) ==> M.Lookup(r.mem, a) == ReadWord(s'.lines, a)
    {
      hide M.InRun;
      GoesAt(r, addr, buf, m, s, s', a);
    }
    assert M.InRun(addr, addr, m) && !M.InRun(addr, addr + 64, m - 8);
    forall k: Key | k in s'.stored
      ensures 64 * k in r.mem && !M.InRun(64 * k, addr + 64, m - 8)
    {
      hide M.InRun;
      GoesAt(r, addr, buf, m, s, s', 64 * k);
    }
  }

  lemma GoesBuffered(a: nat, addr: nat, buf: seq<Byte>, m: nat)
    requires |buf| == 8 * m && m >= 8
    ensures M.InRun(a, addr + 64, m - 8) ==> Buffered(a, addr + 64, buf[64..]) == Buffered(a, addr, buf)
  {
    hide Decode;
    if M.InRun(a, addr + 64, m - 8) {
      RunWord(a, addr + 64, m - 8);
      assert buf[64..][a - (addr + 64)..a - (addr + 64) + 8] == buf[a - addr..a - addr + 8];
    }
  }

  lemma InLine(a: nat, addr: nat)
    requires addr % 64 == 0 && a % 8 == 0
    ensures M.InRun(a, addr, 8) <==> addr <= a < addr + 64
  {
    if addr <= a {
      Quotient(a - addr, 8, a / 8 - 8 * (addr / 64), 0);
    }
  }

  lemma GoesWord(a: nat, addr: nat, buf: seq<Byte>, l: Lines)
    requires IsMemory(l) && |buf| >= 64 && addr % 64 == 0 && a % 8 == 0 && a < TWO_40 && addr + |buf| <= TWO_40
    ensures ReadWord(l[addr / 64 := buf[..64]], a) ==
      if addr <= a < addr + 64 then Buffered(a, addr, buf) else ReadWord(l, a)
  {
    hide Decode;
    LineSpan(a, addr);
    if addr <= a < addr + 64 {
      assert buf[..64][a - addr..a - addr + 8] == buf[a - addr..a - addr + 8];
    }
  }

  lemma LineSpan(a: nat, addr: nat)
    requires a % 8 == 0 && a < TWO_40 && addr % 64 == 0
    ensures addr <= a < addr + 64 <==> LineOf(a) == addr / 64
    ensures addr <= a < addr + 64 ==> OffsetOf(a) == a - addr
  {
    CellOf(a);
  }

  // ---------- read_mem ----------

  // The line at the front of the buffer becomes an atom of the tree.
  method InsertFront(mem: Memory, cbuf: array<Byte>, addr: nat, ghost buf: seq<Byte>, ghost r: M.Reading, ghost m: nat)
    requires mem.Valid() && cbuf !in mem.Repr && |buf| <= cbuf.Length && m >= 8 && r.at <= TWO_40
    requires buf == cbuf[..|buf|] && Matches(r, addr, buf, m, mem.Abstract())
    modifies mem.Repr
    ensures mem.Valid() && cbuf !in mem.Repr && fresh(mem.Repr - old(mem.Repr))
    ensures Matches(r, addr + 64, buf[64..], m - 8, mem.Abstract())
    ensures mem.Abstract().warm == old(mem.Abstract().warm)
  {
    hide Matches;
    hide BTreeHeap.BTree.Valid;
    hide SimMemory.Buffered;
    hide LinesOf;
    hide CacheAgrees;
    hide Good;
    hide LineOf;
    ghost var s := mem.Abstract();
    FrontIsNew(r, addr, buf, m, s);
    var atom := LineAtom(cbuf, LineOf(addr));
    assert buf[..64] == cbuf[..64];
    mem.Store(atom);
    Goes(r, addr, buf, m, s, mem.Abstract());
  }

  // The loop that empties the buffer line by line.
  method Drain(mem: Memory, cbuf: array<Byte>, cidx: nat, addr: nat, ghost r: M.Reading, ghost m: nat)
    returns (cidx': nat, addr': nat, ghost m': nat)
    requires mem.Valid() && cbuf !in mem.Repr && cbuf.Length == BUFFER && cidx == 8 * m <= BUFFER
    requires Matches(r, addr, cbuf[..cidx], m, mem.Abstract()) && r.at <= TWO_40
    modifies mem.Repr, cbuf
    ensures mem.Valid() && cbuf !in mem.Repr && fresh(mem.Repr - old(mem.Repr))
    ensures cidx' == 8 * m' < 64 && Matches(r, addr', cbuf[..cidx'], m', mem.Abstract())
    ensures mem.Abstract().warm == old(mem.Abstract().warm)
  {
    hide Matches;
    hide Memory.StoreValid;
    hide CacheAgrees;
    hide Good;
    cidx', addr', m' := cidx, addr, m;
    while cidx' >= 64
      invariant mem.Valid() && cbuf !in mem.Repr && fresh(mem.Repr - old(mem.Repr))
      invariant cidx' == 8 * m' <= BUFFER && Matches(r, addr', cbuf[..cidx'], m', mem.Abstract())
      invariant mem.Abstract().warm == old(mem.Abstract().warm)
      decreases cidx'
    {
      ghost var buf := cbuf[..cidx'];
      InsertFront(mem, cbuf, addr', buf, r, m');
      ghost var s := mem.Abstract();
      var n := AlignBuf(cbuf, cidx');
      assert cbuf[..cidx' - 64] == buf[64..];
      assert mem.Abstract() == s;
      cidx' := cidx' - n;
      addr' := addr' + 64;
      m' := m' - 8;
    }
  }

  lemma StartMatches(s: State)
    requires Good(s) && s == Blank(false)
    ensures Matches(M.ReadFrom(false, []), 0, [], 0, s)
  {
    forall a: nat | a % 8 == 0 && a < TWO_40
      ensures ReadWord(s.lines, a) == 0
    {
      ZerosReadZero(s.lines, a);
    }
  }

  // Between sections the buffer is empty.
  lemma SectionEnds(r: M.Reading, addr: nat, buf: seq<Byte>, m: nat, s: State)
    requires Good(s) && Matches(r, addr, buf, m, s) && m < 8 && r.at % 64 == 0
    ensures m == 0 && r.at == addr
  {
  }

  // An address line, when the buffer is empty.
  lemma SectionBegins(r: M.Reading, addr: nat, s: State, a: Key)
    requires Good(s) && Matches(r, addr, [], 0, s) && a % 64 == 0
    ensures Matches(M.ReadLine(false, r, M.At(a)), a, [], 0, s)
  {
  }

  // Where read_mem stands between two lines of the image.
  ghost predicate Loading(mem: Memory, cbuf: array<Byte>, r: M.Reading, addr: nat, cidx: nat, m: nat)
    reads mem, mem.Repr, cbuf
  {
    && mem.Valid() && cbuf !in mem.Repr && !mem.Abstract().warm
    && cbuf.Length == BUFFER && cidx == 8 * m < 64 && Matches(r, addr, cbuf[..cidx], m, mem.Abstract())
  }

  // One line of the image.
  method LoadLine(mem: Memory, cbuf: array<Byte>, l: M.Line, cidx: nat, addr: nat, ghost r: M.Reading, ghost m: nat)
    returns (cidx': nat, addr': nat, ghost m': nat)
    requires Loading(mem, cbuf, r, addr, cidx, m) && LoadableLine(r, l)
    modifies mem.Repr, cbuf
    ensures fresh(mem.Repr - old(mem.Repr)) && Loading(mem, cbuf, M.ReadLine(false, r, l), addr', cidx', m')
  {
    hide Matches;
    hide Memory.StoreValid;
    hide CacheAgrees;
    hide Good;
    hide M.Store;
    hide M.InRun;
    cidx', addr', m' := cidx, addr, m;
    match l {
      case At(a) =>
        // what a section leaves in the buffer would become a partial line here
        SectionEnds(r, addr, cbuf[..cidx], m, mem.Abstract());
        assert cbuf[..cidx] == [];
        SectionBegins(r, addr, mem.Abstract(), a);
        addr' := a;
        cidx' := a % 64;
      case Words(ws) =>
        ghost var s, buf := mem.Abstract(), cbuf[..cidx];
        Arrives(r, addr, buf, m, s, ws);
        cidx' := A2h(ws, cbuf, cidx);
        assert mem.Abstract() == s && cbuf[..cidx'] == buf + BytesOf(ws);
        cidx', addr', m' := Drain(mem, cbuf, cidx', addr, M.Store(r, ws), m + |ws|);
      case _ =>
    }
  }

  // read_mem.  A printed image of whole lines is loaded as memImageData reads it:
  // the two readers agree on every word.
  method ReadMem(lines: seq<M.Line>) returns (mem: Memory)
    requires Loadable(lines)
    ensures mem.Valid() && fresh(mem.Repr) && !mem.Abstract().warm
    ensures forall a: nat :: a % 8 == 0 && a < TWO_40 ==>
      ReadWord(mem.Abstract().lines, a) == M.Lookup(M.ReadFrom(false, lines).mem, a)
  {
    hide Matches;
    hide Memory.StoreValid;
    hide CacheAgrees;
    hide Good;
    hide ReadWord;
    mem := new Memory(false);
    var cbuf := new Byte[BUFFER];
    var addr: nat, cidx: nat := 0, 0;
    ghost var m: nat := 0;
    StartMatches(mem.Abstract());
    assert cbuf[..0] == [] && lines[..0] == [];
    var i := 0;
    while i < |lines|
      invariant 0 <= i <= |lines| && fresh(mem.Repr) && fresh(cbuf)
      invariant Loading(mem, cbuf, M.ReadFrom(false, lines[..i]), addr, cidx, m)
    {
      LinesTo(lines, i);
      cidx, addr, m := LoadLine(mem, cbuf, lines[i], cidx, addr, M.ReadFrom(false, lines[..i]), m);
      i := i + 1;
    }
    assert lines[..|lines|] == lines;
    AllLoaded(M.ReadFrom(false, lines), addr, cbuf[..cidx], m, mem.Abstract());
  }

  lemma LinesTo(lines: seq<M.Line>, i: nat)
    requires Loadable(lines) && i < |lines|
    ensures M.ReadFrom(false, lines[..i + 1]) == M.ReadLine(false, M.ReadFrom(false, lines[..i]), lines[i])
    ensures LoadableLine(M.ReadFrom(false, lines[..i]), lines[i])
  {
    assert lines[..i + 1] == lines[..i] + [lines[i]];
    M.ReadNext(false, lines[..i], lines[i]);
  }

  lemma AllLoaded(r: M.Reading, addr: nat, buf: seq<Byte>, m: nat, s: State)
    requires Good(s) && Matches(r, addr, buf, m, s) && m < 8 && r.at % 64 == 0
    ensures forall a: nat :: a % 8 == 0 && a < TWO_40 ==> ReadWord(s.lines, a) == M.Lookup(r.mem, a)
  {
    SectionEnds(r, addr, buf, m, s);
  }

  lemma FrontIsNew(r: M.Reading, addr: nat, buf: seq<Byte>, m: nat, s: State)
    requires Good(s) && Matches(r, addr, buf, m, s) && m >= 8 && r.at <= TWO_40
    ensures |buf| == 8 * m && addr + 8 * m == r.at && LineOf(addr) == addr / 64 && LineOf(addr) !in s.stored
  {
    assert M.InRun(addr, addr, m) && 64 * (addr / 64) == addr;
  }
}
