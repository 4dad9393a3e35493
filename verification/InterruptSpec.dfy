// The interrupt bridge of iob.cc as a machine over values: packets from the event list
// wait in one queue, turn into packets for a core in another, ask for the crossbar and
// leave.
module InterruptSpec {
  import opened Common
  import opened BitFields

  const CORES: nat := 8

  type Core = c: nat | c < CORES

  // A packet of the event list: what is left of its delay, its core and its word.
  datatype Pcx = Pcx(wait: int, cpu: Core, word: int)

  // A packet for a core.  `sent` is 1 until its request is out, then 2.
  datatype Cpx = Cpx(reqWait: nat, cpxWait: nat, sent: nat, cpu: Core, word: int)

  // grant and req are signed C chars.
  datatype State = State(pcx: seq<Pcx>, cpx: seq<Cpx>, grant: int, req: int, nextReq: bool, pktVld: bool, nextCpx: bool,
    qsel: seq<nat>)

  // 1 << cpu in a signed char.
  function RequestOf(cpu: Core): (r: int) {
    if cpu == 0 then 1 else if cpu == 1 then 2 else if cpu == 2 then 4 else if cpu == 3 then 8
    else if cpu == 4 then 16 else if cpu == 5 then 32 else if cpu == 6 then 64 else -128
  }

  // Where queued packets begin.
  const EVENT_WAIT: int := 3
  const BOOT_WAIT: int := 1

  // Queue selectors of cores idx.. after the grant bits were served, lowest first;
  // shifting a negative char keeps its sign.
  function Served(qsel: seq<nat>, grant: int, idx: nat): (q: seq<nat>)
    requires |qsel| == CORES && idx <= CORES
    ensures |q| == CORES
    decreases CORES - idx
  {
    if idx == CORES then qsel
    else Served(if grant % 2 == 1 && qsel[idx] > 0 then qsel[idx := qsel[idx] - 1] else qsel, grant / 2, idx + 1)
  }

  function Shifted(grant: int, n: nat): int {
    if n == 0 then grant else Shifted(grant, n - 1) / 2
  }

  // handle_pcx; `delay` is what random() & 7 gives.
  function HandlePcx(s: State, delay: nat): State
    requires s.pcx != []
  {
    var p := s.pcx[0];
    if p.wait - 1 == 0 then
      s.(pcx := s.pcx[1..], cpx := s.cpx + [Cpx(delay, delay + 1, 1, p.cpu, p.word)])
    else s.(pcx := [p.(wait := p.wait - 1)] + s.pcx[1..])
  }

  // dec_wait, and get_req when the request goes out.
  function Waited(c: Cpx): Cpx {
    c.(reqWait := if c.reqWait > 0 then c.reqWait - 1 else 0, cpxWait := if c.cpxWait > 0 then c.cpxWait - 1 else 0)
  }

  function Requested(c: Cpx): Cpx {
    c.(sent := 2, cpxWait := if c.cpxWait == 0 then 1 else c.cpxWait)
  }

  predicate Asks(c: Cpx) {
    c.reqWait == 0 && c.sent == 1
  }

  // handle_cpx
  function HandleCpx(s: State): State
    requires s.cpx != [] && |s.qsel| == CORES
  {
    var c := Waited(s.cpx[0]);
    var asks := Asks(c) && s.qsel[c.cpu] != 2;
    var c' := if asks then Requested(c) else c;
    var s' := s.(cpx := [c'] + s.cpx[1..], pktVld := s.pktVld || (c'.cpxWait == 0 && c'.sent == 2));
    if asks then s'.(req := RequestOf(c.cpu), nextReq := true, qsel := s.qsel[c.cpu := s.qsel[c.cpu] + 1]) else s'
  }

  // do_iob
  function DoIob(s: State, delay: nat): State
    requires |s.qsel| == CORES
  {
    var s1 := if s.grant != 0 then s.(qsel := Served(s.qsel, s.grant, 0), grant := Shifted(s.grant, CORES)) else s;
    var s2 := if s1.pcx != [] then HandlePcx(s1, delay) else s1;
    if s2.cpx != [] then HandleCpx(s2) else s2
  }

  // drive_cpx, with the word it drives.
  function DriveCpx(s: State): (State, Option<int>)
    requires s.pktVld ==> s.cpx != []
  {
    if !s.pktVld && !s.nextCpx then (s, None)
    else if !s.pktVld then (s.(nextCpx := false), None)
    else (s.(cpx := s.cpx[1..], pktVld := false, nextCpx := true), Some(s.cpx[0].word))
  }

  // drive_req
  function DriveReq(s: State): State {
    if s.nextReq then s.(grant := s.req, nextReq := s.req != 0, req := 0) else s
  }

  function Reset(): State {
    State([], [], 0, 0, false, false, false, [0, 0, 0, 0, 0, 0, 0, 0])
  }

  // ---------- what every step keeps ----------

  // Between steps: the packet at the head may have asked; only its core's selector
  // counts it, and its grant is on the way.
  ghost predicate Inv(s: State) {
    && |s.qsel| == CORES && !s.pktVld && s.req == 0
    && (forall p :: p in s.pcx ==> p.wait >= 1)
    && (forall i :: 0 <= i < |s.cpx| ==> Fits(s.cpx[i]))
    && (forall i :: 1 <= i < |s.cpx| ==> s.cpx[i].sent == 1)
    && if s.cpx != [] && s.cpx[0].sent == 2 then
         && s.nextReq && s.grant == RequestOf(s.cpx[0].cpu) && s.cpx[0].cpxWait == 1
         && forall k :: 0 <= k < CORES ==> s.qsel[k] == if k == s.cpx[0].cpu then 1 else 0
       else
         !s.nextReq && s.grant == 0 && forall k :: 0 <= k < CORES ==> s.qsel[k] == 0
  }

  predicate Fits(c: Cpx) {
    (c.sent == 1 && c.reqWait <= 7 && c.cpxWait == c.reqWait + 1) || c.sent == 2
  }

  // The head of the second queue while a step is under way: its selectors are free.
  ghost predicate Ready(s: State) {
    && |s.qsel| == CORES && !s.pktVld && s.req == 0
    && (forall p :: p in s.pcx ==> p.wait >= 1)
    && (forall i :: 0 <= i < |s.cpx| ==> Fits(s.cpx[i]))
    && (forall i :: 1 <= i < |s.cpx| ==> s.cpx[i].sent == 1)
    && (forall k :: 0 <= k < CORES ==> s.qsel[k] == 0)
    && if s.cpx != [] && s.cpx[0].sent == 2 then s.nextReq && s.cpx[0].cpxWait == 1 else !s.nextReq && s.grant == 0
  }

  // A core's grant frees a selector of that core if one is taken, and no other.
  lemma {:induction false} ServesOne(cpu: Core, qsel: seq<nat>)
    requires |qsel| == CORES
    ensures Served(qsel, RequestOf(cpu), 0) == if qsel[cpu] > 0 then qsel[cpu := qsel[cpu] - 1] else qsel
  {
    ServesFrom(cpu, qsel, 0);
  }

  // What is left of the grant of a core when the loop is at bit idx.
  function GrantAt(cpu: Core, idx: nat): int {
    Shifted(RequestOf(cpu), idx)
  }

  lemma {:induction false} GrantIs(cpu: Core, idx: nat)
    requires idx < CORES
    ensures GrantAt(cpu, idx) == if idx > cpu then 0 else if cpu == 7 then 0 - Pow2(7 - idx) else Pow2(cpu - idx)
  {
    if idx > 0 {
      GrantIs(cpu, idx - 1);
    } else {
      assert Pow2(3) == 8 && Pow2(6) == 64;
    }
  }

  lemma GrantBit(cpu: Core, idx: nat)
    requires idx < CORES
    ensures GrantAt(cpu, idx) % 2 == if idx == cpu then 1 else 0
  {
    GrantIs(cpu, idx);
  }

  lemma {:induction false} ServesFrom(cpu: Core, qsel: seq<nat>, idx: nat)
    requires |qsel| == CORES && idx <= CORES
    ensures Served(qsel, GrantAt(cpu, idx), idx) ==
      if idx <= cpu && qsel[cpu] > 0 then qsel[cpu := qsel[cpu] - 1] else qsel
    decreases CORES - idx
  {
    hide RequestOf;
    if idx < CORES {
      GrantBit(cpu, idx);
      var q := if GrantAt(cpu, idx) % 2 == 1 && qsel[idx] > 0 then qsel[idx := qsel[idx] - 1] else qsel;
      assert GrantAt(cpu, idx + 1) == GrantAt(cpu, idx) / 2;
      ServesFrom(cpu, q, idx + 1);
    }
  }

  // The part of do_iob that serves the grant.
  function Serve(s: State): State
    requires |s.qsel| == CORES
  {
    if s.grant != 0 then s.(qsel := Served(s.qsel, s.grant, 0), grant := Shifted(s.grant, CORES)) else s
  }

  lemma ServeReadies(s: State)
    requires Inv(s)
    ensures Ready(Serve(s)) && Serve(s).pcx == s.pcx && Serve(s).cpx == s.cpx
  {
    hide Served;
    hide Shifted;
    if s.grant != 0 {
      ServesOne(s.cpx[0].cpu, s.qsel);
    }
  }

  // ---------- conservation ----------

  // What the crossbar sees of an interrupt: the request that is raised for it in one
  // tick, and the word that is driven in the next.
  datatype Seen = Seen(request: int, word: int)

  function CpxSeen(cs: seq<Cpx>): (ws: seq<Seen>)
    ensures |ws| == |cs| && forall i :: 0 <= i < |cs| ==> ws[i] == Seen(RequestOf(cs[i].cpu), cs[i].word)
  {
    seq(|cs|, i requires 0 <= i < |cs| => Seen(RequestOf(cs[i].cpu), cs[i].word))
  }

  function PcxSeen(ps: seq<Pcx>): (ws: seq<Seen>)
    ensures |ws| == |ps| && forall i :: 0 <= i < |ps| ==> ws[i] == Seen(RequestOf(ps[i].cpu), ps[i].word)
  {
    seq(|ps|, i requires 0 <= i < |ps| => Seen(RequestOf(ps[i].cpu), ps[i].word))
  }

  lemma CpxSeenHead(cs: seq<Cpx>)
    requires cs != []
    ensures CpxSeen(cs) == [Seen(RequestOf(cs[0].cpu), cs[0].word)] + CpxSeen(cs[1..])
  {
  }

  lemma CpxSeenLast(cs: seq<Cpx>, c: Cpx)
    ensures CpxSeen(cs + [c]) == CpxSeen(cs) + [Seen(RequestOf(c.cpu), c.word)]
  {
  }

  lemma PcxSeenHead(ps: seq<Pcx>)
    requires ps != []
    ensures PcxSeen(ps) == [Seen(RequestOf(ps[0].cpu), ps[0].word)] + PcxSeen(ps[1..])
  {
  }

  // What is on its way, first to leave first.
  function Pending(s: State): seq<Seen> {
    CpxSeen(s.cpx) + PcxSeen(s.pcx)
  }

  // ---------- how long they take ----------

  // Steps a packet at the head of the second queue still needs.
  function Left(c: Cpx): nat {
    if c.sent == 2 then 1 else (if c.reqWait > 0 then c.reqWait else 1) + 1
  }

  function CpxCost(cs: seq<Cpx>, n: nat): nat
    requires n <= |cs|
  {
    if n == 0 then 0 else CpxCost(cs, n - 1) + Left(cs[n - 1])
  }

  // A queued event takes its delay and then at most eight steps more.
  function PcxCost(ps: seq<Pcx>, n: nat): nat
    requires n <= |ps|
  {
    if n == 0 then 0 else PcxCost(ps, n - 1) + 8 + if ps[n - 1].wait > 0 then ps[n - 1].wait else 0
  }

  // How many words are on their way.
  function Waiting(s: State): nat {
    |s.cpx| + |s.pcx|
  }

  // Steps until the first n of them have left.
  function Cost(s: State, n: nat): nat
    requires n <= Waiting(s)
  {
    if n <= |s.cpx| then CpxCost(s.cpx, n) else CpxCost(s.cpx, |s.cpx|) + PcxCost(s.pcx, n - |s.cpx|)
  }

  lemma {:induction false} CpxHead(cs: seq<Cpx>, c: Cpx, n: nat)
    requires 0 < n <= |cs|
    ensures CpxCost([c] + cs[1..], n) + Left(cs[0]) == CpxCost(cs, n) + Left(c)
  {
    if n > 1 {
      CpxHead(cs, c, n - 1);
    }
  }

  lemma {:induction false} CpxTail(cs: seq<Cpx>, n: nat)
    requires 0 < n <= |cs|
    ensures CpxCost(cs, n) == Left(cs[0]) + CpxCost(cs[1..], n - 1)
  {
    if n > 1 {
      CpxTail(cs, n - 1);
    }
  }

  lemma {:induction false} CpxPrefix(cs: seq<Cpx>, c: Cpx, n: nat)
    requires n <= |cs|
    ensures CpxCost(cs + [c], n) == CpxCost(cs, n)
  {
    if n > 0 {
      CpxPrefix(cs, c, n - 1);
    }
  }

  lemma {:induction false} PcxHead(ps: seq<Pcx>, p: Pcx, n: nat)
    requires 0 < n <= |ps| && ps[0].wait > 0 && p.wait > 0
    ensures PcxCost([p] + ps[1..], n) + ps[0].wait == PcxCost(ps, n) + p.wait
  {
    if n > 1 {
      PcxHead(ps, p, n - 1);
    }
  }

  lemma {:induction false} PcxTail(ps: seq<Pcx>, n: nat)
    requires 0 < n <= |ps| && ps[0].wait > 0
    ensures PcxCost(ps, n) == 8 + ps[0].wait + PcxCost(ps[1..], n - 1)
  {
    if n > 1 {
      PcxTail(ps, n - 1);
    }
  }

  lemma {:induction false} PcxPrefix(ps: seq<Pcx>, p: Pcx, n: nat)
    requires n <= |ps|
    ensures PcxCost(ps + [p], n) == PcxCost(ps, n)
  {
    if n > 0 {
      PcxPrefix(ps, p, n - 1);
    }
  }

  // ---------- one step ----------

  lemma PcxReady(s: State, delay: nat)
    requires Ready(s) && s.pcx != [] && delay <= 7
    ensures Ready(HandlePcx(s, delay))
  {
    var s', p := HandlePcx(s, delay), s.pcx[0];
    assert p in s.pcx;
    forall q | q in s'.pcx
      ensures q.wait >= 1
    {
      assert q in s.pcx || q == p.(wait := p.wait - 1);
    }
  }

  lemma PcxPending(s: State, delay: nat)
    requires s.pcx != []
    ensures Pending(HandlePcx(s, delay)) == Pending(s)
  {
    hide CpxSeen;
    hide PcxSeen;
    var p := s.pcx[0];
    PcxSeenHead(s.pcx);
    if p.wait == 1 {
      CpxSeenLast(s.cpx, Cpx(delay, delay + 1, 1, p.cpu, p.word));
      Regroup(CpxSeen(s.cpx), Seen(RequestOf(p.cpu), p.word), PcxSeen(s.pcx[1..]));
    } else {
      var ps := [p.(wait := p.wait - 1)] + s.pcx[1..];
      PcxSeenHead(ps);
      assert ps[1..] == s.pcx[1..];
    }
  }

  lemma Regroup(a: seq<Seen>, w: Seen, b: seq<Seen>)
    ensures (a + [w]) + b == a + ([w] + b)
  {
  }

  lemma PcxCosts(s: State, delay: nat, n: nat)
    requires s.pcx != [] && s.pcx[0].wait >= 1 && delay <= 7 && n <= Waiting(s)
    ensures Waiting(HandlePcx(s, delay)) == Waiting(s)
    ensures var s' := HandlePcx(s, delay);
      if n <= |s.cpx| then Cost(s', n) == Cost(s, n) else Cost(s', n) < Cost(s, n)
  {
    var p := s.pcx[0];
    var c := Cpx(delay, delay + 1, 1, p.cpu, p.word);
    if p.wait == 1 {
      CpxPrefix(s.cpx, c, if n <= |s.cpx| then n else |s.cpx|);
      if n > |s.cpx| {
        PcxTail(s.pcx, n - |s.cpx|);
        assert CpxCost(s.cpx + [c], |s.cpx| + 1) == CpxCost(s.cpx, |s.cpx|) + Left(c);
      }
    } else if n > |s.cpx| {
      PcxHead(s.pcx, p.(wait := p.wait - 1), n - |s.cpx|);
    }
  }

  // handle_pcx keeps everything, and costs a step of the event at its head.
  lemma PcxStep(s: State, delay: nat)
    requires Ready(s) && s.pcx != [] && delay <= 7
    ensures var s' := HandlePcx(s, delay);
      && Ready(s') && Pending(s') == Pending(s) && Waiting(s') == Waiting(s)
      && (s.cpx != [] ==> s'.cpx != [] && s'.cpx[0] == s.cpx[0])
      && (s.cpx == [] ==> s'.cpx == [] || s'.cpx[0].sent == 1)
  {
    hide Ready;
    hide Pending;
    hide Cost;
    PcxReady(s, delay);
    PcxPending(s, delay);
    assert s.pcx[0].wait >= 1 by {
      FirstWaits(s);
    }
    PcxCosts(s, delay, 0);
  }

  lemma FirstWaits(s: State)
    requires Ready(s) && s.pcx != []
    ensures s.pcx[0].wait >= 1
  {
    assert s.pcx[0] in s.pcx;
  }

  // handle_cpx: the selector of its core never stands in a packet's way.  A packet
  // whose request went out one step before is due.
  lemma CpxStep(s: State)
    requires Ready(s) && s.cpx != []
    ensures var s', c := HandleCpx(s), s.cpx[0];
      && s'.pcx == s.pcx && Pending(s') == Pending(s) && s'.nextCpx == s.nextCpx && s'.cpx != []
      && s'.cpx[1..] == s.cpx[1..] && s'.cpx[0].cpu == c.cpu && s'.cpx[0].word == c.word && Fits(s'.cpx[0])
      && (s'.pktVld <==> c.sent == 2)
      && (Asks(Waited(c)) <==> c.sent == 1 && s'.cpx[0].sent == 2)
      && (Asks(Waited(c)) ==> s.qsel[c.cpu] != 2)
      && (c.sent == 1 ==> Left(s'.cpx[0]) + 1 == Left(c))
      && (if c.sent == 1 && s'.cpx[0].sent == 2 then
            s'.req == RequestOf(c.cpu) && s'.nextReq && s'.cpx[0].cpxWait == 1
            && forall k :: 0 <= k < CORES ==> s'.qsel[k] == if k == c.cpu then 1 else 0
          else s'.req == 0 && s'.nextReq == s.nextReq && s'.qsel == s.qsel && s'.grant == s.grant)
  {
    assert Fits(s.cpx[0]);
    assert CpxSeen(HandleCpx(s).cpx) == CpxSeen(s.cpx);
  }

  // drive_cpx finds a packet when it is told there is one.
  predicate Drivable(s: State, delay: nat) {
    |s.qsel| == CORES && (DoIob(s, delay).pktVld ==> DoIob(s, delay).cpx != [])
  }

  // One tick of the bridge: do_iob, drive_cpx, drive_req.
  function Tick(s: State, delay: nat): (State, Option<int>)
    requires Drivable(s, delay)
  {
    var (s1, out) := DriveCpx(DoIob(s, delay));
    (DriveReq(s1), out)
  }

  // Where do_iob stands when it turns to the second queue.
  function Queued(s: State, delay: nat): State
    requires |s.qsel| == CORES
  {
    if Serve(s).pcx != [] then HandlePcx(Serve(s), delay) else Serve(s)
  }

  lemma QueuedIs(s: State, delay: nat)
    requires Inv(s) && delay <= 7
    ensures var q := Queued(s, delay);
      && Ready(q) && Pending(q) == Pending(s) && Waiting(q) == Waiting(s)
      && (s.cpx != [] ==> q.cpx != [] && q.cpx[0] == s.cpx[0])
      && (s.cpx == [] ==> q.cpx == [] || q.cpx[0].sent == 1)
      && DoIob(s, delay) == if q.cpx != [] then HandleCpx(q) else q
  {
    hide Ready;
    hide HandleCpx;
    ServeReadies(s);
    if s.pcx != [] {
      PcxStep(Serve(s), delay);
    }
  }

  // Turning to the second queue costs nothing, and a step where there is none.
  lemma QueuedCosts(s: State, delay: nat, n: nat)
    requires Inv(s) && delay <= 7 && n <= Waiting(s)
    ensures var q := Queued(s, delay);
      && Waiting(q) == Waiting(s) && Cost(q, n) <= Cost(s, n)
      && (n > 0 && q.cpx == [] ==> Cost(q, n) < Cost(s, n))
  {
    hide Ready;
    hide Served;
    hide Shifted;
    hide CpxCost;
    hide PcxCost;
    ServeReadies(s);
    if s.pcx != [] {
      FirstWaits(Serve(s));
      PcxCosts(Serve(s), delay, n);
    }
  }

  // The head of the second queue is due: its request went out in the last step.
  predicate Due(s: State) {
    s.cpx != [] && s.cpx[0].sent == 2
  }

  // What a tick does: it keeps the invariant; it drives a word exactly when a request
  // went out in the tick before, and then that packet's; and no word is lost, doubled
  // or overtaken.
  lemma TickStep(s: State, delay: nat)
    requires Inv(s) && delay <= 7
    ensures Drivable(s, delay)
    ensures var (s', out) := Tick(s, delay);
      && Inv(s') && (out.Some? <==> Due(s))
      && Pending(s) == (if out.Some? then [Seen(s.grant, out.value)] else []) + Pending(s')
  {
    var q := Queued(s, delay);
    QueuedIs(s, delay);
    if q.cpx != [] {
      CpxStep(q);
      if q.cpx[0].sent == 2 {
        Drives(q);
      } else {
        Waits(q);
      }
    }
  }

  // How many of the first n words still wait behind a tick.
  function Behind(s: State, n: nat): nat {
    if Due(s) && n > 0 then n - 1 else n
  }

  // Every tick shortens the way of the first n words, whatever waits behind them.
  lemma TickCosts(s: State, delay: nat, n: nat)
    requires Inv(s) && delay <= 7 && 0 < n <= Waiting(s) && Drivable(s, delay)
    ensures var s' := Tick(s, delay).0; Behind(s, n) <= Waiting(s') && Cost(s', Behind(s, n)) < Cost(s, n)
  {
    hide Inv;
    hide HandleCpx;
    hide CpxCost;
    hide PcxCost;
    var q := Queued(s, delay);
    QueuedIs(s, delay);
    QueuedCosts(s, delay, n);
    if q.cpx != [] {
      if q.cpx[0].sent == 2 {
        DrivesTo(q);
        DrivesCosts(q, n);
      } else {
        WaitsCosts(q, n);
      }
    } else {
      Idles(s, delay);
    }
  }

  // A tick with nothing in the second queue.
  lemma Idles(s: State, delay: nat)
    requires Inv(s) && delay <= 7 && Queued(s, delay).cpx == [] && Drivable(s, delay)
    ensures var (s', out) := Tick(s, delay);
      var q := Queued(s, delay); !Due(s) && s'.cpx == q.cpx && s'.pcx == q.pcx
  {
    QueuedIs(s, delay);
  }

  // What is left when the head has been driven.
  function Driven(q: State): State
    requires q.cpx != []
  {
    q.(cpx := q.cpx[1..], pktVld := false, nextCpx := true, grant := 0, nextReq := false, req := 0)
  }

  lemma DrivesTo(q: State)
    requires Ready(q) && q.cpx != [] && q.cpx[0].sent == 2
    ensures HandleCpx(q).pktVld && HandleCpx(q).cpx != []
    ensures var (s1, out) := DriveCpx(HandleCpx(q)); out == Some(q.cpx[0].word) && DriveReq(s1) == Driven(q)
  {
    CpxStep(q);
    assert q.cpx[0].cpxWait == 1;
  }

  lemma DrivesKeeps(q: State)
    requires Ready(q) && q.cpx != []
    ensures Inv(Driven(q))
  {
  }

  lemma DrivesOne(q: State)
    requires q.cpx != [] && q.cpx[0].sent == 2
    ensures Pending(q) == [Seen(RequestOf(q.cpx[0].cpu), q.cpx[0].word)] + Pending(Driven(q))
  {
    hide CpxSeen;
    hide PcxSeen;
    CpxSeenHead(q.cpx);
  }

  lemma DrivesCosts(q: State, n: nat)
    requires q.cpx != [] && q.cpx[0].sent == 2 && 0 < n <= Waiting(q)
    ensures Waiting(Driven(q)) == Waiting(q) - 1 && Cost(Driven(q), n - 1) < Cost(q, n)
  {
    CpxTail(q.cpx, if n <= |q.cpx| then n else |q.cpx|);
  }

  // A tick whose head is due.
  lemma Drives(q: State)
    requires Ready(q) && q.cpx != [] && q.cpx[0].sent == 2
    ensures var (s1, out) := DriveCpx(HandleCpx(q));
      && HandleCpx(q).pktVld && HandleCpx(q).cpx != []
      && out == Some(q.cpx[0].word) && Inv(DriveReq(s1))
      && Pending(q) == [Seen(RequestOf(q.cpx[0].cpu), q.cpx[0].word)] + Pending(DriveReq(s1))
  {
    hide Inv;
    hide Ready;
    hide HandleCpx;
    DrivesTo(q);
    DrivesKeeps(q);
    DrivesOne(q);
  }

  // A tick whose head is not.
  lemma Waits(q: State)
    requires Ready(q) && q.cpx != [] && q.cpx[0].sent == 1
    ensures var (s1, out) := DriveCpx(HandleCpx(q));
      !HandleCpx(q).pktVld && out == None && Inv(DriveReq(s1)) && Pending(q) == Pending(DriveReq(s1))
  {
    CpxStep(q);
  }

  lemma WaitsCosts(q: State, n: nat)
    requires Ready(q) && q.cpx != [] && q.cpx[0].sent == 1 && 0 < n <= Waiting(q)
    ensures var s' := DriveReq(DriveCpx(HandleCpx(q)).0);
      !HandleCpx(q).pktVld && Waiting(s') == Waiting(q) && Cost(s', n) < Cost(q, n)
  {
    CpxStep(q);
    var h := HandleCpx(q);
    CpxHead(q.cpx, h.cpx[0], if n <= |q.cpx| then n else |q.cpx|);
    assert h.cpx == [h.cpx[0]] + q.cpx[1..];
  }

  // ---------- whole runs ----------

  // gen_event queues a packet; a tick lets time pass.
  datatype Op = Queue(cpu: Core, word: int) | Time(delay: nat)

  function Queuing(s: State, cpu: Core, word: int, wait: int): State {
    s.(pcx := s.pcx + [Pcx(wait, cpu, word)])
  }

  lemma QueueKeeps(s: State, cpu: Core, word: int, wait: int)
    requires Inv(s) && wait >= 1
    ensures Inv(Queuing(s, cpu, word, wait))
    ensures Pending(Queuing(s, cpu, word, wait)) == Pending(s) + [Seen(RequestOf(cpu), word)]
  {
    var s' := Queuing(s, cpu, word, wait);
    assert PcxSeen(s'.pcx) == PcxSeen(s.pcx) + [Seen(RequestOf(cpu), word)];
  }

  // Delays are what random() & 7 can give.
  predicate Plausible(ops: seq<Op>) {
    forall i :: 0 <= i < |ops| && ops[i].Time? ==> ops[i].delay <= 7
  }

  // The state after a run from s, and what the crossbar saw: each word that was driven
  // and the request that stood when its tick began.
  function RunOf(s: State, ops: seq<Op>): (r: (State, seq<Seen>))
    requires Inv(s) && Plausible(ops)
    ensures Inv(r.0)
  {
    if ops == [] then (s, [])
    else
      var o := ops[|ops| - 1];
      var (t, driven) := RunOf(s, ops[..|ops| - 1]);
      match o
      case Queue(cpu, word) =>
        QueueKeeps(t, cpu, word, EVENT_WAIT);
        (Queuing(t, cpu, word, EVENT_WAIT), driven)
      case Time(delay) =>
        TickStep(t, delay);
        var (t', out) := Tick(t, delay);
        (t', if out.Some? then driven + [Seen(t.grant, out.value)] else driven)
  }

  function QueuedIn(ops: seq<Op>): seq<Seen> {
    if ops == [] then []
    else
      var o := ops[|ops| - 1];
      QueuedIn(ops[..|ops| - 1]) + if o.Queue? then [Seen(RequestOf(o.cpu), o.word)] else []
  }

  // Over every run each interrupt leaves once, in the order the interrupts were
  // queued and with its own word: what was waiting and what was queued since is what
  // was driven and what still waits.
  lemma {:induction false} RunConserves(s: State, ops: seq<Op>)
    requires Inv(s) && Plausible(ops)
    ensures Pending(s) + QueuedIn(ops) == RunOf(s, ops).1 + Pending(RunOf(s, ops).0)
  {
    hide Inv;
    hide Pending;
    hide Tick;
    hide Drivable;
    if ops == [] {
      assert Pending(s) + [] == [] + Pending(s);
    } else {
      var init, o := ops[..|ops| - 1], ops[|ops| - 1];
      RunConserves(s, init);
      var (t, driven) := RunOf(s, init);
      match o
      case Queue(cpu, word) =>
        QueueKeeps(t, cpu, word, EVENT_WAIT);
        Joins(Pending(s), QueuedIn(init), driven, Pending(t), [Seen(RequestOf(cpu), word)]);
      case Time(delay) =>
        TickStep(t, delay);
        var (t', out) := Tick(t, delay);
        Moves(driven, if out.Some? then [Seen(t.grant, out.value)] else [], Pending(t), Pending(t'));
        assert driven + [] == driven && QueuedIn(init) + [] == QueuedIn(init);
    }
  }

  lemma Joins(a: seq<Seen>, b: seq<Seen>, c: seq<Seen>, d: seq<Seen>, w: seq<Seen>)
    requires a + b == c + d
    ensures a + (b + w) == c + (d + w)
  {
    assert a + (b + w) == (a + b) + w;
    assert c + (d + w) == (c + d) + w;
  }

  lemma Moves(driven: seq<Seen>, out: seq<Seen>, p: seq<Seen>, p': seq<Seen>)
    requires p == out + p'
    ensures driven + p == driven + out + p'
  {
    assert driven + (out + p') == driven + out + p';
  }

  // The ticks of a run.
  function TicksIn(ops: seq<Op>): nat {
    if ops == [] then 0 else TicksIn(ops[..|ops| - 1]) + if ops[|ops| - 1].Time? then 1 else 0
  }

  lemma QueueCosts(s: State, cpu: Core, word: int, wait: int, n: nat)
    requires n <= Waiting(s)
    ensures Waiting(Queuing(s, cpu, word, wait)) == Waiting(s) + 1
    ensures Cost(Queuing(s, cpu, word, wait), n) == Cost(s, n)
  {
    if n > |s.cpx| {
      PcxPrefix(s.pcx, Pcx(wait, cpu, word), n - |s.cpx|);
    }
  }

  // Of the words that waited before a run, those still to be driven.
  function StillOf(s: State, ops: seq<Op>): nat
    requires Inv(s) && Plausible(ops)
  {
    var driven := |RunOf(s, ops).1|;
    if driven < Waiting(s) then Waiting(s) - driven else 0
  }

  // Every tick of a run, whatever is queued in between, takes a step off the way of
  // the words that waited before it.
  lemma {:induction false} RunCosts(s: State, ops: seq<Op>)
    requires Inv(s) && Plausible(ops)
    ensures var k := StillOf(s, ops);
      k <= Waiting(RunOf(s, ops).0) && (k > 0 ==> Cost(RunOf(s, ops).0, k) + TicksIn(ops) <= Cost(s, Waiting(s)))
  {
    hide Inv;
    hide Cost;
    hide Tick;
    hide Drivable;
    if ops != [] {
      var init, o := ops[..|ops| - 1], ops[|ops| - 1];
      RunCosts(s, init);
      var t := RunOf(s, init).0;
      var k := StillOf(s, init);
      match o
      case Queue(cpu, word) =>
        QueueKeeps(t, cpu, word, EVENT_WAIT);
        QueueCosts(t, cpu, word, EVENT_WAIT, k);
      case Time(delay) =>
        TickStep(t, delay);
        if k > 0 {
          TickCosts(t, delay, k);
        }
    }
  }

  lemma CostsSomething(t: State, n: nat)
    requires 0 < n <= Waiting(t)
    ensures Cost(t, n) > 0
  {
    if n <= |t.cpx| {
      CpxTail(t.cpx, n);
    }
  }

  // Nothing waits for ever: in every run, whatever is queued meanwhile and whatever
  // random() gives, once the clock has ticked as often as the words of the queues
  // cost, they have been driven, in order and before anything queued since.
  lemma {:induction false} AllDelivered(s: State, ops: seq<Op>)
    requires Inv(s) && Plausible(ops) && TicksIn(ops) >= Cost(s, Waiting(s))
    ensures Pending(s) <= RunOf(s, ops).1
  {
    hide Inv;
    RunCosts(s, ops);
    RunConserves(s, ops);
    var (t, driven) := RunOf(s, ops);
    var k := StillOf(s, ops);
    if k > 0 {
      CostsSomething(t, k);
    }
    PrefixOf(Pending(s), QueuedIn(ops), driven, Pending(t));
  }

  lemma PrefixOf(a: seq<Seen>, b: seq<Seen>, c: seq<Seen>, d: seq<Seen>)
    requires a + b == c + d && |a| <= |c|
    ensures a <= c
  {
    assert (a + b)[..|a|] == a && (c + d)[..|a|] == c[..|a|];
  }

  // ---------- exactly when a packet leaves ----------

  // One tick for the packet at the head of the second queue.
  lemma HeadTick(s: State, delay: nat)
    requires Inv(s) && delay <= 7 && s.cpx != [] && Drivable(s, delay)
    ensures var (s', out), c := Tick(s, delay), s.cpx[0];
      if Left(c) == 1 then out == Some(c.word)
      else
        && out == None && s'.cpx != []
        && s'.cpx[0].cpu == c.cpu && s'.cpx[0].word == c.word && Left(s'.cpx[0]) == Left(c) - 1
  {
    hide Inv;
    hide Ready;
    hide HandleCpx;
    var q := Queued(s, delay);
    QueuedIs(s, delay);
    HeadFits(q);
    CpxStep(q);
    if q.cpx[0].sent == 2 {
      DrivesTo(q);
    }
  }

  lemma HeadFits(q: State)
    requires Ready(q) && q.cpx != []
    ensures q.cpx[0].sent == 1 || q.cpx[0].sent == 2
  {
  }

  // A packet at the head of the second queue is driven in the tick its waits name, one
  // more than its request's, and nothing is before.
  lemma {:induction false} HeadExact(s: State, ops: seq<Op>)
    requires Inv(s) && Plausible(ops) && s.cpx != [] && TicksIn(ops) <= Left(s.cpx[0])
    ensures var ((t, driven), c) := (RunOf(s, ops), s.cpx[0]);
      if TicksIn(ops) == Left(c) then driven == [Seen(RequestOf(c.cpu), c.word)]
      else driven == [] && t.cpx != [] && t.cpx[0].cpu == c.cpu && t.cpx[0].word == c.word
           && Left(t.cpx[0]) == Left(c) - TicksIn(ops)
  {
    hide Inv;
    hide Tick;
    hide Drivable;
    hide Left;
    LeftPositive(s.cpx[0]);
    if ops != [] {
      var init, o := ops[..|ops| - 1], ops[|ops| - 1];
      HeadExact(s, init);
      var t := RunOf(s, init).0;
      if o.Time? {
        TickStep(t, o.delay);
        HeadTick(t, o.delay);
        if Left(t.cpx[0]) == 1 {
          DueStands(t);
        }
      }
    }
  }

  lemma LeftPositive(c: Cpx)
    ensures Left(c) > 0
  {
  }

  lemma DueStands(t: State)
    requires Inv(t) && t.cpx != [] && Left(t.cpx[0]) == 1
    ensures Due(t) && t.grant == RequestOf(t.cpx[0].cpu)
  {
  }

  // One tick for the event at the head of the first queue while the second is empty.
  lemma EventTick(s: State, delay: nat)
    requires Inv(s) && delay <= 7 && s.cpx == [] && s.pcx != [] && Drivable(s, delay)
    ensures var (s', out), p := Tick(s, delay), s.pcx[0];
      && out == None
      && if p.wait > 1 then s'.cpx == [] && s'.pcx != [] && s'.pcx[0] == p.(wait := p.wait - 1)
         else |s'.cpx| == 1 && s'.cpx[0].cpu == p.cpu && s'.cpx[0].word == p.word
              && Left(s'.cpx[0]) == if delay == 0 then 1 else delay
  {
    hide Served;
    hide Shifted;
    ServeReadies(s);
    FirstWaits(Serve(s));
    QueuedIs(s, delay);
  }

  // An event with nothing before it stays in the first queue for exactly its delay.
  lemma {:induction false} EventExact(s: State, ops: seq<Op>)
    requires Inv(s) && Plausible(ops) && s.cpx == [] && s.pcx != [] && TicksIn(ops) < s.pcx[0].wait
    ensures var ((t, driven), p) := (RunOf(s, ops), s.pcx[0]);
      driven == [] && t.cpx == [] && t.pcx != [] && t.pcx[0] == p.(wait := p.wait - TicksIn(ops))
  {
    hide Inv;
    hide Tick;
    hide Drivable;
    if ops != [] {
      var init, o := ops[..|ops| - 1], ops[|ops| - 1];
      EventExact(s, init);
      var t := RunOf(s, init).0;
      if o.Time? {
        TickStep(t, o.delay);
        EventTick(t, o.delay);
      }
    }
  }

  // A run in two parts.
  lemma {:induction false} RunJoins(s: State, a: seq<Op>, b: seq<Op>)
    requires Inv(s) && Plausible(a) && Plausible(b)
    ensures Plausible(a + b)
    ensures var (t, driven) := RunOf(s, a); var (t', driven') := RunOf(t, b);
      RunOf(s, a + b) == (t', driven + driven')
  {
    hide Inv;
    hide Tick;
    hide Drivable;
    var (t, driven) := RunOf(s, a);
    if b == [] {
      assert a + b == a && driven + [] == driven;
    } else {
      var init, o := b[..|b| - 1], b[|b| - 1];
      RunJoins(s, a, init);
      assert (a + b)[..|a + b| - 1] == a + init && (a + b)[|a + b| - 1] == o;
      var (t', driven') := RunOf(t, init);
      match o
      case Queue(_, _) =>
      case Time(delay) =>
        TickStep(t', delay);
        var out := Tick(t', delay).1;
        if out.Some? {
          assert driven + driven' + [Seen(t'.grant, out.value)] == driven + (driven' + [Seen(t'.grant, out.value)]);
        }
    }
  }

  // An event with nothing before it: where random() gives d in the tick that ends its
  // delay, it is driven max(1, d) ticks later, with its core's request, and nothing
  // is driven before; whatever is queued meanwhile.
  lemma {:induction false} EventLeaves(s: State, pre: seq<Op>, d: nat, post: seq<Op>)
    requires Inv(s) && Plausible(pre) && d <= 7 && Plausible(post) && s.cpx == [] && s.pcx != []
    requires TicksIn(pre) == s.pcx[0].wait - 1 && TicksIn(post) <= if d == 0 then 1 else d
    ensures Plausible(pre + [Time(d)] + post)
    ensures RunOf(s, pre + [Time(d)] + post).1
         == if TicksIn(post) == (if d == 0 then 1 else d) then [Seen(RequestOf(s.pcx[0].cpu), s.pcx[0].word)] else []
  {
    hide Inv;
    hide Tick;
    hide Drivable;
    hide Left;
    EventExact(s, pre);
    var t := RunOf(s, pre).0;
    TickStep(t, d);
    EventTick(t, d);
    var run := pre + [Time(d)];
    assert run[..|run| - 1] == pre;
    HeadExact(RunOf(s, run).0, post);
    RunJoins(s, run, post);
  }

  // So it is for an interrupt that is queued while the bridge is idle: it waits three
  // ticks first.
  lemma {:induction false} IdleDrives(s: State, cpu: Core, word: int, pre: seq<Op>, d: nat, post: seq<Op>)
    requires Inv(s) && Plausible(pre) && d <= 7 && Plausible(post) && s.cpx == [] && s.pcx == []
    requires TicksIn(pre) == 2 && TicksIn(post) <= if d == 0 then 1 else d
    ensures Plausible([Queue(cpu, word)] + (pre + [Time(d)] + post))
    ensures RunOf(s, [Queue(cpu, word)] + (pre + [Time(d)] + post)).1
         == if TicksIn(post) == (if d == 0 then 1 else d) then [Seen(RequestOf(cpu), word)] else []
  {
    hide Inv;
    hide Tick;
    hide Drivable;
    hide TicksIn;
    QueueKeeps(s, cpu, word, EVENT_WAIT);
    var first := [Queue(cpu, word)];
    assert first[..|first| - 1] == [] && RunOf(s, []) == (s, []);
    var t := RunOf(s, first).0;
    assert t.pcx == [Pcx(3, cpu, word)] && t.cpx == [];
    EventLeaves(t, pre, d, post);
    RunJoins(s, first, pre + [Time(d)] + post);
  }

  // ---------- events ----------

  // A record of the event list: `left` is how often it is still to be raised.
  datatype Event = Event(cpu: Core, word: int, left: nat)

  // The records a trigger raises, in order.
  function Raised(es: seq<Event>): seq<Op> {
    if es == [] then []
    else
      var e := es[|es| - 1];
      Raised(es[..|es| - 1]) + if e.left > 0 then [Queue(e.cpu, e.word)] else []
  }

  function CountedDown(e: Event): Event {
    if e.left > 0 then e.(left := e.left - 1) else e
  }

  function AllCounted(es: seq<Event>): (r: seq<Event>)
    ensures |r| == |es| && forall i :: 0 <= i < |es| ==> r[i] == CountedDown(es[i])
  {
    seq(|es|, i requires 0 <= i < |es| => CountedDown(es[i]))
  }

  // gen_event
  function Generated(s: State, es: seq<Event>): State {
    if es == [] then s
    else
      var t, e := Generated(s, es[..|es| - 1]), es[|es| - 1];
      if e.left > 0 then Queuing(t, e.cpu, e.word, EVENT_WAIT) else t
  }

  // A trigger is part of a run.
  lemma {:induction false} GeneratedIsRun(s: State, es: seq<Event>)
    requires Inv(s)
    ensures Plausible(Raised(es)) && RunOf(s, Raised(es)) == (Generated(s, es), []) && TicksIn(Raised(es)) == 0
  {
    hide Inv;
    if es != [] {
      var init, e := es[..|es| - 1], es[|es| - 1];
      GeneratedIsRun(s, init);
      if e.left > 0 {
        assert Raised(es)[..|Raised(init)|] == Raised(init);
      } else {
        assert Raised(es) == Raised(init);
      }
    }
  }

  // The list after k triggers.
  function AfterTriggers(es: seq<Event>, k: nat): (r: seq<Event>)
    ensures |r| == |es|
  {
    if k == 0 then es else AllCounted(AfterTriggers(es, k - 1))
  }

  // The words of the records that ask to be raised more than k times.
  function AskedAbove(es: seq<Event>, k: nat): seq<Seen> {
    if es == [] then []
    else
      var e := es[|es| - 1];
      AskedAbove(es[..|es| - 1], k) + if e.left > k then [Seen(RequestOf(e.cpu), e.word)] else []
  }

  // A record is raised by exactly as many triggers as it asks for, the first ones, and
  // the records of one trigger in the order of the list.
  lemma {:induction false} TriggerRaises(es: seq<Event>, k: nat)
    ensures QueuedIn(Raised(AfterTriggers(es, k))) == AskedAbove(es, k)
  {
    forall i | 0 <= i < |es|
      ensures AfterTriggers(es, k)[i] == es[i].(left := if es[i].left > k then es[i].left - k else 0)
    {
      LeftAfter(es, k, i);
    }
    RaisedWords(AfterTriggers(es, k), es, k);
  }

  lemma {:induction false} LeftAfter(es: seq<Event>, k: nat, i: nat)
    requires i < |es|
    ensures AfterTriggers(es, k)[i] == es[i].(left := if es[i].left > k then es[i].left - k else 0)
  {
    if k > 0 {
      LeftAfter(es, k - 1, i);
    }
  }

  lemma {:induction false} RaisedWords(now: seq<Event>, es: seq<Event>, k: nat)
    requires |now| == |es|
    requires forall i :: 0 <= i < |es| ==> now[i] == es[i].(left := if es[i].left > k then es[i].left - k else 0)
    ensures QueuedIn(Raised(now)) == AskedAbove(es, k)
  {
    if es != [] {
      var m := |es| - 1;
      RaisedWords(now[..m], es[..m], k);
      assert now[m] == es[m].(left := if es[m].left > k then es[m].left - k else 0);
      if now[m].left > 0 {
        assert Raised(now)[..|Raised(now[..m])|] == Raised(now[..m]);
      } else {
        assert Raised(now) == Raised(now[..m]);
      }
    }
  }

  // ---------- the first packet ----------

  const NO_THREAD: nat := 128

  // The boot thread: the lowest bit set in the mask, looked for from bit i on.
  function BootThread(mask: int, i: nat): (t: nat)
    requires i <= NO_THREAD
    decreases NO_THREAD - i
  {
    if i == NO_THREAD || mask % 2 == 1 then i else BootThread(mask / 2, i + 1)
  }

  lemma {:induction false} ShiftedMore(mask: int, n: nat)
    ensures Shifted(mask / 2, n) == Shifted(mask, n + 1)
  {
    if n > 0 {
      ShiftedMore(mask, n - 1);
    }
  }

  lemma {:induction false} LowestBit(mask: int, i: nat, n: nat)
    requires mask != 0 && 0 <= mask + Pow2(n) && mask < Pow2(n) && i + n < NO_THREAD
    ensures var t := BootThread(mask, i);
      && i <= t <= i + n && Shifted(mask, t - i) % 2 == 1
      && forall j :: 0 <= j < t - i ==> Shifted(mask, j) % 2 == 0
    decreases n
  {
    if mask % 2 == 0 {
      assert n > 0;
      LowestBit(mask / 2, i + 1, n - 1);
      var t := BootThread(mask, i);
      ShiftedMore(mask, t - i - 1);
      forall j | 0 <= j < t - i
        ensures Shifted(mask, j) % 2 == 0
      {
        if j > 0 {
          ShiftedMore(mask, j - 1);
        }
      }
    }
  }

  function BootWord(t: nat): int {
    0x1_0000 + t % 128 * 0x4_0000 + t % 4 * 0x400 + 1
  }

  // Its fields: the number of the thread, its place in its core, and two set bits.
  lemma BootWordIs(t: nat)
    ensures var w := BootWord(t);
      w / 0x4_0000 == t % 128 && w / 0x1_0000 % 4 == 1 && w / 0x400 % 64 == t % 4 && w % 0x400 == 1
  {
    var w, a, b := BootWord(t), t % 128, t % 4;
    Quotient(w, 0x4_0000, a, 0x1_0000 + 0x400 * b + 1);
    Quotient(w, 0x1_0000, 4 * a + 1, 0x400 * b + 1);
    Quotient(w, 0x400, 256 * a + 64 + b, 1);
  }

  function BootSeen(t: nat): Seen {
    Seen(RequestOf(t / 4 % 8), BootWord(t))
  }

  // manual_init
  function Booted(mask: int): State {
    var t := BootThread(mask, 0);
    Queuing(Reset(), t / 4 % 8, BootWord(t), BOOT_WAIT)
  }

  // The bridge starts as every tick leaves it, the boot packet at most nine ticks from
  // leaving.
  lemma {:induction false} BootStarts(mask: int)
    ensures Inv(Booted(mask)) && Pending(Booted(mask)) == [BootSeen(BootThread(mask, 0))]
    ensures Cost(Booted(mask), Waiting(Booted(mask))) == 9
  {
    hide BootThread;
    hide BootWord;
    var t := BootThread(mask, 0);
    var s := Booted(mask);
    assert Pending(Reset()) == [];
    QueueKeeps(Reset(), t / 4 % 8, BootWord(t), BOOT_WAIT);
    assert s.cpx == [] && s.pcx == [Pcx(BOOT_WAIT, t / 4 % 8, BootWord(t))];
    assert PcxCost(s.pcx, 0) == 0 && PcxCost(s.pcx, 1) == 9;
  }

  // The boot thread is the lowest of the mask; an empty mask boots as thread 0.
  lemma {:induction false} BootsLowest(mask: int)
    requires -0x8000_0000 <= mask < 0x8000_0000
    ensures var t := BootThread(mask, 0);
      if mask == 0 then t == NO_THREAD && t / 4 % 8 == 0 && BootWord(t) == BootWord(0)
      else t < 32 && Shifted(mask, t) % 2 == 1 && forall j :: 0 <= j < t ==> Shifted(mask, j) % 2 == 0
  {
    if mask == 0 {
      NoBit(0);
    } else {
      Pow2Int();
      LowestBit(mask, 0, 31);
    }
  }

  lemma {:induction false} NoBit(i: nat)
    requires i <= NO_THREAD
    ensures BootThread(0, i) == NO_THREAD
    decreases NO_THREAD - i
  {
    if i < NO_THREAD {
      NoBit(i + 1);
    }
  }
}
