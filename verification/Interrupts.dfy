// The interrupt bridge of iob.cc as the objects it updates: two queues of packets, a
// pool of used packets behind each, selectors and flags.
module Interrupts {
  import opened Common
  import opened InterruptSpec

  class PcxPacket {
    var cpuId: Core
    var wait: int
    var word: int       // pkt[3]

    constructor ()
    {
      cpuId, wait, word := 0, 0, 0;
    }

    // get_delay
    method GetDelay() returns (w: int)
      modifies this`wait
      ensures w == wait == old(wait) - 1
    {
      wait := wait - 1;
      w := wait;
    }

    ghost predicate Is(p: Pcx)
      reads this
    {
      wait == p.wait && cpuId == p.cpu && word == p.word
    }
  }

  class CpxPacket {
    var reqWait: nat
    var cpxWait: nat
    var reqSent: nat
    var req: int
    var cpuId: Core
    var word: int       // cpx_pkt[4]

    constructor ()
    {
      reqWait, cpxWait, reqSent, req, cpuId, word := 0, 0, 0, 0, 0, 0;
    }

    ghost predicate Is(c: Cpx)
      reads this
    {
      reqWait == c.reqWait && cpxWait == c.cpxWait && reqSent == c.sent && cpuId == c.cpu && word == c.word
        && req == RequestOf(c.cpu)
    }

    // xlation
    method Xlation(pkt: PcxPacket, delay: nat)
      modifies this
      ensures Is(Cpx(delay, delay + 1, 1, pkt.cpuId, pkt.word))
    {
      req := RequestOf(pkt.cpuId);
      reqSent := 1;
      cpuId := pkt.cpuId;
      word := pkt.word;
      reqWait := delay;
      cpxWait := reqWait + 1;
    }

    // dec_wait
    method DecWait(ghost c: Cpx)
      requires Is(c)
      modifies this`reqWait, this`cpxWait
      ensures Is(Waited(c))
    {
      if reqWait > 0 {
        reqWait := reqWait - 1;
      }
      if cpxWait > 0 {
        cpxWait := cpxWait - 1;
      }
    }

    predicate GetReqWait()
      reads this
    {
      reqWait == 0 && reqSent == 1
    }

    predicate GetCpxWait()
      reads this
    {
      cpxWait == 0 && reqSent == 2
    }

    // get_req
    method GetReq(ghost c: Cpx) returns (r: int)
      requires Is(c)
      modifies this`reqSent, this`cpxWait
      ensures Is(Requested(c)) && r == RequestOf(c.cpu)
    {
      reqSent := 2;
      if cpxWait == 0 {
        cpxWait := 1;
      }
      r := req;
    }
  }

  // A record of the event list.
  class EventRecord {
    const cpuId: Core
    const word: int       // the packet's words, made of type, thread and vector
    var wait: nat

    constructor (cpu: Core, w: int, times: nat)
      ensures Is(Event(cpu, w, times))
    {
      cpuId, word, wait := cpu, w, times;
    }

    ghost predicate Is(e: Event)
      reads this
    {
      cpuId == e.cpu && word == e.word && wait == e.left
    }
  }

  // An object is in one place only.
  ghost predicate Distinct<T>(s: seq<T>) {
    forall i, j :: 0 <= i < j < |s| ==> s[i] != s[j]
  }

  // The front of one list moved behind the other: still every object once.
  lemma Rotates<T>(list: seq<T>, heap: seq<T>)
    requires list != [] && Distinct(list + heap)
    ensures Distinct(list[1..] + (heap + [list[0]]))
  {
    var s, t := list + heap, list[1..] + (heap + [list[0]]);
    assert forall i :: 0 <= i < |s| - 1 ==> t[i] == s[i + 1];
    assert t[|s| - 1] == s[0];
  }

  lemma OtherEvents<T>(s: seq<T>, i: nat)
    requires Distinct(s) && i < |s|
    ensures forall j :: 0 <= j < |s| && j != i ==> s[j] != s[i]
  {
  }

  lemma Joined<T>(list: seq<T>, heap: seq<T>)
    requires heap != []
    ensures (list + [heap[0]]) + heap[1..] == list + heap
  {
  }

  lemma HeadOnce<T>(list: seq<T>, heap: seq<T>)
    requires list != [] && Distinct(list + heap)
    ensures forall i :: 0 < i < |list| ==> list[i] != list[0]
  {
    assert forall i :: 0 <= i < |list| ==> (list + heap)[i] == list[i];
  }

  lemma JoinsFresh<T>(list: seq<T>, heap: seq<T>, p: T)
    requires Distinct(list + heap) && heap == [] && p !in list
    ensures Distinct((list + [p]) + heap)
  {
    assert list + heap == list && (list + [p]) + heap == list + [p];
  }

  // The loop of do_iob that serves the grant bits.
  method ServeBits(qsel: array<nat>, grant: int) returns (left: int)
    requires qsel.Length == CORES
    modifies qsel
    ensures qsel[..] == Served(old(qsel[..]), grant, 0) && left == Shifted(grant, CORES)
  {
    left := grant;
    for idx := 0 to 8
      invariant Served(qsel[..], left, idx) == Served(old(qsel[..]), grant, 0) && left == Shifted(grant, idx)
    {
      ghost var was := qsel[..];
      if left % 2 == 1 {
        if qsel[idx] > 0 {
          qsel[idx] := qsel[idx] - 1;
        }
      }
      assert qsel[..] == if left % 2 == 1 && was[idx] > 0 then was[idx := was[idx] - 1] else was;
      left := left / 2;
    }
  }

  // The loop of boot.
  method FindThread(mask: int) returns (i: nat)
    ensures i == BootThread(mask, 0)
  {
    i := 0;
    var m := mask;
    while i < NO_THREAD
      invariant i <= NO_THREAD && BootThread(m, i) == BootThread(mask, 0)
    {
      if m % 2 == 1 {
        break;
      }
      m := m / 2;
      i := i + 1;
    }
  }

  class Iob {
    var pcxList: seq<PcxPacket>
    var pcxHeap: seq<PcxPacket>
    var cpxList: seq<CpxPacket>
    var cpxHeap: seq<CpxPacket>
    var grant: int
    var req: int
    var nextReq: bool
    var pktVld: bool
    var nextCpx: bool
    const qsel: array<nat>

    // No packet is in two places of the live queue and the pool of its kind, and the
    // queues, selectors and flags are the state's.
    ghost predicate Is(s: State)
      reads this, pcxList, cpxList, qsel
    {
      && Distinct(pcxList + pcxHeap) && Distinct(cpxList + cpxHeap)
      && |pcxList| == |s.pcx| && (forall i :: 0 <= i < |s.pcx| ==> pcxList[i].Is(s.pcx[i]))
      && |cpxList| == |s.cpx| && (forall i :: 0 <= i < |s.cpx| ==> cpxList[i].Is(s.cpx[i]))
      && FlagsAre(s)
    }

    ghost predicate FlagsAre(s: State)
      reads this, qsel
    {
      && qsel.Length == CORES && qsel[..] == s.qsel
      && grant == s.grant && req == s.req && nextReq == s.nextReq && pktVld == s.pktVld && nextCpx == s.nextCpx
    }

    ghost function AllPcx(): set<PcxPacket>
      reads this
    {
      set p | p in pcxList + pcxHeap
    }

    ghost function AllCpx(): set<CpxPacket>
      reads this
    {
      set p | p in cpxList + cpxHeap
    }

    // manual_init
    constructor (mask: int)
      ensures Is(Booted(mask)) && fresh(qsel) && pcxHeap == [] && cpxList == cpxHeap == []
    {
      pcxList, pcxHeap, cpxList, cpxHeap := [], [], [], [];
      grant, req, nextReq, pktVld, nextCpx := 0, 0, false, false, false;
      qsel := new nat[8](_ => 0);
      new;
      hide BootThread;
      hide BootWord;
      hide RequestOf;
      var thread := FindThread(mask);
      QueuePacket(thread / 4 % 8, BootWord(thread), BOOT_WAIT, Reset());
    }

    // A packet from the pool, or a new one.
    method TakePcx() returns (p: PcxPacket)
      modifies this`pcxHeap
      requires Distinct(pcxList + pcxHeap)
      ensures fresh(p) || (old(pcxHeap) != [] && p == old(pcxHeap)[0])
      ensures p !in pcxList && Distinct((pcxList + [p]) + pcxHeap)
      ensures if old(pcxHeap) == [] then pcxHeap == [] else pcxHeap == old(pcxHeap)[1..]
      ensures AllPcx() + {p} >= old(AllPcx()) && (old(pcxHeap) != [] ==> AllPcx() + {p} == old(AllPcx()))
    {
      if pcxHeap == [] {
        p := new PcxPacket();
        JoinsFresh(pcxList, pcxHeap, p);
      } else {
        p := pcxHeap[0];
        Joined(pcxList, pcxHeap);
        forall i | 0 <= i < |pcxList|
          ensures pcxList[i] != p
        {
          assert (pcxList + pcxHeap)[i] == pcxList[i] && (pcxList + pcxHeap)[|pcxList|] == p;
        }
        pcxHeap := pcxHeap[1..];
      }
    }

    method TakeCpx() returns (c: CpxPacket)
      modifies this`cpxHeap
      requires Distinct(cpxList + cpxHeap)
      ensures fresh(c) || (old(cpxHeap) != [] && c == old(cpxHeap)[0])
      ensures c !in cpxList && Distinct((cpxList + [c]) + cpxHeap)
      ensures if old(cpxHeap) == [] then cpxHeap == [] else cpxHeap == old(cpxHeap)[1..]
      ensures AllCpx() + {c} >= old(AllCpx()) && (old(cpxHeap) != [] ==> AllCpx() + {c} == old(AllCpx()))
    {
      if cpxHeap == [] {
        c := new CpxPacket();
        JoinsFresh(cpxList, cpxHeap, c);
      } else {
        c := cpxHeap[0];
        Joined(cpxList, cpxHeap);
        forall i | 0 <= i < |cpxList|
          ensures cpxList[i] != c
        {
          assert (cpxList + cpxHeap)[i] == cpxList[i] && (cpxList + cpxHeap)[|cpxList|] == c;
        }
        cpxHeap := cpxHeap[1..];
      }
    }

    // What gen_event and boot do with a packet.
    method QueuePacket(cpu: Core, word: int, wait: int, ghost s: State)
      requires Is(s) && wait >= 1
      modifies this`pcxHeap, this`pcxList, pcxHeap
      ensures Is(Queuing(s, cpu, word, wait))
      ensures pcxHeap == if old(pcxHeap) == [] then [] else old(pcxHeap)[1..]
      ensures AllPcx() >= old(AllPcx()) && (old(pcxHeap) != [] ==> AllPcx() == old(AllPcx()))
    {
      hide Distinct;
      hide RequestOf;
      var p := TakePcx();
      p.cpuId := cpu;
      p.word := word;
      p.wait := wait;
      pcxList := pcxList + [p];
      assert forall i :: 0 <= i < |s.pcx| ==> pcxList[i] != p;
    }

    // gen_event: every record that asks for more is raised and counted down.
    method GenEvent(events: seq<EventRecord>, ghost es: seq<Event>, ghost s: State)
      requires Is(s) && |events| == |es| && Distinct(events) && forall i :: 0 <= i < |es| ==> events[i].Is(es[i])
      modifies this`pcxHeap, this`pcxList, pcxHeap, events
      ensures Is(Generated(s, es)) && forall i :: 0 <= i < |es| ==> events[i].Is(CountedDown(es[i]))
      ensures AllPcx() >= old(AllPcx())
    {
      hide Distinct;
      hide Iob.Is;
      hide Queuing;
      hide RequestOf;
      hide CpxPacket.Is;
      hide PcxPacket.Is;
      assert es[..0] == [];
      for i := 0 to |events|
        invariant Is(Generated(s, es[..i])) && AllPcx() >= old(AllPcx())
        invariant forall j :: 0 <= j < i ==> events[j].Is(CountedDown(es[j]))
        invariant forall j :: i <= j < |es| ==> events[j].Is(es[j])
        invariant forall j :: 0 <= j < |pcxHeap| ==> pcxHeap[j] in old(pcxHeap)
      {
        OtherEvents(events, i);
        var e := events[i];
        assert es[..i + 1][..i] == es[..i];
        if e.wait > 0 {
          QueuePacket(e.cpuId, e.word, EVENT_WAIT, Generated(s, es[..i]));
          e.wait := e.wait - 1;
        }
      }
      assert es[..|es|] == es;
    }

    // The arm of handle_pcx for a packet whose delay is over.
    method PassOn(delay: nat, ghost s: State)
      requires Is(s) && pcxList != []
      modifies this`pcxList, this`pcxHeap, this`cpxList, this`cpxHeap, cpxHeap
      ensures Is(s.(pcx := s.pcx[1..], cpx := s.cpx + [Cpx(delay, delay + 1, 1, s.pcx[0].cpu, s.pcx[0].word)]))
      ensures forall c :: c in cpxList ==> c in old(cpxList) || c in old(cpxHeap) || fresh(c)
      ensures AllPcx() == old(AllPcx()) && AllCpx() >= old(AllCpx())
        && (old(cpxHeap) != [] ==> AllCpx() == old(AllCpx()))
    {
      hide Distinct;
      hide RequestOf;
      var p := pcxList[0];
      assert p.Is(s.pcx[0]);
      Rotates(pcxList, pcxHeap);
      pcxList := pcxList[1..];
      var c := TakeCpx();
      c.Xlation(p, delay);
      cpxList := cpxList + [c];
      pcxHeap := pcxHeap + [p];
    }

    // handle_pcx
    method HandlePcx(delay: nat, ghost s: State)
      requires Is(s) && pcxList != []
      modifies this`pcxList, this`pcxHeap, this`cpxList, this`cpxHeap, pcxList[0], cpxHeap
      ensures Is(InterruptSpec.HandlePcx(s, delay))
      ensures forall c :: c in cpxList ==> c in old(cpxList) || c in old(cpxHeap) || fresh(c)
      ensures AllPcx() == old(AllPcx()) && AllCpx() >= old(AllCpx())
        && (old(cpxHeap) != [] ==> AllCpx() == old(AllCpx()))
    {
      hide Distinct;
      hide RequestOf;
      var p := pcxList[0];
      ghost var q := s.pcx[0].(wait := s.pcx[0].wait - 1);
      assert p.Is(s.pcx[0]);
      HeadOnce(pcxList, pcxHeap);
      var w := p.GetDelay();
      ghost var s1 := s.(pcx := [q] + s.pcx[1..]);
      assert p.Is(q);
      assert Is(s1);
      if w == 0 {
        assert s1.pcx[1..] == s.pcx[1..];
        PassOn(delay, s1);
      }
    }

    // What handle_cpx does to the head of the queue and the flags.
    method StepHead(c: CpxPacket, ghost s: State)
      requires s.cpx != [] && c.Is(s.cpx[0]) && FlagsAre(s)
      modifies this`req, this`nextReq, this`pktVld, c, qsel
      ensures c.Is(InterruptSpec.HandleCpx(s).cpx[0]) && FlagsAre(InterruptSpec.HandleCpx(s))
    {
      hide RequestOf;
      hide Waited;
      hide Requested;
      c.DecWait(s.cpx[0]);
      if c.GetReqWait() && qsel[c.cpuId] != 2 {
        req := c.GetReq(Waited(s.cpx[0]));
        nextReq := true;
        qsel[c.cpuId] := qsel[c.cpuId] + 1;
      }
      if c.GetCpxWait() {
        pktVld := true;
      }
    }

    // handle_cpx
    method HandleCpx(ghost s: State)
      requires Is(s) && cpxList != []
      modifies this`req, this`nextReq, this`pktVld, cpxList[0], qsel
      ensures Is(InterruptSpec.HandleCpx(s))
    {
      hide Distinct;
      hide CpxPacket.Is;
      ghost var s' := InterruptSpec.HandleCpx(s);
      assert s'.pcx == s.pcx && |s'.cpx| == |s.cpx| && s'.cpx[1..] == s.cpx[1..];
      assert forall i :: 0 < i < |s.cpx| ==> s'.cpx[i] == s.cpx[i];
      hide InterruptSpec.HandleCpx;
      HeadOnce(cpxList, cpxHeap);
      StepHead(cpxList[0], s);
    }

    // do_iob up to the queues.
    method ServeGrant(ghost s: State)
      requires Is(s)
      modifies this`grant, qsel
      ensures Is(Serve(s))
    {
      hide Served;
      hide Shifted;
      if grant != 0 {
        var left := ServeBits(qsel, grant);
        grant := left;
      }
    }

    // do_iob
    method DoIob(delay: nat, ghost s: State)
      requires Is(s)
      modifies this, pcxList, cpxList, cpxHeap, qsel
      ensures Is(InterruptSpec.DoIob(s, delay))
      ensures AllPcx() == old(AllPcx()) && AllCpx() >= old(AllCpx())
        && (old(cpxHeap) != [] ==> AllCpx() == old(AllCpx()))
    {
      ServeGrant(s);
      if pcxList != [] {
        HandlePcx(delay, Serve(s));
      }
      if cpxList != [] {
        assert cpxList[0] in cpxList;
        assert cpxList[0] in old(cpxList) || cpxList[0] in old(cpxHeap) || fresh(cpxList[0]);
        HandleCpx(Queued(s, delay));
      }
    }

    // drive_cpx: whether a packet is driven, and its word.
    method DriveCpx(ghost s: State) returns (driven: bool, ptr: Option<int>)
      requires Is(s) && (pktVld ==> cpxList != [])
      modifies this`pktVld, this`nextCpx, this`cpxList, this`cpxHeap
      ensures Is(InterruptSpec.DriveCpx(s).0) && ptr == InterruptSpec.DriveCpx(s).1 && driven == nextCpx
      ensures AllCpx() == old(AllCpx())
    {
      ptr := None;
      if !(!pktVld && !nextCpx) {
        if !pktVld {
          nextCpx := false;
        } else {
          var c := cpxList[0];
          assert c.Is(s.cpx[0]);
          Rotates(cpxList, cpxHeap);
          cpxList := cpxList[1..];
          ptr := Some(c.word);
          pktVld := false;
          nextCpx := true;
          cpxHeap := cpxHeap + [c];
        }
      }
      driven := nextCpx;
    }

    // drive_req
    method DriveReq(ghost s: State)
      requires Is(s)
      modifies this`grant, this`nextReq, this`req
      ensures Is(InterruptSpec.DriveReq(s))
    {
      if nextReq {
        grant := req;
        nextReq := req != 0;
        req := 0;
      }
    }

    // The three calls of one clock, from a state as the clock leaves them.
    method Clock(delay: nat, ghost s: State) returns (driven: bool, ptr: Option<int>)
      requires Is(s) && Inv(s) && delay <= 7
      modifies this, pcxList, cpxList, cpxHeap, qsel
      ensures Drivable(s, delay) && Is(Tick(s, delay).0) && Inv(Tick(s, delay).0)
      ensures ptr == Tick(s, delay).1 && (ptr.Some? <==> Due(s)) && (ptr.Some? ==> driven)
      ensures AllPcx() == old(AllPcx()) && AllCpx() >= old(AllCpx())
        && (old(cpxHeap) != [] ==> AllCpx() == old(AllCpx()))
    {
      hide Inv;
      hide Due;
      hide Distinct;
      hide InterruptSpec.DoIob;
      hide InterruptSpec.DriveReq;
      hide CpxPacket.Is;
      hide PcxPacket.Is;
      TickStep(s, delay);
      DoIob(delay, s);
      driven, ptr := DriveCpx(InterruptSpec.DoIob(s, delay));
      DriveReq(InterruptSpec.DriveCpx(InterruptSpec.DoIob(s, delay)).0);
    }
  }
}
