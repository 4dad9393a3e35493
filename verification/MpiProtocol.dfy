// The ranks as MPI processes: buffered standard-mode sends, in-order receives per
// pair of ranks, and an all-reduce matched by call order, in any interleaving.
module MpiProtocol {
  import opened Common
  import opened Traps
  import opened Lockstep

  // Where a process is inside its current phase: at a port of mpi_work_opt
  // (past its send or not), or at the vote (its value contributed or not).
  datatype Stage = Exchange(port: nat, sent: bool) | Vote(cast: bool)

  // `ins` are the channel inputs received so far this round; `phase` counts
  // completed phases.
  datatype Proc<S, M> = Proc(l: Local<S>, stage: Stage, ins: seq<Option<M>>, phase: nat)

  // chan[a][b] holds what a has sent to b and b has not received; votes[r] what
  // r has contributed to successive all-reduces.
  datatype System<S, M> = System(procs: seq<Proc<S, M>>, chan: seq<seq<seq<M>>>, votes: seq<seq<Trap>>)

  const START_STAGE := Exchange(0, false)

  function NoInputs<M>(): seq<Option<M>> {
    [None, None, None, None]
  }

  ghost predicate WellSized<S, M>(c: Config<S, M>, sys: System<S, M>) {
    var n := |c.net|;
    && |sys.procs| == n && |sys.chan| == n && |sys.votes| == n
    && (forall a :: 0 <= a < n ==> |sys.chan[a]| == n)
    && (forall r :: 0 <= r < n ==> |sys.procs[r].ins| == PORTS)
    && (forall r :: 0 <= r < n ==>
          match sys.procs[r].stage
          case Exchange(port, _) => port <= PORTS
          case Vote(cast) => cast ==> sys.votes[r] != [])
  }

  ghost function Initial<S, M>(c: Config<S, M>): System<S, M>
    requires ValidConfig(c)
  {
    var n := |c.net|;
    System(
      seq(n, r requires 0 <= r < |c.start| => Proc(Begin(c, r), START_STAGE, NoInputs(), 0)),
      seq(n, a => seq(n, b => [])),
      seq(n, r => []))
  }

  // A receive waits for a message, an all-reduce for every rank's contribution.
  ghost predicate Enabled<S, M>(c: Config<S, M>, sys: System<S, M>, r: nat)
    requires WellWired(c.net) && WellSized(c, sys) && r < |c.net|
  {
    var p := sys.procs[r];
    match p.stage
    case Exchange(port, sent) =>
      && !p.l.ctl.Finished?
      && (port < PORTS && c.net[r][port].Some? && sent ==> sys.chan[c.net[r][port].value][r] != [])
    case Vote(cast) =>
      cast ==> forall q :: 0 <= q < |c.net| ==> |sys.votes[r]| <= |sys.votes[q]|
  }

  function MaxAt(votes: seq<seq<Trap>>, i: nat): Trap {
    if votes == [] then CONTINUE
    else
      var rest := MaxAt(votes[..|votes| - 1], i);
      var last := votes[|votes| - 1];
      if i < |last| && last[i] >= rest then last[i] else rest
  }

  // Rank r takes a step that leaves the channels alone.
  function Replace<S, M>(sys: System<S, M>, r: nat, p: Proc<S, M>, votes: seq<Trap>): System<S, M>
    requires r < |sys.procs| && r < |sys.votes|
  {
    sys.(procs := sys.procs[r := p], votes := sys.votes[r := votes])
  }

  // Rank r takes a step on the channel from a0 to b0.
  function OnLink<S, M>(sys: System<S, M>, r: nat, p: Proc<S, M>, a0: nat, b0: nat, msgs: seq<M>): System<S, M>
    requires r < |sys.procs| && a0 < |sys.chan| && b0 < |sys.chan[a0]|
  {
    sys.(procs := sys.procs[r := p], chan := sys.chan[a0 := sys.chan[a0][b0 := msgs]])
  }

  // The process after a receive of m.
  function Took<S, M>(p: Proc<S, M>, port: nat, m: M): Proc<S, M>
    requires port < |p.ins|
  {
    p.(stage := Exchange(port + 1, false), ins := p.ins[port := Some(m)])
  }

  // What becomes of a process whose round is over: eval, then the next round or a vote.
  function Evaled<S, M>(c: Config<S, M>, r: nat, p: Proc<S, M>): Proc<S, M> {
    var l := AfterRound(c, r, p.l, p.ins);
    if l.ctl.Voting? then p.(l := l, stage := Vote(false)) else Proc(l, START_STAGE, NoInputs(), p.phase + 1)
  }

  // One step of rank r: eval, a port without a neighbour, MPI_Send, MPI_Recv, and
  // the two sides of MPI_Allreduce.
  ghost function StepOf<S, M>(c: Config<S, M>, sys: System<S, M>, r: nat): System<S, M>
    requires WellWired(c.net) && WellSized(c, sys) && r < |c.net| && Enabled(c, sys, r)
  {
    var p, votes := sys.procs[r], sys.votes[r];
    match p.stage
    case Exchange(port, sent) =>
      if port == PORTS then
        Replace(sys, r, Evaled(c, r, p), votes)
      else if c.net[r][port].None? then
        Replace(sys, r, p.(stage := Exchange(port + 1, false)), votes)
      else
        var q := c.net[r][port].value;
        if !sent then
          OnLink(sys, r, p.(stage := Exchange(port, true)), r, q, sys.chan[r][q] + [c.out(r, p.l.s, port)])
        else
          OnLink(sys, r, Took(p, port, sys.chan[q][r][0]), q, r, sys.chan[q][r][1..])
    case Vote(cast) =>
      if !cast then
        Replace(sys, r, p.(stage := Vote(true)), votes + [p.l.latched])
      else
        Replace(sys, r, Proc(AfterVote(c, r, p.l, MaxAt(sys.votes, |votes| - 1)), START_STAGE, NoInputs(), p.phase + 1),
          votes)
  }

  // The system after a schedule, a sequence of ranks that each take one step;
  // none when some rank in it was blocked.
  ghost function Run<S, M>(c: Config<S, M>, schedule: seq<nat>): Option<System<S, M>>
    requires ValidConfig(c)
  {
    if schedule == [] then Some(Initial(c))
    else
      var n := |schedule| - 1;
      var r, before := schedule[n], Run(c, schedule[..n]);
      if before.Some? && WellSized(c, before.value) && r < |c.net| && Enabled(c, before.value, r)
      then Some(StepOf(c, before.value, r)) else None
  }

  // ---------- counting messages ----------

  // How many messages p has sent on a port over the whole run, and received.
  function Sent<S, M>(p: Proc<S, M>, port: nat): nat {
    p.phase + match p.stage
      case Exchange(at, sent) => if port < at || (port == at && sent) then 1 else 0
      case Vote(_) => 1
  }

  function Received<S, M>(p: Proc<S, M>, port: nat): nat {
    p.phase + match p.stage
      case Exchange(at, _) => if port < at then 1 else 0
      case Vote(_) => 1
  }

  // ---------- what every reachable state satisfies ----------

  // What rank r puts out on a port in round k of the lock-step machine.
  ghost function OutOf<S, M>(c: Config<S, M>, k: nat, r: nat, port: nat): M
    requires ValidConfig(c) && r < |c.net|
  {
    c.out(r, Sync(c, k)[r].s, port)
  }

  // The process is where the lock-step machine is at its phase, and has
  // received what its neighbours put out in that same round.
  ghost predicate ProcAgrees<S, M>(c: Config<S, M>, r: nat, p: Proc<S, M>)
    requires ValidConfig(c) && r < |c.net|
  {
    match p.stage
    case Exchange(port, sent) =>
      && p.l == Sync(c, p.phase)[r]
      && port <= PORTS && |p.ins| == PORTS
      && (sent ==> port < PORTS && c.net[r][port].Some?)
      && (p.l.ctl.Finished? ==> port == 0 && !sent)
      && forall i :: 0 <= i < PORTS ==>
           p.ins[i] == if i < port then InputsOf(c, Sync(c, p.phase), r)[i] else None
    case Vote(_) =>
      p.l == Mid(c, p.phase)[r] && p.l.ctl.Voting? && |p.ins| == PORTS
  }

  // The channel from r to q holds exactly r's outputs of the rounds between
  // what q has received and what r has sent.
  ghost predicate ChanAgrees<S, M>(c: Config<S, M>, sys: System<S, M>, r: nat, port: nat)
    requires ValidConfig(c) && WellSized(c, sys) && r < |c.net| && port < PORTS && c.net[r][port].Some?
  {
    var q := c.net[r][port].value;
    Carries(c, r, port, sys.chan[r][q], Received(sys.procs[q], Opp(port)), Sent(sys.procs[r], port))
  }

  // msgs are r's outputs on a port in rounds from..to.
  ghost predicate Carries<S, M>(c: Config<S, M>, r: nat, port: nat, msgs: seq<M>, from: nat, to: nat)
    requires ValidConfig(c) && r < |c.net|
  {
    && from + |msgs| == to
    && forall i :: 0 <= i < |msgs| ==> msgs[i] == OutOf(c, from + i, r, port)
  }

  // The votes rank r casts in the first k phases.
  ghost function VotesBefore<S, M>(c: Config<S, M>, k: nat, r: nat): seq<Trap>
    requires ValidConfig(c) && r < |c.net|
  {
    if k == 0 then []
    else
      var l := Mid(c, k - 1)[r];
      VotesBefore(c, k - 1, r) + (if l.ctl.Voting? then [l.latched] else [])
  }

  ghost predicate VotesAgree<S, M>(c: Config<S, M>, r: nat, p: Proc<S, M>, votes: seq<Trap>)
    requires ValidConfig(c) && r < |c.net|
  {
    votes == VotesBefore(c, p.phase, r) + (if p.stage == Vote(true) then [p.l.latched] else [])
  }

  ghost predicate Invariant<S, M>(c: Config<S, M>, sys: System<S, M>)
    requires ValidConfig(c)
  {
    && WellSized(c, sys)
    && (forall r :: 0 <= r < |c.net| ==> ProcAgrees(c, r, sys.procs[r]))
    && (forall r :: 0 <= r < |c.net| ==> VotesAgree(c, r, sys.procs[r], sys.votes[r]))
    && (forall r, p :: 0 <= r < |c.net| && 0 <= p < PORTS && c.net[r][p].Some? ==> ChanAgrees(c, sys, r, p))
  }

  lemma InitialInvariant<S, M>(c: Config<S, M>)
    requires ValidConfig(c)
    ensures Invariant(c, Initial(c))
  {
    var sys := Initial(c);
    forall r | 0 <= r < |c.net|
      ensures ProcAgrees(c, r, sys.procs[r]) && VotesAgree(c, r, sys.procs[r], sys.votes[r])
    {
      assert Sync(c, 0)[r] == Begin(c, r) == sys.procs[r].l;
    }
    forall r, p | 0 <= r < |c.net| && 0 <= p < PORTS && c.net[r][p].Some?
      ensures ChanAgrees(c, sys, r, p)
    {
      assert sys.chan[r][c.net[r][p].value] == [];
    }
  }

  // ---------- every step keeps the invariant ----------

  ghost predicate SameCounts<S, M>(c: Config<S, M>, r: nat, p: Proc<S, M>, p': Proc<S, M>)
    requires WellWired(c.net) && r < |c.net|
  {
    forall i :: 0 <= i < PORTS && c.net[r][i].Some? ==> Sent(p', i) == Sent(p, i) && Received(p', i) == Received(p, i)
  }

  lemma QuietKeeps<S, M>(c: Config<S, M>, sys: System<S, M>, r: nat, p: Proc<S, M>, votes: seq<Trap>)
    requires ValidConfig(c) && Invariant(c, sys) && r < |c.net|
    requires SameCounts(c, r, sys.procs[r], p) && ProcAgrees(c, r, p) && VotesAgree(c, r, p, votes)
    ensures Invariant(c, Replace(sys, r, p, votes))
  {
    hide Sync;
    hide Mid;
    var sys' := Replace(sys, r, p, votes);
    forall a, i | 0 <= a < |c.net| && 0 <= i < PORTS && c.net[a][i].Some?
      ensures ChanAgrees(c, sys', a, i)
    {
      var q := c.net[a][i].value;
      assert c.net[q][Opp(i)] == Some(a);
      assert ChanAgrees(c, sys, a, i);
      assert Sent(sys'.procs[a], i) == Sent(sys.procs[a], i);
      assert Received(sys'.procs[q], Opp(i)) == Received(sys.procs[q], Opp(i));
    }
  }

  lemma InputAt<S, M>(c: Config<S, M>, w: World<S>, r: nat, port: nat)
    requires WellWired(c.net) && |w| == |c.net| && r < |w| && port < PORTS
    ensures InputsOf(c, w, r)[port] ==
      if c.net[r][port].None? then None
      else Some(c.out(c.net[r][port].value, w[c.net[r][port].value].s, Opp(port)))
  {
  }

  lemma SkipKeeps<S, M>(c: Config<S, M>, sys: System<S, M>, r: nat, port: nat)
    requires ValidConfig(c) && Invariant(c, sys) && r < |c.net| && Enabled(c, sys, r)
    requires sys.procs[r].stage == Exchange(port, false) && port < PORTS && c.net[r][port].None?
    ensures Invariant(c, StepOf(c, sys, r))
  {
    hide VotesBefore;
    hide Sync;
    hide InputsOf;
    hide Mid;
    var p := sys.procs[r];
    InputAt(c, Sync(c, p.phase), r, port);
    var p' := p.(stage := Exchange(port + 1, false));
    assert ProcAgrees(c, r, p) && VotesAgree(c, r, p, sys.votes[r]);
    assert ProcAgrees(c, r, p') && VotesAgree(c, r, p', sys.votes[r]);
    assert SameCounts(c, r, p, p');
    QuietKeeps(c, sys, r, p', sys.votes[r]);
  }

  // At the end of a round the inputs are the neighbours' outputs of that round.
  lemma {:induction false} RoundComplete<S, M>(c: Config<S, M>, r: nat, p: Proc<S, M>)
    requires ValidConfig(c) && r < |c.net| && ProcAgrees(c, r, p) && p.stage == Exchange(PORTS, false)
    ensures p.ins == InputsOf(c, Sync(c, p.phase), r)
    ensures AfterRound(c, r, p.l, p.ins) == Mid(c, p.phase)[r]
  {
    hide Sync;
    assert p.ins == InputsOf(c, Sync(c, p.phase), r);
    SyncAt(c, p.phase, r);
  }

  // A rank that enters phase k + 1 as the lock-step machine does.
  lemma EntersPhase<S, M>(c: Config<S, M>, r: nat, p: Proc<S, M>, votes: seq<Trap>, l: Local<S>)
    requires ValidConfig(c) && r < |c.net| && l == Sync(c, p.phase + 1)[r]
    requires p.stage == Exchange(PORTS, false) || p.stage == Vote(true)
    requires votes == VotesBefore(c, p.phase + 1, r)
    ensures var p' := Proc(l, START_STAGE, NoInputs(), p.phase + 1);
      ProcAgrees(c, r, p') && VotesAgree(c, r, p', votes) && SameCounts(c, r, p, p')
  {
    hide Sync;
    hide Mid;
    assert votes + [] == votes;
  }

  lemma VotesNext<S, M>(c: Config<S, M>, k: nat, r: nat)
    requires ValidConfig(c) && r < |c.net|
    ensures VotesBefore(c, k + 1, r) == VotesBefore(c, k, r)
      + (if Mid(c, k)[r].ctl.Voting? then [Mid(c, k)[r].latched] else [])
  {
  }

  lemma EvalKeeps<S, M>(c: Config<S, M>, sys: System<S, M>, r: nat)
    requires ValidConfig(c) && Invariant(c, sys) && r < |c.net| && Enabled(c, sys, r)
    requires sys.procs[r].stage == Exchange(PORTS, false)
    ensures Invariant(c, StepOf(c, sys, r))
  {
    hide VotesBefore;
    hide Sync;
    hide Mid;
    var p, votes := sys.procs[r], sys.votes[r];
    RoundComplete(c, r, p);
    SyncAt(c, p.phase, r);
    VotesNext(c, p.phase, r);
    assert VotesAgree(c, r, p, votes);
    var l := Mid(c, p.phase)[r];
    if l.ctl.Voting? {
      QuietKeeps(c, sys, r, p.(l := l, stage := Vote(false)), votes);
    } else {
      EntersPhase(c, r, p, votes, l);
      QuietKeeps(c, sys, r, Proc(l, START_STAGE, NoInputs(), p.phase + 1), votes);
    }
  }

  lemma CastKeeps<S, M>(c: Config<S, M>, sys: System<S, M>, r: nat)
    requires ValidConfig(c) && Invariant(c, sys) && r < |c.net| && Enabled(c, sys, r)
    requires sys.procs[r].stage == Vote(false)
    ensures Invariant(c, StepOf(c, sys, r))
  {
    hide Sync;
    hide Mid;
    var p := sys.procs[r];
    assert ProcAgrees(c, r, p) && VotesAgree(c, r, p, sys.votes[r]);
    QuietKeeps(c, sys, r, p.(stage := Vote(true)), sys.votes[r] + [p.l.latched]);
  }

  // ---------- votes ----------

  // All ranks vote in the same phases.
  lemma {:induction false} VoteCounts<S, M>(c: Config<S, M>, k: nat, r: nat, q: nat)
    requires ValidConfig(c) && r < |c.net| && q < |c.net|
    ensures |VotesBefore(c, k, r)| == |VotesBefore(c, k, q)|
  {
    hide Sync;
    if k > 0 {
      VoteCounts(c, k - 1, r, q);
      MidTogether(c, k - 1);
    }
  }

  lemma {:induction false} VotesPrefix<S, M>(c: Config<S, M>, j: nat, k: nat, r: nat)
    requires ValidConfig(c) && r < |c.net| && j <= k
    ensures VotesBefore(c, j, r) <= VotesBefore(c, k, r)
    decreases k
  {
    hide Sync;
    hide Mid;
    if j < k {
      VotesPrefix(c, j, k - 1, r);
    }
  }

  // What a rank has cast is what it casts before its phase, and perhaps its vote there.
  lemma {:induction false} VotesSoFar<S, M>(c: Config<S, M>, q: nat, p: Proc<S, M>, votes: seq<Trap>)
    requires ValidConfig(c) && q < |c.net| && ProcAgrees(c, q, p) && VotesAgree(c, q, p, votes)
    ensures VotesBefore(c, p.phase, q) <= votes <= VotesBefore(c, p.phase + 1, q)
  {
    VotesNext(c, p.phase, q);
  }

  lemma VotesReach<S, M>(c: Config<S, M>, k: nat, q: nat, p: Proc<S, M>, votes: seq<Trap>)
    requires ValidConfig(c) && q < |c.net| && Mid(c, k)[q].ctl.Voting?
    requires VotesBefore(c, p.phase, q) <= votes <= VotesBefore(c, p.phase + 1, q)
    requires |VotesBefore(c, k, q)| < |votes|
    ensures VotesBefore(c, k + 1, q) <= votes
  {
    hide Sync;
    hide Mid;
    if p.phase < k {
      VotesPrefix(c, p.phase + 1, k, q);
      assert false;
    } else if p.phase > k {
      VotesPrefix(c, k + 1, p.phase, q);
    }
  }

  lemma LastOf<T>(s: seq<T>, x: T, longer: seq<T>)
    requires s + [x] <= longer
    ensures longer[|s|] == x
  {
    assert longer[|s|] == (s + [x])[|s|];
  }

  // A rank that has cast as many votes as one waiting in phase k has cast its
  // vote of phase k, whatever it is doing now.
  lemma {:induction false} VoteOfPhase<S, M>(c: Config<S, M>, k: nat, r: nat, q: nat, p: Proc<S, M>, votes: seq<Trap>)
    requires ValidConfig(c) && r < |c.net| && q < |c.net|
    requires ProcAgrees(c, q, p) && VotesAgree(c, q, p, votes)
    requires Mid(c, k)[r].ctl.Voting? && |VotesBefore(c, k, r)| < |votes|
    ensures votes[|VotesBefore(c, k, r)|] == Mid(c, k)[q].latched
  {
    hide Sync;
    hide Mid;
    VoteCounts(c, k, r, q);
    SameMidControl(c, k, r, q);
    VotesSoFar(c, q, p, votes);
    VotesReach(c, k, q, p, votes);
    VotesNext(c, k, q);
    LastOf(VotesBefore(c, k, q), Mid(c, k)[q].latched, votes);
  }

  lemma SameMidControl<S, M>(c: Config<S, M>, k: nat, r: nat, q: nat)
    requires ValidConfig(c) && r < |c.net| && q < |c.net|
    ensures Mid(c, k)[r].ctl == Mid(c, k)[q].ctl
  {
    MidTogether(c, k);
  }

  lemma {:induction false} MaxAtIs<S>(votes: seq<seq<Trap>>, i: nat, w: World<S>)
    requires |votes| == |w| && forall q :: 0 <= q < |w| ==> i < |votes[q]| && votes[q][i] == w[q].latched
    ensures MaxAt(votes, i) == MaxLatched(w)
  {
    if votes != [] {
      MaxAtIs(votes[..|votes| - 1], i, w[..|w| - 1]);
    }
  }

  // The all-reduce gives every rank the largest trap latched at that vote.
  lemma TallyIs<S, M>(c: Config<S, M>, sys: System<S, M>, r: nat)
    requires ValidConfig(c) && Invariant(c, sys) && r < |c.net| && Enabled(c, sys, r)
    requires sys.procs[r].stage == Vote(true)
    ensures sys.votes[r] != []
    ensures MaxAt(sys.votes, |sys.votes[r]| - 1) == MaxLatched(Mid(c, sys.procs[r].phase))
  {
    hide Sync;
    hide Mid;
    var w := Mid(c, sys.procs[r].phase);
    assert ProcAgrees(c, r, sys.procs[r]) && VotesAgree(c, r, sys.procs[r], sys.votes[r]);
    forall q | 0 <= q < |w|
      ensures |sys.votes[r]| <= |sys.votes[q]| && sys.votes[q][|sys.votes[r]| - 1] == w[q].latched
    {
      VoteOfPhase(c, sys.procs[r].phase, r, q, sys.procs[q], sys.votes[q]);
    }
    MaxAtIs(sys.votes, |sys.votes[r]| - 1, w);
  }

  lemma TallyKeeps<S, M>(c: Config<S, M>, sys: System<S, M>, r: nat)
    requires ValidConfig(c) && Invariant(c, sys) && r < |c.net| && Enabled(c, sys, r)
    requires sys.procs[r].stage == Vote(true)
    ensures Invariant(c, StepOf(c, sys, r))
  {
    hide VotesBefore;
    hide Sync;
    hide InputsOf;
    hide AfterVote;
    hide MaxAt;
    hide MaxLatched;
    hide Mid;
    var p, votes := sys.procs[r], sys.votes[r];
    TallyIs(c, sys, r);
    SyncAt(c, p.phase, r);
    VotesNext(c, p.phase, r);
    assert ProcAgrees(c, r, p) && VotesAgree(c, r, p, votes);
    var l := Sync(c, p.phase + 1)[r];
    EntersPhase(c, r, p, votes, l);
    QuietKeeps(c, sys, r, Proc(l, START_STAGE, NoInputs(), p.phase + 1), votes);
  }

  // ---------- sends and receives ----------

  lemma CarriesMore<S, M>(c: Config<S, M>, r: nat, port: nat, msgs: seq<M>, from: nat, to: nat)
    requires ValidConfig(c) && r < |c.net| && Carries(c, r, port, msgs, from, to)
    ensures Carries(c, r, port, msgs + [OutOf(c, to, r, port)], from, to + 1)
  {
    hide Sync;
  }

  lemma CarriesLess<S, M>(c: Config<S, M>, r: nat, port: nat, msgs: seq<M>, from: nat, to: nat)
    requires ValidConfig(c) && r < |c.net| && Carries(c, r, port, msgs, from, to) && msgs != []
    ensures msgs[0] == OutOf(c, from, r, port) && Carries(c, r, port, msgs[1..], from + 1, to)
  {
    hide Sync;
    forall i | 0 <= i < |msgs| - 1
      ensures msgs[1..][i] == OutOf(c, from + 1 + i, r, port)
    {
      assert msgs[1..][i] == msgs[i + 1];
    }
  }

  // Two ranks share at most one link, so a channel belongs to one port.
  lemma OneLink(net: Net, a: nat, i: nat, a': nat, i': nat)
    requires WellWired(net) && a < |net| && a' < |net| && i < PORTS && i' < PORTS
    requires net[a][i].Some? && net[a'][i'].Some?
    requires a == a' && net[a][i].value == net[a'][i'].value
    ensures i == i'
  {
  }

  lemma LinkSized<S, M>(c: Config<S, M>, sys: System<S, M>, r: nat, p: Proc<S, M>, a0: nat, b0: nat, msgs: seq<M>)
    requires ValidConfig(c) && WellSized(c, sys) && r < |c.net| && a0 < |c.net| && b0 < |c.net|
    requires ProcAgrees(c, r, p) && VotesAgree(c, r, p, sys.votes[r])
    ensures |p.ins| == PORTS && WellSized(c, OnLink(sys, r, p, a0, b0, msgs))
  {
    hide Sync;
    hide Mid;
    hide VotesBefore;
    hide InputsOf;
  }

  lemma LinkKeeps<S, M>(c: Config<S, M>, sys: System<S, M>, r: nat, p: Proc<S, M>, a0: nat, p0: nat, msgs: seq<M>)
    requires ValidConfig(c) && Invariant(c, sys) && r < |c.net| && a0 < |c.net| && p0 < PORTS && c.net[a0][p0].Some?
    requires ProcAgrees(c, r, p) && VotesAgree(c, r, p, sys.votes[r])
    requires var procs := sys.procs[r := p];
      Carries(c, a0, p0, msgs, Received(procs[c.net[a0][p0].value], Opp(p0)), Sent(procs[a0], p0))
    requires forall i :: 0 <= i < PORTS && (r != a0 || i != p0) ==> Sent(p, i) == Sent(sys.procs[r], i)
    requires forall i :: 0 <= i < PORTS && (r != c.net[a0][p0].value || i != Opp(p0)) ==>
      Received(p, i) == Received(sys.procs[r], i)
    ensures Invariant(c, OnLink(sys, r, p, a0, c.net[a0][p0].value, msgs))
  {
    hide VotesBefore;
    hide Sync;
    hide Mid;
    hide Sent;
    hide Received;
    hide VotesAgree;
    hide ProcAgrees;
    hide Carries;
    var b0 := c.net[a0][p0].value;
    var sys' := OnLink(sys, r, p, a0, b0, msgs);
    LinkSized(c, sys, r, p, a0, b0, msgs);
    forall a, i | 0 <= a < |c.net| && 0 <= i < PORTS && c.net[a][i].Some?
      ensures ChanAgrees(c, sys', a, i)
    {
      if a != a0 || i != p0 {
        OtherLink(c, sys, r, p, a0, p0, msgs, a, i);
      }
    }
  }

  lemma OtherLink<S, M>(c: Config<S, M>, sys: System<S, M>, r: nat, p: Proc<S, M>, a0: nat, p0: nat, msgs: seq<M>,
          a: nat, i: nat)
    requires ValidConfig(c) && Invariant(c, sys) && r < |c.net| && a0 < |c.net| && p0 < PORTS && c.net[a0][p0].Some?
    requires |p.ins| == PORTS && WellSized(c, OnLink(sys, r, p, a0, c.net[a0][p0].value, msgs))
    requires forall i :: 0 <= i < PORTS && (r != a0 || i != p0) ==> Sent(p, i) == Sent(sys.procs[r], i)
    requires forall i :: 0 <= i < PORTS && (r != c.net[a0][p0].value || i != Opp(p0)) ==>
      Received(p, i) == Received(sys.procs[r], i)
    requires a < |c.net| && i < PORTS && c.net[a][i].Some? && (a != a0 || i != p0)
    ensures ChanAgrees(c, OnLink(sys, r, p, a0, c.net[a0][p0].value, msgs), a, i)
  {
    hide VotesBefore;
    hide Sync;
    hide Mid;
    var b0, b := c.net[a0][p0].value, c.net[a][i].value;
    var sys' := OnLink(sys, r, p, a0, b0, msgs);
    assert ChanAgrees(c, sys, a, i);
    assert c.net[b][Opp(i)] == Some(a) && c.net[b0][Opp(p0)] == Some(a0);
    if a == a0 && b == b0 {
      OneLink(c.net, a, i, a0, p0);
    }
    assert sys'.chan[a][b] == sys.chan[a][b];
    assert Sent(sys'.procs[a], i) == Sent(sys.procs[a], i);
    assert Received(sys'.procs[b], Opp(i)) == Received(sys.procs[b], Opp(i));
  }

  lemma SendKeeps<S, M>(c: Config<S, M>, sys: System<S, M>, r: nat, port: nat)
    requires ValidConfig(c) && Invariant(c, sys) && r < |c.net| && Enabled(c, sys, r)
    requires sys.procs[r].stage == Exchange(port, false) && port < PORTS && c.net[r][port].Some?
    ensures Invariant(c, StepOf(c, sys, r))
  {
    hide VotesBefore;
    hide Sync;
    hide Mid;
    var p, q := sys.procs[r], c.net[r][port].value;
    var msgs := sys.chan[r][q];
    assert ProcAgrees(c, r, p) && VotesAgree(c, r, p, sys.votes[r]) && ChanAgrees(c, sys, r, port);
    CarriesMore(c, r, port, msgs, Received(sys.procs[q], Opp(port)), Sent(p, port));
    assert c.net[q][Opp(port)] == Some(r);
    LinkKeeps(c, sys, r, p.(stage := Exchange(port, true)), r, port, msgs + [c.out(r, p.l.s, port)]);
  }

  // The channel a receive takes from, seen from the sender.
  lemma LinkBack<S, M>(c: Config<S, M>, sys: System<S, M>, r: nat, port: nat)
    requires ValidConfig(c) && Invariant(c, sys) && r < |c.net| && port < PORTS && c.net[r][port].Some?
    ensures var q := c.net[r][port].value;
      && q < |c.net| && Opp(Opp(port)) == port && c.net[q][Opp(port)] == Some(r)
      && Carries(c, q, Opp(port), sys.chan[q][r], Received(sys.procs[r], port), Sent(sys.procs[q], Opp(port)))
  {
    hide Sync;
    var q := c.net[r][port].value;
    assert c.net[q][Opp(port)] == Some(r);
    assert ChanAgrees(c, sys, q, Opp(port));
  }

  // What a receive takes is what the neighbour put out in its own round of the
  // same number.
  lemma ReceivedIs<S, M>(c: Config<S, M>, sys: System<S, M>, r: nat, port: nat)
    requires ValidConfig(c) && Invariant(c, sys) && r < |c.net| && Enabled(c, sys, r)
    requires sys.procs[r].stage == Exchange(port, true) && port < PORTS && c.net[r][port].Some?
    ensures var q := c.net[r][port].value;
      sys.chan[q][r] != [] && sys.chan[q][r][0] == OutOf(c, sys.procs[r].phase, q, Opp(port))
  {
    hide Sync;
    hide Mid;
    LinkBack(c, sys, r, port);
  }

  lemma TookAgrees<S, M>(c: Config<S, M>, r: nat, p: Proc<S, M>, port: nat, m: M)
    requires ValidConfig(c) && r < |c.net| && ProcAgrees(c, r, p) && p.stage == Exchange(port, true)
    requires port < PORTS && c.net[r][port].Some? && m == OutOf(c, p.phase, c.net[r][port].value, Opp(port))
    ensures ProcAgrees(c, r, Took(p, port, m))
  {
    hide Sync;
    InputAt(c, Sync(c, p.phase), r, port);
  }

  lemma ReceiveKeeps<S, M>(c: Config<S, M>, sys: System<S, M>, r: nat, port: nat)
    requires ValidConfig(c) && Invariant(c, sys) && r < |c.net| && Enabled(c, sys, r)
    requires sys.procs[r].stage == Exchange(port, true) && port < PORTS && c.net[r][port].Some?
    ensures Invariant(c, StepOf(c, sys, r))
  {
    hide VotesBefore;
    hide Sync;
    hide Mid;
    var p, q := sys.procs[r], c.net[r][port].value;
    ReceivedIs(c, sys, r, port);
    assert ProcAgrees(c, r, p);
    TookAgrees(c, r, p, port, sys.chan[q][r][0]);
    TakeKeeps(c, sys, r, port);
  }

  lemma TakeKeeps<S, M>(c: Config<S, M>, sys: System<S, M>, r: nat, port: nat)
    requires ValidConfig(c) && Invariant(c, sys) && r < |c.net|
    requires sys.procs[r].stage == Exchange(port, true) && port < PORTS && c.net[r][port].Some?
    requires sys.chan[c.net[r][port].value][r] != []
    requires ProcAgrees(c, r, Took(sys.procs[r], port, sys.chan[c.net[r][port].value][r][0]))
    ensures var q := c.net[r][port].value;
      Invariant(c, OnLink(sys, r, Took(sys.procs[r], port, sys.chan[q][r][0]), q, r, sys.chan[q][r][1..]))
  {
    hide VotesBefore;
    hide Sync;
    hide Mid;
    var p, q := sys.procs[r], c.net[r][port].value;
    var msgs := sys.chan[q][r];
    var p' := Took(p, port, msgs[0]);
    LinkBack(c, sys, r, port);
    CarriesLess(c, q, Opp(port), msgs, Received(p, port), Sent(sys.procs[q], Opp(port)));
    TookCounts(p, port, msgs[0]);
    assert VotesAgree(c, r, p, sys.votes[r]);
    var procs := sys.procs[r := p'];
    assert procs[r] == p' && Received(p', port) == Received(p, port) + 1;
    assert Sent(procs[q], Opp(port)) == Sent(sys.procs[q], Opp(port));
    assert Carries(c, q, Opp(port), msgs[1..], Received(procs[c.net[q][Opp(port)].value], Opp(Opp(port))),
      Sent(procs[q], Opp(port)));
    LinkKeeps(c, sys, r, p', q, Opp(port), msgs[1..]);
  }

  lemma TookCounts<S, M>(p: Proc<S, M>, port: nat, m: M)
    requires port < |p.ins| == PORTS && p.stage == Exchange(port, true)
    ensures forall i :: 0 <= i < PORTS ==> Sent(Took(p, port, m), i) == Sent(p, i)
    ensures forall i :: 0 <= i < PORTS ==> Received(Took(p, port, m), i) == Received(p, i) + if i == port then 1 else 0
  {
  }

  lemma StepKeeps<S, M>(c: Config<S, M>, sys: System<S, M>, r: nat)
    requires ValidConfig(c) && Invariant(c, sys) && r < |c.net| && Enabled(c, sys, r)
    ensures Invariant(c, StepOf(c, sys, r))
  {
    hide Sync;
    hide Mid;
    assert ProcAgrees(c, r, sys.procs[r]);
    match sys.procs[r].stage
    case Exchange(port, sent) =>
      if port == PORTS {
        EvalKeeps(c, sys, r);
      } else if c.net[r][port].None? {
        SkipKeeps(c, sys, r, port);
      } else if sent {
        ReceiveKeeps(c, sys, r, port);
      } else {
        SendKeeps(c, sys, r, port);
      }
    case Vote(cast) =>
      if cast {
        TallyKeeps(c, sys, r);
      } else {
        CastKeeps(c, sys, r);
      }
  }

  lemma {:induction false} RunKeeps<S, M>(c: Config<S, M>, schedule: seq<nat>)
    requires ValidConfig(c) && Run(c, schedule).Some?
    ensures Invariant(c, Run(c, schedule).value)
  {
    hide Sync;
    hide Mid;
    if schedule == [] {
      InitialInvariant(c);
    } else {
      var n := |schedule| - 1;
      RunKeeps(c, schedule[..n]);
      StepKeeps(c, Run(c, schedule[..n]).value, schedule[n]);
    }
  }
}
