// What holds over every run of the distributed simulation.
module MpiRuns {
  import opened Common
  import opened Traps
  import opened Lockstep
  import opened MpiProtocol

  // ---------- the run refines the lock-step machine ----------

  // Whatever the interleaving, each rank is where the lock-step machine is after as
  // many phases, and a round that is over has received what the neighbours put out
  // in their own rounds of the same number.
  lemma {:induction false} RefinesLockstep<S, M>(c: Config<S, M>, schedule: seq<nat>, r: nat)
    requires ValidConfig(c) && Run(c, schedule).Some? && r < |c.net|
    ensures WellSized(c, Run(c, schedule).value)
    ensures var p := Run(c, schedule).value.procs[r];
      && (p.stage.Exchange? ==> p.l == Sync(c, p.phase)[r])
      && (p.stage.Vote? ==> p.l == Mid(c, p.phase)[r])
      && (p.stage == Exchange(PORTS, false) ==> p.ins == InputsOf(c, Sync(c, p.phase), r))
  {
    hide Sync;
    hide Mid;
    RunKeeps(c, schedule);
    var p := Run(c, schedule).value.procs[r];
    assert ProcAgrees(c, r, p);
    if p.stage == Exchange(PORTS, false) {
      RoundComplete(c, r, p);
    }
  }

  // ---------- messages in flight ----------

  // Neighbours are never more than one phase apart, and a channel never holds more
  // than two messages.
  lemma {:induction false} FewInFlight<S, M>(c: Config<S, M>, schedule: seq<nat>, r: nat, port: nat)
    requires ValidConfig(c) && Run(c, schedule).Some? && r < |c.net| && port < PORTS && c.net[r][port].Some?
    ensures WellSized(c, Run(c, schedule).value)
    ensures var sys, q := Run(c, schedule).value, c.net[r][port].value;
      |sys.chan[r][q]| <= 2 && sys.procs[r].phase <= sys.procs[q].phase + 1
  {
    hide Sync;
    hide Mid;
    RunKeeps(c, schedule);
    var sys, q := Run(c, schedule).value, c.net[r][port].value;
    assert ChanAgrees(c, sys, r, port);
    LinkBack(c, sys, r, port);
    assert ProcAgrees(c, r, sys.procs[r]) && ProcAgrees(c, q, sys.procs[q]);
  }

  // ---------- no deadlock ----------

  // A measure on waits: a rank blocked in a receive waits for a rank that, in the
  // same round, can itself only be blocked at a port of smaller measure.
  ghost predicate Waits(net: Net, w: (nat, nat) -> nat)
    requires WellWired(net)
  {
    forall r, i, j ::
      0 <= r < |net| && 0 <= i < PORTS && net[r][i].Some? && 0 <= j < Opp(i) && net[net[r][i].value][j].Some? ==>
      w(net[r][i].value, j) < w(r, i)
  }

  ghost predicate Done<S, M>(p: Proc<S, M>) {
    p.stage.Exchange? && p.l.ctl.Finished?
  }

  ghost predicate Stuck<S, M>(c: Config<S, M>, sys: System<S, M>, r: nat)
    requires WellWired(c.net) && WellSized(c, sys) && r < |c.net|
  {
    !Done(sys.procs[r]) && !Enabled(c, sys, r)
  }

  // When the lock-step machine has a finished rank at some phase, all its ranks
  // are finished from then on.
  lemma {:induction false} AllFinished<S, M>(c: Config<S, M>, j: nat, k: nat, q: nat, r: nat)
    requires ValidConfig(c) && q < |c.net| && r < |c.net| && j <= k && Sync(c, j)[q].ctl.Finished?
    ensures Sync(c, k)[r].ctl == Sync(c, j)[q].ctl
  {
    hide Sync;
    hide Mid;
    FinishedStays(c, j, k, q);
    SyncTogether(c, k);
  }

  lemma {:induction false} FinishedMid<S, M>(c: Config<S, M>, k: nat, r: nat)
    requires ValidConfig(c) && r < |c.net| && Sync(c, k)[r].ctl.Finished?
    ensures !Mid(c, k)[r].ctl.Voting?
  {
    SyncAt(c, k, r);
  }

  // Who a rank blocked in a receive waits for.
  lemma ReceiveWaitsOn<S, M>(c: Config<S, M>, sys: System<S, M>, r: nat) returns (q: nat)
    requires ValidConfig(c) && Invariant(c, sys) && r < |c.net| && Stuck(c, sys, r) && sys.procs[r].stage.Exchange?
    ensures var p := sys.procs[r];
      && p.stage.port < PORTS && c.net[r][p.stage.port] == Some(q) && q < |c.net|
      && !Done(sys.procs[q])
      && Sent(sys.procs[q], Opp(p.stage.port)) == p.phase
  {
    hide Sync;
    hide Mid;
    var p := sys.procs[r];
    assert ProcAgrees(c, r, p);
    q := c.net[r][p.stage.port].value;
    LinkBack(c, sys, r, p.stage.port);
    if Done(sys.procs[q]) {
      assert ProcAgrees(c, q, sys.procs[q]);
      AllFinished(c, sys.procs[q].phase, p.phase, q, r);
      assert false;
    }
  }

  lemma {:induction false} CastVotes<S, M>(c: Config<S, M>, r: nat, p: Proc<S, M>, votes: seq<Trap>)
    requires ValidConfig(c) && r < |c.net| && ProcAgrees(c, r, p) && VotesAgree(c, r, p, votes) && p.stage == Vote(true)
    ensures votes == VotesBefore(c, p.phase + 1, r)
  {
    hide Sync;
    hide Mid;
    VotesNext(c, p.phase, r);
  }

  // A rank short of the votes of phase k is not past its own.
  lemma ShortOfVotes<S, M>(c: Config<S, M>, k: nat, r: nat, q: nat, p: Proc<S, M>, votes: seq<Trap>)
    requires ValidConfig(c) && r < |c.net| && q < |c.net| && ProcAgrees(c, q, p) && VotesAgree(c, q, p, votes)
    requires |votes| < |VotesBefore(c, k + 1, r)|
    ensures p.phase < k || (p.phase == k && p.stage != Vote(true))
  {
    hide Sync;
    hide Mid;
    VoteCounts(c, k + 1, r, q);
    VotesSoFar(c, q, p, votes);
    if p.phase > k {
      VotesPrefix(c, k + 1, p.phase, q);
      assert false;
    }
    if p.stage == Vote(true) {
      CastVotes(c, q, p, votes);
    }
  }

  // Who a rank blocked in an all-reduce waits for.
  lemma VoteWaitsOn<S, M>(c: Config<S, M>, sys: System<S, M>, r: nat) returns (q: nat)
    requires ValidConfig(c) && Invariant(c, sys) && r < |c.net| && Stuck(c, sys, r) && sys.procs[r].stage.Vote?
    ensures q < |c.net| && !Done(sys.procs[q])
    ensures sys.procs[q].phase < sys.procs[r].phase
      || (sys.procs[q].phase == sys.procs[r].phase && sys.procs[q].stage != Vote(true))
  {
    hide Sync;
    hide Mid;
    q :| 0 <= q < |c.net| && |sys.votes[q]| < |sys.votes[r]|;
    var k := sys.procs[r].phase;
    assert ProcAgrees(c, r, sys.procs[r]) && VotesAgree(c, r, sys.procs[r], sys.votes[r]);
    assert ProcAgrees(c, q, sys.procs[q]) && VotesAgree(c, q, sys.procs[q], sys.votes[q]);
    CastVotes(c, r, sys.procs[r], sys.votes[r]);
    ShortOfVotes(c, k, r, q, sys.procs[q], sys.votes[q]);
    if Done(sys.procs[q]) {
      AllFinished(c, sys.procs[q].phase, k, q, r);
      FinishedMid(c, k, r);
      assert false;
    }
  }

  // From a stuck rank, follow who waits for whom to one that can step.
  lemma {:induction false} FindEnabled<S, M>(c: Config<S, M>, sys: System<S, M>, w: (nat, nat) -> nat, r: nat)
    returns (e: nat)
    requires ValidConfig(c) && Waits(c.net, w) && Invariant(c, sys) && r < |c.net| && !Done(sys.procs[r])
    ensures e < |c.net| && Enabled(c, sys, e)
    decreases sys.procs[r].phase, sys.procs[r].stage.Vote?,
      if sys.procs[r].stage.Exchange? then w(r, sys.procs[r].stage.port) else 0
  {
    hide Sync;
    hide Mid;
    if Enabled(c, sys, r) {
      return r;
    }
    var p := sys.procs[r];
    var q: nat;
    if p.stage.Exchange? {
      q := ReceiveWaitsOn(c, sys, r);
      if Enabled(c, sys, q) {
        return q;
      }
      assert ProcAgrees(c, q, sys.procs[q]);
    } else {
      q := VoteWaitsOn(c, sys, r);
      if Enabled(c, sys, q) {
        return q;
      }
    }
    e := FindEnabled(c, sys, w, q);
  }

  // No run ever gets stuck: while some rank has not left its main loop, some rank
  // can take a step.
  lemma {:induction false} NoDeadlock<S, M>(c: Config<S, M>, w: (nat, nat) -> nat, schedule: seq<nat>, r: nat)
    requires ValidConfig(c) && Waits(c.net, w) && Run(c, schedule).Some? && r < |c.net|
    ensures WellSized(c, Run(c, schedule).value)
    ensures Done(Run(c, schedule).value.procs[r]) || exists e :: 0 <= e < |c.net| && Run(c, schedule + [e]).Some?
  {
    hide Sync;
    hide Mid;
    RunKeeps(c, schedule);
    var sys := Run(c, schedule).value;
    if !Done(sys.procs[r]) {
      var e := FindEnabled(c, sys, w, r);
      assert (schedule + [e])[..|schedule|] == schedule;
      assert Run(c, schedule + [e]).Some?;
    }
  }

  // ---------- every run that ends, ends with all ranks agreed ----------

  // Steps a rank takes in one phase at most: a send and a receive a port, eval,
  // and the two sides of a vote.
  const PHASE_STEPS: nat := 2 * PORTS + 3

  function Position<S, M>(p: Proc<S, M>): nat {
    PHASE_STEPS * p.phase + match p.stage
      case Exchange(port, sent) => 2 * port + if sent then 1 else 0
      case Vote(cast) => 2 * PORTS + if cast then 2 else 1
  }

  function Total<S, M>(procs: seq<Proc<S, M>>, n: nat): nat
    requires n <= |procs|
  {
    if n == 0 then 0 else Total(procs, n - 1) + Position(procs[n - 1])
  }

  lemma {:induction false} TotalGrows<S, M>(procs: seq<Proc<S, M>>, r: nat, p: Proc<S, M>, n: nat)
    requires r < |procs| && n <= |procs| && Position(p) > Position(procs[r])
    ensures Total(procs[r := p], n) >= Total(procs, n) + if r < n then 1 else 0
  {
    if n > 0 {
      TotalGrows(procs, r, p, n - 1);
    }
  }

  lemma {:induction false} TotalAtMost<S, M>(procs: seq<Proc<S, M>>, most: nat, n: nat)
    requires n <= |procs| && forall r :: 0 <= r < n ==> Position(procs[r]) <= most
    ensures Total(procs, n) <= n * most
  {
    if n > 0 {
      TotalAtMost(procs, most, n - 1);
      assert n * most == (n - 1) * most + most;
    }
  }

  // A step moves its rank forward and no other; a rank that enters a phase was
  // not finished in the one before.
  lemma {:induction false} StepAdvances<S, M>(c: Config<S, M>, sys: System<S, M>, r: nat)
    requires ValidConfig(c) && Invariant(c, sys) && r < |c.net| && Enabled(c, sys, r)
    ensures var p, p' := sys.procs[r], StepOf(c, sys, r).procs[r];
      && StepOf(c, sys, r).procs == sys.procs[r := p']
      && Position(p) < Position(p')
      && (p'.phase == p.phase || (p'.phase == p.phase + 1 && !Sync(c, p.phase)[r].ctl.Finished?))
  {
    hide Sync;
    hide Mid;
    var p := sys.procs[r];
    assert ProcAgrees(c, r, p);
    if p.stage.Vote? && Sync(c, p.phase)[r].ctl.Finished? {
      FinishedMid(c, p.phase, r);
    }
  }

  // The rank entered its phase although the one before had found it finished.
  ghost predicate Overran<S, M>(c: Config<S, M>, r: nat, phase: nat)
    requires ValidConfig(c) && r < |c.net|
  {
    phase > 0 && Sync(c, phase - 1)[r].ctl.Finished?
  }

  lemma StepStops<S, M>(c: Config<S, M>, sys: System<S, M>, e: nat, r: nat)
    requires ValidConfig(c) && Invariant(c, sys) && e < |c.net| && r < |c.net| && Enabled(c, sys, e)
    requires !Overran(c, r, sys.procs[r].phase)
    ensures |StepOf(c, sys, e).procs| == |c.net| && !Overran(c, r, StepOf(c, sys, e).procs[r].phase)
  {
    hide Sync;
    hide Mid;
    StepAdvances(c, sys, e);
  }

  // A rank stops at the first phase that finds it finished.
  lemma {:induction false} StopsAtFirst<S, M>(c: Config<S, M>, schedule: seq<nat>, r: nat)
    requires ValidConfig(c) && Run(c, schedule).Some? && r < |c.net|
    ensures WellSized(c, Run(c, schedule).value)
    ensures !Overran(c, r, Run(c, schedule).value.procs[r].phase)
  {
    hide Sync;
    hide Mid;
    RunKeeps(c, schedule);
    if schedule != [] {
      var n := |schedule| - 1;
      StopsAtFirst(c, schedule[..n], r);
      RunKeeps(c, schedule[..n]);
      StepStops(c, Run(c, schedule[..n]).value, schedule[n], r);
    }
  }

  // Two ranks that have left the main loop left it in the same phase, so after the
  // same number of exchange rounds, with the same verdict.  It is bad exactly when at
  // the deciding vote the first commit of some tile at a trap had been at a bad one, and
  // good exactly when that held for no tile and some tile's first one was a good one.
  lemma SameExit<S, M>(c: Config<S, M>, schedule: seq<nat>, r: nat, q: nat) returns (j: nat)
    requires ValidConfig(c) && Run(c, schedule).Some? && r < |c.net| && q < |c.net|
    requires WellSized(c, Run(c, schedule).value)
    requires Done(Run(c, schedule).value.procs[r]) && Done(Run(c, schedule).value.procs[q])
    ensures var p, p' := Run(c, schedule).value.procs[r], Run(c, schedule).value.procs[q];
      && p.phase == p'.phase && p.l.ctl.verdict == p'.l.ctl.verdict
      && j < p.phase && Decides(c, j, p.l.ctl.verdict)
  {
    var p, p' := Run(c, schedule).value.procs[r], Run(c, schedule).value.procs[q];
    RefinesLockstep(c, schedule, r);
    RefinesLockstep(c, schedule, q);
    NotBefore(c, schedule, r, q);
    NotBefore(c, schedule, q, r);
    SyncTogether(c, p.phase);
    assert p.phase > 0;
    j := VerdictOrigin(c, p.phase, r);
  }

  lemma {:induction false} NotBefore<S, M>(c: Config<S, M>, schedule: seq<nat>, r: nat, q: nat)
    requires ValidConfig(c) && Run(c, schedule).Some? && r < |c.net| && q < |c.net|
    requires WellSized(c, Run(c, schedule).value)
    requires Done(Run(c, schedule).value.procs[r])
    ensures Run(c, schedule).value.procs[q].phase <= Run(c, schedule).value.procs[r].phase
  {
    hide Sync;
    hide Mid;
    var k, k' := Run(c, schedule).value.procs[r].phase, Run(c, schedule).value.procs[q].phase;
    RefinesLockstep(c, schedule, r);
    StopsAtFirst(c, schedule, q);
    if k < k' {
      FinishedOverruns(c, k, k', r, q);
    }
  }

  lemma {:induction false} FinishedOverruns<S, M>(c: Config<S, M>, k: nat, k': nat, r: nat, q: nat)
    requires ValidConfig(c) && r < |c.net| && q < |c.net| && k < k' && Sync(c, k)[r].ctl.Finished?
    ensures Overran(c, q, k')
  {
    hide Sync;
    hide Mid;
    AllFinished(c, k, k' - 1, r, q);
  }

  lemma {:induction false} PositionAtMost<S, M>(c: Config<S, M>, schedule: seq<nat>, k: nat, r: nat)
    requires ValidConfig(c) && Run(c, schedule).Some? && r < |c.net| && Sync(c, k)[r].ctl.Finished?
    ensures WellSized(c, Run(c, schedule).value)
    ensures Position(Run(c, schedule).value.procs[r]) <= PHASE_STEPS * k
  {
    hide Sync;
    hide Mid;
    StopsAtFirst(c, schedule, r);
    RunKeeps(c, schedule);
    var p := Run(c, schedule).value.procs[r];
    assert ProcAgrees(c, r, p);
    if p.phase > k {
      FinishedOverruns(c, k, p.phase, r, r);
    } else if p.phase == k {
      FinishedMid(c, k, r);
    } else {
      assert PHASE_STEPS * (p.phase + 1) <= PHASE_STEPS * k;
    }
  }

  lemma {:induction false} StepsCounted<S, M>(c: Config<S, M>, schedule: seq<nat>)
    requires ValidConfig(c) && Run(c, schedule).Some?
    ensures WellSized(c, Run(c, schedule).value)
    ensures |schedule| <= Total(Run(c, schedule).value.procs, |c.net|)
  {
    hide Sync;
    hide Mid;
    RunKeeps(c, schedule);
    if schedule != [] {
      var n := |schedule| - 1;
      StepsCounted(c, schedule[..n]);
      RunKeeps(c, schedule[..n]);
      var sys := Run(c, schedule[..n]).value;
      StepAdvances(c, sys, schedule[n]);
      TotalGrows(sys.procs, schedule[n], StepOf(c, sys, schedule[n]).procs[schedule[n]], |c.net|);
    }
  }

  // If the lock-step machine finishes by phase k, so does every run: it takes a
  // bounded number of steps, and where no rank can take another, all have left.
  lemma {:induction false} EveryRunFinishes<S, M>(c: Config<S, M>, w: (nat, nat) -> nat, schedule: seq<nat>, k: nat)
    requires ValidConfig(c) && Waits(c.net, w) && Run(c, schedule).Some?
    requires forall r :: 0 <= r < |c.net| ==> Sync(c, k)[r].ctl.Finished?
    ensures |schedule| <= |c.net| * (PHASE_STEPS * k)
    ensures WellSized(c, Run(c, schedule).value)
    ensures (forall e :: 0 <= e < |c.net| ==> Run(c, schedule + [e]).None?) ==>
      forall r :: 0 <= r < |c.net| ==> Done(Run(c, schedule).value.procs[r])
  {
    hide Sync;
    hide Mid;
    StepsCounted(c, schedule);
    forall r | 0 <= r < |c.net|
      ensures Position(Run(c, schedule).value.procs[r]) <= PHASE_STEPS * k
      ensures Done(Run(c, schedule).value.procs[r]) || exists e :: 0 <= e < |c.net| && Run(c, schedule + [e]).Some?
    {
      PositionAtMost(c, schedule, k, r);
      NoDeadlock(c, w, schedule, r);
    }
    TotalAtMost(Run(c, schedule).value.procs, PHASE_STEPS * k, |c.net|);
  }
}
