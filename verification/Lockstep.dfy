// The distributed simulation of my_metro_tile.cpp, my_metro_chipset.cpp and
// my_metro_fake_mem.cpp: what each rank runs, and the lock-step machine that the
// ranks together should be.

module Traps {
  const CONTINUE: nat := 0
  const GOOD_EXIT: nat := 1
  const BAD_EXIT: nat := 2

  type Trap = t: nat | t <= 2

  datatype Commit = Commit(done: bool, pc: nat)

  // What one committed instruction says; bad traps are looked up first.
  function TrapOf(c: Commit, good: seq<nat>, bad: seq<nat>): Trap {
    if !c.done then CONTINUE else if c.pc in bad then BAD_EXIT else if c.pc in good then GOOD_EXIT else CONTINUE
  }

  // The first commit that says anything decides.
  function FirstTrap(cs: seq<Commit>, good: seq<nat>, bad: seq<nat>): Trap {
    if cs == [] then CONTINUE
    else if TrapOf(cs[0], good, bad) != CONTINUE then TrapOf(cs[0], good, bad)
    else FirstTrap(cs[1..], good, bad)
  }

  // check_trap_per_commit
  method CheckTrapPerCommit(c: Commit, good: seq<nat>, bad: seq<nat>) returns (trap: Trap)
    ensures trap == TrapOf(c, good, bad)
  {
    if !c.done {
      return CONTINUE;
    }
    for i := 0 to |bad|
      invariant forall j :: 0 <= j < i ==> bad[j] != c.pc
    {
      if c.pc == bad[i] {
        return BAD_EXIT;
      }
    }
    for i := 0 to |good|
      invariant forall j :: 0 <= j < i ==> good[j] != c.pc
    {
      if c.pc == good[i] {
        return GOOD_EXIT;
      }
    }
    return CONTINUE;
  }

  // check_trap
  method CheckTrap(cs: seq<Commit>, good: seq<nat>, bad: seq<nat>) returns (trap: Trap)
    ensures trap == FirstTrap(cs, good, bad)
  {
    trap := CONTINUE;
    var i := 0;
    while i < |cs|
      invariant 0 <= i <= |cs|
      invariant FirstTrap(cs, good, bad) == if trap == CONTINUE then FirstTrap(cs[i..], good, bad) else trap
    {
      if trap == CONTINUE {
        trap := CheckTrapPerCommit(cs[i], good, bad);
      }
      assert cs[i..][1..] == cs[i + 1..];
      i := i + 1;
    }
  }

  // A tile reports a trap exactly when some commit hits one, and then the first
  // such commit's.
  lemma {:induction false} FirstTrapIs(cs: seq<Commit>, good: seq<nat>, bad: seq<nat>)
    ensures FirstTrap(cs, good, bad) == CONTINUE <==>
      forall i :: 0 <= i < |cs| ==> TrapOf(cs[i], good, bad) == CONTINUE
    ensures FirstTrap(cs, good, bad) != CONTINUE ==>
      exists i :: 0 <= i < |cs| && TrapOf(cs[i], good, bad) == FirstTrap(cs, good, bad)
               && forall j :: 0 <= j < i ==> TrapOf(cs[j], good, bad) == CONTINUE
  {
    if cs != [] {
      FirstTrapIs(cs[1..], good, bad);
      assert forall i :: 0 < i < |cs| ==> cs[i] == cs[1..][i - 1];
      if TrapOf(cs[0], good, bad) == CONTINUE && FirstTrap(cs, good, bad) != CONTINUE {
        var i :| 0 <= i < |cs| - 1 && TrapOf(cs[1..][i], good, bad) == FirstTrap(cs[1..], good, bad)
              && forall j :: 0 <= j < i ==> TrapOf(cs[1..][j], good, bad) == CONTINUE;
        assert TrapOf(cs[i + 1], good, bad) == FirstTrap(cs, good, bad);
        forall j | 0 <= j < i + 1
          ensures TrapOf(cs[j], good, bad) == CONTINUE
        {
          assert j == 0 || cs[j] == cs[1..][j - 1];
        }
      }
    }
  }
}

module Lockstep {
  import opened Common
  import opened Traps

  // Ports in the order mpi_work_opt serves them: East, North, West, South.
  const PORTS: nat := 4

  function Opp(p: nat): (q: nat)
    requires p < PORTS
    ensures q < PORTS
  {
    (p + 2) % PORTS
  }

  // Who is at the other end of each port of each rank, if anyone.
  type Net = seq<seq<Option<nat>>>

  ghost predicate WellWired(net: Net) {
    && (forall r :: 0 <= r < |net| ==> |net[r]| == PORTS)
    && (forall r, p :: 0 <= r < |net| && 0 <= p < PORTS && net[r][p].Some? ==>
          net[r][p].value < |net| && net[net[r][p].value][Opp(p)] == Some(r))
    && (forall r, p, p' ::
          0 <= r < |net| && 0 <= p < PORTS && 0 <= p' < PORTS && net[r][p].Some? && net[r][p] == net[r][p'] ==> p == p')
  }

  // The model a rank simulates and the delays of its main loop.
  //   out:   what noc_chanel_out holds for a port
  //   eval:  top->eval() with the clock low and these channel inputs
  //   rise:  top->eval() with the clock high, which starts a tick
  //   boot:  the local ticks of reset_and_init after its one exchanging tick
  //   commits: inst_done and phy_pc_w of a tile
  datatype Config<!S, !M> = Config(
    net: Net,
    start: seq<S>,
    out: (nat, S, nat) -> M,
    eval: (nat, S, seq<Option<M>>) -> S,
    rise: (nat, S) -> S,
    boot: (nat, S) -> S,
    isTile: nat -> bool,
    commits: (nat, S) -> seq<Commit>,
    goodTraps: seq<nat>,
    badTraps: seq<nat>,
    smartMax: nat,
    initialDelay: nat,
    interval: nat,
    endDelay: nat)

  ghost predicate ValidConfig<S, M>(c: Config<S, M>) {
    WellWired(c.net) && |c.start| == |c.net|
  }

  // Where a rank is in its program.  `left` counts the exchange rounds left in
  // the current tick, the current one included.
  datatype Control =
    | Resetting(left: nat)
    | Running(left: nat, check: nat)
    | Voting
    | Draining(left: nat, ticks: nat, verdict: Trap)
    | Finished(verdict: Trap)

  datatype Local<S> = Local(ctl: Control, s: S, latched: Trap)

  // reset_and_init runs mpi_tick while smart_max is still 0.
  const RESET_ROUNDS: nat := 2

  function Begin<S, M>(c: Config<S, M>, r: nat): Local<S>
    requires r < |c.start|
  {
    Local(Resetting(RESET_ROUNDS), c.start[r], CONTINUE)
  }

  function StartTick<S, M>(c: Config<S, M>, r: nat, ctl: Control, s: S, latched: Trap): Local<S> {
    Local(ctl, c.rise(r, s), latched)
  }

  // The end of one exchange round: eval, and at the end of a tick whatever the
  // rank's loop does next.
  function AfterRound<S, M>(c: Config<S, M>, r: nat, l: Local<S>, ins: seq<Option<M>>): Local<S> {
    var s := c.eval(r, l.s, ins);
    match l.ctl
    case Resetting(left) =>
      if left > 1 then Local(Resetting(left - 1), s, l.latched)
      else StartTick(c, r, Running(c.smartMax + 2, c.initialDelay), c.boot(r, s), l.latched)
    case Running(left, check) =>
      if left > 1 then Local(Running(left - 1, check), s, l.latched)
      else
        var latched := if c.isTile(r) && l.latched == CONTINUE
                       then FirstTrap(c.commits(r, s), c.goodTraps, c.badTraps) else l.latched;
        if check == 0 then Local(Voting, s, latched)
        else StartTick(c, r, Running(c.smartMax + 2, check - 1), s, latched)
    case Draining(left, ticks, v) =>
      if left > 1 then Local(Draining(left - 1, ticks, v), s, l.latched)
      else if ticks == 0 then Local(Finished(v), s, l.latched)
      else StartTick(c, r, Draining(c.smartMax + 2, ticks - 1, v), s, l.latched)
    case _ => l
  }

  // The end of a vote: another stretch of ticks, or the closing ticks.
  function AfterVote<S, M>(c: Config<S, M>, r: nat, l: Local<S>, verdict: Trap): Local<S> {
    if verdict == CONTINUE then StartTick(c, r, Running(c.smartMax + 2, c.interval), l.s, l.latched)
    else if c.endDelay == 0 then Local(Finished(verdict), l.s, l.latched)
    else StartTick(c, r, Draining(c.smartMax + 2, c.endDelay - 1, verdict), l.s, l.latched)
  }

  // ---------- all ranks in lock step ----------

  type World<S> = seq<Local<S>>

  // What the neighbours put out, port by port.
  function InputsOf<S, M>(c: Config<S, M>, w: World<S>, r: nat): (ins: seq<Option<M>>)
    requires WellWired(c.net) && |w| == |c.net| && r < |w|
    ensures |ins| == PORTS
  {
    seq(PORTS, p requires 0 <= p < PORTS && r < |c.net| && WellWired(c.net) && |w| == |c.net| =>
      if c.net[r][p].None? then None else Some(c.out(c.net[r][p].value, w[c.net[r][p].value].s, Opp(p))))
  }

  // The first n ranks after one exchange round.
  function RoundTo<S, M>(c: Config<S, M>, w: World<S>, n: nat): (mid: World<S>)
    requires WellWired(c.net) && |w| == |c.net| && n <= |w|
    ensures |mid| == n
  {
    if n == 0 then [] else RoundTo(c, w, n - 1) + [AfterRound(c, n - 1, w[n - 1], InputsOf(c, w, n - 1))]
  }

  function RoundOf<S, M>(c: Config<S, M>, w: World<S>): (mid: World<S>)
    requires WellWired(c.net) && |w| == |c.net|
    ensures |mid| == |w|
  {
    RoundTo(c, w, |w|)
  }

  lemma {:induction false} RoundAt<S, M>(c: Config<S, M>, w: World<S>, n: nat, r: nat)
    requires WellWired(c.net) && |w| == |c.net| && r < n <= |w|
    ensures RoundTo(c, w, n)[r] == AfterRound(c, r, w[r], InputsOf(c, w, r))
  {
    if r < n - 1 {
      RoundAt(c, w, n - 1, r);
    }
  }

  // MPI_Allreduce with MPI_MAX.
  function MaxLatched<S>(w: World<S>): (m: Trap)
    ensures forall r :: 0 <= r < |w| ==> w[r].latched <= m
    ensures m == CONTINUE || exists r :: 0 <= r < |w| && w[r].latched == m
  {
    if w == [] then CONTINUE
    else
      var rest := MaxLatched(w[..|w| - 1]);
      assert forall r :: 0 <= r < |w| - 1 ==> w[..|w| - 1][r] == w[r];
      if w[|w| - 1].latched >= rest then w[|w| - 1].latched else rest
  }

  ghost predicate AllVote<S>(mid: World<S>) {
    mid != [] && mid[0].ctl.Voting?
  }

  // The first n ranks after a vote.
  function VoteTo<S, M>(c: Config<S, M>, mid: World<S>, verdict: Trap, n: nat): (w': World<S>)
    requires n <= |mid|
    ensures |w'| == n
  {
    if n == 0 then [] else VoteTo(c, mid, verdict, n - 1) + [AfterVote(c, n - 1, mid[n - 1], verdict)]
  }

  lemma {:induction false} VoteAt<S, M>(c: Config<S, M>, mid: World<S>, verdict: Trap, n: nat, r: nat)
    requires r < n <= |mid|
    ensures VoteTo(c, mid, verdict, n)[r] == AfterVote(c, r, mid[r], verdict)
  {
    if r < n - 1 {
      VoteAt(c, mid, verdict, n - 1, r);
    }
  }

  // One phase: an exchange round, and a vote if the loop has come to one.
  ghost function PhaseOf<S, M>(c: Config<S, M>, w: World<S>): (w': World<S>)
    requires WellWired(c.net) && |w| == |c.net|
    ensures |w'| == |w|
  {
    var mid := RoundOf(c, w);
    if AllVote(mid) then VoteTo(c, mid, MaxLatched(mid), |mid|) else mid
  }

  ghost function Sync<S, M>(c: Config<S, M>, k: nat): (w: World<S>)
    requires ValidConfig(c)
    ensures |w| == |c.net|
  {
    if k == 0 then seq(|c.net|, r requires 0 <= r < |c.start| => Begin(c, r)) else PhaseOf(c, Sync(c, k - 1))
  }

  ghost function Mid<S, M>(c: Config<S, M>, k: nat): (w: World<S>)
    requires ValidConfig(c)
    ensures |w| == |c.net|
  {
    RoundOf(c, Sync(c, k))
  }

  // ---------- the lock-step machine keeps its ranks together ----------

  ghost predicate Together<S>(w: World<S>) {
    forall r :: 0 <= r < |w| ==> w[r].ctl == w[0].ctl
  }

  // A rank's next control does not depend on its state, so one round keeps all
  // ranks at one place in their programs.
  lemma RoundTogether<S, M>(c: Config<S, M>, w: World<S>)
    requires WellWired(c.net) && |w| == |c.net| && Together(w)
    ensures Together(RoundOf(c, w))
  {
    forall r | 0 <= r < |w|
      ensures RoundOf(c, w)[r].ctl == RoundOf(c, w)[0].ctl
    {
      RoundAt(c, w, |w|, r);
      RoundAt(c, w, |w|, 0);
    }
  }

  lemma PhaseTogether<S, M>(c: Config<S, M>, w: World<S>)
    requires WellWired(c.net) && |w| == |c.net| && Together(w)
    ensures Together(PhaseOf(c, w))
  {
    var mid := RoundOf(c, w);
    RoundTogether(c, w);
    if AllVote(mid) {
      forall r | 0 <= r < |w|
        ensures PhaseOf(c, w)[r].ctl == PhaseOf(c, w)[0].ctl
      {
        VoteAt(c, mid, MaxLatched(mid), |mid|, r);
        VoteAt(c, mid, MaxLatched(mid), |mid|, 0);
      }
    }
  }

  lemma {:induction false} SyncTogether<S, M>(c: Config<S, M>, k: nat)
    requires ValidConfig(c)
    ensures Together(Sync(c, k))
  {
    if k > 0 {
      SyncTogether(c, k - 1);
      PhaseTogether(c, Sync(c, k - 1));
    }
  }

  lemma MidTogether<S, M>(c: Config<S, M>, k: nat)
    requires ValidConfig(c)
    ensures Together(Mid(c, k))
  {
    SyncTogether(c, k);
    RoundTogether(c, Sync(c, k));
  }

  // What one phase does to one rank of a world that is together.
  lemma PhaseAt<S, M>(c: Config<S, M>, w: World<S>, r: nat)
    requires WellWired(c.net) && |w| == |c.net| && Together(w) && r < |w|
    ensures var l := AfterRound(c, r, w[r], InputsOf(c, w, r));
      && RoundOf(c, w)[r] == l
      && (AllVote(RoundOf(c, w)) <==> l.ctl.Voting?)
      && PhaseOf(c, w)[r] == if l.ctl.Voting? then AfterVote(c, r, l, MaxLatched(RoundOf(c, w))) else l
  {
    var mid := RoundOf(c, w);
    RoundTogether(c, w);
    RoundAt(c, w, |w|, r);
    VoteAt(c, mid, MaxLatched(mid), |mid|, r);
  }

  lemma SyncAt<S, M>(c: Config<S, M>, k: nat, r: nat)
    requires ValidConfig(c) && r < |c.net|
    ensures var l := Mid(c, k)[r];
      && l == AfterRound(c, r, Sync(c, k)[r], InputsOf(c, Sync(c, k), r))
      && Sync(c, k + 1)[r] == if l.ctl.Voting? then AfterVote(c, r, l, MaxLatched(Mid(c, k))) else l
  {
    SyncTogether(c, k);
    PhaseAt(c, Sync(c, k), r);
  }

  lemma FinishedPhase<S, M>(c: Config<S, M>, w: World<S>, r: nat)
    requires WellWired(c.net) && |w| == |c.net| && Together(w) && r < |w| && w[r].ctl.Finished?
    ensures PhaseOf(c, w)[r] == w[r]
  {
    PhaseAt(c, w, r);
  }

  lemma LatchPhase<S, M>(c: Config<S, M>, w: World<S>, r: nat)
    requires WellWired(c.net) && |w| == |c.net| && Together(w) && r < |w|
    ensures w[r].latched != CONTINUE ==> PhaseOf(c, w)[r].latched == w[r].latched
    ensures !c.isTile(r) ==> PhaseOf(c, w)[r].latched == w[r].latched == RoundOf(c, w)[r].latched
  {
    PhaseAt(c, w, r);
  }

  lemma {:induction false} FinishedStays<S, M>(c: Config<S, M>, j: nat, k: nat, r: nat)
    requires ValidConfig(c) && r < |c.net| && j <= k
    requires Sync(c, j)[r].ctl.Finished?
    ensures Sync(c, k)[r] == Sync(c, j)[r]
    decreases k
  {
    hide PhaseOf;
    hide RoundOf;
    if j < k {
      FinishedStays(c, j, k - 1, r);
      SyncTogether(c, k - 1);
      FinishedPhase(c, Sync(c, k - 1), r);
    }
  }

  // A latched trap is never replaced.
  lemma {:induction false} LatchStays<S, M>(c: Config<S, M>, j: nat, k: nat, r: nat)
    requires ValidConfig(c) && r < |c.net| && j <= k
    requires Sync(c, j)[r].latched != CONTINUE
    ensures Sync(c, k)[r].latched == Sync(c, j)[r].latched
    decreases k
  {
    hide PhaseOf;
    hide RoundOf;
    if j < k {
      LatchStays(c, j, k - 1, r);
      SyncTogether(c, k - 1);
      LatchPhase(c, Sync(c, k - 1), r);
    }
  }

  // Only tiles latch traps.
  lemma {:induction false} OnlyTilesLatch<S, M>(c: Config<S, M>, k: nat, r: nat)
    requires ValidConfig(c) && r < |c.net| && !c.isTile(r)
    ensures Sync(c, k)[r].latched == CONTINUE && Mid(c, k)[r].latched == CONTINUE
  {
    hide PhaseOf;
    hide RoundOf;
    if k > 0 {
      OnlyTilesLatch(c, k - 1, r);
      SyncTogether(c, k - 1);
      LatchPhase(c, Sync(c, k - 1), r);
    }
    SyncTogether(c, k);
    LatchPhase(c, Sync(c, k), r);
  }

  // ---------- what a rank's model sees ----------

  // What eval makes of a rank's model in phase k: port by port it is given what the
  // neighbour there puts out on the port that faces it.
  ghost function Evaluated<S, M>(c: Config<S, M>, k: nat, r: nat): S
    requires ValidConfig(c) && r < |c.net|
  {
    c.eval(r, Sync(c, k)[r].s, InputsOf(c, Sync(c, k), r))
  }

  // A tick begins with as many rounds to go as a tick has.
  predicate BeginsTick(ctl: Control, rounds: nat) {
    (ctl.Running? || ctl.Draining?) && ctl.left == rounds
  }

  // The control a rank has at the start of a phase.
  ghost predicate Sound<S, M>(c: Config<S, M>, k: nat, ctl: Control) {
    match ctl
    case Resetting(left) => left + k == RESET_ROUNDS && left > 0
    case Running(left, _) => 1 <= left <= c.smartMax + 2 && k >= RESET_ROUNDS
    case Draining(left, _, _) => 1 <= left <= c.smartMax + 2 && k >= RESET_ROUNDS
    case Voting => false
    case Finished(_) => k >= RESET_ROUNDS
  }

  lemma {:induction false} SyncSound<S, M>(c: Config<S, M>, k: nat, r: nat)
    requires ValidConfig(c) && r < |c.net|
    ensures Sound(c, k, Sync(c, k)[r].ctl)
  {
    hide PhaseOf;
    if k == 0 {
      assert Sync(c, 0)[r] == Begin(c, r);
    } else {
      SyncSound(c, k - 1, r);
      SoundStep(c, k - 1, r);
    }
  }

  lemma {:induction false} SoundStep<S, M>(c: Config<S, M>, k: nat, r: nat)
    requires ValidConfig(c) && r < |c.net| && Sound(c, k, Sync(c, k)[r].ctl)
    ensures Sound(c, k + 1, Sync(c, k + 1)[r].ctl)
  {
    hide Sync;
    hide Mid;
    SyncAt(c, k, r);
  }

  // The model of a rank is evaluated once a round, on what its neighbours put out in
  // that round, and its clock rises where a tick begins; the rest of the reset comes
  // between the two at the end of round RESET_ROUNDS.
  lemma {:induction false} StatesFollow<S, M>(c: Config<S, M>, k: nat, r: nat, ins: seq<Option<M>>)
    requires ValidConfig(c) && r < |c.net| && !Sync(c, k)[r].ctl.Finished? && |ins| == PORTS
    requires forall p :: 0 <= p < PORTS ==>
      ins[p] == if c.net[r][p].None? then None
                else Some(c.out(c.net[r][p].value, Sync(c, k)[c.net[r][p].value].s, Opp(p)))
    ensures Sync(c, 0)[r].s == c.start[r]
    ensures var s := c.eval(r, Sync(c, k)[r].s, ins);
      Sync(c, k + 1)[r].s ==
        if BeginsTick(Sync(c, k + 1)[r].ctl, c.smartMax + 2) then
          c.rise(r, if k + 1 == RESET_ROUNDS then c.boot(r, s) else s)
        else s
  {
    assert Sync(c, 0)[r] == Begin(c, r);
    hide Sync;
    hide Mid;
    assert ins == InputsOf(c, Sync(c, k), r);
    SyncSound(c, k, r);
    SyncAt(c, k, r);
  }

  // ---------- what a tile latches ----------

  // Phase j ends a tick of the main loop, so its commits are looked at.
  ghost predicate Checked<S, M>(c: Config<S, M>, j: nat, r: nat)
    requires ValidConfig(c) && r < |c.net|
  {
    Sync(c, j)[r].ctl.Running? && Sync(c, j)[r].ctl.left == 1
  }

  // What rank r has committed by the end of phase j.
  ghost function CommitsAt<S, M>(c: Config<S, M>, j: nat, r: nat): seq<Commit>
    requires ValidConfig(c) && r < |c.net|
  {
    c.commits(r, Evaluated(c, j, r))
  }

  ghost predicate Hit<S, M>(c: Config<S, M>, m: Commit) {
    m.done && (m.pc in c.badTraps || m.pc in c.goodTraps)
  }

  ghost predicate HitAt<S, M>(c: Config<S, M>, r: nat, j: nat, i: nat)
    requires ValidConfig(c) && r < |c.net|
  {
    Checked(c, j, r) && i < |CommitsAt(c, j, r)| && Hit(c, CommitsAt(c, j, r)[i])
  }

  // Commit i of phase j is the first of rank r, in phases up to k, to hit a trap.
  ghost predicate FirstHit<S, M>(c: Config<S, M>, k: nat, r: nat, j: nat, i: nat)
    requires ValidConfig(c) && r < |c.net|
  {
    && j <= k && HitAt(c, r, j, i)
    && forall j': nat, i': nat :: (j' < j || (j' == j && i' < i)) ==> !HitAt(c, r, j', i')
  }

  // The first commit of a tile by phase k that hits a trap hits a bad one.
  ghost predicate HitsBad<S, M>(c: Config<S, M>, k: nat, r: nat)
    requires ValidConfig(c) && r < |c.net|
  {
    exists j: nat, i: nat :: FirstHit(c, k, r, j, i) && CommitsAt(c, j, r)[i].pc in c.badTraps
  }

  // ... hits a trap that is good and not bad.
  ghost predicate HitsGood<S, M>(c: Config<S, M>, k: nat, r: nat)
    requires ValidConfig(c) && r < |c.net|
  {
    exists j: nat, i: nat :: FirstHit(c, k, r, j, i) && CommitsAt(c, j, r)[i].pc !in c.badTraps
  }

  ghost predicate HitsNone<S, M>(c: Config<S, M>, k: nat, r: nat)
    requires ValidConfig(c) && r < |c.net|
  {
    forall j: nat, i: nat :: j <= k ==> !HitAt(c, r, j, i)
  }

  // What one phase adds to a latch.
  lemma {:induction false} LatchStep<S, M>(c: Config<S, M>, k: nat, r: nat)
    requires ValidConfig(c) && r < |c.net| && c.isTile(r)
    ensures Sync(c, 0)[r].latched == CONTINUE && Sync(c, k + 1)[r].latched == Mid(c, k)[r].latched
    ensures Mid(c, k)[r].latched ==
      if Sync(c, k)[r].latched != CONTINUE || !Checked(c, k, r) then Sync(c, k)[r].latched
      else FirstTrap(CommitsAt(c, k, r), c.goodTraps, c.badTraps)
  {
    assert Sync(c, 0)[r] == Begin(c, r);
    hide Sync;
    hide Mid;
    SyncSound(c, k, r);
    SyncAt(c, k, r);
  }

  // The same for the trap of one list of commits.
  lemma {:induction false} FirstOfList<S, M>(c: Config<S, M>, cs: seq<Commit>)
    ensures var t := FirstTrap(cs, c.goodTraps, c.badTraps);
      if t == CONTINUE then forall i :: 0 <= i < |cs| ==> !Hit(c, cs[i])
      else exists i :: 0 <= i < |cs| && Hit(c, cs[i]) && (t == BAD_EXIT <==> cs[i].pc in c.badTraps)
                       && forall i' :: 0 <= i' < i ==> !Hit(c, cs[i'])
  {
    FirstTrapIs(cs, c.goodTraps, c.badTraps);
  }

  // A hit before phase k is one by phase k.
  lemma {:induction false} HitEarlier<S, M>(c: Config<S, M>, k: nat, r: nat)
    requires ValidConfig(c) && r < |c.net| && k > 0
    ensures HitsBad(c, k - 1, r) ==> HitsBad(c, k, r)
    ensures HitsGood(c, k - 1, r) ==> HitsGood(c, k, r)
  {
    hide CommitsAt;
    hide Checked;
    hide Hit;
    if HitsBad(c, k - 1, r) {
      var j: nat, i: nat :| FirstHit(c, k - 1, r, j, i) && CommitsAt(c, j, r)[i].pc in c.badTraps;
      assert FirstHit(c, k, r, j, i);
    }
    if HitsGood(c, k - 1, r) {
      var j: nat, i: nat :| FirstHit(c, k - 1, r, j, i) && CommitsAt(c, j, r)[i].pc !in c.badTraps;
      assert FirstHit(c, k, r, j, i);
    }
  }

  // A tile that found nothing before phase k and finds something in it.
  lemma {:induction false} HitNow<S, M>(c: Config<S, M>, k: nat, r: nat)
    requires ValidConfig(c) && r < |c.net| && Checked(c, k, r)
    requires forall j: nat, i: nat :: j < k ==> !HitAt(c, r, j, i)
    ensures var t := FirstTrap(CommitsAt(c, k, r), c.goodTraps, c.badTraps);
      if t == BAD_EXIT then HitsBad(c, k, r) else if t == GOOD_EXIT then HitsGood(c, k, r) else HitsNone(c, k, r)
  {
    var cs := CommitsAt(c, k, r);
    var t := FirstTrap(cs, c.goodTraps, c.badTraps);
    FirstOfList(c, cs);
    if t != CONTINUE {
      var i: nat :| i < |cs| && Hit(c, cs[i]) && (t == BAD_EXIT <==> cs[i].pc in c.badTraps)
                    && forall i' :: 0 <= i' < i ==> !Hit(c, cs[i']);
      assert HitAt(c, r, k, i);
      assert FirstHit(c, k, r, k, i);
    }
  }

  // What a tile has latched by the end of a phase: the trap of the first commit, in the
  // ticks of its main loop, that hit one, bad traps before good ones; nothing if none did.
  lemma {:induction false} LatchIs<S, M>(c: Config<S, M>, k: nat, r: nat)
    requires ValidConfig(c) && r < |c.net| && c.isTile(r)
    ensures Mid(c, k)[r].latched == BAD_EXIT ==> HitsBad(c, k, r)
    ensures Mid(c, k)[r].latched == GOOD_EXIT ==> HitsGood(c, k, r)
    ensures Mid(c, k)[r].latched == CONTINUE ==> HitsNone(c, k, r)
  {
    hide Sync;
    hide Mid;
    hide HitsBad;
    hide HitsGood;
    hide CommitsAt;
    LatchStep(c, k, r);
    if k > 0 {
      LatchIs(c, k - 1, r);
      LatchStep(c, k - 1, r);
      HitEarlier(c, k, r);
    }
    if Sync(c, k)[r].latched == CONTINUE && Checked(c, k, r) {
      HitNow(c, k, r);
    }
  }

  // There is one first hit, so the three cases exclude each other.
  lemma {:induction false} OneFirstHit<S, M>(c: Config<S, M>, k: nat, r: nat)
    requires ValidConfig(c) && r < |c.net|
    ensures !(HitsBad(c, k, r) && HitsGood(c, k, r)) && !(HitsNone(c, k, r) && (HitsBad(c, k, r) || HitsGood(c, k, r)))
  {
    hide HitAt;
    forall j: nat, i: nat, j': nat, i': nat | FirstHit(c, k, r, j, i) && FirstHit(c, k, r, j', i')
      ensures j == j' && i == i'
    {
      assert !(j < j' || (j == j' && i < i')) && !(j' < j || (j == j' && i' < i));
    }
  }

  lemma {:induction false} LatchedIff<S, M>(c: Config<S, M>, k: nat, r: nat)
    requires ValidConfig(c) && r < |c.net| && c.isTile(r)
    ensures Mid(c, k)[r].latched == BAD_EXIT <==> HitsBad(c, k, r)
    ensures Mid(c, k)[r].latched == GOOD_EXIT <==> HitsGood(c, k, r)
    ensures Mid(c, k)[r].latched == CONTINUE <==> HitsNone(c, k, r)
  {
    hide Mid;
    hide HitsBad;
    hide HitsGood;
    hide HitsNone;
    LatchIs(c, k, r);
    OneFirstHit(c, k, r);
  }

  // ---------- the verdict ----------

  function VerdictOf(ctl: Control): Option<Trap> {
    match ctl
    case Draining(_, _, v) => Some(v)
    case Finished(v) => Some(v)
    case _ => None
  }

  // The vote of phase j decides v: bad exactly when the first commit of some tile to hit
  // a trap hit a bad one, good exactly when none did and some tile's hit a good one.
  ghost predicate Decides<S, M>(c: Config<S, M>, j: nat, v: Trap)
    requires ValidConfig(c)
  {
    && AllVote(Mid(c, j)) && v != CONTINUE
    && (v == BAD_EXIT <==> exists q :: 0 <= q < |c.net| && c.isTile(q) && HitsBad(c, j, q))
    && (v == GOOD_EXIT ==> exists q :: 0 <= q < |c.net| && c.isTile(q) && HitsGood(c, j, q))
  }

  lemma {:induction false} VoteDecides<S, M>(c: Config<S, M>, j: nat)
    requires ValidConfig(c) && AllVote(Mid(c, j)) && MaxLatched(Mid(c, j)) != CONTINUE
    ensures Decides(c, j, MaxLatched(Mid(c, j)))
  {
    hide Mid;
    hide HitsBad;
    hide HitsGood;
    hide HitsNone;
    hide AllVote;
    var w, v := Mid(c, j), MaxLatched(Mid(c, j));
    forall q | 0 <= q < |c.net|
      ensures c.isTile(q) ==>
        && (w[q].latched == BAD_EXIT <==> HitsBad(c, j, q))
        && (w[q].latched == GOOD_EXIT <==> HitsGood(c, j, q))
      ensures !c.isTile(q) ==> w[q].latched == CONTINUE
    {
      if c.isTile(q) {
        LatchedIff(c, j, q);
      } else {
        OnlyTilesLatch(c, j, q);
      }
    }
    var q :| 0 <= q < |w| && w[q].latched == v;
    assert c.isTile(q);
  }

  // Whatever verdict a rank carries comes from one vote, and so from the commits of
  // the tiles.
  lemma {:induction false} VerdictOrigin<S, M>(c: Config<S, M>, k: nat, r: nat) returns (j: nat)
    requires ValidConfig(c) && r < |c.net| && 0 < k && VerdictOf(Sync(c, k)[r].ctl).Some?
    ensures j < k && Decides(c, j, VerdictOf(Sync(c, k)[r].ctl).value)
  {
    hide PhaseOf;
    hide RoundOf;
    j := k - 1;
    SyncTogether(c, j);
    VerdictPhase(c, Sync(c, j), r);
    if VerdictOf(Sync(c, j)[r].ctl).Some? {
      j := VerdictOrigin(c, j, r);
    } else {
      VoteDecides(c, j);
    }
  }

  lemma VerdictPhase<S, M>(c: Config<S, M>, w: World<S>, r: nat)
    requires WellWired(c.net) && |w| == |c.net| && Together(w) && r < |w|
    requires VerdictOf(PhaseOf(c, w)[r].ctl).Some?
    ensures if VerdictOf(w[r].ctl).Some? then VerdictOf(PhaseOf(c, w)[r].ctl) == VerdictOf(w[r].ctl)
      else AllVote(RoundOf(c, w)) && VerdictOf(PhaseOf(c, w)[r].ctl).value == MaxLatched(RoundOf(c, w)) != CONTINUE
  {
    PhaseAt(c, w, r);
  }

  // A vote sends every rank on exactly when no commit of any tile has hit a trap.
  lemma {:induction false} UndecidedRunsOn<S, M>(c: Config<S, M>, j: nat, r: nat)
    requires ValidConfig(c) && r < |c.net| && AllVote(Mid(c, j))
    ensures (forall q :: 0 <= q < |c.net| && c.isTile(q) ==> HitsNone(c, j, q))
        <==> Sync(c, j + 1)[r].ctl == Running(c.smartMax + 2, c.interval)
  {
    hide Sync;
    hide Mid;
    hide HitsNone;
    forall q | 0 <= q < |c.net|
      ensures Mid(c, j)[q].latched == CONTINUE <==> (c.isTile(q) ==> HitsNone(c, j, q))
    {
      if c.isTile(q) {
        LatchedIff(c, j, q);
      } else {
        OnlyTilesLatch(c, j, q);
      }
    }
    MidTogether(c, j);
    SyncAt(c, j, r);
  }

  // ---------- when votes happen ----------

  // Exchange rounds of a tick once smart_max is known.
  function RoundsPerTick<S, M>(c: Config<S, M>): nat {
    c.smartMax + 2
  }

  // Exchange rounds of so many ticks.
  function Rounds<S, M>(c: Config<S, M>, ticks: nat): (n: nat)
    ensures n == ticks * RoundsPerTick(c)
  {
    if ticks == 0 then 0 else RoundsPerTick(c) + Rounds(c, ticks - 1)
  }

  ghost predicate VoteIn<S, M>(c: Config<S, M>, k: nat, r: nat)
    requires ValidConfig(c) && r < |c.net|
  {
    Mid(c, k)[r].ctl.Voting?
  }

  // One round of a rank that is running.
  lemma RunningRound<S, M>(c: Config<S, M>, k: nat, r: nat, left: nat, check: nat)
    requires ValidConfig(c) && r < |c.net| && Sync(c, k)[r].ctl == Running(left, check) && left >= 1
    ensures VoteIn(c, k, r) <==> left == 1 && check == 0
    ensures left > 1 ==> Sync(c, k + 1)[r].ctl == Running(left - 1, check)
    ensures left == 1 && check > 0 ==> Sync(c, k + 1)[r].ctl == Running(RoundsPerTick(c), check - 1)
  {
    hide Sync;
    hide Mid;
    SyncAt(c, k, r);
  }

  // A rank with `left` rounds of its tick to go and `check` ticks behind it votes in
  // the last of those rounds and in none before.
  lemma {:induction false} NextVote<S, M>(c: Config<S, M>, k: nat, r: nat, left: nat, check: nat)
    requires ValidConfig(c) && r < |c.net| && Sync(c, k)[r].ctl == Running(left, check) && left >= 1
    ensures var n := left + Rounds(c, check);
      VoteIn(c, k + n - 1, r) && forall j :: k <= j < k + n - 1 ==> !VoteIn(c, j, r)
    decreases check, left
  {
    hide Sync;
    hide VoteIn;
    RunningRound(c, k, r, left, check);
    if left > 1 {
      NextVote(c, k + 1, r, left - 1, check);
    } else if check > 0 {
      NextVote(c, k + 1, r, RoundsPerTick(c), check - 1);
    }
  }

  lemma {:induction false} ResetRounds<S, M>(c: Config<S, M>, r: nat)
    requires ValidConfig(c) && r < |c.net|
    ensures !VoteIn(c, 0, r) && !VoteIn(c, 1, r) && Sync(c, 2)[r].ctl == Running(RoundsPerTick(c), c.initialDelay)
  {
    assert Sync(c, 0)[r] == Begin(c, r);
    hide Sync;
    hide Mid;
    SyncAt(c, 0, r);
    SyncAt(c, 1, r);
  }

  // The first vote comes after the reset's two rounds and initialDelay + 1 ticks, of
  // smartMax + 2 rounds each.
  lemma {:induction false} FirstVote<S, M>(c: Config<S, M>, r: nat, k: nat)
    requires ValidConfig(c) && r < |c.net|
    requires k + 1 == 2 + (c.initialDelay + 1) * (c.smartMax + 2)
    ensures VoteIn(c, k, r) && forall j :: 0 <= j < k ==> !VoteIn(c, j, r)
  {
    hide Sync;
    hide VoteIn;
    ResetRounds(c, r);
    NextVote(c, 2, r, RoundsPerTick(c), c.initialDelay);
  }

  // Where a vote leads.
  lemma {:induction false} VoteLeads<S, M>(c: Config<S, M>, k: nat, r: nat)
    requires ValidConfig(c) && r < |c.net| && VoteIn(c, k, r)
    ensures var v := MaxLatched(Mid(c, k));
      Sync(c, k + 1)[r].ctl ==
        if v == CONTINUE then Running(RoundsPerTick(c), c.interval)
        else if c.endDelay == 0 then Finished(v) else Draining(RoundsPerTick(c), c.endDelay - 1, v)
  {
    hide Sync;
    hide Mid;
    hide MaxLatched;
    SyncAt(c, k, r);
  }

  // After an undecided vote the next one comes interval + 1 ticks later.
  lemma {:induction false} VoteAgain<S, M>(c: Config<S, M>, k: nat, r: nat, n: nat)
    requires ValidConfig(c) && r < |c.net| && VoteIn(c, k, r) && MaxLatched(Mid(c, k)) == CONTINUE
    requires n == (c.interval + 1) * (c.smartMax + 2)
    ensures VoteIn(c, k + n, r) && forall j :: k < j < k + n ==> !VoteIn(c, j, r)
  {
    hide Sync;
    hide Mid;
    hide VoteIn;
    hide MaxLatched;
    VoteLeads(c, k, r);
    NextVote(c, k + 1, r, RoundsPerTick(c), c.interval);
  }

  lemma DrainingRound<S, M>(c: Config<S, M>, k: nat, r: nat, left: nat, ticks: nat, v: Trap)
    requires ValidConfig(c) && r < |c.net| && Sync(c, k)[r].ctl == Draining(left, ticks, v) && left >= 1
    ensures Sync(c, k + 1)[r].ctl ==
      if left > 1 then Draining(left - 1, ticks, v)
      else if ticks > 0 then Draining(RoundsPerTick(c), ticks - 1, v) else Finished(v)
  {
    hide Sync;
    hide Mid;
    SyncAt(c, k, r);
  }

  lemma {:induction false} DrainsTo<S, M>(c: Config<S, M>, k: nat, r: nat, left: nat, ticks: nat, v: Trap)
    requires ValidConfig(c) && r < |c.net| && Sync(c, k)[r].ctl == Draining(left, ticks, v) && left >= 1
    ensures Sync(c, k + left + Rounds(c, ticks))[r].ctl == Finished(v)
    decreases ticks, left
  {
    hide Sync;
    DrainingRound(c, k, r, left, ticks, v);
    if left > 1 {
      DrainsTo(c, k + 1, r, left - 1, ticks, v);
    } else if ticks > 0 {
      DrainsTo(c, k + 1, r, RoundsPerTick(c), ticks - 1, v);
    }
  }

  // A vote that decides is followed by endDelay ticks, and then every rank is out.
  lemma {:induction false} DecidedEnds<S, M>(c: Config<S, M>, k: nat, r: nat, n: nat)
    requires ValidConfig(c) && r < |c.net| && VoteIn(c, k, r) && MaxLatched(Mid(c, k)) != CONTINUE
    requires n == c.endDelay * (c.smartMax + 2)
    ensures Sync(c, k + 1 + n)[r].ctl == Finished(MaxLatched(Mid(c, k)))
  {
    hide Sync;
    hide Mid;
    hide VoteIn;
    hide MaxLatched;
    VoteLeads(c, k, r);
    if c.endDelay > 0 {
      DrainsTo(c, k + 1, r, RoundsPerTick(c), c.endDelay - 1, MaxLatched(Mid(c, k)));
    }
  }
}
