/** Which open panel disputes votes can still settle, and which are left to the timeout. */
module RegistryPanelVotes {
  import opened Wrappers
  import opened Integers
  import opened Commitments
  import opened Staking
  import opened Registry
  import opened RegistryEffects
  import opened RegistryPanels
  import C = RegistrySettling
  import M = RegistryMilestones
  import V = RegistryVault

  /** The members who could vote now: staked, locked and not yet recorded. */
  function Eligible(s: State, id: u64): set<Address>
    requires id in s.book.commitments
  {
    set a | a in s.book.commitments[id].attestors
            && StakeOf(s.vault.stakes, a).staked > 0 && StakeOf(s.vault.stakes, a).locked
            && (id, a) !in s.ballots.records
  }

  function BenchOf(s: State): Bench {
    Bench(s.vault.stakes, s.ballots.records, s.slashed)
  }

  /** With every eligible vote, an outcome reaches the threshold, and its losers can all be slashed. */
  ghost predicate CanConclude(s: State, id: u64, x: Status)
    requires id in s.book.commitments
  {
    && |RecordsFor(s.ballots.records, id, x)| + |Eligible(s, id)| >= VoteThreshold(s.book.commitments[id].counters)
    && !Unslashable(BenchOf(s), id, s.book.commitments[id].attestors, x)
  }

  ghost predicate VotesSuffice(s: State, id: u64)
    requires id in s.book.commitments
  {
    exists x: Status :: IsFinal(x) && CanConclude(s, id, x)
  }

  /** Nothing but votes on one dispute, all cast at one time. */
  predicate VotesAt(script: Script, id: u64, now: u64) {
    forall i :: 0 <= i < |script| ==> script[i].0.now == now && script[i].1.CallVote? && script[i].1.id == id
  }

  // ------------------------------------------------------------- one more vote

  lemma EligibleMayVote(s: State, env: Env, a: Address, id: u64, x: Status)
    requires Sound(s) && OpenPanel(s.book, id) && IsFinal(x)
    ensures VoteError(s, env, a, id, x).None?
            <==> a in env.signers && env.now <= VoteDeadline(s.book.commitments[id]) && a in Eligible(s, id)
  {
    assert TallyExact(s, id);
    assert M.Sound(s.book, id);
    assert VoteThreshold(s.book.commitments[id].counters) <= 0xFFFF;
  }

  lemma OneFewerEligible(s: State, a: Address, id: u64, x: Status)
    requires id in s.book.commitments && a in Eligible(s, id)
    ensures |Eligible(WithVote(s, a, id, x), id)| == |Eligible(s, id)| - 1
  {
    assert Eligible(WithVote(s, a, id, x), id) == Eligible(s, id) - {a};
  }

  /** A vote adds its caster to the losers of every other outcome, and to nobody else's. */
  lemma LosersAfter(s: State, a: Address, id: u64, x: Status, y: Status)
    requires id in s.book.commitments && (id, a) !in s.ballots.records
    ensures var panel := s.book.commitments[id].attestors;
            && (Unslashable(BenchOf(s), id, panel, y) ==> Unslashable(BenchOf(WithVote(s, a, id, x)), id, panel, y))
            && (x == y ==> (Unslashable(BenchOf(s), id, panel, y)
                            <==> Unslashable(BenchOf(WithVote(s, a, id, x)), id, panel, y)))
  {
    var panel, b, c := s.book.commitments[id].attestors, BenchOf(s), BenchOf(WithVote(s, a, id, x));
    assert forall m :: Loses(b, id, m, y) ==> Loses(c, id, m, y);
    assert x == y ==> forall m :: Loses(c, id, m, y) ==> Loses(b, id, m, y);
  }

  /** No outcome's best case improves by a vote, and the chosen outcome's stays what it was. */
  lemma VoteKeepsBestCase(s: State, a: Address, id: u64, x: Status, y: Status)
    requires id in s.book.commitments && a in Eligible(s, id)
    ensures var t := WithVote(s, a, id, x);
            && (CanConclude(t, id, y) ==> CanConclude(s, id, y))
            && (x == y ==> (CanConclude(t, id, y) <==> CanConclude(s, id, y)))
  {
    OneFewerEligible(s, a, id, x);
    LosersAfter(s, a, id, x, y);
    RecordsForAfter(s.ballots.records, id, a, x, id, y);
  }

  /** A vote that went through was either only recorded, or reached the threshold and settled. */
  ghost predicate Outcomes(s: State, t: State, a: Address, id: u64, x: Status)
    requires id in s.book.commitments
  {
    var c, voted := s.book.commitments[id], WithVote(s, a, id, x);
    if |RecordsFor(s.ballots.records, id, x)| + 1 < VoteThreshold(c.counters) then t == voted
    else t.book == Moved(s.book, id, x) && !Unslashable(BenchOf(voted), id, c.attestors, x)
  }

  /** An accepted vote is only recorded, or it reaches the threshold and every loser is slashed. */
  lemma CastVoteIff(s: State, env: Env, a: Address, id: u64, x: Status)
    requires TallyExact(s, id) && V.StakesPositive(s.vault.stakes) && OpenPanel(s.book, id)
    requires VoteError(s, env, a, id, x).None?
    ensures CastVote(s, env, a, id, x).Ok? <==>
              || |RecordsFor(s.ballots.records, id, x)| + 1 < VoteThreshold(s.book.commitments[id].counters)
              || !Unslashable(BenchOf(WithVote(s, a, id, x)), id, s.book.commitments[id].attestors, x)
    ensures CastVote(s, env, a, id, x).Ok? ==> Outcomes(s, CastVote(s, env, a, id, x).value, a, id, x)
  {
    var voted := WithVote(s, a, id, x);
    VoteAccepted(s, env, a, id, x);
    WithVoteTally(s, env, a, id, x, id, x);
    CastVoteSplits(s, env, a, id, x);
    ConcludesIff(voted, env, id, x);
  }

  lemma CastVoteSplits(s: State, env: Env, a: Address, id: u64, x: Status)
    requires VoteError(s, env, a, id, x).None? && id in s.book.commitments
    ensures var voted := WithVote(s, a, id, x);
            CastVote(s, env, a, id, x)
            == if VotesFor(TallyOf(voted, id), x) < VoteThreshold(s.book.commitments[id].counters) then Ok(voted)
               else Concluded(voted, env, id, true, x)
  {
  }

  lemma ConcludesIff(s: State, env: Env, id: u64, x: Status)
    requires V.StakesPositive(s.vault.stakes) && OpenPanel(s.book, id) && IsFinal(x)
    ensures Concluded(s, env, id, true, x).Ok? <==> !Unslashable(BenchOf(s), id, s.book.commitments[id].attestors, x)
    ensures Concluded(s, env, id, true, x).Ok? ==> Concluded(s, env, id, true, x).value.book == Moved(s.book, id, x)
  {
    ReleaseAllExact(BenchOf(s), id, s.book.commitments[id].attestors, true, x);
    if Concluded(s, env, id, true, x).Ok? { ConcludedEffect(s, env, id, true, x); }
  }

  lemma StepKeepsAll(s: State, env: Env, call: Call)
    requires Sound(s)
    ensures Sound(Step(s, env, call))
  {
    StepKeepsPanels(s, env, call);
    M.StepKeepsMilestones(s, env, call);
    V.StepKeepsVault(s, env, call);
  }

  // ---------------------------------------------------------- no way to settle

  ghost predicate Stuck(s: State, id: u64, now: u64) {
    && Sound(s) && OpenPanel(s.book, id)
    && (now > VoteDeadline(s.book.commitments[id]) || !VotesSuffice(s, id))
  }

  lemma StuckStays(s: State, env: Env, a: Address, id: u64, x: Status)
    requires Stuck(s, id, env.now)
    ensures Stuck(Step(s, env, CallVote(a, id, x)), id, env.now)
  {
    StepKeepsAll(s, env, CallVote(a, id, x));
    var r := CastVote(s, env, a, id, x);
    if r.Ok? {
      InvokesVote(s, r.value, env, a, id, x);
      VoteOutcome(s, r.value, env, a, id, x);
      StuckAfter(s, r.value, a, id, env.now, x);
    } else {
      RefusedVote(s, env, a, id, x);
    }
  }

  lemma StuckAfter(s: State, t: State, a: Address, id: u64, now: u64, x: Status)
    requires Stuck(s, id, now) && Sound(t) && now <= VoteDeadline(s.book.commitments[id]) && IsFinal(x)
    requires a in Eligible(s, id) && Outcomes(s, t, a, id, x)
    ensures Stuck(t, id, now)
  {
    StillNotEnough(s, a, id, x);
  }

  lemma VoteOutcome(s: State, t: State, env: Env, a: Address, id: u64, x: Status)
    requires Sound(s) && OpenPanel(s.book, id) && CastVote(s, env, a, id, x) == Ok(t)
    ensures a in Eligible(s, id) && IsFinal(x) && env.now <= VoteDeadline(s.book.commitments[id])
    ensures Outcomes(s, t, a, id, x)
  {
    CastVoteEffect(s, env, a, id, x);
    EligibleMayVote(s, env, a, id, x);
    assert TallyExact(s, id);
    CastVoteIff(s, env, a, id, x);
  }

  lemma InvokesVote(s: State, t: State, env: Env, a: Address, id: u64, x: Status)
    requires CastVote(s, env, a, id, x) == Ok(t)
    ensures Step(s, env, CallVote(a, id, x)) == t
  {
  }

  lemma RefusedVote(s: State, env: Env, a: Address, id: u64, x: Status)
    requires CastVote(s, env, a, id, x).Err?
    ensures Step(s, env, CallVote(a, id, x)) == s
  {
  }

  /** A vote cannot make enough of what was not, and does not reach the threshold then. */
  lemma StillNotEnough(s: State, a: Address, id: u64, x: Status)
    requires id in s.book.commitments && a in Eligible(s, id) && !VotesSuffice(s, id) && IsFinal(x)
    ensures !VotesSuffice(WithVote(s, a, id, x), id)
    ensures |RecordsFor(s.ballots.records, id, x)| + 1 < VoteThreshold(s.book.commitments[id].counters)
            || Unslashable(BenchOf(WithVote(s, a, id, x)), id, s.book.commitments[id].attestors, x)
  {
    OneFewerEligible(s, a, id, x);
    LosersAfter(s, a, id, x, x);
    assert !CanConclude(s, id, x);
    forall y: Status | IsFinal(y) ensures !CanConclude(WithVote(s, a, id, x), id, y) {
      VoteKeepsBestCase(s, a, id, x, y);
    }
  }

  lemma {:induction false} StuckForever(s: State, script: Script, id: u64, now: u64)
    requires Stuck(s, id, now) && VotesAt(script, id, now)
    ensures Stuck(RunFrom(s, script), id, now)
  {
    if script != [] {
      var front, last := script[..|script| - 1], script[|script| - 1];
      StuckForever(s, front, id, now);
      StuckStays(RunFrom(s, front), last.0, last.1.attestor, id, last.1.outcome);
    }
  }

  // ----------------------------------------------------------- a way to settle

  ghost predicate Promising(s: State, id: u64, now: u64, x: Status) {
    && Sound(s) && OpenPanel(s.book, id) && now <= VoteDeadline(s.book.commitments[id])
    && IsFinal(x) && CanConclude(s, id, x)
  }

  lemma SomeoneMayVote(s: State, id: u64, now: u64, x: Status) returns (a: Address)
    requires Promising(s, id, now, x)
    ensures a in Eligible(s, id)
  {
    assert TallyExact(s, id);
    assert Eligible(s, id) != {};
    a :| a in Eligible(s, id);
  }

  lemma NextVote(s: State, env: Env, a: Address, id: u64, x: Status)
    requires Promising(s, id, env.now, x) && a in Eligible(s, id) && a in env.signers
    ensures var t := Step(s, env, CallVote(a, id, x));
            || (id in t.book.commitments && IsFinal(t.book.commitments[id].status))
            || (Promising(t, id, env.now, x) && |Eligible(t, id)| < |Eligible(s, id)|)
  {
    StepKeepsAll(s, env, CallVote(a, id, x));
    VoteGoesThrough(s, env, a, id, x);
    var t := CastVote(s, env, a, id, x).value;
    InvokesVote(s, t, env, a, id, x);
    VoteOutcome(s, t, env, a, id, x);
    AfterVote(s, t, a, id, env.now, x);
  }

  lemma VoteGoesThrough(s: State, env: Env, a: Address, id: u64, x: Status)
    requires Promising(s, id, env.now, x) && a in Eligible(s, id) && a in env.signers
    ensures CastVote(s, env, a, id, x).Ok?
  {
    EligibleMayVote(s, env, a, id, x);
    assert TallyExact(s, id);
    CastVoteIff(s, env, a, id, x);
    LosersAfter(s, a, id, x, x);
  }

  lemma AfterVote(s: State, t: State, a: Address, id: u64, now: u64, x: Status)
    requires Promising(s, id, now, x) && Sound(t) && a in Eligible(s, id) && Outcomes(s, t, a, id, x)
    ensures || (id in t.book.commitments && IsFinal(t.book.commitments[id].status))
            || (Promising(t, id, now, x) && |Eligible(t, id)| < |Eligible(s, id)|)
  {
    VoteKeepsBestCase(s, a, id, x, x);
    OneFewerEligible(s, a, id, x);
  }

  lemma VotesAtFront(env: Env, call: Call, rest: Script, id: u64, now: u64)
    requires env.now == now && call.CallVote? && call.id == id && VotesAt(rest, id, now)
    ensures VotesAt([(env, call)] + rest, id, now)
  {
  }

  /** The eligible members vote for the outcome until it has its threshold. */
  lemma {:induction false} VotesSettle(s: State, id: u64, now: u64, x: Status) returns (script: Script)
    requires Promising(s, id, now, x)
    ensures VotesAt(script, id, now) && C.Settled(s, id, script)
    decreases |Eligible(s, id)|
  {
    var a := SomeoneMayVote(s, id, now, x);
    var env, call := Env(now, 0, {a}, true), CallVote(a, id, x);
    NextVote(s, env, a, id, x);
    var t := Step(s, env, call);
    var rest := [];
    if id in t.book.commitments && IsFinal(t.book.commitments[id].status) {
      C.SettledAlready(t, id);
    } else {
      rest := VotesSettle(t, id, now, x);
    }
    C.SettledFromFront(s, id, env, call, rest);
    VotesAtFront(env, call, rest, id, now);
    script := [(env, call)] + rest;
  }

  /**
   In every reachable state, votes cast at a given moment can settle an open panel dispute if
   and only if its week is not over and some outcome reaches the threshold with the votes
   it has and those of every eligible member, none of its losers' stakes being too large to
   slash.
   */
  lemma VotesSettleIff(prefix: Script, id: u64, now: u64)
    requires OpenPanel(Run(prefix).book, id)
    ensures Run(prefix).book.commitments[id].attestedAt.Some?
    ensures (exists script :: VotesAt(script, id, now) && C.Settled(Run(prefix), id, script))
            <==> now <= WeekAfter(Run(prefix).book.commitments[id].attestedAt.value) && VotesSuffice(Run(prefix), id)
  {
    var s := Run(prefix);
    PanelsSoundInEveryRun(prefix);
    assert M.Sound(s.book, id);
    if now <= VoteDeadline(s.book.commitments[id]) && VotesSuffice(s, id) {
      var x: Status :| IsFinal(x) && CanConclude(s, id, x);
      var script := VotesSettle(s, id, now, x);
      assert VotesAt(script, id, now) && C.Settled(s, id, script);
    } else {
      forall script | VotesAt(script, id, now) ensures !C.Settled(s, id, script) { StuckForever(s, script, id, now); }
    }
  }

  // ------------------------------------------------------- whatever else is called

  function Members(c: Commitment): set<Address> {
    set a | a in c.attestors
  }

  /** The members without a recorded vote, staked and locked or not. */
  function Unrecorded(s: State, id: u64): set<Address>
    requires id in s.book.commitments
  {
    set a | a in s.book.commitments[id].attestors && (id, a) !in s.ballots.records
  }

  /** An open panel dispute in which even all the votes still out would carry no outcome to the threshold. */
  ghost predicate OutOfReach(s: State, id: u64) {
    && OpenPanel(s.book, id)
    && forall x: Status :: IsFinal(x) ==>
         |RecordsFor(s.ballots.records, id, x)| + |Unrecorded(s, id)| < VoteThreshold(s.book.commitments[id].counters)
  }

  /** Only the commitment and the records on it matter. */
  lemma OutOfReachFrame(s: State, t: State, id: u64)
    requires OutOfReach(s, id)
    requires id in t.book.commitments && t.book.commitments[id] == s.book.commitments[id]
    requires forall k: (u64, Address) :: k.0 == id ==>
               (k in t.ballots.records <==> k in s.ballots.records)
               && (k in s.ballots.records ==> t.ballots.records[k] == s.ballots.records[k])
    ensures OutOfReach(t, id)
  {
    assert Unrecorded(t, id) == Unrecorded(s, id);
    forall x: Status ensures RecordsFor(t.ballots.records, id, x) == RecordsFor(s.ballots.records, id, x) {}
  }

  lemma OwnVoteOutOfReach(s: State, t: State, a: Address, id: u64, x: Status)
    requires OutOfReach(s, id) && a in Eligible(s, id) && IsFinal(x) && Outcomes(s, t, a, id, x)
    ensures OutOfReach(t, id)
  {
    assert a in Unrecorded(s, id);
    assert Unrecorded(WithVote(s, a, id, x), id) == Unrecorded(s, id) - {a};
    forall y: Status | IsFinal(y)
      ensures |RecordsFor(s.ballots.records[(id, a) := x], id, y)| <= |RecordsFor(s.ballots.records, id, y)| + 1 {
      RecordsForAfter(s.ballots.records, id, a, x, id, y);
    }
  }

  lemma OtherConclusion(s: State, env: Env, j: u64, slash: bool, x: Status, id: u64)
    requires RecordsSound(s) && V.StakesPositive(s.vault.stakes) && OutOfReach(s, id)
    requires j != id && OpenPanel(s.book, j) && IsFinal(x) && Concluded(s, env, j, slash, x).Ok?
    ensures OutOfReach(Concluded(s, env, j, slash, x).value, id)
  {
    ConcludedRecords(s, env, j, slash, x);
    OutOfReachFrame(s, Concluded(s, env, j, slash, x).value, id);
  }

  lemma VoteOutOfReach(s: State, env: Env, a: Address, j: u64, x: Status, id: u64)
    requires Sound(s) && OutOfReach(s, id) && CastVote(s, env, a, j, x).Ok?
    ensures OutOfReach(CastVote(s, env, a, j, x).value, id)
  {
    var t := CastVote(s, env, a, j, x).value;
    if j == id {
      VoteOutcome(s, t, env, a, id, x);
      OwnVoteOutOfReach(s, t, a, id, x);
    } else {
      VoteAccepted(s, env, a, j, x);
      CastVoteSplits(s, env, a, j, x);
      OtherVote(s, t, env, a, j, x, id);
    }
  }

  lemma OtherVote(s: State, t: State, env: Env, a: Address, j: u64, x: Status, id: u64)
    requires RecordsSound(s) && V.StakesPositive(s.vault.stakes) && OutOfReach(s, id)
    requires j != id && OpenPanel(s.book, j) && a in s.book.commitments[j].attestors && IsFinal(x)
    requires var voted := WithVote(s, a, j, x); t == voted || Concluded(voted, env, j, true, x) == Ok(t)
    ensures OutOfReach(t, id)
  {
    var voted := WithVote(s, a, j, x);
    OutOfReachFrame(s, voted, id);
    if t != voted { OtherConclusion(voted, env, j, true, x, id); }
  }

  lemma StepOutOfReach(s: State, env: Env, call: Call, id: u64)
    requires Sound(s) && OutOfReach(s, id) && call != CallTimeout(id)
    ensures OutOfReach(Step(s, env, call), id)
  {
    if call.CallVote? {
      if Invoke(s, env, call).Ok? { VoteOutOfReach(s, env, call.attestor, call.id, call.outcome, id); }
    } else if call.CallTimeout? {
      if Invoke(s, env, call).Ok? {
        assert M.Sound(s.book, call.id);
        OtherConclusion(s, env, call.id, false, Status.Breached, id);
      }
    } else {
      OpenPanelsKept(s, env, call, id);
      PanelBallotsKept(s, env, call);
      OutOfReachFrame(s, Step(s, env, call), id);
    }
  }

  /**
   When for no outcome the votes recorded and those of all members still out together make
   the threshold, the dispute stays open in every continuation until its timeout is called,
   whatever else is: new disputes, stakes, locks and releases included.
   */
  lemma {:induction false} OutOfReachForever(s: State, script: Script, id: u64)
    requires Sound(s) && OutOfReach(s, id) && forall i :: 0 <= i < |script| ==> script[i].1 != CallTimeout(id)
    ensures Sound(RunFrom(s, script)) && OutOfReach(RunFrom(s, script), id)
  {
    if script != [] {
      var front, last := script[..|script| - 1], script[|script| - 1];
      assert forall i :: 0 <= i < |front| ==> front[i] == script[i];
      OutOfReachForever(s, front, id);
      StepOutOfReach(RunFrom(s, front), last.0, last.1, id);
      StepKeepsAll(RunFrom(s, front), last.0, last.1);
    }
  }

  // --------------------------------------------------------- duplicate members

  lemma {:induction false} PairsCount(id: u64, members: set<Address>)
    ensures |set a | a in members :: (id, a)| == |members|
    decreases |members|
  {
    if members != {} {
      var m :| m in members;
      PairsCount(id, members - {m});
      assert (set a | a in members :: (id, a)) == (set a | a in members - {m} :: (id, a)) + {(id, m)};
    }
  }

  lemma SubsetCount<T>(a: set<T>, b: set<T>)
    requires a <= b
    ensures |a| <= |b|
  {
    assert b == a + (b - a);
  }

  lemma RecordedAreMembers(s: State, attestor: Address, id: u64, outcome: Status)
    requires RecordsSound(s) && id in s.book.commitments && attestor in s.book.commitments[id].attestors
    requires (id, attestor) !in s.ballots.records
    ensures |RecordsFor(s.ballots.records, id, outcome)| + 1 <= |Members(s.book.commitments[id])|
  {
    var members := Members(s.book.commitments[id]);
    var recorded := RecordsFor(s.ballots.records, id, outcome) + {(id, attestor)};
    var pairs := set a | a in members :: (id, a);
    forall k | k in recorded ensures k in pairs { assert k.0 == id && k.1 in members; }
    SubsetCount(recorded, pairs);
    PairsCount(id, members);
    assert |recorded| == |RecordsFor(s.ballots.records, id, outcome)| + 1;
  }

  /**
   The threshold is checked against the panel's length, duplicates included. When it exceeds
   the number of distinct members, no vote in any reachable state settles the dispute.
   */
  lemma TooFewMembersNeverSettle(prefix: Script, env: Env, attestor: Address, id: u64, outcome: Status)
    requires OpenPanel(Run(prefix).book, id)
    requires var c := Run(prefix).book.commitments[id]; |Members(c)| < VoteThreshold(c.counters)
    requires CastVote(Run(prefix), env, attestor, id, outcome).Ok?
    ensures CastVote(Run(prefix), env, attestor, id, outcome).value.book == Run(prefix).book
  {
    var s := Run(prefix);
    var c := s.book.commitments[id];
    PanelsSoundInEveryRun(prefix);
    VoteOutcome(s, CastVote(s, env, attestor, id, outcome).value, env, attestor, id, outcome);
    RecordedAreMembers(s, attestor, id, outcome);
  }

  /** Such a panel is accepted: one member listed twice, with a threshold of two. */
  lemma DuplicatePanelIsAccepted(env: Env, p: CommitmentParams, a: Address)
    requires p.issuer in env.signers && p.dueAt > env.now && p.attestors == [a, a] && p.voteThreshold == 2
    ensures var r := CreateCommitment(GENESIS, env, p, 1);
            && r.Ok? && 1 in r.value.book.commitments
            && var c := r.value.book.commitments[1];
            && Members(c) == {a} && VoteThreshold(c.counters) == 2
  {
    PackRoundTrip(1, 0, 0, 2);
  }
}
