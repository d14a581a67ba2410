/**
 Which open disputes can still be settled: by the committee, over every continuation of a
 reachable state, and by a panel's votes.
 */
module RegistrySettling {
  import opened Integers
  import opened Commitments
  import opened Registry
  import opened RegistryEffects
  import opened RegistryCommittee
  import M = RegistryMilestones
  import V = RegistryVault

  lemma {:induction false} RunFromFront(s: State, env: Env, call: Call, rest: Script)
    ensures RunFrom(s, [(env, call)] + rest) == RunFrom(Step(s, env, call), rest)
  {
    var all := [(env, call)] + rest;
    if rest == [] {
      assert all[..0] == [];
      assert RunFrom(s, all[..0]) == s;
    } else {
      var k := |rest| - 1;
      RunFromFront(s, env, call, rest[..k]);
      assert all[..|all| - 1] == [(env, call)] + rest[..k];
    }
  }

  // ------------------------------------------------------- committee disputes

  /** An open dispute that is routed to the committee. */
  predicate CommitteeDispute(s: State, id: u64) {
    && id in s.book.commitments && s.book.commitments[id].status == Status.Disputed
    && s.book.commitments[id].attestors == [] && s.config.arbitrators.Some?
    && s.book.commitments[id].resolver in s.config.arbitrators.value
  }

  /** The arbitrators whose vote on a dispute is still out. */
  function Remaining(s: State, id: u64): set<Address>
    requires s.config.arbitrators.Some?
  {
    set a | a in s.config.arbitrators.value && a !in VotesOn(s, id).voters
  }

  /** With every vote still out, an outcome would have more than half of the arbitrators. */
  predicate CanWin(s: State, id: u64, x: Status)
    requires s.config.arbitrators.Some?
  {
    2 * (|VotersFor(VotesOn(s, id).voters, x)| + |Remaining(s, id)|) > |s.config.arbitrators.value|
  }

  ghost predicate Winnable(s: State, id: u64)
    requires s.config.arbitrators.Some?
  {
    exists x: Status :: IsFinal(x) && CanWin(s, id, x)
  }

  /** Somebody who can lift the pause is there from the committee's appointment on. */
  predicate AdminAppointed(s: State) {
    s.config.arbitrators.Some? ==> s.config.admin.Some?
  }

  ghost predicate Sound(s: State) {
    CommitteeSound(s) && SmallCommittee(s) && AdminAppointed(s) && M.MilestonesSound(s.book) && V.VaultSound(s)
  }

  lemma StepKeepsAdmin(s: State, env: Env, call: Call)
    requires AdminAppointed(s)
    ensures AdminAppointed(Step(s, env, call))
  {
    if TouchesBook(call) { BookCallsKeepConfig(s, env, call); }
  }

  lemma {:induction false} AdminAppointedInEveryRun(script: Script)
    ensures AdminAppointed(Run(script))
  {
    if script != [] {
      var front, last := script[..|script| - 1], script[|script| - 1];
      AdminAppointedInEveryRun(front);
      StepKeepsAdmin(Run(front), last.0, last.1);
    }
  }

  lemma StepKeepsSound(s: State, env: Env, call: Call)
    requires Sound(s) && s.config.arbitrators.Some?
    ensures Sound(Step(s, env, call)) && Step(s, env, call).config.arbitrators == s.config.arbitrators
  {
    CommitteeIsFixed(s, env, call);
    StepKeepsAdmin(s, env, call);
    StepKeepsCommittee(s, env, call);
    M.StepKeepsMilestones(s, env, call);
    V.StepKeepsVault(s, env, call);
  }

  /** One committee vote: a member less remains, and its outcome has one voter more. */
  lemma VoteShifts(s: State, env: Env, caller: Address, id: u64, outcome: Status)
    requires Sound(s) && CommitteeDispute(s, id) && Resolve(s, env, caller, id, outcome).Ok?
    ensures var t := Resolve(s, env, caller, id, outcome).value;
            && caller in Remaining(s, id) && t.config == s.config && IsFinal(outcome)
            && VotesOn(t, id).voters == VotesOn(s, id).voters[caller := outcome]
            && |Remaining(t, id)| == |Remaining(s, id)| - 1
            && t.book == if 2 * (|VotersFor(VotesOn(s, id).voters, outcome)| + 1) > |s.config.arbitrators.value|
                         then Moved(s.book, id, outcome) else s.book
  {
    ResolveBallots(s, env, caller, id, outcome);
    VotesOnSound(s, id, outcome);
    RecordVoteCounts(VotesOn(s, id), caller, outcome, outcome);
    OneFewerRemains(s, Resolve(s, env, caller, id, outcome).value, caller, id, outcome);
  }

  lemma OneFewerRemains(s: State, t: State, caller: Address, id: u64, outcome: Status)
    requires s.config.arbitrators.Some? && t.config.arbitrators == s.config.arbitrators && caller in Remaining(s, id)
    requires VotesOn(t, id).voters == VotesOn(s, id).voters[caller := outcome]
    ensures |Remaining(t, id)| == |Remaining(s, id)| - 1
  {
    assert Remaining(t, id) == Remaining(s, id) - {caller};
  }

  /** After such a vote that outcome's best case is what it was, and no outcome's is better. */
  lemma VoteKeepsBestCase(s: State, env: Env, caller: Address, id: u64, outcome: Status, x: Status)
    requires Sound(s) && CommitteeDispute(s, id) && Resolve(s, env, caller, id, outcome).Ok?
    ensures var t := Resolve(s, env, caller, id, outcome).value;
            && t.config.arbitrators.Some? && (CanWin(t, id, x) ==> CanWin(s, id, x))
            && (x == outcome ==> (CanWin(t, id, x) <==> CanWin(s, id, x)))
  {
    VoteShifts(s, env, caller, id, outcome);
    VotersForAfter(VotesOn(s, id).voters, caller, outcome, x);
  }

  // ---------------------------------------------------------- no way to settle

  lemma HopelessVote(s: State, env: Env, caller: Address, id: u64, outcome: Status)
    requires Sound(s) && CommitteeDispute(s, id) && !Winnable(s, id) && Resolve(s, env, caller, id, outcome).Ok?
    ensures var t := Resolve(s, env, caller, id, outcome).value; CommitteeDispute(t, id) && !Winnable(t, id)
  {
    var t := Resolve(s, env, caller, id, outcome).value;
    VoteShifts(s, env, caller, id, outcome);
    assert !CanWin(s, id, outcome);
    assert t.book == s.book;
    forall x: Status | IsFinal(x) ensures !CanWin(t, id, x) {
      VoteKeepsBestCase(s, env, caller, id, outcome, x);
    }
  }

  lemma SameVotesSameCase(s: State, t: State, id: u64)
    requires CommitteeDispute(s, id) && !Winnable(s, id) && t.config.arbitrators == s.config.arbitrators
    requires id in t.book.commitments && t.book.commitments[id] == s.book.commitments[id]
    requires VotesOn(t, id) == VotesOn(s, id)
    ensures CommitteeDispute(t, id) && !Winnable(t, id)
  {
    assert Remaining(t, id) == Remaining(s, id);
    forall x: Status | IsFinal(x) ensures !CanWin(t, id, x) { assert !CanWin(s, id, x); }
  }

  /** The other calls about a committee dispute are refused while it is open. */
  lemma OnlyVotesTouch(s: State, env: Env, call: Call, id: u64)
    requires M.MilestonesSound(s.book) && CommitteeDispute(s, id)
    requires call.CallAttest? || call.CallDispute? || call.CallVote? || call.CallTimeout?
    requires call.id == id
    ensures Invoke(s, env, call).Err?
  {
    if call.CallVote? {
      PanelCallsRefused(s, env, call.attestor, id, call.outcome);
    } else if call.CallTimeout? {
      PanelCallsRefused(s, env, Address(0), id, Status.Breached);
    } else if call.CallAttest? {
      assert AttestError(s, env, call.caller, id, call.index, call.outcome).Some?;
    } else {
      assert DisputeError(s, env, call.caller, id).Some?;
    }
  }

  lemma BookCallKeepsDispute(s: State, env: Env, call: Call, id: u64)
    requires M.MilestonesSound(s.book) && CommitteeDispute(s, id) && Invoke(s, env, call).Ok? && TouchesBook(call)
    requires call.CallResolve? ==> call.id != id
    ensures var t := Step(s, env, call);
            id in t.book.commitments && t.book.commitments[id] == s.book.commitments[id]
  {
    if !call.CallCreate? && !call.CallCreateBatch? && !call.CallResolve? && call.id == id {
      OnlyVotesTouch(s, env, call, id);
    }
    OtherCommitmentsKept(s, env, call, id);
  }

  lemma BookCallKeepsVotes(s: State, env: Env, call: Call, id: u64)
    requires Invoke(s, env, call).Ok?
    requires call.CallResolve? ==> call.id != id
    ensures VotesOn(Step(s, env, call), id) == VotesOn(s, id)
  {
    if call.CallResolve? {
      ResolveKeepsOthers(s, env, call.caller, call.id, call.outcome, id);
    } else {
      CommitteeBallotsKept(s, env, call);
    }
  }

  lemma OtherCallsKeepHopeless(s: State, env: Env, call: Call, id: u64)
    requires Sound(s) && CommitteeDispute(s, id) && !Winnable(s, id) && Invoke(s, env, call).Ok?
    requires call.CallResolve? ==> call.id != id
    ensures var t := Step(s, env, call); CommitteeDispute(t, id) && !Winnable(t, id)
  {
    CommitteeIsFixed(s, env, call);
    BookCallKeepsVotes(s, env, call, id);
    if TouchesBook(call) {
      BookCallKeepsDispute(s, env, call, id);
    } else {
      OtherCallsKeepBook(s, env, call);
    }
    SameVotesSameCase(s, Step(s, env, call), id);
  }

  lemma HopelessStays(s: State, env: Env, call: Call, id: u64)
    requires Sound(s) && CommitteeDispute(s, id) && !Winnable(s, id)
    ensures var t := Step(s, env, call); CommitteeDispute(t, id) && !Winnable(t, id)
  {
    if Invoke(s, env, call).Ok? {
      if call.CallResolve? && call.id == id {
        HopelessVote(s, env, call.caller, id, call.outcome);
      } else {
        OtherCallsKeepHopeless(s, env, call, id);
      }
    }
  }

  /** A committee dispute that no outcome can win any more stays open, whatever is called. */
  lemma {:induction false} HopelessForever(s: State, script: Script, id: u64)
    requires Sound(s) && CommitteeDispute(s, id) && !Winnable(s, id)
    ensures var t := RunFrom(s, script); Sound(t) && CommitteeDispute(t, id) && !Winnable(t, id)
  {
    if script != [] {
      var front, last := script[..|script| - 1], script[|script| - 1];
      HopelessForever(s, front, id);
      HopelessStays(RunFrom(s, front), last.0, last.1, id);
      StepKeepsSound(RunFrom(s, front), last.0, last.1);
    }
  }

  // ----------------------------------------------------------- a way to settle

  ghost predicate Settled(s: State, id: u64, script: Script) {
    var b := RunFrom(s, script).book;
    id in b.commitments && IsFinal(b.commitments[id].status)
  }

  /** An arbitrator whose vote is out can cast it. */
  lemma VoteGoesThrough(s: State, env: Env, a: Address, id: u64, x: Status)
    requires Sound(s) && CommitteeDispute(s, id) && !s.config.paused && IsFinal(x)
    requires a in Remaining(s, id) && a in env.signers
    ensures Resolve(s, env, a, id, x).Ok?
  {
    assert ResolveError(s, env, a, id, x).None?;
    V.ResolveKeepsVault(s, env, a, id, x);
  }

  /** An open dispute that the votes still out can settle for `x`. */
  ghost predicate Promising(s: State, id: u64, x: Status) {
    Sound(s) && CommitteeDispute(s, id) && !s.config.paused && IsFinal(x) && CanWin(s, id, x)
  }

  lemma SomeVoteIsOut(s: State, id: u64, x: Status) returns (a: Address)
    requires Promising(s, id, x)
    ensures a in Remaining(s, id)
  {
    VotesOnSound(s, id, x);
    assert Remaining(s, id) != {};
    a :| a in Remaining(s, id);
  }

  /** One more vote for the outcome settles the dispute, or leaves fewer votes out and the outcome promising. */
  lemma NextVote(s: State, env: Env, a: Address, id: u64, x: Status)
    requires Promising(s, id, x) && a in Remaining(s, id) && a in env.signers
    ensures var t := Step(s, env, CallResolve(a, id, x));
            || (id in t.book.commitments && IsFinal(t.book.commitments[id].status))
            || (Promising(t, id, x) && |Remaining(t, id)| < |Remaining(s, id)|)
  {
    var call := CallResolve(a, id, x);
    StepKeepsSound(s, env, call);
    VoteGoesThrough(s, env, a, id, x);
    InvokesResolve(s, env, a, id, x);
    VoteShifts(s, env, a, id, x);
    VoteKeepsBestCase(s, env, a, id, x, x);
    AfterVote(s, Step(s, env, call), id, x);
  }

  lemma InvokesResolve(s: State, env: Env, a: Address, id: u64, x: Status)
    requires Resolve(s, env, a, id, x).Ok?
    ensures Step(s, env, CallResolve(a, id, x)) == Resolve(s, env, a, id, x).value
  {
  }

  lemma AfterVote(s: State, t: State, id: u64, x: Status)
    requires Promising(s, id, x) && Sound(t) && t.config == s.config
    requires t.book == s.book || t.book == Moved(s.book, id, x)
    requires |Remaining(t, id)| < |Remaining(s, id)| && CanWin(t, id, x)
    ensures || (id in t.book.commitments && IsFinal(t.book.commitments[id].status))
            || (Promising(t, id, x) && |Remaining(t, id)| < |Remaining(s, id)|)
  {
  }

  lemma SettledFromFront(s: State, id: u64, env: Env, call: Call, rest: Script)
    requires Settled(Step(s, env, call), id, rest)
    ensures Settled(s, id, [(env, call)] + rest)
  {
    RunFromFront(s, env, call, rest);
  }

  lemma SettledAlready(s: State, id: u64)
    requires id in s.book.commitments && IsFinal(s.book.commitments[id].status)
    ensures Settled(s, id, [])
  {
  }

  /** The remaining arbitrators vote for a winnable outcome until it has its majority. */
  lemma {:induction false} VotesSettle(s: State, id: u64, x: Status) returns (script: Script)
    requires Promising(s, id, x)
    ensures Settled(s, id, script)
    decreases |Remaining(s, id)|
  {
    var a := SomeVoteIsOut(s, id, x);
    var env, call := Env(0, 0, {a}, true), CallResolve(a, id, x);
    NextVote(s, env, a, id, x);
    var t := Step(s, env, call);
    var rest := [];
    if id in t.book.commitments && IsFinal(t.book.commitments[id].status) {
      SettledAlready(t, id);
    } else {
      rest := VotesSettle(t, id, x);
    }
    SettledFromFront(s, id, env, call, rest);
    script := [(env, call)] + rest;
  }

  lemma LiftPause(s: State, env: Env, id: u64, x: Status)
    requires Sound(s) && CommitteeDispute(s, id) && IsFinal(x) && CanWin(s, id, x)
    requires s.config.admin.Some? && s.config.admin.value in env.signers
    ensures Promising(Step(s, env, CallSetPaused(s.config.admin.value, false)), id, x)
  {
    var call := CallSetPaused(s.config.admin.value, false);
    var t := Step(s, env, call);
    assert t == s.(config := s.config.(paused := false));
    StepKeepsSound(s, env, call);
    assert Remaining(t, id) == Remaining(s, id);
  }

  /** The admin lifts the pause first. */
  lemma UnpausedVotesSettle(s: State, id: u64, x: Status) returns (script: Script)
    requires Sound(s) && CommitteeDispute(s, id) && IsFinal(x) && CanWin(s, id, x)
    ensures Settled(s, id, script)
  {
    var admin := s.config.admin.value;
    var env, call := Env(0, 0, {admin}, true), CallSetPaused(admin, false);
    LiftPause(s, env, id, x);
    var rest := VotesSettle(Step(s, env, call), id, x);
    SettledFromFront(s, id, env, call, rest);
    script := [(env, call)] + rest;
  }

  /**
   In every reachable state an open committee dispute can still be settled, by some
   continuation of the run, if and only if for some outcome the votes it has and the votes
   still out together make more than half of the arbitrators.
   */
  lemma CommitteeSettlesIff(prefix: Script, id: u64)
    requires SmallCommittee(Run(prefix)) && CommitteeDispute(Run(prefix), id)
    ensures (exists script :: Settled(Run(prefix), id, script)) <==> Winnable(Run(prefix), id)
  {
    var s := Run(prefix);
    CommitteeSoundInEveryRun(prefix);
    V.VaultSoundInEveryRun(prefix);
    AdminAppointedInEveryRun(prefix);
    if Winnable(s, id) {
      var x: Status :| IsFinal(x) && CanWin(s, id, x);
      var script := UnpausedVotesSettle(s, id, x);
      assert Settled(s, id, script);
    } else {
      forall script ensures !Settled(s, id, script) { HopelessForever(s, script, id); }
    }
  }
}
