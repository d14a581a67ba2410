/**
 Committee disputes over every run: a dispute settles exactly when more than half of the
 distinct arbitrators have voted for one outcome.
 */
module RegistryCommittee {
  import opened Wrappers
  import opened Integers
  import opened Commitments
  import opened Registry
  import opened RegistryEffects
  import M = RegistryMilestones
  import V = RegistryVault

  function VotersFor(voters: map<Address, Status>, x: Status): set<Address> {
    set a | a in voters && voters[a] == x
  }

  predicate Distinct(xs: seq<Address>) {
    forall i, j :: 0 <= i < j < |xs| ==> xs[i] != xs[j]
  }

  lemma {:induction false} DedupIsDistinct(xs: seq<Address>)
    ensures Distinct(Dedup(xs))
  {
    if xs != [] { DedupIsDistinct(xs[..|xs| - 1]); }
  }

  /** The committee's votes on one dispute: lanes count voters, who are arbitrators, short of a majority while open. */
  ghost predicate VotesSound(s: State, id: u64)
    requires id in s.ballots.committee && s.config.arbitrators.Some?
  {
    var v, committee := s.ballots.committee[id], s.config.arbitrators.value;
    && id in s.book.commitments && V.PastDispute(s.book.commitments[id])
    && (forall a :: a in v.voters ==> a in committee)
    && forall x: Status :: IsFinal(x) ==>
         && VotesFor(v.counts, x) == |VotersFor(v.voters, x)|
         && (s.book.commitments[id].status == Status.Disputed ==> VotesFor(v.counts, x) <= |committee| / 2)
  }

  /** The committee is a `Vec`, so its size is a u32. */
  predicate SmallCommittee(s: State) {
    s.config.arbitrators.Some? ==> |s.config.arbitrators.value| <= U32_MAX
  }

  ghost predicate CommitteeSound(s: State) {
    && (s.config.arbitrators.None? ==> s.ballots.committee == map[])
    && (s.config.arbitrators.Some? ==> Distinct(s.config.arbitrators.value))
    && forall id :: id in s.ballots.committee && SmallCommittee(s) ==> VotesSound(s, id)
  }

  /** The calls about commitments leave the configuration alone. */
  lemma BookCallsKeepConfig(s: State, env: Env, call: Call)
    requires TouchesBook(call)
    ensures Step(s, env, call).config == s.config
  {
    if Invoke(s, env, call).Ok? {
      if call.CallCreateBatch? {
        CreateAllKeepsConfig(s, env, call.batch);
      } else if call.CallDispute? {
        DisputeEffect(s, env, call.caller, call.id);
      } else if call.CallResolve? {
        ResolveEffect(s, env, call.caller, call.id, call.outcome);
      } else if call.CallVote? {
        CastVoteEffect(s, env, call.attestor, call.id, call.outcome);
      } else if call.CallTimeout? {
        TimeoutEffect(s, env, call.id);
      }
    }
  }

  /** The committee, once appointed, never changes. */
  lemma CommitteeIsFixed(s: State, env: Env, call: Call)
    requires s.config.arbitrators.Some?
    ensures Step(s, env, call).config.arbitrators == s.config.arbitrators
  {
    if TouchesBook(call) { BookCallsKeepConfig(s, env, call); }
  }

  lemma {:induction false} CreateAllKeepsConfig(s: State, env: Env, ps: seq<CommitmentParams>)
    ensures CreateAll(s, env, ps).Ok? ==>
              var t := CreateAll(s, env, ps).value; t.config == s.config && t.ballots == s.ballots
  {
    if ps != [] { CreateAllKeepsConfig(s, env, ps[..|ps| - 1]); }
  }

  lemma CommitteeBallotsKept(s: State, env: Env, call: Call)
    requires !call.CallResolve?
    ensures Step(s, env, call).ballots.committee == s.ballots.committee
    ensures !call.CallInitialize? ==> Step(s, env, call).config.arbitrators == s.config.arbitrators
  {
    if !TouchesBook(call) {
      OtherCallsKeepBook(s, env, call);
    } else if Invoke(s, env, call).Ok? {
      if call.CallCreateBatch? {
        CreateAllKeepsConfig(s, env, call.batch);
      } else if call.CallDispute? {
        DisputeEffect(s, env, call.caller, call.id);
      } else if call.CallVote? {
        VoteKeepsCommittee(s, env, call.attestor, call.id, call.outcome);
      } else if call.CallTimeout? {
        ConcludedEffect(s, env, call.id, false, Status.Breached);
      }
    }
  }

  lemma VoteKeepsCommittee(s: State, env: Env, attestor: Address, id: u64, outcome: Status)
    requires CastVote(s, env, attestor, id, outcome).Ok?
    ensures var t := CastVote(s, env, attestor, id, outcome).value;
            t.ballots.committee == s.ballots.committee && t.config == s.config
  {
    var voted := WithVote(s, attestor, id, outcome);
    if VotesFor(TallyOf(voted, id), outcome) >= VoteThreshold(s.book.commitments[id].counters) {
      ConcludedEffect(voted, env, id, true, outcome);
    }
  }

  /** Commitments past their dispute only move on to settled, so their votes stay sound. */
  lemma FrameVotes(s: State, t: State, id: u64)
    requires id in s.ballots.committee && s.config.arbitrators.Some? && VotesSound(s, id)
    requires id in t.ballots.committee && t.ballots.committee[id] == s.ballots.committee[id]
    requires t.config.arbitrators == s.config.arbitrators && V.Moves(s.book, t.book, id)
    ensures VotesSound(t, id)
  {
    V.MovesKeepPastDispute(s.book, t.book, id);
  }

  lemma FrameCommittee(s: State, env: Env, call: Call)
    requires CommitteeSound(s) && M.MilestonesSound(s.book) && !call.CallResolve? && !call.CallInitialize?
    ensures CommitteeSound(Step(s, env, call))
  {
    var t := Step(s, env, call);
    CommitteeBallotsKept(s, env, call);
    forall id | id in t.ballots.committee && SmallCommittee(t) ensures VotesSound(t, id) {
      assert VotesSound(s, id);
      V.StepMoves(s, env, call, id);
      FrameVotes(s, t, id);
    }
  }

  lemma InitializeKeepsCommittee(s: State, env: Env, call: Call)
    requires CommitteeSound(s) && call.CallInitialize?
    ensures CommitteeSound(Step(s, env, call))
  {
    DedupIsDistinct(call.arbitrators);
    OtherCallsKeepBook(s, env, call);
  }

  // -------------------------------------------------------------------- votes

  lemma VotersForGains(voters: map<Address, Status>, a: Address, outcome: Status, x: Status)
    requires a !in voters
    ensures VotersFor(voters[a := outcome], x) == VotersFor(voters, x) + (if x == outcome then {a} else {})
    ensures a !in VotersFor(voters, x)
  {
  }

  lemma VotersForAfter(voters: map<Address, Status>, a: Address, outcome: Status, x: Status)
    requires a !in voters
    ensures |VotersFor(voters[a := outcome], x)| == |VotersFor(voters, x)| + (if x == outcome then 1 else 0)
  {
    VotersForGains(voters, a, outcome, x);
    if x == outcome {
      var before := VotersFor(voters, x);
      assert |before + {a}| == |before| + 1;
    } else {
      assert VotersFor(voters, x) + {} == VotersFor(voters, x);
    }
  }

  /** One recorded vote adds one voter to one lane. */
  lemma RecordVoteCounts(v: DisputeVotes, a: Address, outcome: Status, x: Status)
    requires a !in v.voters && IsFinal(outcome) && IsFinal(x) && VotesFor(v.counts, outcome) < U32_MAX
    requires VotesFor(v.counts, x) == |VotersFor(v.voters, x)|
    ensures var w := RecordVote(v, a, outcome);
            VotesFor(w.counts, x) == |VotersFor(w.voters, x)|
            == VotesFor(v.counts, x) + (if x == outcome then 1 else 0)
  {
    VotersForAfter(v.voters, a, outcome, x);
  }

  /** What is stored about `id` before anyone votes, or after some have. */
  lemma VotesOnSound(s: State, id: u64, x: Status)
    requires CommitteeSound(s) && SmallCommittee(s) && s.config.arbitrators.Some? && IsFinal(x)
    requires id in s.book.commitments && s.book.commitments[id].status == Status.Disputed
    ensures VotesFor(VotesOn(s, id).counts, x) == |VotersFor(VotesOn(s, id).voters, x)|
    ensures VotesFor(VotesOn(s, id).counts, x) <= |s.config.arbitrators.value| / 2
    ensures forall a :: a in VotesOn(s, id).voters ==> a in s.config.arbitrators.value
  {
    if id in s.ballots.committee {
      assert VotesSound(s, id);
    } else {
      assert VotersFor(map[], x) == {};
    }
  }

  lemma ResolveBallots(s: State, env: Env, caller: Address, id: u64, outcome: Status)
    requires Resolve(s, env, caller, id, outcome).Ok?
    ensures var t := Resolve(s, env, caller, id, outcome).value;
            && id in s.book.commitments && s.config.arbitrators.Some?
            && t.config == s.config
            && (if RouteOf(s, s.book.commitments[id], caller) == Direct
                then t.ballots == s.ballots && t.book == Moved(s.book, id, outcome)
                else var w := RecordVote(VotesOn(s, id), caller, outcome);
                     && caller in s.config.arbitrators.value && caller !in VotesOn(s, id).voters
                     && t.ballots.committee == s.ballots.committee[id := w]
                     && t.book == if VotesFor(w.counts, outcome) > |s.config.arbitrators.value| / 2
                                  then Moved(s.book, id, outcome) else s.book)
  {
    if RouteOf(s, s.book.commitments[id], caller) == Direct {
      FinalizedEffect(s, env, id, outcome);
    } else {
      var w := RecordVote(VotesOn(s, id), caller, outcome);
      var voted := s.(ballots := s.ballots.(committee := s.ballots.committee[id := w]));
      if VotesFor(w.counts, outcome) > |s.config.arbitrators.value| / 2 { FinalizedEffect(voted, env, id, outcome); }
    }
  }

  lemma CommitteeVoteSound(s: State, t: State, env: Env, caller: Address, id: u64, outcome: Status)
    requires CommitteeSound(s) && SmallCommittee(s) && Resolve(s, env, caller, id, outcome) == Ok(t)
    requires id in s.book.commitments && s.config.arbitrators.Some?
    requires RouteOf(s, s.book.commitments[id], caller) != Direct
    ensures id in t.ballots.committee && t.config == s.config && VotesSound(t, id)
  {
    ResolveBallots(s, env, caller, id, outcome);
    ResolveEffect(s, env, caller, id, outcome);
    VotesOnSound(s, id, outcome);
    forall x: Status | IsFinal(x)
      ensures VotesFor(t.ballots.committee[id].counts, x) == |VotersFor(t.ballots.committee[id].voters, x)|
      ensures t.book.commitments[id].status == Status.Disputed ==>
                VotesFor(t.ballots.committee[id].counts, x) <= |s.config.arbitrators.value| / 2 {
      VotesOnSound(s, id, x);
      RecordVoteCounts(VotesOn(s, id), caller, outcome, x);
    }
  }

  lemma ResolveMoves(s: State, t: State, env: Env, caller: Address, id: u64, outcome: Status, j: u64)
    requires Resolve(s, env, caller, id, outcome) == Ok(t) && j in s.book.commitments
    ensures V.Moves(s.book, t.book, j)
  {
    V.DisputeMoves(s, env, CallResolve(caller, id, outcome), j);
  }

  lemma ResolveKeepsCommittee(s: State, t: State, env: Env, caller: Address, id: u64, outcome: Status)
    requires CommitteeSound(s) && M.MilestonesSound(s.book) && Resolve(s, env, caller, id, outcome) == Ok(t)
    ensures CommitteeSound(t)
  {
    ResolveBallots(s, env, caller, id, outcome);
    var direct := RouteOf(s, s.book.commitments[id], caller) == Direct;
    forall j | j in t.ballots.committee && SmallCommittee(t) ensures VotesSound(t, j) {
      if j == id && !direct {
        CommitteeVoteSound(s, t, env, caller, id, outcome);
      } else {
        assert VotesSound(s, j);
        ResolveMoves(s, t, env, caller, id, outcome, j);
        FrameVotes(s, t, j);
      }
    }
  }

  lemma StepKeepsCommittee(s: State, env: Env, call: Call)
    requires CommitteeSound(s) && M.MilestonesSound(s.book)
    ensures CommitteeSound(Step(s, env, call))
  {
    if call.CallResolve? {
      if Invoke(s, env, call).Ok? {
        ResolveKeepsCommittee(s, Invoke(s, env, call).value, env, call.caller, call.id, call.outcome);
      }
    } else if call.CallInitialize? {
      InitializeKeepsCommittee(s, env, call);
    } else {
      FrameCommittee(s, env, call);
    }
  }

  lemma {:induction false} CommitteeSoundInEveryRun(script: Script)
    ensures CommitteeSound(Run(script)) && M.MilestonesSound(Run(script).book)
  {
    if script != [] {
      var front, last := script[..|script| - 1], script[|script| - 1];
      CommitteeSoundInEveryRun(front);
      StepKeepsCommittee(Run(front), last.0, last.1);
      M.StepKeepsMilestones(Run(front), last.0, last.1);
    }
  }

  /**
   A committee member's call settles the dispute exactly when, with its vote, more than half
   of the distinct arbitrators have voted for that outcome.
   */
  lemma SettlesExactlyOnMajority(script: Script, env: Env, caller: Address, id: u64, outcome: Status)
    requires var s := Run(script);
             && SmallCommittee(s) && Resolve(s, env, caller, id, outcome).Ok?
             && id in s.book.commitments && s.config.arbitrators.Some?
             && RouteOf(s, s.book.commitments[id], caller) == Committee
    ensures var s, t := Run(script), Resolve(Run(script), env, caller, id, outcome).value;
            && id in t.book.commitments && id in t.ballots.committee
            && var voters := VotersFor(t.ballots.committee[id].voters, outcome);
            && caller in voters && (forall a :: a in voters ==> a in s.config.arbitrators.value)
            && Distinct(s.config.arbitrators.value)
            && (t.book.commitments[id].status == outcome <==> 2 * |voters| > |s.config.arbitrators.value|)
  {
    var s, t := Run(script), Resolve(Run(script), env, caller, id, outcome).value;
    CommitteeSoundInEveryRun(script);
    ResolveBallots(s, env, caller, id, outcome);
    ResolveEffect(s, env, caller, id, outcome);
    CommitteeVoteSound(s, t, env, caller, id, outcome);
  }

  // -------------------------------------------------- calls about other disputes

  lemma PanelCallsRefused(s: State, env: Env, attestor: Address, id: u64, outcome: Status)
    requires M.MilestonesSound(s.book) && id in s.book.commitments && s.book.commitments[id].attestors == []
    ensures CastVote(s, env, attestor, id, outcome).Err? && CheckTimeout(s, env, id).Err?
  {
    assert M.Sound(s.book, id);
    assert VoteThreshold(s.book.commitments[id].counters) == 0;
  }

  lemma ResolveKeepsOthers(s: State, env: Env, caller: Address, other: u64, outcome: Status, id: u64)
    requires other != id && Resolve(s, env, caller, other, outcome).Ok?
    ensures VotesOn(Resolve(s, env, caller, other, outcome).value, id) == VotesOn(s, id)
  {
    ResolveBallots(s, env, caller, other, outcome);
  }

  lemma AttestKeepsOthers(s: State, env: Env, caller: Address, other: u64, index: Option<u32>, outcome: Status, id: u64)
    requires id in s.book.commitments && other != id && Attest(s, env, caller, other, index, outcome).Ok?
    ensures var b := Attest(s, env, caller, other, index, outcome).value.book;
            id in b.commitments && b.commitments[id] == s.book.commitments[id]
  {
  }

  lemma CreateKeepsOthers(s: State, env: Env, call: Call, id: u64)
    requires M.MilestonesSound(s.book) && id in s.book.commitments
    requires (call.CallCreate? || call.CallCreateBatch?) && Invoke(s, env, call).Ok?
    ensures var b := Invoke(s, env, call).value.book; id in b.commitments && b.commitments[id] == s.book.commitments[id]
  {
    assert M.Sound(s.book, id);
    if call.CallCreateBatch? { V.CreateAllKeepsOld(s, env, call.batch, id); }
  }

  lemma DisputesKeepOthers(s: State, env: Env, call: Call, id: u64)
    requires id in s.book.commitments && Invoke(s, env, call).Ok?
    requires (call.CallDispute? || call.CallResolve? || call.CallVote? || call.CallTimeout?) && call.id != id
    ensures var b := Invoke(s, env, call).value.book; id in b.commitments && b.commitments[id] == s.book.commitments[id]
  {
    if call.CallDispute? {
      DisputeEffect(s, env, call.caller, call.id);
    } else if call.CallResolve? {
      ResolveEffect(s, env, call.caller, call.id, call.outcome);
    } else if call.CallVote? {
      CastVoteEffect(s, env, call.attestor, call.id, call.outcome);
    } else {
      TimeoutEffect(s, env, call.id);
    }
  }

  lemma OtherCommitmentsKept(s: State, env: Env, call: Call, id: u64)
    requires M.MilestonesSound(s.book) && id in s.book.commitments && Invoke(s, env, call).Ok? && TouchesBook(call)
    requires !call.CallCreate? && !call.CallCreateBatch? ==> call.id != id
    ensures var b := Invoke(s, env, call).value.book; id in b.commitments && b.commitments[id] == s.book.commitments[id]
  {
    if call.CallCreate? || call.CallCreateBatch? {
      CreateKeepsOthers(s, env, call, id);
    } else if call.CallAttest? {
      AttestKeepsOthers(s, env, call.caller, call.id, call.index, call.outcome, id);
    } else {
      DisputesKeepOthers(s, env, call, id);
    }
  }
}
