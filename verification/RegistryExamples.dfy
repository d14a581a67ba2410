/** Runs from the fresh contract that show what its disputes can come to. */
module RegistryExamples {
  import opened Wrappers
  import opened Integers
  import opened Commitments
  import opened Registry
  import opened RegistryEffects
  import opened RegistryCommittee
  import opened RegistrySettling
  import V = RegistryVault

  const ALICE := Address(1)
  const BOB := Address(2)
  const ISSUER := Address(3)
  const COUNTERPARTY := Address(4)
  const TOKEN := Address(5)
  const ATTESTOR := Address(6)

  const EVERYONE := Env(0, 0, {ALICE, BOB, ISSUER}, true)

  /** A commitment resolved by Alice, an arbitrator, or by a panel of one. */
  function Params(panel: bool): CommitmentParams {
    CommitmentParams(ISSUER, COUNTERPARTY, 0, 1, ALICE, None, None, if panel then [ATTESTOR] else [],
                     if panel then 1 else 0)
  }

  /** Alice and Bob are the committee; a commitment is created, breached and disputed. */
  function Opening(panel: bool): Script {
    Setup(panel) + [(EVERYONE, CallAttest(ISSUER, 1, None, Status.Breached))] + [(EVERYONE, CallDispute(ISSUER, 1))]
  }

  function Setup(panel: bool): Script {
    [] + [(EVERYONE, CallInitialize([ALICE, BOB], ALICE))] + [(EVERYONE, CallSetDisputeToken(ALICE, TOKEN))]
    + [(EVERYONE, CallCreate(Params(panel), 1))]
  }

  lemma RunSnoc(front: Script, env: Env, call: Call)
    ensures Run(front + [(env, call)]) == Step(Run(front), env, call)
  {
    assert (front + [(env, call)])[..|front|] == front;
  }

  lemma SetupReaches(panel: bool)
    ensures var s := Run(Setup(panel));
            && s.config == Config(Some([ALICE, BOB]), Some(ALICE), false, None, Some(TOKEN))
            && s.ballots == GENESIS.ballots && s.vault == GENESIS.vault && Created(s.book, Params(panel))
  {
    RunSnoc([], EVERYONE, CallInitialize([ALICE, BOB], ALICE));
    var one: Script := [] + [(EVERYONE, CallInitialize([ALICE, BOB], ALICE))];
    CommitteeOfTwo();
    assert Run(one) == GENESIS.(config := Config(Some([ALICE, BOB]), Some(ALICE), false, None, None));
    RunSnoc(one, EVERYONE, CallSetDisputeToken(ALICE, TOKEN));
    var two := one + [(EVERYONE, CallSetDisputeToken(ALICE, TOKEN))];
    assert Run(two) == GENESIS.(config := Config(Some([ALICE, BOB]), Some(ALICE), false, None, Some(TOKEN)));
    RunSnoc(two, EVERYONE, CallCreate(Params(panel), 1));
    CreatesFirst(Run(two), EVERYONE, Params(panel));
  }

  /** The first commitment is pending, with one milestone, not attested. */
  ghost predicate Created(b: Book, p: CommitmentParams) {
    && 1 in b.commitments
    && var c := b.commitments[1];
    && c.status == Status.Pending && c.issuer == p.issuer && c.resolver == p.resolver && c.attestors == p.attestors
    && MilestoneCount(c.counters) == 1 && MilestonesAttested(c.counters) == 0
    && LateMilestones(c.counters) == 0 && VoteThreshold(c.counters) == p.voteThreshold
  }

  lemma CreatesFirst(s: State, env: Env, p: CommitmentParams)
    requires !s.config.paused && s.book == GENESIS.book && p.issuer in env.signers && p.dueAt > env.now
    requires (p.attestors != []) == (p.voteThreshold > 0) && p.voteThreshold <= |p.attestors| && p.voteThreshold < LANE
    ensures var t := Step(s, env, CallCreate(p, 1));
            t.config == s.config && t.ballots == s.ballots && t.vault == s.vault && Created(t.book, p)
  {
    PackRoundTrip(1, 0, 0, p.voteThreshold);
  }

  lemma CommitteeOfTwo()
    ensures Dedup([ALICE, BOB]) == [ALICE, BOB]
  {
    assert [ALICE, BOB][..1] == [ALICE];
    assert [ALICE][..0] == [];
    assert Dedup([ALICE]) == [ALICE];
  }

  /** The run leads to an open dispute about the first commitment, with its escrow taken. */
  lemma OpeningDisputes(panel: bool)
    ensures var s := Run(Opening(panel));
            && s.config == Config(Some([ALICE, BOB]), Some(ALICE), false, None, Some(TOKEN))
            && s.ballots == GENESIS.ballots && 1 in s.vault.escrows && 1 in s.book.commitments
            && var c := s.book.commitments[1];
            && c.status == Status.Disputed && c.resolver == ALICE && c.attestors == Params(panel).attestors
  {
    SetupReaches(panel);
    var attest, dispute := CallAttest(ISSUER, 1, None, Status.Breached), CallDispute(ISSUER, 1);
    var s := Run(Setup(panel));
    RunSnoc(Setup(panel), EVERYONE, attest);
    AttestsBreach(s);
    RunSnoc(Setup(panel) + [(EVERYONE, attest)], EVERYONE, dispute);
    DisputesBreach(Step(s, EVERYONE, attest));
  }

  lemma DisputesBreach(s: State)
    requires 1 in s.book.commitments && !s.config.paused && s.config.disputeToken.Some?
    requires var c := s.book.commitments[1];
             c.status == Status.Breached && c.attestedAt == Some(0) && c.issuer == ISSUER
    ensures var t := Step(s, EVERYONE, CallDispute(ISSUER, 1));
            && t.config == s.config && t.ballots == s.ballots && 1 in t.vault.escrows
            && 1 in t.book.commitments
            && t.book.commitments[1] == s.book.commitments[1].(status := Status.Disputed)
  {
    assert DisputeError(s, EVERYONE, ISSUER, 1).None?;
    DisputeEffect(s, EVERYONE, ISSUER, 1);
  }

  lemma AttestsBreach(s: State)
    requires !s.config.paused && 1 in s.book.commitments
    requires var c := s.book.commitments[1];
             && c.status == Status.Pending && c.issuer == ISSUER && MilestoneCount(c.counters) == 1
             && MilestonesAttested(c.counters) == 0 && LateMilestones(c.counters) == 0
    ensures var t := Step(s, EVERYONE, CallAttest(ISSUER, 1, None, Status.Breached));
            && t.config == s.config && t.ballots == s.ballots && t.vault == s.vault && 1 in t.book.commitments
            && var c, d := s.book.commitments[1], t.book.commitments[1];
            d == c.(counters := d.counters, status := Status.Breached, attestedAt := Some(0))
  {
    var c := s.book.commitments[1];
    PackRoundTrip(1, 1, 0, VoteThreshold(c.counters));
    assert AttestError(s, EVERYONE, ISSUER, 1, None, Status.Breached).None?;
  }

  // -------------------------------------------------------------- the deadlock

  /** Alice and Bob then disagree. */
  function Split(): Script {
    AliceVoted() + [(EVERYONE, CallResolve(BOB, 1, Status.Late))]
  }

  function AliceVoted(): Script {
    Opening(false) + [(EVERYONE, CallResolve(ALICE, 1, Status.Fulfilled))]
  }

  lemma ReachableIsSound(script: Script)
    requires SmallCommittee(Run(script))
    ensures Sound(Run(script))
  {
    CommitteeSoundInEveryRun(script);
    V.VaultSoundInEveryRun(script);
    AdminAppointedInEveryRun(script);
  }

  /** The first vote for an outcome is no majority of two. */
  lemma LoneVote(s: State, t: State, env: Env, voter: Address, id: u64, x: Status)
    requires Sound(s) && CommitteeDispute(s, id) && |s.config.arbitrators.value| == 2
    requires !s.config.paused && IsFinal(x) && voter in Remaining(s, id) && voter in env.signers
    requires forall a :: a in VotesOn(s, id).voters ==> VotesOn(s, id).voters[a] != x
    requires t == Step(s, env, CallResolve(voter, id, x))
    ensures Sound(t) && CommitteeDispute(t, id) && t.config == s.config
    ensures VotesOn(t, id).voters == VotesOn(s, id).voters[voter := x]
  {
    assert VotersFor(VotesOn(s, id).voters, x) == {};
    VoteGoesThrough(s, env, voter, id, x);
    InvokesResolve(s, env, voter, id, x);
    VoteShifts(s, env, voter, id, x);
    StepKeepsSound(s, env, CallResolve(voter, id, x));
  }

  lemma NobodyWins(s: State)
    requires CommitteeDispute(s, 1) && s.config.arbitrators == Some([ALICE, BOB])
    requires VotesOn(s, 1).voters == map[ALICE := Status.Fulfilled, BOB := Status.Late]
    ensures !Winnable(s, 1)
  {
    assert Remaining(s, 1) == {};
    forall x: Status ensures !CanWin(s, 1, x) {
      assert VotersFor(VotesOn(s, 1).voters, x)
             == if x == Status.Fulfilled then {ALICE} else if x == Status.Late then {BOB} else {};
    }
  }

  /** A committee of two that disagrees leaves its dispute open, however the run goes on. */
  lemma SplitCommitteeDeadlocks(after: Script)
    ensures CommitteeDispute(Run(Split()), 1) && !Settled(Run(Split()), 1, after)
  {
    BobVotes();
    NobodyWins(Run(Split()));
    CommitteeSettlesIff(Split(), 1);
  }

  /** An open committee dispute before Alice and Bob, with these votes. */
  ghost predicate Voted(s: State, voters: map<Address, Status>) {
    && Sound(s) && CommitteeDispute(s, 1) && s.config.arbitrators == Some([ALICE, BOB]) && !s.config.paused
    && VotesOn(s, 1).voters == voters
  }

  lemma AliceVotes()
    ensures Voted(Run(AliceVoted()), map[ALICE := Status.Fulfilled])
  {
    OpeningDisputes(false);
    ReachableIsSound(Opening(false));
    var s := Run(Opening(false));
    assert ALICE == [ALICE, BOB][0];
    assert VotesOn(s, 1).voters == map[];
    RunSnoc(Opening(false), EVERYONE, CallResolve(ALICE, 1, Status.Fulfilled));
    LoneVote(s, Run(AliceVoted()), EVERYONE, ALICE, 1, Status.Fulfilled);
  }

  lemma BobVotes()
    ensures Voted(Run(Split()), map[ALICE := Status.Fulfilled, BOB := Status.Late])
  {
    AliceVotes();
    assert BOB == [ALICE, BOB][1];
    RunSnoc(AliceVoted(), EVERYONE, CallResolve(BOB, 1, Status.Late));
    LoneVote(Run(AliceVoted()), Run(Split()), EVERYONE, BOB, 1, Status.Late);
  }

  // ---------------------------------------------------------- the panel's escrow

  /** The escrow of a dispute before a panel is never paid out, however the run goes on. */
  lemma PanelEscrowIsStranded(after: Script)
    ensures var s := RunFrom(Run(Opening(true)), after);
            && 1 in Run(Opening(true)).vault.escrows && 1 in s.vault.escrows
            && s.vault.escrows[1] == DISPUTE_STAKE_AMOUNT
  {
    OpeningDisputes(true);
    V.VaultSoundInEveryRun(Opening(true));
    V.PanelEscrowIsNeverPaid(Run(Opening(true)), after, 1);
  }
}
