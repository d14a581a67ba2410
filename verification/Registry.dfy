/**
 The registry contract's state and the effect of each entrypoint, as functions: what a
 call leaves behind, or the error it panics with. A panic reverts the whole invocation, so
 a failed call has no effect.
 */
module Registry {
  import opened Wrappers
  import opened Integers
  import opened Commitments
  import opened TrustStores
  import R = Reputations
  import opened Staking

  const DISPUTE_WINDOW_SECONDS: nat := 604_800
  const ATTESTOR_VOTE_TIMEOUT_SECONDS: nat := 604_800
  const DISPUTE_STAKE_AMOUNT: i128 := 100_000_000
  const MAX_MILESTONES: nat := 256
  const MAX_CREATE_BATCH: nat := 50

  datatype Error =
    | NotSigned | TransferFailed | AlreadyInitialized | EmptyArbitratorSet | NotInitialized | NotAdmin
    | AdminAlreadySet | NotArbitrator | ProtocolPaused | DueAtInPast | InvalidMilestoneCount | ThresholdInvalid
    | Overflow | BatchTooLarge | InvalidOutcome | CommitmentNotFound | Unauthorized | AlreadyResolved
    | InvalidMilestoneIndex | MilestoneAlreadyAttested | MilestoneOutOfOrder | DisputeTokenNotSet
    | InvalidTransition | DisputeWindowExpired | UseVotingResolution | AlreadyVoted | VotingClosed
    | NotAttestor | InsufficientStake | DisputeActive | AttestorAlreadyVoted | VotesNotMet
    | StakingTokenNotSet | ZeroAmount | UnbondingPending | UnbondingNotElapsed
    | MigrationNotEnabled | SchemaDowngrade | UnsupportedSchemaVersion

  type Outcome<+T> = Result<T, Error>

  /**
   The environment of one invocation: the ledger's clock and sequence number, the addresses
   that authorise it, and whether an incoming token transfer it asks for succeeds.
   */
  datatype Env = Env(now: u64, ledger: u32, signers: set<Address>, funded: bool)

  datatype Commitment = Commitment(
    id: u64, issuer: Address, counterparty: Address, termsHash: nat, dueAt: u64, status: Status,
    createdAt: u64, attestedAt: Option<u64>, resolver: Address, oracle: Option<Address>,
    schemaId: Option<u32>, attestors: seq<Address>, counters: u64)

  datatype CommitmentParams = CommitmentParams(
    issuer: Address, counterparty: Address, termsHash: nat, dueAt: u64, resolver: Address,
    oracle: Option<Address>, schemaId: Option<u32>, attestors: seq<Address>, voteThreshold: u32)

  /** Three vote counts: the panel's tally, and the lanes of the committee's record. */
  datatype VoteTally = VoteTally(fulfilled: u32, late: u32, breached: u32)

  datatype DisputeVotes = DisputeVotes(counts: VoteTally, voters: map<Address, Status>)

  const NO_VOTES: VoteTally := VoteTally(0, 0, 0)

  function VotesFor(t: VoteTally, outcome: Status): u32 {
    match outcome
    case Fulfilled => t.fulfilled
    case Late => t.late
    case Breached => t.breached
    case _ => 0
  }

  function WithVotes(t: VoteTally, outcome: Status, n: u32): VoteTally {
    match outcome
    case Fulfilled => t.(fulfilled := n)
    case Late => t.(late := n)
    case Breached => t.(breached := n)
    case _ => t
  }

  type VoteRecords = map<(u64, Address), Status>

  /** Instance storage. */
  datatype Config = Config(arbitrators: Option<seq<Address>>, admin: Option<Address>, paused: bool,
                           stakingToken: Option<Address>, disputeToken: Option<Address>)

  datatype Book = Book(nextId: u64, commitments: map<u64, Commitment>, milestones: map<(u64, u32), Status>)

  /** The committee's votes, and the panels' vote records and tallies. */
  datatype Ballots = Ballots(committee: map<u64, DisputeVotes>, records: VoteRecords, tallies: map<u64, VoteTally>)

  /** Stakes and escrows, and the contract's own balance of each token. */
  datatype Vault = Vault(stakes: Stakes, escrows: map<u64, int>, held: map<Address, nat>)

  /** An outgoing transfer: a dispute's escrow, or an attestor's stake. */
  datatype Payout =
    | EscrowPaid(id: u64, to: Address, token: Address, amount: nat)
    | StakeReturned(to: Address, token: Address, amount: nat)

  /** `slashed` sums every forfeited amount, `payouts` lists the outgoing transfers in order. */
  datatype State = State(config: Config, book: Book, ballots: Ballots, vault: Vault, slashed: nat,
                         reputation: R.Rows, trust: Histories, payouts: seq<Payout>)

  const GENESIS: State := State(
    Config(None, None, false, None, None), Book(1, map[], map[]), Ballots(map[], map[], map[]),
    Vault(map[], map[], map[]), 0, R.Rows(R.SCHEMA_VERSION_V1, map[], map[]), map[], [])

  function Held(held: map<Address, nat>, token: Address): nat {
    if token in held then held[token] else 0
  }

  function Credit(held: map<Address, nat>, token: Address, amount: nat): map<Address, nat> {
    held[token := Held(held, token) + amount]
  }

  function Debit(held: map<Address, nat>, token: Address, amount: nat): map<Address, nat>
    requires amount <= Held(held, token)
  {
    held[token := Held(held, token) - amount]
  }

  function SaturatingAdd(a: u64, b: nat): u64 {
    if a + b > U64_MAX then U64_MAX else a + b
  }

  function Put(s: State, id: u64, c: Commitment): State {
    s.(book := s.book.(commitments := s.book.commitments[id := c]))
  }

  /** Reputation and trust history move together. */
  function Scored(s: State, env: Env, issuer: Address, outcome: Status, increment: bool): State {
    s.(reputation := R.UpdatedRows(s.reputation, issuer, outcome, increment, env.now),
       trust := s.trust[issuer := Recorded(RowOf(s.trust, issuer), outcome, increment, env.ledger)])
  }

  // ------------------------------------------------------------------- set-up

  function Dedup(xs: seq<Address>): seq<Address> {
    if xs == [] then []
    else
      var front := Dedup(xs[..|xs| - 1]);
      if xs[|xs| - 1] in front then front else front + [xs[|xs| - 1]]
  }

  /** Deduplication keeps every address. */
  lemma {:induction false} DedupKeepsMembers(xs: seq<Address>)
    ensures forall a :: a in Dedup(xs) <==> a in xs
  {
    if xs != [] {
      DedupKeepsMembers(xs[..|xs| - 1]);
      assert xs == xs[..|xs| - 1] + [xs[|xs| - 1]];
    }
  }

  function Initialize(s: State, env: Env, arbitrators: seq<Address>, admin: Address): Outcome<State> {
    if s.config.arbitrators.Some? then Err(AlreadyInitialized)
    else if arbitrators == [] then Err(EmptyArbitratorSet)
    else if admin !in env.signers then Err(NotSigned)
    else if s.config.admin.Some? then Err(AdminAlreadySet)
    else if exists a :: a in arbitrators && a !in env.signers then Err(NotSigned)
    else Ok(s.(config := s.config.(admin := Some(admin), arbitrators := Some(Dedup(arbitrators)))))
  }

  function SetPaused(s: State, env: Env, admin: Address, paused: bool): Outcome<State> {
    if admin !in env.signers then Err(NotSigned)
    else if s.config.admin.None? then Err(NotInitialized)
    else if s.config.admin != Some(admin) then Err(NotAdmin)
    else Ok(s.(config := s.config.(paused := paused)))
  }

  function RequireArbitrator(s: State, env: Env, caller: Address): Option<Error> {
    if caller !in env.signers then Some(NotSigned)
    else if s.config.arbitrators.None? then Some(NotInitialized)
    else if caller !in s.config.arbitrators.value then Some(NotArbitrator)
    else None
  }

  function SetStakingToken(s: State, env: Env, caller: Address, token: Address): Outcome<State> {
    if RequireArbitrator(s, env, caller).Some? then Err(RequireArbitrator(s, env, caller).value)
    else if s.config.stakingToken.Some? then Err(AlreadyInitialized)
    else Ok(s.(config := s.config.(stakingToken := Some(token))))
  }

  function SetDisputeToken(s: State, env: Env, caller: Address, token: Address): Outcome<State> {
    if RequireArbitrator(s, env, caller).Some? then Err(RequireArbitrator(s, env, caller).value)
    else if s.config.disputeToken.Some? then Err(AlreadyInitialized)
    else Ok(s.(config := s.config.(disputeToken := Some(token))))
  }

  // ----------------------------------------------------------------- creation

  function CreationError(env: Env, p: CommitmentParams, milestoneCount: u32, nextId: u64): Option<Error> {
    if p.issuer !in env.signers then Some(NotSigned)
    else if p.dueAt <= env.now then Some(DueAtInPast)
    else if milestoneCount == 0 || milestoneCount > MAX_MILESTONES then Some(InvalidMilestoneCount)
    else if (p.attestors != []) != (p.voteThreshold > 0) || p.voteThreshold > |p.attestors| then Some(ThresholdInvalid)
    else if nextId == U64_MAX then Some(Overflow)
    else if PackCounters(milestoneCount, 0, 0, p.voteThreshold).None? then Some(Overflow)
    else None
  }

  function Create(s: State, env: Env, p: CommitmentParams, milestoneCount: u32): Outcome<State> {
    if CreationError(env, p, milestoneCount, s.book.nextId).Some?
    then Err(CreationError(env, p, milestoneCount, s.book.nextId).value)
    else
      var c := Commitment(s.book.nextId, p.issuer, p.counterparty, p.termsHash, p.dueAt, Status.Pending, env.now, None,
                          p.resolver, p.oracle, p.schemaId, p.attestors,
                          PackCounters(milestoneCount, 0, 0, p.voteThreshold).value);
      Ok(s.(book := s.book.(nextId := s.book.nextId + 1,
                            commitments := s.book.commitments[s.book.nextId := c])))
  }

  function CreateCommitment(s: State, env: Env, p: CommitmentParams, milestoneCount: u32): Outcome<State> {
    if s.config.paused then Err(ProtocolPaused) else Create(s, env, p, milestoneCount)
  }

  function CreateAll(s: State, env: Env, ps: seq<CommitmentParams>): Outcome<State> {
    if ps == [] then Ok(s)
    else
      var front := CreateAll(s, env, ps[..|ps| - 1]);
      if front.Err? then front else Create(front.value, env, ps[|ps| - 1], 1)
  }

  function CreateBatch(s: State, env: Env, ps: seq<CommitmentParams>): Outcome<State> {
    if s.config.paused then Err(ProtocolPaused)
    else if |ps| > MAX_CREATE_BATCH then Err(BatchTooLarge)
    else CreateAll(s, env, ps)
  }

  // -------------------------------------------------------------- attestation

  /** The status a milestone attestation resolves the commitment to, if it does. */
  function Resolution(counters: u64, outcome: Status): Option<Status> {
    if outcome == Status.Breached then Some(Status.Breached)
    else if MilestonesAttested(counters) == MilestoneCount(counters)
    then Some(if LateMilestones(counters) > 0 then Status.Late else Status.Fulfilled)
    else None
  }

  function AttestError(s: State, env: Env, caller: Address, id: u64, index: Option<u32>, outcome: Status)
    : Option<Error>
  {
    if s.config.paused then Some(ProtocolPaused)
    else if caller !in env.signers then Some(NotSigned)
    else if !IsFinal(outcome) then Some(InvalidOutcome)
    else if id !in s.book.commitments then Some(CommitmentNotFound)
    else
      var c := s.book.commitments[id];
      var next := MilestonesAttested(c.counters);
      var k := if index.Some? then index.value else next;
      if caller != c.issuer && caller != c.counterparty && Some(caller) != c.oracle then Some(Unauthorized)
      else if c.status != Status.Pending then Some(AlreadyResolved)
      else if k >= MilestoneCount(c.counters) then Some(InvalidMilestoneIndex)
      else if k < next then Some(MilestoneAlreadyAttested)
      else if k > next then Some(MilestoneOutOfOrder)
      else if RecordMilestone(c.counters, outcome == Status.Late).None? then Some(Overflow)
      else None
  }

  function Attest(s: State, env: Env, caller: Address, id: u64, index: Option<u32>, outcome: Status): Outcome<State> {
    var e := AttestError(s, env, caller, id, index, outcome);
    if e.Some? then Err(e.value)
    else
      var c := s.book.commitments[id];
      var k := MilestonesAttested(c.counters);
      var counters := RecordMilestone(c.counters, outcome == Status.Late).value;
      var resolution := Resolution(counters, outcome);
      var attested := s.(book := s.book.(milestones := s.book.milestones[(id, k) := outcome]));
      if resolution.None? then Ok(Put(attested, id, c.(counters := counters)))
      else
        var resolved := c.(counters := counters, status := resolution.value, attestedAt := Some(env.now));
        Ok(Scored(Put(attested, id, resolved), env, c.issuer, resolution.value, true))
  }

  // ----------------------------------------------------------------- disputes

  function LockAll(stakes: Stakes, attestors: seq<Address>): Stakes {
    if attestors == [] then stakes
    else SetLocked(LockAll(stakes, attestors[..|attestors| - 1]), attestors[|attestors| - 1], true)
  }

  function DisputeError(s: State, env: Env, caller: Address, id: u64): Option<Error> {
    if s.config.paused then Some(ProtocolPaused)
    else if caller !in env.signers then Some(NotSigned)
    else if s.config.disputeToken.None? then Some(DisputeTokenNotSet)
    else if !env.funded then Some(TransferFailed)
    else if id !in s.book.commitments then Some(CommitmentNotFound)
    else
      var c := s.book.commitments[id];
      if caller != c.issuer && caller != c.counterparty then Some(Unauthorized)
      else if !IsFinal(c.status) then Some(InvalidTransition)
      else if c.attestedAt.None? then Some(InvalidTransition)
      else if env.now > SaturatingAdd(c.attestedAt.value, DISPUTE_WINDOW_SECONDS) then Some(DisputeWindowExpired)
      else None
  }

  /** The escrow taken, the panel locked and the status moved. */
  function Disputing(s: State, id: u64): State
    requires id in s.book.commitments && s.config.disputeToken.Some?
  {
    var c, t := s.book.commitments[id], s.config.disputeToken.value;
    var vault := Vault(LockAll(s.vault.stakes, c.attestors), s.vault.escrows[id := DISPUTE_STAKE_AMOUNT],
                       Credit(s.vault.held, t, DISPUTE_STAKE_AMOUNT));
    Put(s.(vault := vault), id, c.(status := Status.Disputed))
  }

  function Dispute(s: State, env: Env, caller: Address, id: u64): Outcome<State> {
    var e := DisputeError(s, env, caller, id);
    if e.Some? then Err(e.value)
    else
      var c := s.book.commitments[id];
      Ok(Scored(Disputing(s, id), env, c.issuer, c.status, false))
  }

  /** A final outcome is written, and `attested_at` cleared. */
  function WithOutcome(s: State, id: u64, outcome: Status): State
    requires id in s.book.commitments
  {
    Put(s, id, s.book.commitments[id].(status := outcome, attestedAt := None))
  }

  /** The issuer wins a fulfilled commitment, its counterparty any other. */
  function Winner(c: Commitment, outcome: Status): Address {
    if outcome == Status.Fulfilled then c.issuer else c.counterparty
  }

  /** `finalize_resolution`: the outcome, with the escrow released to the winning party. */
  function Finalized(s: State, env: Env, id: u64, outcome: Status): Outcome<State>
    requires id in s.book.commitments
  {
    var c := s.book.commitments[id];
    if s.config.disputeToken.None? || id !in s.vault.escrows
    then Ok(Scored(WithOutcome(s, id, outcome), env, c.issuer, outcome, true))
    else
      var t, amount := s.config.disputeToken.value, s.vault.escrows[id];
      if amount < 0 || Held(s.vault.held, t) < amount then Err(TransferFailed)
      else
        var paid := s.(vault := Vault(s.vault.stakes, s.vault.escrows - {id}, Debit(s.vault.held, t, amount)),
                       payouts := s.payouts + [EscrowPaid(id, Winner(c, outcome), t, amount)]);
        Ok(Scored(WithOutcome(paid, id, outcome), env, c.issuer, outcome, true))
  }

  /** Who may settle a dispute that has no panel: its own resolver, or the whole committee. */
  datatype Route = Direct | Committee | Closed

  function RouteOf(s: State, c: Commitment, caller: Address): Route
    requires s.config.arbitrators.Some?
  {
    var routed := c.resolver in s.config.arbitrators.value;
    if caller == c.resolver && !routed then Direct
    else if !routed || caller !in s.config.arbitrators.value then Closed
    else Committee
  }

  function ResolveError(s: State, env: Env, caller: Address, id: u64, outcome: Status): Option<Error> {
    if s.config.paused then Some(ProtocolPaused)
    else if caller !in env.signers then Some(NotSigned)
    else if !IsFinal(outcome) then Some(InvalidOutcome)
    else if id !in s.book.commitments then Some(CommitmentNotFound)
    else
      var c := s.book.commitments[id];
      if c.attestors != [] then Some(UseVotingResolution)
      else if c.status != Status.Disputed then Some(InvalidTransition)
      else if s.config.arbitrators.None? then Some(NotInitialized)
      else if RouteOf(s, c, caller) == Closed then Some(NotArbitrator)
      else if RouteOf(s, c, caller) == Committee && caller in VotesOn(s, id).voters then Some(AlreadyVoted)
      else None
  }

  function VotesOn(s: State, id: u64): DisputeVotes {
    if id in s.ballots.committee then s.ballots.committee[id] else DisputeVotes(NO_VOTES, map[])
  }

  /** `DisputeVotes::record`. */
  function RecordVote(v: DisputeVotes, voter: Address, outcome: Status): DisputeVotes {
    DisputeVotes(WithVotes(v.counts, outcome, SaturatingAddOne(VotesFor(v.counts, outcome))),
                 v.voters[voter := outcome])
  }

  function Resolve(s: State, env: Env, caller: Address, id: u64, outcome: Status): Outcome<State> {
    var e := ResolveError(s, env, caller, id, outcome);
    if e.Some? then Err(e.value)
    else if RouteOf(s, s.book.commitments[id], caller) == Direct then Finalized(s, env, id, outcome)
    else
      var votes := RecordVote(VotesOn(s, id), caller, outcome);
      var voted := s.(ballots := s.ballots.(committee := s.ballots.committee[id := votes]));
      if VotesFor(votes.counts, outcome) > |s.config.arbitrators.value| / 2 then Finalized(voted, env, id, outcome)
      else Ok(voted)
  }

  // -------------------------------------------------------------- panel votes

  function VoteDeadline(c: Commitment): u64 {
    SaturatingAdd(if c.attestedAt.Some? then c.attestedAt.value else c.createdAt, ATTESTOR_VOTE_TIMEOUT_SECONDS)
  }

  function TallyOf(s: State, id: u64): VoteTally {
    if id in s.ballots.tallies then s.ballots.tallies[id] else NO_VOTES
  }

  datatype Bench = Bench(stakes: Stakes, records: VoteRecords, slashed: nat)

  /** One panel entry: slash a losing vote, release the lock, drop the vote record. */
  function ReleaseOne(b: Bench, id: u64, a: Address, slashDissenters: bool, winning: Status): Option<Bench> {
    var voted := (id, a) in b.records;
    var withWinner := voted && b.records[(id, a)] == winning;
    var cut := if ShouldSlash(slashDissenters, voted, withWinner) == Slash then Slashed(b.stakes, a)
               else Some((b.stakes, 0));
    if cut.None? then None
    else Some(Bench(SetLocked(cut.value.0, a, false), b.records - {(id, a)}, b.slashed + cut.value.1))
  }

  /** `unlock_panel_and_clear` over the panel's first entries. */
  function ReleaseAll(b: Bench, id: u64, panel: seq<Address>, slashDissenters: bool, winning: Status): Option<Bench> {
    if panel == [] then Some(b)
    else
      var front := ReleaseAll(b, id, panel[..|panel| - 1], slashDissenters, winning);
      if front.None? then None else ReleaseOne(front.value, id, panel[|panel| - 1], slashDissenters, winning)
  }

  /** A settled panel dispute: outcome persisted, panel released, tally cleared. */
  function Concluded(s: State, env: Env, id: u64, slashDissenters: bool, outcome: Status): Outcome<State>
    requires id in s.book.commitments
  {
    var c := s.book.commitments[id];
    var b := ReleaseAll(Bench(s.vault.stakes, s.ballots.records, s.slashed), id, c.attestors, slashDissenters, outcome);
    if b.None? then Err(Overflow)
    else
      var released := s.(vault := s.vault.(stakes := b.value.stakes), slashed := b.value.slashed,
                         ballots := s.ballots.(records := b.value.records, tallies := s.ballots.tallies - {id}));
      Ok(Scored(WithOutcome(released, id, outcome), env, c.issuer, outcome, true))
  }

  function VoteError(s: State, env: Env, attestor: Address, id: u64, outcome: Status): Option<Error> {
    if attestor !in env.signers then Some(NotSigned)
    else if id !in s.book.commitments then Some(CommitmentNotFound)
    else
      var c := s.book.commitments[id];
      var stake := StakeOf(s.vault.stakes, attestor);
      if c.status != Status.Disputed then Some(InvalidTransition)
      else if VoteThreshold(c.counters) == 0 then Some(InvalidTransition)
      else if !IsFinal(outcome) then Some(InvalidOutcome)
      else if env.now > VoteDeadline(c) then Some(VotingClosed)
      else if attestor !in c.attestors then Some(NotAttestor)
      else if stake.staked <= 0 then Some(InsufficientStake)
      else if !stake.locked then Some(DisputeActive)
      else if (id, attestor) in s.ballots.records then Some(AttestorAlreadyVoted)
      else if VotesFor(TallyOf(s, id), outcome) == U32_MAX then Some(Overflow)
      else None
  }

  function WithVote(s: State, attestor: Address, id: u64, outcome: Status): State {
    var t := TallyOf(s, id);
    var n := VotesFor(t, outcome);
    s.(ballots := s.ballots.(tallies := s.ballots.tallies[id := WithVotes(t, outcome, SaturatingAddOne(n))],
                             records := s.ballots.records[(id, attestor) := outcome]))
  }

  function CastVote(s: State, env: Env, attestor: Address, id: u64, outcome: Status): Outcome<State> {
    var e := VoteError(s, env, attestor, id, outcome);
    if e.Some? then Err(e.value)
    else
      var voted := WithVote(s, attestor, id, outcome);
      if VotesFor(TallyOf(voted, id), outcome) >= VoteThreshold(s.book.commitments[id].counters)
      then Concluded(voted, env, id, true, outcome)
      else Ok(voted)
  }

  function TimeoutError(s: State, env: Env, id: u64): Option<Error> {
    if id !in s.book.commitments then Some(CommitmentNotFound)
    else
      var c := s.book.commitments[id];
      if c.status != Status.Disputed then Some(InvalidTransition)
      else if VoteThreshold(c.counters) == 0 then Some(InvalidTransition)
      else if env.now <= VoteDeadline(c) then Some(VotesNotMet)
      else None
  }

  function CheckTimeout(s: State, env: Env, id: u64): Outcome<State> {
    var e := TimeoutError(s, env, id);
    if e.Some? then Err(e.value) else Concluded(s, env, id, false, Status.Breached)
  }

  // ------------------------------------------------------------------ staking

  function StakeError(s: State, env: Env, attestor: Address, amount: i128): Option<Error> {
    if attestor !in env.signers then Some(NotSigned)
    else if amount <= 0 then Some(ZeroAmount)
    else if s.config.stakingToken.None? then Some(StakingTokenNotSet)
    else if StakeOf(s.vault.stakes, attestor).staked + amount >= I128_LIMIT then Some(Overflow)
    else if !env.funded then Some(TransferFailed)
    else None
  }

  function Stake(s: State, env: Env, attestor: Address, amount: i128): Outcome<State> {
    var e := StakeError(s, env, attestor, amount);
    if e.Some? then Err(e.value)
    else
      var stake, t := StakeOf(s.vault.stakes, attestor), s.config.stakingToken.value;
      Ok(s.(vault := s.vault.(stakes := s.vault.stakes[attestor := stake.(staked := stake.staked + amount)],
                              held := Credit(s.vault.held, t, amount))))
  }

  function RequestUnstake(s: State, env: Env, attestor: Address): Outcome<State> {
    var stake := StakeOf(s.vault.stakes, attestor);
    if attestor !in env.signers then Err(NotSigned)
    else if stake.staked <= 0 then Err(InsufficientStake)
    else if stake.locked then Err(DisputeActive)
    else if stake.unbondingUntil.Some? then Err(UnbondingPending)
    else if env.now + UNBONDING_PERIOD_SECONDS > U64_MAX then Err(Overflow)
    else
      var until := Some(env.now + UNBONDING_PERIOD_SECONDS);
      Ok(s.(vault := s.vault.(stakes := s.vault.stakes[attestor := stake.(unbondingUntil := until)])))
  }

  function FinalizeUnstake(s: State, env: Env, attestor: Address): Outcome<State> {
    var stake := StakeOf(s.vault.stakes, attestor);
    if attestor !in env.signers then Err(NotSigned)
    else if stake.unbondingUntil.None? then Err(InsufficientStake)
    else if env.now < stake.unbondingUntil.value then Err(UnbondingNotElapsed)
    else if stake.locked then Err(DisputeActive)
    else if s.config.stakingToken.None? then Err(StakingTokenNotSet)
    else if stake.staked < 0 || Held(s.vault.held, s.config.stakingToken.value) < stake.staked then Err(TransferFailed)
    else
      var t := s.config.stakingToken.value;
      Ok(s.(vault := s.vault.(stakes := s.vault.stakes - {attestor}, held := Debit(s.vault.held, t, stake.staked)),
            payouts := s.payouts + [StakeReturned(attestor, t, stake.staked)]))
  }

  // ------------------------------------------------------------------- schema

  function FromMigration(e: R.MigrationError): Error {
    match e
    case MigrationNotEnabled => Error.MigrationNotEnabled
    case BatchTooLarge => Error.BatchTooLarge
    case SchemaDowngrade => Error.SchemaDowngrade
    case UnsupportedSchemaVersion => Error.UnsupportedSchemaVersion
  }

  function UpgradeSchema(s: State, target: u32): Outcome<State> {
    var r := R.Upgraded(s.reputation, target);
    if r.Panic? then Err(FromMigration(r.error)) else Ok(s.(reputation := r.value))
  }

  function MigrateBatch(s: State, env: Env, addresses: seq<Address>): Outcome<State> {
    if s.config.paused then Err(ProtocolPaused)
    else if s.reputation.schema < R.SCHEMA_VERSION_V2 then Err(Error.MigrationNotEnabled)
    else if |addresses| > R.MAX_MIGRATION_BATCH then Err(Error.BatchTooLarge)
    else Ok(s.(reputation := R.MigratedAll(s.reputation, addresses, env.now)))
  }

  // --------------------------------------------------------------------- runs

  datatype Call =
    | CallInitialize(arbitrators: seq<Address>, admin: Address)
    | CallSetPaused(admin: Address, paused: bool)
    | CallSetStakingToken(caller: Address, token: Address)
    | CallSetDisputeToken(caller: Address, token: Address)
    | CallCreate(params: CommitmentParams, milestoneCount: u32)
    | CallCreateBatch(batch: seq<CommitmentParams>)
    | CallAttest(caller: Address, id: u64, index: Option<u32>, outcome: Status)
    | CallDispute(caller: Address, id: u64)
    | CallResolve(caller: Address, id: u64, outcome: Status)
    | CallVote(attestor: Address, id: u64, outcome: Status)
    | CallTimeout(id: u64)
    | CallStake(attestor: Address, amount: i128)
    | CallRequestUnstake(attestor: Address)
    | CallFinalizeUnstake(attestor: Address)
    | CallUpgrade(target: u32)
    | CallMigrate(addresses: seq<Address>)

  function Invoke(s: State, env: Env, call: Call): Outcome<State> {
    match call
    case CallInitialize(arbitrators, admin) => Initialize(s, env, arbitrators, admin)
    case CallSetPaused(admin, paused) => SetPaused(s, env, admin, paused)
    case CallSetStakingToken(caller, token) => SetStakingToken(s, env, caller, token)
    case CallSetDisputeToken(caller, token) => SetDisputeToken(s, env, caller, token)
    case CallCreate(params, milestoneCount) => CreateCommitment(s, env, params, milestoneCount)
    case CallCreateBatch(batch) => CreateBatch(s, env, batch)
    case CallAttest(caller, id, index, outcome) => Attest(s, env, caller, id, index, outcome)
    case CallDispute(caller, id) => Dispute(s, env, caller, id)
    case CallResolve(caller, id, outcome) => Resolve(s, env, caller, id, outcome)
    case CallVote(attestor, id, outcome) => CastVote(s, env, attestor, id, outcome)
    case CallTimeout(id) => CheckTimeout(s, env, id)
    case CallStake(attestor, amount) => Stake(s, env, attestor, amount)
    case CallRequestUnstake(attestor) => RequestUnstake(s, env, attestor)
    case CallFinalizeUnstake(attestor) => FinalizeUnstake(s, env, attestor)
    case CallUpgrade(target) => UpgradeSchema(s, target)
    case CallMigrate(addresses) => MigrateBatch(s, env, addresses)
  }

  /** A call that panics leaves the state as it was. */
  function Step(s: State, env: Env, call: Call): State {
    var r := Invoke(s, env, call);
    if r.Ok? then r.value else s
  }

  type Script = seq<(Env, Call)>

  function RunFrom(s: State, script: Script): State {
    if script == [] then s
    else
      var last := script[|script| - 1];
      Step(RunFrom(s, script[..|script| - 1]), last.0, last.1)
  }

  function Run(script: Script): State {
    RunFrom(GENESIS, script)
  }
}
