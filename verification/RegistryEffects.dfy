/** What each entrypoint of the registry changes, and what it leaves alone. */
module RegistryEffects {
  import opened Wrappers
  import opened Integers
  import opened Commitments
  import opened Registry

  /** Disputing keeps `attested_at`; settling clears it. */
  function Moved(b: Book, id: u64, status: Status): Book
    requires id in b.commitments
  {
    var c := b.commitments[id];
    b.(commitments := b.commitments[id := c.(status := status,
                                             attestedAt := if status == Status.Disputed then c.attestedAt else None)])
  }

  /** `id` went from `Disputed` to `outcome`, and its issuer was scored for it. */
  ghost predicate Settles(s: State, t: State, env: Env, id: u64, outcome: Status) {
    && id in s.book.commitments && s.book.commitments[id].status == Status.Disputed && IsFinal(outcome)
    && t.book == Moved(s.book, id, outcome) && t.config == s.config
    && t.reputation == Scored(s, env, s.book.commitments[id].issuer, outcome, true).reputation
    && t.trust == Scored(s, env, s.book.commitments[id].issuer, outcome, true).trust
  }

  /** Commitments, reputation and trust are as they were. */
  ghost predicate BookUnchanged(s: State, t: State) {
    t.book == s.book && t.reputation == s.reputation && t.trust == s.trust
  }

  lemma DisputeEffect(s: State, env: Env, caller: Address, id: u64)
    requires Dispute(s, env, caller, id).Ok?
    ensures var t := Dispute(s, env, caller, id).value;
            && id in s.book.commitments && s.config.disputeToken.Some?
            && IsFinal(s.book.commitments[id].status) && s.book.commitments[id].attestedAt.Some?
            && t.book == Moved(s.book, id, Status.Disputed)
            && t.config == s.config && t.ballots == s.ballots && t.slashed == s.slashed
            && t.vault == Disputing(s, id).vault
            && var scored := Scored(s, env, s.book.commitments[id].issuer, s.book.commitments[id].status, false);
            t.reputation == scored.reputation && t.trust == scored.trust
  {
  }

  lemma FinalizedEffect(s: State, env: Env, id: u64, outcome: Status)
    requires id in s.book.commitments && s.book.commitments[id].status == Status.Disputed && IsFinal(outcome)
    requires Finalized(s, env, id, outcome).Ok?
    ensures var t := Finalized(s, env, id, outcome).value;
            && Settles(s, t, env, id, outcome)
            && t.ballots == s.ballots && t.slashed == s.slashed
            && t.vault.stakes == s.vault.stakes
            && (if s.config.disputeToken.Some? && id in s.vault.escrows
                then && t.vault.escrows == s.vault.escrows - {id}
                     && 0 <= s.vault.escrows[id] <= Held(s.vault.held, s.config.disputeToken.value)
                     && t.vault.held == Debit(s.vault.held, s.config.disputeToken.value, s.vault.escrows[id])
                else t.vault == s.vault)
  {
  }

  /** A resolver's call either settles at once, or records one committee vote and settles on a majority. */
  lemma ResolveEffect(s: State, env: Env, caller: Address, id: u64, outcome: Status)
    requires Resolve(s, env, caller, id, outcome).Ok?
    ensures var t := Resolve(s, env, caller, id, outcome).value;
            && id in s.book.commitments && s.book.commitments[id].status == Status.Disputed && IsFinal(outcome)
            && s.book.commitments[id].attestors == [] && s.config.arbitrators.Some?
            && t.ballots.records == s.ballots.records && t.ballots.tallies == s.ballots.tallies
            && t.config == s.config && t.slashed == s.slashed && t.vault.stakes == s.vault.stakes
            && ((BookUnchanged(s, t) && t.vault == s.vault) || Settles(s, t, env, id, outcome))
  {
    if RouteOf(s, s.book.commitments[id], caller) == Direct {
      FinalizedEffect(s, env, id, outcome);
    } else {
      var votes := RecordVote(VotesOn(s, id), caller, outcome);
      var voted := s.(ballots := s.ballots.(committee := s.ballots.committee[id := votes]));
      if VotesFor(votes.counts, outcome) > |s.config.arbitrators.value| / 2 {
        FinalizedEffect(voted, env, id, outcome);
      }
    }
  }

  lemma ConcludedEffect(s: State, env: Env, id: u64, slash: bool, outcome: Status)
    requires id in s.book.commitments && s.book.commitments[id].status == Status.Disputed && IsFinal(outcome)
    requires Concluded(s, env, id, slash, outcome).Ok?
    ensures var t := Concluded(s, env, id, slash, outcome).value;
            var b := ReleaseAll(Bench(s.vault.stakes, s.ballots.records, s.slashed), id,
                                s.book.commitments[id].attestors, slash, outcome);
            && b.Some? && Settles(s, t, env, id, outcome)
            && t.vault == s.vault.(stakes := b.value.stakes) && t.slashed == b.value.slashed
            && t.ballots == Ballots(s.ballots.committee, b.value.records, s.ballots.tallies - {id})
  {
  }

  lemma CastVoteEffect(s: State, env: Env, attestor: Address, id: u64, outcome: Status)
    requires CastVote(s, env, attestor, id, outcome).Ok?
    ensures var t := CastVote(s, env, attestor, id, outcome).value;
            && VoteError(s, env, attestor, id, outcome).None?
            && id in s.book.commitments && s.book.commitments[id].status == Status.Disputed && IsFinal(outcome)
            && t.config == s.config && t.vault.escrows == s.vault.escrows && t.vault.held == s.vault.held
            && ((BookUnchanged(s, t) && t == WithVote(s, attestor, id, outcome)) || Settles(s, t, env, id, outcome))
  {
    var voted := WithVote(s, attestor, id, outcome);
    if VotesFor(TallyOf(voted, id), outcome) >= VoteThreshold(s.book.commitments[id].counters) {
      ConcludedEffect(voted, env, id, true, outcome);
    }
  }

  lemma TimeoutEffect(s: State, env: Env, id: u64)
    requires CheckTimeout(s, env, id).Ok?
    ensures var t := CheckTimeout(s, env, id).value;
            && id in s.book.commitments && s.book.commitments[id].status == Status.Disputed
            && Settles(s, t, env, id, Status.Breached)
            && t.vault.escrows == s.vault.escrows && t.vault.held == s.vault.held
  {
    ConcludedEffect(s, env, id, false, Status.Breached);
  }

  predicate TouchesBook(call: Call) {
    call.CallCreate? || call.CallCreateBatch? || call.CallAttest? || call.CallDispute? || call.CallResolve?
    || call.CallVote? || call.CallTimeout?
  }

  /** Set-up, staking and schema calls leave every commitment, vote and escrow alone. */
  lemma OtherCallsKeepBook(s: State, env: Env, call: Call)
    requires !TouchesBook(call)
    ensures var t := Step(s, env, call);
            t.book == s.book && t.ballots == s.ballots && t.trust == s.trust && t.vault.escrows == s.vault.escrows
  {
  }
}
