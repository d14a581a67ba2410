/**
 Panel disputes over every run of the registry: tallies count distinct recorded votes, a
 resolution slashes exactly the losing voters, once each, and clears the vote ledger.
 */
module RegistryPanels {
  import opened Wrappers
  import opened Integers
  import opened Commitments
  import opened Staking
  import opened Registry
  import opened RegistryEffects
  import M = RegistryMilestones
  import V = RegistryVault

  // --------------------------------------------------------- releasing a panel

  /** Releasing a panel drops the members' vote records and nothing else. */
  ghost predicate Cleared(before: VoteRecords, after: VoteRecords, id: u64, panel: seq<Address>) {
    forall k :: (k in after <==> k in before && !(k.0 == id && k.1 in panel)) && (k in after ==> after[k] == before[k])
  }

  predicate Loses(b: Bench, id: u64, a: Address, winning: Status) {
    (id, a) in b.records && b.records[(id, a)] != winning
  }

  /** A member's stake after the release: cut once if its vote lost, unlocked, otherwise unchanged. */
  function ReleasedStake(b: Bench, id: u64, a: Address, slash: bool, winning: Status): Option<AttestorStake> {
    if a !in b.stakes then None
    else if slash && Loses(b, id, a, winning) && CutOf(b.stakes[a].staked, SLASH_PERCENT).Some?
    then Some(AttestorStake(CutOf(b.stakes[a].staked, SLASH_PERCENT).value.remaining, b.stakes[a].unbondingUntil,
                            false))
    else Some(AttestorStake(b.stakes[a].staked, b.stakes[a].unbondingUntil, false))
  }

  function StoredStake(stakes: Stakes, a: Address): Option<AttestorStake> {
    if a in stakes then Some(stakes[a]) else None
  }

  ghost predicate Released(b: Bench, r: Bench, id: u64, panel: seq<Address>, slash: bool, winning: Status) {
    && Cleared(b.records, r.records, id, panel)
    && forall a :: StoredStake(r.stakes, a)
                   == if a in panel then ReleasedStake(b, id, a, slash, winning) else StoredStake(b.stakes, a)
  }

  lemma ReleaseOneExact(b: Bench, id: u64, a: Address, slash: bool, winning: Status)
    requires V.StakesPositive(b.stakes)
    ensures ReleaseOne(b, id, a, slash, winning).None?
            <==> slash && Loses(b, id, a, winning) && CutOf(StakeOf(b.stakes, a).staked, SLASH_PERCENT).None?
    ensures ReleaseOne(b, id, a, slash, winning).Some? ==>
              var r := ReleaseOne(b, id, a, slash, winning).value;
              && r.records == b.records - {(id, a)}
              && StoredStake(r.stakes, a) == ReleasedStake(b, id, a, slash, winning)
              && forall c :: c != a ==> StoredStake(r.stakes, c) == StoredStake(b.stakes, c)
  {
    CutSplitsStake(StakeOf(b.stakes, a).staked, SLASH_PERCENT);
  }

  lemma ClearedExtends(before: VoteRecords, mid: VoteRecords, id: u64, front: seq<Address>, last: Address)
    requires Cleared(before, mid, id, front)
    ensures Cleared(before, mid - {(id, last)}, id, front + [last])
  {
  }

  /** An entry already released neither slashes nor fails again. */
  lemma ReleasedAgain(b: Bench, mid: Bench, id: u64, front: seq<Address>, last: Address, slash: bool, winning: Status)
    requires Released(b, mid, id, front, slash, winning)
    ensures Loses(mid, id, last, winning) <==> last !in front && Loses(b, id, last, winning)
    ensures last !in front ==> StoredStake(mid.stakes, last) == StoredStake(b.stakes, last)
    ensures last in front ==> StoredStake(mid.stakes, last) == ReleasedStake(b, id, last, slash, winning)
    ensures ReleasedStake(mid, id, last, slash, winning) == ReleasedStake(b, id, last, slash, winning)
  {
    assert StoredStake(mid.stakes, last)
           == if last in front then ReleasedStake(b, id, last, slash, winning) else StoredStake(b.stakes, last);
    assert (id, last) in mid.records <==> (id, last) in b.records && last !in front;
  }

  lemma ReleasedExtends(b: Bench, mid: Bench, id: u64, front: seq<Address>, last: Address, slash: bool, winning: Status)
    requires V.StakesPositive(b.stakes) && V.StakesPositive(mid.stakes) && Released(b, mid, id, front, slash, winning)
    ensures ReleaseOne(mid, id, last, slash, winning).None?
            <==> last !in front && slash && Loses(b, id, last, winning)
                 && CutOf(StakeOf(b.stakes, last).staked, SLASH_PERCENT).None?
    ensures ReleaseOne(mid, id, last, slash, winning).Some? ==>
              Released(b, ReleaseOne(mid, id, last, slash, winning).value, id, front + [last], slash, winning)
  {
    ReleaseOneExact(mid, id, last, slash, winning);
    ReleasedAgain(b, mid, id, front, last, slash, winning);
    if ReleaseOne(mid, id, last, slash, winning).Some? {
      var r := ReleaseOne(mid, id, last, slash, winning).value;
      ClearedExtends(b.records, mid.records, id, front, last);
      forall a ensures StoredStake(r.stakes, a)
                       == if a in front + [last] then ReleasedStake(b, id, a, slash, winning)
                          else StoredStake(b.stakes, a) {
        if a != last { assert StoredStake(r.stakes, a) == StoredStake(mid.stakes, a); }
      }
    }
  }

  /** Some losing member's stake is too large for the checked multiplication. */
  ghost predicate Unslashable(b: Bench, id: u64, panel: seq<Address>, winning: Status) {
    exists a :: a in panel && Loses(b, id, a, winning) && CutOf(StakeOf(b.stakes, a).staked, SLASH_PERCENT).None?
  }

  /**
   Even when the panel lists an address twice, releasing it slashes exactly the members
   whose recorded vote lost, once each, unlocks every member and clears their records; it
   panics exactly when a losing stake overflows the slash multiplication.
   */
  lemma {:induction false} ReleaseAllExact(b: Bench, id: u64, panel: seq<Address>, slash: bool, winning: Status)
    requires V.StakesPositive(b.stakes)
    ensures ReleaseAll(b, id, panel, slash, winning).None? <==> slash && Unslashable(b, id, panel, winning)
    ensures ReleaseAll(b, id, panel, slash, winning).Some? ==>
              Released(b, ReleaseAll(b, id, panel, slash, winning).value, id, panel, slash, winning)
  {
    if panel != [] {
      var front, last := panel[..|panel| - 1], panel[|panel| - 1];
      assert panel == front + [last];
      ReleaseAllExact(b, id, front, slash, winning);
      var mid := ReleaseAll(b, id, front, slash, winning);
      if mid.Some? {
        V.ReleaseAllConserves(b, id, front, slash, winning);
        ReleasedExtends(b, mid.value, id, front, last, slash, winning);
      }
    }
  }

  // ------------------------------------------------------------------ tallies

  predicate OpenPanel(b: Book, id: u64) {
    id in b.commitments && b.commitments[id].status == Status.Disputed && b.commitments[id].attestors != []
  }

  /** The distinct members recorded on a dispute for one outcome. */
  function RecordsFor(records: VoteRecords, id: u64, x: Status): set<(u64, Address)> {
    set k | k in records && k.0 == id && records[k] == x
  }

  ghost predicate RecordsSound(s: State) {
    forall k :: k in s.ballots.records ==>
                  && OpenPanel(s.book, k.0) && k.1 in s.book.commitments[k.0].attestors && IsFinal(s.ballots.records[k])
  }

  ghost predicate TallyExact(s: State, id: u64) {
    forall x: Status :: IsFinal(x) ==>
      && VotesFor(TallyOf(s, id), x) == |RecordsFor(s.ballots.records, id, x)|
      && (OpenPanel(s.book, id) ==> VotesFor(TallyOf(s, id), x) < VoteThreshold(s.book.commitments[id].counters))
  }

  ghost predicate PanelsSound(s: State) {
    && RecordsSound(s)
    && (forall id: u64 :: TallyExact(s, id))
    && (forall id :: id in s.ballots.tallies ==> OpenPanel(s.book, id))
  }

  /** Calls that leave the open panels and their ballots alone. */
  lemma FramePanels(s: State, t: State)
    requires PanelsSound(s) && M.MilestonesSound(t.book)
    requires t.ballots.records == s.ballots.records && t.ballots.tallies == s.ballots.tallies
    requires forall id :: OpenPanel(s.book, id) ==>
               id in t.book.commitments && t.book.commitments[id] == s.book.commitments[id]
    ensures PanelsSound(t)
  {
    forall id: u64 ensures TallyExact(t, id) {
      assert TallyExact(s, id);
      if id in t.book.commitments { assert M.Sound(t.book, id); }
    }
  }

  lemma AttestKeepsOpen(s: State, env: Env, caller: Address, other: u64, index: Option<u32>, outcome: Status, id: u64)
    requires OpenPanel(s.book, id) && Attest(s, env, caller, other, index, outcome).Ok?
    ensures var t := Attest(s, env, caller, other, index, outcome).value;
            id in t.book.commitments && t.book.commitments[id] == s.book.commitments[id]
  {
  }

  lemma CreateKeepsOpen(s: State, env: Env, call: Call, id: u64)
    requires M.MilestonesSound(s.book) && OpenPanel(s.book, id)
    requires (call.CallCreate? || call.CallCreateBatch?) && Invoke(s, env, call).Ok?
    ensures var t := Invoke(s, env, call).value;
            id in t.book.commitments && t.book.commitments[id] == s.book.commitments[id]
  {
    assert M.Sound(s.book, id);
    if call.CallCreateBatch? { V.CreateAllKeepsOld(s, env, call.batch, id); }
  }

  lemma DisputeKeepsOpen(s: State, env: Env, call: Call, id: u64)
    requires OpenPanel(s.book, id) && (call.CallDispute? || call.CallResolve?) && Invoke(s, env, call).Ok?
    ensures var t := Invoke(s, env, call).value;
            id in t.book.commitments && t.book.commitments[id] == s.book.commitments[id]
  {
    if call.CallDispute? {
      DisputeEffect(s, env, call.caller, call.id);
    } else {
      ResolveEffect(s, env, call.caller, call.id, call.outcome);
    }
  }

  /** Only a vote or a timeout can touch an open panel dispute. */
  lemma OpenPanelsKept(s: State, env: Env, call: Call, id: u64)
    requires M.MilestonesSound(s.book) && OpenPanel(s.book, id) && !call.CallVote? && !call.CallTimeout?
    ensures var t := Step(s, env, call);
            && id in t.book.commitments && t.book.commitments[id] == s.book.commitments[id]
  {
    if !TouchesBook(call) {
      OtherCallsKeepBook(s, env, call);
    } else if Invoke(s, env, call).Ok? {
      if call.CallAttest? {
        AttestKeepsOpen(s, env, call.caller, call.id, call.index, call.outcome, id);
      } else if call.CallCreate? || call.CallCreateBatch? {
        CreateKeepsOpen(s, env, call, id);
      } else {
        DisputeKeepsOpen(s, env, call, id);
      }
    }
  }

  lemma {:induction false} CreateAllKeepsBallots(s: State, env: Env, ps: seq<CommitmentParams>)
    ensures CreateAll(s, env, ps).Ok? ==> CreateAll(s, env, ps).value.ballots == s.ballots
  {
    if ps != [] { CreateAllKeepsBallots(s, env, ps[..|ps| - 1]); }
  }

  lemma PanelBallotsKept(s: State, env: Env, call: Call)
    requires !call.CallVote? && !call.CallTimeout?
    ensures var t := Step(s, env, call);
            t.ballots.records == s.ballots.records && t.ballots.tallies == s.ballots.tallies
  {
    if !TouchesBook(call) {
      OtherCallsKeepBook(s, env, call);
    } else if Invoke(s, env, call).Ok? {
      if call.CallCreateBatch? {
        CreateAllKeepsBallots(s, env, call.batch);
      } else if call.CallDispute? {
        DisputeEffect(s, env, call.caller, call.id);
      } else if call.CallResolve? {
        ResolveEffect(s, env, call.caller, call.id, call.outcome);
      }
    }
  }

  // -------------------------------------------------------------- casting votes

  lemma RecordsForAfter(records: VoteRecords, id: u64, a: Address, outcome: Status, j: u64, x: Status)
    requires (id, a) !in records
    ensures |RecordsFor(records[(id, a) := outcome], j, x)|
            == |RecordsFor(records, j, x)| + (if j == id && x == outcome then 1 else 0)
  {
    if j == id && x == outcome {
      assert RecordsFor(records[(id, a) := outcome], j, x) == RecordsFor(records, j, x) + {(id, a)};
    } else {
      assert RecordsFor(records[(id, a) := outcome], j, x) == RecordsFor(records, j, x);
    }
  }

  lemma WithVoteCounts(s: State, attestor: Address, id: u64, outcome: Status, j: u64, x: Status)
    requires IsFinal(outcome) && IsFinal(x) && VotesFor(TallyOf(s, id), outcome) < U32_MAX
    ensures VotesFor(TallyOf(WithVote(s, attestor, id, outcome), j), x)
            == VotesFor(TallyOf(s, j), x) + (if j == id && x == outcome then 1 else 0)
  {
  }

  lemma VoteAccepted(s: State, env: Env, attestor: Address, id: u64, outcome: Status)
    requires VoteError(s, env, attestor, id, outcome).None?
    ensures id in s.book.commitments && s.book.commitments[id].status == Status.Disputed && IsFinal(outcome)
    ensures VotesFor(TallyOf(s, id), outcome) < U32_MAX && (id, attestor) !in s.ballots.records
  {
  }

  /** One more vote counts one more record. */
  lemma WithVoteTally(s: State, env: Env, attestor: Address, id: u64, outcome: Status, j: u64, x: Status)
    requires TallyExact(s, j) && VoteError(s, env, attestor, id, outcome).None? && IsFinal(x)
    ensures var t := WithVote(s, attestor, id, outcome);
            VotesFor(TallyOf(t, j), x) == |RecordsFor(t.ballots.records, j, x)|
            == VotesFor(TallyOf(s, j), x) + (if j == id && x == outcome then 1 else 0)
  {
    VoteAccepted(s, env, attestor, id, outcome);
    WithVoteCounts(s, attestor, id, outcome, j, x);
    RecordsForAfter(s.ballots.records, id, attestor, outcome, j, x);
  }

  lemma VoteKeepsOpen(s: State, env: Env, attestor: Address, id: u64, outcome: Status)
    requires PanelsSound(s) && M.MilestonesSound(s.book) && VoteError(s, env, attestor, id, outcome).None?
    requires VotesFor(TallyOf(WithVote(s, attestor, id, outcome), id), outcome)
             < VoteThreshold(s.book.commitments[id].counters)
    ensures PanelsSound(WithVote(s, attestor, id, outcome))
  {
    var t := WithVote(s, attestor, id, outcome);
    assert M.Sound(s.book, id);
    forall j: u64 ensures TallyExact(t, j) {
      assert TallyExact(s, j);
      forall x: Status | IsFinal(x)
        ensures VotesFor(TallyOf(t, j), x) == |RecordsFor(t.ballots.records, j, x)|
                && (OpenPanel(t.book, j) ==>
                      VotesFor(TallyOf(t, j), x) < VoteThreshold(t.book.commitments[j].counters)) {
        WithVoteTally(s, env, attestor, id, outcome, j, x);
      }
    }
  }

  /** Every record on `id` belongs to its panel, so clearing the panel leaves none. */
  lemma ClearedRecordsFor(before: VoteRecords, after: VoteRecords, id: u64, panel: seq<Address>, j: u64, x: Status)
    requires Cleared(before, after, id, panel) && forall k :: k in before && k.0 == id ==> k.1 in panel
    ensures RecordsFor(after, j, x) == if j == id then {} else RecordsFor(before, j, x)
  {
  }

  lemma ConcludedRecords(s: State, env: Env, id: u64, slash: bool, outcome: Status)
    requires RecordsSound(s) && V.StakesPositive(s.vault.stakes) && OpenPanel(s.book, id) && IsFinal(outcome)
    requires Concluded(s, env, id, slash, outcome).Ok?
    ensures var t := Concluded(s, env, id, slash, outcome).value;
            && Cleared(s.ballots.records, t.ballots.records, id, s.book.commitments[id].attestors)
            && t.book == Moved(s.book, id, outcome) && t.ballots.tallies == s.ballots.tallies - {id}
  {
    ConcludedEffect(s, env, id, slash, outcome);
    ReleaseAllExact(Bench(s.vault.stakes, s.ballots.records, s.slashed), id, s.book.commitments[id].attestors,
                    slash, outcome);
  }

  lemma ConcludedTally(s: State, t: State, id: u64, outcome: Status, j: u64)
    requires RecordsSound(s) && OpenPanel(s.book, id) && IsFinal(outcome) && (j != id ==> TallyExact(s, j))
    requires Cleared(s.ballots.records, t.ballots.records, id, s.book.commitments[id].attestors)
    requires t.book == Moved(s.book, id, outcome) && t.ballots.tallies == s.ballots.tallies - {id}
    ensures TallyExact(t, j)
  {
    forall x: Status
      ensures RecordsFor(t.ballots.records, j, x) == if j == id then {} else RecordsFor(s.ballots.records, j, x) {
      ClearedRecordsFor(s.ballots.records, t.ballots.records, id, s.book.commitments[id].attestors, j, x);
    }
    assert TallyOf(t, j) == if j == id then NO_VOTES else TallyOf(s, j);
    assert OpenPanel(t.book, j) ==> j != id && OpenPanel(s.book, j);
  }

  lemma ConcludedKeepsPanels(s: State, env: Env, id: u64, slash: bool, outcome: Status)
    requires RecordsSound(s) && V.StakesPositive(s.vault.stakes) && OpenPanel(s.book, id) && IsFinal(outcome)
    requires forall j: u64 :: j != id ==> TallyExact(s, j)
    requires forall j :: j in s.ballots.tallies ==> OpenPanel(s.book, j)
    requires Concluded(s, env, id, slash, outcome).Ok?
    ensures PanelsSound(Concluded(s, env, id, slash, outcome).value)
  {
    var t := Concluded(s, env, id, slash, outcome).value;
    ConcludedRecords(s, env, id, slash, outcome);
    forall j: u64 ensures TallyExact(t, j) {
      ConcludedTally(s, t, id, outcome, j);
    }
  }

  lemma CastVoteKeepsPanels(s: State, env: Env, attestor: Address, id: u64, outcome: Status)
    requires PanelsSound(s) && M.MilestonesSound(s.book) && V.StakesPositive(s.vault.stakes)
    requires CastVote(s, env, attestor, id, outcome).Ok?
    ensures PanelsSound(CastVote(s, env, attestor, id, outcome).value)
  {
    var voted := WithVote(s, attestor, id, outcome);
    assert M.Sound(s.book, id);
    if VotesFor(TallyOf(voted, id), outcome) < VoteThreshold(s.book.commitments[id].counters) {
      VoteKeepsOpen(s, env, attestor, id, outcome);
    } else {
      forall j: u64 | j != id ensures TallyExact(voted, j) {
        assert TallyExact(s, j);
        OtherTallies(s, attestor, id, outcome, j);
      }
      ConcludedKeepsPanels(voted, env, id, true, outcome);
    }
  }

  lemma OtherTallies(s: State, attestor: Address, id: u64, outcome: Status, j: u64)
    requires j != id && TallyExact(s, j)
    ensures TallyExact(WithVote(s, attestor, id, outcome), j)
  {
    forall x: Status
      ensures RecordsFor(s.ballots.records[(id, attestor) := outcome], j, x) == RecordsFor(s.ballots.records, j, x) {}
  }

  lemma StepKeepsPanels(s: State, env: Env, call: Call)
    requires PanelsSound(s) && M.MilestonesSound(s.book) && V.VaultSound(s)
    ensures PanelsSound(Step(s, env, call))
  {
    if call.CallVote? {
      if Invoke(s, env, call).Ok? { CastVoteKeepsPanels(s, env, call.attestor, call.id, call.outcome); }
    } else if call.CallTimeout? {
      if Invoke(s, env, call).Ok? {
        assert M.Sound(s.book, call.id);
        ConcludedKeepsPanels(s, env, call.id, false, Status.Breached);
      }
    } else {
      var t := Step(s, env, call);
      M.StepKeepsMilestones(s, env, call);
      PanelBallotsKept(s, env, call);
      forall id | OpenPanel(s.book, id)
        ensures id in t.book.commitments && t.book.commitments[id] == s.book.commitments[id] {
        OpenPanelsKept(s, env, call, id);
      }
      FramePanels(s, t);
    }
  }

  ghost predicate Sound(s: State) {
    PanelsSound(s) && M.MilestonesSound(s.book) && V.VaultSound(s)
  }

  /**
   In every reachable state each tally lane is the number of distinct panel members recorded
   for that outcome, below the threshold while the dispute is open; other commitments have no
   vote record and no tally.
   */
  lemma {:induction false} PanelsSoundInEveryRun(script: Script)
    ensures Sound(Run(script))
  {
    if script != [] {
      var front, last := script[..|script| - 1], script[|script| - 1];
      PanelsSoundInEveryRun(front);
      StepKeepsPanels(Run(front), last.0, last.1);
      M.StepKeepsMilestones(Run(front), last.0, last.1);
      V.StepKeepsVault(Run(front), last.0, last.1);
    } else {
      V.GenesisIsBalanced();
    }
  }

  // --------------------------------------------------------------- conclusions

  /**
   A vote resolves the dispute exactly when the distinct members recorded for its outcome
   reach the threshold with it; then the losing members are slashed once each, every member
   is unlocked, and no vote record or tally of the dispute is left.
   */
  lemma VoteResolvesAtThreshold(script: Script, env: Env, attestor: Address, id: u64, outcome: Status)
    requires CastVote(Run(script), env, attestor, id, outcome).Ok?
    ensures var s, t := Run(script), CastVote(Run(script), env, attestor, id, outcome).value;
            && id in s.book.commitments && id in t.book.commitments
            && var c := s.book.commitments[id];
            && (t.book.commitments[id].status == outcome
                <==> |RecordsFor(s.ballots.records, id, outcome)| + 1 >= VoteThreshold(c.counters))
            && (t.book.commitments[id].status == outcome ==>
                  && Released(Bench(s.vault.stakes, s.ballots.records[(id, attestor) := outcome], s.slashed),
                              Bench(t.vault.stakes, t.ballots.records, t.slashed), id, c.attestors, true, outcome)
                  && id !in t.ballots.tallies && forall a: Address :: (id, a) !in t.ballots.records)
  {
    var s, t := Run(script), CastVote(Run(script), env, attestor, id, outcome).value;
    PanelsSoundInEveryRun(script);
    WithVoteTally(s, env, attestor, id, outcome, id, outcome);
    CastVoteKeepsPanels(s, env, attestor, id, outcome);
    assert TallyExact(s, id);
    var voted := WithVote(s, attestor, id, outcome);
    if VotesFor(TallyOf(voted, id), outcome) >= VoteThreshold(s.book.commitments[id].counters) {
      ConcludedEffect(voted, env, id, true, outcome);
      ReleaseAllExact(Bench(voted.vault.stakes, voted.ballots.records, voted.slashed), id,
                      s.book.commitments[id].attestors, true, outcome);
      assert !OpenPanel(t.book, id);
    }
  }

  /** A week later, or the end of time. */
  function WeekAfter(attestedAt: u64): u64 {
    if attestedAt + 604_800 >= 0x1_0000_0000_0000_0000 then 0xFFFF_FFFF_FFFF_FFFF else attestedAt + 604_800
  }

  /**
   While a panel dispute is open, at any moment either its voting window is open and the
   timeout is refused, or the window has closed, every vote is refused and the timeout
   succeeds for anyone, settling on a breach without slashing. The window is a week, in
   seconds, from the attestation that was disputed.
   */
  lemma VotingXorTimeout(script: Script, env: Env, attestor: Address, id: u64, outcome: Status)
    requires OpenPanel(Run(script).book, id)
    ensures var s := Run(script); var c := s.book.commitments[id];
            && c.attestedAt.Some?
            && (CheckTimeout(s, env, id).Ok? <==> env.now > WeekAfter(c.attestedAt.value))
            && (env.now > WeekAfter(c.attestedAt.value) ==> CastVote(s, env, attestor, id, outcome).Err?)
            && (CheckTimeout(s, env, id).Ok? ==>
                  var t := CheckTimeout(s, env, id).value;
                  && id in t.book.commitments && t.book.commitments[id].status == Status.Breached
                  && t.slashed == s.slashed && V.Amounts(t.vault.stakes) == V.Amounts(s.vault.stakes))
  {
    var s := Run(script);
    PanelsSoundInEveryRun(script);
    assert M.Sound(s.book, id);
    TimeoutSettles(s, env, id);
  }

  /** A panel's release without slashing cannot fail, so a timeout only waits for the window to close. */
  lemma TimeoutSettles(s: State, env: Env, id: u64)
    requires OpenPanel(s.book, id) && V.StakesPositive(s.vault.stakes) && M.PanelShaped(s.book.commitments[id])
    ensures CheckTimeout(s, env, id).Ok? <==> env.now > VoteDeadline(s.book.commitments[id])
    ensures CheckTimeout(s, env, id).Ok? ==>
              var t := CheckTimeout(s, env, id).value;
              && id in t.book.commitments && t.book.commitments[id].status == Status.Breached
              && t.slashed == s.slashed && V.Amounts(t.vault.stakes) == V.Amounts(s.vault.stakes)
  {
    var b := Bench(s.vault.stakes, s.ballots.records, s.slashed);
    ReleaseAllExact(b, id, s.book.commitments[id].attestors, false, Status.Breached);
    UnslashedKeepsAmounts(b, id, s.book.commitments[id].attestors, Status.Breached);
    if env.now > VoteDeadline(s.book.commitments[id]) {
      ConcludedEffect(s, env, id, false, Status.Breached);
    }
  }

  lemma {:induction false} UnslashedKeepsAmounts(b: Bench, id: u64, panel: seq<Address>, winning: Status)
    requires V.StakesPositive(b.stakes) && ReleaseAll(b, id, panel, false, winning).Some?
    ensures var r := ReleaseAll(b, id, panel, false, winning).value;
            r.slashed == b.slashed && V.Amounts(r.stakes) == V.Amounts(b.stakes) && V.StakesPositive(r.stakes)
  {
    if panel != [] {
      var front, last := panel[..|panel| - 1], panel[|panel| - 1];
      UnslashedKeepsAmounts(b, id, front, winning);
      V.SetLockedKeepsAmounts(ReleaseAll(b, id, front, false, winning).value.stakes, last, false);
    }
  }
}
