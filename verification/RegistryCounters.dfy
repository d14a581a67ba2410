/**
 The two derived aggregates of the registry agree with the commitments in every run:
 reputation counters are exact, and no outcome weighs more than its counter.
 */
module RegistryCounters {
  import opened Wrappers
  import opened Integers
  import opened TrustScores
  import opened Commitments
  import opened TrustStores
  import opened Registry
  import opened RegistryEffects
  import R = Reputations
  import M = RegistryMilestones

  type Ledger = map<u64, Commitment>

  predicate InLane(c: Commitment, x: Lane) {
    IsFinal(c.status) && LaneOf(c.status) == x
  }

  function IssuedBy(cs: Ledger, a: Address): set<u64> {
    set id | id in cs && cs[id].issuer == a
  }

  /** `a`'s commitments whose outcome currently is `x`. */
  function Outcomes(cs: Ledger, a: Address, x: Lane): set<u64> {
    set id | id in cs && cs[id].issuer == a && InLane(cs[id], x)
  }

  function Counter(s: State, a: Address, x: Lane): u32 {
    R.CounterOf(R.GetReputation(s.reputation, a), x)
  }

  ghost predicate ExactFor(s: State, a: Address, x: Lane) {
    |IssuedBy(s.book.commitments, a)| <= U32_MAX ==>
      && Counter(s, a, x) == |Outcomes(s.book.commitments, a, x)|
      && Weight(RowOf(s.trust, a), x) <= SCALE * Counter(s, a, x)
      && R.DirectExact(s.reputation, a)
  }

  ghost predicate CountersExact(s: State) {
    R.OneRowEach(s.reputation) && forall a: Address, x: Lane :: ExactFor(s, a, x)
  }

  lemma SizeUpToOne(before: set<u64>, after: set<u64>, id: u64)
    requires after - {id} == before - {id}
    ensures |after| == |before| + (if id in after then 1 else 0) - (if id in before then 1 else 0)
  {
    assert |before| == |before - {id}| + (if id in before then 1 else 0);
    assert |after| == |after - {id}| + (if id in after then 1 else 0);
  }

  lemma OutcomesUpToOne(cs: Ledger, id: u64, d: Commitment, a: Address, x: Lane)
    requires id in cs && d.issuer == cs[id].issuer
    ensures Outcomes(cs[id := d], a, x) - {id} == Outcomes(cs, a, x) - {id}
    ensures id in Outcomes(cs[id := d], a, x) <==> a == d.issuer && InLane(d, x)
    ensures id in Outcomes(cs, a, x) <==> a == d.issuer && InLane(cs[id], x)
  {
  }

  lemma IssuedByAfter(cs: Ledger, id: u64, d: Commitment, a: Address)
    requires id in cs && d.issuer == cs[id].issuer
    ensures IssuedBy(cs[id := d], a) == IssuedBy(cs, a)
  {
  }

  /** Changing one commitment's status moves at most that commitment between lanes. */
  lemma OutcomesAfter(cs: Ledger, id: u64, d: Commitment, a: Address, x: Lane)
    requires id in cs && d.issuer == cs[id].issuer
    ensures IssuedBy(cs[id := d], a) == IssuedBy(cs, a)
    ensures |Outcomes(cs[id := d], a, x)|
            == |Outcomes(cs, a, x)|
               + (if a == d.issuer && InLane(d, x) then 1 else 0)
               - (if a == d.issuer && InLane(cs[id], x) then 1 else 0)
  {
    IssuedByAfter(cs, id, d, a);
    OutcomesUpToOne(cs, id, d, a, x);
    SizeUpToOne(Outcomes(cs, a, x), Outcomes(cs[id := d], a, x), id);
  }

  /** A commitment that is not in the lane leaves room below the number issued. */
  lemma OutcomesBelowIssued(cs: Ledger, id: u64, x: Lane)
    requires id in cs && !InLane(cs[id], x)
    ensures |Outcomes(cs, cs[id].issuer, x)| < |IssuedBy(cs, cs[id].issuer)|
  {
    var a := cs[id].issuer;
    SubsetIsSmaller(Outcomes(cs, a, x), IssuedBy(cs, a) - {id});
  }

  lemma {:induction false} SubsetIsSmaller(a: set<u64>, b: set<u64>)
    requires a <= b
    ensures |a| <= |b|
    decreases |a|
  {
    if a != {} {
      var k :| k in a;
      SubsetIsSmaller(a - {k}, b - {k});
    }
  }

  /** `id` moves between an unscored status and the scored outcome, and its issuer is re-scored. */
  ghost predicate Rescored(s: State, t: State, env: Env, id: u64, outcome: Status, increment: bool) {
    && id in s.book.commitments && id in t.book.commitments && IsFinal(outcome)
    && var c, d := s.book.commitments[id], t.book.commitments[id];
    && t.book.commitments == s.book.commitments[id := d] && d.issuer == c.issuer
    && (if increment then !IsFinal(c.status) && d.status == outcome else c.status == outcome && !IsFinal(d.status))
    && t.reputation == R.UpdatedRows(s.reputation, c.issuer, outcome, increment, env.now)
    && t.trust == s.trust[c.issuer := Recorded(RowOf(s.trust, c.issuer), outcome, increment, env.ledger)]
  }

  /** The issuer's scored counter moves by exactly one, with the outcomes; every other stays. */
  lemma RescoredCounter(s: State, t: State, env: Env, id: u64, outcome: Status, increment: bool, a: Address, x: Lane)
    requires R.OneRowEach(s.reputation) && ExactFor(s, a, x) && Rescored(s, t, env, id, outcome, increment)
    requires |IssuedBy(s.book.commitments, a)| <= U32_MAX
    ensures var step := if a == s.book.commitments[id].issuer && x == LaneOf(outcome)
                        then if increment then 1 else -1
                        else 0;
            && Counter(t, a, x) == Counter(s, a, x) + step
            && |Outcomes(t.book.commitments, a, x)| == |Outcomes(s.book.commitments, a, x)| + step
  {
    var c, d := s.book.commitments[id], t.book.commitments[id];
    OutcomesAfter(s.book.commitments, id, d, a, x);
    R.UpdatedRowsReads(s.reputation, c.issuer, outcome, increment, env.now, a);
    if increment { OutcomesBelowIssued(s.book.commitments, id, LaneOf(outcome)); }
  }

  lemma RescoredDirect(s: State, t: State, env: Env, id: u64, outcome: Status, increment: bool, a: Address)
    requires R.OneRowEach(s.reputation) && Rescored(s, t, env, id, outcome, increment)
    requires ExactFor(s, a, LaneOf(outcome)) && |IssuedBy(s.book.commitments, a)| <= U32_MAX
    ensures R.DirectExact(t.reputation, a)
  {
    RescoredCounter(s, t, env, id, outcome, increment, a, LaneOf(outcome));
    R.UpdateKeepsDirectExact(s.reputation, s.book.commitments[id].issuer, outcome, increment, env.now, a);
  }

  lemma RescoredExactFor(s: State, t: State, env: Env, id: u64, outcome: Status, increment: bool, a: Address, x: Lane)
    requires CountersExact(s) && Rescored(s, t, env, id, outcome, increment)
    ensures ExactFor(t, a, x)
  {
    var c := s.book.commitments[id];
    OutcomesAfter(s.book.commitments, id, t.book.commitments[id], a, x);
    if |IssuedBy(s.book.commitments, a)| <= U32_MAX {
      assert ExactFor(s, a, x) && ExactFor(s, a, LaneOf(outcome));
      RescoredCounter(s, t, env, id, outcome, increment, a, x);
      RescoredDirect(s, t, env, id, outcome, increment, a);
      if a == c.issuer { UpdateBoundsWeight(RowOf(s.trust, a), LaneOf(outcome), increment, env.ledger, x); }
    }
  }

  lemma RescoredKeepsExact(s: State, t: State, env: Env, id: u64, outcome: Status, increment: bool)
    requires CountersExact(s) && Rescored(s, t, env, id, outcome, increment)
    ensures CountersExact(t)
  {
    forall a: Address, x: Lane ensures ExactFor(t, a, x) {
      RescoredExactFor(s, t, env, id, outcome, increment, a, x);
    }
    R.UpdatedRowsReads(s.reputation, s.book.commitments[id].issuer, outcome, increment, env.now, Address(0));
  }

  /** Commitments that keep their lane, or join none, leave the aggregates exact. */
  lemma UnscoredKeepsExact(s: State, t: State)
    requires CountersExact(s) && t.trust == s.trust && t.reputation == s.reputation
    requires forall a :: |IssuedBy(s.book.commitments, a)| <= |IssuedBy(t.book.commitments, a)|
    requires forall a, x :: |Outcomes(t.book.commitments, a, x)| == |Outcomes(s.book.commitments, a, x)|
    ensures CountersExact(t)
  {
    forall a: Address, x: Lane ensures ExactFor(t, a, x) {
      assert ExactFor(s, a, x);
    }
  }

  lemma CreateKeepsExact(s: State, env: Env, p: CommitmentParams, count: u32)
    requires CountersExact(s) && M.MilestonesSound(s.book) && Create(s, env, p, count).Ok?
    ensures CountersExact(Create(s, env, p, count).value)
  {
    var t := Create(s, env, p, count).value;
    var cs, ds := s.book.commitments, t.book.commitments;
    assert s.book.nextId in cs ==> M.Sound(s.book, s.book.nextId);
    forall a: Address ensures |IssuedBy(cs, a)| <= |IssuedBy(ds, a)| {
      SubsetIsSmaller(IssuedBy(cs, a), IssuedBy(ds, a));
    }
    forall a: Address, x: Lane ensures Outcomes(ds, a, x) == Outcomes(cs, a, x) {}
    UnscoredKeepsExact(s, t);
  }

  lemma {:induction false} CreateAllKeepsExact(s: State, env: Env, ps: seq<CommitmentParams>)
    requires CountersExact(s) && M.MilestonesSound(s.book) && CreateAll(s, env, ps).Ok?
    ensures CountersExact(CreateAll(s, env, ps).value)
  {
    if ps != [] {
      CreateAllKeepsExact(s, env, ps[..|ps| - 1]);
      M.CreateAllKeeps(s, env, ps[..|ps| - 1]);
      CreateKeepsExact(CreateAll(s, env, ps[..|ps| - 1]).value, env, ps[|ps| - 1], 1);
    }
  }

  lemma AttestKeepsExact(s: State, env: Env, caller: Address, id: u64, index: Option<u32>, outcome: Status)
    requires CountersExact(s) && Attest(s, env, caller, id, index, outcome).Ok?
    ensures CountersExact(Attest(s, env, caller, id, index, outcome).value)
  {
    var t := Attest(s, env, caller, id, index, outcome).value;
    var d := t.book.commitments[id];
    if d.status == Status.Pending {
      forall a: Address ensures |IssuedBy(s.book.commitments, a)| <= |IssuedBy(t.book.commitments, a)| {
        OutcomesAfter(s.book.commitments, id, d, a, Lane.Late);
      }
      forall a: Address, x: Lane
        ensures |Outcomes(t.book.commitments, a, x)| == |Outcomes(s.book.commitments, a, x)| {
        OutcomesAfter(s.book.commitments, id, d, a, x);
      }
      UnscoredKeepsExact(s, t);
    } else {
      RescoredKeepsExact(s, t, env, id, d.status, true);
    }
  }

  lemma SettlesKeepsExact(s: State, t: State, env: Env, id: u64, outcome: Status)
    requires CountersExact(s) && Settles(s, t, env, id, outcome)
    ensures CountersExact(t)
  {
    RescoredKeepsExact(s, t, env, id, outcome, true);
  }

  lemma BookUnchangedKeepsExact(s: State, t: State)
    requires CountersExact(s) && BookUnchanged(s, t)
    ensures CountersExact(t)
  {
    UnscoredKeepsExact(s, t);
  }

  lemma DisputeKeepsExact(s: State, env: Env, caller: Address, id: u64)
    requires CountersExact(s) && Dispute(s, env, caller, id).Ok?
    ensures CountersExact(Dispute(s, env, caller, id).value)
  {
    DisputeEffect(s, env, caller, id);
    RescoredKeepsExact(s, Dispute(s, env, caller, id).value, env, id, s.book.commitments[id].status, false);
  }

  lemma SettlementKeepsExact(s: State, env: Env, call: Call)
    requires CountersExact(s) && Invoke(s, env, call).Ok? && (call.CallResolve? || call.CallVote? || call.CallTimeout?)
    ensures CountersExact(Invoke(s, env, call).value)
  {
    var t := Invoke(s, env, call).value;
    if call.CallResolve? {
      ResolveEffect(s, env, call.caller, call.id, call.outcome);
      if BookUnchanged(s, t) { BookUnchangedKeepsExact(s, t); }
      else { SettlesKeepsExact(s, t, env, call.id, call.outcome); }
    } else if call.CallVote? {
      CastVoteEffect(s, env, call.attestor, call.id, call.outcome);
      if BookUnchanged(s, t) { BookUnchangedKeepsExact(s, t); }
      else { SettlesKeepsExact(s, t, env, call.id, call.outcome); }
    } else {
      TimeoutEffect(s, env, call.id);
      SettlesKeepsExact(s, t, env, call.id, Status.Breached);
    }
  }

  /** Upgrading and migrating move rows, not counters. */
  lemma MigrationKeepsExact(s: State, t: State, env: Env, addresses: seq<Address>)
    requires CountersExact(s) && s.reputation.schema == 2 && t.book == s.book && t.trust == s.trust
    requires t.reputation == R.MigratedAll(s.reputation, addresses, env.now)
    ensures CountersExact(t)
  {
    R.MigratedAllKeepsReads(s.reputation, addresses, env.now, Address(0));
    forall a: Address, x: Lane ensures ExactFor(t, a, x) {
      assert ExactFor(s, a, x);
      R.MigratedAllKeepsReads(s.reputation, addresses, env.now, a);
      if |IssuedBy(s.book.commitments, a)| <= U32_MAX {
        R.MigrationKeepsDirectExact(s.reputation, addresses, env.now, a);
      }
    }
  }

  lemma UpgradeKeepsExact(s: State, target: u32)
    requires CountersExact(s) && UpgradeSchema(s, target).Ok?
    ensures CountersExact(UpgradeSchema(s, target).value)
  {
    var t := UpgradeSchema(s, target).value;
    forall a: Address, x: Lane ensures ExactFor(t, a, x) {
      assert ExactFor(s, a, x);
    }
  }

  lemma OtherCallsKeepExact(s: State, env: Env, call: Call)
    requires CountersExact(s) && !TouchesBook(call)
    ensures CountersExact(Step(s, env, call))
  {
    var t := Step(s, env, call);
    OtherCallsKeepBook(s, env, call);
    if call.CallUpgrade? && Invoke(s, env, call).Ok? {
      UpgradeKeepsExact(s, call.target);
    } else if call.CallMigrate? && Invoke(s, env, call).Ok? {
      MigrationKeepsExact(s, t, env, call.addresses);
    } else {
      BookUnchangedKeepsExact(s, t);
    }
  }

  lemma StepKeepsExact(s: State, env: Env, call: Call)
    requires CountersExact(s) && M.MilestonesSound(s.book)
    ensures CountersExact(Step(s, env, call))
  {
    if !TouchesBook(call) {
      OtherCallsKeepExact(s, env, call);
    } else if Invoke(s, env, call).Ok? {
      if call.CallCreate? {
        CreateKeepsExact(s, env, call.params, call.milestoneCount);
      } else if call.CallCreateBatch? {
        CreateAllKeepsExact(s, env, call.batch);
      } else if call.CallAttest? {
        AttestKeepsExact(s, env, call.caller, call.id, call.index, call.outcome);
      } else if call.CallDispute? {
        DisputeKeepsExact(s, env, call.caller, call.id);
      } else {
        SettlementKeepsExact(s, env, call);
      }
    }
  }

  lemma {:induction false} CountersExactInEveryRun(script: Script)
    ensures CountersExact(Run(script)) && M.MilestonesSound(Run(script).book)
  {
    if script == [] {
      forall a: Address, x: Lane ensures Outcomes(GENESIS.book.commitments, a, x) == {} {}
    } else {
      var front, last := script[..|script| - 1], script[|script| - 1];
      CountersExactInEveryRun(front);
      StepKeepsExact(Run(front), last.0, last.1);
      M.StepKeepsMilestones(Run(front), last.0, last.1);
    }
  }

  /**
   In every reachable state, for every issuer of fewer than 2^32 commitments, each
   reputation counter is the number of its commitments currently in that status, its V2 row
   counts their sum as direct, and no outcome's decayed value, at any later ledger, exceeds
   the scale times its counter.
   */
  lemma AggregatesAgree(script: Script, a: Address, x: Lane, steps: nat)
    requires |IssuedBy(Run(script).book.commitments, a)| < 0x1_0000_0000
    ensures var s := Run(script);
            && Counter(s, a, x) == |Outcomes(s.book.commitments, a, x)|
            && (a in s.reputation.v2 ==> R.DirectIsSum(s.reputation.v2[a]))
            && (a in s.trust ==> Effective(s.trust[a], x, steps) <= SCALE * Counter(s, a, x))
  {
    var s := Run(script);
    CountersExactInEveryRun(script);
    assert ExactFor(s, a, x);
    if a in s.trust {
      EffectiveNonIncreasing(Count(s.trust[a].aged, x), Count(s.trust[a].current, x), 0, steps);
    }
  }

  /** The commitments `a` issued that have a status. */
  function IssuedWith(cs: Ledger, a: Address, status: Status): set<u64> {
    set id | id in cs && cs[id].issuer == a && cs[id].status == status
  }

  /**
   Read off field by field: the public counters of an issuer are its fulfilled, late and
   breached commitments, and each lane of its trust history weighs no more than its own.
   */
  lemma CountsAreStatuses(script: Script, a: Address)
    requires |IssuedBy(Run(script).book.commitments, a)| < 0x1_0000_0000
    ensures var s := Run(script);
            var cs, r := s.book.commitments, R.GetReputation(s.reputation, a);
            && r.fulfilledCount == |IssuedWith(cs, a, Status.Fulfilled)|
            && r.lateCount == |IssuedWith(cs, a, Status.Late)|
            && r.breachedCount == |IssuedWith(cs, a, Status.Breached)|
            && (a in s.trust ==>
                  var h := s.trust[a];
                  && h.aged.fulfilled + h.current.fulfilled * 0x1_0000_0000 <= 0x1_0000_0000 * r.fulfilledCount
                  && h.aged.late + h.current.late * 0x1_0000_0000 <= 0x1_0000_0000 * r.lateCount
                  && h.aged.breached + h.current.breached * 0x1_0000_0000 <= 0x1_0000_0000 * r.breachedCount)
  {
    var s := Run(script);
    CountersExactInEveryRun(script);
    LaneIsStatus(s, a, Lane.Fulfilled, Status.Fulfilled);
    LaneIsStatus(s, a, Lane.Late, Status.Late);
    LaneIsStatus(s, a, Lane.Breached, Status.Breached);
  }

  lemma LaneIsStatus(s: State, a: Address, x: Lane, status: Status)
    requires CountersExact(s) && |IssuedBy(s.book.commitments, a)| <= U32_MAX
    requires match x case Fulfilled => status == Status.Fulfilled case Late => status == Status.Late
             case Breached => status == Status.Breached
    ensures Counter(s, a, x) == |IssuedWith(s.book.commitments, a, status)|
    ensures Weight(RowOf(s.trust, a), x) <= 0x1_0000_0000 * Counter(s, a, x)
  {
    assert ExactFor(s, a, x);
    assert Outcomes(s.book.commitments, a, x) == IssuedWith(s.book.commitments, a, status);
  }

  // ------------------------------------------------ the trust history follows

  /** No commitment changes lanes and no history is written. */
  ghost predicate Unscored(s: State, t: State) {
    && t.trust == s.trust
    && forall a, x :: |Outcomes(t.book.commitments, a, x)| == |Outcomes(s.book.commitments, a, x)|
  }

  lemma AttestScores(s: State, t: State, env: Env, caller: Address, id: u64, index: Option<u32>, outcome: Status)
    requires Attest(s, env, caller, id, index, outcome) == Outcome.Ok(t)
    ensures id in t.book.commitments
    ensures Unscored(s, t) || Rescored(s, t, env, id, t.book.commitments[id].status, true)
  {
    var d := t.book.commitments[id];
    if d.status == Status.Pending {
      forall a: Address, x: Lane
        ensures |Outcomes(t.book.commitments, a, x)| == |Outcomes(s.book.commitments, a, x)| {
        OutcomesAfter(s.book.commitments, id, d, a, x);
      }
    }
  }

  lemma {:induction false} CreateAllScores(s: State, env: Env, ps: seq<CommitmentParams>)
    requires M.MilestonesSound(s.book) && CreateAll(s, env, ps).Ok?
    ensures Unscored(s, CreateAll(s, env, ps).value)
  {
    if ps != [] {
      var front := ps[..|ps| - 1];
      CreateAllScores(s, env, front);
      M.CreateAllKeeps(s, env, front);
      CreateScores(CreateAll(s, env, front).value, env, ps[|ps| - 1], 1);
    }
  }

  lemma CreateScores(s: State, env: Env, p: CommitmentParams, count: u32)
    requires M.MilestonesSound(s.book) && Create(s, env, p, count).Ok?
    ensures Unscored(s, Create(s, env, p, count).value)
  {
    var cs, ds := s.book.commitments, Create(s, env, p, count).value.book.commitments;
    assert s.book.nextId in cs ==> M.Sound(s.book, s.book.nextId);
    forall a: Address, x: Lane ensures Outcomes(ds, a, x) == Outcomes(cs, a, x) {}
  }

  lemma SettlementScores(s: State, t: State, env: Env, call: Call)
    requires (call.CallResolve? || call.CallVote? || call.CallTimeout?) && Invoke(s, env, call) == Outcome.Ok(t)
    ensures Unscored(s, t) || exists outcome :: Rescored(s, t, env, call.id, outcome, true)
  {
    if call.CallResolve? {
      ResolveEffect(s, env, call.caller, call.id, call.outcome);
      assert !BookUnchanged(s, t) ==> Rescored(s, t, env, call.id, call.outcome, true);
    } else if call.CallVote? {
      CastVoteEffect(s, env, call.attestor, call.id, call.outcome);
      assert !BookUnchanged(s, t) ==> Rescored(s, t, env, call.id, call.outcome, true);
    } else {
      TimeoutEffect(s, env, call.id);
      assert Rescored(s, t, env, call.id, Status.Breached, true);
    }
  }

  /** Every call leaves scores and lanes alone, or moves one commitment and scores exactly that. */
  lemma CallScores(s: State, t: State, env: Env, call: Call)
    requires M.MilestonesSound(s.book) && t == Step(s, env, call)
    ensures Unscored(s, t) || exists id, outcome, increment :: Rescored(s, t, env, id, outcome, increment)
  {
    if !TouchesBook(call) {
      OtherCallsKeepBook(s, env, call);
    } else if Invoke(s, env, call).Ok? {
      match call
      case CallCreate(params, milestoneCount) => CreateScores(s, env, params, milestoneCount);
      case CallCreateBatch(batch) => CreateAllScores(s, env, batch);
      case CallAttest(caller, id, index, outcome) => AttestScores(s, t, env, caller, id, index, outcome);
      case CallDispute(caller, id) =>
        DisputeEffect(s, env, caller, id);
        assert Rescored(s, t, env, id, s.book.commitments[id].status, false);
      case CallResolve(_, _, _) => SettlementScores(s, t, env, call);
      case CallVote(_, _, _) => SettlementScores(s, t, env, call);
      case CallTimeout(_) => SettlementScores(s, t, env, call);
    }
  }

  /** What a query sees of a lane moves with the number of commitments in it. */
  ghost predicate Follows(s: State, t: State, ledger: u32, a: Address, x: Lane) {
    var before, after := Seen(RowOf(s.trust, a), x, ledger), Seen(RowOf(t.trust, a), x, ledger);
    var n, m := |Outcomes(s.book.commitments, a, x)|, |Outcomes(t.book.commitments, a, x)|;
    && (m == n ==> after == before)
    && (m != n ==> m == n + 1 || m == n - 1)
    && (m == n + 1 ==> after == before + 0x1_0000_0000)
    && (m == n - 1 ==> after == if before < 0x1_0000_0000 then 0 else before - 0x1_0000_0000)
  }

  lemma RescoredFollows(s: State, t: State, env: Env, id: u64, outcome: Status, increment: bool, a: Address, x: Lane)
    requires Rescored(s, t, env, id, outcome, increment) && Weight(RowOf(s.trust, a), x) <= U64_MAX
    requires a in s.trust ==> s.trust[a].epoch <= Bucket(env.ledger)
    ensures Follows(s, t, env.ledger, a, x)
  {
    var c := s.book.commitments[id];
    OutcomesAfter(s.book.commitments, id, t.book.commitments[id], a, x);
    if a == c.issuer {
      var row := RowOf(s.trust, a);
      UpdateMovesSeen(row, LaneOf(outcome), increment, env.ledger, x);
      SeenWithinWeight(row, x, env.ledger);
    }
  }

  lemma SeenWithinWeight(row: Option<TrustHistory>, x: Lane, ledger: u32)
    ensures Seen(row, x, ledger) <= Weight(row, x)
  {
    if row.Some? {
      var steps := DecaySteps(WrappingSub(Bucket(ledger), row.value.epoch));
      EffectiveNonIncreasing(Count(row.value.aged, x), Count(row.value.current, x), 0, steps);
    }
  }

  /**
   In every run, whatever is called, what the trust score sees of an issuer's lane at that
   ledger moves by exactly one unit with each of its commitments that enters or leaves the
   lane, down to zero at most, and by nothing else. The issuer has fewer than 2^32
   commitments and the ledger sequence does not go back.
   */
  lemma TrustFollowsStatuses(script: Script, env: Env, call: Call, a: Address, x: Lane)
    requires |IssuedBy(Run(script).book.commitments, a)| < 0x1_0000_0000
    requires a in Run(script).trust ==> Run(script).trust[a].epoch <= Bucket(env.ledger)
    ensures Follows(Run(script), Step(Run(script), env, call), env.ledger, a, x)
  {
    var s, t := Run(script), Step(Run(script), env, call);
    CountersExactInEveryRun(script);
    assert ExactFor(s, a, x);
    CallScores(s, t, env, call);
    if !Unscored(s, t) {
      var id, outcome, increment :| Rescored(s, t, env, id, outcome, increment);
      RescoredFollows(s, t, env, id, outcome, increment, a, x);
    }
  }
}
