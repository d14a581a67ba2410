/**
 What every run of the registry keeps about milestones: the packed counters agree with the
 recorded outcomes, and a commitment resolves exactly on a breach or its last milestone.
 */
module RegistryMilestones {
  import opened Wrappers
  import opened Integers
  import opened NumberTheory
  import opened Commitments
  import opened Registry
  import opened RegistryEffects

  type Milestones = map<(u64, u32), Status>

  function OutcomeAt(ms: Milestones, id: u64, k: u32): Option<Status> {
    if (id, k) in ms then Some(ms[(id, k)]) else None
  }

  function LateAmong(ms: Milestones, id: u64, n: u32): nat {
    if n == 0 then 0
    else LateAmong(ms, id, n - 1) + (if OutcomeAt(ms, id, n - 1) == Some(Status.Late) then 1 else 0)
  }

  /** The outcome the recorded milestones add up to. */
  function NaturalOutcome(ms: Milestones, id: u64, n: u32): Status {
    if n > 0 && OutcomeAt(ms, id, n - 1) == Some(Status.Breached) then Status.Breached
    else if LateAmong(ms, id, n) > 0 then Status.Late
    else Status.Fulfilled
  }

  predicate IsFinalOutcome(o: Option<Status>) {
    o.Some? && IsFinal(o.value)
  }

  /** Milestones are recorded in order, each once, and none after a breach. */
  ghost predicate RecordedInOrder(ms: Milestones, id: u64, n: u32) {
    forall k: u32 :: (k < n <==> OutcomeAt(ms, id, k).Some?)
                     && (k < n ==> IsFinalOutcome(OutcomeAt(ms, id, k)))
                     && (k < n && OutcomeAt(ms, id, k) == Some(Status.Breached) ==> k == n - 1)
  }

  /** A breach or the last milestone has been recorded. */
  predicate Complete(ms: Milestones, id: u64, n: u32, count: u32) {
    n == count || (n > 0 && OutcomeAt(ms, id, n - 1) == Some(Status.Breached))
  }

  ghost predicate LanesAgree(c: Commitment, ms: Milestones) {
    var count, n, late := MilestoneCount(c.counters), MilestonesAttested(c.counters), LateMilestones(c.counters);
    && 1 <= count <= MAX_MILESTONES && late <= n <= count
    && RecordedInOrder(ms, c.id, n) && late == LateAmong(ms, c.id, n)
    && (c.status != Status.Pending <==> Complete(ms, c.id, n, count))
  }

  ghost predicate LifecycleAgrees(c: Commitment, ms: Milestones) {
    && (c.status == Status.Pending ==> c.attestedAt.None?)
    && (c.status == Status.Disputed ==> c.attestedAt.Some?)
    && (IsFinal(c.status) && c.attestedAt.Some? ==>
          c.status == NaturalOutcome(ms, c.id, MilestonesAttested(c.counters)))
  }

  /** Whether a commitment has a panel and whether it has a threshold are the same question. */
  predicate PanelShaped(c: Commitment) {
    VoteThreshold(c.counters) <= |c.attestors| && (c.attestors == [] <==> VoteThreshold(c.counters) == 0)
  }

  ghost predicate Sound(b: Book, id: u64)
    requires id in b.commitments
  {
    var c := b.commitments[id];
    c.id == id && id < b.nextId && PanelShaped(c)
    && LanesAgree(c, b.milestones) && LifecycleAgrees(c, b.milestones)
  }

  ghost predicate MilestonesSound(b: Book) {
    && (forall id :: id in b.commitments ==> Sound(b, id))
    && (forall id: u64, k: u32 :: OutcomeAt(b.milestones, id, k).Some? ==> id in b.commitments)
  }

  lemma {:induction false} LateAmongFrame(ms: Milestones, ns: Milestones, id: u64, n: u32)
    requires forall k: u32 :: k < n ==> OutcomeAt(ms, id, k) == OutcomeAt(ns, id, k)
    ensures LateAmong(ms, id, n) == LateAmong(ns, id, n)
  {
    if n > 0 { LateAmongFrame(ms, ns, id, n - 1); }
  }

  /** Another commitment's milestone does not matter. */
  lemma OtherMilestoneKeeps(c: Commitment, ms: Milestones, id: u64, k: u32, outcome: Status)
    requires c.id != id && LanesAgree(c, ms) && LifecycleAgrees(c, ms)
    ensures LanesAgree(c, ms[(id, k) := outcome]) && LifecycleAgrees(c, ms[(id, k) := outcome])
  {
    var ns := ms[(id, k) := outcome];
    var n := MilestonesAttested(c.counters);
    assert forall j: u32 :: OutcomeAt(ms, c.id, j) == OutcomeAt(ns, c.id, j);
    LateAmongFrame(ms, ns, c.id, n);
  }

  lemma CreateKeeps(s: State, env: Env, p: CommitmentParams, count: u32)
    requires MilestonesSound(s.book) && Create(s, env, p, count).Ok?
    ensures MilestonesSound(Create(s, env, p, count).value.book)
  {
    var b := Create(s, env, p, count).value.book;
    var id := s.book.nextId;
    assert id !in s.book.commitments;
    PackRoundTrip(count, 0, 0, p.voteThreshold);
    assert LateAmong(b.milestones, id, 0) == 0;
    assert forall k: u32 :: OutcomeAt(b.milestones, id, k).None?;
    assert Sound(b, id);
    forall j | j in b.commitments ensures Sound(b, j) {
      if j != id { assert Sound(s.book, j); }
    }
  }

  lemma {:induction false} CreateAllKeeps(s: State, env: Env, ps: seq<CommitmentParams>)
    requires MilestonesSound(s.book) && CreateAll(s, env, ps).Ok?
    ensures MilestonesSound(CreateAll(s, env, ps).value.book)
  {
    if ps != [] {
      CreateAllKeeps(s, env, ps[..|ps| - 1]);
      CreateKeeps(CreateAll(s, env, ps[..|ps| - 1]).value, env, ps[|ps| - 1], 1);
    }
  }

  /** Recording the next milestone moves the attested lane by one, and the late lane when late. */
  lemma RecordMoves(counters: u64, late: bool)
    requires MilestonesAttested(counters) < MilestoneCount(counters) <= MAX_MILESTONES
    requires LateMilestones(counters) <= MilestonesAttested(counters)
    ensures var r := RecordMilestone(counters, late);
            r.Some? && MilestoneCount(r.value) == MilestoneCount(counters)
            && MilestonesAttested(r.value) == MilestonesAttested(counters) + 1
            && LateMilestones(r.value) == LateMilestones(counters) + (if late then 1 else 0)
            && VoteThreshold(r.value) == VoteThreshold(counters)
  {
    PackRoundTrip(MilestoneCount(counters), MilestonesAttested(counters) + 1,
                  LateMilestones(counters) + (if late then 1 else 0), VoteThreshold(counters)) by {
      DivisionFacts(counters / LANE3, LANE);
    }
  }

  lemma AttestedCommitmentSound(c: Commitment, ms: Milestones, outcome: Status, now: u64)
    requires LanesAgree(c, ms) && LifecycleAgrees(c, ms) && c.status == Status.Pending && IsFinal(outcome)
    ensures RecordMilestone(c.counters, outcome == Status.Late).Some?
    ensures var n := MilestonesAttested(c.counters);
            var counters := RecordMilestone(c.counters, outcome == Status.Late).value;
            var ns := ms[(c.id, n) := outcome];
            var resolution := Resolution(counters, outcome);
            var d := if resolution.None? then c.(counters := counters)
                     else c.(counters := counters, status := resolution.value, attestedAt := Some(now));
            && LanesAgree(d, ns) && LifecycleAgrees(d, ns)
            && VoteThreshold(counters) == VoteThreshold(c.counters)
  {
    var n := MilestonesAttested(c.counters);
    RecordMoves(c.counters, outcome == Status.Late);
    var counters := RecordMilestone(c.counters, outcome == Status.Late).value;
    var ns := ms[(c.id, n) := outcome];
    assert forall k: u32 :: k != n ==> OutcomeAt(ms, c.id, k) == OutcomeAt(ns, c.id, k);
    assert OutcomeAt(ns, c.id, n) == Some(outcome);
    assert n > 0 ==> OutcomeAt(ms, c.id, n - 1) != Some(Status.Breached);
    LateAmongFrame(ms, ns, c.id, n);
    assert LateAmong(ns, c.id, n + 1) == LateAmong(ns, c.id, n) + (if outcome == Status.Late then 1 else 0);
    assert RecordedInOrder(ns, c.id, n + 1);
  }

  lemma AttestKeeps(s: State, env: Env, caller: Address, id: u64, index: Option<u32>, outcome: Status)
    requires MilestonesSound(s.book) && Attest(s, env, caller, id, index, outcome).Ok?
    ensures MilestonesSound(Attest(s, env, caller, id, index, outcome).value.book)
  {
    var b := Attest(s, env, caller, id, index, outcome).value.book;
    var c := s.book.commitments[id];
    var n := MilestonesAttested(c.counters);
    assert Sound(s.book, id);
    AttestedCommitmentSound(c, s.book.milestones, outcome, env.now);
    assert b.milestones == s.book.milestones[(id, n) := outcome];
    assert Sound(b, id);
    forall j | j in b.commitments ensures Sound(b, j) {
      if j != id {
        assert Sound(s.book, j);
        OtherMilestoneKeeps(s.book.commitments[j], s.book.milestones, id, n, outcome);
      }
    }
    forall j: u64, k: u32 | OutcomeAt(b.milestones, j, k).Some? ensures j in b.commitments {
      if j != id { assert OutcomeAt(s.book.milestones, j, k).Some?; }
    }
  }

  /** Disputing and settling leave the counters and milestones alone. */
  lemma MovedKeeps(b: Book, id: u64, status: Status)
    requires MilestonesSound(b) && id in b.commitments
    requires b.commitments[id].status != Status.Pending && status != Status.Pending
    requires status == Status.Disputed ==> b.commitments[id].attestedAt.Some?
    ensures MilestonesSound(Moved(b, id, status))
  {
    var after := Moved(b, id, status);
    assert Sound(b, id);
    forall j | j in after.commitments ensures Sound(after, j) {
      assert Sound(b, j);
    }
  }

  lemma StepKeepsMilestones(s: State, env: Env, call: Call)
    requires MilestonesSound(s.book)
    ensures MilestonesSound(Step(s, env, call).book)
  {
    if !TouchesBook(call) {
      OtherCallsKeepBook(s, env, call);
    } else if Invoke(s, env, call).Ok? {
      match call
      case CallCreate(params, milestoneCount) => CreateKeeps(s, env, params, milestoneCount);
      case CallCreateBatch(batch) => CreateAllKeeps(s, env, batch);
      case CallAttest(caller, id, index, outcome) => AttestKeeps(s, env, caller, id, index, outcome);
      case CallDispute(caller, id) => DisputeEffect(s, env, caller, id); MovedKeeps(s.book, id, Status.Disputed);
      case CallResolve(caller, id, outcome) =>
        ResolveEffect(s, env, caller, id, outcome);
        MovedKeeps(s.book, id, outcome);
      case CallVote(attestor, id, outcome) =>
        CastVoteEffect(s, env, attestor, id, outcome);
        MovedKeeps(s.book, id, outcome);
      case CallTimeout(id) => TimeoutEffect(s, env, id); MovedKeeps(s.book, id, Status.Breached);
    }
  }

  /** In every reachable state the packed counters and the recorded milestones agree. */
  lemma {:induction false} MilestonesSoundInEveryRun(script: Script)
    ensures MilestonesSound(Run(script).book)
  {
    if script != [] {
      var last := script[|script| - 1];
      MilestonesSoundInEveryRun(script[..|script| - 1]);
      StepKeepsMilestones(Run(script[..|script| - 1]), last.0, last.1);
    }
  }

  /**
   In a reachable state a successful attestation takes the commitment out of `Pending`
   exactly when it reports a breach or is the last milestone, and then the status is what
   the milestones add up to: a breach, else late when some milestone was, else fulfilled.
   */
  lemma ResolvesExactlyOnBreachOrLast(s: State, env: Env, caller: Address, id: u64, index: Option<u32>, outcome: Status)
    requires MilestonesSound(s.book) && Attest(s, env, caller, id, index, outcome).Ok?
    ensures var before := s.book.commitments[id];
            var after := Attest(s, env, caller, id, index, outcome).value.book;
            var n := MilestonesAttested(before.counters);
            && before.status == Status.Pending && id in after.commitments
            && (after.commitments[id].status != Status.Pending
                <==> outcome == Status.Breached || n + 1 == MilestoneCount(before.counters))
            && (after.commitments[id].status != Status.Pending ==>
                  after.commitments[id].status
                  == if outcome == Status.Breached then Status.Breached
                     else if LateAmong(after.milestones, id, n + 1) > 0 then Status.Late else Status.Fulfilled)
  {
    AttestShape(s, env, caller, id, index, outcome);
    AttestKeeps(s, env, caller, id, index, outcome);
    assert Sound(Attest(s, env, caller, id, index, outcome).value.book, id);
  }

  lemma AttestShape(s: State, env: Env, caller: Address, id: u64, index: Option<u32>, outcome: Status)
    requires MilestonesSound(s.book) && Attest(s, env, caller, id, index, outcome).Ok?
    ensures var before := s.book.commitments[id];
            var after := Attest(s, env, caller, id, index, outcome).value.book;
            var n := MilestonesAttested(before.counters);
            && before.status == Status.Pending && id in after.commitments
            && var c := after.commitments[id];
            && MilestonesAttested(c.counters) == n + 1 && MilestoneCount(c.counters) == MilestoneCount(before.counters)
            && OutcomeAt(after.milestones, id, n) == Some(outcome)
            && (c.status != Status.Pending ==> c.attestedAt.Some? && IsFinal(c.status))
  {
    assert Sound(s.book, id);
    RecordMoves(s.book.commitments[id].counters, outcome == Status.Late);
  }
}
