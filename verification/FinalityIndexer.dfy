/** `backend/src/indexer/listener.ts`: following a ledger source up to its finalized sequence. */
module FinalityIndexers {
  import opened Wrappers
  import opened Indexers

  /** What the source answers: its latest sequence, and a ledger per sequence it knows. */
  datatype Source = Source(latest: nat, chain: Ledgers)

  datatype Options = Options(
    finalityDepth: int, startSequence: Option<int>, maxBatchSize: Option<int>, maxRollbackDepth: Option<int>)

  datatype SyncResult = SyncResult(
    latestSequence: int, finalizedSequence: int, committed: nat, rolledBackFrom: Option<int>,
    checkpoint: Option<Checkpoint>)

  function Min(a: int, b: int): int { if a < b then a else b }

  function Max(a: int, b: int): int { if a > b then a else b }

  function OrElse(o: Option<int>, default: int): int {
    if o.Some? then o.value else default
  }

  /** The stored and the canonical ledger of a sequence have the same hash. */
  predicate Agree(s: Store, source: Source, k: int) {
    k in s.ledgers && k in source.chain && source.chain[k].hash == s.ledgers[k].hash
  }

  predicate BothKnow(s: Store, source: Source, k: int) {
    k in s.ledgers && k in source.chain
  }

  /** The outcome of the ancestor search over candidates `floor..first`. */
  ghost predicate IsAncestor(s: Store, source: Source, floor: int, first: int, restartable: bool, r: Option<int>) {
    if exists k :: floor <= k <= first && Agree(s, source, k)
    then r.Some? && floor <= r.value <= first && Agree(s, source, r.value)
         && forall k :: r.value < k <= first ==> !Agree(s, source, k)
    else r == if restartable && exists k :: floor <= k <= first && BothKnow(s, source, k) then Some(0) else None
  }

  /** A complete hash-linked chain up to the latest ledger. */
  ghost predicate Linked(source: Source) {
    forall k :: 1 <= k <= source.latest ==>
      && k in source.chain && source.chain[k].sequence == k
      && (k > 1 ==> k - 1 in source.chain && source.chain[k].previousHash == Some(source.chain[k - 1].hash))
  }

  /** A ledger hash stands for the whole ledger. */
  ghost predicate HashPins(s: Store, source: Source) {
    forall k :: Agree(s, source, k) ==> s.ledgers[k] == source.chain[k]
  }

  ghost predicate Canonical(s: Store, source: Source) {
    forall k :: k in s.ledgers ==> k in source.chain && s.ledgers[k] == source.chain[k]
  }

  /** Agreement at one stored sequence carries down to every stored sequence below it. */
  lemma {:induction false} AgreementIsPrefix(s: Store, source: Source, low: int, k: int, j: int)
    requires RunAbove(s, low) && Linked(source) && HashPins(s, source)
    requires j in s.ledgers && j <= k <= source.latest && Agree(s, source, k)
    ensures Agree(s, source, j)
    decreases k - j
  {
    if j < k {
      AgreementIsPrefix(s, source, low, k, j + 1);
      assert s.ledgers[j + 1] == source.chain[j + 1];
      assert s.ledgers[j + 1].previousHash == Some(s.ledgers[j].hash);
    }
  }

  predicate CheckpointIsCanonical(s: Store, source: Source)
    requires s.checkpoint.Some?
  {
    s.checkpoint.value.sequence <= source.latest && Agree(s, source, s.checkpoint.value.sequence)
  }

  /** The checkpoint's sequence, or 0 when there is none. */
  function Top(s: Store): int {
    if s.checkpoint.Some? then s.checkpoint.value.sequence else 0
  }

  /** If the checkpoint agrees, the whole store is canonical. */
  lemma CanonicalFromCheckpoint(s: Store, source: Source)
    requires IsRun(s) && Linked(source) && HashPins(s, source)
    requires s.checkpoint.Some? ==> CheckpointIsCanonical(s, source)
    ensures Canonical(s, source)
  {
    if s.checkpoint.Some? {
      var low :| RunAbove(s, low);
      forall k | k in s.ledgers ensures k in source.chain && s.ledgers[k] == source.chain[k] {
        AgreementIsPrefix(s, source, low, s.checkpoint.value.sequence, k);
      }
    }
  }

  lemma RunTop(s: Store)
    requires IsRun(s) && s.checkpoint.Some?
    ensures var top := s.checkpoint.value;
            && top.sequence >= 1 && top.sequence in s.ledgers && s.ledgers[top.sequence].hash == top.hash
            && forall k :: k in s.ledgers ==> 1 <= k <= top.sequence && s.ledgers[k].sequence == k
  {
    var low :| RunAbove(s, low);
  }

  /** The ledger after the checkpoint, linked to it, is appended as it is. */
  lemma AppendsNext(s: Store, l: LedgerSnapshot)
    requires IsRun(s) && l.sequence >= 1
    requires s.checkpoint.Some? ==> l.sequence == s.checkpoint.value.sequence + 1
                                    && l.previousHash == Some(s.checkpoint.value.hash)
    ensures l.sequence !in s.ledgers
    ensures Appended(s, l) == Ok(Store(s.ledgers[l.sequence := l], Some(Checkpoint(l.sequence, l.hash))))
    ensures IsRun(Appended(s, l).value)
  {
    var low :| RunAbove(s, low);
    AppendKeepsRun(s, l);
  }

  /** The source answers with the ledger it is asked for. */
  predicate WellNumbered(source: Source) {
    forall k :: k in source.chain ==> source.chain[k].sequence == k
  }

  /** Every ledger not stored before is the source's, and not past `last`. */
  ghost predicate Extends(before: Store, after: Store, source: Source, last: int) {
    forall k :: k in after.ledgers && !(k in before.ledgers && after.ledgers[k] == before.ledgers[k]) ==>
                  k <= last && k in source.chain && after.ledgers[k] == source.chain[k]
  }

  /** The first sequence after the last kept ledger, or the configured start when none is kept. */
  function NextAfter(base: int, start: int): int {
    if base == 0 then start else base + 1
  }

  /**
   The last ledger a sync keeps, 0 for none: the checkpoint when it is canonical, and
   otherwise the ancestor that the bounded search finds.
   */
  ghost predicate ResumesAfter(s: Store, source: Source, finalized: int, start: int, depth: int, base: int) {
    if s.checkpoint.None? then base == 0
    else if CheckpointIsCanonical(s, source) then base == s.checkpoint.value.sequence
    else
      var top := s.checkpoint.value.sequence;
      var floor := Max(start, top - depth);
      IsAncestor(s, source, floor, Min(top - 1, Min(source.latest, finalized)), floor == start, Some(base))
  }

  /** At `k`, `after` is `before` up to `base` and the source in the `n` places from `next` on, and nothing else. */
  ghost predicate ContinuesAt(before: Store, after: Store, source: Source, base: int, next: int, n: nat, k: int) {
    if k in before.ledgers && k <= base then k in after.ledgers && after.ledgers[k] == before.ledgers[k]
    else if next <= k < next + n then k in source.chain && k in after.ledgers && after.ledgers[k] == source.chain[k]
    else k !in after.ledgers
  }

  /** The checkpoint is on the last of `n` ledgers from `next` on, or else on `base`. */
  ghost predicate EndsAt(after: Store, base: int, next: int, n: nat) {
    var last := if n > 0 then next + n - 1 else base;
    if n == 0 && base == 0 then after.checkpoint.None?
    else last in after.ledgers && after.checkpoint == Some(Checkpoint(last, after.ledgers[last].hash))
  }

  /** `after` is `before` up to `base` and then `n` ledgers of the source, with the checkpoint on the last. */
  ghost predicate Resumed(before: Store, after: Store, source: Source, base: int, start: int, n: nat) {
    && (forall k :: ContinuesAt(before, after, source, base, NextAfter(base, start), n, k))
    && EndsAt(after, base, NextAfter(base, start), n)
  }

  /** The same with at most so many. */
  ghost predicate ResumedUpTo(before: Store, after: Store, source: Source, base: int, start: int, most: int) {
    exists n: nat :: n <= most && Resumed(before, after, source, base, start, n)
  }

  lemma StopsAt(before: Store, after: Store, source: Source, base: int, start: int, n: nat, most: int)
    requires Resumed(before, after, source, base, start, n) && n <= most
    ensures ResumedUpTo(before, after, source, base, start, most)
  {
  }

  lemma SomewhereStopped(before: Store, after: Store, source: Source, base: int, start: int, most: int)
    returns (n: nat)
    requires ResumedUpTo(before, after, source, base, start, most)
    ensures n <= most && Resumed(before, after, source, base, start, n)
  {
    n :| n <= most && Resumed(before, after, source, base, start, n);
  }

  /** The same for some base that the sync may resume after. */
  ghost predicate Progressed(before: Store, after: Store, source: Source, finalized: int, start: int, depth: int,
                             n: nat)
  {
    exists base :: ResumesAfter(before, source, finalized, start, depth, base)
                   && Resumed(before, after, source, base, start, n)
  }

  ghost predicate ProgressedUpTo(before: Store, after: Store, source: Source, finalized: int, start: int, depth: int,
                                 most: int)
  {
    exists n: nat :: n <= most && Progressed(before, after, source, finalized, start, depth, n)
  }

  lemma ResumedNothing(s: Store, source: Source, start: int)
    requires IsRun(s) && start >= 1
    ensures Resumed(s, s, source, Top(s), start, 0)
  {
    var low :| RunAbove(s, low);
  }

  lemma ResumedOne(before: Store, s: Store, source: Source, base: int, start: int, n: nat)
    requires Resumed(before, s, source, base, start, n) && NextAfter(base, start) + n in source.chain
    requires base >= 0 && start >= 1 && NextAfter(base, start) + n !in s.ledgers
    ensures Resumed(before, WithNext(s, source, NextAfter(base, start) + n), source, base, start, n + 1)
  {
    var next := NextAfter(base, start);
    var t, m := WithNext(s, source, next + n), n + 1;
    forall k ensures ContinuesAt(before, t, source, base, next, m, k) {
      assert ContinuesAt(before, s, source, base, next, n, k);
    }
  }

  /** A store cut down to `base` and then resumed was resumed after `base`. */
  lemma ResumedOnward(before: Store, mid: Store, after: Store, source: Source, base: int, start: int, n: nat)
    requires Resumed(mid, after, source, base, start, n) && CutAt(before, mid, base)
    ensures Resumed(before, after, source, base, start, n)
  {
    var next := NextAfter(base, start);
    forall k ensures ContinuesAt(before, after, source, base, next, n, k) {
      assert ContinuesAt(mid, after, source, base, next, n, k);
    }
  }

  /** `mid` has the ledgers of `before` up to `base`. */
  ghost predicate CutAt(before: Store, mid: Store, base: int) {
    && (forall k :: k in mid.ledgers <==> k in before.ledgers && k <= base)
    && (forall k :: k in mid.ledgers ==> mid.ledgers[k] == before.ledgers[k])
  }

  lemma ResumedExtends(before: Store, after: Store, source: Source, base: int, start: int, n: nat, last: int)
    requires Resumed(before, after, source, base, start, n)
    requires n == 0 || NextAfter(base, start) + n - 1 <= last
    ensures Extends(before, after, source, last)
  {
    forall k | k in after.ledgers && !(k in before.ledgers && after.ledgers[k] == before.ledgers[k])
      ensures k <= last && k in source.chain && after.ledgers[k] == source.chain[k] {
      assert ContinuesAt(before, after, source, base, NextAfter(base, start), n, k);
    }
  }

  lemma ResumedCanonical(before: Store, after: Store, source: Source, base: int, start: int, n: nat)
    requires Resumed(before, after, source, base, start, n) && Canonical(before, source)
    ensures Canonical(after, source)
  {
    forall k | k in after.ledgers ensures k in source.chain && after.ledgers[k] == source.chain[k] {
      assert ContinuesAt(before, after, source, base, NextAfter(base, start), n, k);
    }
  }

  lemma ResumedKeeps(before: Store, after: Store, source: Source, base: int, start: int, n: nat)
    requires Resumed(before, after, source, base, start, n) && forall k :: k in before.ledgers ==> k <= base
    ensures forall k :: k in before.ledgers ==> k in after.ledgers && after.ledgers[k] == before.ledgers[k]
  {
    forall k | k in before.ledgers ensures k in after.ledgers && after.ledgers[k] == before.ledgers[k] {
      assert ContinuesAt(before, after, source, base, NextAfter(base, start), n, k);
    }
  }

  /** How many ledgers the batch from `next` on has, with none past the finalized sequence. */
  function BatchFrom(next: int, finalized: int, batch: int): int {
    Max(0, Min(finalized, next + batch - 1) - next + 1)
  }

  /** A batch that is not full ends at the finalized sequence, unless that was reached before. */
  lemma ShortBatchIsLast(after: Store, base: int, start: int, n: nat, finalized: int, batch: int)
    requires EndsAt(after, base, NextAfter(base, start), n) && base >= 0 && start >= 1 && n < batch
    requires n == BatchFrom(NextAfter(base, start), finalized, batch)
    ensures finalized <= Max(start - 1, Top(after))
  {
  }

  lemma ExtendsItself(s: Store, source: Source, last: int)
    ensures Extends(s, s, source, last)
  {
  }

  lemma NextIsPositive(s: Store, start: int)
    requires IsRun(s) && start >= 1
    ensures (if s.checkpoint.Some? then s.checkpoint.value.sequence + 1 else start) >= 1
  {
    var low :| RunAbove(s, low);
  }

  /** On a canonical store the next canonical ledger links to the checkpoint. */
  lemma LinksToCheckpoint(s: Store, source: Source, next: int)
    requires IsRun(s) && Canonical(s, source) && Linked(source) && 1 <= next <= source.latest
    requires s.checkpoint.Some? ==> next == s.checkpoint.value.sequence + 1
    ensures next in source.chain
    ensures s.checkpoint.Some? ==> source.chain[next].previousHash == Some(s.checkpoint.value.hash)
  {
    if s.checkpoint.Some? { RunTop(s); }
  }

  /** The store with the source's ledger of a sequence on top. */
  function WithNext(s: Store, source: Source, next: int): Store
    requires next in source.chain
  {
    Store(s.ledgers[next := source.chain[next]], Some(Checkpoint(next, source.chain[next].hash)))
  }

  /** Appending the source's next ledger, when it links, succeeds and keeps the run. */
  lemma AppendsOne(s: Store, source: Source, next: int)
    requires IsRun(s) && WellNumbered(source) && 1 <= next && next in source.chain
    requires s.checkpoint.Some? ==> next == s.checkpoint.value.sequence + 1
                                    && source.chain[next].previousHash == Some(s.checkpoint.value.hash)
    ensures Appended(s, source.chain[next]) == Ok(WithNext(s, source, next)) && IsRun(WithNext(s, source, next))
  {
    AppendsNext(s, source.chain[next]);
  }

  /** Both together: the append succeeds, and the store has one more of the source's ledgers. */
  lemma CommitsOne(before: Store, s: Store, source: Source, base: int, start: int, n: nat, next: int)
    requires IsRun(s) && WellNumbered(source) && next in source.chain && base >= 0 && start >= 1
    requires Resumed(before, s, source, base, start, n) && next == NextAfter(base, start) + n
    requires s.checkpoint.Some? ==> source.chain[next].previousHash == Some(s.checkpoint.value.hash)
    ensures Appended(s, source.chain[next]) == Ok(WithNext(s, source, next)) && IsRun(WithNext(s, source, next))
    ensures Resumed(before, WithNext(s, source, next), source, base, start, n + 1)
  {
    assert EndsAt(s, base, NextAfter(base, start), n);
    AppendsOne(s, source, next);
    AppendsNext(s, source.chain[next]);
    ResumedOne(before, s, source, base, start, n);
  }

  /** Rolled back to a stored ledger or to 0, the store keeps exactly what is up to it. */
  lemma RollsBackTo(s: Store, sequence: int)
    requires IsRun(s) && (sequence == 0 || (sequence >= 1 && sequence in s.ledgers))
    ensures RolledBack(s, sequence).Ok?
    ensures var t := RolledBack(s, sequence).value; IsRun(t) && CutAt(s, t, sequence) && Top(t) == sequence
  {
    RollbackKeepsRun(s, sequence);
    var low :| RunAbove(s, low);
  }

  /** A sync keeps everything stored when there is no checkpoint to doubt. */
  predicate KeepsCheckpoint(s: Store, source: Source) {
    s.checkpoint.None? || CheckpointIsCanonical(s, source)
  }

  /** After reconciling, the store is the old one up to where the sync resumes. */
  lemma ReconciledBase(before: Store, mid: Store, source: Source, finalized: int, start: int, depth: int,
                       rolledBack: Option<int>)
    requires IsRun(before) && IsRun(mid)
    requires rolledBack.None? <==> KeepsCheckpoint(before, source)
    requires rolledBack.None? ==> mid == before
    requires rolledBack.Some? ==>
               && CutAt(before, mid, Top(mid))
               && var top := before.checkpoint.value.sequence;
               && var floor := Max(start, top - depth);
               IsAncestor(before, source, floor, Min(top - 1, Min(source.latest, finalized)), floor == start,
                          Some(Top(mid)))
    ensures ResumesAfter(before, source, finalized, start, depth, Top(mid))
    ensures CutAt(before, mid, Top(mid)) && Top(mid) >= 0
  {
    var low :| RunAbove(before, low);
  }

  lemma SyncedSoFar(before: Store, mid: Store, after: Store, source: Source, base: int, finalized: int, start: int,
                    depth: int, batch: int, n: nat)
    requires IsRun(before) && IsRun(mid) && ResumesAfter(before, source, finalized, start, depth, base)
    requires base == Top(mid) && Resumed(mid, after, source, base, start, n)
    requires CutAt(before, mid, base)
    requires start >= 1 && batch >= 1 && n <= BatchFrom(NextAfter(base, start), finalized, batch)
    ensures n <= batch && Progressed(before, after, source, finalized, start, depth, n)
    ensures ProgressedUpTo(before, after, source, finalized, start, depth, batch)
    ensures Extends(before, after, source, finalized)
    ensures KeepsCheckpoint(before, source) ==>
              && (forall k :: k in before.ledgers ==> k in after.ledgers && after.ledgers[k] == before.ledgers[k])
              && Top(after) >= Top(before)
  {
    ResumedOnward(before, mid, after, source, base, start, n);
    ResumedExtends(before, after, source, base, start, n, finalized);
    assert Progressed(before, after, source, finalized, start, depth, n);
    if KeepsCheckpoint(before, source) {
      if before.checkpoint.Some? { RunTop(before); } else { assert before.ledgers == map[]; }
      ResumedKeeps(before, after, source, base, start, n);
    }
  }

  class FinalityIndexer {
    const store: PostgresIndexerStore
    const finalityDepth: nat
    const startSequence: int
    const maxBatchSize: int
    const maxRollbackDepth: int

    ghost predicate Valid()
    {
      startSequence >= 1 && maxBatchSize >= 1 && maxRollbackDepth >= 1
    }

    constructor (store: PostgresIndexerStore, finalityDepth: nat, startSequence: int, maxBatchSize: int,
                 maxRollbackDepth: int)
      requires startSequence >= 1 && maxBatchSize >= 1 && maxRollbackDepth >= 1
      ensures Valid() && this.store == store && this.finalityDepth == finalityDepth
      ensures this.startSequence == startSequence && this.maxBatchSize == maxBatchSize
      ensures this.maxRollbackDepth == maxRollbackDepth
    {
      this.store, this.finalityDepth := store, finalityDepth;
      this.startSequence, this.maxBatchSize, this.maxRollbackDepth := startSequence, maxBatchSize, maxRollbackDepth;
    }

    /** The option checks and defaults of the constructor. */
    static method Create(store: PostgresIndexerStore, options: Options) returns (r: Outcome<FinalityIndexer>)
      ensures r.Ok? <==> options.finalityDepth >= 0 && OrElse(options.startSequence, 1) >= 1
                         && OrElse(options.maxBatchSize, 100) >= 1
                         && (options.maxRollbackDepth.Some? ==> options.maxRollbackDepth.value >= 1)
      ensures r.Ok? ==> fresh(r.value) && r.value.Valid() && r.value.store == store
                        && r.value.finalityDepth == options.finalityDepth
                        && r.value.startSequence == OrElse(options.startSequence, 1)
                        && r.value.maxBatchSize == OrElse(options.maxBatchSize, 100)
                        && r.value.maxRollbackDepth
                           == OrElse(options.maxRollbackDepth, Max(100, options.finalityDepth * 2))
    {
      if options.finalityDepth < 0 { return Err(BadFinalityDepth); }
      var start := OrElse(options.startSequence, 1);
      var batch := OrElse(options.maxBatchSize, 100);
      var rollback := OrElse(options.maxRollbackDepth, Max(100, options.finalityDepth * 2));
      if start < 1 { return Err(BadStartSequence); }
      if batch < 1 { return Err(BadBatchSize); }
      if rollback < 1 { return Err(BadRollbackDepth); }
      var indexer := new FinalityIndexer(store, options.finalityDepth, start, batch, rollback);
      r := Ok(indexer);
    }

    method FindCommonAncestor(source: Source, sequence: int, canonicalCeiling: int) returns (r: Option<int>)
      ensures IsAncestor(store.Snapshot(), source, Max(startSequence, sequence - maxRollbackDepth),
                         Min(sequence - 1, canonicalCeiling),
                         Max(startSequence, sequence - maxRollbackDepth) == startSequence, r)
    {
      var firstCandidate := Min(sequence - 1, canonicalCeiling);
      var floor := Max(startSequence, sequence - maxRollbackDepth);
      var sawCanonicalCandidate := false;
      var candidate := firstCandidate;
      while candidate >= floor
        invariant candidate <= firstCandidate
        invariant forall k :: candidate < k <= firstCandidate ==> !Agree(store.Snapshot(), source, k)
        invariant sawCanonicalCandidate <==>
                  exists k :: Max(candidate + 1, floor) <= k <= firstCandidate && BothKnow(store.Snapshot(), source, k)
        decreases candidate - floor
      {
        if candidate in store.ledgers {
          if candidate in source.chain {
            assert BothKnow(store.Snapshot(), source, candidate);
            sawCanonicalCandidate := true;
            if source.chain[candidate].hash == store.ledgers[candidate].hash {
              assert Agree(store.Snapshot(), source, candidate);
              return Some(candidate);
            }
          }
        }
        candidate := candidate - 1;
      }
      r := if floor == startSequence && sawCanonicalCandidate then Some(0) else None;
    }

    /** Rolls back to the newest agreeing ledger in reach when the checkpoint is not canonical. */
    method Reconcile(source: Source, finalizedSequence: int) returns (r: Outcome<Option<int>>)
      requires Valid() && IsRun(store.Snapshot()) && finalizedSequence == Max(0, source.latest - finalityDepth)
      modifies store
      ensures IsRun(store.Snapshot())
      ensures r.Err? ==> r.error == NoCommonAncestor && store.Snapshot() == old(store.Snapshot())
      ensures r == Ok(None) ==> store.Snapshot() == old(store.Snapshot())
      ensures r == Ok(None) <==> old(store.checkpoint).None? || CheckpointIsCanonical(old(store.Snapshot()), source)
      ensures r.Ok? && r.value.Some? ==>
                && r.value.value == old(store.checkpoint).value.sequence
                && CutAt(old(store.Snapshot()), store.Snapshot(), Top(store.Snapshot()))
                && (store.checkpoint.Some? ==> store.checkpoint.value.sequence <= finalizedSequence)
      ensures r != Ok(None) ==>
                var top := old(store.checkpoint).value.sequence;
                var floor := Max(startSequence, top - maxRollbackDepth);
                IsAncestor(old(store.Snapshot()), source, floor, Min(top - 1, Min(source.latest, finalizedSequence)),
                           floor == startSequence, if r.Err? then None else Some(Top(store.Snapshot())))
      ensures r.Ok? && store.checkpoint.Some? ==> CheckpointIsCanonical(store.Snapshot(), source)
    {
      if store.checkpoint.None? { return Ok(None); }
      var checkpoint := store.checkpoint.value;
      RunTop(store.Snapshot());
      assert Agree(store.Snapshot(), source, checkpoint.sequence) <==>
             checkpoint.sequence in source.chain && source.chain[checkpoint.sequence].hash == checkpoint.hash;
      if checkpoint.sequence <= source.latest && checkpoint.sequence in source.chain
         && source.chain[checkpoint.sequence].hash == checkpoint.hash {
        return Ok(None);
      }
      var ancestor := FindCommonAncestor(source, checkpoint.sequence, Min(source.latest, finalizedSequence));
      if ancestor.None? { return Err(NoCommonAncestor); }
      RollsBackTo(store.Snapshot(), ancestor.value);
      var done := store.RollbackTo(ancestor.value);
      r := Ok(Some(checkpoint.sequence));
    }

    /** Appends the source's ledgers from `nextSequence` to `endSequence`, each in its own transaction. */
    method Commit(source: Source, nextSequence: int, endSequence: int) returns (r: Outcome<nat>)
      requires Valid() && IsRun(store.Snapshot()) && WellNumbered(source)
      requires nextSequence == NextAfter(Top(store.Snapshot()), startSequence)
      modifies store
      ensures IsRun(store.Snapshot())
      ensures r.Ok? ==>
                && r.value == Max(0, endSequence - nextSequence + 1)
                && Resumed(old(store.Snapshot()), store.Snapshot(), source, old(Top(store.Snapshot())), startSequence,
                           r.value)
      ensures r.Err? ==>
                && (r.error == SourceMissing || r.error == LedgerLinkage)
                && ResumedUpTo(old(store.Snapshot()), store.Snapshot(), source, old(Top(store.Snapshot())),
                               startSequence, Max(0, endSequence - nextSequence + 1))
      ensures Linked(source) && Canonical(old(store.Snapshot()), source) && endSequence <= source.latest ==> r.Ok?
    {
      var checkpoint := store.checkpoint;
      var next := nextSequence;
      var committed := 0;
      ghost var before := store.Snapshot();
      ghost var base := Top(before);
      ghost var trusted := Linked(source) && Canonical(before, source) && endSequence <= source.latest;
      ghost var now := before;
      NextIsPositive(before, startSequence);
      ResumedNothing(before, source, startSequence);
      while next <= endSequence
        invariant store.Snapshot() == now && checkpoint == now.checkpoint && IsRun(now)
        invariant next >= 1 && next == nextSequence + committed && (committed == 0 || next <= endSequence + 1)
        invariant Resumed(before, now, source, base, startSequence, committed)
      {
        StopsAt(before, now, source, base, startSequence, committed, Max(0, endSequence - nextSequence + 1));
        if next !in source.chain { return Err(SourceMissing); }
        var ledger := source.chain[next];
        if trusted {
          ResumedCanonical(before, now, source, base, startSequence, committed);
          LinksToCheckpoint(now, source, next);
        }
        if checkpoint.Some? && ledger.previousHash != Some(checkpoint.value.hash) { return Err(LedgerLinkage); }
        CommitsOne(before, now, source, base, startSequence, committed, next);
        var appended := store.AppendLedger(ledger);
        assert appended.Ok?;
        now := WithNext(now, source, next);
        checkpoint := Some(Checkpoint(ledger.sequence, ledger.hash));
        next := next + 1;
        committed := committed + 1;
      }
      r := Ok(committed);
    }

    /** Commits the batch that follows the checkpoint, up to the finalized sequence. */
    method CommitBatch(source: Source, finalizedSequence: int) returns (r: Outcome<nat>)
      requires Valid() && IsRun(store.Snapshot()) && WellNumbered(source) && finalizedSequence <= source.latest
      modifies store
      ensures IsRun(store.Snapshot())
      ensures r.Err? ==> r.error == SourceMissing || r.error == LedgerLinkage
      ensures var base, after := old(Top(store.Snapshot())), store.Snapshot();
              var most := BatchFrom(NextAfter(base, startSequence), finalizedSequence, maxBatchSize);
              && ResumedUpTo(old(store.Snapshot()), after, source, base, startSequence, most)
              && (r.Ok? ==> r.value == most && Resumed(old(store.Snapshot()), after, source, base, startSequence, most)
                            && (most < maxBatchSize ==> finalizedSequence <= Max(startSequence - 1, Top(after))))
      ensures Linked(source) && Canonical(old(store.Snapshot()), source) ==> r.Ok?
    {
      ghost var mid := store.Snapshot();
      ghost var base := Top(mid);
      NextIsPositive(mid, startSequence);
      var nextSequence := if store.checkpoint.Some? then store.checkpoint.value.sequence + 1 else startSequence;
      var endSequence := Min(finalizedSequence, nextSequence + maxBatchSize - 1);
      r := Commit(source, nextSequence, endSequence);
      ghost var after := store.Snapshot();
      if r.Ok? {
        StopsAt(mid, after, source, base, startSequence, r.value, r.value);
        if r.value < maxBatchSize {
          ShortBatchIsLast(after, base, startSequence, r.value, finalizedSequence, maxBatchSize);
        }
      }
    }

    /**
     One sync. The store keeps one linked run: the old one up to the ledger the sync resumes
     after, which is the old checkpoint unless that is not canonical, and then a batch of the
     source's ledgers, none past the finalized sequence. Against a complete hash-linked source,
     a sync that returns leaves every stored ledger canonical, and one that fails found no
     ancestor and changed nothing.
     */
    method Sync(source: Source) returns (r: Outcome<SyncResult>)
      requires Valid() && IsRun(store.Snapshot()) && WellNumbered(source)
      modifies store
      ensures IsRun(store.Snapshot())
      ensures Extends(old(store.Snapshot()), store.Snapshot(), source, Max(0, source.latest - finalityDepth))
      ensures r == Err(NoCommonAncestor) ==> store.Snapshot() == old(store.Snapshot())
      ensures r != Err(NoCommonAncestor) ==>
                ProgressedUpTo(old(store.Snapshot()), store.Snapshot(), source, Max(0, source.latest - finalityDepth),
                               startSequence, maxRollbackDepth, maxBatchSize)
      ensures r != Err(NoCommonAncestor) && old(KeepsCheckpoint(store.Snapshot(), source)) ==>
                && (forall k :: k in old(store.ledgers) ==>
                      k in store.ledgers && store.ledgers[k] == old(store.ledgers)[k])
                && Top(store.Snapshot()) >= old(Top(store.Snapshot()))
      ensures Linked(source) && HashPins(old(store.Snapshot()), source) ==>
                if r.Ok? then Canonical(store.Snapshot(), source) else r.error == NoCommonAncestor
      ensures r.Ok? ==>
                && r.value.checkpoint == store.checkpoint && r.value.latestSequence == source.latest
                && r.value.finalizedSequence == Max(0, source.latest - finalityDepth)
                && r.value.rolledBackFrom == (if old(KeepsCheckpoint(store.Snapshot(), source)) then None
                                              else Some(old(store.checkpoint).value.sequence))
                && r.value.committed <= maxBatchSize
                && Progressed(old(store.Snapshot()), store.Snapshot(), source, r.value.finalizedSequence,
                              startSequence, maxRollbackDepth, r.value.committed)
                && (r.value.committed < maxBatchSize ==>
                      r.value.finalizedSequence <= Max(startSequence - 1, Top(store.Snapshot())))
    {
      var finalizedSequence := Max(0, source.latest - finalityDepth);
      ghost var before := store.Snapshot();
      var reconciled := Reconcile(source, finalizedSequence);
      if reconciled.Err? {
        ExtendsItself(store.Snapshot(), source, finalizedSequence);
        return Err(reconciled.error);
      }
      ghost var mid := store.Snapshot();
      ghost var base := Top(mid);
      ReconciledBase(before, mid, source, finalizedSequence, startSequence, maxRollbackDepth, reconciled.value);
      ghost var trusted := Linked(source) && HashPins(before, source);
      if trusted { CanonicalFromCheckpoint(mid, source); }
      var committed := CommitBatch(source, finalizedSequence);
      ghost var after := store.Snapshot();
      ghost var n: nat := 0;
      if committed.Ok? {
        n := committed.value;
      } else {
        n := SomewhereStopped(mid, after, source, base, startSequence,
                              BatchFrom(NextAfter(base, startSequence), finalizedSequence, maxBatchSize));
      }
      SyncedSoFar(before, mid, after, source, base, finalizedSequence, startSequence, maxRollbackDepth,
                  maxBatchSize, n);
      if committed.Err? { return Err(committed.error); }
      if trusted { ResumedCanonical(mid, after, source, base, startSequence, n); }
      r := Ok(SyncResult(source.latest, finalizedSequence, committed.value, reconciled.value, store.checkpoint));
    }
  }
}
