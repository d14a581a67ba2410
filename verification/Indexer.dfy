/**
 The finality indexer: the ledger stores of `backend/src/indexer/store.ts` and the
 reorg-following sync loop of `backend/src/indexer/listener.ts`.
 */
module Indexers {
  import opened Wrappers

  datatype LedgerSnapshot = LedgerSnapshot(
    sequence: int, hash: string, previousHash: Option<string>, closedAt: string, events: seq<string>)

  datatype Checkpoint = Checkpoint(sequence: int, hash: string)

  datatype Error =
    | AppendOutOfOrder | AppendUnlinked | DifferentHash | MissingLedger
    | NoCommonAncestor | SourceMissing | LedgerLinkage
    | BadFinalityDepth | BadStartSequence | BadBatchSize | BadRollbackDepth

  type Outcome<+T> = Result<T, Error>

  type Ledgers = map<int, LedgerSnapshot>

  datatype Store = Store(ledgers: Ledgers, checkpoint: Option<Checkpoint>)

  function UpTo(ledgers: Ledgers, sequence: int): Ledgers {
    map k | k in ledgers && k <= sequence :: ledgers[k]
  }

  /** What each table transaction leaves behind, or the error it is rolled back with. */
  function Appended(s: Store, l: LedgerSnapshot): Outcome<Store> {
    if l.sequence in s.ledgers && s.ledgers[l.sequence].hash != l.hash then Err(DifferentHash)
    else if s.checkpoint.Some? && l.sequence == s.checkpoint.value.sequence then
      if s.checkpoint.value.hash != l.hash then Err(DifferentHash) else Ok(s)
    else if s.checkpoint.Some? && l.sequence != s.checkpoint.value.sequence + 1 then Err(AppendOutOfOrder)
    else if s.checkpoint.Some? && l.previousHash != Some(s.checkpoint.value.hash) then Err(AppendUnlinked)
    else Ok(Store(if l.sequence in s.ledgers then s.ledgers else s.ledgers[l.sequence := l],
                  Some(Checkpoint(l.sequence, l.hash))))
  }

  function RolledBack(s: Store, sequence: int): Outcome<Store> {
    if sequence <= 0 then Ok(Store(UpTo(s.ledgers, sequence), None))
    else if sequence !in s.ledgers then Err(MissingLedger)
    else Ok(Store(UpTo(s.ledgers, sequence), Some(Checkpoint(sequence, s.ledgers[sequence].hash))))
  }

  /** The database tables; each method is one transaction. */
  class PostgresIndexerStore {
    var ledgers: Ledgers
    var checkpoint: Option<Checkpoint>

    function Snapshot(): Store
      reads this
    {
      Store(ledgers, checkpoint)
    }

    constructor ()
      ensures Snapshot() == Store(map[], None)
    {
      ledgers, checkpoint := map[], None;
    }

    method AppendLedger(ledger: LedgerSnapshot) returns (r: Outcome<()>)
      modifies this
      ensures var spec := Appended(old(Snapshot()), ledger);
              if spec.Ok? then r.Ok? && Snapshot() == spec.value
              else r == Err(spec.error) && Snapshot() == old(Snapshot())
    {
      if ledger.sequence in ledgers && ledgers[ledger.sequence].hash != ledger.hash { return Err(DifferentHash); }
      if checkpoint.Some? {
        if ledger.sequence == checkpoint.value.sequence {
          if checkpoint.value.hash != ledger.hash { return Err(DifferentHash); }
          return Ok(());
        }
        if ledger.sequence != checkpoint.value.sequence + 1 { return Err(AppendOutOfOrder); }
        if ledger.previousHash != Some(checkpoint.value.hash) { return Err(AppendUnlinked); }
      }
      if ledger.sequence !in ledgers { ledgers := ledgers[ledger.sequence := ledger]; }
      checkpoint := Some(Checkpoint(ledger.sequence, ledger.hash));
      r := Ok(());
    }

    method RollbackTo(sequence: int) returns (r: Outcome<()>)
      modifies this
      ensures var spec := RolledBack(old(Snapshot()), sequence);
              if spec.Ok? then r.Ok? && Snapshot() == spec.value
              else r == Err(spec.error) && Snapshot() == old(Snapshot())
    {
      var before := ledgers;
      ledgers := UpTo(ledgers, sequence);
      if sequence <= 0 {
        checkpoint := None;
      } else {
        if sequence !in ledgers {
          ledgers := before;
          return Err(MissingLedger);
        }
        checkpoint := Some(Checkpoint(sequence, ledgers[sequence].hash));
      }
      r := Ok(());
    }
  }

  /** The in-memory append has no idempotent case, and overwrites. */
  function MemoryAppended(s: Store, l: LedgerSnapshot): Outcome<Store> {
    if s.checkpoint.Some? && l.sequence != s.checkpoint.value.sequence + 1 then Err(AppendOutOfOrder)
    else if s.checkpoint.Some? && l.previousHash != Some(s.checkpoint.value.hash) then Err(AppendUnlinked)
    else Ok(Store(s.ledgers[l.sequence := l], Some(Checkpoint(l.sequence, l.hash))))
  }

  /** The in-memory rollback deletes before it checks, and keeps the deletion when it throws. */
  function MemoryRolledBack(s: Store, sequence: int): Store {
    if RolledBack(s, sequence).Ok? then RolledBack(s, sequence).value
    else Store(UpTo(s.ledgers, sequence), s.checkpoint)
  }

  class InMemoryIndexerStore {
    var ledgers: Ledgers
    var checkpoint: Option<Checkpoint>

    function Snapshot(): Store
      reads this
    {
      Store(ledgers, checkpoint)
    }

    constructor ()
      ensures Snapshot() == Store(map[], None)
    {
      ledgers, checkpoint := map[], None;
    }

    method AppendLedger(ledger: LedgerSnapshot) returns (r: Outcome<()>)
      modifies this
      ensures var spec := MemoryAppended(old(Snapshot()), ledger);
              if spec.Ok? then r.Ok? && Snapshot() == spec.value
              else r == Err(spec.error) && Snapshot() == old(Snapshot())
    {
      if checkpoint.Some? && ledger.sequence != checkpoint.value.sequence + 1 { return Err(AppendOutOfOrder); }
      if checkpoint.Some? && ledger.previousHash != Some(checkpoint.value.hash) { return Err(AppendUnlinked); }
      ledgers := ledgers[ledger.sequence := ledger];
      checkpoint := Some(Checkpoint(ledger.sequence, ledger.hash));
      r := Ok(());
    }

    method RollbackTo(sequence: int) returns (r: Outcome<()>)
      modifies this
      ensures r.Ok? <==> RolledBack(old(Snapshot()), sequence).Ok?
      ensures Snapshot() == MemoryRolledBack(old(Snapshot()), sequence)
    {
      var keys := ledgers.Keys;
      while keys != {}
        invariant checkpoint == old(checkpoint) && keys <= old(ledgers).Keys
        invariant forall k :: k in ledgers <==> k in old(ledgers) && (k in keys || k <= sequence)
        invariant forall k :: k in ledgers ==> ledgers[k] == old(ledgers)[k]
        decreases |keys|
      {
        var existing := AnyOf(keys);
        if existing > sequence { ledgers := ledgers - {existing}; }
        keys := keys - {existing};
      }
      assert forall k :: k !in keys;
      assert forall k :: k in ledgers <==> k in UpTo(old(ledgers), sequence);
      assert ledgers == UpTo(old(ledgers), sequence);
      if sequence <= 0 {
        checkpoint := None;
        return Ok(());
      }
      if sequence !in ledgers { return Err(MissingLedger); }
      checkpoint := Some(Checkpoint(sequence, ledgers[sequence].hash));
      r := Ok(());
    }
  }

  // ------------------------------------------------- one contiguous linked run

  /** The stored ledgers are `low..checkpoint`, each linking to the one below, or there are none. */
  ghost predicate RunAbove(s: Store, low: int) {
    if s.checkpoint.None? then s.ledgers == map[]
    else
      var top := s.checkpoint.value;
      && 1 <= low <= top.sequence
      && (forall k :: k in s.ledgers <==> low <= k <= top.sequence)
      && (forall k :: k in s.ledgers ==> s.ledgers[k].sequence == k)
      && (forall k :: k in s.ledgers && k > low ==> s.ledgers[k].previousHash == Some(s.ledgers[k - 1].hash))
      && s.ledgers[top.sequence].hash == top.hash
  }

  ghost predicate IsRun(s: Store) {
    exists low :: RunAbove(s, low)
  }

  lemma AppendKeepsRun(s: Store, l: LedgerSnapshot)
    requires IsRun(s) && l.sequence >= 1 && Appended(s, l).Ok?
    ensures IsRun(Appended(s, l).value)
  {
    var low :| RunAbove(s, low);
    assert RunAbove(Appended(s, l).value, if s.checkpoint.None? then l.sequence else low);
  }

  lemma RollbackKeepsRun(s: Store, sequence: int)
    requires IsRun(s) && RolledBack(s, sequence).Ok?
    ensures IsRun(RolledBack(s, sequence).value)
  {
    var low :| RunAbove(s, low);
    var t := RolledBack(s, sequence).value;
    if sequence <= 0 { assert t.ledgers == map[]; }
    assert RunAbove(t, low);
  }

  /**
   On a run an append is taken exactly when the store is empty, when it repeats the newest
   ledger, or when it is the next one and links to it. It leaves the ledgers that were there
   and this one, which is then the checkpoint.
   */
  lemma AppendRule(s: Store, l: LedgerSnapshot)
    requires IsRun(s)
    ensures Appended(s, l).Ok? <==>
              || s.checkpoint.None?
              || (l.sequence == s.checkpoint.value.sequence && l.hash == s.checkpoint.value.hash)
              || (l.sequence == s.checkpoint.value.sequence + 1 && l.previousHash == Some(s.checkpoint.value.hash))
    ensures Appended(s, l).Ok? ==>
              var t := Appended(s, l).value;
              && t.checkpoint == Some(Checkpoint(l.sequence, l.hash))
              && t.ledgers == if l.sequence in s.ledgers then s.ledgers else s.ledgers[l.sequence := l]
  {
    var low :| RunAbove(s, low);
  }

  /** On a run a rollback goes to 0 or below, or to a stored ledger, and keeps exactly what is up to it. */
  lemma RollbackRule(s: Store, sequence: int)
    requires IsRun(s)
    ensures RolledBack(s, sequence).Ok? <==> sequence <= 0 || sequence in s.ledgers
    ensures RolledBack(s, sequence).Ok? ==>
              var t := RolledBack(s, sequence).value;
              && (forall k :: k in t.ledgers <==> k in s.ledgers && k <= sequence)
              && (forall k :: k in t.ledgers ==> t.ledgers[k] == s.ledgers[k])
              && t.checkpoint == if sequence <= 0 then None
                                 else Some(Checkpoint(sequence, s.ledgers[sequence].hash))
  {
  }

  datatype Op = Append(ledger: LedgerSnapshot) | Rollback(sequence: int)

  function StepStore(s: Store, op: Op): Store {
    var r := match op case Append(l) => Appended(s, l) case Rollback(n) => RolledBack(s, n);
    if r.Ok? then r.value else s
  }

  function RunOps(s: Store, ops: seq<Op>): Store {
    if ops == [] then s else StepStore(RunOps(s, ops[..|ops| - 1]), ops[|ops| - 1])
  }

  /** Any interleaving of append and rollback transactions keeps one contiguous linked run under the checkpoint. */
  lemma {:induction false} OpsKeepRun(ops: seq<Op>)
    requires forall i :: 0 <= i < |ops| && ops[i].Append? ==> ops[i].ledger.sequence >= 1
    ensures IsRun(RunOps(Store(map[], None), ops))
  {
    if ops == [] {
      assert RunAbove(Store(map[], None), 1);
    } else {
      var front, op := ops[..|ops| - 1], ops[|ops| - 1];
      assert forall i :: 0 <= i < |front| ==> front[i] == ops[i];
      OpsKeepRun(front);
      var s := RunOps(Store(map[], None), front);
      match op
      case Append(l) => if Appended(s, l).Ok? { AppendKeepsRun(s, l); }
      case Rollback(n) => if RolledBack(s, n).Ok? { RollbackKeepsRun(s, n); }
    }
  }

  /**
   The tables accept any sequence. A rollback to 0 or below drops the checkpoint but only the
   ledgers above its target, so it leaves a run exactly when no ledger is stored at or below
   the target; with appended sequences from 1 on there is none.
   */
  lemma UncheckedRollbackKeepsRunIff(s: Store, sequence: int)
    requires sequence <= 0
    ensures RolledBack(s, sequence).Ok?
    ensures IsRun(RolledBack(s, sequence).value) <==> forall k :: k in s.ledgers ==> k > sequence
  {
    var t := RolledBack(s, sequence).value;
    assert RunAbove(t, 1) <==> t.ledgers == map[];
    if k :| k in s.ledgers && k <= sequence {
      assert k in t.ledgers;
    } else {
      assert t.ledgers == map[];
    }
  }

  /** Ledger 0 appended and rolled back to 0 stays behind without a checkpoint. */
  lemma LedgerZeroBreaksRun(l: LedgerSnapshot)
    requires l.sequence == 0
    ensures var s := RunOps(Store(map[], None), [Append(l), Rollback(0)]);
            s == Store(map[0 := l], None) && !IsRun(s)
  {
    var first: seq<Op> := [Append(l)];
    var both: seq<Op> := [Append(l), Rollback(0)];
    assert first[..0] == [] && both[..1] == first;
    assert RunOps(Store(map[], None), first[..0]) == Store(map[], None);
    var s := RunOps(Store(map[], None), first);
    assert s == Store(map[0 := l], Some(Checkpoint(0, l.hash)));
    assert UpTo(s.ledgers, 0) == s.ledgers;
    UncheckedRollbackKeepsRunIff(s, 0);
  }

  /** On a run the two stores agree on every append but the repeated one, and on every rollback that succeeds. */
  lemma StoresAgree(s: Store, l: LedgerSnapshot, sequence: int)
    requires IsRun(s)
    ensures (s.checkpoint.None? || l.sequence != s.checkpoint.value.sequence)
            && (s.checkpoint.None? || l.sequence > s.checkpoint.value.sequence || l.sequence !in s.ledgers)
            ==> MemoryAppended(s, l) == Appended(s, l)
    ensures RolledBack(s, sequence).Ok? ==> MemoryRolledBack(s, sequence) == RolledBack(s, sequence).value
  {
    var low :| RunAbove(s, low);
  }

  /** The in-memory rollback keeps the run exactly when its target is not a positive number below the run. */
  lemma MemoryRollbackKeepsRunIff(s: Store, low: int, sequence: int)
    requires RunAbove(s, low)
    ensures IsRun(MemoryRolledBack(s, sequence)) <==> s.checkpoint.None? || sequence <= 0 || sequence >= low
  {
    var t := MemoryRolledBack(s, sequence);
    if RolledBack(s, sequence).Ok? {
      assert IsRun(s);
      RollbackKeepsRun(s, sequence);
    } else if s.checkpoint.Some? && sequence < low {
      assert t.ledgers == map[];
      assert !IsRun(t);
    } else {
      assert t.ledgers == s.ledgers;
      assert RunAbove(t, low);
    }
  }

  /** Rolled back to 3, a store whose only ledger is 5 throws, has lost it, and still claims it as its checkpoint. */
  lemma MemoryRollbackBreaksRun(l: LedgerSnapshot)
    requires l.sequence == 5
    ensures var s := Store(map[5 := l], Some(Checkpoint(5, l.hash)));
            && IsRun(s) && RolledBack(s, 3).Err?
            && MemoryRolledBack(s, 3) == Store(map[], s.checkpoint) && !IsRun(MemoryRolledBack(s, 3))
  {
    var s := Store(map[5 := l], Some(Checkpoint(5, l.hash)));
    assert RunAbove(s, 5);
    MemoryRollbackKeepsRunIff(s, 5, 3);
    assert MemoryRolledBack(s, 3).ledgers == map[];
  }
}
