/**
 The two-schema reputation rows of `contracts/registry/src/reputation.rs`, with the schema
 step of `contracts/registry/src/upgrade.rs`.
 */
module Reputations {
  import opened Integers
  import opened TrustScores
  import opened Commitments

  const SCHEMA_VERSION_V1: u32 := 1
  const SCHEMA_VERSION_V2: u32 := 2
  const MAX_SUPPORTED_SCHEMA_VERSION: u32 := 2
  const MAX_MIGRATION_BATCH: nat := 100

  datatype Reputation = Reputation(fulfilledCount: u32, lateCount: u32, breachedCount: u32)

  datatype ReputationV2 = ReputationV2(
    fulfilledCount: u32, lateCount: u32, breachedCount: u32,
    directCount: u64, attestedCount: u64, updatedAt: u64, version: u32)

  datatype Rows = Rows(schema: u32, v1: map<Address, Reputation>, v2: map<Address, ReputationV2>)

  datatype MigrationError = MigrationNotEnabled | BatchTooLarge | SchemaDowngrade | UnsupportedSchemaVersion

  datatype Outcome<+T> = Done(value: T) | Panic(error: MigrationError)

  const ZERO_V1: Reputation := Reputation(0, 0, 0)

  function ZeroV2(now: u64): ReputationV2 {
    ReputationV2(0, 0, 0, 0, 0, now, SCHEMA_VERSION_V2)
  }

  function ProjectV1ToV2(v1: Reputation, now: u64): ReputationV2 {
    ReputationV2(v1.fulfilledCount, v1.lateCount, v1.breachedCount,
                 v1.fulfilledCount + v1.lateCount + v1.breachedCount, 0, now, SCHEMA_VERSION_V2)
  }

  function ProjectV2ToV1(v2: ReputationV2): Reputation {
    Reputation(v2.fulfilledCount, v2.lateCount, v2.breachedCount)
  }

  /** `get_reputation_v2`. */
  function GetReputationV2(rows: Rows, a: Address, now: u64): ReputationV2 {
    if a in rows.v2 then rows.v2[a]
    else if a in rows.v1 then ProjectV1ToV2(rows.v1[a], now)
    else ZeroV2(now)
  }

  /** `get_reputation`. */
  function GetReputation(rows: Rows, a: Address): Reputation {
    if rows.schema < SCHEMA_VERSION_V2
    then if a in rows.v1 then rows.v1[a] else ZERO_V1
    else ProjectV2ToV1(GetReputationV2(rows, a, 0))
  }

  /** `migration_pending`. */
  predicate MigrationPending(rows: Rows, a: Address) {
    rows.schema >= SCHEMA_VERSION_V2 && a !in rows.v2 && a in rows.v1
  }

  // ----------------------------------------------------------- plain counters

  function CounterOf(r: Reputation, x: Lane): u32 {
    match x
    case Fulfilled => r.fulfilledCount
    case Late => r.lateCount
    case Breached => r.breachedCount
  }

  function WithCounter(r: Reputation, x: Lane, v: u32): Reputation {
    match x
    case Fulfilled => r.(fulfilledCount := v)
    case Late => r.(lateCount := v)
    case Breached => r.(breachedCount := v)
  }

  function Sum(r: Reputation): u64 {
    r.fulfilledCount + r.lateCount + r.breachedCount
  }

  /** Saturating step of one u32 counter. */
  function Stepped(v: u32, increment: bool): u32 {
    if increment then if v == U32_MAX then v else v + 1
    else if v == 0 then 0 else v - 1
  }

  /** `apply_outcome` on the three counters; other statuses are not counted. */
  function Applied(r: Reputation, outcome: Status, increment: bool): Reputation {
    if IsFinal(outcome)
    then WithCounter(r, LaneOf(outcome), Stepped(CounterOf(r, LaneOf(outcome)), increment))
    else r
  }

  // ---------------------------------------------------------------- row steps

  function Migrated(rows: Rows, a: Address, now: u64): Rows {
    if a !in rows.v2 && a in rows.v1
    then Rows(rows.schema, rows.v1 - {a}, rows.v2[a := ProjectV1ToV2(rows.v1[a], now)])
    else rows
  }

  function MigratedAll(rows: Rows, addresses: seq<Address>, now: u64): Rows {
    if addresses == [] then rows
    else Migrated(MigratedAll(rows, addresses[..|addresses| - 1], now), addresses[|addresses| - 1], now)
  }

  function SteppedDirect(v: u64, increment: bool): u64 {
    if increment then if v == U64_MAX then v else v + 1
    else if v == 0 then 0 else v - 1
  }

  function UpdatedV2Row(row: ReputationV2, outcome: Status, increment: bool, now: u64): ReputationV2 {
    var c := Applied(ProjectV2ToV1(row), outcome, increment);
    ReputationV2(c.fulfilledCount, c.lateCount, c.breachedCount,
                 if IsFinal(outcome) then SteppedDirect(row.directCount, increment) else row.directCount,
                 row.attestedCount, now, SCHEMA_VERSION_V2)
  }

  function UpdatedRows(rows: Rows, issuer: Address, outcome: Status, increment: bool, now: u64): Rows {
    if rows.schema < SCHEMA_VERSION_V2
    then rows.(v1 := rows.v1[issuer := Applied(GetReputation(rows, issuer), outcome, increment)])
    else
      var m := Migrated(rows, issuer, now);
      var row := if issuer in m.v2 then m.v2[issuer] else ZeroV2(now);
      m.(v2 := m.v2[issuer := UpdatedV2Row(row, outcome, increment, now)])
  }

  function Upgraded(rows: Rows, target: u32): Outcome<Rows> {
    if target < rows.schema then Panic(SchemaDowngrade)
    else if target > MAX_SUPPORTED_SCHEMA_VERSION then Panic(UnsupportedSchemaVersion)
    else Done(rows.(schema := target))
  }

  /** The schema moves forward to a supported version, or stays, and no row changes. */
  lemma UpgradeRule(rows: Rows, target: u32)
    ensures Upgraded(rows, target).Done? <==> rows.schema <= target <= 2
    ensures Upgraded(rows, target).Done? ==>
              var after := Upgraded(rows, target).value;
              after.schema == target && after.v1 == rows.v1 && after.v2 == rows.v2
  {
  }

  /** How many of the addresses would move when migrated in order. */
  function MovedCount(rows: Rows, addresses: seq<Address>, now: u64): nat {
    if addresses == [] then 0
    else
      var k := |addresses| - 1;
      MovedCount(rows, addresses[..k], now)
      + (if MigrationPending(MigratedAll(rows, addresses[..k], now), addresses[k]) then 1 else 0)
  }

  /** Reachable rows: one row per address, and no V2 row before the schema switch. */
  predicate OneRowEach(rows: Rows) {
    && 1 <= rows.schema <= 2
    && (rows.schema == 1 ==> rows.v2 == map[])
    && rows.v1.Keys !! rows.v2.Keys
  }

  // -------------------------------------------------------------- the storage

  class ReputationStore {
    var schema: u32
    var v1: map<Address, Reputation>
    var v2: map<Address, ReputationV2>

    function Snapshot(): Rows
      reads this
    {
      Rows(schema, v1, v2)
    }

    constructor ()
      ensures Snapshot() == Rows(SCHEMA_VERSION_V1, map[], map[])
    {
      schema, v1, v2 := SCHEMA_VERSION_V1, map[], map[];
    }

    method Upgrade(newSchemaVersion: u32) returns (r: Outcome<()>)
      modifies this
      ensures Upgraded(old(Snapshot()), newSchemaVersion).Done? ==>
                r.Done? && Snapshot() == Upgraded(old(Snapshot()), newSchemaVersion).value
      ensures Upgraded(old(Snapshot()), newSchemaVersion).Panic? ==>
                r == Panic(Upgraded(old(Snapshot()), newSchemaVersion).error) && Snapshot() == old(Snapshot())
    {
      if newSchemaVersion < schema { return Panic(SchemaDowngrade); }
      if newSchemaVersion > MAX_SUPPORTED_SCHEMA_VERSION { return Panic(UnsupportedSchemaVersion); }
      if newSchemaVersion != schema { schema := newSchemaVersion; }
      r := Done(());
    }

    method MigrateReputation(address: Address, now: u64) returns (r: Outcome<bool>)
      modifies this
      ensures r == if old(schema) < SCHEMA_VERSION_V2 then Panic(MigrationNotEnabled)
                   else Done(MigrationPending(old(Snapshot()), address))
      ensures Snapshot() == if r.Done? then Migrated(old(Snapshot()), address, now) else old(Snapshot())
    {
      if schema < SCHEMA_VERSION_V2 { return Panic(MigrationNotEnabled); }
      if address in v2 { return Done(false); }
      if address !in v1 { return Done(false); }
      v2 := v2[address := ProjectV1ToV2(v1[address], now)];
      v1 := v1 - {address};
      r := Done(true);
    }

    method MigrateReputationBatch(addresses: seq<Address>, now: u64) returns (r: Outcome<nat>)
      modifies this
      ensures r == if old(schema) < SCHEMA_VERSION_V2 then Panic(MigrationNotEnabled)
                   else if |addresses| > MAX_MIGRATION_BATCH then Panic(BatchTooLarge)
                   else Done(MovedCount(old(Snapshot()), addresses, now))
      ensures Snapshot() == if r.Done? then MigratedAll(old(Snapshot()), addresses, now) else old(Snapshot())
    {
      if schema < SCHEMA_VERSION_V2 { return Panic(MigrationNotEnabled); }
      if |addresses| > MAX_MIGRATION_BATCH { return Panic(BatchTooLarge); }
      var migrated: nat := 0;
      for i := 0 to |addresses|
        invariant schema == old(schema)
        invariant Snapshot() == MigratedAll(old(Snapshot()), addresses[..i], now)
        invariant migrated == MovedCount(old(Snapshot()), addresses[..i], now)
      {
        assert addresses[..i + 1][..i] == addresses[..i];
        var moved := MigrateReputation(addresses[i], now);
        if moved.value { migrated := migrated + 1; }
      }
      assert addresses[..|addresses|] == addresses;
      r := Done(migrated);
    }

    method UpdateReputation(issuer: Address, outcome: Status, increment: bool, now: u64)
      modifies this
      ensures Snapshot() == UpdatedRows(old(Snapshot()), issuer, outcome, increment, now)
    {
      if schema < SCHEMA_VERSION_V2 {
        UpdateReputationV1(issuer, outcome, increment);
      } else {
        UpdateReputationV2(issuer, outcome, increment, now);
      }
    }

    method UpdateReputationV1(issuer: Address, outcome: Status, increment: bool)
      requires schema < SCHEMA_VERSION_V2
      modifies this
      ensures Snapshot() == UpdatedRows(old(Snapshot()), issuer, outcome, increment, 0)
    {
      var rep := if issuer in v1 then v1[issuer] else ZERO_V1;
      var f, l, b, _ := ApplyOutcome(rep.fulfilledCount, rep.lateCount, rep.breachedCount, outcome, increment);
      v1 := v1[issuer := Reputation(f, l, b)];
    }

    method UpdateReputationV2(issuer: Address, outcome: Status, increment: bool, now: u64)
      requires schema >= SCHEMA_VERSION_V2
      modifies this
      ensures Snapshot() == UpdatedRows(old(Snapshot()), issuer, outcome, increment, now)
    {
      var _ := MigrateReputation(issuer, now);
      var rep := if issuer in v2 then v2[issuer] else ZeroV2(now);
      var f, l, b, counted := ApplyOutcome(rep.fulfilledCount, rep.lateCount, rep.breachedCount, outcome, increment);
      rep := rep.(fulfilledCount := f, lateCount := l, breachedCount := b);
      if counted {
        if increment {
          rep := rep.(directCount := if rep.directCount == U64_MAX then U64_MAX else rep.directCount + 1);
        } else {
          rep := rep.(directCount := if rep.directCount == 0 then 0 else rep.directCount - 1);
        }
      }
      rep := rep.(updatedAt := now);
      rep := rep.(version := SCHEMA_VERSION_V2);
      v2 := v2[issuer := rep];
    }

    static method ApplyOutcome(fulfilled: u32, late: u32, breached: u32, outcome: Status, increment: bool)
      returns (f: u32, l: u32, b: u32, counted: bool)
      ensures Reputation(f, l, b) == Applied(Reputation(fulfilled, late, breached), outcome, increment)
      ensures counted <==> IsFinal(outcome)
    {
      f, l, b := fulfilled, late, breached;
      match outcome {
        case Fulfilled => f := Stepped(f, increment);
        case Late => l := Stepped(l, increment);
        case Breached => b := Stepped(b, increment);
        case _ => return f, l, b, false;
      }
      counted := true;
    }
  }

  // ------------------------------------------- refinement of a plain counter map

  type Counters = map<Address, Reputation>

  function Plain(m: Counters, a: Address): Reputation {
    if a in m then m[a] else ZERO_V1
  }

  datatype Op =
    | Update(issuer: Address, outcome: Status, increment: bool, now: u64)
    | Migrate(addresses: seq<Address>, at: u64)
    | Upgrade(target: u32)

  /** One storage operation; an operation that panics changes nothing. */
  function StepRows(rows: Rows, op: Op): Rows {
    match op
    case Update(issuer, outcome, increment, now) => UpdatedRows(rows, issuer, outcome, increment, now)
    case Migrate(addresses, at) =>
      if rows.schema < SCHEMA_VERSION_V2 || |addresses| > MAX_MIGRATION_BATCH then rows
      else MigratedAll(rows, addresses, at)
    case Upgrade(target) => if Upgraded(rows, target).Done? then Upgraded(rows, target).value else rows
  }

  /** What the same operation does to a plain map: only updates matter. */
  function StepPlain(m: Counters, op: Op): Counters {
    if op.Update? then m[op.issuer := Applied(Plain(m, op.issuer), op.outcome, op.increment)] else m
  }

  function RunRows(rows: Rows, ops: seq<Op>): Rows {
    if ops == [] then rows else StepRows(RunRows(rows, ops[..|ops| - 1]), ops[|ops| - 1])
  }

  function RunPlain(m: Counters, ops: seq<Op>): Counters {
    if ops == [] then m else StepPlain(RunPlain(m, ops[..|ops| - 1]), ops[|ops| - 1])
  }

  lemma MigratedKeepsReads(rows: Rows, a: Address, now: u64, b: Address)
    requires OneRowEach(rows) && rows.schema == 2
    ensures OneRowEach(Migrated(rows, a, now)) && Migrated(rows, a, now).schema == 2
    ensures GetReputation(Migrated(rows, a, now), b) == GetReputation(rows, b)
    ensures b in Migrated(rows, a, now).v1 || b in Migrated(rows, a, now).v2 <==> b in rows.v1 || b in rows.v2
  {
  }

  /** A batch changes no read, keeps one row per address and invents no row; afterwards none of it is pending. */
  lemma {:induction false} MigratedAllKeepsReads(rows: Rows, addresses: seq<Address>, now: u64, b: Address)
    requires OneRowEach(rows) && rows.schema == 2
    ensures var after := MigratedAll(rows, addresses, now);
            && OneRowEach(after) && after.schema == 2
            && GetReputation(after, b) == GetReputation(rows, b)
            && (b in after.v1 || b in after.v2 <==> b in rows.v1 || b in rows.v2)
            && (MigrationPending(after, b) <==> MigrationPending(rows, b) && b !in addresses)
  {
    if addresses != [] {
      var k := |addresses| - 1;
      var front := addresses[..k];
      MigratedAllKeepsReads(rows, front, now, b);
      MigratedAllKeepsReads(rows, front, now, addresses[k]);
      MigratedKeepsReads(MigratedAll(rows, front, now), addresses[k], now, b);
      assert b in addresses <==> b in front || b == addresses[k];
    }
  }

  /** An update steps the issuer's counters, whichever schema holds them, and no one else's. */
  lemma UpdatedRowsReads(rows: Rows, issuer: Address, outcome: Status, increment: bool, now: u64, b: Address)
    requires OneRowEach(rows)
    ensures var after := UpdatedRows(rows, issuer, outcome, increment, now);
            && OneRowEach(after) && after.schema == rows.schema
            && GetReputation(after, b)
               == (if b == issuer then Applied(GetReputation(rows, b), outcome, increment) else GetReputation(rows, b))
  {
    if rows.schema == 2 {
      MigratedKeepsReads(rows, issuer, now, b);
      MigratedKeepsReads(rows, issuer, now, issuer);
    }
  }

  /**
   Under any interleaving of upgrades, migrations and updates the store reads as a plain
   counter map, and holds at most one row per address.
   */
  lemma {:induction false} RefinesPlainCounters(ops: seq<Op>, a: Address)
    ensures var rows := RunRows(Rows(SCHEMA_VERSION_V1, map[], map[]), ops);
            OneRowEach(rows) && GetReputation(rows, a) == Plain(RunPlain(map[], ops), a)
  {
    var start := Rows(SCHEMA_VERSION_V1, map[], map[]);
    if ops != [] {
      var front, op := ops[..|ops| - 1], ops[|ops| - 1];
      RefinesPlainCounters(front, a);
      var rows := RunRows(start, front);
      match op
      case Update(issuer, outcome, increment, now) =>
        RefinesPlainCounters(front, issuer);
        UpdatedRowsReads(rows, issuer, outcome, increment, now, a);
      case Migrate(addresses, at) =>
        if rows.schema == 2 { MigratedAllKeepsReads(rows, addresses, at, a); }
      case Upgrade(target) =>
    }
  }

  function PendingIn(rows: Rows, addresses: seq<Address>): set<Address> {
    set b | b in addresses && MigrationPending(rows, b)
  }

  lemma PendingInExtends(rows: Rows, front: seq<Address>, last: Address)
    ensures PendingIn(rows, front + [last])
            == PendingIn(rows, front) + (if MigrationPending(rows, last) then {last} else {})
  {
  }

  /** The number of rows a batch reports is the number of distinct pending addresses in it. */
  lemma {:induction false} MovedCountIsDistinctPending(rows: Rows, addresses: seq<Address>, now: u64)
    requires OneRowEach(rows) && rows.schema == 2
    ensures MovedCount(rows, addresses, now) == |PendingIn(rows, addresses)|
  {
    if addresses != [] {
      var front, last := addresses[..|addresses| - 1], addresses[|addresses| - 1];
      MovedCountIsDistinctPending(rows, front, now);
      MigratedAllKeepsReads(rows, front, now, last);
      PendingInExtends(rows, front, last);
      assert addresses == front + [last];
      if last in front { assert PendingIn(rows, addresses) == PendingIn(rows, front); }
    }
  }

  // --------------------------------------------------------------- direct_count

  predicate DirectIsSum(row: ReputationV2) {
    row.directCount == Sum(ProjectV2ToV1(row))
  }

  lemma SumOfApplied(r: Reputation, outcome: Status, increment: bool)
    requires IsFinal(outcome)
    ensures Sum(Applied(r, outcome, increment)) - Sum(r)
            == Stepped(CounterOf(r, LaneOf(outcome)), increment) - CounterOf(r, LaneOf(outcome))
  {
  }

  /**
   `direct_count` stays the sum of the three counters through an update exactly when the
   counter it touches really moves: not an increment at the u32 maximum, and not a
   retraction of an outcome never counted while other outcomes are.
   */
  lemma DirectCountKeptIff(row: ReputationV2, outcome: Status, increment: bool, now: u64)
    requires DirectIsSum(row) && IsFinal(outcome)
    ensures DirectIsSum(UpdatedV2Row(row, outcome, increment, now))
            <==> var c := CounterOf(ProjectV2ToV1(row), LaneOf(outcome));
                 if increment then c < U32_MAX else c > 0 || row.directCount == 0
  {
    SumOfApplied(ProjectV2ToV1(row), outcome, increment);
  }

  /** Three counts at the maximum, and one more: the sum and the direct count part. */
  lemma DirectCountCanDrift()
    ensures var row := ReputationV2(U32_MAX, 0, 0, U32_MAX, 0, 0, SCHEMA_VERSION_V2);
            DirectIsSum(row) && !DirectIsSum(UpdatedV2Row(row, Status.Fulfilled, true, 0))
  {
    DirectCountKeptIff(ReputationV2(U32_MAX, 0, 0, U32_MAX, 0, 0, SCHEMA_VERSION_V2), Status.Fulfilled, true, 0);
  }

  /** `a`'s V2 row, if it has one, counts exactly its three counters. */
  predicate DirectExact(rows: Rows, a: Address) {
    a in rows.v2 ==> DirectIsSum(rows.v2[a])
  }

  /** An update whose counter moves keeps every row's direct count exact, migrating on the way. */
  lemma UpdateKeepsDirectExact(rows: Rows, issuer: Address, outcome: Status, increment: bool, now: u64, b: Address)
    requires OneRowEach(rows) && DirectExact(rows, b) && IsFinal(outcome)
    requires b == issuer ==>
               var c := CounterOf(GetReputation(rows, issuer), LaneOf(outcome));
               if increment then c < U32_MAX else c > 0
    ensures DirectExact(UpdatedRows(rows, issuer, outcome, increment, now), b)
  {
    if rows.schema == 2 && b == issuer {
      var m := Migrated(rows, issuer, now);
      MigratedKeepsReads(rows, issuer, now, issuer);
      var row := if issuer in m.v2 then m.v2[issuer] else ZeroV2(now);
      DirectCountKeptIff(row, outcome, increment, now);
    }
  }

  lemma {:induction false} MigrationKeepsDirectExact(rows: Rows, addresses: seq<Address>, now: u64, b: Address)
    requires DirectExact(rows, b)
    ensures DirectExact(MigratedAll(rows, addresses, now), b)
  {
    if addresses != [] { MigrationKeepsDirectExact(rows, addresses[..|addresses| - 1], now, b); }
  }
}
