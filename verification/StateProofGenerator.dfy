/**
 Batch proof generation: `backend/src/relayer/stateProofGenerator.ts`.

 Main results: a generated batch is accepted for its own header hash if and only if the
 deduplicated addresses have pairwise different 32-byte encodings, for any batch size; a
 generated single proof, if and only if the entry list it was given agrees on the score.
 */
module StateProofGeneration {
  import opened Integers
  import opened Wrappers
  import opened Bytes
  import opened HexFields
  import opened Encoder
  import opened MerkleTrees
  import opened StateProofs
  import opened HeaderBinding

  datatype EntryRecord = EntryRecord(stellarAddress: string, scoreData: ScoreData)

  /** A batch target: an address to look up, or a complete record. */
  datatype Target = Address(address: string) | Record(entry: EntryRecord)

  datatype GenerateError = NoTargets | BadAddress | OutOfRange

  datatype Outcome = Generated(batch: BatchProof) | Failed(error: GenerateError)

  datatype SingleOutcome = GeneratedSingle(proof: StateProof) | FailedSingle(error: GenerateError)

  type LocalState = map<string, ScoreData>

  /** What the contract's RPC server answers for an address; `None` when it has no entry, fails or is absent. */
  type Rpc = string -> Option<ScoreData>

  const DEFAULT_SCORE: ScoreData := ScoreData(50, 0, 0, 0, 0, 1)

  // -------------------------------------------------------- collecting entries

  /** `Map.set`: a repeated key keeps its position and takes the new value. */
  function MapSet(entries: seq<EntryRecord>, r: EntryRecord): seq<EntryRecord> {
    if entries == [] then [r]
    else if entries[0].stellarAddress == r.stellarAddress then [r] + entries[1..]
    else [entries[0]] + MapSet(entries[1..], r)
  }

  function Deduplicate(records: seq<EntryRecord>): (d: seq<EntryRecord>)
    ensures d == [] <==> records == []
  {
    if records == [] then []
    else MapSet(Deduplicate(records[..|records| - 1]), records[|records| - 1])
  }

  predicate Decode(codec: AddressCodec, entries: seq<EntryRecord>) {
    forall i :: 0 <= i < |entries| ==> codec(entries[i].stellarAddress).Some?
  }

  function Key(codec: AddressCodec, r: EntryRecord): Digest {
    if codec(r.stellarAddress).Some? then codec(r.stellarAddress).value else seq(32, _ => 0)
  }

  /** Stable insertion after every entry that does not compare greater. */
  function Insert(codec: AddressCodec, sorted: seq<EntryRecord>, r: EntryRecord): seq<EntryRecord> {
    if sorted == [] then [r]
    else
      var last := |sorted| - 1;
      if Compare(Key(codec, sorted[last]), Key(codec, r)) <= 0 then sorted + [r]
      else Insert(codec, sorted[..last], r) + [sorted[last]]
  }

  /** `Array.prototype.sort` is stable, so it is determined by the comparison. */
  function Sort(codec: AddressCodec, entries: seq<EntryRecord>): (s: seq<EntryRecord>) {
    if entries == [] then [] else Insert(codec, Sort(codec, entries[..|entries| - 1]), entries[|entries| - 1])
  }

  ghost function Keys(codec: AddressCodec, entries: seq<EntryRecord>): set<Digest> {
    set i: int | 0 <= i < |entries| :: Key(codec, entries[i])
  }

  ghost predicate DistinctKeys(codec: AddressCodec, entries: seq<EntryRecord>) {
    forall i, j :: 0 <= i < j < |entries| ==> Key(codec, entries[i]) != Key(codec, entries[j])
  }

  ghost predicate Increasing(codec: AddressCodec, entries: seq<EntryRecord>) {
    forall i, j :: 0 <= i < j < |entries| ==> Compare(Key(codec, entries[i]), Key(codec, entries[j])) < 0
  }

  ghost predicate Ordered(codec: AddressCodec, entries: seq<EntryRecord>) {
    forall i, j :: 0 <= i < j < |entries| ==> Compare(Key(codec, entries[i]), Key(codec, entries[j])) <= 0
  }

  lemma KeysSplit(codec: AddressCodec, entries: seq<EntryRecord>, r: EntryRecord)
    ensures Keys(codec, entries + [r]) == Keys(codec, entries) + {Key(codec, r)}
  {
    var all := entries + [r];
    forall k | k in Keys(codec, entries) + {Key(codec, r)} ensures k in Keys(codec, all) {
      if k in Keys(codec, entries) {
        var i :| 0 <= i < |entries| && k == Key(codec, entries[i]);
        assert all[i] == entries[i];
      } else {
        assert all[|entries|] == r;
      }
    }
  }

  lemma {:induction false} InsertKeeps(codec: AddressCodec, sorted: seq<EntryRecord>, r: EntryRecord)
    ensures |Insert(codec, sorted, r)| == |sorted| + 1
    ensures Keys(codec, Insert(codec, sorted, r)) == Keys(codec, sorted) + {Key(codec, r)}
    ensures multiset(Insert(codec, sorted, r)) == multiset(sorted) + multiset{r}
  {
    if sorted == [] {
      KeysSplit(codec, [], r);
      assert [] + [r] == [r];
    } else {
      var last := |sorted| - 1;
      var front := sorted[..last];
      assert sorted == front + [sorted[last]];
      KeysSplit(codec, front, sorted[last]);
      if Compare(Key(codec, sorted[last]), Key(codec, r)) <= 0 {
        KeysSplit(codec, sorted, r);
      } else {
        InsertKeeps(codec, front, r);
        KeysSplit(codec, Insert(codec, front, r), sorted[last]);
      }
    }
  }

  lemma {:induction false} InsertOrdered(codec: AddressCodec, sorted: seq<EntryRecord>, r: EntryRecord, bound: Digest)
    requires Ordered(codec, sorted)
    requires forall i :: 0 <= i < |sorted| ==> Compare(Key(codec, sorted[i]), bound) <= 0
    requires Compare(Key(codec, r), bound) <= 0
    ensures Ordered(codec, Insert(codec, sorted, r))
    ensures forall i :: 0 <= i < |Insert(codec, sorted, r)| ==>
              Compare(Key(codec, Insert(codec, sorted, r)[i]), bound) <= 0
  {
    if sorted != [] {
      var last := |sorted| - 1;
      var top := Key(codec, sorted[last]);
      if Compare(top, Key(codec, r)) <= 0 {
        forall i | 0 <= i < |sorted| ensures Compare(Key(codec, sorted[i]), Key(codec, r)) <= 0 {
          if i < last { CompareTransitive(Key(codec, sorted[i]), top, Key(codec, r)); }
        }
      } else {
        CompareFlip(top, Key(codec, r));
        InsertOrdered(codec, sorted[..last], r, top);
        var front := Insert(codec, sorted[..last], r);
        forall i | 0 <= i < |front| ensures Compare(Key(codec, front[i]), bound) <= 0 {
          CompareTransitive(Key(codec, front[i]), top, bound);
        }
      }
    }
  }

  lemma {:induction false} GreatestKey(codec: AddressCodec, sorted: seq<EntryRecord>, r: EntryRecord)
    returns (bound: Digest)
    requires Ordered(codec, sorted)
    ensures Compare(Key(codec, r), bound) <= 0
    ensures forall i :: 0 <= i < |sorted| ==> Compare(Key(codec, sorted[i]), bound) <= 0
  {
    bound := Key(codec, r);
    CompareEqual(bound, bound);
    if sorted != [] {
      var last := |sorted| - 1;
      var top := Key(codec, sorted[last]);
      CompareEqual(top, top);
      if Compare(bound, top) <= 0 {
        bound := top;
      } else {
        CompareFlip(bound, top);
        forall i | 0 <= i < |sorted| ensures Compare(Key(codec, sorted[i]), bound) <= 0 {
          if i < last { CompareTransitive(Key(codec, sorted[i]), top, bound); }
        }
      }
    }
  }

  /** Sorting permutes the entries, puts them in order and keeps the set of keys. */
  lemma {:induction false} SortSorts(codec: AddressCodec, entries: seq<EntryRecord>)
    ensures Sorts(codec, entries, Sort(codec, entries))
  {
    if entries != [] {
      var front, last := entries[..|entries| - 1], entries[|entries| - 1];
      SortSorts(codec, front);
      SortsOneMore(codec, front, Sort(codec, front), last);
      assert entries == front + [last];
    }
  }

  /** An ordered permutation with the same keys. */
  ghost predicate Sorts(codec: AddressCodec, entries: seq<EntryRecord>, s: seq<EntryRecord>) {
    && |s| == |entries| && multiset(s) == multiset(entries)
    && Keys(codec, s) == Keys(codec, entries) && Ordered(codec, s)
  }

  lemma SortsOneMore(codec: AddressCodec, front: seq<EntryRecord>, s: seq<EntryRecord>, r: EntryRecord)
    requires Sorts(codec, front, s)
    ensures Sorts(codec, front + [r], Insert(codec, s, r))
  {
    InsertSorts(codec, s, r);
    KeysSplit(codec, front, r);
  }

  lemma InsertSorts(codec: AddressCodec, sorted: seq<EntryRecord>, r: EntryRecord)
    requires Ordered(codec, sorted)
    ensures var s := Insert(codec, sorted, r);
            && |s| == |sorted| + 1 && multiset(s) == multiset(sorted) + multiset{r}
            && Keys(codec, s) == Keys(codec, sorted) + {Key(codec, r)} && Ordered(codec, s)
  {
    InsertKeeps(codec, sorted, r);
    var bound := GreatestKey(codec, sorted, r);
    InsertOrdered(codec, sorted, r, bound);
  }

  lemma {:induction false} DistinctIffCardinality(codec: AddressCodec, entries: seq<EntryRecord>)
    ensures |Keys(codec, entries)| <= |entries|
    ensures DistinctKeys(codec, entries) <==> |Keys(codec, entries)| == |entries|
  {
    if entries != [] {
      var k := |entries| - 1;
      var front := entries[..k];
      assert entries == front + [entries[k]];
      DistinctIffCardinality(codec, front);
      KeysSplit(codec, front, entries[k]);
      DistinctAppend(codec, front, entries[k]);
      if Key(codec, entries[k]) in Keys(codec, front) {
        assert Keys(codec, entries) == Keys(codec, front);
      }
    }
  }

  lemma DistinctAppend(codec: AddressCodec, front: seq<EntryRecord>, r: EntryRecord)
    ensures DistinctKeys(codec, front + [r]) <==> DistinctKeys(codec, front) && Key(codec, r) !in Keys(codec, front)
  {
    var all := front + [r];
    if DistinctKeys(codec, all) {
      forall i, j | 0 <= i < j < |front| ensures Key(codec, front[i]) != Key(codec, front[j]) {
        assert all[i] == front[i] && all[j] == front[j];
      }
      forall i | 0 <= i < |front| ensures Key(codec, front[i]) != Key(codec, r) {
        assert all[i] == front[i] && all[|front|] == r;
      }
    }
  }

  /** The sorted entries are strictly increasing exactly when no two entries share a key. */
  lemma StrictIffDistinct(codec: AddressCodec, entries: seq<EntryRecord>)
    ensures Increasing(codec, Sort(codec, entries)) <==> DistinctKeys(codec, entries)
  {
    var s := Sort(codec, entries);
    SortSorts(codec, entries);
    assert Sorts(codec, entries, s);
    DistinctIffCardinality(codec, entries);
    DistinctIffCardinality(codec, s);
    OrderedIncreasesIff(codec, s);
  }

  lemma OrderedIncreasesIff(codec: AddressCodec, s: seq<EntryRecord>)
    requires Ordered(codec, s)
    ensures Increasing(codec, s) <==> DistinctKeys(codec, s)
  {
    forall i, j | 0 <= i < j < |s|
      ensures Compare(Key(codec, s[i]), Key(codec, s[j])) < 0 <==> Key(codec, s[i]) != Key(codec, s[j])
    {
      CompareEqual(Key(codec, s[i]), Key(codec, s[j]));
    }
  }

  /** `extra` joins unless its address is there already. */
  function WithExtra(entries: seq<EntryRecord>, extra: EntryRecord): seq<EntryRecord> {
    if exists e :: e in entries && e.stellarAddress == extra.stellarAddress then entries else entries + [extra]
  }

  function UniqueEntries(records: seq<EntryRecord>, extra: Option<EntryRecord>): seq<EntryRecord> {
    if extra.Some? then WithExtra(Deduplicate(records), extra.value) else Deduplicate(records)
  }

  /** The entries without repetition, sorted; `None` when an address does not decode. */
  function Collected(codec: AddressCodec, records: seq<EntryRecord>, extra: Option<EntryRecord>)
    : Option<seq<EntryRecord>>
  {
    var unique := UniqueEntries(records, extra);
    if Decode(codec, unique) then Some(Sort(codec, unique)) else None
  }

  // ------------------------------------------------------------ building a batch

  function StateLeaves(h: HashFn, codec: AddressCodec, contract: Digest, entries: seq<EntryRecord>): seq<Digest> {
    seq(|entries|, i requires 0 <= i < |entries| => StateLeaf(h, codec, contract, entries[i]))
  }

  function StateLeaf(h: HashFn, codec: AddressCodec, contract: Digest, e: EntryRecord): Digest {
    LeafHash(h, contract, Key(codec, e), e.scoreData)
  }

  function AggregationLeaves(h: HashFn, codec: AddressCodec, contract: Digest, entries: seq<EntryRecord>): seq<Digest>
    requires |entries| <= 0x1_0000_0000_0000_0000
  {
    seq(|entries|, i requires 0 <= i < |entries| => AggregateLeaf(h, codec, contract, entries, i))
  }

  function AggregateLeaf(h: HashFn, codec: AddressCodec, contract: Digest, entries: seq<EntryRecord>, i: nat): Digest
    requires i < |entries| <= 0x1_0000_0000_0000_0000
  {
    AggregationLeaf(h, i, Key(codec, entries[i]), StateLeaf(h, codec, contract, entries[i]), entries[i].scoreData)
  }

  function DefaultHeader(stateRootHash: string): HeaderProof {
    HeaderProof(Hex(seq(32, _ => 0x11)), Hex(seq(32, _ => 0x22)), stateRootHash, 21)
  }

  function HeaderFor(header: Option<HeaderProof>, stateRootHash: string): HeaderProof {
    if header.Some? then header.value else DefaultHeader(stateRootHash)
  }

  /** `sourceLedgerSeq || 1`. */
  function EffectiveSeq(e: EntryRecord): nat {
    if e.scoreData.sourceLedgerSeq == 0 then 1 else e.scoreData.sourceLedgerSeq
  }

  function GreatestSeq(entries: seq<EntryRecord>): nat {
    if entries == [] then 0
    else
      var k := |entries| - 1;
      var m := GreatestSeq(entries[..k]);
      if m > EffectiveSeq(entries[k]) then m else EffectiveSeq(entries[k])
  }

  function BatchEntryFor(h: HashFn, codec: AddressCodec, contract: Digest, entries: seq<EntryRecord>, i: nat)
    : BatchEntry
    requires i < |entries| <= 0x1_0000_0000_0000_0000
  {
    BatchEntry(i, entries[i].stellarAddress, entries[i].scoreData, Hex(StateLeaf(h, codec, contract, entries[i])),
               AuditPath(h, StateLeaves(h, codec, contract, entries), i),
               AuditPath(h, AggregationLeaves(h, codec, contract, entries), i))
  }

  /** The batch over already sorted entries. */
  function BatchOver(h: HashFn, codec: AddressCodec, contractId: string, passphrase: string, contract: Digest,
                     entries: seq<EntryRecord>, ledgerSeq: u32, header: Option<HeaderProof>): BatchProof
    requires 0 < |entries| <= 0x1_0000_0000_0000_0000
  {
    var root := Hex(Root(h, StateLeaves(h, codec, contract, entries)));
    var headerProof := HeaderFor(header, root);
    BatchProof(BATCH_PROOF_VERSION, passphrase, ledgerSeq, Hex(HeaderHash(h, ledgerSeq, headerProof)), root, contractId,
               Hex(Root(h, AggregationLeaves(h, codec, contract, entries))), headerProof,
               seq(|entries|, i requires 0 <= i < |entries| => BatchEntryFor(h, codec, contract, entries, i)))
  }

  /** From sorted entries on: pick the ledger sequence, then assemble. */
  function OutcomeOver(h: HashFn, codec: AddressCodec, contractId: string, passphrase: string, contract: Digest,
                       entries: seq<EntryRecord>, targetSeq: nat, header: Option<HeaderProof>): Outcome
  {
    var ledgerSeq := if targetSeq != 0 then targetSeq else GreatestSeq(entries);
    if entries == [] then Failed(NoTargets)
    else if ledgerSeq >= 0x1_0000_0000 || |entries| > 0x1_0000_0000_0000_0000 then Failed(OutOfRange)
    else Generated(BatchOver(h, codec, contractId, passphrase, contract, entries, ledgerSeq, header))
  }

  function OutcomeFor(h: HashFn, codec: AddressCodec, contractId: string, passphrase: string,
                      records: seq<EntryRecord>, targetSeq: nat, header: Option<HeaderProof>): Outcome
  {
    var collected := Collected(codec, records, None);
    if records == [] then Failed(NoTargets)
    else if collected.None? || codec(contractId).None? then Failed(BadAddress)
    else OutcomeOver(h, codec, contractId, passphrase, codec(contractId).value, collected.value, targetSeq, header)
  }

  // ------------------------------------------------------------ fetching scores

  /** The local value, else the server's answer, else the default. */
  function ScoreOf(local: LocalState, rpc: Rpc, address: string): ScoreData {
    if address in local then local[address]
    else if rpc(address).Some? then rpc(address).value
    else DEFAULT_SCORE
  }

  /** An answer of the server is kept. */
  function Cached(local: LocalState, rpc: Rpc, address: string): LocalState {
    if address !in local && rpc(address).Some? then local[address := rpc(address).value] else local
  }

  function Resolve(local: LocalState, rpc: Rpc, t: Target): EntryRecord {
    match t
    case Address(a) => EntryRecord(a, ScoreOf(local, rpc, a))
    case Record(e) => e
  }

  function ResolveAll(local: LocalState, rpc: Rpc, ts: seq<Target>): (rs: seq<EntryRecord>)
    ensures |rs| == |ts|
  {
    if ts == [] then [] else ResolveAll(local, rpc, ts[..|ts| - 1]) + [Resolve(local, rpc, ts[|ts| - 1])]
  }

  function CachedAll(local: LocalState, rpc: Rpc, ts: seq<Target>): LocalState {
    if ts == [] then local
    else
      var front, last := CachedAll(local, rpc, ts[..|ts| - 1]), ts[|ts| - 1];
      if last.Address? then Cached(front, rpc, last.address) else front
  }

  /** What has been fetched before does not change what is fetched next. */
  lemma {:induction false} CachedAllKeepsScores(local: LocalState, rpc: Rpc, ts: seq<Target>, address: string)
    ensures ScoreOf(CachedAll(local, rpc, ts), rpc, address) == ScoreOf(local, rpc, address)
  {
    if ts != [] { CachedAllKeepsScores(local, rpc, ts[..|ts| - 1], address); }
  }

  // ---------------------------------------------------------- what is attested

  /** The stored score, else the server's answer, else a fixed neutral one. */
  ghost predicate LooksUp(local: LocalState, rpc: Rpc, address: string, score: ScoreData) {
    if address in local then score == local[address]
    else match rpc(address)
         case Some(answer) => score == answer
         case None => score == ScoreData(50, 0, 0, 0, 0, 1)
  }

  /** A score that was set is the one attested, whatever has been fetched in between. */
  lemma SetScoreIsAttested(local: LocalState, rpc: Rpc, address: string, stored: ScoreData, fetched: seq<Target>,
                           score: ScoreData)
    requires LooksUp(CachedAll(local[address := stored], rpc, fetched), rpc, address, score)
    ensures score == stored
  {
    CachedAllKeepsStored(local[address := stored], rpc, fetched, address);
  }

  lemma {:induction false} CachedAllKeepsStored(local: LocalState, rpc: Rpc, ts: seq<Target>, address: string)
    requires address in local
    ensures var after := CachedAll(local, rpc, ts); address in after && after[address] == local[address]
  {
    if ts != [] { CachedAllKeepsStored(local, rpc, ts[..|ts| - 1], address); }
  }

  function AddressOf(t: Target): string {
    match t
    case Address(a) => a
    case Record(e) => e.stellarAddress
  }

  /** A record attests its own score, an address the one that is looked up. */
  ghost predicate Attests(local: LocalState, rpc: Rpc, t: Target, score: ScoreData) {
    match t
    case Address(a) => LooksUp(local, rpc, a, score)
    case Record(e) => score == e.scoreData
  }

  /** The entry carries the score of the last target about its address. */
  ghost predicate EntryAttests(local: LocalState, rpc: Rpc, targets: seq<Target>, address: string, score: ScoreData) {
    exists j :: 0 <= j < |targets| && AddressOf(targets[j]) == address && Attests(local, rpc, targets[j], score)
                && forall k :: j < k < |targets| ==> AddressOf(targets[k]) != address
  }

  ghost predicate HasEntry(entries: seq<BatchEntry>, address: string) {
    exists i :: 0 <= i < |entries| && entries[i].stellarAddress == address
  }

  /** One entry for each address the targets are about, with the score that is attested for it. */
  ghost predicate BatchAttests(local: LocalState, rpc: Rpc, targets: seq<Target>, entries: seq<BatchEntry>) {
    && (forall i :: 0 <= i < |entries| ==>
          EntryAttests(local, rpc, targets, entries[i].stellarAddress, entries[i].scoreData))
    && (forall j :: 0 <= j < |targets| ==> HasEntry(entries, AddressOf(targets[j])))
    && |set i: int | 0 <= i < |entries| :: entries[i].stellarAddress| == |entries|
  }

  lemma {:induction false} ResolvedAt(local: LocalState, rpc: Rpc, ts: seq<Target>, k: nat)
    requires k < |ts|
    ensures var r := ResolveAll(local, rpc, ts)[k];
            r.stellarAddress == AddressOf(ts[k]) && Attests(local, rpc, ts[k], r.scoreData)
  {
    if k < |ts| - 1 { ResolvedAt(local, rpc, ts[..|ts| - 1], k); }
  }

  /** The last record of an address comes from the last target about it. */
  lemma LastResolvedAttests(local: LocalState, rpc: Rpc, ts: seq<Target>, e: EntryRecord)
    requires LastOfItsAddress(ResolveAll(local, rpc, ts), e)
    ensures EntryAttests(local, rpc, ts, e.stellarAddress, e.scoreData)
  {
    var records := ResolveAll(local, rpc, ts);
    var k :| 0 <= k < |records| && records[k] == e && NotLater(records, k, e.stellarAddress);
    ResolvedAt(local, rpc, ts, k);
    forall j | k < j < |ts| ensures AddressOf(ts[j]) != e.stellarAddress {
      ResolvedAt(local, rpc, ts, j);
    }
  }

  lemma SameMembers(codec: AddressCodec, entries: seq<EntryRecord>, e: EntryRecord)
    ensures e in Sort(codec, entries) <==> e in entries
  {
    SortSorts(codec, entries);
    assert e in multiset(Sort(codec, entries)) <==> e in multiset(entries);
  }

  lemma {:induction false} AddressCount(entries: seq<EntryRecord>)
    requires DistinctAddresses(entries)
    ensures |Addresses(entries)| == |entries|
  {
    if entries != [] {
      var k := |entries| - 1;
      var front, r := entries[..k], entries[k];
      AddressCount(front);
      assert entries == front + [r];
      assert Addresses(entries) == Addresses(front) + {r.stellarAddress};
      assert r.stellarAddress !in Addresses(front);
    }
  }

  /** The sorted entries of the resolved targets attest them, each address once. */
  lemma SortedAttest(codec: AddressCodec, local: LocalState, rpc: Rpc, ts: seq<Target>, made: seq<BatchEntry>)
    requires Carries(made, Sort(codec, Deduplicate(ResolveAll(local, rpc, ts))))
    ensures BatchAttests(local, rpc, ts, made)
  {
    var records := ResolveAll(local, rpc, ts);
    var unique := Deduplicate(records);
    var entries := Sort(codec, unique);
    DeduplicateKeepsLast(records);
    forall i | 0 <= i < |made|
      ensures EntryAttests(local, rpc, ts, made[i].stellarAddress, made[i].scoreData) {
      SameMembers(codec, unique, entries[i]);
      LastResolvedAttests(local, rpc, ts, entries[i]);
    }
    forall j | 0 <= j < |ts| ensures HasEntry(made, AddressOf(ts[j])) {
      ResolvedAt(local, rpc, ts, j);
      AddressIsThere(codec, records, records[j], made);
    }
    EachAddressOnce(codec, unique, made);
  }

  lemma AddressIsThere(codec: AddressCodec, records: seq<EntryRecord>, r: EntryRecord, made: seq<BatchEntry>)
    requires r in records
    requires var entries := Sort(codec, Deduplicate(records));
             && |made| == |entries|
             && forall i :: 0 <= i < |made| ==> made[i].stellarAddress == entries[i].stellarAddress
    ensures HasEntry(made, r.stellarAddress)
  {
    var unique := Deduplicate(records);
    DeduplicateKeepsLast(records);
    assert r.stellarAddress in Addresses(records);
    var e :| e in unique && e.stellarAddress == r.stellarAddress;
    SameMembers(codec, unique, e);
    var i :| 0 <= i < |made| && Sort(codec, unique)[i] == e;
    assert made[i].stellarAddress == r.stellarAddress;
  }

  lemma EachAddressOnce(codec: AddressCodec, unique: seq<EntryRecord>, made: seq<BatchEntry>)
    requires DistinctAddresses(unique) && |made| == |Sort(codec, unique)|
    requires forall i :: 0 <= i < |made| ==> made[i].stellarAddress == Sort(codec, unique)[i].stellarAddress
    ensures |set i: int | 0 <= i < |made| :: made[i].stellarAddress| == |made|
  {
    var entries := Sort(codec, unique);
    SortSorts(codec, unique);
    AddressCount(unique);
    var addresses := set i: int | 0 <= i < |made| :: made[i].stellarAddress;
    forall a ensures a in addresses <==> a in Addresses(unique) {
      if a in addresses {
        var i :| 0 <= i < |made| && made[i].stellarAddress == a;
        SameMembers(codec, unique, entries[i]);
      }
      if a in Addresses(unique) {
        var e :| e in unique && e.stellarAddress == a;
        SameMembers(codec, unique, e);
        var i :| 0 <= i < |made| && entries[i] == e;
        assert made[i].stellarAddress == a;
      }
    }
    assert addresses == Addresses(unique);
  }

  /** The header that was given, or else one that carries the state root as its bucket list. */
  ghost predicate HeadedBy(given: Option<HeaderProof>, made: HeaderProof, stateRootHash: string) {
    match given
    case Some(header) => made == header
    case None => made.bucketListHash == stateRootHash && made.ledgerVersion == 21
  }

  /** A batch generated for targets attests them. */
  lemma GeneratedAttests(h: HashFn, codec: AddressCodec, contractId: string, passphrase: string, local: LocalState,
                         rpc: Rpc, ts: seq<Target>, targetSeq: nat, header: Option<HeaderProof>)
    ensures var o := OutcomeFor(h, codec, contractId, passphrase, ResolveAll(local, rpc, ts), targetSeq, header);
            o.Generated? ==> BatchAttests(local, rpc, ts, o.batch.entries)
                             && DatedBy(o.batch.entries, targetSeq, o.batch.ledgerSeq)
                             && o.batch.contractId == contractId && o.batch.networkPassphrase == passphrase
                             && HeadedBy(header, o.batch.headerProof, o.batch.stateRootHash)
  {
    var records := ResolveAll(local, rpc, ts);
    OutcomeCarries(h, codec, contractId, passphrase, records, targetSeq, header);
    var o := OutcomeFor(h, codec, contractId, passphrase, records, targetSeq, header);
    if o.Generated? { SortedAttest(codec, local, rpc, ts, o.batch.entries); }
  }

  /** The batch's entries are the sorted ones. */
  lemma OutcomeCarries(h: HashFn, codec: AddressCodec, contractId: string, passphrase: string,
                       records: seq<EntryRecord>, targetSeq: nat, header: Option<HeaderProof>)
    ensures var o := OutcomeFor(h, codec, contractId, passphrase, records, targetSeq, header);
            var entries := Sort(codec, Deduplicate(records));
            o.Generated? ==> Carries(o.batch.entries, entries) && DatedBy(o.batch.entries, targetSeq, o.batch.ledgerSeq)
                             && o.batch.contractId == contractId && o.batch.networkPassphrase == passphrase
                             && HeadedBy(header, o.batch.headerProof, o.batch.stateRootHash)
  {
    var collected := Collected(codec, records, None);
    if records != [] && collected.Some? && codec(contractId).Some? {
      OutcomeOverCarries(h, codec, contractId, passphrase, codec(contractId).value, collected.value, targetSeq, header);
    }
  }

  ghost predicate Carries(made: seq<BatchEntry>, entries: seq<EntryRecord>) {
    && |made| == |entries|
    && forall i :: 0 <= i < |made| ==>
         made[i].stellarAddress == entries[i].stellarAddress && made[i].scoreData == entries[i].scoreData
  }

  /** The sequence asked for, or the newest of the scores' source ledgers, where 0 counts as 1. */
  ghost predicate DatedBy(made: seq<BatchEntry>, targetSeq: nat, ledgerSeq: nat) {
    if targetSeq != 0 then ledgerSeq == targetSeq
    else && 1 <= ledgerSeq && (forall i :: 0 <= i < |made| ==> made[i].scoreData.sourceLedgerSeq <= ledgerSeq)
         && exists i :: 0 <= i < |made| && ledgerSeq == if made[i].scoreData.sourceLedgerSeq == 0 then 1
                                                        else made[i].scoreData.sourceLedgerSeq
  }

  lemma OutcomeOverCarries(h: HashFn, codec: AddressCodec, contractId: string, passphrase: string, contract: Digest,
                           entries: seq<EntryRecord>, targetSeq: nat, header: Option<HeaderProof>)
    ensures var o := OutcomeOver(h, codec, contractId, passphrase, contract, entries, targetSeq, header);
            o.Generated? ==> Carries(o.batch.entries, entries) && DatedBy(o.batch.entries, targetSeq, o.batch.ledgerSeq)
                             && o.batch.contractId == contractId && o.batch.networkPassphrase == passphrase
                             && HeadedBy(header, o.batch.headerProof, o.batch.stateRootHash)
  {
    var o := OutcomeOver(h, codec, contractId, passphrase, contract, entries, targetSeq, header);
    if o.Generated? {
      BatchCarries(h, codec, contractId, passphrase, contract, entries, o.batch.ledgerSeq, header);
      if targetSeq == 0 { CarriedDate(o.batch.entries, entries, o.batch.ledgerSeq); }
    }
  }

  lemma BatchCarries(h: HashFn, codec: AddressCodec, contractId: string, passphrase: string, contract: Digest,
                     entries: seq<EntryRecord>, ledgerSeq: u32, header: Option<HeaderProof>)
    requires 0 < |entries| <= 0x1_0000_0000_0000_0000
    ensures Carries(BatchOver(h, codec, contractId, passphrase, contract, entries, ledgerSeq, header).entries, entries)
  {
  }

  lemma CarriedDate(made: seq<BatchEntry>, entries: seq<EntryRecord>, ledgerSeq: nat)
    requires entries != [] && Carries(made, entries) && ledgerSeq == GreatestSeq(entries)
    ensures DatedBy(made, 0, ledgerSeq)
  {
    var k := GreatestIsNewest(entries);
    assert made[k].scoreData == entries[k].scoreData;
    forall i | 0 <= i < |made| ensures 1 <= ledgerSeq && made[i].scoreData.sourceLedgerSeq <= ledgerSeq {
      assert EffectiveSeq(entries[i]) <= ledgerSeq;
    }
  }

  lemma {:induction false} GreatestIsNewest(entries: seq<EntryRecord>) returns (k: nat)
    requires entries != []
    ensures k < |entries| && GreatestSeq(entries) == EffectiveSeq(entries[k])
    ensures forall i :: 0 <= i < |entries| ==> EffectiveSeq(entries[i]) <= GreatestSeq(entries)
  {
    k := |entries| - 1;
    if k > 0 {
      var j := GreatestIsNewest(entries[..k]);
      if GreatestSeq(entries[..k]) > EffectiveSeq(entries[k]) { k := j; }
    }
  }

  // --------------------------------------------------------------- single proofs

  /** The first position of an address, or the length of the list. */
  function PositionOf(entries: seq<EntryRecord>, address: string): (k: nat)
    ensures k <= |entries| && (k < |entries| ==> entries[k].stellarAddress == address)
    ensures forall i :: 0 <= i < k ==> entries[i].stellarAddress != address
  {
    if entries == [] || entries[0].stellarAddress == address then 0 else 1 + PositionOf(entries[1..], address)
  }

  /** The proof about entry `k` of the sorted entries, carrying the fetched score. */
  function SingleOver(h: HashFn, codec: AddressCodec, contractId: string, passphrase: string, contract: Digest,
                      entries: seq<EntryRecord>, k: nat, score: ScoreData, ledgerSeq: u32, header: Option<HeaderProof>)
    : StateProof
    requires k < |entries|
  {
    var leaves := StateLeaves(h, codec, contract, entries);
    var root := Hex(Root(h, leaves));
    var headerProof := HeaderFor(header, root);
    StateProof(PROOF_VERSION, passphrase, ledgerSeq, Hex(HeaderHash(h, ledgerSeq, headerProof)), root, contractId,
               entries[k].stellarAddress, score, Hex(leaves[k]), AuditPath(h, leaves, k), headerProof)
  }

  function SingleOutcomeFor(h: HashFn, codec: AddressCodec, contractId: string, passphrase: string,
                            records: seq<EntryRecord>, target: EntryRecord, targetSeq: nat, header: Option<HeaderProof>)
    : SingleOutcome
  {
    var collected := Collected(codec, records, Some(target));
    if collected.None? || codec(contractId).None? then FailedSingle(BadAddress)
    else
      TargetInTree(codec, records, target);
      SingleOutcomeOver(h, codec, contractId, passphrase, codec(contractId).value, collected.value, target,
                        targetSeq, header)
  }

  function SingleOutcomeOver(h: HashFn, codec: AddressCodec, contractId: string, passphrase: string, contract: Digest,
                             entries: seq<EntryRecord>, target: EntryRecord, targetSeq: nat,
                             header: Option<HeaderProof>)
    : SingleOutcome
    requires PositionOf(entries, target.stellarAddress) < |entries|
  {
    var ledgerSeq := if targetSeq != 0 then targetSeq else EffectiveSeq(target);
    if ledgerSeq >= 0x1_0000_0000 then FailedSingle(OutOfRange)
    else GeneratedSingle(SingleOver(h, codec, contractId, passphrase, contract, entries,
                                    PositionOf(entries, target.stellarAddress), target.scoreData, ledgerSeq, header))
  }

  /** The target is found among the sorted entries. */
  lemma TargetInTree(codec: AddressCodec, records: seq<EntryRecord>, target: EntryRecord)
    ensures Collected(codec, records, Some(target)).Some? ==>
              var entries := Collected(codec, records, Some(target)).value;
              var k := PositionOf(entries, target.stellarAddress);
              k < |entries| && entries[k] in WithExtra(Deduplicate(records), target)
  {
    var unique := WithExtra(Deduplicate(records), target);
    var entries := Sort(codec, unique);
    SortSorts(codec, unique);
    var e :| e in unique && e.stellarAddress == target.stellarAddress;
    assert e in multiset(unique);
    assert e in multiset(entries);
    assert e in entries;
    var k := PositionOf(entries, target.stellarAddress);
    assert entries[k] in multiset(entries);
    assert entries[k] in multiset(unique);
  }

  /** A single proof is about its address, with the score that is looked up. */
  lemma SingleAttests(h: HashFn, codec: AddressCodec, contractId: string, passphrase: string,
                      records: seq<EntryRecord>, local: LocalState, rpc: Rpc, address: string, targetSeq: nat,
                      header: Option<HeaderProof>)
    ensures var target := EntryRecord(address, ScoreOf(local, rpc, address));
            var o := SingleOutcomeFor(h, codec, contractId, passphrase, records, target, targetSeq, header);
            o.GeneratedSingle? ==>
              && o.proof.stellarAddress == address && LooksUp(local, rpc, address, o.proof.scoreData)
              && o.proof.contractId == contractId && o.proof.networkPassphrase == passphrase
              && HeadedBy(header, o.proof.headerProof, o.proof.stateRootHash)
              && o.proof.ledgerSeq == if targetSeq != 0 then targetSeq
                                      else if o.proof.scoreData.sourceLedgerSeq == 0 then 1
                                      else o.proof.scoreData.sourceLedgerSeq
  {
    TargetInTree(codec, records, EntryRecord(address, ScoreOf(local, rpc, address)));
  }

  class StateProofGenerator {
    const contractId: string
    const networkPassphrase: string
    const rpc: Rpc
    var localState: LocalState

    constructor (contractId: string, networkPassphrase: string, rpc: Rpc)
      ensures this.contractId == contractId && this.networkPassphrase == networkPassphrase && this.rpc == rpc
      ensures localState == map[]
    {
      this.contractId := contractId;
      this.networkPassphrase := networkPassphrase;
      this.rpc := rpc;
      localState := map[];
    }

    method SetScoreData(address: string, score: ScoreData)
      modifies this
      ensures localState == old(localState)[address := score]
    {
      localState := localState[address := score];
    }

    method FetchScoreData(address: string) returns (score: ScoreData)
      modifies this
      ensures score == ScoreOf(old(localState), rpc, address) && localState == Cached(old(localState), rpc, address)
      ensures LooksUp(old(localState), rpc, address, score)
      ensures forall a :: a in old(localState) ==> a in localState && localState[a] == old(localState)[a]
    {
      if address in localState {
        return localState[address];
      }
      var answer := rpc(address);
      if answer.Some? {
        localState := localState[address := answer.value];
        return answer.value;
      }
      score := DEFAULT_SCORE;
    }

    /** `collectSortedEntries`; `None` is a throw from the comparator or the leaf hash. */
    method CollectSortedEntries(codec: AddressCodec, records: seq<EntryRecord>, extra: Option<EntryRecord>)
      returns (r: Option<seq<EntryRecord>>)
      ensures r == Collected(codec, records, extra)
    {
      var unique: seq<EntryRecord> := [];
      for i := 0 to |records|
        invariant unique == Deduplicate(records[..i])
      {
        assert records[..i + 1][..i] == records[..i];
        unique := MapSet(unique, records[i]);
      }
      assert records[..|records|] == records;
      if extra.Some? {
        unique := WithExtra(unique, extra.value);
      }
      if !Decode(codec, unique) {
        return None;
      }
      r := Some(Sort(codec, unique));
    }

    method ResolveTargets(targets: seq<Target>) returns (resolved: seq<EntryRecord>)
      modifies this
      ensures resolved == ResolveAll(old(localState), rpc, targets)
      ensures localState == CachedAll(old(localState), rpc, targets)
    {
      resolved := [];
      for i := 0 to |targets|
        invariant resolved == ResolveAll(old(localState), rpc, targets[..i])
        invariant localState == CachedAll(old(localState), rpc, targets[..i])
      {
        assert targets[..i + 1][..i] == targets[..i];
        match targets[i] {
          case Address(a) =>
            CachedAllKeepsScores(old(localState), rpc, targets[..i], a);
            var score := FetchScoreData(a);
            resolved := resolved + [EntryRecord(a, score)];
          case Record(e) =>
            resolved := resolved + [e];
        }
      }
      assert targets[..|targets|] == targets;
    }

    /** `generateProof`; a zero target sequence is the absent option. */
    method GenerateProof(h: HashFn, codec: AddressCodec, address: string, allEntries: seq<EntryRecord>, targetSeq: nat,
                         header: Option<HeaderProof>)
      returns (r: SingleOutcome)
      modifies this
      ensures r == SingleOutcomeFor(h, codec, contractId, networkPassphrase, allEntries,
                                    EntryRecord(address, ScoreOf(old(localState), rpc, address)), targetSeq, header)
      ensures r.GeneratedSingle? ==>
                && r.proof.stellarAddress == address && LooksUp(old(localState), rpc, address, r.proof.scoreData)
                && r.proof.contractId == contractId && r.proof.networkPassphrase == networkPassphrase
                && HeadedBy(header, r.proof.headerProof, r.proof.stateRootHash)
                && r.proof.ledgerSeq == if targetSeq != 0 then targetSeq
                                        else if r.proof.scoreData.sourceLedgerSeq == 0 then 1
                                        else r.proof.scoreData.sourceLedgerSeq
      ensures localState == Cached(old(localState), rpc, address)
    {
      SingleAttests(h, codec, contractId, networkPassphrase, allEntries, localState, rpc, address, targetSeq, header);
      var score := FetchScoreData(address);
      var target := EntryRecord(address, score);
      var collected := CollectSortedEntries(codec, allEntries, Some(target));
      if collected.None? || codec(contractId).None? {
        return FailedSingle(BadAddress);
      }
      TargetInTree(codec, allEntries, target);
      r := ProveOver(h, codec, codec(contractId).value, collected.value, target, targetSeq, header);
    }

    method ProveOver(h: HashFn, codec: AddressCodec, contract: Digest, entries: seq<EntryRecord>, target: EntryRecord,
                     targetSeq: nat, header: Option<HeaderProof>)
      returns (r: SingleOutcome)
      requires PositionOf(entries, target.stellarAddress) < |entries|
      ensures r == SingleOutcomeOver(h, codec, contractId, networkPassphrase, contract, entries, target, targetSeq,
                                     header)
    {
      var ledgerSeq := if targetSeq != 0 then targetSeq else EffectiveSeq(target);
      if ledgerSeq >= 0x1_0000_0000 {
        return FailedSingle(OutOfRange);
      }
      var leaves := StateLeaves(h, codec, contract, entries);
      var tree := new MerkleTree(h, leaves);
      var targetIndex := PositionOf(entries, target.stellarAddress);
      var path := tree.GetProof(targetIndex);
      var root := tree.GetRoot();
      var headerProof := HeaderFor(header, Hex(root));
      r := GeneratedSingle(StateProof(
        PROOF_VERSION, networkPassphrase, ledgerSeq, Hex(HeaderHash(h, ledgerSeq, headerProof)), Hex(root), contractId,
        target.stellarAddress, target.scoreData, Hex(leaves[targetIndex]), path.value, headerProof));
    }

    /** `generateBatchProof`. */
    method GenerateBatchProof(h: HashFn, codec: AddressCodec, targets: seq<Target>, targetSeq: nat,
                              header: Option<HeaderProof>)
      returns (r: Outcome)
      modifies this
      ensures r == OutcomeFor(h, codec, contractId, networkPassphrase, ResolveAll(old(localState), rpc, targets),
                              targetSeq, header)
      ensures r.Generated? ==>
                && BatchAttests(old(localState), rpc, targets, r.batch.entries)
                && DatedBy(r.batch.entries, targetSeq, r.batch.ledgerSeq)
                && r.batch.contractId == contractId && r.batch.networkPassphrase == networkPassphrase
                && HeadedBy(header, r.batch.headerProof, r.batch.stateRootHash)
      ensures localState == CachedAll(old(localState), rpc, targets)
    {
      if |targets| == 0 {
        return Failed(NoTargets);
      }
      GeneratedAttests(h, codec, contractId, networkPassphrase, localState, rpc, targets, targetSeq, header);
      var resolved := ResolveTargets(targets);
      var collected := CollectSortedEntries(codec, resolved, None);
      if collected.None? || codec(contractId).None? {
        return Failed(BadAddress);
      }
      r := GenerateOver(h, codec, codec(contractId).value, collected.value, targetSeq, header);
    }

    method GenerateOver(h: HashFn, codec: AddressCodec, contract: Digest, entries: seq<EntryRecord>, targetSeq: nat,
                        header: Option<HeaderProof>)
      returns (r: Outcome)
      ensures r == OutcomeOver(h, codec, contractId, networkPassphrase, contract, entries, targetSeq, header)
    {
      if entries == [] {
        return Failed(NoTargets);
      }
      var ledgerSeq := if targetSeq != 0 then targetSeq else GreatestSeq(entries);
      if ledgerSeq >= 0x1_0000_0000 || |entries| > 0x1_0000_0000_0000_0000 {
        return Failed(OutOfRange);
      }
      var batch := Assemble(h, codec, contract, entries, ledgerSeq, header);
      r := Generated(batch);
    }

    /** The aggregation tree's leaves, pushed one per entry. */
    method BuildAggregationLeaves(h: HashFn, codec: AddressCodec, contract: Digest, entries: seq<EntryRecord>,
                                  leaves: seq<Digest>)
      returns (aggLeaves: seq<Digest>)
      requires |entries| <= 0x1_0000_0000_0000_0000 && leaves == StateLeaves(h, codec, contract, entries)
      ensures aggLeaves == AggregationLeaves(h, codec, contract, entries)
    {
      aggLeaves := [];
      for i := 0 to |entries|
        invariant |aggLeaves| == i
        invariant forall j :: 0 <= j < i ==> aggLeaves[j] == AggregateLeaf(h, codec, contract, entries, j)
      {
        aggLeaves := aggLeaves + [AggregationLeaf(h, i, Key(codec, entries[i]), leaves[i], entries[i].scoreData)];
      }
    }

    /** `envelopes.map(…)`: the entries with their paths. */
    method PackEntries(h: HashFn, codec: AddressCodec, contract: Digest, entries: seq<EntryRecord>, leaves: seq<Digest>,
                       stateProofs: seq<seq<ProofNode>>, aggProofs: seq<seq<ProofNode>>)
      returns (out: seq<BatchEntry>)
      requires |entries| <= 0x1_0000_0000_0000_0000 && leaves == StateLeaves(h, codec, contract, entries)
      requires |stateProofs| == |aggProofs| == |entries|
      requires forall i :: 0 <= i < |entries| ==> stateProofs[i] == AuditPath(h, leaves, i)
      requires var aggLeaves := AggregationLeaves(h, codec, contract, entries);
               forall i :: 0 <= i < |entries| ==> aggProofs[i] == AuditPath(h, aggLeaves, i)
      ensures |out| == |entries|
      ensures forall i :: 0 <= i < |entries| ==> out[i] == BatchEntryFor(h, codec, contract, entries, i)
    {
      out := [];
      for i := 0 to |entries|
        invariant |out| == i
        invariant forall j :: 0 <= j < i ==> out[j] == BatchEntryFor(h, codec, contract, entries, j)
      {
        out := out + [BatchEntry(i, entries[i].stellarAddress, entries[i].scoreData, Hex(leaves[i]),
                                 stateProofs[i], aggProofs[i])];
      }
    }

    /** Both trees, their audit paths and the header, as the generator puts them together. */
    method Assemble(h: HashFn, codec: AddressCodec, contract: Digest, entries: seq<EntryRecord>, ledgerSeq: u32,
                    header: Option<HeaderProof>)
      returns (b: BatchProof)
      requires 0 < |entries| <= 0x1_0000_0000_0000_0000
      ensures b == BatchOver(h, codec, contractId, networkPassphrase, contract, entries, ledgerSeq, header)
    {
      var leaves := StateLeaves(h, codec, contract, entries);
      var tree := new MerkleTree(h, leaves);
      var stateProofs := tree.GetAllProofs();
      var root := tree.GetRoot();
      var aggLeaves := BuildAggregationLeaves(h, codec, contract, entries, leaves);
      var aggTree := new MerkleTree(h, aggLeaves);
      var aggProofs := aggTree.GetAllProofs();
      var aggRoot := aggTree.GetRoot();
      var headerProof := HeaderFor(header, Hex(root));
      var out := PackEntries(h, codec, contract, entries, leaves, stateProofs, aggProofs);
      b := BatchProof(BATCH_PROOF_VERSION, networkPassphrase, ledgerSeq, Hex(HeaderHash(h, ledgerSeq, headerProof)),
                      Hex(root), contractId, Hex(aggRoot), headerProof, out);
    }
  }

  // ------------------------------------------------------------- completeness

  /** Every state and aggregation path of an assembled batch checks. */
  lemma AssembledEntryProved(h: HashFn, codec: AddressCodec, contractId: string, passphrase: string, contract: Digest,
                             entries: seq<EntryRecord>, ledgerSeq: u32, header: Option<HeaderProof>, i: nat)
    requires i < |entries| <= 0x1_0000_0000_0000_0000 && Decode(codec, entries) && codec(contractId) == Some(contract)
    ensures EntryProved(h, codec, BatchOver(h, codec, contractId, passphrase, contract, entries, ledgerSeq, header), i)
  {
    var leaves, aggLeaves := StateLeaves(h, codec, contract, entries), AggregationLeaves(h, codec, contract, entries);
    AuditPathFolds(h, leaves, i);
    AuditPathFolds(h, aggLeaves, i);
    HexRoundTrip(Root(h, leaves));
    HexRoundTrip(Root(h, aggLeaves));
    HexComparesAsDigits(leaves[i]);
  }

  lemma AssembledLeaves(h: HashFn, codec: AddressCodec, contractId: string, passphrase: string, contract: Digest,
                        entries: seq<EntryRecord>, ledgerSeq: u32, header: Option<HeaderProof>)
    requires 0 < |entries| <= 0x1_0000_0000_0000_0000
    ensures LeafBytes(BatchOver(h, codec, contractId, passphrase, contract, entries, ledgerSeq, header).entries)
            == StateLeaves(h, codec, contract, entries)
  {
    var leaves := StateLeaves(h, codec, contract, entries);
    forall i | 0 <= i < |leaves| ensures HexBytes(Hex(leaves[i])) == leaves[i] { HexRoundTrip(leaves[i]); }
  }

  lemma AssembledAcceptedIff(h: HashFn, codec: AddressCodec, contractId: string, passphrase: string, contract: Digest,
                             entries: seq<EntryRecord>, ledgerSeq: u32, header: Option<HeaderProof>)
    requires 0 < |entries| <= 0x1_0000_0000_0000_0000 && Decode(codec, entries) && codec(contractId) == Some(contract)
    ensures var b := BatchOver(h, codec, contractId, passphrase, contract, entries, ledgerSeq, header);
            Accepts(h, codec, b, b.ledgerHeaderHash) <==>
              && Increasing(codec, entries)
              && Same(AsText, b.headerProof.bucketListHash, b.stateRootHash)
  {
    var b := BatchOver(h, codec, contractId, passphrase, contract, entries, ledgerSeq, header);
    AssembledHeader(h, codec, contractId, passphrase, contract, entries, ledgerSeq, header);
    AssembledEntriesProved(h, codec, contractId, passphrase, contract, entries, ledgerSeq, header);
    OrderCarriesOver(codec, entries, b.entries);
    AcceptsIffOrderedAndCarried(h, codec, b, b.ledgerHeaderHash);
  }

  lemma AssembledEntriesProved(h: HashFn, codec: AddressCodec, contractId: string, passphrase: string, contract: Digest,
                               entries: seq<EntryRecord>, ledgerSeq: u32, header: Option<HeaderProof>)
    requires 0 < |entries| <= 0x1_0000_0000_0000_0000 && Decode(codec, entries) && codec(contractId) == Some(contract)
    ensures var b := BatchOver(h, codec, contractId, passphrase, contract, entries, ledgerSeq, header);
            Decodable(codec, b) && forall i :: 0 <= i < |b.entries| ==> EntryProved(h, codec, b, i)
  {
    var b := BatchOver(h, codec, contractId, passphrase, contract, entries, ledgerSeq, header);
    forall i | 0 <= i < |b.entries| ensures EntryProved(h, codec, b, i) {
      AssembledEntryProved(h, codec, contractId, passphrase, contract, entries, ledgerSeq, header, i);
    }
  }

  lemma AssembledHeader(h: HashFn, codec: AddressCodec, contractId: string, passphrase: string, contract: Digest,
                        entries: seq<EntryRecord>, ledgerSeq: u32, header: Option<HeaderProof>)
    requires 0 < |entries| <= 0x1_0000_0000_0000_0000
    ensures var b := BatchOver(h, codec, contractId, passphrase, contract, entries, ledgerSeq, header);
            && Root(h, LeafBytes(b.entries)) == HexBytes(b.stateRootHash) && b.ledgerHeaderHash != ""
            && Same(AsText, ToHex(HeaderHash(h, b.ledgerSeq, b.headerProof)), b.ledgerHeaderHash)
            && Same(AsText, b.ledgerHeaderHash, b.ledgerHeaderHash)
  {
    var b := BatchOver(h, codec, contractId, passphrase, contract, entries, ledgerSeq, header);
    AssembledLeaves(h, codec, contractId, passphrase, contract, entries, ledgerSeq, header);
    HexRoundTrip(Root(h, StateLeaves(h, codec, contract, entries)));
    HexComparesAsDigits(HeaderHash(h, ledgerSeq, b.headerProof));
  }

  lemma OrderCarriesOver(codec: AddressCodec, entries: seq<EntryRecord>, made: seq<BatchEntry>)
    requires Decode(codec, entries) && |made| == |entries|
    requires forall i :: 0 <= i < |entries| ==> made[i].stellarAddress == entries[i].stellarAddress
    ensures StrictlySorted(codec, made) <==> Increasing(codec, entries)
  {
    forall i, j | 0 <= i < j < |entries|
      ensures Before(codec, made[i], made[j]) <==> Compare(Key(codec, entries[i]), Key(codec, entries[j])) < 0
    {
      assert made[i].stellarAddress == entries[i].stellarAddress && made[j].stellarAddress == entries[j].stellarAddress;
    }
  }

  lemma SortedDecode(codec: AddressCodec, entries: seq<EntryRecord>)
    requires Decode(codec, entries)
    ensures Decode(codec, Sort(codec, entries))
  {
    SortSorts(codec, entries);
    var s := Sort(codec, entries);
    forall i | 0 <= i < |s| ensures codec(s[i].stellarAddress).Some? {
      assert s[i] in multiset(s);
      assert s[i] in multiset(entries);
      assert s[i] in entries;
    }
  }

  /**
   A batch generated under the default header is accepted for its own header hash if and
   only if the deduplicated addresses encode to pairwise different bytes.
   */
  lemma GeneratedAcceptedIffDistinct(h: HashFn, codec: AddressCodec, contractId: string, passphrase: string,
                                     records: seq<EntryRecord>, targetSeq: nat)
    ensures var o := OutcomeFor(h, codec, contractId, passphrase, records, targetSeq, None);
            o.Generated? ==>
              (BatchVerdictOf(h, codec, AsText, o.batch, Some(o.batch.ledgerHeaderHash)).Valid?
               <==> DistinctKeys(codec, Deduplicate(records)))
  {
    var o := OutcomeFor(h, codec, contractId, passphrase, records, targetSeq, None);
    if o.Generated? {
      var unique := Deduplicate(records);
      var entries := Sort(codec, unique);
      SortSorts(codec, unique);
      SortedDecode(codec, unique);
      StrictIffDistinct(codec, unique);
      AssembledAcceptedIff(h, codec, contractId, passphrase, codec(contractId).value, entries, o.batch.ledgerSeq, None);
      VerdictIffAccepts(h, codec, o.batch, o.batch.ledgerHeaderHash);
    }
  }

  /** Generated under the default header, a batch has no short field: its header binds it. */
  lemma GeneratedTextsAreWhole(h: HashFn, codec: AddressCodec, contractId: string, passphrase: string,
                               records: seq<EntryRecord>, targetSeq: nat)
    ensures var o := OutcomeFor(h, codec, contractId, passphrase, records, targetSeq, None);
            o.Generated? ==> WholeTexts(o.batch)
  {
    var o := OutcomeFor(h, codec, contractId, passphrase, records, targetSeq, None);
    if o.Generated? {
      var contract, entries := codec(contractId).value, Collected(codec, records, None).value;
      var leaves := StateLeaves(h, codec, contract, entries);
      HexRoundTrip(Root(h, leaves));
      forall i | 0 <= i < |entries| ensures |Strip(Hex(leaves[i]))| == 64 { HexComparesAsDigits(leaves[i]); }
    }
  }

  ghost function Addresses(entries: seq<EntryRecord>): set<string> {
    set e | e in entries :: e.stellarAddress
  }

  ghost predicate DistinctAddresses(entries: seq<EntryRecord>) {
    forall i, j :: 0 <= i < j < |entries| ==> entries[i].stellarAddress != entries[j].stellarAddress
  }

  /** The record at some position after which its address does not come up again. */
  ghost predicate LastOfItsAddress(records: seq<EntryRecord>, e: EntryRecord) {
    exists k :: 0 <= k < |records| && records[k] == e && NotLater(records, k, e.stellarAddress)
  }

  ghost predicate NotLater(records: seq<EntryRecord>, k: nat, address: string) {
    forall j :: k < j < |records| ==> records[j].stellarAddress != address
  }

  /** Deduplication keeps exactly the addresses asked for, each once and with its last value. */
  lemma {:induction false} DeduplicateKeepsLast(records: seq<EntryRecord>)
    ensures DistinctAddresses(Deduplicate(records))
    ensures Addresses(Deduplicate(records)) == Addresses(records)
    ensures forall e :: e in Deduplicate(records) ==> LastOfItsAddress(records, e)
  {
    if records != [] {
      var k := |records| - 1;
      var front, r := records[..k], records[k];
      var d := Deduplicate(front);
      DeduplicateKeepsLast(front);
      MapSetReplaces(d, r);
      assert records == front + [r];
      assert Addresses(records) == Addresses(front) + {r.stellarAddress};
      forall e | e in Deduplicate(records) ensures LastOfItsAddress(records, e) {
        LastCarriesOver(front, r, e);
      }
    }
  }

  lemma LastCarriesOver(front: seq<EntryRecord>, r: EntryRecord, e: EntryRecord)
    requires e == r || (e.stellarAddress != r.stellarAddress && LastOfItsAddress(front, e))
    ensures LastOfItsAddress(front + [r], e)
  {
    var records, k := front + [r], |front|;
    if e == r {
      assert records[k] == e && NotLater(records, k, e.stellarAddress);
    } else {
      var i :| 0 <= i < |front| && front[i] == e && NotLater(front, i, e.stellarAddress);
      assert records[i] == e && NotLater(records, i, e.stellarAddress);
    }
  }

  lemma {:induction false} MapSetMembers(d: seq<EntryRecord>, r: EntryRecord)
    requires DistinctAddresses(d)
    ensures DistinctAddresses(MapSet(d, r))
    ensures forall e :: e in MapSet(d, r) <==> e == r || (e in d && e.stellarAddress != r.stellarAddress)
  {
    var m := MapSet(d, r);
    if d != [] {
      assert d == [d[0]] + d[1..];
      if d[0].stellarAddress != r.stellarAddress {
        MapSetMembers(d[1..], r);
        forall j | 0 < j < |m| ensures m[j].stellarAddress != m[0].stellarAddress {
          assert m[j] == MapSet(d[1..], r)[j - 1];
          assert m[j] in MapSet(d[1..], r);
        }
      }
    }
  }

  lemma MapSetReplaces(d: seq<EntryRecord>, r: EntryRecord)
    requires DistinctAddresses(d)
    ensures DistinctAddresses(MapSet(d, r))
    ensures forall e :: e in MapSet(d, r) <==> e == r || (e in d && e.stellarAddress != r.stellarAddress)
    ensures Addresses(MapSet(d, r)) == Addresses(d) + {r.stellarAddress}
  {
    MapSetMembers(d, r);
    var m := MapSet(d, r);
    forall a | a in Addresses(d) + {r.stellarAddress} ensures a in Addresses(m) {
      if a == r.stellarAddress {
        assert r in m;
      } else {
        var e :| e in d && e.stellarAddress == a;
        assert e in m;
      }
    }
  }

  // ---------------------------------------------------- single proofs, accepted

  /** A single proof under the default header is accepted exactly when its score hashes to the tree's leaf. */
  lemma SingleOverAcceptedIff(h: HashFn, codec: AddressCodec, contractId: string, passphrase: string, contract: Digest,
                              entries: seq<EntryRecord>, k: nat, score: ScoreData, ledgerSeq: u32)
    requires k < |entries| && Decode(codec, entries) && codec(contractId) == Some(contract)
    ensures var p := SingleOver(h, codec, contractId, passphrase, contract, entries, k, score, ledgerSeq, None);
            SingleAccepts(h, codec, p, p.ledgerHeaderHash)
            <==> LeafHash(h, contract, Key(codec, entries[k]), score) == StateLeaf(h, codec, contract, entries[k])
  {
    var p := SingleOver(h, codec, contractId, passphrase, contract, entries, k, score, ledgerSeq, None);
    var leaves := StateLeaves(h, codec, contract, entries);
    var leaf := LeafHash(h, contract, Key(codec, entries[k]), score);
    HexRoundTrip(leaves[k]);
    HexRoundTrip(Root(h, leaves));
    HexComparesAsDigits(leaves[k]);
    HexComparesAsDigits(HeaderHash(h, ledgerSeq, p.headerProof));
    NormalizedIffDigest(leaf, Hex(leaves[k]));
    AuditPathFolds(h, leaves, k);
    SingleVerdictIffHolds(h, codec, p, p.ledgerHeaderHash);
    assert SinglePayload(codec, p) == LeafPayload(contract, Key(codec, entries[k]), score);
  }

  /** Every record of the target's address that the list holds carries the target's score. */
  ghost predicate AgreesOn(records: seq<EntryRecord>, target: EntryRecord) {
    forall e :: e in Deduplicate(records) && e.stellarAddress == target.stellarAddress ==>
                  e.scoreData == target.scoreData
  }

  lemma OneRecordEach(entries: seq<EntryRecord>, i: nat, j: nat)
    requires DistinctAddresses(entries) && i < |entries| && j < |entries|
    requires entries[i].stellarAddress == entries[j].stellarAddress
    ensures i == j
  {
  }

  /** The tree holds the list's record of the target, or the target itself when the list has none. */
  lemma TreeHolds(codec: AddressCodec, records: seq<EntryRecord>, target: EntryRecord)
    requires Collected(codec, records, Some(target)).Some?
    ensures var entries := Collected(codec, records, Some(target)).value;
            var k := PositionOf(entries, target.stellarAddress);
            k < |entries| && (entries[k].scoreData == target.scoreData <==> AgreesOn(records, target))
  {
    var d := Deduplicate(records);
    var entries := Collected(codec, records, Some(target)).value;
    var k := PositionOf(entries, target.stellarAddress);
    TargetInTree(codec, records, target);
    DeduplicateKeepsLast(records);
    if entries[k] in d {
      forall e | e in d && e.stellarAddress == target.stellarAddress ensures e == entries[k] {
        var i :| 0 <= i < |d| && d[i] == e;
        var j :| 0 <= j < |d| && d[j] == entries[k];
        OneRecordEach(d, i, j);
      }
    }
  }

  /** The leaf payloads of the target with its own score and with those of the list. */
  function TargetPayloads(codec: AddressCodec, contract: Digest, records: seq<EntryRecord>, target: EntryRecord)
    : set<Buffer>
  {
    set e | e in Deduplicate(records) + [target] :: LeafPayload(contract, Key(codec, target), e.scoreData)
  }

  /**
   A single proof generated under the default header is accepted for its own header hash if
   and only if the entry list it was given agrees with the fetched score of its address, unless
   the payloads of two scores collide: the generator does not compare the scores.
   */
  lemma GeneratedSingleAcceptedIffAgrees(h: HashFn, codec: AddressCodec, contractId: string, passphrase: string,
                                         records: seq<EntryRecord>, target: EntryRecord, targetSeq: nat)
    requires codec(contractId).Some? ==>
               CollisionFree(h, TargetPayloads(codec, codec(contractId).value, records, target))
    ensures var o := SingleOutcomeFor(h, codec, contractId, passphrase, records, target, targetSeq, None);
            o.GeneratedSingle? ==>
              (SingleAccepts(h, codec, o.proof, o.proof.ledgerHeaderHash) <==> AgreesOn(records, target))
  {
    var o := SingleOutcomeFor(h, codec, contractId, passphrase, records, target, targetSeq, None);
    if o.GeneratedSingle? {
      var unique := WithExtra(Deduplicate(records), target);
      var entries := Sort(codec, unique);
      var k := PositionOf(entries, target.stellarAddress);
      SortedDecode(codec, unique);
      TargetInTree(codec, records, target);
      TreeHolds(codec, records, target);
      SingleOverAcceptedIff(h, codec, contractId, passphrase, codec(contractId).value, entries, k, target.scoreData,
                            o.proof.ledgerSeq);
      ScoresDiffer(h, codec, codec(contractId).value, records, target, entries[k]);
    }
  }

  lemma ScoresDiffer(h: HashFn, codec: AddressCodec, contract: Digest, records: seq<EntryRecord>, target: EntryRecord,
                     e: EntryRecord)
    requires e in WithExtra(Deduplicate(records), target) && e.stellarAddress == target.stellarAddress
    requires CollisionFree(h, TargetPayloads(codec, contract, records, target))
    ensures LeafHash(h, contract, Key(codec, e), target.scoreData) == StateLeaf(h, codec, contract, e)
            <==> e.scoreData == target.scoreData
  {
    var key := Key(codec, target);
    assert Key(codec, e) == key;
    assert target in Deduplicate(records) + [target] && e in Deduplicate(records) + [target];
    var x, y := LeafPayload(contract, key, target.scoreData), LeafPayload(contract, key, e.scoreData);
    var payloads := TargetPayloads(codec, contract, records, target);
    assert x in payloads && y in payloads;
    if x == y { LeafPayloadInjective(contract, key, target.scoreData, contract, key, e.scoreData); }
  }

  /** A list with another score for the address is taken all the same, and the proof is refused. */
  lemma DisagreeingListIsRefused(h: HashFn, codec: AddressCodec, contractId: string, address: string,
                                 listed: ScoreData, fetched: ScoreData)
    requires codec(contractId).Some? && codec(address).Some? && listed != fetched
    requires CollisionFree(h, TargetPayloads(codec, codec(contractId).value, [EntryRecord(address, listed)],
                                             EntryRecord(address, fetched)))
    ensures var o := SingleOutcomeFor(h, codec, contractId, "", [EntryRecord(address, listed)],
                                      EntryRecord(address, fetched), 1, None);
            o.GeneratedSingle? && !SingleAccepts(h, codec, o.proof, o.proof.ledgerHeaderHash)
  {
    var records, target := [EntryRecord(address, listed)], EntryRecord(address, fetched);
    assert records[..0] == [];
    assert Deduplicate(records) == records;
    assert WithExtra(records, target) == records by { assert records[0] in records; }
    GeneratedSingleAcceptedIffAgrees(h, codec, contractId, "", records, target, 1);
    assert records[0] in Deduplicate(records);
  }
}
