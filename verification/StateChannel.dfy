/**
 The two-party state channel of `contracts/state_channel/src/lib.rs`: collateral is locked
 on opening, a dispute replaces the agreed balances, and closing pays them out.
 */
module StateChannels {
  import opened Wrappers
  import opened Integers
  import opened FiniteSums

  predicate FitsI128(x: int) {
    0 <= x + I128_LIMIT && x < I128_LIMIT
  }

  datatype ChannelStatus = Open | Disputed | Closed

  datatype Channel = Channel(
    id: u64, partyA: Address, partyB: Address, token: Address, balanceA: i128, balanceB: i128,
    rulesetContract: Address, status: ChannelStatus, disputeWindow: u64, disputeStartedAt: u64,
    disputer: Option<Address>, latestNonce: u64, latestBalanceA: i128, latestBalanceB: i128, latestStateHash: nat)

  datatype StateProof = StateProof(channelId: u64, nonce: u64, balanceA: i128, balanceB: i128, stateHash: nat)

  datatype Error =
    | ChannelNotFound | ChannelAlreadyClosed | ChannelNotInDispute | DisputeWindowActive | DisputeWindowExpired
    | Unauthorized | InvalidNonce | InvalidStateProof | ZeroAmount | DisputerCannotChallengeSelf
    | NotSigned | TransferFailed | Overflow

  type Outcome<+T> = Result<T, Error>

  /** The clock, the authorising addresses, whether incoming transfers succeed, and the ruleset's verdict. */
  datatype Env = Env(now: u64, signers: set<Address>, funded: bool, transitionValid: bool)

  /** An outgoing transfer of the channel's token. */
  datatype Transfer = Transfer(to: Address, amount: nat)

  /** `held` is the contract's own balance per token; `paid` lists what each channel has paid to whom. */
  datatype State = State(nextId: u64, channels: map<u64, Channel>, held: map<Address, nat>,
                         paid: map<u64, seq<Transfer>>)

  const GENESIS: State := State(1, map[], map[], map[])

  function Held(held: map<Address, nat>, token: Address): nat {
    if token in held then held[token] else 0
  }

  function Positive(x: int): nat {
    if x > 0 then x else 0
  }

  datatype OpenParams = OpenParams(
    partyA: Address, partyB: Address, token: Address, amountA: i128, amountB: i128,
    disputeWindow: u64, rulesetContract: Address)

  function OpenChannel(s: State, env: Env, p: OpenParams): Outcome<State> {
    if p.amountA <= 0 && p.amountB <= 0 then Err(ZeroAmount)
    else if p.partyA !in env.signers || p.partyB !in env.signers then Err(NotSigned)
    else if !env.funded then Err(TransferFailed)
    else if s.nextId == U64_MAX then Err(Overflow)
    else
      var c := Channel(s.nextId, p.partyA, p.partyB, p.token, p.amountA, p.amountB, p.rulesetContract, Open,
                       p.disputeWindow, 0, None, 0, p.amountA, p.amountB, 0);
      Ok(State(s.nextId + 1, s.channels[s.nextId := c],
               s.held[p.token := Held(s.held, p.token) + Positive(p.amountA) + Positive(p.amountB)],
               s.paid[s.nextId := []]))
  }

  predicate IsParty(c: Channel, a: Address) {
    a == c.partyA || a == c.partyB
  }

  function DisputeError(s: State, env: Env, caller: Address, id: u64, proof: StateProof): Option<Error> {
    if caller !in env.signers then Some(NotSigned)
    else if id !in s.channels then Some(ChannelNotFound)
    else
      var c := s.channels[id];
      if c.status == Closed then Some(ChannelAlreadyClosed)
      else if !IsParty(c, caller) then Some(Unauthorized)
      else if proof.channelId != id then Some(InvalidStateProof)
      else if proof.nonce <= c.latestNonce then Some(InvalidNonce)
      else if !FitsI128(proof.balanceA + proof.balanceB) || !FitsI128(c.balanceA + c.balanceB) then Some(Overflow)
      else if proof.balanceA + proof.balanceB != c.balanceA + c.balanceB then Some(InvalidStateProof)
      else if c.status == Disputed && c.disputeStartedAt + c.disputeWindow > U64_MAX then Some(Overflow)
      else if c.status == Disputed && env.now >= c.disputeStartedAt + c.disputeWindow then Some(DisputeWindowExpired)
      else None
  }

  function DisputeChannel(s: State, env: Env, caller: Address, id: u64, proof: StateProof): Outcome<State> {
    var e := DisputeError(s, env, caller, id, proof);
    if e.Some? then Err(e.value)
    else
      var c := s.channels[id].(latestNonce := proof.nonce, latestBalanceA := proof.balanceA,
                               latestBalanceB := proof.balanceB, latestStateHash := proof.stateHash,
                               status := Disputed, disputeStartedAt := env.now, disputer := Some(caller));
      Ok(s.(channels := s.channels[id := c]))
  }

  /** An outgoing transfer of the contract's own tokens. */
  function Pay(held: map<Address, nat>, token: Address, amount: int): Option<map<Address, nat>> {
    if amount <= 0 then Some(held)
    else if Held(held, token) < amount then None
    else Some(held[token := Held(held, token) - amount])
  }

  /** The transfer is made only when there is something to transfer. */
  function Owed(to: Address, amount: int): seq<Transfer> {
    if amount > 0 then [Transfer(to, amount)] else []
  }

  function VerifyError(s: State, env: Env, challenger: Address, id: u64): Option<Error> {
    if challenger !in env.signers then Some(NotSigned)
    else if id !in s.channels then Some(ChannelNotFound)
    else
      var c := s.channels[id];
      if c.status != Disputed then Some(ChannelNotInDispute)
      else if !IsParty(c, challenger) then Some(Unauthorized)
      else if c.disputer.None? then Some(InvalidStateProof)
      else if challenger == c.disputer.value then Some(DisputerCannotChallengeSelf)
      else if !FitsI128(c.balanceA + c.balanceB) then Some(Overflow)
      else None
  }

  function VerifyAndResolve(s: State, env: Env, challenger: Address, id: u64): Outcome<State> {
    var e := VerifyError(s, env, challenger, id);
    if e.Some? then Err(e.value)
    else if env.transitionValid then Ok(s)
    else
      var c := s.channels[id];
      var total := c.balanceA + c.balanceB;
      var held := Pay(s.held, c.token, total);
      if held.None? then Err(TransferFailed)
      else
        var d := c.(status := Closed, latestBalanceA := if challenger == c.partyA then total else 0,
                    latestBalanceB := if challenger == c.partyB then total else 0);
        Ok(State(s.nextId, s.channels[id := d], held.value, s.paid[id := Owed(challenger, total)]))
  }

  function CloseError(s: State, env: Env, caller: Address, id: u64): Option<Error> {
    if caller !in env.signers then Some(NotSigned)
    else if id !in s.channels then Some(ChannelNotFound)
    else
      var c := s.channels[id];
      if c.status == Closed then Some(ChannelAlreadyClosed)
      else if !IsParty(c, caller) then Some(Unauthorized)
      else if c.status == Disputed && c.disputeStartedAt + c.disputeWindow > U64_MAX then Some(Overflow)
      else if c.status == Disputed && env.now < c.disputeStartedAt + c.disputeWindow then Some(DisputeWindowActive)
      else if c.status == Open && (c.partyA !in env.signers || c.partyB !in env.signers) then Some(NotSigned)
      else None
  }

  function CloseChannel(s: State, env: Env, caller: Address, id: u64): Outcome<State> {
    var e := CloseError(s, env, caller, id);
    if e.Some? then Err(e.value)
    else
      var c := s.channels[id];
      var first := Pay(s.held, c.token, c.latestBalanceA);
      var second := if first.None? then None else Pay(first.value, c.token, c.latestBalanceB);
      if second.None? then Err(TransferFailed)
      else Ok(State(s.nextId, s.channels[id := c.(status := Closed)], second.value,
                    s.paid[id := Owed(c.partyA, c.latestBalanceA) + Owed(c.partyB, c.latestBalanceB)]))
  }

  // ------------------------------------------------------------- the contract

  class StateChannelContract {
    var nextId: u64
    var channels: map<u64, Channel>
    var held: map<Address, nat>
    ghost var paid: map<u64, seq<Transfer>>

    ghost function Snapshot(): State
      reads this
    {
      State(nextId, channels, held, paid)
    }

    static ghost predicate Agrees(r: Outcome<()>, spec: Outcome<State>, before: State, after: State) {
      if spec.Ok? then r.Ok? && after == spec.value
      else r == Err(spec.error) && after == before
    }

    constructor ()
      ensures Snapshot() == GENESIS
    {
      nextId, channels, held, paid := 1, map[], map[], map[];
    }

    method Open(env: Env, p: OpenParams) returns (r: Outcome<u64>)
      modifies this
      ensures var spec := OpenChannel(old(Snapshot()), env, p);
              if spec.Ok? then r == Ok(old(nextId)) && Snapshot() == spec.value
              else r == Err(spec.error) && Snapshot() == old(Snapshot())
    {
      if p.amountA <= 0 && p.amountB <= 0 { return Err(ZeroAmount); }
      if p.partyA !in env.signers || p.partyB !in env.signers { return Err(NotSigned); }
      if !env.funded { return Err(TransferFailed); }
      if nextId == U64_MAX { return Err(Overflow); }
      if p.amountA > 0 { held := held[p.token := Held(held, p.token) + p.amountA]; }
      if p.amountB > 0 { held := held[p.token := Held(held, p.token) + p.amountB]; }
      var channelId := nextId;
      nextId := channelId + 1;
      channels := channels[channelId := Channel(channelId, p.partyA, p.partyB, p.token, p.amountA, p.amountB,
                                                p.rulesetContract, ChannelStatus.Open, p.disputeWindow, 0, None, 0,
                                                p.amountA, p.amountB, 0)];
      paid := paid[channelId := []];
      r := Ok(channelId);
    }

    method Dispute(env: Env, caller: Address, id: u64, proof: StateProof) returns (r: Outcome<()>)
      modifies this
      ensures Agrees(r, DisputeChannel(old(Snapshot()), env, caller, id, proof), old(Snapshot()), Snapshot())
    {
      if caller !in env.signers { return Err(NotSigned); }
      if id !in channels { return Err(ChannelNotFound); }
      var channel := channels[id];
      if channel.status == Closed { return Err(ChannelAlreadyClosed); }
      if caller != channel.partyA && caller != channel.partyB { return Err(Unauthorized); }
      if proof.channelId != id { return Err(InvalidStateProof); }
      if proof.nonce <= channel.latestNonce { return Err(InvalidNonce); }
      var proposed, locked := proof.balanceA + proof.balanceB, channel.balanceA + channel.balanceB;
      if !FitsI128(proposed) || !FitsI128(locked) { return Err(Overflow); }
      if proposed != locked { return Err(InvalidStateProof); }
      if channel.status == Disputed {
        if channel.disputeStartedAt + channel.disputeWindow > U64_MAX { return Err(Overflow); }
        if env.now >= channel.disputeStartedAt + channel.disputeWindow { return Err(DisputeWindowExpired); }
      }
      channel := channel.(latestNonce := proof.nonce);
      channel := channel.(latestBalanceA := proof.balanceA);
      channel := channel.(latestBalanceB := proof.balanceB);
      channel := channel.(latestStateHash := proof.stateHash);
      channel := channel.(status := Disputed);
      channel := channel.(disputeStartedAt := env.now);
      channel := channel.(disputer := Some(caller));
      channels := channels[id := channel];
      r := Ok(());
    }

    method Verify(env: Env, challenger: Address, id: u64) returns (r: Outcome<()>)
      modifies this
      ensures Agrees(r, VerifyAndResolve(old(Snapshot()), env, challenger, id), old(Snapshot()), Snapshot())
    {
      if challenger !in env.signers { return Err(NotSigned); }
      if id !in channels { return Err(ChannelNotFound); }
      var channel := channels[id];
      if channel.status != Disputed { return Err(ChannelNotInDispute); }
      if challenger != channel.partyA && challenger != channel.partyB { return Err(Unauthorized); }
      if channel.disputer.None? { return Err(InvalidStateProof); }
      if challenger == channel.disputer.value { return Err(DisputerCannotChallengeSelf); }
      var totalCollateral := channel.balanceA + channel.balanceB;
      if !FitsI128(totalCollateral) { return Err(Overflow); }
      if !env.transitionValid {
        if totalCollateral > 0 {
          if Held(held, channel.token) < totalCollateral { return Err(TransferFailed); }
          held := held[channel.token := Held(held, channel.token) - totalCollateral];
        }
        channel := channel.(status := Closed);
        channel := channel.(latestBalanceA := if challenger == channel.partyA then totalCollateral else 0);
        channel := channel.(latestBalanceB := if challenger == channel.partyB then totalCollateral else 0);
        channels := channels[id := channel];
        paid := paid[id := Owed(challenger, totalCollateral)];
      }
      r := Ok(());
    }

    method Close(env: Env, caller: Address, id: u64) returns (r: Outcome<()>)
      modifies this
      ensures Agrees(r, CloseChannel(old(Snapshot()), env, caller, id), old(Snapshot()), Snapshot())
    {
      if caller !in env.signers { return Err(NotSigned); }
      if id !in channels { return Err(ChannelNotFound); }
      var channel := channels[id];
      if channel.status == Closed { return Err(ChannelAlreadyClosed); }
      if caller != channel.partyA && caller != channel.partyB { return Err(Unauthorized); }
      if channel.status == Disputed {
        if channel.disputeStartedAt + channel.disputeWindow > U64_MAX { return Err(Overflow); }
        if env.now < channel.disputeStartedAt + channel.disputeWindow { return Err(DisputeWindowActive); }
      } else {
        if channel.partyA !in env.signers || channel.partyB !in env.signers { return Err(NotSigned); }
      }
      var saved := held;
      if channel.latestBalanceA > 0 {
        if Held(held, channel.token) < channel.latestBalanceA { return Err(TransferFailed); }
        held := held[channel.token := Held(held, channel.token) - channel.latestBalanceA];
      }
      if channel.latestBalanceB > 0 {
        if Held(held, channel.token) < channel.latestBalanceB { held := saved; return Err(TransferFailed); }
        held := held[channel.token := Held(held, channel.token) - channel.latestBalanceB];
      }
      channels := channels[id := channel.(status := Closed)];
      paid := paid[id := Owed(channel.partyA, channel.latestBalanceA) + Owed(channel.partyB, channel.latestBalanceB)];
      r := Ok(());
    }
  }

  // --------------------------------------------------------------------- runs

  datatype Call =
    | CallOpen(params: OpenParams)
    | CallDispute(caller: Address, id: u64, proof: StateProof)
    | CallVerify(challenger: Address, id: u64)
    | CallClose(caller: Address, id: u64)

  function Invoke(s: State, env: Env, call: Call): Outcome<State> {
    match call
    case CallOpen(params) => OpenChannel(s, env, params)
    case CallDispute(caller, id, proof) => DisputeChannel(s, env, caller, id, proof)
    case CallVerify(challenger, id) => VerifyAndResolve(s, env, challenger, id)
    case CallClose(caller, id) => CloseChannel(s, env, caller, id)
  }

  function Step(s: State, env: Env, call: Call): State {
    if Invoke(s, env, call).Ok? then Invoke(s, env, call).value else s
  }

  type Script = seq<(Env, Call)>

  function RunFrom(s: State, script: Script): State {
    if script == [] then s
    else
      var last := script[|script| - 1];
      Step(RunFrom(s, script[..|script| - 1]), last.0, last.1)
  }

  /** Amounts and proof balances a call brings in are not negative. */
  predicate NonNegative(call: Call) {
    match call
    case CallOpen(p) => p.amountA >= 0 && p.amountB >= 0
    case CallDispute(_, _, proof) => proof.balanceA >= 0 && proof.balanceB >= 0
    case _ => true
  }

  predicate AllNonNegative(script: Script) {
    forall i :: 0 <= i < |script| ==> NonNegative(script[i].1)
  }

  function Collateral(c: Channel): int {
    c.balanceA + c.balanceB
  }

  // ------------------------------------------------------------ the books

  /** What a list of transfers pays in all. */
  function PaidOut(transfers: seq<Transfer>): nat {
    if transfers == [] then 0
    else PaidOut(transfers[..|transfers| - 1]) + transfers[|transfers| - 1].amount
  }

  /** What opening a channel brought in. */
  function Deposited(c: Channel): nat {
    Positive(c.balanceA) + Positive(c.balanceB)
  }

  /** What a channel brought in of a token and has not paid out; negative when it paid out more. */
  function Flow(c: Channel, transfers: seq<Transfer>, token: Address): int {
    if c.token == token then Deposited(c) - PaidOut(transfers) else 0
  }

  function Flows(channels: map<u64, Channel>, paid: map<u64, seq<Transfer>>, token: Address): map<u64, int> {
    map id | id in channels && id in paid :: Flow(channels[id], paid[id], token)
  }

  /** Of each token the contract holds what its channels brought in minus what they paid out. */
  ghost predicate Balanced(s: State) {
    && (forall id :: id in s.channels ==>
          id < s.nextId && id in s.paid && (s.channels[id].status != Closed ==> s.paid[id] == []))
    && forall token: Address :: Held(s.held, token) == Total(Flows(s.channels, s.paid, token))
  }

  lemma FlowsMove(channels: map<u64, Channel>, paid: map<u64, seq<Transfer>>, id: u64, c: Channel,
                  transfers: seq<Transfer>, token: Address)
    ensures Flows(channels[id := c], paid[id := transfers], token)
            == Flows(channels, paid, token)[id := Flow(c, transfers, token)]
  {
  }

  /** Replacing one channel and its payments keeps the books when its token moves by the difference. */
  lemma MoveKeepsBalanced(s: State, t: State, id: u64, c: Channel, transfers: seq<Transfer>)
    requires Balanced(s) && t.channels == s.channels[id := c] && t.paid == s.paid[id := transfers]
    requires id < t.nextId && s.nextId <= t.nextId && (c.status != Closed ==> transfers == [])
    requires forall token: Address :: Held(t.held, token) == Held(s.held, token)
               - ValueAt(Flows(s.channels, s.paid, token), id) + Flow(c, transfers, token)
    ensures Balanced(t)
  {
    forall token: Address ensures Held(t.held, token) == Total(Flows(t.channels, t.paid, token)) {
      FlowsMove(s.channels, s.paid, id, c, transfers, token);
      TotalUpdate(Flows(s.channels, s.paid, token), id, Flow(c, transfers, token));
    }
  }

  lemma PaidOutOwed(to: Address, x: int, other: Address, y: int)
    ensures PaidOut(Owed(to, x)) == Positive(x)
    ensures PaidOut(Owed(to, x) + Owed(other, y)) == Positive(x) + Positive(y)
  {
    var first, second := Owed(to, x), Owed(other, y);
    assert PaidOut([]) == 0;
    assert PaidOut(first) == Positive(x);
    if y > 0 { assert (first + second)[..|first|] == first; } else { assert first + second == first; }
  }

  lemma OpenKeepsBalanced(s: State, t: State, env: Env, p: OpenParams)
    requires Balanced(s) && OpenChannel(s, env, p) == Ok(t)
    ensures Balanced(t)
  {
    MoveKeepsBalanced(s, t, s.nextId, t.channels[s.nextId], []);
  }

  lemma DisputeKeepsBalanced(s: State, t: State, env: Env, caller: Address, id: u64, proof: StateProof)
    requires Balanced(s) && DisputeChannel(s, env, caller, id, proof) == Ok(t)
    ensures Balanced(t)
  {
    assert t.paid == s.paid[id := []];
    MoveKeepsBalanced(s, t, id, t.channels[id], []);
  }

  lemma VerifyKeepsBalanced(s: State, t: State, env: Env, challenger: Address, id: u64)
    requires Balanced(s) && VerifyAndResolve(s, env, challenger, id) == Ok(t)
    ensures Balanced(t)
  {
    if !env.transitionValid {
      PaidOutOwed(challenger, Collateral(s.channels[id]), challenger, 0);
      MoveKeepsBalanced(s, t, id, t.channels[id], t.paid[id]);
    }
  }

  lemma CloseKeepsBalanced(s: State, t: State, env: Env, caller: Address, id: u64)
    requires Balanced(s) && CloseChannel(s, env, caller, id) == Ok(t)
    ensures Balanced(t)
  {
    var c := s.channels[id];
    PaidOutOwed(c.partyA, c.latestBalanceA, c.partyB, c.latestBalanceB);
    forall token: Address
      ensures Held(t.held, token) == Held(s.held, token) - ValueAt(Flows(s.channels, s.paid, token), id)
                                     + Flow(t.channels[id], t.paid[id], token) {
      CloseMoves(s, t, env, caller, id, token);
    }
    MoveKeepsBalanced(s, t, id, t.channels[id], t.paid[id]);
  }

  lemma CloseMoves(s: State, t: State, env: Env, caller: Address, id: u64, token: Address)
    requires CloseChannel(s, env, caller, id) == Ok(t)
    ensures var c := s.channels[id];
            Held(t.held, token)
            == Held(s.held, token)
               - if token == c.token then Positive(c.latestBalanceA) + Positive(c.latestBalanceB) else 0
  {
  }

  lemma StepKeepsBalanced(s: State, env: Env, call: Call)
    requires Balanced(s)
    ensures Balanced(Step(s, env, call))
  {
    if Invoke(s, env, call).Ok? {
      var t := Invoke(s, env, call).value;
      match call
      case CallOpen(params) => OpenKeepsBalanced(s, t, env, params);
      case CallDispute(caller, id, proof) => DisputeKeepsBalanced(s, t, env, caller, id, proof);
      case CallVerify(challenger, id) => VerifyKeepsBalanced(s, t, env, challenger, id);
      case CallClose(caller, id) => CloseKeepsBalanced(s, t, env, caller, id);
    }
  }

  /**
   In every run, whatever amounts and balances it brings in, the contract holds of each token
   what its channels brought in minus what they paid out, and only closed channels have paid.
   */
  lemma {:induction false} BooksBalanceInEveryRun(script: Script)
    ensures Balanced(RunFrom(GENESIS, script))
  {
    if script == [] {
      forall token: Address ensures Flows(GENESIS.channels, GENESIS.paid, token) == map[] {}
    } else {
      var front, last := script[..|script| - 1], script[|script| - 1];
      BooksBalanceInEveryRun(front);
      StepKeepsBalanced(RunFrom(GENESIS, front), last.0, last.1);
    }
  }

  /** A close that nothing else forbids succeeds exactly when the contract holds what the latest state owes. */
  lemma CloseSucceedsIffFunded(s: State, env: Env, caller: Address, id: u64)
    requires CloseError(s, env, caller, id).None?
    ensures var c := s.channels[id];
            if Positive(c.latestBalanceA) + Positive(c.latestBalanceB) <= Held(s.held, c.token)
            then CloseChannel(s, env, caller, id).Ok?
            else CloseChannel(s, env, caller, id) == Err(TransferFailed)
  {
  }

  // -------------------------------------------------- channels without debts

  /** What each channel that is not closed has locked in a token. */
  function Locked(channels: map<u64, Channel>, token: Address): map<u64, int> {
    map id | id in channels && channels[id].token == token && channels[id].status != Closed :: Collateral(channels[id])
  }

  /** What a list of transfers pays to one address. */
  function Received(transfers: seq<Transfer>, a: Address): nat {
    if transfers == [] then 0
    else
      var last := transfers[|transfers| - 1];
      Received(transfers[..|transfers| - 1], a) + (if last.to == a then last.amount else 0)
  }

  /** What the latest state owes an address. */
  function Due(c: Channel, a: Address): int {
    (if a == c.partyA then c.latestBalanceA else 0) + (if a == c.partyB then c.latestBalanceB else 0)
  }

  /** A closed channel has paid its collateral, each address what the latest state owes it; others paid nothing. */
  ghost predicate PaidUp(c: Channel, transfers: seq<Transfer>) {
    if c.status == Closed
    then PaidOut(transfers) == Collateral(c) && forall a: Address :: Received(transfers, a) == Due(c, a)
    else transfers == []
  }

  /** The latest balances are not negative and share the collateral out; a closed channel has paid them. */
  ghost predicate ChannelSound(s: State, id: u64)
    requires id in s.channels
  {
    var c := s.channels[id];
    && id < s.nextId && id in s.paid && PaidUp(c, s.paid[id])
    && c.balanceA >= 0 && c.balanceB >= 0 && c.latestBalanceA >= 0 && c.latestBalanceB >= 0
    && c.latestBalanceA + c.latestBalanceB == Collateral(c)
    && (c.disputer.Some? ==> IsParty(c, c.disputer.value))
  }

  ghost predicate AllChannelsSound(s: State) {
    forall id :: id in s.channels ==> ChannelSound(s, id)
  }

  /** Every channel is sound and of each token exactly the open collateral is held. */
  ghost predicate Sound(s: State) {
    AllChannelsSound(s) && forall token: Address :: Held(s.held, token) == Total(Locked(s.channels, token))
  }

  lemma ReceivedOwed(to: Address, x: nat, other: Address, y: nat, a: Address)
    ensures Received(Owed(to, x), a) == if a == to then x else 0
    ensures Received(Owed(to, x) + Owed(other, y), a) == (if a == to then x else 0) + (if a == other then y else 0)
  {
    var first, second := Owed(to, x), Owed(other, y);
    assert Received([], a) == 0;
    assert Received(first, a) == if a == to then x else 0;
    if y > 0 { assert (first + second)[..|first|] == first; } else { assert first + second == first; }
  }

  /** A sound channel's flow is its collateral until it closes, and nothing after. */
  lemma FlowsAreLocked(s: State, token: Address)
    requires AllChannelsSound(s)
    ensures Total(Flows(s.channels, s.paid, token)) == Total(Locked(s.channels, token))
  {
    var locked, flows := Locked(s.channels, token), Flows(s.channels, s.paid, token);
    assert forall id :: id in s.channels ==> ChannelSound(s, id) && PaidUp(s.channels[id], s.paid[id]);
    TotalIgnoresZeros(locked, flows);
  }

  lemma BalancedIffSound(s: State)
    requires AllChannelsSound(s)
    ensures Balanced(s) <==> Sound(s)
  {
    assert forall id :: id in s.channels ==> ChannelSound(s, id);
    forall token: Address ensures Total(Flows(s.channels, s.paid, token)) == Total(Locked(s.channels, token)) {
      FlowsAreLocked(s, token);
    }
  }

  lemma ClosePaysUp(s: State, env: Env, caller: Address, id: u64)
    requires AllChannelsSound(s) && CloseChannel(s, env, caller, id).Ok?
    ensures ChannelSound(CloseChannel(s, env, caller, id).value, id)
  {
    var c := s.channels[id];
    assert ChannelSound(s, id);
    PaidOutOwed(c.partyA, c.latestBalanceA, c.partyB, c.latestBalanceB);
    forall a: Address
      ensures Received(Owed(c.partyA, c.latestBalanceA) + Owed(c.partyB, c.latestBalanceB), a) == Due(c, a) {
      ReceivedOwed(c.partyA, c.latestBalanceA, c.partyB, c.latestBalanceB, a);
    }
  }

  lemma VerifyPaysUp(s: State, env: Env, challenger: Address, id: u64)
    requires AllChannelsSound(s) && VerifyAndResolve(s, env, challenger, id).Ok?
    ensures ChannelSound(VerifyAndResolve(s, env, challenger, id).value, id)
  {
    assert ChannelSound(s, id);
    var total := Collateral(s.channels[id]);
    PaidOutOwed(challenger, total, challenger, 0);
    forall a: Address ensures Received(Owed(challenger, total), a) == if a == challenger then total else 0 {
      ReceivedOwed(challenger, total, challenger, 0, a);
    }
  }

  lemma OthersStaySound(s: State, t: State, id: u64)
    requires AllChannelsSound(s) && id in t.channels && ChannelSound(t, id) && s.nextId <= t.nextId
    requires t.channels == s.channels[id := t.channels[id]] && t.paid == s.paid[id := t.paid[id]]
    ensures AllChannelsSound(t)
  {
    forall j | j in t.channels ensures ChannelSound(t, j) {
      if j != id { assert ChannelSound(s, j); }
    }
  }

  lemma StepKeepsChannelsSound(s: State, env: Env, call: Call)
    requires AllChannelsSound(s) && NonNegative(call)
    ensures AllChannelsSound(Step(s, env, call))
  {
    if Invoke(s, env, call).Ok? {
      var t := Invoke(s, env, call).value;
      match call {
        case CallOpen(_) =>
          OthersStaySound(s, t, s.nextId);
        case CallDispute(_, id, _) =>
          assert ChannelSound(s, id);
          OthersStaySound(s, t, id);
        case CallVerify(challenger, id) =>
          VerifyPaysUp(s, env, challenger, id);
          if !env.transitionValid { OthersStaySound(s, t, id); }
        case CallClose(caller, id) =>
          ClosePaysUp(s, env, caller, id);
          OthersStaySound(s, t, id);
      }
    }
  }

  lemma StepKeepsSound(s: State, env: Env, call: Call)
    requires Sound(s) && NonNegative(call)
    ensures Sound(Step(s, env, call))
  {
    BalancedIffSound(s);
    StepKeepsBalanced(s, env, call);
    StepKeepsChannelsSound(s, env, call);
    BalancedIffSound(Step(s, env, call));
  }

  /**
   In every run whose opened amounts and proof balances are not negative, the contract holds
   of each token exactly the collateral of its channels that are not closed, open channels
   have paid nothing, and every closed channel has paid each party exactly its latest
   balance, which together are the collateral.
   */
  lemma {:induction false} ChannelsSoundInEveryRun(script: Script)
    requires AllNonNegative(script)
    ensures Sound(RunFrom(GENESIS, script))
  {
    SoundChannelsInEveryRun(script);
    BooksBalanceInEveryRun(script);
    BalancedIffSound(RunFrom(GENESIS, script));
  }

  lemma {:induction false} SoundChannelsInEveryRun(script: Script)
    requires AllNonNegative(script)
    ensures AllChannelsSound(RunFrom(GENESIS, script))
  {
    if script != [] {
      var front, last := script[..|script| - 1], script[|script| - 1];
      assert forall i :: 0 <= i < |front| ==> front[i] == script[i];
      SoundChannelsInEveryRun(front);
      StepKeepsChannelsSound(RunFrom(GENESIS, front), last.0, last.1);
    }
  }

  /** The contract holds at least what a channel that is not closed has locked. */
  lemma CollateralIsHeld(s: State, id: u64)
    requires Sound(s) && id in s.channels && s.channels[id].status != Closed
    ensures 0 <= Collateral(s.channels[id]) <= Held(s.held, s.channels[id].token)
  {
    var token := s.channels[id].token;
    var locked := Locked(s.channels, token);
    forall j | j in locked ensures locked[j] >= 0 {
      assert ChannelSound(s, j);
    }
    ValueWithinTotal(locked, id);
  }

  /** Whoever may close or win a channel is paid: the funds are there, and exactly the collateral leaves. */
  lemma SettlementsPayCollateral(s: State, env: Env, caller: Address, id: u64)
    requires Sound(s)
    ensures CloseError(s, env, caller, id).None? ==>
              CloseChannel(s, env, caller, id).Ok? && Sound(CloseChannel(s, env, caller, id).value)
    ensures VerifyError(s, env, caller, id).None? ==>
              VerifyAndResolve(s, env, caller, id).Ok? && Sound(VerifyAndResolve(s, env, caller, id).value)
  {
    if id in s.channels && s.channels[id].status != Closed {
      assert ChannelSound(s, id);
      CollateralIsHeld(s, id);
      if CloseError(s, env, caller, id).None? {
        CloseSucceedsIffFunded(s, env, caller, id);
        StepKeepsSound(s, env, CallClose(caller, id));
      }
      if VerifyError(s, env, caller, id).None? {
        StepKeepsSound(s, env, CallVerify(caller, id));
      }
    }
  }

  // ------------------------------------------------------- who is paid what

  /** An open channel is closed by a party when both have signed, and each gets back what it put in. */
  lemma CooperativeCloseRefunds(s: State, t: State, open: Env, p: OpenParams, close: Env, caller: Address)
    requires Sound(s) && p.amountA >= 0 && p.amountB >= 0 && OpenChannel(s, open, p) == Ok(t)
    ensures CloseChannel(t, close, caller, s.nextId).Ok?
            <==> (caller == p.partyA || caller == p.partyB) && p.partyA in close.signers && p.partyB in close.signers
    ensures CloseChannel(t, close, caller, s.nextId).Ok? ==>
              var closed, id := CloseChannel(t, close, caller, s.nextId).value, s.nextId;
              && id in closed.paid && id in closed.channels && closed.channels[id].status == Closed
              && forall a: Address :: Received(closed.paid[id], a)
                   == (if a == p.partyA then p.amountA else 0) + (if a == p.partyB then p.amountB else 0)
  {
    var id := s.nextId;
    StepKeepsSound(s, open, CallOpen(p));
    SettlementsPayCollateral(t, close, caller, id);
    forall a: Address
      ensures Received(Owed(p.partyA, p.amountA) + Owed(p.partyB, p.amountB), a)
              == (if a == p.partyA then p.amountA else 0) + (if a == p.partyB then p.amountB else 0) {
      ReceivedOwed(p.partyA, p.amountA, p.partyB, p.amountB, a);
    }
  }

  /** Closed after its window, a disputed channel pays each party what the disputing proof says. */
  lemma CloseFollowsProof(s: State, env: Env, disputer: Address, id: u64, proof: StateProof, close: Env,
                          caller: Address)
    requires Sound(s) && proof.balanceA >= 0 && proof.balanceB >= 0
    requires DisputeChannel(s, env, disputer, id, proof).Ok?
    requires CloseChannel(DisputeChannel(s, env, disputer, id, proof).value, close, caller, id).Ok?
    ensures var c := s.channels[id];
            var closed := CloseChannel(DisputeChannel(s, env, disputer, id, proof).value, close, caller, id).value;
            && id in closed.paid
            && forall a: Address :: Received(closed.paid[id], a)
                 == (if a == c.partyA then proof.balanceA else 0) + (if a == c.partyB then proof.balanceB else 0)
  {
    var c := s.channels[id];
    forall a: Address
      ensures Received(Owed(c.partyA, proof.balanceA) + Owed(c.partyB, proof.balanceB), a)
              == (if a == c.partyA then proof.balanceA else 0) + (if a == c.partyB then proof.balanceB else 0) {
      ReceivedOwed(c.partyA, proof.balanceA, c.partyB, proof.balanceB, a);
    }
  }

  /**
   When the ruleset finds the disputed state invalid, the challenger, who is the other party
   and not the disputer, receives the whole collateral and nobody else anything; the latest
   balances say the same, and nothing else about the channel changes. A valid state stays as it is.
   */
  lemma ChallengerTakesAll(s: State, env: Env, challenger: Address, id: u64)
    requires Sound(s) && VerifyError(s, env, challenger, id).None?
    ensures env.transitionValid ==> VerifyAndResolve(s, env, challenger, id) == Ok(s)
    ensures !env.transitionValid ==>
              var r := VerifyAndResolve(s, env, challenger, id);
              && r.Ok? && id in s.channels && id in r.value.channels && id in r.value.paid
              && var c, d, all := s.channels[id], r.value.channels[id], Collateral(s.channels[id]);
              && c.disputer.Some? && c.disputer.value != challenger
              && (forall a: Address :: Received(r.value.paid[id], a) == if a == challenger then all else 0)
              && Received(r.value.paid[id], c.disputer.value) == 0
              && d == c.(status := Closed, latestBalanceA := d.latestBalanceA, latestBalanceB := d.latestBalanceB)
              && ((challenger == c.partyA && c.disputer.value == c.partyB
                   && d.latestBalanceA == all && d.latestBalanceB == 0)
                  || (challenger == c.partyB && c.disputer.value == c.partyA
                      && d.latestBalanceA == 0 && d.latestBalanceB == all))
  {
    SettlementsPayCollateral(s, env, challenger, id);
    var all := Collateral(s.channels[id]);
    assert ChannelSound(s, id);
    forall a: Address ensures Received(Owed(challenger, all), a) == if a == challenger then all else 0 {
      ReceivedOwed(challenger, all, challenger, 0, a);
    }
  }

  // ------------------------------------------------- the condition is needed

  /** Opening receives what it records exactly when neither amount is negative. */
  lemma OpenRecordsWhatItReceivesIff(s: State, env: Env, p: OpenParams)
    requires OpenChannel(s, env, p).Ok?
    ensures var t := OpenChannel(s, env, p).value;
            s.nextId in t.channels
            && (Held(t.held, p.token) - Held(s.held, p.token) == Collateral(t.channels[s.nextId])
                <==> p.amountA >= 0 && p.amountB >= 0)
  {
  }

  /** Closing pays the collateral exactly when neither latest balance is negative. */
  lemma ClosePaysCollateralIff(s: State, env: Env, caller: Address, id: u64)
    requires id in s.channels && CloseChannel(s, env, caller, id).Ok?
    requires var c := s.channels[id]; c.latestBalanceA + c.latestBalanceB == Collateral(c)
    ensures var c, t := s.channels[id], CloseChannel(s, env, caller, id).value;
            Held(s.held, c.token) - Held(t.held, c.token) == Collateral(c)
            <==> c.latestBalanceA >= 0 && c.latestBalanceB >= 0
  {
  }

  /** Ten locked by one party against minus three by the other is accepted, and recorded as seven. */
  lemma NegativeAmountIsAccepted(env: Env, a: Address, b: Address, token: Address)
    requires {a, b} <= env.signers && env.funded
    ensures var r := OpenChannel(GENESIS, env, OpenParams(a, b, token, 10, -3, 0, token));
            r.Ok? && 1 in r.value.channels && Held(r.value.held, token) == 10 && Collateral(r.value.channels[1]) == 7
  {
  }

  lemma RunSteps(s: State, script: Script, last: (Env, Call))
    ensures RunFrom(s, script + [last]) == Step(RunFrom(s, script), last.0, last.1)
  {
    assert (script + [last])[..|script|] == script;
  }

  /** One party's hundred and the other's minus ninety, disputed and closed on its signature alone. */
  function DrainScript(a: Address, b: Address, c: Address, token: Address): Script {
    var env := Env(1, {a, b, c}, true, true);
    [(env, CallOpen(OpenParams(a, b, token, 5, 5, 0, token))),
     (env, CallOpen(OpenParams(c, b, token, 100, 0, 0, token))),
     (env.(signers := {a}), CallDispute(a, 1, StateProof(1, 1, 100, -90, 0))),
     (env.(signers := {a}), CallClose(a, 1))]
  }

  /**
   A dispute proof may carry a negative balance. Closing the channel of ten then pays one
   party a hundred out of another channel's collateral, which can no longer be closed
   although nothing else forbids it.
   */
  lemma NegativeProofIsAccepted(env: Env, a: Address, b: Address, c: Address, token: Address)
    requires {b, c} <= env.signers
    ensures var s := RunFrom(GENESIS, DrainScript(a, b, c, token));
            && 1 in s.paid && s.paid[1] == [Transfer(a, 100)] && Held(s.held, token) == 10
            && 2 in s.channels && s.channels[2].status == Open && Collateral(s.channels[2]) == 100
            && CloseError(s, env, c, 2).None? && CloseChannel(s, env, c, 2) == Err(TransferFailed)
  {
    var script := DrainScript(a, b, c, token);
    var one, two, three: Script := [script[0]], [script[0], script[1]], [script[0], script[1], script[2]];
    assert RunFrom(GENESIS, []) == GENESIS;
    RunSteps(GENESIS, [], script[0]);
    assert one == [] + [script[0]];
    RunSteps(GENESIS, one, script[1]);
    assert two == one + [script[1]];
    RunSteps(GENESIS, two, script[2]);
    assert three == two + [script[2]];
    RunSteps(GENESIS, three, script[3]);
    assert script == three + [script[3]];
  }

  // --------------------------------------------------------- nonces and windows

  lemma StepNonce(s: State, env: Env, call: Call, id: u64)
    requires id in s.channels && id < s.nextId
    ensures var t := Step(s, env, call);
            && id in t.channels && id < t.nextId && t.channels[id].latestNonce >= s.channels[id].latestNonce
            && (s.channels[id].status == Closed ==> t.channels[id] == s.channels[id])
  {
  }

  /** A channel's nonce never goes back, and a closed channel never changes. */
  lemma {:induction false} NonceNeverFalls(s: State, script: Script, id: u64)
    requires id in s.channels && id < s.nextId
    ensures var t := RunFrom(s, script);
            && id in t.channels && id < t.nextId && t.channels[id].latestNonce >= s.channels[id].latestNonce
            && (s.channels[id].status == Closed ==> t.channels[id] == s.channels[id])
  {
    if script != [] {
      var front, last := script[..|script| - 1], script[|script| - 1];
      NonceNeverFalls(s, front, id);
      StepNonce(RunFrom(s, front), last.0, last.1, id);
    }
  }

  /** However the run goes on, a later accepted dispute carries a strictly larger nonce. */
  lemma DisputeNoncesIncrease(s: State, env: Env, a: Address, id: u64, first: StateProof, between: Script,
                              env2: Env, b: Address, second: StateProof)
    requires id < s.nextId && DisputeChannel(s, env, a, id, first).Ok?
    requires DisputeChannel(RunFrom(DisputeChannel(s, env, a, id, first).value, between), env2, b, id, second).Ok?
    ensures first.nonce < second.nonce
  {
    NonceNeverFalls(DisputeChannel(s, env, a, id, first).value, between, id);
  }

  /**
   Nothing but the submitter's own signature stands behind a proof: one party alone can
   dispute an open channel with the largest nonce and any shares of the collateral, and
   after that no dispute ever succeeds.
   */
  lemma LargestNonceIsLast(s: State, env: Env, a: Address, id: u64, first: StateProof, between: Script,
                           env2: Env, b: Address, second: StateProof)
    requires id in s.channels && id < s.nextId && s.channels[id].status == Open && IsParty(s.channels[id], a)
    requires env.signers == {a} && first.channelId == id && first.nonce == U64_MAX > s.channels[id].latestNonce
    requires first.balanceA + first.balanceB == Collateral(s.channels[id]) && FitsI128(Collateral(s.channels[id]))
    ensures var disputed := DisputeChannel(s, env, a, id, first);
            && disputed.Ok?
            && DisputeChannel(RunFrom(disputed.value, between), env2, b, id, second).Err?
  {
    NonceNeverFalls(DisputeChannel(s, env, a, id, first).value, between, id);
  }

  /**
   On a disputed channel, at any moment at most one of disputing further and closing is
   possible; when the end of the window fits u64, closing is possible from then on, for
   either party alone, and disputing only before.
   */
  lemma DisputeXorClose(s: State, env: Env, caller: Address, id: u64, proof: StateProof)
    requires Sound(s) && id in s.channels && s.channels[id].status == Disputed
    ensures DisputeChannel(s, env, caller, id, proof).Err? || CloseChannel(s, env, caller, id).Err?
    ensures var c := s.channels[id];
            IsParty(c, caller) && caller in env.signers && c.disputeStartedAt + c.disputeWindow <= U64_MAX ==>
              && (CloseChannel(s, env, caller, id).Ok? <==> env.now >= c.disputeStartedAt + c.disputeWindow)
              && (env.now >= c.disputeStartedAt + c.disputeWindow ==> DisputeChannel(s, env, caller, id, proof).Err?)
  {
    SettlementsPayCollateral(s, env, caller, id);
  }

  /**
   After an accepted dispute exactly the other party can bring the state before the ruleset,
   and either party can close exactly once the window, counted from the dispute, is over.
   */
  lemma AfterDispute(s: State, t: State, env: Env, disputer: Address, id: u64, proof: StateProof, later: Env,
                     caller: Address)
    requires Sound(s) && proof.balanceA >= 0 && proof.balanceB >= 0
    requires DisputeChannel(s, env, disputer, id, proof) == Ok(t)
    ensures var c := s.channels[id];
            VerifyError(t, later, caller, id).None?
            <==> caller in later.signers && caller != disputer && (caller == c.partyA || caller == c.partyB)
    ensures var c := s.channels[id];
            env.now + c.disputeWindow <= U64_MAX ==>
              (CloseChannel(t, later, caller, id).Ok?
               <==> caller in later.signers && (caller == c.partyA || caller == c.partyB)
                    && later.now >= env.now + c.disputeWindow)
  {
    StepKeepsSound(s, env, CallDispute(disputer, id, proof));
    SettlementsPayCollateral(t, later, caller, id);
  }

  /** The window of a disputed channel ends beyond u64. */
  predicate WindowOverflows(c: Channel) {
    c.status == Disputed && c.disputeStartedAt + c.disputeWindow > U64_MAX
  }

  /** At no time can anyone dispute the channel further or close it. */
  ghost predicate Blocked(s: State, id: u64) {
    && (forall env: Env, caller: Address, proof: StateProof :: DisputeChannel(s, env, caller, id, proof).Err?)
    && forall env: Env, caller: Address :: CloseChannel(s, env, caller, id).Err?
  }

  /** A disputed channel can be disputed or closed at some time unless the end of its window overflows u64. */
  lemma BlockedIffWindowOverflows(s: State, id: u64)
    requires Sound(s) && id in s.channels && s.channels[id].status == Disputed
    ensures Blocked(s, id) <==> WindowOverflows(s.channels[id])
  {
    var c := s.channels[id];
    if !WindowOverflows(c) {
      var env := Env(c.disputeStartedAt + c.disputeWindow, {c.partyA}, true, true);
      DisputeXorClose(s, env, c.partyA, id, StateProof(id, 0, 0, 0, 0));
      assert CloseChannel(s, env, c.partyA, id).Ok?;
    }
  }

  /** Even then the ruleset can still decide: an invalid transition closes the channel for the challenger. */
  lemma ChallengeStillCloses(s: State, env: Env, challenger: Address, id: u64)
    requires Sound(s) && id in s.channels && WindowOverflows(s.channels[id]) && challenger in env.signers
    requires IsParty(s.channels[id], challenger) && s.channels[id].disputer.Some?
    requires FitsI128(Collateral(s.channels[id]))
    ensures var r := VerifyAndResolve(s, env, challenger, id);
            !env.transitionValid && challenger != s.channels[id].disputer.value ==>
              r.Ok? && id in r.value.channels && r.value.channels[id].status == Closed
  {
    SettlementsPayCollateral(s, env, challenger, id);
  }

  /** Any window is accepted: opened with the longest and disputed at time 1, a channel overflows. */
  lemma OverflowingWindowIsAccepted(a: Address, b: Address, token: Address)
    requires a != b
    ensures var env := Env(1, {a, b}, true, true);
            var script := [(env, CallOpen(OpenParams(a, b, token, 5, 5, U64_MAX, token))),
                           (env, CallDispute(a, 1, StateProof(1, 1, 10, 0, 0)))];
            var s := RunFrom(GENESIS, script);
            Sound(s) && 1 in s.channels && WindowOverflows(s.channels[1]) && Blocked(s, 1)
  {
    var env := Env(1, {a, b}, true, true);
    var open, dispute := CallOpen(OpenParams(a, b, token, 5, 5, U64_MAX, token)),
                         CallDispute(a, 1, StateProof(1, 1, 10, 0, 0));
    var script := [(env, open), (env, dispute)];
    var one: Script := [(env, open)];
    assert script[..1] == one && one[..0] == [];
    assert RunFrom(GENESIS, one[..0]) == GENESIS;
    var first := RunFrom(GENESIS, one);
    assert first == Step(GENESIS, env, open);
    assert RunFrom(GENESIS, script) == Step(first, env, dispute);
    ChannelsSoundInEveryRun(script);
    BlockedIffWindowOverflows(RunFrom(GENESIS, script), 1);
  }
}
