/** The `MerkleAirdrop` contract: its storage, its constructor, and its
    messages `fund`, `claim` and `sweep_unclaimed` with the internal guards
    they use. Every message is a pure transition. The block context (caller,
    timestamp, the contract's own address) is an `Env` argument, and the
    token precompile is represented by the outcomes of the calls made to it,
    which are arguments too; each transition reports the calls it issued. */
module Airdrop {
  import opened Encoding
  import opened Merkle

  datatype Error =
    | TransferFailed
    | InvalidProof
    | AlreadyClaimed
    | AmountCannotBeZero
    | Unauthorized
    | ClaimPeriodOver
    | ClaimPeriodActive

  datatype Result<T> = Ok(value: T) | Err(error: Error)

  datatype Option<T> = None | Some(value: T)

  /** What a call into the token precompile came back with: a revert
      (`Err`), or a returned boolean (`Ok(b)`). */
  datatype CallOutcome = Reverted | Returned(success: bool)

  /** The block context of one message. */
  datatype Env = Env(caller: Address, now: U64, contract: Address)

  /** A call the contract makes to the token precompile. */
  datatype LedgerCall =
    | TransferFrom(from: Address, to: Address, amount: U256)
    | Transfer(to: Address, amount: U256)
    | BalanceOf(account: Address)

  /** The `Claimed` event. */
  datatype ClaimedEvent = ClaimedEvent(recipient: Address, value: U256)

  /** Contract storage. `asset` is the address of the token precompile;
      `claimed` is the per-address flag table, absent meaning `false`. */
  datatype State = State(asset: Address, root: Hash, claimed: map<Address, bool>, owner: Address, endTime: U64)

  /** The outcome of one message: what it returned, the storage it left,
      the precompile calls it made and the events it emitted. */
  datatype Step = Step(result: Result<()>, state: State, calls: seq<LedgerCall>, events: seq<ClaimedEvent>)

  /** The configuration fixed at construction. */
  predicate SameConfig(s: State, t: State)
  {
    s.asset == t.asset && s.root == t.root && s.owner == t.owner && s.endTime == t.endTime
  }

  /** `is_claimed`: the stored flag, `false` for an address never written. */
  predicate IsClaimed(s: State, account: Address)
  {
    account in s.claimed && s.claimed[account]
  }

  /** `root`. */
  function Root(s: State): Hash
  {
    s.root
  }

  /** The constructor: `None` is the panic raised when the end time is not
      in the future. The deployer becomes the owner and nobody has claimed. */
  function New(env: Env, asset: Address, root: Hash, endTime: U64): (r: Option<State>)
    ensures r.Some? <==> endTime > env.now
    ensures r.Some? ==> (r.value.owner == env.caller && r.value.asset == asset
                         && Root(r.value) == root && r.value.endTime == endTime)
    ensures r.Some? ==> forall a: Address :: !IsClaimed(r.value, a)
  {
    if endTime > env.now then Some(State(asset, root, map[], env.caller, endTime)) else None
  }

  /** `check_owner`. */
  function CheckOwner(s: State, env: Env): (r: Result<()>)
    ensures r.Ok? || r.error == Unauthorized
  {
    if s.owner != env.caller then Err(Unauthorized) else Ok(())
  }

  /** `check_campaign_ongoing`: the end time itself still belongs to the
      claim window. */
  function CheckCampaignOngoing(s: State, env: Env): (r: Result<()>)
    ensures r.Ok? || r.error == ClaimPeriodOver
  {
    if env.now > s.endTime then Err(ClaimPeriodOver) else Ok(())
  }

  /** `check_campaign_ended`. */
  function CheckCampaignEnded(s: State, env: Env): (r: Result<()>)
    ensures r.Ok? || r.error == ClaimPeriodActive
  {
    if env.now <= s.endTime then Err(ClaimPeriodActive) else Ok(())
  }

  /** `fund`: a zero amount is refused before the precompile is called;
      otherwise the amount is pulled from the caller into the contract and
      only a returned `true` counts as success. Storage never changes. */
  function Fund(s: State, env: Env, amount: U256, pulled: CallOutcome): (r: Step)
    ensures r.state == s && r.events == []
    ensures amount == 0 ==> r.result == Err(AmountCannotBeZero) && r.calls == []
    ensures amount != 0 ==> r.calls == [TransferFrom(env.caller, env.contract, amount)]
    ensures r.result.Ok? <==> amount != 0 && pulled == Returned(true)
    ensures amount != 0 && pulled != Returned(true) ==> r.result == Err(TransferFailed)
  {
    if amount == 0 then Step(Err(AmountCannotBeZero), s, [], [])
    else
      var calls := [TransferFrom(env.caller, env.contract, amount)];
      match pulled
      case Returned(true) => Step(Ok(()), s, calls, [])
      case _ => Step(Err(TransferFailed), s, calls, [])
  }

  /** The part of `claim` that runs before the outbound transfer: the three
      checks in source order, then the caller's flag is written. `Ok` carries
      the storage the token precompile sees while it performs the transfer. */
  function ClaimPrepare(H: HashFn, s: State, env: Env, value: U256, proof: seq<Hash>, index: U64): (r: Result<State>)
    ensures r == Err(ClaimPeriodOver) <==> env.now > s.endTime
    ensures r == Err(AlreadyClaimed) <==> env.now <= s.endTime && IsClaimed(s, env.caller)
    ensures r == Err(InvalidProof) <==>
              env.now <= s.endTime && !IsClaimed(s, env.caller)
              && !VerifyProof(H, LeafHash(H, env.caller, value), proof, index, s.root)
    ensures r.Ok? <==>
              env.now <= s.endTime && !IsClaimed(s, env.caller)
              && VerifyProof(H, LeafHash(H, env.caller, value), proof, index, s.root)
    ensures r.Ok? ==> SameConfig(r.value, s) && IsClaimed(r.value, env.caller)
    ensures r.Ok? ==> forall a: Address :: a != env.caller ==> (IsClaimed(r.value, a) <==> IsClaimed(s, a))
  {
    if CheckCampaignOngoing(s, env).Err? then Err(ClaimPeriodOver)
    else if IsClaimed(s, env.caller) then Err(AlreadyClaimed)
    else
      var leaf := LeafHash(H, env.caller, value);
      if !VerifyProof(H, leaf, proof, index, s.root) then Err(InvalidProof)
      else Ok(s.(claimed := s.claimed[env.caller := true]))
  }

  /** `claim`. On the three check failures nothing is written and nothing is
      called. Past them the caller is marked, `value` is sent to the caller,
      and only a revert of that transfer is a failure (a returned `false`
      is not); the mark stays even then. */
  function Claim(H: HashFn, s: State, env: Env, value: U256, proof: seq<Hash>, index: U64, sent: CallOutcome): (r: Step)
    ensures ClaimPrepare(H, s, env, value, proof, index).Err? ==>
              r.result == Err(ClaimPrepare(H, s, env, value, proof, index).error)
              && r.state == s && r.calls == [] && r.events == []
    ensures ClaimPrepare(H, s, env, value, proof, index).Ok? ==>
              r.state == ClaimPrepare(H, s, env, value, proof, index).value
              && r.calls == [Transfer(env.caller, value)]
    ensures r.result.Ok? <==> ClaimPrepare(H, s, env, value, proof, index).Ok? && sent != Reverted
    ensures r.result.Ok? <==>
              env.now <= s.endTime && !IsClaimed(s, env.caller)
              && VerifyProof(H, LeafHash(H, env.caller, value), proof, index, s.root) && sent != Reverted
    ensures ClaimPrepare(H, s, env, value, proof, index).Ok? && sent == Reverted ==> r.result == Err(TransferFailed)
    ensures r.result.Ok? ==> r.events == [ClaimedEvent(env.caller, value)]
    ensures r.result.Err? ==> r.events == []
  {
    match ClaimPrepare(H, s, env, value, proof, index)
    case Err(e) => Step(Err(e), s, [], [])
    case Ok(marked) =>
      var calls := [Transfer(env.caller, value)];
      if sent == Reverted then Step(Err(TransferFailed), marked, calls, [])
      else Step(Ok(()), marked, calls, [ClaimedEvent(env.caller, value)])
  }

  /** `sweep_unclaimed`: the owner check comes first, then the claim window
      must be over; then the contract's balance is queried and all of it is
      sent to the caller. Storage never changes. */
  function Sweep(s: State, env: Env, balance: U256, sent: CallOutcome): (r: Step)
    ensures r.state == s && r.events == []
    ensures env.caller != s.owner ==> r.result == Err(Unauthorized) && r.calls == []
    ensures env.caller == s.owner && env.now <= s.endTime ==> r.result == Err(ClaimPeriodActive) && r.calls == []
    ensures env.caller == s.owner && env.now > s.endTime ==>
              r.calls == [BalanceOf(env.contract), Transfer(s.owner, balance)]
    ensures r.result.Ok? <==> env.caller == s.owner && env.now > s.endTime && sent != Reverted
    ensures env.caller == s.owner && env.now > s.endTime && sent == Reverted ==> r.result == Err(TransferFailed)
  {
    if CheckOwner(s, env).Err? then Step(Err(Unauthorized), s, [], [])
    else if CheckCampaignEnded(s, env).Err? then Step(Err(ClaimPeriodActive), s, [], [])
    else
      var calls := [BalanceOf(env.contract), Transfer(env.caller, balance)];
      if sent == Reverted then Step(Err(TransferFailed), s, calls, [])
      else Step(Ok(()), s, calls, [])
  }
}
