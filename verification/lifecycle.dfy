/** Sequences of messages against one campaign, including messages that
    re-enter the contract while `claim`'s outbound transfer is in flight. */
module Lifecycle {
  import opened Encoding
  import opened Merkle
  import opened Airdrop

  /** One message with the outcomes of the precompile calls it will make.
      A claim also carries the calls the precompile makes back into the
      contract during its transfer. */
  datatype Message =
    | FundMsg(amount: U256, pulled: CallOutcome)
    | ClaimMsg(value: U256, proof: seq<Hash>, index: U64, reentry: seq<Call>, sent: CallOutcome)
    | SweepMsg(balance: U256, sent: CallOutcome)

  datatype Call = Call(env: Env, msg: Message)

  /** The storage after a run, and the recipient of every claim transfer
      requested during it, whether or not that transfer then reverted: a
      reverted transfer leaves its recipient flagged and forfeits the
      allocation. */
  datatype Trace = Trace(state: State, payouts: seq<Address>)

  function Exec(H: HashFn, s: State, c: Call): Trace
    decreases c
  {
    match c.msg
    case FundMsg(amount, pulled) => Trace(Fund(s, c.env, amount, pulled).state, [])
    case SweepMsg(balance, sent) => Trace(Sweep(s, c.env, balance, sent).state, [])
    case ClaimMsg(value, proof, index, reentry, sent) =>
      match ClaimPrepare(H, s, c.env, value, proof, index)
      case Err(_) => Trace(s, [])
      case Ok(marked) =>
        var inner := Run(H, marked, reentry);
        Trace(inner.state, [c.env.caller] + inner.payouts)
  }

  function Run(H: HashFn, s: State, calls: seq<Call>): Trace
    decreases calls
  {
    if |calls| == 0 then Trace(s, [])
    else
      var first := Exec(H, s, calls[0]);
      var rest := Run(H, first.state, calls[1..]);
      Trace(rest.state, first.payouts + rest.payouts)
  }

  /** How many times `a` occurs in `xs`. */
  function Count(xs: seq<Address>, a: Address): nat
  {
    if |xs| == 0 then 0 else (if xs[0] == a then 1 else 0) + Count(xs[1..], a)
  }

  lemma {:induction false} CountAppend(xs: seq<Address>, ys: seq<Address>, a: Address)
    ensures Count(xs + ys, a) == Count(xs, a) + Count(ys, a)
  {
    if |xs| == 0 {
      assert xs + ys == ys;
    } else {
      assert (xs + ys)[1..] == xs[1..] + ys;
      CountAppend(xs[1..], ys, a);
    }
  }

  /** The ledger of flags accounts for every payout of a run that started
      in `s`: the configuration is untouched, no address is paid twice, an
      address already flagged is never paid, and an address ends up flagged
      exactly when it was flagged before or was paid once. */
  ghost predicate Accounted(s: State, t: Trace)
  {
    && SameConfig(t.state, s)
    && forall a: Address :: Count(t.payouts, a) <= 1
         && (IsClaimed(s, a) ==> Count(t.payouts, a) == 0)
         && (IsClaimed(t.state, a) <==> IsClaimed(s, a) || Count(t.payouts, a) == 1)
  }

  lemma AccountedCompose(s: State, t1: Trace, t2: Trace)
    requires Accounted(s, t1)
    requires Accounted(t1.state, t2)
    ensures Accounted(s, Trace(t2.state, t1.payouts + t2.payouts))
  {
    forall a: Address
      ensures Count(t1.payouts + t2.payouts, a) == Count(t1.payouts, a) + Count(t2.payouts, a)
    {
      CountAppend(t1.payouts, t2.payouts, a);
    }
  }

  /** Every message, with everything that re-enters during it, keeps the
      books: in particular a claim's own payout is recorded by the flag it
      wrote before the transfer, so nothing re-entering can be paid to the
      same address again. */
  lemma {:induction false} ExecAccounted(H: HashFn, s: State, c: Call)
    ensures Accounted(s, Exec(H, s, c))
    decreases c
  {
    match c.msg
    case FundMsg(_, _) =>
    case SweepMsg(_, _) =>
    case ClaimMsg(value, proof, index, reentry, sent) =>
      match ClaimPrepare(H, s, c.env, value, proof, index)
      case Err(_) =>
      case Ok(marked) =>
        assert Accounted(s, Trace(marked, [c.env.caller])) by {
          forall a: Address ensures Count([c.env.caller], a) == if a == c.env.caller then 1 else 0 {
            assert [c.env.caller][1..] == [];
          }
        }
        RunAccounted(H, marked, reentry);
        AccountedCompose(s, Trace(marked, [c.env.caller]), Run(H, marked, reentry));
  }

  lemma {:induction false} RunAccounted(H: HashFn, s: State, calls: seq<Call>)
    ensures Accounted(s, Run(H, s, calls))
    decreases calls
  {
    if |calls| == 0 {
      assert forall a: Address :: Count([], a) == 0;
    } else {
      var first := Exec(H, s, calls[0]);
      ExecAccounted(H, s, calls[0]);
      RunAccounted(H, first.state, calls[1..]);
      AccountedCompose(s, first, Run(H, first.state, calls[1..]));
    }
  }

  /** Without re-entry, running a claim is the `claim` message: same
      storage, and a payout recorded exactly when the transfer was requested. */
  lemma ExecClaimIsClaim(H: HashFn, s: State, env: Env, value: U256, proof: seq<Hash>, index: U64, sent: CallOutcome)
    ensures var t := Exec(H, s, Call(env, ClaimMsg(value, proof, index, [], sent)));
            var r := Claim(H, s, env, value, proof, index, sent);
            t.state == r.state
            && (r.calls == [Transfer(env.caller, value)] <==> t.payouts == [env.caller])
            && (r.calls == [] <==> t.payouts == [])
  {
  }

  /** A campaign, from construction through any sequence of messages and
      re-entrant calls, pays each address through `claim` at most once and
      keeps the root, owner, end time and token it was constructed with. */
  lemma CampaignPaysEachAddressAtMostOnce(H: HashFn, env: Env, asset: Address, root: Hash, endTime: U64, calls: seq<Call>)
    requires endTime > env.now
    ensures New(env, asset, root, endTime).Some?
    ensures var t := Run(H, New(env, asset, root, endTime).value, calls);
            && Root(t.state) == root && t.state.owner == env.caller && t.state.endTime == endTime
            && t.state.asset == asset
            && forall a: Address :: Count(t.payouts, a) <= 1 && (IsClaimed(t.state, a) <==> Count(t.payouts, a) == 1)
  {
    RunAccounted(H, New(env, asset, root, endTime).value, calls);
  }

  /** Flags are never reset: whatever runs after a state, every address
      flagged in it stays flagged. */
  lemma FlagsAreMonotonic(H: HashFn, s: State, calls: seq<Call>, a: Address)
    requires IsClaimed(s, a)
    ensures IsClaimed(Run(H, s, calls).state, a)
    ensures Count(Run(H, s, calls).payouts, a) == 0
  {
    RunAccounted(H, s, calls);
  }

  /** A re-entrant claim by the same recipient, made from the storage the
      precompile sees during the transfer, fails with `AlreadyClaimed` (or
      `ClaimPeriodOver` if its timestamp is past the end) whatever amount,
      proof and index it presents, and changes and calls nothing. */
  lemma ReentrantClaimFails(H: HashFn, s: State, env: Env, value: U256, proof: seq<Hash>, index: U64,
                            env2: Env, value2: U256, proof2: seq<Hash>, index2: U64, sent2: CallOutcome)
    requires ClaimPrepare(H, s, env, value, proof, index).Ok?
    requires env2.caller == env.caller
    ensures var mid := ClaimPrepare(H, s, env, value, proof, index).value;
            var r := Claim(H, mid, env2, value2, proof2, index2, sent2);
            && r.state == mid && r.calls == [] && r.events == []
            && r.result == (if env2.now <= s.endTime then Err(AlreadyClaimed) else Err(ClaimPeriodOver))
  {
  }

  /** Once a claim has passed its checks, every later claim by the same
      caller fails, after any sequence of messages in between. */
  lemma LaterClaimFails(H: HashFn, s: State, env: Env, value: U256, proof: seq<Hash>, index: U64, sent: CallOutcome,
                        between: seq<Call>, env2: Env, value2: U256, proof2: seq<Hash>, index2: U64, sent2: CallOutcome)
    requires Claim(H, s, env, value, proof, index, sent).calls != []
    requires env2.caller == env.caller
    ensures var later := Run(H, Claim(H, s, env, value, proof, index, sent).state, between).state;
            var r := Claim(H, later, env2, value2, proof2, index2, sent2);
            && r.calls == [] && r.state == later
            && r.result == (if env2.now <= s.endTime then Err(AlreadyClaimed) else Err(ClaimPeriodOver))
  {
    var first := Claim(H, s, env, value, proof, index, sent).state;
    RunAccounted(H, first, between);
  }

  /** Exactly one of the two time guards passes at any timestamp; the end
      time itself belongs to the claim window. */
  lemma TimeGuardsComplementary(s: State, env: Env)
    ensures CheckCampaignOngoing(s, env).Ok? != CheckCampaignEnded(s, env).Ok?
    ensures env.now == s.endTime ==> CheckCampaignOngoing(s, env).Ok? && CheckCampaignEnded(s, env) == Err(ClaimPeriodActive)
  {
  }

  /** At the end time a claim is still judged on its proof, and the owner's
      sweep is refused as too early. */
  lemma EndTimeIsStillClaimWindow(H: HashFn, s: State, env: Env, value: U256, proof: seq<Hash>, index: U64, balance: U256, sent: CallOutcome)
    requires env.now == s.endTime
    requires !IsClaimed(s, env.caller)
    ensures ClaimPrepare(H, s, env, value, proof, index).Ok? <==>
              VerifyProof(H, LeafHash(H, env.caller, value), proof, index, s.root)
    ensures Sweep(s, env.(caller := s.owner), balance, sent).result == Err(ClaimPeriodActive)
  {
  }

  /** A precompile call that returns `false` without reverting fails `fund`
      but is success for `claim` and `sweep_unclaimed`. */
  lemma ReturnedFalseOnlyFailsFund(H: HashFn, s: State, env: Env, amount: U256, value: U256, proof: seq<Hash>, index: U64, balance: U256)
    requires amount != 0
    ensures Fund(s, env, amount, Returned(false)).result == Err(TransferFailed)
    ensures ClaimPrepare(H, s, env, value, proof, index).Ok? ==>
              Claim(H, s, env, value, proof, index, Returned(false)).result == Ok(())
    ensures env.caller == s.owner && env.now > s.endTime ==>
              Sweep(s, env, balance, Returned(false)).result == Ok(())
  {
  }
}
