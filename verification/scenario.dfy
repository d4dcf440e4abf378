/** The two-recipient campaign used by the contract's end-to-end tests:
    Alice is owed 100 000 000 and Bob 500 000 000, the tree has the two
    leaves in that order, and the campaign ends at timestamp 3. */
module TwoLeafScenario {
  import opened Encoding
  import opened Merkle
  import opened Airdrop

  const ALICE_AMOUNT: U256 := 100_000_000
  const BOB_AMOUNT: U256 := 500_000_000
  const END_TIME: U64 := 3

  function Root2(H: HashFn, alice: Address, va: U256, bob: Address, vb: U256): Hash
  {
    HashPair(H, LeafHash(H, alice, va), LeafHash(H, bob, vb))
  }

  /** The scenario's root is the reference tree's root over the two leaves,
      and the test's proofs are the reference tree's paths. */
  lemma ScenarioIsATree(H: HashFn, alice: Address, va: U256, bob: Address, vb: U256)
    ensures var leaves := [LeafHash(H, alice, va), LeafHash(H, bob, vb)];
            && TreeRoot(H, leaves, 1) == Root2(H, alice, va, bob, vb)
            && TreeProof(H, leaves, 1, 0) == [LeafHash(H, bob, vb)]
            && TreeProof(H, leaves, 1, 1) == [LeafHash(H, alice, va)]
  {
    var leaves := [LeafHash(H, alice, va), LeafHash(H, bob, vb)];
    PairUpAt(H, leaves, 0);
  }

  /** Alice, at index 0 with Bob's leaf as proof, verifies. */
  lemma AliceProofVerifies(H: HashFn, alice: Address, va: U256, bob: Address, vb: U256)
    ensures VerifyProof(H, LeafHash(H, alice, va), [LeafHash(H, bob, vb)], 0, Root2(H, alice, va, bob, vb))
  {
    ScenarioIsATree(H, alice, va, bob, vb);
    ProofCompleteness(H, [LeafHash(H, alice, va), LeafHash(H, bob, vb)], 1, 0);
  }

  /** Bob, at index 1 with Alice's leaf as proof, verifies. */
  lemma BobProofVerifies(H: HashFn, alice: Address, va: U256, bob: Address, vb: U256)
    ensures VerifyProof(H, LeafHash(H, bob, vb), [LeafHash(H, alice, va)], 1, Root2(H, alice, va, bob, vb))
  {
    ScenarioIsATree(H, alice, va, bob, vb);
    ProofCompleteness(H, [LeafHash(H, alice, va), LeafHash(H, bob, vb)], 1, 1);
  }

  /** Alice's proof presented at index 1 computes the node with the leaves
      swapped, which is not the root unless the swapped and unswapped node
      preimages collide, or the two leaf preimages do. */
  lemma WrongIndexRejected(H: HashFn, alice: Address, va: U256, bob: Address, vb: U256)
    requires alice != bob
    ensures var la := LeafHash(H, alice, va);
            var lb := LeafHash(H, bob, vb);
            || !VerifyProof(H, la, [lb], 1, Root2(H, alice, va, bob, vb))
            || Collides(H, lb + la, la + lb)
            || Collides(H, alice + ToBigEndian(va), bob + ToBigEndian(vb))
  {
    var la := LeafHash(H, alice, va);
    var lb := LeafHash(H, bob, vb);
    if VerifyProof(H, la, [lb], 1, Root2(H, alice, va, bob, vb)) {
      calc {
        HashPair(H, lb, la);
        Climb(H, la, lb, 1);
        ComputeRoot(H, Climb(H, la, lb, 1), [lb][1..], 1 / 2);
        ComputeRoot(H, la, [lb], 1);
        HashPair(H, la, lb);
      }
      HashPairBinding(H, lb, la, la, lb);
      if la == lb {
        LeafHashBinding(H, alice, va, bob, vb);
      }
    }
  }

  /** The campaign deployed by Charlie before timestamp 3: Bob's claim at
      or before the end succeeds and sends him his amount; the same claim
      made again fails `AlreadyClaimed`; Alice's claim after the end fails
      `ClaimPeriodOver`; Bob cannot sweep, and Charlie can only sweep after
      the end. */
  lemma TwoLeafCampaign(H: HashFn, alice: Address, va: U256, bob: Address, vb: U256, charlie: Address, contract: Address, asset: Address,
                        deployedAt: U64, claimAt: U64, balance: U256)
    requires va == ALICE_AMOUNT && vb == BOB_AMOUNT
    requires alice != bob && bob != charlie
    requires deployedAt < END_TIME && claimAt <= END_TIME
    ensures New(Env(charlie, deployedAt, contract), asset, Root2(H, alice, va, bob, vb), END_TIME).Some?
    ensures var s := New(Env(charlie, deployedAt, contract), asset, Root2(H, alice, va, bob, vb), END_TIME).value;
            var first := Claim(H, s, Env(bob, claimAt, contract), vb, [LeafHash(H, alice, va)], 1, Returned(true));
            var again := Claim(H, first.state, Env(bob, claimAt, contract), vb, [LeafHash(H, alice, va)], 1, Returned(true));
            var late := Claim(H, first.state, Env(alice, END_TIME + 1, contract), va, [LeafHash(H, bob, vb)], 0, Returned(true));
            && first.result == Ok(())
            && first.calls == [Transfer(bob, vb)]
            && first.events == [ClaimedEvent(bob, vb)]
            && IsClaimed(first.state, bob) && !IsClaimed(first.state, alice)
            && again.result == Err(AlreadyClaimed) && again.calls == []
            && late.result == Err(ClaimPeriodOver) && late.calls == []
            && Sweep(first.state, Env(bob, END_TIME + 1, contract), balance, Returned(true)).result == Err(Unauthorized)
            && Sweep(first.state, Env(charlie, END_TIME, contract), balance, Returned(true)).result == Err(ClaimPeriodActive)
            && Sweep(first.state, Env(charlie, END_TIME + 1, contract), balance, Returned(true)).calls
               == [BalanceOf(contract), Transfer(charlie, balance)]
            && Sweep(first.state, Env(charlie, END_TIME + 1, contract), balance, Returned(true)).result == Ok(())
  {
    BobProofVerifies(H, alice, va, bob, vb);
  }
}
