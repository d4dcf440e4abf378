# Merkle airdrop contract, modelled in Dafny

This project models the `MerkleAirdrop` ink! contract
(`contracts/src/merkle_airdrop/lib.rs`). An owner commits a list of
`(address, amount)` recipients by storing only the Merkle root of that list.
Each recipient claims their own amount by presenting a Merkle proof. After
the claim window closes, the owner sweeps whatever is left.

The model has five modules:

- `Encoding` (`encoding.dfy`): bytes, 32-byte hashes, 20-byte addresses,
  `u64` and `U256`. It also defines the 32-byte big-endian encoding of an
  amount (`U256::to_big_endian`), with its decoder and round trips.
- `Merkle` (`merkle.dfy`): `hash` (keccak256 of a concatenation), the leaf
  derivation `hash(address || big_endian(value))`, and `verify_proof`. The
  proof verifier appears twice: as a recursive fold, and as the contract's loop,
  proved equal to the fold. The module also has a reference perfect Merkle
  tree. Against it, the fold is proved complete (every leaf verifies with its
  own path). It is also proved sound: a verifying proof either proves the
  stored leaf, or at some level of the proof's path the byte string the fold
  hashed differs from the two children of the tree node at that place but
  has the same digest.
- `Airdrop` (`airdrop.dfy`): the storage record and the constructor. Also
  `fund`, `claim` (split at the outbound transfer into `ClaimPrepare` and
  `Claim`), `sweep_unclaimed`, and the three guards `check_owner`,
  `check_campaign_ongoing` and `check_campaign_ended`.
- `Lifecycle` (`lifecycle.dfy`): runs sequences of messages against a
  campaign. A claim's message carries the calls that re-enter the contract
  during its token transfer, and these run from the storage the transfer
  sees. Here an address is *paid* when a `claim` passes its checks and
  requests the token transfer to it, whether or not that transfer then
  reverts (a reverted transfer forfeits the allocation, since the flag stays
  set). The module proves that each address is paid through `claim` at most
  once, that flags are never reset, that the configuration never changes, and
  that re-entrant or later claims by the same address fail.
- `TwoLeafScenario` (`scenario.dfy`): the two-recipient tree from the
  end-to-end test setup, and a campaign run over it.

Boundaries of the model:

- keccak256 is a parameter `H: seq<Byte> -> Hash`. The model makes no
  injectivity assumption; such an assumption could not hold for a function
  onto 32 bytes. Each rejection or soundness statement instead ends in an
  alternative that names the colliding inputs: `Collides(H, x, y)` for two
  specific different preimages `x` and `y` with the same digest, or
  `PathForged(H, leaves, depth, leaf, proof, index)`. That predicate says
  that at some level the string the fold itself hashed, the running node
  joined with the proof's sibling, collides with the children of the tree
  node on that path. So a forged proof yields two named preimages with the
  same digest on the proof's path. For the honest path of any leaf,
  `PathForged` is false whatever the hash function
  (`Merkle.HonestPathIsNotForged`).
- The token precompile (`transferFrom`, `transfer`, `balanceOf`) is a
  `CallOutcome` argument: `Reverted` (the call's `Err`) or `Returned(b)`
  (the call's `Ok(b)`). The balance reported by `balanceOf` is also an
  argument. Every transition returns the list of precompile calls it made, so
  "no transfer is attempted" reads as `calls == []`.
- The caller, the block timestamp and the contract's own address form an
  `Env` argument.
- An address is 20 bytes, the width of ink!'s `Address` (`H160`), which
  `as_bytes` feeds into the leaf.

What the contract does, as the model follows it:

- The constructor takes `campaign_end_time` as a `u64` and panics unless it
  is after the current block timestamp.
- The storage holds the asset, the root, the claimed-flag table, the owner
  and the end time, and nothing else.
- The owner is the account that deploys the contract.
- A leaf is the hash of the 20 address bytes followed directly by the 32-byte
  big-endian amount.
- `claim` writes the flag before the transfer and never clears it. If the
  transfer reverts, the function body still leaves the flag set, and the
  model keeps it set.
- `fund` accepts only `Ok(true)`. `claim` and `sweep_unclaimed` reject only
  `Err`, so a transfer returning `Ok(false)` counts as success there.

With 20-byte addresses, a leaf preimage is 52 bytes and an interior-node
preimage is 64 bytes. So although the code has no explicit domain separation,
a leaf and a node cannot share a preimage. A leaf digest equal to a node
digest is therefore a collision between the two preimages
(`LeafPreimageIsNotNodePreimage`).

## Model

| member | source | states |
|---|---|---|
| `Encoding.ToBigEndian` | contracts/src/merkle_airdrop/lib.rs:219 | the encoding of an amount is always 32 bytes and decodes back to that amount |
| `Encoding.EncodeOfDecode` | contracts/src/merkle_airdrop/lib.rs:219 | decoding any byte string and re-encoding it at the same width gives the same bytes (the other half of the round trip) |
| `Encoding.ToBigEndianInjective` | contracts/src/merkle_airdrop/lib.rs:219 | two amounts have equal encodings exactly when they are equal |
| `Encoding.FromBigEndianInjective` | contracts/src/merkle_airdrop/lib.rs:219 | two byte strings of one width decode to the same value exactly when they are equal |
| `Encoding.ToBigEndianSurjective` | contracts/src/merkle_airdrop/lib.rs:219 | every 32-byte string is the encoding of an amount below 2^256 |
| `Merkle.HashPairBinding` | contracts/src/merkle_airdrop/lib.rs:39-47 | if the left inputs have the same width, equal digests of two concatenations mean equal inputs, or else those two concatenations are different preimages with the same digest |
| `Merkle.LeafHashBinding` | contracts/src/merkle_airdrop/lib.rs:218-220 | equal leaves mean the same address and the same amount, or else the two leaf preimages (address bytes followed by the 32-byte amount) collide |
| `Merkle.LeafPreimageIsNotNodePreimage` | contracts/src/merkle_airdrop/lib.rs:218-220 | a leaf preimage (52 bytes) never equals an interior-node preimage (64 bytes), so a leaf digest equal to a node digest is a collision of those two preimages |
| `Merkle.VerifyProofLoop` | contracts/src/merkle_airdrop/lib.rs:50-64 | the in-place loop over the proof accepts exactly when the recursive fold reaches the root |
| `Merkle.EmptyProof` | contracts/src/merkle_airdrop/lib.rs:50-64 | an empty proof verifies if and only if the leaf is the root |
| `Merkle.ComputeRootSnoc` | contracts/src/merkle_airdrop/lib.rs:54-61 | the last sibling is combined at the top, on the side chosen by the index halved once per earlier sibling (an even value puts the running node on the left, an odd value puts it on the right) |
| `Merkle.ProofCompleteness` | contracts/src/merkle_airdrop/lib.rs:50-64 | in a perfect tree of any depth, every leaf verifies against the root with its own sibling path and position |
| `Merkle.ProofSoundness` | contracts/src/merkle_airdrop/lib.rs:50-64 | if a proof of the tree's depth verifies at a position, the presented leaf is the leaf at that position, or else at some level of the path the string the fold hashed (running node joined with the sibling) differs from the tree node's two children but has the same digest |
| `Airdrop.New` | contracts/src/merkle_airdrop/lib.rs:135-157 | construction succeeds if and only if the end time is strictly after now; the deployer is the owner, the root and end time are the ones given, and no address has claimed |
| `Airdrop.CheckOwner` | contracts/src/merkle_airdrop/lib.rs:284-290 | the owner guard either passes or fails with `Unauthorized` |
| `Airdrop.CheckCampaignOngoing` | contracts/src/merkle_airdrop/lib.rs:293-299 | the ongoing guard either passes or fails with `ClaimPeriodOver` |
| `Airdrop.CheckCampaignEnded` | contracts/src/merkle_airdrop/lib.rs:302-308 | the ended guard either passes or fails with `ClaimPeriodActive` |
| `Airdrop.Fund` | contracts/src/merkle_airdrop/lib.rs:177-193 | a zero amount fails `AmountCannotBeZero` with no call. Otherwise exactly one `transferFrom(caller, contract, amount)` is made, and only `Ok(true)` is success: `Ok(false)` and `Err` both give `TransferFailed`. Storage never changes |
| `Airdrop.ClaimPrepare` | contracts/src/merkle_airdrop/lib.rs:208-227 | `ClaimPeriodOver` exactly when now is past the end time. `AlreadyClaimed` exactly when in the window and already flagged. `InvalidProof` exactly when in the window, unflagged, and the caller's leaf does not verify. `Ok` exactly when in the window, unflagged, and the caller's leaf verifies against the root. On success the caller is flagged, no other flag changes and the configuration is unchanged |
| `Airdrop.Claim` | contracts/src/merkle_airdrop/lib.rs:208-238 | on the three check failures, storage is unchanged and no call or event happens. Success holds exactly when now is at or before the end time, the caller is unflagged, the caller's leaf verifies, and the transfer does not revert. Past the checks exactly `transfer(caller, value)` is called from the flagged storage, only a revert gives `TransferFailed` (the flag stays), and success emits `Claimed(caller, value)` |
| `Airdrop.Sweep` | contracts/src/merkle_airdrop/lib.rs:248-263 | a non-owner always gets `Unauthorized`. The owner gets `ClaimPeriodActive` while now is at or before the end time. After that, the balance is queried and exactly that balance is sent to the owner, and only a revert fails. Storage never changes |
| `Lifecycle.ExecAccounted` | contracts/src/merkle_airdrop/lib.rs:212-229 | one message, with every call that re-enters during its transfer, keeps the configuration and requests no claim transfer to any address twice. It requests none to an address already flagged, and it leaves an address flagged exactly when it was flagged before or had one transfer requested (a reverted transfer still counts) |
| `Lifecycle.RunAccounted` | contracts/src/merkle_airdrop/lib.rs:212-229 | the same bookkeeping invariant holds for any sequence of messages |
| `Lifecycle.ExecClaimIsClaim` | contracts/src/merkle_airdrop/lib.rs:208-238 | without re-entry, a claim in a run leaves the same storage as the `claim` message, and records a payout exactly when the message requested a transfer |
| `Lifecycle.CampaignPaysEachAddressAtMostOnce` | contracts/src/merkle_airdrop/lib.rs:135-238 | from construction through any messages and re-entrant calls, `claim` requests at most one transfer to each address, and an address is flagged exactly when one was requested, even if that transfer reverted. `root()`, the owner, the end time and the token asset stay as constructed |
| `Lifecycle.FlagsAreMonotonic` | contracts/src/merkle_airdrop/lib.rs:227 | a flagged address stays flagged after any run, and no claim transfer to it is requested in that run |
| `Lifecycle.ReentrantClaimFails` | contracts/src/merkle_airdrop/lib.rs:212-229 | from the storage handed to the transfer, a claim by the same recipient fails `AlreadyClaimed` (or `ClaimPeriodOver` past the end) with any amount, proof or index, and changes and calls nothing |
| `Lifecycle.LaterClaimFails` | contracts/src/merkle_airdrop/lib.rs:212-229 | once a claim has passed its checks, a later claim by the same caller, after any messages in between, fails in the same way with no call |
| `Lifecycle.TimeGuardsComplementary` | contracts/src/merkle_airdrop/lib.rs:293-308 | at every timestamp exactly one of the two time guards passes, and at the end time itself the ongoing guard passes |
| `Lifecycle.EndTimeIsStillClaimWindow` | contracts/src/merkle_airdrop/lib.rs:293-308 | at the end time an unflagged claim is judged only on its proof, and the owner's sweep fails `ClaimPeriodActive` |
| `Lifecycle.ReturnedFalseOnlyFailsFund` | contracts/src/merkle_airdrop/lib.rs:185-260 | a precompile call that returns `Ok(false)` makes `fund` fail `TransferFailed`, but is success for `claim` and `sweep_unclaimed` |
| `TwoLeafScenario.ScenarioIsATree` | contracts/src/merkle_airdrop/e2e_tests.rs:53-67 | the test's root is the reference tree's root over the two leaves, and the test's proofs are the reference tree's paths |
| `TwoLeafScenario.AliceProofVerifies` | contracts/src/merkle_airdrop/e2e_tests.rs:53-67 | Alice's leaf with proof `[leaf_bob]` at index 0 verifies |
| `TwoLeafScenario.BobProofVerifies` | contracts/src/merkle_airdrop/e2e_tests.rs:53-67 | Bob's leaf with proof `[leaf_alice]` at index 1 verifies |
| `TwoLeafScenario.WrongIndexRejected` | contracts/src/merkle_airdrop/e2e_tests.rs:53-67 | for distinct accounts, Alice's proof at index 1 is rejected, unless `leaf_bob || leaf_alice` collides with `leaf_alice || leaf_bob`, or the two leaf preimages collide |
| `TwoLeafScenario.TwoLeafCampaign` | contracts/src/merkle_airdrop/e2e_tests.rs:762-776 | Bob's claim succeeds and sends his amount, and a second identical claim fails `AlreadyClaimed`. A claim after the end time fails `ClaimPeriodOver`. A non-owner's sweep fails `Unauthorized`. The owner's sweep fails `ClaimPeriodActive` at the end time; after it, the balance is queried, all of it is transferred to the owner, and the sweep succeeds |

The remaining core functions are definitions used by the members above
rather than members with a row of their own:

- `hash` (lib.rs:39-47) is `Merkle.HashPair`; `Merkle.HashPairBinding` pins it.
- The leaf (lib.rs:218-220) is `Merkle.LeafHash`; `Merkle.LeafHashBinding` and
  `Merkle.LeafPreimageIsNotNodePreimage` pin it.
- `verify_proof` (lib.rs:50-64) is `Merkle.VerifyProof`, the fold
  `Merkle.ComputeRoot` compared with the root. `Merkle.VerifyProofLoop`,
  `Merkle.EmptyProof`, `Merkle.ProofCompleteness` and `Merkle.ProofSoundness`
  pin it.
- `root` (lib.rs:273-275) is `Airdrop.Root`; `Airdrop.New` states it returns
  the constructed root and `Lifecycle.CampaignPaysEachAddressAtMostOnce` that
  it never changes.
- `is_claimed` (lib.rs:279-281) is `Airdrop.IsClaimed`, `false` for an
  address never written. `Airdrop.New`, `Airdrop.ClaimPrepare`,
  `Lifecycle.FlagsAreMonotonic` and `Lifecycle.CampaignPaysEachAddressAtMostOnce`
  pin it.

## Left out

- keccak256 (`hash_bytes::<Keccak256>`): replaced by an arbitrary hash-function parameter; its cryptographic strength appears only as the alternative that names two colliding preimages.
- The token precompile (`AssetHubPrecompileRef`): it is a foreign contract. Its results are arguments. The model does not track token balances. So it does not state that `fund` locks the amount into the contract (lib.rs:161-162), nor that `sweep_unclaimed` leaves the contract with no balance after sending the remaining balance to the owner (lib.rs:242).
- `asset_id`: it only forwards to the precompile's `assetId`.
- Host rollback: if the host discards the writes of a message that returns `Err`, a `TransferFailed` claim would not keep its flag. Nor would the writes and transfer requests of calls that re-entered during that transfer. The model follows the function body, which keeps all of them.
- Event transport: `Claimed` is returned as a value, not emitted.
- Storage layout, SCALE and Solidity error encodings, `payable`, and address conversion (`from_addr`).
- U256 arithmetic beyond the big-endian encoding.
- The end-to-end test scaffolding: its upload, instantiation and async client plumbing.
- Airdrop.CheckOwner: its own contract only names its error. Who passes is stated by `Airdrop.Sweep`.
- Airdrop.CheckCampaignOngoing: its own contract only names its error. Which timestamps pass is stated by `Lifecycle.TimeGuardsComplementary` and `Airdrop.ClaimPrepare`.
- Airdrop.CheckCampaignEnded: its own contract only names its error. Which timestamps pass is stated by `Lifecycle.TimeGuardsComplementary` and `Airdrop.Sweep`.
- Merkle.ProofSoundness: stated only for an index inside the tree and a proof as long as the tree is deep. The verifier itself checks neither: higher index bits are ignored, and a proof of another length just yields another hash.
- Re-entry: only during `claim`'s transfer. `fund` and `sweep_unclaimed` make their external calls without having written storage and write nothing afterwards. A call re-entering during them is therefore the same as a message sent next.
