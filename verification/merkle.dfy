/** The Merkle proof verifier of the airdrop contract: the two-input hash, the
    leaf derivation, and the bottom-up fold of a leaf through its sibling
    hashes. keccak256 itself is not modelled: every definition is
    parameterised by the hash function `H`, and wherever a proof must be
    rejected the conclusion is "rejected, or `H` maps two named, different
    preimages to one digest". */
module Merkle {
  import opened Encoding

  /** A stand-in for keccak256: any function from byte strings to 32 bytes. */
  type HashFn = seq<Byte> -> Hash

  /** `a` and `b` are two different preimages with the same digest. */
  ghost predicate Collides(H: HashFn, a: seq<Byte>, b: seq<Byte>)
  {
    a != b && H(a) == H(b)
  }

  /** Two byte strings joined, typed as a byte string rather than a digest. */
  function Cat(a: seq<Byte>, b: seq<Byte>): seq<Byte>
  {
    a + b
  }

  /** `hash(left, right)`: the digest of the concatenation of both inputs. */
  function HashPair(H: HashFn, left: seq<Byte>, right: seq<Byte>): Hash
  {
    H(left + right)
  }

  /** With the width of the left input fixed, equal digests mean equal
      inputs, unless the two concatenations themselves collide. */
  lemma HashPairBinding(H: HashFn, a: seq<Byte>, b: seq<Byte>, c: seq<Byte>, d: seq<Byte>)
    requires |a| == |c|
    requires HashPair(H, a, b) == HashPair(H, c, d)
    ensures (a == c && b == d) || Collides(H, a + b, c + d)
  {
    if a + b == c + d {
      assert a == (a + b)[..|a|] == (c + d)[..|c|] == c;
      assert b == (a + b)[|a|..] == (c + d)[|c|..] == d;
    }
  }

  /** A recipient's leaf: the hash of its address bytes followed by the
      32-byte big-endian encoding of its amount. */
  function LeafHash(H: HashFn, account: Address, value: U256): Hash
  {
    HashPair(H, account, ToBigEndian(value))
  }

  /** A leaf commits to both the account and the amount, unless the two
      leaf preimages collide. */
  lemma LeafHashBinding(H: HashFn, a1: Address, v1: U256, a2: Address, v2: U256)
    requires LeafHash(H, a1, v1) == LeafHash(H, a2, v2)
    ensures (a1 == a2 && v1 == v2) || Collides(H, a1 + ToBigEndian(v1), a2 + ToBigEndian(v2))
  {
    HashPairBinding(H, a1, ToBigEndian(v1), a2, ToBigEndian(v2));
    ToBigEndianInjective(v1, v2);
  }

  /** Leaf and interior node preimages have different lengths (52 and 64
      bytes), so a leaf digest equal to an interior node's digest is a
      collision between the leaf preimage and the node preimage. */
  lemma LeafPreimageIsNotNodePreimage(H: HashFn, account: Address, value: U256, left: Hash, right: Hash)
    ensures |account + ToBigEndian(value)| == ADDRESS_LEN + U256_LEN
    ensures |left + right| == 2 * HASH_LEN
    ensures account + ToBigEndian(value) != left + right
    ensures LeafHash(H, account, value) == HashPair(H, left, right) ==>
              Collides(H, account + ToBigEndian(value), left + right)
  {
  }

  /** One level of the fold: an even index means the running node is the
      left child, an odd index that it is the right child. */
  function Climb(H: HashFn, computed: Hash, sibling: Hash, index: U64): Hash
  {
    if index % 2 == 0 then HashPair(H, computed, sibling) else HashPair(H, sibling, computed)
  }

  /** The node reached by folding `leaf` through `proof`, halving the index
      after each sibling. */
  function ComputeRoot(H: HashFn, leaf: Hash, proof: seq<Hash>, index: U64): Hash
    decreases |proof|
  {
    if |proof| == 0 then leaf
    else ComputeRoot(H, Climb(H, leaf, proof[0], index), proof[1..], index / 2)
  }

  /** `verify_proof`. */
  predicate VerifyProof(H: HashFn, leaf: Hash, proof: seq<Hash>, index: U64, root: Hash)
  {
    ComputeRoot(H, leaf, proof, index) == root
  }

  /** The contract's loop, which walks the proof front to back with a
      mutable running node and index, computes the recursive fold. */
  method VerifyProofLoop(H: HashFn, leaf: Hash, proof: seq<Hash>, index: U64, root: Hash)
    returns (verified: bool)
    ensures verified <==> VerifyProof(H, leaf, proof, index, root)
  {
    var computed := leaf;
    var idx := index;
    var k := 0;
    while k < |proof|
      invariant 0 <= k <= |proof|
      invariant ComputeRoot(H, computed, proof[k..], idx) == ComputeRoot(H, leaf, proof, index)
    {
      assert proof[k..][1..] == proof[k + 1..];
      if idx % 2 == 0 {
        computed := HashPair(H, computed, proof[k]);
      } else {
        computed := HashPair(H, proof[k], computed);
      }
      idx := idx / 2;
      k := k + 1;
    }
    verified := computed == root;
  }

  /** An empty proof accepts exactly the root itself. */
  lemma EmptyProof(H: HashFn, leaf: Hash, index: U64, root: Hash)
    ensures VerifyProof(H, leaf, [], index, root) <==> leaf == root
  {
  }

  /** The index after `k` halvings. */
  function Shift(index: U64, k: nat): (r: U64)
    ensures r <= index
  {
    if k == 0 then index else Shift(index / 2, k - 1)
  }

  /** Folding from the other end: the last sibling is combined at the top,
      on the side chosen by the index bit at that height. */
  lemma {:induction false} ComputeRootSnoc(H: HashFn, leaf: Hash, proof: seq<Hash>, sibling: Hash, index: U64)
    ensures ComputeRoot(H, leaf, proof + [sibling], index)
         == Climb(H, ComputeRoot(H, leaf, proof, index), sibling, Shift(index, |proof|))
    decreases |proof|
  {
    if |proof| > 0 {
      assert (proof + [sibling])[1..] == proof[1..] + [sibling];
      ComputeRootSnoc(H, Climb(H, leaf, proof[0], index), proof[1..], sibling, index / 2);
    }
  }

  // A perfect binary Merkle tree, given by its leaf level, as the reference
  // against which the fold is judged. The contract never builds trees; this
  // is the off-chain builder's convention that proofs are expected to follow.

  function Pow2(n: nat): (p: nat)
    ensures p >= 1
  {
    if n == 0 then 1 else 2 * Pow2(n - 1)
  }

  /** The next level up: each adjacent pair hashed left-then-right. */
  function PairUp(H: HashFn, level: seq<Hash>): (r: seq<Hash>)
    requires |level| % 2 == 0
    ensures |r| == |level| / 2
    decreases |level|
  {
    if |level| == 0 then [] else [HashPair(H, level[0], level[1])] + PairUp(H, level[2..])
  }

  lemma {:induction false} PairUpAt(H: HashFn, level: seq<Hash>, k: nat)
    requires |level| % 2 == 0
    requires k < |level| / 2
    ensures PairUp(H, level)[k] == HashPair(H, level[2 * k], level[2 * k + 1])
    decreases k
  {
    if k > 0 {
      PairUpAt(H, level[2..], k - 1);
    }
  }

  function TreeRoot(H: HashFn, leaves: seq<Hash>, depth: nat): Hash
    requires |leaves| == Pow2(depth)
    decreases depth
  {
    if depth == 0 then leaves[0] else TreeRoot(H, PairUp(H, leaves), depth - 1)
  }

  /** The siblings on the path from leaf `index` to the root, bottom first. */
  function TreeProof(H: HashFn, leaves: seq<Hash>, depth: nat, index: nat): (proof: seq<Hash>)
    requires |leaves| == Pow2(depth)
    requires index < |leaves|
    ensures |proof| == depth
    decreases depth
  {
    if depth == 0 then []
    else
      var sibling := if index % 2 == 0 then leaves[index + 1] else leaves[index - 1];
      [sibling] + TreeProof(H, PairUp(H, leaves), depth - 1, index / 2)
  }

  /** The parent of a position on level `depth` lies on the level above. */
  lemma ParentIndex(depth: nat, index: nat)
    requires depth > 0
    requires index < Pow2(depth)
    ensures Pow2(depth) == 2 * Pow2(depth - 1)
    ensures index / 2 < Pow2(depth - 1)
  {
  }

  /** Position `index` and its sibling both lie on level `depth`, and the
      parent sits at `index / 2` one level up. */
  lemma HalfIndex(leaves: seq<Hash>, depth: nat, index: nat)
    requires depth > 0
    requires |leaves| == Pow2(depth)
    requires index < |leaves|
    ensures |leaves| == 2 * Pow2(depth - 1)
    ensures index / 2 < Pow2(depth - 1)
    ensures index % 2 == 0 ==> 2 * (index / 2) == index && index + 1 < |leaves|
    ensures index % 2 == 1 ==> 2 * (index / 2) + 1 == index
  {
  }

  /** `x` is a preimage, other than the two children, of the parent of the
      pair `2 * j`, `2 * j + 1` of `level`. */
  ghost predicate ForgedAt(H: HashFn, level: seq<Hash>, j: nat, x: seq<Byte>)
  {
    2 * j + 1 < |level| && Collides(H, x, Cat(level[2 * j], level[2 * j + 1]))
  }

  /** At some level of the fold of `leaf` through `proof`, the byte string
      the fold hashed differs from the children of the tree node at that
      place on the path, yet has the same digest. */
  ghost predicate PathForged(H: HashFn, leaves: seq<Hash>, depth: nat, leaf: Hash, proof: seq<Hash>, index: U64)
    requires |leaves| == Pow2(depth)
    requires |proof| == depth
    decreases depth
  {
    if depth == 0 then false
    else
      PathLevelUp(H, leaves, depth, proof);
      var sibling := proof[0];
      || ForgedAt(H, leaves, index / 2, if index % 2 == 0 then Cat(leaf, sibling) else Cat(sibling, leaf))
      || PathForged(H, PairUp(H, leaves), depth - 1, Climb(H, leaf, sibling, index), proof[1..], index / 2)
  }

  /** The sizes one level up the tree and one sibling along the path. */
  lemma PathLevelUp(H: HashFn, leaves: seq<Hash>, depth: nat, proof: seq<Hash>)
    requires depth > 0
    requires |leaves| == Pow2(depth)
    requires |proof| == depth
    ensures |leaves| % 2 == 0
    ensures |PairUp(H, leaves)| == Pow2(depth - 1)
    ensures |proof[1..]| == depth - 1
  {
    ParentIndex(depth, 0);
  }

  /** If one level of the fold lands on the parent of `index`, the running
      node was the leaf at `index`, unless the preimage the fold hashed is a
      second preimage of that parent. */
  lemma ClimbBinding(H: HashFn, leaves: seq<Hash>, depth: nat, leaf: Hash, sibling: Hash, index: U64)
    requires depth > 0
    requires |leaves| == Pow2(depth)
    requires index < |leaves|
    requires Climb(H, leaf, sibling, index) == PairUp(H, leaves)[index / 2]
    ensures leaf == leaves[index]
            || ForgedAt(H, leaves, index / 2, if index % 2 == 0 then Cat(leaf, sibling) else Cat(sibling, leaf))
  {
    HalfIndex(leaves, depth, index);
    PairUpAt(H, leaves, index / 2);
    if index % 2 == 0 {
      HashPairBinding(H, leaf, sibling, leaves[index], leaves[index + 1]);
    } else {
      HashPairBinding(H, sibling, leaf, leaves[index - 1], leaves[index]);
    }
  }

  /** The first sibling of a path lifts the leaf to its parent, and the rest
      of the path is the parent's path one level up. */
  lemma ClimbToParent(H: HashFn, leaves: seq<Hash>, depth: nat, index: U64)
    requires depth > 0
    requires |leaves| == Pow2(depth)
    requires index < |leaves|
    ensures |leaves| % 2 == 0 && index / 2 < |leaves| / 2 == Pow2(depth - 1)
    ensures Climb(H, leaves[index], TreeProof(H, leaves, depth, index)[0], index) == PairUp(H, leaves)[index / 2]
    ensures TreeProof(H, leaves, depth, index)[1..] == TreeProof(H, PairUp(H, leaves), depth - 1, index / 2)
  {
    HalfIndex(leaves, depth, index);
    PairUpAt(H, leaves, index / 2);
  }

  /** One level of the fold: from a node whose first sibling lifts it to
      `parent`, the fold continues from `parent` with the rest of the path. */
  lemma FoldStep(H: HashFn, leaf: Hash, proof: seq<Hash>, index: U64, parent: Hash)
    requires |proof| > 0
    requires Climb(H, leaf, proof[0], index) == parent
    ensures ComputeRoot(H, leaf, proof, index) == ComputeRoot(H, parent, proof[1..], index / 2)
  {
  }

  /** The level above a tree of depth `depth` is a tree of depth
      `depth - 1` that contains the parent of `index`. */
  lemma LevelUp(H: HashFn, leaves: seq<Hash>, depth: nat, index: nat)
    requires depth > 0
    requires |leaves| == Pow2(depth)
    requires index < |leaves|
    ensures |PairUp(H, leaves)| == Pow2(depth - 1)
    ensures index / 2 < |PairUp(H, leaves)|
  {
    ParentIndex(depth, index);
  }

  /** If the parent of `index` verifies with its path one level up, the leaf
      at `index` verifies with its own path. */
  lemma CompletenessStep(H: HashFn, leaves: seq<Hash>, depth: nat, index: U64)
    requires depth > 0
    requires |leaves| == Pow2(depth)
    requires index < |leaves|
    requires |PairUp(H, leaves)| == Pow2(depth - 1) && index / 2 < |PairUp(H, leaves)|
    requires VerifyProof(H, PairUp(H, leaves)[index / 2], TreeProof(H, PairUp(H, leaves), depth - 1, index / 2),
                         index / 2, TreeRoot(H, PairUp(H, leaves), depth - 1))
    ensures VerifyProof(H, leaves[index], TreeProof(H, leaves, depth, index), index, TreeRoot(H, leaves, depth))
  {
    var up := PairUp(H, leaves);
    ClimbToParent(H, leaves, depth, index);
    FoldStep(H, leaves[index], TreeProof(H, leaves, depth, index), index, up[index / 2]);
  }

  /** Completeness: every leaf of a tree verifies against the tree's root
      with its own path and position. */
  lemma {:induction false} ProofCompleteness(H: HashFn, leaves: seq<Hash>, depth: nat, index: U64)
    requires |leaves| == Pow2(depth)
    requires index < |leaves|
    ensures VerifyProof(H, leaves[index], TreeProof(H, leaves, depth, index), index, TreeRoot(H, leaves, depth))
    decreases depth
  {
    if depth > 0 {
      LevelUp(H, leaves, depth, index);
      ProofCompleteness(H, PairUp(H, leaves), depth - 1, index / 2);
      CompletenessStep(H, leaves, depth, index);
    }
  }

  /** A proof that verifies against a tree verifies one level up, from the
      climbed node, against the tree of parents. */
  lemma VerifyOneLevelUp(H: HashFn, leaves: seq<Hash>, depth: nat, leaf: Hash, proof: seq<Hash>, index: U64)
    requires depth > 0
    requires |leaves| == Pow2(depth)
    requires index < |leaves|
    requires |proof| == depth
    requires VerifyProof(H, leaf, proof, index, TreeRoot(H, leaves, depth))
    ensures |PairUp(H, leaves)| == Pow2(depth - 1) && index / 2 < Pow2(depth - 1) && |proof[1..]| == depth - 1
    ensures VerifyProof(H, Climb(H, leaf, proof[0], index), proof[1..], index / 2, TreeRoot(H, PairUp(H, leaves), depth - 1))
  {
    ParentIndex(depth, index);
    FoldStep(H, leaf, proof, index, Climb(H, leaf, proof[0], index));
    assert TreeRoot(H, leaves, depth) == TreeRoot(H, PairUp(H, leaves), depth - 1);
  }

  /** Soundness: a proof of the tree's depth that verifies at position
      `index` proves the leaf stored there, unless a string the fold hashed
      on the way up collides with the children of the tree node it stands
      for. */
  lemma {:induction false} ProofSoundness(H: HashFn, leaves: seq<Hash>, depth: nat, leaf: Hash, proof: seq<Hash>, index: U64)
    requires |leaves| == Pow2(depth)
    requires index < |leaves|
    requires |proof| == depth
    requires VerifyProof(H, leaf, proof, index, TreeRoot(H, leaves, depth))
    ensures leaf == leaves[index] || PathForged(H, leaves, depth, leaf, proof, index)
    decreases depth
  {
    if depth > 0 {
      VerifyOneLevelUp(H, leaves, depth, leaf, proof, index);
      ProofSoundness(H, PairUp(H, leaves), depth - 1, Climb(H, leaf, proof[0], index), proof[1..], index / 2);
      if Climb(H, leaf, proof[0], index) == PairUp(H, leaves)[index / 2] {
        ClimbBinding(H, leaves, depth, leaf, proof[0], index);
      }
    }
  }

  /** The honest path of every leaf is never forged, whatever `H` is, so
      the alternative in `ProofSoundness` is a collision the forger had to
      find, not a property of the hash function alone. */
  lemma {:induction false} HonestPathIsNotForged(H: HashFn, leaves: seq<Hash>, depth: nat, index: U64)
    requires |leaves| == Pow2(depth)
    requires index < |leaves|
    ensures !PathForged(H, leaves, depth, leaves[index], TreeProof(H, leaves, depth, index), index)
    decreases depth
  {
    if depth > 0 {
      var proof := TreeProof(H, leaves, depth, index);
      HalfIndex(leaves, depth, index);
      ClimbToParent(H, leaves, depth, index);
      LevelUp(H, leaves, depth, index);
      HonestPathIsNotForged(H, PairUp(H, leaves), depth - 1, index / 2);
      assert !ForgedAt(H, leaves, index / 2,
                       if index % 2 == 0 then Cat(leaves[index], proof[0]) else Cat(proof[0], leaves[index]));
    }
  }
}
