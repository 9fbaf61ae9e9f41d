/** Blocks of the chain. The block class itself (hashing and proof-of-work
    mining) is abstract here: the digest (SHA-256 over the payload's
    serialisation, the previous hash and the nonce) and the nonce search are
    supplied as function values. */
module Blocks {

  /** A digest of (payload, previous hash, nonce) into a hash string. */
  type Digest<-P> = (P, string, nat) -> string

  /** The outcome of the proof-of-work search: given the payload, the previous
      hash and the difficulty prefix, the nonce at which the search stops. */
  type Miner<-P> = (P, string, string) -> nat

  datatype Block<P> = Block(payload: P, previousHash: string, nonce: nat, hash: string)

  /** The stored hash is the digest of the block's own fields. */
  predicate Sealed<P>(digest: Digest<P>, b: Block<P>)
  {
    b.hash == digest(b.payload, b.previousHash, b.nonce)
  }

  /** A freshly constructed block: nonce 0 and a provisional hash computed
      from its fields; it is not mined. */
  function NewBlock<P>(digest: Digest<P>, payload: P, previousHash: string): (b: Block<P>)
    ensures b.payload == payload && b.previousHash == previousHash && b.nonce == 0
    ensures Sealed(digest, b)
  {
    Block(payload, previousHash, 0, digest(payload, previousHash, 0))
  }

  /** Mining: the nonce is replaced by the one the search stops at and the
      hash is recomputed. Payload and link are untouched. The search starts
      from the nonce of a freshly constructed block, which is 0; every caller
      passes such a block. Nothing is claimed about the difficulty prefix of
      the result. */
  function Mine<P>(digest: Digest<P>, miner: Miner<P>, b: Block<P>, difficulty: string): (m: Block<P>)
    ensures m.payload == b.payload && m.previousHash == b.previousHash
    ensures Sealed(digest, m)
  {
    var n := miner(b.payload, b.previousHash, difficulty);
    Block(b.payload, b.previousHash, n, digest(b.payload, b.previousHash, n))
  }

  /** The digest never maps two different inputs to the same hash. This is
      an assumption about the digest, used only where stated. */
  ghost predicate CollisionFree<P(!new)>(digest: Digest<P>)
  {
    forall p1, h1, n1, p2, h2, n2 {:trigger digest(p1, h1, n1), digest(p2, h2, n2)} ::
      digest(p1, h1, n1) == digest(p2, h2, n2) ==> p1 == p2 && h1 == h2 && n1 == n2
  }
}
