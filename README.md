# HorstlChain — a verified model of the chain core

HorstlChain is a minimal hash chain: a fixed array of 100 block slots and a
head index `currentIndex`. Slot 0 holds the genesis block, whose previous
hash is the literal `"genesis"` and which is never mined. `addBlock` links a
new block to the head's hash, mines it and stores it in the next free slot.
`isValid` walks blocks 1..`currentIndex`, checking each block's stored hash
against the recomputed one and then its link to the predecessor, and stops at
the first failure. `corruptChain` is a demonstration helper that overwrites
slot `currentIndex - 2` with a fresh, unmined block.

The model has three modules:

- `Blocks` (`block.dfy`): the block record `Block(payload, previousHash,
  nonce, hash)`, freshly constructed blocks (`NewBlock`), mining (`Mine`)
  and the "sealed" condition `hash == digest(payload, previousHash, nonce)`.
  The digest and the nonce search are function values the chain is built
  with. The payload is a type parameter.
- `Validation` (`validation.dfy`): what a valid chain is (`ChainValid`), the
  reference scan `Scan` that yields `Intact` or `Broken(index, reason)`, and
  the lemmas about validation, appending and corruption.
- `Chain` (`chain.dfy`): the class `HorstlChain` with the array of slots
  (`Option<Block>`, where `None` is the Java array's null slot), the head
  index, the `"00000"` difficulty, the constructor and the three operations.
  Its invariant `Valid()` says the array has 100 slots, `currentIndex <= 99`,
  and exactly slots 0..`currentIndex` are filled.

Behaviour worth knowing:

- The `Block` class is not part of this model. The model assumes that its
  constructor sets the nonce to 0 and computes the hash from the block's own
  fields (`Blocks.NewBlock`). Under that assumption, the fresh block that
  `corruptChain` writes passes the hash check. Corruption is then caught, if
  at all, by the link check at the next index. One might expect the
  corruption to show up as a hash mismatch at the replaced index; under this
  assumption it does not. `Validation.CorruptionVerdict` gives the exact
  verdict. `Validation.TamperDetected` shows the hash-mismatch failure mode
  for a payload edited in place without re-mining.
- With `currentIndex < 3`, `corruptChain` reads a negative index and the
  Java code throws an out-of-bounds exception before anything is written. The
  model returns `IndexOutOfBounds` and leaves the chain unchanged.
- `isValid` returns a boolean and prints the failing index. The model
  returns a `Verdict` that carries the index and the reason; the Java
  method's boolean is `v.Intact?`.

## Model

| member | source | states |
|---|---|---|
| Blocks.NewBlock | de/jo3rn/horstlchain/HorstlChain.java:10 | a freshly constructed block keeps the given payload and previous hash, has nonce 0, and its stored hash is the digest of its own fields |
| Blocks.Mine | de/jo3rn/horstlchain/HorstlChain.java:16-17 | mining keeps payload and previous hash and leaves the block sealed: the stored hash equals the digest of its fields |
| Validation.Scan | de/jo3rn/horstlchain/HorstlChain.java:28-49 | the scan from index i is Intact iff every block from i on passes both checks; otherwise it names an index at which the block fails, with the hash check taking precedence over the link check, and every earlier block passes |
| Validation.VerdictUnique | de/jo3rn/horstlchain/HorstlChain.java:34-43 | a verdict correctly reports the chain (valid iff all blocks 1.. pass; else the first failing index and its reason) if and only if it is the scan's verdict |
| Validation.ExtendValid | de/jo3rn/horstlchain/HorstlChain.java:15-18 | appending a block to a non-empty chain gives a valid chain iff the chain was valid, the block is sealed and its previous hash is the head's hash |
| Validation.CorruptionVerdict | de/jo3rn/horstlchain/HorstlChain.java:52-56 | replacing a non-genesis, non-head block k of a valid chain by a fresh block linked to block k-1 leaves the scan Intact when the new hash equals the old one, and otherwise gives Broken(k+1, LinkMismatch) |
| Validation.CorruptionDetected | de/jo3rn/horstlchain/HorstlChain.java:52-56 | for a collision-free digest, that replacement goes undetected iff it has the replaced block's payload and the replaced block had nonce 0 |
| Validation.TamperDetected | de/jo3rn/horstlchain/HorstlChain.java:33-37 | for a collision-free digest, changing block k's payload without re-mining is reported as Broken(k, HashMismatch) |
| Chain.HorstlChain.constructor | de/jo3rn/horstlchain/HorstlChain.java:4-11 | the array has 100 slots, currentIndex is 0, only slot 0 is filled, and it holds an unmined block with previous hash "genesis"; the one-block chain is valid |
| Chain.HorstlChain.AddBlock | de/jo3rn/horstlchain/HorstlChain.java:13-22 | appends iff currentIndex < 99; then currentIndex grows by one, the new head is the mined block linked to the old head's hash and is sealed, and the contents are the old ones plus that block; otherwise the array and currentIndex are unchanged; no other slot changes; a valid chain stays valid |
| Chain.HorstlChain.IsValid | de/jo3rn/horstlchain/HorstlChain.java:24-50 | reads only; the verdict equals the reference scan of blocks 0..currentIndex from index 1, so it is Intact iff the chain is valid and otherwise names the first failing index and reason |
| Chain.HorstlChain.CorruptChain | de/jo3rn/horstlchain/HorstlChain.java:52-58 | with currentIndex >= 3, slot currentIndex-2 is replaced by a fresh block linked to slot currentIndex-3, currentIndex and every other slot are unchanged, and on a previously valid chain the next scan is Broken(currentIndex-1, LinkMismatch) unless the new hash equals the old one; with currentIndex < 3 it reports IndexOutOfBounds and changes nothing |

## Left out

- `main` and all console output (`System.out.println`): the mined hash, the "chain full" notice and the per-block validation messages. The full notice is the `false` result of `AddBlock`. The validation messages are the `Verdict`.
- `toString`: text rendering with no functional role.
- The `ExamAttendance` payload (random generation, a floating-point grade, a calendar date): the payload is an opaque type parameter, and the random payload of `corruptChain` is a parameter.
- Blocks.NewBlock: the `Block` constructor is not part of this model. The model assumes it sets the nonce to 0 and computes the hash from the block's payload, previous hash and nonce. The exact corruption verdicts of `Validation.CorruptionVerdict`, `Validation.CorruptionDetected` and `Chain.HorstlChain.CorruptChain` rest on this assumption.
- The rest of the `Block` class is not part of this model either. SHA-256 is a digest function value, and the nonce search of `mineBlock` is a function value giving the nonce at which the search stops.
- Blocks.Mine: does not state that the mined hash starts with the difficulty prefix, and does not model the search loop or its termination. The search is unbounded, and its result depends on the digest.
- Collision-freeness of SHA-256 cannot be proved. `Validation.CorruptionDetected` and `Validation.TamperDetected` take it as an explicit hypothesis. `Validation.CorruptionVerdict` needs no such hypothesis.
- Java's 32-bit `int` for `currentIndex`: it stays within 0..99, so no overflow can occur and a `nat` is used.
