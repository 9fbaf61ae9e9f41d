/** The chain itself: a fixed array of 100 slots, of which slots
    0..currentIndex are populated and the rest are empty (null in the
    Java array), with the genesis block in slot 0. */
module Chain {
  import opened Blocks
  import opened Validation

  const Capacity: nat := 100

  datatype Option<T> = None | Some(value: T)

  /** The result of the corruption helper: the index it replaced, or the
      out-of-bounds failure when fewer than four blocks are populated. */
  datatype Corruption = Changed(index: nat) | IndexOutOfBounds

  /** The values of a sequence of filled slots, in order. */
  ghost function Present<T>(s: seq<Option<T>>): (r: seq<T>)
    requires forall i :: 0 <= i < |s| ==> s[i].Some?
    ensures |r| == |s| && forall i :: 0 <= i < |s| ==> s[i] == Some(r[i])
  {
    if s == [] then [] else [s[0].value] + Present(s[1..])
  }

  class HorstlChain<P> {
    const digest: Digest<P>
    const miner: Miner<P>
    const difficulty: string := "00000"
    var blocks: array<Option<Block<P>>>
    var currentIndex: nat

    /** The head index stays inside the array, and exactly the slots up to
        the head are filled. */
    ghost predicate Valid()
      reads this, blocks
    {
      blocks.Length == Capacity && currentIndex < Capacity &&
      forall i :: 0 <= i < Capacity ==> (blocks[i].Some? <==> i <= currentIndex)
    }

    /** The populated blocks, genesis first. */
    ghost function Contents(): (s: seq<Block<P>>)
      requires Valid()
      reads this, blocks
      ensures |s| == currentIndex + 1
      ensures forall i :: 0 <= i <= currentIndex ==> blocks[i] == Some(s[i])
    {
      Present(blocks[..currentIndex + 1])
    }

    /** Slot 0 holds an unmined block whose previous hash is "genesis". */
    constructor (digest: Digest<P>, miner: Miner<P>, genesisPayload: P)
      ensures Valid() && fresh(blocks)
      ensures this.digest == digest && this.miner == miner
      ensures currentIndex == 0 && blocks.Length == Capacity
      ensures Contents() == [NewBlock(digest, genesisPayload, "genesis")]
      ensures ChainValid(digest, Contents())
    {
      this.digest := digest;
      this.miner := miner;
      var a := new Option<Block<P>>[Capacity](_ => None);
      a[0] := Some(NewBlock(digest, genesisPayload, "genesis"));
      blocks := a;
      currentIndex := 0;
    }

    /** Guarded append: unless the chain is full, a block linked to the head's
        hash is mined and stored in the next slot, which becomes the head. */
    method AddBlock(payload: P) returns (added: bool)
      requires Valid()
      modifies this`currentIndex, blocks
      ensures Valid() && blocks == old(blocks)
      ensures added <==> old(currentIndex) < Capacity - 1
      ensures added ==>
        currentIndex == old(currentIndex) + 1 &&
        Contents() == old(Contents()) +
          [Mine(digest, miner, NewBlock(digest, payload, old(Contents()[currentIndex].hash)), difficulty)]
      ensures added ==>
        Contents()[currentIndex].previousHash == old(Contents()[currentIndex].hash) &&
        Sealed(digest, Contents()[currentIndex])
      ensures !added ==> currentIndex == old(currentIndex) && blocks[..] == old(blocks[..])
      ensures forall i :: 0 <= i < Capacity && i != currentIndex ==> blocks[i] == old(blocks[i])
      ensures old(ChainValid(digest, Contents())) ==> ChainValid(digest, Contents())
    {
      if currentIndex < blocks.Length - 1 {
        ghost var before := Contents();
        var previousHash := blocks[currentIndex].value.hash;
        var blockToAdd := Mine(digest, miner, NewBlock(digest, payload, previousHash), difficulty);
        currentIndex := currentIndex + 1;
        blocks[currentIndex] := Some(blockToAdd);
        assert Contents() == before + [blockToAdd];
        ExtendValid(digest, before, blockToAdd);
        added := true;
      } else {
        added := false;
      }
    }

    /** Front-to-back scan of blocks 1..currentIndex that stops at the first
        block whose stored hash or link does not check out. */
    method IsValid() returns (v: Verdict)
      requires Valid()
      ensures v == Scan(digest, Contents(), 1)
      ensures v.Intact? <==> ChainValid(digest, Contents())
    {
      var i := 1;
      while i <= currentIndex
        invariant 1 <= i <= currentIndex + 1
        invariant Scan(digest, Contents(), i) == Scan(digest, Contents(), 1)
      {
        var currentBlock := blocks[i].value;
        var previousBlock := blocks[i - 1].value;
        if currentBlock.hash != digest(currentBlock.payload, currentBlock.previousHash, currentBlock.nonce) {
          return Broken(i, HashMismatch);
        }
        if currentBlock.previousHash != previousBlock.hash {
          return Broken(i, LinkMismatch);
        }
        i := i + 1;
      }
      return Intact;
    }

    /** Test-only corruption: slot currentIndex - 2 is overwritten by a fresh,
        unmined block linked to slot currentIndex - 3. With fewer than four
        populated blocks the Java code indexes below zero; here that is the
        IndexOutOfBounds outcome and nothing changes. */
    method CorruptChain(payload: P) returns (r: Corruption)
      requires Valid()
      modifies blocks
      ensures Valid() && currentIndex == old(currentIndex)
      ensures r.IndexOutOfBounds? <==> currentIndex < 3
      ensures r.IndexOutOfBounds? ==> blocks[..] == old(blocks[..])
      ensures r.Changed? ==>
        r.index == currentIndex - 2 &&
        Contents() == old(Contents())[r.index := NewBlock(digest, payload, old(Contents()[r.index - 1].hash))]
      ensures forall i :: 0 <= i < Capacity && i != currentIndex - 2 ==> blocks[i] == old(blocks[i])
      ensures r.Changed? && old(ChainValid(digest, Contents())) ==>
        Scan(digest, Contents(), 1) ==
          if Contents()[r.index].hash == old(Contents()[r.index].hash) then Intact
          else Broken(r.index + 1, LinkMismatch)
    {
      if currentIndex < 3 {
        return IndexOutOfBounds;
      }
      ghost var before := Contents();
      var blockToCorrupt := currentIndex - 2;
      var replacement := NewBlock(digest, payload, blocks[blockToCorrupt - 1].value.hash);
      blocks[blockToCorrupt] := Some(replacement);
      assert Contents() == before[blockToCorrupt := replacement];
      if ChainValid(digest, before) {
        CorruptionVerdict(digest, before, blockToCorrupt, payload);
      }
      r := Changed(blockToCorrupt);
    }
  }
}
