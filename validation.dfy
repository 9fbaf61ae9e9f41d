/** What validating a chain means: the populated blocks, as a sequence, are
    scanned from index 1 upwards; at each index the stored hash is checked
    against the recomputed one first, then the link to the predecessor. */
module Validation {
  import opened Blocks

  datatype Reason = HashMismatch | LinkMismatch

  /** The result of a scan: valid, or the first failing index and why. */
  datatype Verdict = Intact | Broken(index: nat, reason: Reason)

  /** Block i records the hash of block i - 1. */
  predicate Linked<P>(s: seq<Block<P>>, i: nat)
    requires 1 <= i < |s|
  {
    s[i].previousHash == s[i - 1].hash
  }

  /** Block i passes both checks. */
  predicate Passes<P>(digest: Digest<P>, s: seq<Block<P>>, i: nat)
    requires 1 <= i < |s|
  {
    Sealed(digest, s[i]) && Linked(s, i)
  }

  /** Block i fails with reason r, the hash check taking precedence. */
  predicate FailsWith<P>(digest: Digest<P>, s: seq<Block<P>>, i: nat, r: Reason)
    requires 1 <= i < |s|
  {
    match r
    case HashMismatch => !Sealed(digest, s[i])
    case LinkMismatch => Sealed(digest, s[i]) && !Linked(s, i)
  }

  /** Every block after the genesis block passes both checks; the genesis
      block itself is never checked. */
  predicate ChainValid<P>(digest: Digest<P>, s: seq<Block<P>>)
  {
    forall i :: 1 <= i < |s| ==> Passes(digest, s, i)
  }

  /** The verdict of a front-to-back scan starting at index i. */
  function Scan<P>(digest: Digest<P>, s: seq<Block<P>>, i: nat): (v: Verdict)
    requires 1 <= i
    decreases |s| - i
    ensures v.Intact? <==> forall j :: i <= j < |s| ==> Passes(digest, s, j)
    ensures v.Broken? ==>
      i <= v.index < |s| && FailsWith(digest, s, v.index, v.reason) &&
      forall j :: i <= j < v.index ==> Passes(digest, s, j)
  {
    if i >= |s| then Intact
    else if !Sealed(digest, s[i]) then assert !Passes(digest, s, i); Broken(i, HashMismatch)
    else if !Linked(s, i) then assert !Passes(digest, s, i); Broken(i, LinkMismatch)
    else Scan(digest, s, i + 1)
  }

  /** v correctly reports the chain s: valid exactly when every block passes,
      otherwise the first failing index with the reason it fails. */
  ghost predicate Reports<P>(digest: Digest<P>, s: seq<Block<P>>, v: Verdict)
  {
    match v
    case Intact => ChainValid(digest, s)
    case Broken(k, r) =>
      1 <= k < |s| && FailsWith(digest, s, k, r) &&
      forall j :: 1 <= j < k ==> Passes(digest, s, j)
  }

  /** The scan's verdict is the one and only correct report. */
  lemma VerdictUnique<P>(digest: Digest<P>, s: seq<Block<P>>, v: Verdict)
    ensures Reports(digest, s, v) <==> v == Scan(digest, s, 1)
  {
    var w := Scan(digest, s, 1);
    if Reports(digest, s, v) && v.Broken? {
      assert !Passes(digest, s, v.index);
      if w.Broken? {
        assert !Passes(digest, s, w.index);
        assert v.index == w.index;
      }
    }
  }

  /** Appending a block keeps the chain valid exactly when the block is
      sealed and linked to the current head. */
  lemma ExtendValid<P>(digest: Digest<P>, s: seq<Block<P>>, b: Block<P>)
    requires |s| >= 1
    ensures ChainValid(digest, s + [b]) <==>
      ChainValid(digest, s) && Sealed(digest, b) && b.previousHash == s[|s| - 1].hash
  {
    var t := s + [b];
    assert t[|s|] == b && t[|s| - 1] == s[|s| - 1];
    assert Passes(digest, t, |s|) <==> Sealed(digest, b) && b.previousHash == s[|s| - 1].hash;
    forall i | 1 <= i < |s|
      ensures Passes(digest, t, i) <==> Passes(digest, s, i)
    {
      assert t[i] == s[i] && t[i - 1] == s[i - 1];
    }
  }

  /** Replacing block k of a valid chain (not the genesis block, not the
      head) by a fresh block linked to block k - 1 is reported exactly when
      the fresh block's hash differs from the replaced one, and then at index
      k + 1 by the link check. */
  lemma CorruptionVerdict<P>(digest: Digest<P>, s: seq<Block<P>>, k: nat, p: P)
    requires ChainValid(digest, s)
    requires 1 <= k && k + 1 < |s|
    ensures
      var c := NewBlock(digest, p, s[k - 1].hash);
      Scan(digest, s[k := c], 1) ==
        if c.hash == s[k].hash then Intact else Broken(k + 1, LinkMismatch)
  {
    var c := NewBlock(digest, p, s[k - 1].hash);
    var t := s[k := c];
    forall j | 1 <= j < |t| && j != k + 1
      ensures Passes(digest, t, j)
    {
      assert Passes(digest, s, j);
    }
    assert Sealed(digest, t[k + 1]) by { assert Passes(digest, s, k + 1); }
    assert Linked(t, k + 1) <==> c.hash == s[k].hash;
    var v := if c.hash == s[k].hash then Intact else Broken(k + 1, LinkMismatch);
    assert Reports(digest, t, v);
    VerdictUnique(digest, t, v);
  }

  /** With a collision-free digest, the replacement goes undetected exactly
      when it rebuilds the original block: same payload and a nonce of 0. */
  lemma CorruptionDetected<P(!new)>(digest: Digest<P>, s: seq<Block<P>>, k: nat, p: P)
    requires CollisionFree(digest)
    requires ChainValid(digest, s)
    requires 1 <= k && k + 1 < |s|
    ensures Scan(digest, s[k := NewBlock(digest, p, s[k - 1].hash)], 1) == Intact <==>
      p == s[k].payload && s[k].nonce == 0
  {
    CorruptionVerdict(digest, s, k, p);
    assert Passes(digest, s, k);
  }

  /** With a collision-free digest, changing the payload of block k in place,
      without re-mining, is reported at k by the hash check. */
  lemma TamperDetected<P(!new)>(digest: Digest<P>, s: seq<Block<P>>, k: nat, p: P)
    requires CollisionFree(digest)
    requires ChainValid(digest, s)
    requires 1 <= k < |s| && p != s[k].payload
    ensures Scan(digest, s[k := s[k].(payload := p)], 1) == Broken(k, HashMismatch)
  {
    var t := s[k := s[k].(payload := p)];
    assert Passes(digest, s, k);
    assert !Sealed(digest, t[k]);
    forall j | 1 <= j < k
      ensures Passes(digest, t, j)
    {
      assert Passes(digest, s, j);
    }
    assert Reports(digest, t, Broken(k, HashMismatch));
    VerdictUnique(digest, t, Broken(k, HashMismatch));
  }
}
