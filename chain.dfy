/**
  The append-only chain of blocks and its linkage check: from the second
  block on, every block's Prev must be the hash of the block before it.
 */
module Chain {
  import opened Bits
  import opened Blocks

  /** Every block after the first names the hash of its predecessor in Prev. */
  predicate Linked(sha: Bytes -> Digest, blocks: seq<Block>): (r: bool)
  {
    |blocks| < 2 ||
    (Linked(sha, blocks[..|blocks| - 1]) &&
     blocks[|blocks| - 1].header.prev == Hash(sha, blocks[|blocks| - 2]))
  }

  /** `Linked` states the link condition for every position after the first, and nothing else. */
  lemma {:induction false} LinkedIff(sha: Bytes -> Digest, blocks: seq<Block>)
    ensures Linked(sha, blocks) <==>
            forall i :: 0 < i < |blocks| ==> blocks[i].header.prev == Hash(sha, blocks[i - 1])
  {
    if |blocks| >= 2 {
      var front := blocks[..|blocks| - 1];
      LinkedIff(sha, front);
      assert forall i :: 0 <= i < |front| ==> front[i] == blocks[i];
    }
  }

  lemma {:induction false} LinkedPrefix(sha: Bytes -> Digest, blocks: seq<Block>, j: nat)
    requires j <= |blocks| && Linked(sha, blocks)
    ensures Linked(sha, blocks[..j])
    decreases |blocks|
  {
    if j < |blocks| {
      var front := blocks[..|blocks| - 1];
      if |blocks| >= 2 {
        LinkedPrefix(sha, front, j);
        assert front[..j] == blocks[..j];
      } else {
        assert blocks[..j] == [];
      }
    } else {
      assert blocks[..j] == blocks;
    }
  }

  /** One broken link anywhere makes the whole chain invalid. */
  lemma BrokenLinkUnlinks(sha: Bytes -> Digest, blocks: seq<Block>, k: nat)
    requires 0 < k < |blocks| && blocks[k].header.prev != Hash(sha, blocks[k - 1])
    ensures !Linked(sha, blocks)
  {
    var upto := blocks[..k + 1];
    assert upto[k] == blocks[k] && upto[k - 1] == blocks[k - 1];
    if Linked(sha, blocks) {
      LinkedPrefix(sha, blocks, k + 1);
    }
  }

  /** A block may be appended exactly when its Prev is the hash of the current last block. */
  lemma AppendLinked(sha: Bytes -> Digest, blocks: seq<Block>, b: Block)
    ensures Linked(sha, blocks + [b]) <==>
            Linked(sha, blocks) && (blocks != [] ==> b.header.prev == Hash(sha, blocks[|blocks| - 1]))
  {
    assert (blocks + [b])[..|blocks|] == blocks;
  }

  /** Appending the last block a second time breaks the chain, unless that block names its own hash. */
  lemma AppendDuplicateBreaks(sha: Bytes -> Digest, blocks: seq<Block>, b: Block)
    requires blocks != [] && blocks[|blocks| - 1] == b
    requires b.header.prev != Hash(sha, b)
    ensures !Linked(sha, blocks + [b])
  {
    AppendLinked(sha, blocks, b);
  }

  /** The first block's Prev is never compared: any single block is a valid chain. */
  lemma SingleBlockLinked(sha: Bytes -> Digest, b: Block)
    ensures Linked(sha, []) && Linked(sha, [b])
  {
  }

  /** An ordered list of blocks, extended only at the back. */
  class Blockchain {
    var blocks: seq<Block>

    constructor ()
      ensures blocks == []
    {
      blocks := [];
    }

    method Append(b: Block)
      modifies this
      ensures blocks == old(blocks) + [b]
    {
      blocks := blocks + [b];
    }
  }

  /**
    Walks the chain from the front, remembering the hash of the previous
    block, and fails at the first block whose Prev differs from it.
   */
  method ValidateBlockchain(sha: Bytes -> Digest, bc: Blockchain) returns (ok: bool)
    ensures ok <==> Linked(sha, bc.blocks)
    ensures ok <==> forall i :: 0 < i < |bc.blocks| ==> bc.blocks[i].header.prev == Hash(sha, bc.blocks[i - 1])
  {
    var prev: Digest := seq(HashSize, _ => 0 as byte);
    var first := true;
    var k := 0;
    while k < |bc.blocks|
      invariant 0 <= k <= |bc.blocks|
      invariant first <==> k == 0
      invariant Linked(sha, bc.blocks[..k])
      invariant !first ==> prev == Hash(sha, bc.blocks[k - 1])
    {
      var b := bc.blocks[k];
      if !first && prev != b.header.prev {
        BrokenLinkUnlinks(sha, bc.blocks, k);
        LinkedIff(sha, bc.blocks);
        return false;
      }
      AppendLinked(sha, bc.blocks[..k], b);
      assert bc.blocks[..k] + [b] == bc.blocks[..k + 1];
      prev := Hash(sha, b);
      first := false;
      k := k + 1;
    }
    assert bc.blocks[..k] == bc.blocks;
    LinkedIff(sha, bc.blocks);
    return true;
  }
}
