/**
 * Hash-chain validation in the blockchain monitor.  A block's hash is the
 * lower-case hex MD5 digest of its index, timestamp, data and previous hash
 * written one after another; the digest is a parameter `digest` here, so the
 * properties hold for any hash function.
 */
module Blockchain {
  import Decimal

  datatype Block = Block(index: nat, timestamp: nat, data: string, prevHash: string, hash: string)

  /** The text that is hashed: index and timestamp in decimal, then data and
      previous hash, with no separators. */
  function HashInput(index: nat, timestamp: nat, data: string, prevHash: string): string
  {
    Decimal.Show(index) + Decimal.Show(timestamp) + data + prevHash
  }

  /** A new block; `timestamp` is the creation time in milliseconds since the
      epoch, read from the clock by the caller. */
  function NewBlock(index: nat, timestamp: nat, data: string, prevHash: string,
                    digest: string -> string): (b: Block)
    ensures b.index == index && b.timestamp == timestamp && b.data == data && b.prevHash == prevHash
    ensures HashMatches(b, digest)
  {
    Block(index, timestamp, data, prevHash, digest(HashInput(index, timestamp, data, prevHash)))
  }

  /** The stored hash is the digest of the block's own fields. */
  predicate HashMatches(b: Block, digest: string -> string)
  {
    b.hash == digest(HashInput(b.index, b.timestamp, b.data, b.prevHash))
  }

  /** `current` points at `previous` and carries the right hash. */
  predicate Linked(previous: Block, current: Block, digest: string -> string)
  {
    current.prevHash == previous.hash && HashMatches(current, digest)
  }

  /** Every block after the first is linked to its predecessor. */
  predicate ChainValid(chain: seq<Block>, digest: string -> string)
  {
    forall i :: 1 <= i < |chain| ==> Linked(chain[i - 1], chain[i], digest)
  }

  /** Checks the chain front to back and stops at the first broken link. */
  method ValidateBlockchain(chain: seq<Block>, digest: string -> string) returns (valid: bool)
    ensures valid == ChainValid(chain, digest)
  {
    var i := 1;
    while i < |chain|
      invariant 1 <= i
      invariant forall j :: 1 <= j < i && j < |chain| ==> Linked(chain[j - 1], chain[j], digest)
    {
      var current := chain[i];
      var previous := chain[i - 1];
      if current.prevHash != previous.hash {
        return false;
      }
      var expected := digest(HashInput(current.index, current.timestamp, current.data, current.prevHash));
      if current.hash != expected {
        return false;
      }
      i := i + 1;
    }
    return true;
  }

  // ---------------------------------------------------------------------------
  // Properties
  // ---------------------------------------------------------------------------

  /** Chains of zero or one block are valid, whatever the block holds. */
  lemma ShortChainsValid(chain: seq<Block>, digest: string -> string)
    requires |chain| <= 1
    ensures ChainValid(chain, digest)
  {
  }

  /** The first block's own fields are never checked: only its hash matters,
      through the second block's link. */
  lemma FirstBlockUnchecked(chain: seq<Block>, first: Block, digest: string -> string)
    requires |chain| > 0 && first.hash == chain[0].hash
    ensures ChainValid(chain, digest) <==> ChainValid([first] + chain[1..], digest)
  {
    var other := [first] + chain[1..];
    assert forall i :: 1 <= i < |chain| ==> other[i] == chain[i];
    assert other[0].hash == chain[0].hash;
  }

  /** Every prefix of a valid chain is valid. */
  lemma PrefixValid(chain: seq<Block>, n: nat, digest: string -> string)
    requires ChainValid(chain, digest) && n <= |chain|
    ensures ChainValid(chain[..n], digest)
  {
  }

  /** Appending a block made from the last block's hash keeps a valid chain
      valid. */
  lemma AppendNewBlock(chain: seq<Block>, index: nat, timestamp: nat, data: string,
                       digest: string -> string)
    requires ChainValid(chain, digest) && |chain| > 0
    ensures ChainValid(chain + [NewBlock(index, timestamp, data, chain[|chain| - 1].hash, digest)], digest)
  {
    var b := NewBlock(index, timestamp, data, chain[|chain| - 1].hash, digest);
    var longer := chain + [b];
    forall i | 1 <= i < |longer|
      ensures Linked(longer[i - 1], longer[i], digest)
    {
      if i < |chain| {
        assert longer[i - 1] == chain[i - 1] && longer[i] == chain[i];
      }
    }
  }

  /** A block whose link or hash is broken makes every chain through it invalid. */
  lemma BrokenLinkInvalid(chain: seq<Block>, i: nat, digest: string -> string)
    requires 1 <= i < |chain|
    requires chain[i].prevHash != chain[i - 1].hash || !HashMatches(chain[i], digest)
    ensures !ChainValid(chain, digest)
  {
  }
}
