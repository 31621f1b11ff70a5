/**
 * The ledger: `Blockchain`, a growing vector of blocks seeded with a genesis
 * block, with `add_block` and the fail-fast check `is_valid`.
 *
 * The value-level definitions (`WellFormed`, `ChainValid`, `Append`) say what
 * the class's methods do; the lemmas relate them.
 */
module Chain {
  import opened Bytes
  import opened Blocks

  const GENESIS_PREVIOUS_HASH: string := "0"
  const GENESIS_DATA: string := "Genesis Block"

  /** The block `add_genesis_block` builds, stamped with `timestamp`. */
  function Genesis(sha: DigestFunction, timestamp: u128): (b: Block)
    ensures b.index == 0 && b.timestamp == timestamp
    ensures b.previousHash == "0" && b.data == "Genesis Block"
    ensures SelfCertifying(sha, b)
  {
    NewBlock(sha, 0, timestamp, GENESIS_PREVIOUS_HASH, GENESIS_DATA)
  }

  /** Block `i` points at the hash of block `i - 1`. */
  predicate LinkedAt(c: seq<Block>, i: nat)
    requires 0 < i < |c|
  {
    c[i].previousHash == c[i - 1].hash
  }

  /**
   * The invariants a chain built only by `new` and `add_block` keeps: it is not
   * empty, block `i` has index `i`, every block links to its predecessor, and
   * every block certifies itself.
   */
  predicate WellFormed(sha: DigestFunction, c: seq<Block>)
  {
    && |c| > 0
    && (forall i :: 0 <= i < |c| ==> c[i].index == i)
    && (forall i :: 0 < i < |c| ==> LinkedAt(c, i))
    && (forall i :: 0 <= i < |c| ==> SelfCertifying(sha, c[i]))
  }

  /**
   * What `is_valid` decides: every block from position 1 on links to its
   * predecessor and certifies itself. Block 0 and the index values are not
   * looked at.
   */
  predicate ChainValid(sha: DigestFunction, c: seq<Block>)
  {
    forall i :: 1 <= i < |c| ==> CheckedAt(sha, c, i)
  }

  /** The two checks `is_valid` makes at position `i`: the link, then the recomputed hash. */
  predicate CheckedAt(sha: DigestFunction, c: seq<Block>, i: nat)
    requires 0 < i < |c|
  {
    LinkedAt(c, i) && SelfCertifying(sha, c[i])
  }

  /** The chain after `add_block(data)` at time `timestamp`. */
  function Append(sha: DigestFunction, c: seq<Block>, data: string, timestamp: u128): (r: seq<Block>)
    requires |c| > 0 && c[|c| - 1].index < U64_MAX
    ensures |r| == |c| + 1 && r[..|c|] == c
    ensures r[|c|].index == c[|c| - 1].index + 1
    ensures r[|c|].previousHash == c[|c| - 1].hash && LinkedAt(r, |c|)
    ensures r[|c|].timestamp == timestamp && r[|c|].data == data
    ensures SelfCertifying(sha, r[|c|])
  {
    var tail := c[|c| - 1];
    c + [NewBlock(sha, tail.index + 1, timestamp, tail.hash, data)]
  }

  lemma GenesisWellFormed(sha: DigestFunction, timestamp: u128)
    ensures WellFormed(sha, [Genesis(sha, timestamp)])
  {
    var g := Genesis(sha, timestamp);
    SingletonWellFormed(sha, g);
  }

  lemma SingletonWellFormed(sha: DigestFunction, b: Block)
    requires b.index == 0 && SelfCertifying(sha, b)
    ensures WellFormed(sha, [b])
  {
    var c := [b];
    assert forall i :: 0 <= i < |c| ==> c[i] == b;
  }

  /** `add_block` keeps all four invariants. */
  lemma AppendPreservesWellFormed(sha: DigestFunction, c: seq<Block>, data: string, timestamp: u128)
    requires WellFormed(sha, c) && c[|c| - 1].index < U64_MAX
    ensures WellFormed(sha, Append(sha, c, data, timestamp))
  {
    var r := Append(sha, c, data, timestamp);
    forall i | 0 <= i < |r|
      ensures r[i].index == i && SelfCertifying(sha, r[i])
    {
      if i < |c| { assert r[i] == c[i]; }
    }
    forall i | 0 < i < |r|
      ensures LinkedAt(r, i)
    {
      if i < |c| { assert r[i] == c[i] && r[i - 1] == c[i - 1]; assert LinkedAt(c, i); }
    }
  }

  /**
   * The invariants are exactly what `is_valid` checks plus what it leaves out:
   * a non-empty chain, a self-certifying genesis block and sequential indices.
   */
  lemma WellFormedCharacterization(sha: DigestFunction, c: seq<Block>)
    ensures WellFormed(sha, c) <==>
              && |c| > 0
              && ChainValid(sha, c)
              && SelfCertifying(sha, c[0])
              && (forall i :: 0 <= i < |c| ==> c[i].index == i)
  {
    if WellFormed(sha, c) {
      forall i | 1 <= i < |c|
        ensures CheckedAt(sha, c, i)
      {
      }
    }
    if |c| > 0 && ChainValid(sha, c) {
      forall i | 0 < i < |c|
        ensures LinkedAt(c, i) && SelfCertifying(sha, c[i])
      {
        assert CheckedAt(sha, c, i);
      }
    }
  }

  /** Every well-formed chain passes `is_valid`. */
  lemma WellFormedIsValid(sha: DigestFunction, c: seq<Block>)
    requires WellFormed(sha, c)
    ensures ChainValid(sha, c)
  {
    WellFormedCharacterization(sha, c);
  }

  /** `is_valid` does not look at block 0 beyond its hash. */
  lemma GenesisNotExamined(sha: DigestFunction, c: seq<Block>, b: Block)
    requires |c| > 0 && b.hash == c[0].hash
    ensures ChainValid(sha, c[0 := b]) == ChainValid(sha, c)
  {
    var c' := c[0 := b];
    forall i | 1 <= i < |c|
      ensures CheckedAt(sha, c', i) == CheckedAt(sha, c, i)
    {
      assert c'[i] == c[i];
      assert c'[i - 1].hash == c[i - 1].hash;
    }
  }

  /** In particular, rewriting the genesis block's data goes unnoticed. */
  lemma GenesisDataTamperUndetected(sha: DigestFunction, c: seq<Block>, d: string)
    requires |c| > 0
    ensures ChainValid(sha, c[0 := c[0].(data := d)]) == ChainValid(sha, c)
  {
    GenesisNotExamined(sha, c, c[0].(data := d));
  }

  /**
   * `is_valid` does not check index values: after any block `g`, a block built
   * with index `k != 1` and linked to `g` passes, although the chain is not
   * well formed.
   */
  lemma IndicesNotChecked(sha: DigestFunction, g: Block, k: u64, timestamp: u128, data: string)
    requires k != 1
    ensures var c := [g, NewBlock(sha, k, timestamp, g.hash, data)];
            ChainValid(sha, c) && !WellFormed(sha, c)
  {
    var b := NewBlock(sha, k, timestamp, g.hash, data);
    var c := [g, b];
    assert c[0] == g && c[1] == b;
    assert CheckedAt(sha, c, 1);
    assert c[1].index != 1;
  }

  /** Pointing block `i >= 1` at anything but its predecessor's hash fails `is_valid`. */
  lemma TamperedLinkDetected(sha: DigestFunction, c: seq<Block>, i: nat, p: string)
    requires 1 <= i < |c| && p != c[i - 1].hash
    ensures !ChainValid(sha, c[i := c[i].(previousHash := p)])
  {
    var c' := c[i := c[i].(previousHash := p)];
    assert !CheckedAt(sha, c', i);
  }

  /**
   * Replacing block `i >= 1` of a valid chain by one that keeps its stored hash
   * and its link but differs in index, timestamp or data fails `is_valid`,
   * provided the digest does not collide on the old and new hash inputs.
   */
  lemma TamperedBlockDetected(sha: DigestFunction, c: seq<Block>, i: nat, b: Block)
    requires ChainValid(sha, c) && 1 <= i < |c|
    requires b.hash == c[i].hash && b.previousHash == c[i].previousHash
    requires (b.index, b.timestamp, b.data) != (c[i].index, c[i].timestamp, c[i].data)
    requires NoCollision(sha, HashInput(c[i].index, c[i].timestamp, c[i].previousHash, c[i].data),
                              HashInput(b.index, b.timestamp, b.previousHash, b.data))
    ensures !ChainValid(sha, c[i := b])
  {
    assert CheckedAt(sha, c, i);
    TamperedFieldsBreakCertification(sha, c[i], b);
    assert !CheckedAt(sha, c[i := b], i);
  }

  /** Rewriting the data of block `i >= 1` of a valid chain fails `is_valid`, barring a collision. */
  lemma TamperedDataDetected(sha: DigestFunction, c: seq<Block>, i: nat, d: string)
    requires ChainValid(sha, c) && 1 <= i < |c| && d != c[i].data
    requires NoCollision(sha, HashInput(c[i].index, c[i].timestamp, c[i].previousHash, c[i].data),
                              HashInput(c[i].index, c[i].timestamp, c[i].previousHash, d))
    ensures !ChainValid(sha, c[i := c[i].(data := d)])
  {
    TamperedBlockDetected(sha, c, i, c[i].(data := d));
  }

  /** `Blockchain`: the digest it uses and the blocks in index order. */
  class Blockchain {
    const sha: DigestFunction
    var chain: seq<Block>

    ghost predicate Valid()
      reads this
    {
      WellFormed(sha, chain)
    }

    /** `Blockchain::new`: an empty vector, then the genesis block. */
    constructor (sha: DigestFunction, timestamp: u128)
      ensures this.sha == sha
      ensures chain == [Genesis(sha, timestamp)]
      ensures Valid()
    {
      this.sha := sha;
      chain := [];
      new;
      AddGenesisBlock(timestamp);
      GenesisWellFormed(sha, timestamp);
    }

    /** `add_genesis_block`: pushes the genesis block. */
    method AddGenesisBlock(timestamp: u128)
      modifies this
      ensures chain == old(chain) + [Genesis(sha, timestamp)]
    {
      var genesis := Genesis(sha, timestamp);
      chain := chain + [genesis];
    }

    /**
     * `add_block`: pushes a block linked to the current tail. The source's
     * `last().unwrap()` demands a non-empty chain and its `index + 1` a tail
     * index below `u64::MAX`.
     */
    method AddBlock(data: string, timestamp: u128)
      requires |chain| > 0 && chain[|chain| - 1].index < U64_MAX
      modifies this
      ensures chain == Append(sha, old(chain), data, timestamp)
      ensures old(Valid()) ==> Valid()
    {
      var previous := chain[|chain| - 1];
      var block := NewBlock(sha, previous.index + 1, timestamp, previous.hash, data);
      chain := chain + [block];
      if old(Valid()) {
        AppendPreservesWellFormed(sha, old(chain), data, timestamp);
      }
    }

    /** `is_valid`: walks positions 1.. and stops at the first broken link or hash. */
    method IsValid() returns (ok: bool)
      ensures ok == ChainValid(sha, chain)
    {
      var blocks := chain;
      var i := 1;
      while i < |blocks|
        invariant 1 <= i && (i <= |blocks| || |blocks| == 0)
        invariant forall j :: 1 <= j < i && j < |blocks| ==> CheckedAt(sha, blocks, j)
      {
        var current := blocks[i];
        var previous := blocks[i - 1];
        if current.previousHash != previous.hash {
          assert !CheckedAt(sha, blocks, i);
          return false;
        }
        var recalculated := CalculateHash(sha, current.index, current.timestamp, current.previousHash, current.data);
        if current.hash != recalculated {
          assert !CheckedAt(sha, blocks, i);
          return false;
        }
        assert CheckedAt(sha, blocks, i);
        i := i + 1;
      }
      return true;
    }
  }
}
