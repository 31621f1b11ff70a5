/**
 * Client scenarios of the ledger, written against the class's contracts only:
 * the seeding sequence the server runs at start-up, the unit tests, and the
 * claim that appending can never make a chain invalid.
 */
module Scenarios {
  import opened Bytes
  import opened Blocks
  import opened Chain

  /**
   * Building a chain with `new` and then `add_block` once per payload, at any
   * timestamps, always yields a chain that `is_valid` accepts, of one block
   * more than there are payloads.
   */
  method AppendSequenceIsValid(sha: DigestFunction, genesisTime: u128, payloads: seq<string>, times: seq<u128>)
    returns (length: nat, valid: bool)
    requires |times| == |payloads| < U64_MAX
    ensures length == |payloads| + 1
    ensures valid
  {
    var ledger := new Blockchain(sha, genesisTime);
    var i := 0;
    while i < |payloads|
      invariant 0 <= i <= |payloads|
      invariant fresh(ledger) && ledger.sha == sha
      invariant ledger.Valid() && |ledger.chain| == i + 1
    {
      assert ledger.chain[i].index == i;
      ledger.AddBlock(payloads[i], times[i]);
      i := i + 1;
    }
    length := |ledger.chain|;
    WellFormedIsValid(sha, ledger.chain);
    valid := ledger.IsValid();
  }

  /** The first half of the start-up sequence: the genesis block and three payloads. */
  method Seed(sha: DigestFunction, t0: u128, t1: u128, t2: u128, t3: u128,
              first: string, second: string, third: string)
    returns (ledger: Blockchain)
    ensures fresh(ledger) && ledger.sha == sha && ledger.Valid() && |ledger.chain| == 4
    ensures var h0 := CalculateHash(sha, 0, t0, "0", "Genesis Block");
            var h1 := CalculateHash(sha, 1, t1, h0, first);
            ledger.chain[2] == NewBlock(sha, 2, t2, h1, second)
  {
    ghost var h0 := CalculateHash(sha, 0, t0, "0", "Genesis Block");
    ghost var h1 := CalculateHash(sha, 1, t1, h0, first);
    ledger := new Blockchain(sha, t0);
    assert ledger.chain[0].hash == h0;
    ledger.AddBlock(first, t1);
    assert ledger.chain[1].hash == h1;
    ledger.AddBlock(second, t2);
    ghost var block2 := ledger.chain[2];
    assert block2 == NewBlock(sha, 2, t2, h1, second);
    ledger.AddBlock(third, t3);
    assert ledger.chain[..3][2] == block2;
  }

  /**
   * The start-up sequence of `main` (genesis block, three payloads, one
   * validity check), followed by a tampering step `main` does not perform: the
   * payload of block 2 is overwritten without recomputing its hash and the
   * check runs again. The tampering is detected whenever the digest does not
   * collide on the two hash inputs of block 2.
   */
  method SeedAndTamper(sha: DigestFunction, t0: u128, t1: u128, t2: u128, t3: u128,
                       first: string, second: string, third: string, tampered: string)
    returns (indices: seq<int>, before: bool, after: bool)
    requires second != tampered
    ensures indices == [0, 1, 2, 3]
    ensures before
    ensures var h0 := CalculateHash(sha, 0, t0, "0", "Genesis Block");
            var h1 := CalculateHash(sha, 1, t1, h0, first);
            NoCollision(sha, HashInput(2, t2, h1, second), HashInput(2, t2, h1, tampered)) ==> !after
  {
    var ledger := Seed(sha, t0, t1, t2, t3, first, second, third);
    var c := ledger.chain;
    indices := [c[0].index, c[1].index, c[2].index, c[3].index];
    WellFormedIsValid(sha, c);
    before := ledger.IsValid();

    ledger.chain := c[2 := c[2].(data := tampered)];
    if NoCollision(sha, HashInput(c[2].index, c[2].timestamp, c[2].previousHash, c[2].data),
                        HashInput(c[2].index, c[2].timestamp, c[2].previousHash, tampered)) {
      TamperedDataDetected(sha, c, 2, tampered);
    }
    after := ledger.IsValid();
  }

  /**
   * The same sequence with the three payloads `main` uses; the forgery
   * `"tampered"` belongs to the added tampering step, not to `main`.
   */
  method MainSeeding(sha: DigestFunction, t0: u128, t1: u128, t2: u128, t3: u128)
    returns (indices: seq<int>, before: bool, after: bool)
    ensures indices == [0, 1, 2, 3]
    ensures before
    ensures var h0 := CalculateHash(sha, 0, t0, "0", "Genesis Block");
            var h1 := CalculateHash(sha, 1, t1, h0, "First block after genesis");
            NoCollision(sha, HashInput(2, t2, h1, "Second block"), HashInput(2, t2, h1, "tampered")) ==> !after
  {
    assert "Second block" != "tampered";
    indices, before, after := SeedAndTamper(sha, t0, t1, t2, t3,
      "First block after genesis", "Second block", "Third block", "tampered");
  }

  /** `test_block_creation`: `Block::new` keeps index, previous hash and data as given. */
  method TestBlockCreation(sha: DigestFunction, timestamp: u128) returns (block: Block)
    ensures block.index == 0 && block.previousHash == "0" && block.data == "Genesis Block"
    ensures SelfCertifying(sha, block)
  {
    block := NewBlock(sha, 0, timestamp, "0", "Genesis Block");
  }

  /** `test_blockchain_creation` and `test_blockchain_validity`. */
  method TestBlockchainValidity(sha: DigestFunction, t0: u128, t1: u128, t2: u128)
    returns (initialLength: nat, valid: bool)
    ensures initialLength == 1 && valid
  {
    var ledger := new Blockchain(sha, t0);
    initialLength := |ledger.chain|;
    ledger.AddBlock("First block", t1);
    ledger.AddBlock("Second block", t2);
    WellFormedIsValid(sha, ledger.chain);
    valid := ledger.IsValid();
  }
}
