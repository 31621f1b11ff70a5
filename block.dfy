/**
 * The ledger's record: a `Block` and its commitment `calculate_hash`.
 *
 * SHA-256 is not modelled: every operation that hashes takes the digest as a
 * parameter `sha`, an arbitrary total function from byte strings to 32 bytes.
 * Nothing is assumed of it; the lemmas that need it to tell two inputs apart
 * say so with `NoCollision` for exactly those two inputs.
 */
module Blocks {
  import opened Wrappers
  import opened Bytes
  import Utf8
  import Hex

  type Digest = s: seq<byte> | |s| == 32 witness seq(32, _ => 0)

  /** The role of `ring::digest::SHA256`. */
  type DigestFunction = seq<byte> -> Digest

  /** `Block`: the hash is meant to commit to the four other fields. */
  datatype Block = Block(index: u64, timestamp: u128, previousHash: string, hash: string, data: string)

  /**
   * The bytes fed to the digest: the 8-byte big-endian index, the 16-byte
   * big-endian timestamp, then the UTF-8 bytes of the previous hash and of the
   * data, with no separator and no length prefix between the last two.
   */
  function HashInput(index: u64, timestamp: u128, previousHash: string, data: string): (r: seq<byte>)
    ensures |r| >= 24
    ensures FromBigEndian(r[..8]) == index && FromBigEndian(r[8..24]) == timestamp
    ensures r[24..] == Utf8.Encode(previousHash + data)
  {
    var r := U64ToBeBytes(index) + U128ToBeBytes(timestamp) + Utf8.Encode(previousHash) + Utf8.Encode(data);
    Utf8.EncodeConcat(previousHash, data);
    Layout(U64ToBeBytes(index), U128ToBeBytes(timestamp), Utf8.Encode(previousHash), Utf8.Encode(data));
    r
  }

  lemma Layout(a: seq<byte>, b: seq<byte>, c: seq<byte>, d: seq<byte>)
    requires |a| == 8 && |b| == 16
    ensures var r := a + b + c + d;
            r[..8] == a && r[8..24] == b && r[24..] == c + d
  {
  }

  /**
   * Two hash inputs are equal exactly when index and timestamp agree and the
   * previous hash followed by the data spells the same string.
   */
  lemma HashInputInjective(i: u64, t: u128, p: string, d: string, i': u64, t': u128, p': string, d': string)
    ensures HashInput(i, t, p, d) == HashInput(i', t', p', d') <==> i == i' && t == t' && p + d == p' + d'
  {
    var x, y := HashInput(i, t, p, d), HashInput(i', t', p', d');
    if x == y {
      assert x[..8] == y[..8] && x[8..24] == y[8..24] && x[24..] == y[24..];
      Utf8.EncodeInjective(p + d, p' + d');
    }
    if i == i' && t == t' && p + d == p' + d' {
      assert x[..24] == U64ToBeBytes(i) + U128ToBeBytes(t) == y[..24];
      assert x == x[..24] + x[24..] && y == y[..24] + y[24..];
    }
  }

  /** `Block::calculate_hash`: the lowercase hex rendering of the digest of `HashInput`. */
  function CalculateHash(sha: DigestFunction, index: u64, timestamp: u128, previousHash: string, data: string): (r: string)
    ensures |r| == 64
  {
    Hex.Encode(sha(HashInput(index, timestamp, previousHash, data)))
  }

  /**
   * The hash is 64 lowercase hexadecimal digits, and reading them back gives
   * the 32-byte digest of the hash input.
   */
  lemma CalculateHashFormat(sha: DigestFunction, index: u64, timestamp: u128, previousHash: string, data: string)
    ensures var r := CalculateHash(sha, index, timestamp, previousHash, data);
            && |r| == 64
            && (forall k :: 0 <= k < |r| ==> Hex.IsLowerHexDigit(r[k]))
            && Hex.Decode(r) == Some(sha(HashInput(index, timestamp, previousHash, data)))
  {
    var digest := sha(HashInput(index, timestamp, previousHash, data));
    Hex.EncodeIsLowerHex(digest);
    Hex.DecodeEncode(digest);
  }

  /** A block certifies itself when its stored hash is the one recomputed from its other fields. */
  predicate SelfCertifying(sha: DigestFunction, b: Block)
  {
    b.hash == CalculateHash(sha, b.index, b.timestamp, b.previousHash, b.data)
  }

  /** `Block::new`, with the clock reading passed in as `timestamp`. */
  function NewBlock(sha: DigestFunction, index: u64, timestamp: u128, previousHash: string, data: string): (b: Block)
    ensures b.index == index && b.timestamp == timestamp
    ensures b.previousHash == previousHash && b.data == data
    ensures SelfCertifying(sha, b)
  {
    var hash := CalculateHash(sha, index, timestamp, previousHash, data);
    Block(index, timestamp, previousHash, hash, data)
  }

  /** Moving characters between the previous hash and the data leaves the hash unchanged. */
  lemma SameConcatenationSameHash(sha: DigestFunction, i: u64, t: u128, p: string, d: string, p': string, d': string)
    requires p + d == p' + d'
    ensures CalculateHash(sha, i, t, p, d) == CalculateHash(sha, i, t, p', d')
  {
    HashInputInjective(i, t, p, d, i, t, p', d');
  }

  /** The concrete ambiguity: ("ab", "c") and ("a", "bc") commit to the same hash. */
  lemma AmbiguousSplit(sha: DigestFunction, i: u64, t: u128)
    ensures CalculateHash(sha, i, t, "ab", "c") == CalculateHash(sha, i, t, "a", "bc")
  {
    assert "ab" + "c" == "a" + "bc";
    SameConcatenationSameHash(sha, i, t, "ab", "c", "a", "bc");
  }

  /** The digest tells the two byte strings `x` and `y` apart, if they differ. */
  predicate NoCollision(sha: DigestFunction, x: seq<byte>, y: seq<byte>)
  {
    x != y ==> sha(x) != sha(y)
  }

  /**
   * Inputs that differ in the index, the timestamp, or the concatenation of
   * previous hash and data get different hashes, provided the digest does not
   * collide on their two hash inputs.
   */
  lemma DistinctInputsDistinctHashes(sha: DigestFunction, i: u64, t: u128, p: string, d: string, i': u64, t': u128, p': string, d': string)
    requires !(i == i' && t == t' && p + d == p' + d')
    requires NoCollision(sha, HashInput(i, t, p, d), HashInput(i', t', p', d'))
    ensures CalculateHash(sha, i, t, p, d) != CalculateHash(sha, i', t', p', d')
  {
    HashInputInjective(i, t, p, d, i', t', p', d');
    var x, y := sha(HashInput(i, t, p, d)), sha(HashInput(i', t', p', d'));
    if Hex.Encode(x) == Hex.Encode(y) {
      Hex.EncodeInjective(x, y);
    }
  }

  /**
   * A self-certifying block whose index, timestamp or data is rewritten, with
   * its stored hash and previous hash kept, no longer certifies itself unless
   * the digest collides on the old and new hash inputs.
   */
  lemma TamperedFieldsBreakCertification(sha: DigestFunction, a: Block, b: Block)
    requires SelfCertifying(sha, a)
    requires b.hash == a.hash && b.previousHash == a.previousHash
    requires (b.index, b.timestamp, b.data) != (a.index, a.timestamp, a.data)
    requires NoCollision(sha, HashInput(a.index, a.timestamp, a.previousHash, a.data),
                              HashInput(b.index, b.timestamp, b.previousHash, b.data))
    ensures !SelfCertifying(sha, b)
  {
    assert a.data == (a.previousHash + a.data)[|a.previousHash|..];
    assert b.data == (b.previousHash + b.data)[|b.previousHash|..];
    DistinctInputsDistinctHashes(sha, a.index, a.timestamp, a.previousHash, a.data,
                                      b.index, b.timestamp, b.previousHash, b.data);
  }
}
