# Hash-linked ledger: a Dafny model

This project models the core of a small append-only blockchain written in Rust.
It covers the `Block` record with its commitment `calculate_hash`, and the
`Blockchain` vector with `new`, `add_genesis_block`, `add_block` and `is_valid`.

- A block stores an index (`u64`), a timestamp in milliseconds (`u128`), the
  previous block's hash, its own hash and a text payload.
- The hash is the lowercase hex rendering of SHA-256 over this byte string:
  the 8-byte big-endian index, then the 16-byte big-endian timestamp, then the
  UTF-8 bytes of the previous hash, then the UTF-8 bytes of the data.
- The chain starts with a genesis block: index 0, previous hash `"0"`, data
  `"Genesis Block"`.
- `add_block` pushes a block linked to the current tail.
- `is_valid` walks positions 1 and up. At each position it checks the link to
  the predecessor and then recomputes the block's own hash. It stops at the
  first failure.

Modules, one per layer:

- `Wrappers` (`wrappers.dfy`): an `Option` type.
- `Bytes` (`bytes.dfy`): bytes, `u64`/`u128` and `to_be_bytes`, with a
  decoder as its partner.
- `Utf8` (`utf8.dfy`): `str::as_bytes`, i.e. UTF-8 as in section 3 of RFC 3629.
  Its injectivity is proved.
- `Hex` (`hex.dfy`): `hex::encode`, with a decoder as its partner.
- `Blocks` (`block.dfy`): `Block`, the hash input, `calculate_hash`,
  `Block::new`.
- `Chain` (`chain.dfy`): the chain invariants and what `is_valid` decides, as
  functions on sequences of blocks. Also the class `Blockchain`, whose methods
  update its `chain: seq<Block>` field.
- `Scenarios` (`scenarios.dfy`): the seeding sequence of `main` and the unit
  tests, written against the class's contracts.

SHA-256 is not modelled. Every hashing operation takes the digest as a
parameter `sha`: an arbitrary total function from byte strings to 32 bytes.
The class keeps it as a constant. No property of `sha` is assumed in general.

A lemma that must tell two hash inputs apart requires `NoCollision(sha, x, y)`
for exactly those two inputs. Full collision freedom is impossible for a
function onto 32 bytes, so it is never assumed.

The clock reading of `Block::new` becomes a `timestamp` parameter of
`NewBlock`, of the constructor and of `AddBlock`.

Two properties one might expect of `is_valid` do not hold:

- It never re-hashes block 0, so rewriting the genesis data goes unnoticed
  (`Chain.GenesisDataTamperUndetected`).
- It never checks indices: `chain[i].index == i` is not looked at, so a chain
  with a wrong index can pass
  (`Chain.IndicesNotChecked`). The invariant does hold for every chain built by
  `new` and `add_block` (`Chain.Blockchain.AddBlock`, `Chain.WellFormedCharacterization`).

## Model

| member | source | states |
|---|---|---|
| `Bytes.U64ToBeBytes` | src/blockchain.rs:31 | `u64::to_be_bytes` gives 8 bytes that decode back to the index |
| `Bytes.U128ToBeBytes` | src/blockchain.rs:32 | `u128::to_be_bytes` gives 16 bytes that decode back to the timestamp |
| `Bytes.BigEndian` | src/blockchain.rs:31-32 | the fixed-width big-endian encoding has exactly the requested width |
| `Bytes.FromBigEndianOfBigEndian` | src/blockchain.rs:31-32 | decoding a big-endian encoding gives back the number |
| `Bytes.BigEndianOfFromBigEndian` | src/blockchain.rs:31-32 | every byte string is the encoding of the number it denotes (the other round trip) |
| `Bytes.BigEndianInjective` | src/blockchain.rs:31-32 | equal encodings of one width come from equal numbers |
| `Utf8.EncodeChar` | src/blockchain.rs:33-34 | one character encodes to 1 to 4 bytes, the lead byte announces the length, every later byte is a continuation byte in `0x80..0xBF`, and decoding gives back the scalar value |
| `Utf8.Encode` | src/blockchain.rs:33-34 | a string encodes to at least as many bytes as it has characters, and to no bytes only when it is empty |
| `Utf8.EncodeConcat` | src/blockchain.rs:33-34 | the encoding of a concatenation is the concatenation of the encodings, so no byte marks where one string ends |
| `Utf8.EncodeInjective` | src/blockchain.rs:33-34 | different strings have different UTF-8 encodings |
| `Hex.Encode` | src/blockchain.rs:36 | `hex::encode` writes two characters per byte |
| `Hex.EncodeIsLowerHex` | src/blockchain.rs:36 | every character written is in `0-9a-f` |
| `Hex.DecodeEncode` | src/blockchain.rs:36 | reading the hex text back gives the bytes |
| `Hex.EncodeDecode` | src/blockchain.rs:36 | any text the decoder accepts is exactly the encoding of what it returns |
| `Hex.EncodeInjective` | src/blockchain.rs:36 | different byte strings have different hex renderings |
| `Blocks.HashInput` | src/blockchain.rs:30-34 | the digest input starts with 8 bytes that decode to the index and 16 that decode to the timestamp, followed by the UTF-8 bytes of previous hash and data joined together |
| `Blocks.HashInputInjective` | src/blockchain.rs:30-34 | two digest inputs are equal if and only if index and timestamp agree and previous hash followed by data is the same string |
| `Blocks.CalculateHash` | src/blockchain.rs:29-37 | the hash is a 64-character string |
| `Blocks.CalculateHashFormat` | src/blockchain.rs:35-36 | the hash is 64 lowercase hex digits, and reading them back gives the 32-byte digest of the hash input |
| `Blocks.SameConcatenationSameHash` | src/blockchain.rs:33-34 | two (previous hash, data) pairs with the same concatenation get the same hash |
| `Blocks.AmbiguousSplit` | src/blockchain.rs:33-34 | `("ab", "c")` and `("a", "bc")` get the same hash for every index, timestamp and digest |
| `Blocks.DistinctInputsDistinctHashes` | src/blockchain.rs:29-37 | inputs differing in index, timestamp or joined text get different hashes, unless the digest collides on their two inputs |
| `Blocks.NewBlock` | src/blockchain.rs:16-27 | `Block::new` stores index, timestamp, previous hash and data as given, and the block certifies itself |
| `Blocks.TamperedFieldsBreakCertification` | src/blockchain.rs:72-79 | a self-certifying block with its index, timestamp or data rewritten, and its hash kept, no longer certifies itself, unless the digest collides |
| `Chain.Genesis` | src/blockchain.rs:52-53 | the genesis block has index 0, previous hash `"0"`, data `"Genesis Block"` and certifies itself |
| `Chain.GenesisWellFormed` | src/blockchain.rs:46-55 | the one-block chain made by `new` satisfies all four invariants |
| `Chain.Append` | src/blockchain.rs:57-61 | `add_block` grows the chain by one and keeps every earlier block. The new tail has the tail's index plus one, the tail's hash as its link, the given data and timestamp, and a hash that certifies it |
| `Chain.AppendPreservesWellFormed` | src/blockchain.rs:57-61 | `add_block` preserves the invariants: non-empty, `chain[i].index == i`, every link, every block self-certifying |
| `Chain.WellFormedCharacterization` | src/blockchain.rs:63-84 | the invariants hold if and only if the chain is non-empty, passes `is_valid`, has a self-certifying genesis block and sequential indices |
| `Chain.WellFormedIsValid` | src/blockchain.rs:63-84 | every chain satisfying the invariants passes `is_valid` |
| `Chain.GenesisNotExamined` | src/blockchain.rs:64 | replacing block 0 by any block with the same hash does not change the verdict of `is_valid` |
| `Chain.GenesisDataTamperUndetected` | src/blockchain.rs:64 | rewriting the genesis block's data does not change the verdict |
| `Chain.IndicesNotChecked` | src/blockchain.rs:63-84 | a correctly linked, self-certifying second block with an index other than 1 passes `is_valid`, although the chain breaks the index invariant |
| `Chain.TamperedLinkDetected` | src/blockchain.rs:68-70 | pointing block `i >= 1` at anything but its predecessor's hash fails `is_valid` |
| `Chain.TamperedBlockDetected` | src/blockchain.rs:72-81 | in a valid chain, rewriting block `i >= 1`'s index, timestamp or data while keeping its hash and link fails `is_valid`, unless the digest collides |
| `Chain.TamperedDataDetected` | src/blockchain.rs:72-81 | in a valid chain, rewriting the data of block `i >= 1` fails `is_valid`, unless the digest collides |
| `Chain.Blockchain.constructor` | src/blockchain.rs:46-50 | `Blockchain::new` holds exactly the genesis block and satisfies the invariants |
| `Chain.Blockchain.AddGenesisBlock` | src/blockchain.rs:52-55 | appends the genesis block to whatever the chain held |
| `Chain.Blockchain.AddBlock` | src/blockchain.rs:57-61 | the new chain is `Append` of the old one, and the invariants are preserved |
| `Chain.Blockchain.IsValid` | src/blockchain.rs:63-84 | the fail-fast loop returns true exactly when every position from 1 on passes both the link check and the recomputed-hash check; it changes nothing |
| `Scenarios.AppendSequenceIsValid` | src/blockchain.rs:104-110 | `new` followed by any sequence of `add_block` calls, at any timestamps, gives one more block than payloads and passes `is_valid` |
| `Scenarios.Seed` | src/main.rs:13-17 | after the genesis block and three payloads the chain has four blocks, satisfies the invariants, and block 2 is `Block::new` of index 2, the second payload and the hash of block 1 |
| `Scenarios.SeedAndTamper` | src/main.rs:10-25 | `main`'s seeding (genesis, three `add_block` calls) gives indices 0 to 3, and its one `is_valid` call returns true; then, in a tampering step this model adds and `main` does not perform, overwriting block 2's payload makes the chain invalid, unless the digest collides on block 2's two inputs |
| `Scenarios.MainSeeding` | src/main.rs:15-17 | the same with the three payloads `main` uses; the forgery `"tampered"` is part of the added tampering step, not of `main` |
| `Scenarios.TestBlockCreation` | src/blockchain.rs:90-96 | `Block::new(0, "0", "Genesis Block")` keeps its index, previous hash and data, and certifies itself |
| `Scenarios.TestBlockchainValidity` | src/blockchain.rs:98-110 | a new chain has length 1, and after two `add_block` calls it is valid |

## Left out

- SHA-256 (the `ring` crate) is a function parameter, not an implementation. Tamper detection is proved only for digests that do not collide on the two hash inputs involved.
- The clock reading `SystemTime::now()` and its `unwrap` panic are not modelled; the timestamp is a parameter.
- The `serde` derives and the `Debug`/`Clone` derives are not modelled: they are JSON and printing plumbing.
- `src/main.rs` is not modelled apart from its seeding sequence: the warp routes, the tokio runtime, the `Arc<Mutex<…>>` sharing and `println!` output are transport, concurrency and I/O.
- Chain.Blockchain.AddBlock: requires a non-empty chain, because `last().unwrap()` panics on an empty one.
- Chain.Blockchain.AddBlock: requires the tail index to be below `u64::MAX`. The source's `index + 1` panics there in debug builds and wraps to 0 in release builds; neither outcome is modelled.
- Rust `String`s are Dafny strings of Unicode scalar values, which is what Rust allows; invalid UTF-8 cannot occur on either side.
