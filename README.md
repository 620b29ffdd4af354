# Block format, proof of work and chain linkage of a toy proof-of-work ledger

This project models the `blockchain` package of a small proof-of-work
ledger written in Go, and proves properties of it in Dafny.

- **Block codec.** A block is three 32-byte header fields, `Prev`, `Nonce`
  and `Root`, followed by a 91-byte `Owner` key. Its encoding is those
  187 bytes back to back. Decoding reads the first 187 bytes of its input.
- **Content hash.** The hash of a block is SHA-256 over its encoding.
  SHA-256 itself is not modelled. Every member that hashes takes the
  digest function `sha: Bytes -> Digest` as a parameter, so each result
  holds for any such function.
- **Proof of work.** `Validate` counts the leading zero bits of the hash.
  It goes byte by byte and stops at the first non-zero byte. It accepts
  when the count is at least `ProofOfWorkDifficulty` (9).
  `GenerateValideHash` hashes fresh random buffers into `Nonce` until
  `Validate` accepts.
- **Signing.** `Sign` signs the current `Prev`, overwrites `Prev` with the
  first 32 bytes of the signature, and overwrites `Owner` with the first
  91 bytes of the DER-encoded public key.
- **Chain.** A `Blockchain` is a list of blocks that only grows at the back.
  `ValidateBlockchain` checks that each block after the first names the
  hash of the block before it in `Prev`.

Files:
- `bits.dfy` (module `Bits`): powers of two, the leading-zero count of
  one byte, and the big-endian value of a byte string.
- `blocks.dfy` (module `Blocks`): `blockchain/block.go`.
- `chain.dfy` (module `Chain`): `blockchain/chain.go`.

Facts about the code that shape the model:
- `ValidateBlockchain` never compares the first block's `Prev`
  (blockchain/chain.go:35), so `Chain.Linked` does not constrain it.
- `DecodeBlock` ignores bytes after the first 187 (blockchain/block.go:35),
  and so does the model.
- `ValidateBlockchain` never checks proof of work (blockchain/chain.go:29-46),
  and neither does `Chain.Linked`.
- `Sign` replaces the chain-linkage value in `Prev` with a signature. The
  model keeps that behaviour. By `Chain.AppendLinked`, a signed block stays
  linked only if the first 32 bytes of its signature equal the hash of its
  predecessor.

## Model

| member | source | states |
|---|---|---|
| `Bits.LeadingZeros8` | blockchain/block.go:72 | Gives 8 for a zero byte. Otherwise gives the `n` in 0..7 with 2^(7-n) <= x < 2^(8-n), which is the meaning of Go's `bits.LeadingZeros8`. |
| `Blocks.Encode` | blockchain/block.go:42-52 | Encoding always succeeds. It yields exactly 187 bytes: `Prev` at 0..32, `Nonce` at 32..64, `Root` at 64..96, `Owner` at 96..187. |
| `Blocks.DecodeBlock` | blockchain/block.go:30-40 | Succeeds exactly when at least 187 bytes are given. Empty input fails with EOF; 1 to 186 bytes fail with UnexpectedEOF. On success, re-encoding the block gives back the first 187 input bytes. |
| `Blocks.DecodeEncode` | blockchain/block.go:30-52 | Round trip: decoding the encoding of any block succeeds and returns that block. |
| `Blocks.DecodeIgnoresTrailingBytes` | blockchain/block.go:31-39 | Bytes after the first 187 do not change the decoded result. |
| `Blocks.EncodeInjective` | blockchain/block.go:42-52 | Different blocks have different encodings. |
| `Blocks.HashCollisionIsDigestCollision` | blockchain/block.go:54-62 | The hash depends only on the four fields. Two different blocks have the same hash only if SHA-256 collides on two different 187-byte inputs. |
| `Blocks.Hash` | blockchain/block.go:54-62 | The hash of a block is the digest of its 187-byte encoding. It has no contract of its own; `Blocks.HashCollisionIsDigestCollision` states what it depends on. |
| `Blocks.LeadingZeroBits` | blockchain/block.go:70-77 | The byte-by-byte leading-zero count of a digest is at most 8 bits per byte, so at most 256 for a digest. |
| `Blocks.LeadingZeroBitsIsBigEndianCount` | blockchain/block.go:70-77 | The count is exactly the number of leading zero bits of the digest read as a big-endian number. The value is below 2^(256-c), and at least 2^(255-c) unless all bits are zero. |
| `Blocks.ThresholdIsValueBound` | blockchain/block.go:70-84 | A digest has at least `d` leading zero bits exactly when its big-endian value is below 2^(8·length - d). |
| `Blocks.LaterBytesUnread` | blockchain/block.go:71-77 | Bytes after the first non-zero byte never affect the count. |
| `Blocks.LeadingZeroBitsExample` | blockchain/block.go:70-77 | Two zero bytes followed by 0001_1111 count 8 + 8 + 3 = 19, whatever bytes follow. |
| `Blocks.ProofOfWorkIsHashBelowTarget` | blockchain/block.go:80-84 | A block passes proof of work exactly when its hash, as a 256-bit big-endian number, is below 2^247 (difficulty 9). |
| `Blocks.ProofOfWork` | blockchain/block.go:80-84 | The threshold test: the leading-zero count of the hash is at least 9. Its contract states that a block with proof of work has a hash whose first byte is zero. |
| `Blocks.NonZeroFirstByteRejected` | blockchain/block.go:70-84 | A hash whose first byte is not zero counts at most 7 bits and is always rejected. |
| `Blocks.Validate` | blockchain/block.go:64-85 | The loop returns true exactly when the block has proof of work, that is, when the count reaches 9. When it returns true, the hash's first byte is zero. |
| `Blocks.NonceSearch` | blockchain/block.go:87-104 | The search over a given sequence of random draws changes only `Nonce`. It succeeds only with a block that has proof of work. It fails with RandomReadFailed only if some read failed. It runs out of draws only if no read failed. |
| `Blocks.SearchStopsAtFirstValidNonce` | blockchain/block.go:90-103 | The search returns at the first draw whose hashed buffer gives proof of work, and the returned block carries that nonce. |
| `Blocks.GenerateValideHash` | blockchain/block.go:87-104 | The in-place loop leaves the block and error that `NonceSearch` describes. On success `Validate` holds of the block. `Prev`, `Root` and `Owner` are untouched in every outcome. This is the property checked at blockchain/block_test.go:45-56. |
| `Blocks.BlockRef.Sign` | blockchain/block.go:106-126 | `Nonce` and `Root` never change. If signing fails, or the signature is shorter than 32 bytes (a run-time panic), nothing changes. Otherwise `Prev` becomes the first 32 bytes of the signature of the old `Prev`. Then a failure to convert or encode the key keeps `Owner`. A key encoding shorter than 91 bytes panics and also keeps `Owner`. Otherwise `Owner` becomes the first 91 bytes of the key encoding. |
| `Chain.Blockchain.constructor` | blockchain/chain.go:12-18 | A new chain is empty. |
| `Chain.Blockchain.Append` | blockchain/chain.go:20-22 | The block becomes the new last element, and earlier elements are unchanged. |
| `Chain.ValidateBlockchain` | blockchain/chain.go:24-49 | The fail-fast scan returns true exactly when, for every i > 0, `blocks[i].Prev == Hash(blocks[i-1])`. It modifies nothing and never tests proof of work. |
| `Chain.Linked` | blockchain/chain.go:29-48 | The validity predicate that `ValidateBlockchain` computes, defined from the back of the chain. It has no contract of its own; `Chain.LinkedIff` characterises it. |
| `Chain.LinkedIff` | blockchain/chain.go:29-48 | The recursive validity predicate holds exactly when every block after the first names its predecessor's hash. Nothing else is required: neither the first block's `Prev` nor any proof of work. |
| `Chain.LinkedPrefix` | blockchain/chain.go:29-48 | Every prefix of a valid chain is valid, so each earlier state of an append-only chain was valid. |
| `Chain.AppendLinked` | blockchain/chain_test.go:36-47 | Appending keeps a chain valid exactly when the chain was valid and the new block's `Prev` is the hash of the old last block, or the chain was empty. |
| `Chain.AppendDuplicateBreaks` | blockchain/chain_test.go:49-53 | Appending the last block again makes the chain invalid, unless that block's `Prev` is its own hash. |
| `Chain.SingleBlockLinked` | blockchain/chain_test.go:10-29 | The empty chain is valid. So is a chain of one block, whatever its `Prev`. |

## Left out

- SHA-256, ECDSA signing (`ecdsa.SignASN1`), the ECDH conversion and PKIX public-key marshalling are not modelled. SHA-256 is the parameter `sha`. The signature is the parameter `signer`, with the private key and the signer's randomness folded into it. The exported key is the parameter `publicKey`, which may report either conversion failure.
- `crypto/rand` is not modelled. `GenerateValideHash` and `NonceSearch` take the successive results of `rand.Read` as a finite sequence `draws`.
- GenerateValideHash: the Go loop runs until it succeeds or a read fails, with no bound. The model stops when the supplied draws run out and reports `DrawsExhausted`. That outcome stands for "still searching"; the Go code has no such outcome. Termination of the real loop is not claimed.
- The error results of `Encode`, `Hash`, `Validate` and of hashing in `ValidateBlockchain` (blockchain/block.go:46-49, 56-59, 65-68 and blockchain/chain.go:39-42) are not modelled. `binary.Write` of a struct made only of byte arrays cannot fail, so these branches never run. The model's `Encode`, `Hash` and `Validate` are total.
- The `fmt.Printf` debug output in `Validate` (blockchain/block.go:79) is not modelled.
- The type-assertion failure in `ValidateBlockchain` (blockchain/chain.go:30-33) cannot happen with a typed `seq<Block>` and is not modelled.
- Pointer aliasing in the chain is not modelled. The Go list holds `*Block` pointers, so a block mutated after `Append` would change the chain. The model's chain holds block values. Nothing in the package mutates a block after appending it.
- Go's `math/bits.LeadingZeros8` is a table lookup. The model computes it by comparisons with powers of two, and its contract states its arithmetic meaning (`Bits.LeadingZeros8`).
- `blockchain/transaction.go` (an unimplemented decoder), the peer-to-peer node in `node/init.go` and the command-line programs under `cmd/` are not part of this model.
