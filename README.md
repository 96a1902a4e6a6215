# ckb-mmr: the repository's own logic around a Merkle Mountain Range

The repository `ckb-mmr` wraps a Merkle Mountain Range (MMR) library for use from WebAssembly. Its one
entry point, `generate_root(items_len, target_pos)`, pushes up to `items_len` synthetic 32-byte leaves
into a fresh MMR. The leaf of iteration `i` is all zeros except byte 0, which is `i as u8`. At the first
pushed position that equals `target_pos` and passes `is_leaf`, it generates and verifies an inclusion
proof for that position. It then returns the root and the proof items as `0x`-prefixed lowercase hex,
with the items joined by `,`. If no iteration selects the target, it fails with "Node proofs not supported".

This project models the parts the repository owns itself:

- `position.dfy` (`Position`): `is_leaf(pos)`, i.e. `pos & (pos + 1) == 0` on `u64`. Bitwise AND on
  unsigned integers is defined bit by bit (`BitAnd`), and the `+ 1` wraps at 2^64. Proved: the test
  holds exactly when `pos + 1` is a power of two.
- `hex.dfy` (`Hex`): `bytes_to_hex`, the `0x` prefix followed by `hex::encode`. It comes with a decoder
  that accepts only what the encoder produces. Proved: length and character-position facts, round trip
  both ways, injectivity.
- `proof_encoding.dfy` (`ProofEncoding`): `bytes_to_hex_proof`, a loop that encodes each item, followed
  by a join with `,`. A splitter and parser are partners. Proved: lengths, comma count, split-after-join,
  and the parse round trip.
- `mmr.dfy` (`Mmr`): the MMR library as an abstract object. Its state is the sequence of leaves pushed
  so far. What `push`, `get_root`, `gen_proof` and `verify` return is supplied by a `Library` value of
  total functions over that state, and nothing about them is assumed. The `Blake2bMerge` wrapper is
  modelled around an uninterpreted 64-byte hash.
- `driver.dfy` (`Driver`): the loop of `generate_root` as a method (`GenerateRoot`), proved against a
  recursive reference definition (`Run`). Lemmas characterise when and where `Run` returns.
- `types.dfy` (`Types`): `u8`, `u64`, 32-byte arrays and the `Result` that carries an error message.

In the library's position numbering, leaves sit at positions 0, 1, 3, 4, 7, 8, 10, …. The code's
`is_leaf` accepts only positions 2^k − 1 (0, 1, 3, 7, …), so position 4 is a leaf that fails the test.
The model follows the code, so `GenerateRoot` never selects such a target.

`Mmr.Blake2bMerge`, `Mmr.MergeInput` and `Mmr.MergeInputInjective` stand alone: they document the
merge of src/lib.rs:29-37, which the library applies internally. The abstract `Library` is not
parameterised by it. `Position.BitAndCommutes` likewise documents the `&` of src/lib.rs:41 and is
not used by the other proofs.

## Model

| member | source | states |
|---|---|---|
| Position.BitAnd | src/lib.rs:41 | the `&` of two unsigned integers, bit by bit; its properties are in BitAndSelf, BitAndCommutes and AndSuccessorZeroIffPowerOfTwo |
| Position.IsLeaf | src/lib.rs:40-42 | `is_leaf(pos)`, `pos & (pos + 1) == 0` with the addition wrapping; its meaning is in IsLeafIffPowerOfTwo, IsLeafAtMax and IsLeafExamples |
| Position.WrappingIncrement | src/lib.rs:41 | `pos + 1` on `u64`: the successor below 2^64 − 1, and 0 at 2^64 − 1 |
| Position.AndSuccessorZeroIffPowerOfTwo | src/lib.rs:40-42 | `n & (n + 1) == 0` holds exactly when `n + 1` is a power of two (both directions) |
| Position.PowerOfTwoIsPow2 | src/lib.rs:40-42 | the halving definition of power of two agrees with `n == 2^k` for some `k` |
| Position.Pow2IsPowerOfTwo | src/lib.rs:40-42 | every `2^k` passes the halving test |
| Position.BitAndSelf | src/lib.rs:41 | `a & a == a` for the bitwise AND the model uses |
| Position.BitAndCommutes | src/lib.rs:41 | `a & b == b & a` |
| Position.IsLeafIffPowerOfTwo | src/lib.rs:40-42 | for every `u64`, `is_leaf(pos)` holds exactly when `pos + 1` (as an unbounded integer) is a power of two, i.e. `pos + 1 == 2^k`; at `u64::MAX` both sides hold |
| Position.Pow2Add | src/lib.rs:40-42 | `2^(a+b) == 2^a · 2^b`, used to place `u64::MAX + 1` at `2^64` |
| Position.Pow2At64 | src/lib.rs:40-42 | `2^64` is the `u64` range bound |
| Position.IsLeafAtMax | src/lib.rs:40-42 | at `u64::MAX` the increment wraps to 0 and the test accepts |
| Position.IsLeafExamples | src/lib.rs:40-42 | `is_leaf` accepts 0, 1, 3 and 63 and rejects 2 and 4 |
| Hex.HexDigit | src/lib.rs:45 | the digit for a nibble is a lowercase hexadecimal character |
| Hex.NibbleOf | src/lib.rs:45 | the value of a lowercase hex digit is below 16 and maps back to the same digit |
| Hex.Encode | src/lib.rs:45 | `hex::encode`: two characters per byte, high nibble at `2k`, low nibble at `2k + 1` |
| Hex.BytesToHex | src/lib.rs:44-46 | length `2 + 2n`, prefix `0x`, every later character in `[0-9a-f]`, characters `2 + 2k` and `3 + 2k` are the high and low nibble of byte `k` |
| Hex.Decode | src/lib.rs:45 | a decoded body has exactly two characters per byte |
| Hex.HexToBytes | src/lib.rs:44-46 | a decoded string has length `2 + 2n` for `n` bytes |
| Hex.DecodeEncode | src/lib.rs:45 | decoding `hex::encode(b)` gives `b` |
| Hex.EncodeDecode | src/lib.rs:45 | whatever decodes to `b` is `hex::encode(b)` |
| Hex.HexRoundTrip | src/lib.rs:44-46 | decoding `bytes_to_hex(b)` gives `b` back |
| Hex.HexToBytesIff | src/lib.rs:44-46 | a string decodes to `b` exactly when it is `bytes_to_hex(b)` |
| Hex.BytesToHexInjective | src/lib.rs:44-46 | distinct byte strings have distinct hex |
| ProofEncoding.Join | src/lib.rs:53 | `join(sep)`: the pieces in order with `sep` between neighbours; its properties are in JoinLength, JoinCount, SplitJoin and JoinSplit |
| ProofEncoding.HexProof | src/lib.rs:48-54 | the string `bytes_to_hex_proof` returns; its properties are in HexProofShape, SplitHexProof, HexProofRoundTrip and ParseProofIff |
| ProofEncoding.ParseProof | src/lib.rs:48-54 | the parser partner of `bytes_to_hex_proof`: `""` is no items, otherwise each comma-separated piece must be the hex of 32 bytes; see HexProofRoundTrip and ParseProofIff |
| ProofEncoding.Split | src/lib.rs:53 | splitting on `c` gives at least one piece, none containing `c`, one more piece than there are `c`s |
| ProofEncoding.HexItems | src/lib.rs:50-52 | one encoded string per proof item |
| ProofEncoding.BytesToHexProof | src/lib.rs:48-54 | the loop collects `bytes_to_hex` of every item in order and joins with `,`; no items give `""`; parsing the result gives the items back |
| ProofEncoding.DecodeItems | src/lib.rs:50-52 | a successful decode has one item per piece |
| ProofEncoding.SplitJoin | src/lib.rs:53 | splitting a join on its separator gives the pieces back when no piece holds the separator |
| ProofEncoding.JoinSplit | src/lib.rs:53 | joining the pieces of a split with the separator gives the string back |
| ProofEncoding.JoinLength | src/lib.rs:53 | a join of `n` pieces of width `w` has `w·n + s·(n − 1)` characters, `s` the separator length |
| ProofEncoding.JoinCount | src/lib.rs:53 | a join with separator `c` of pieces without `c` holds `n − 1` copies of `c` |
| ProofEncoding.NoCommaInHex | src/lib.rs:44-46 | `bytes_to_hex` output has no comma |
| ProofEncoding.HexProofShape | src/lib.rs:48-54 | no items give `""`; `n ≥ 1` items give `66n + (n − 1)` characters, exactly `n − 1` of them commas |
| ProofEncoding.SplitHexProof | src/lib.rs:49-53 | splitting the proof string on `,` gives `bytes_to_hex(items[k])` at index `k`, in order |
| ProofEncoding.DecodeHexItems | src/lib.rs:50-52 | decoding the encoded items gives the items |
| ProofEncoding.DecodedItemsAreHex | src/lib.rs:50-52 | pieces that decode to items are those items' encodings |
| ProofEncoding.HexProofRoundTrip | src/lib.rs:48-54 | parsing `bytes_to_hex_proof(items)` gives `items` |
| ProofEncoding.ParseProofIff | src/lib.rs:48-54 | a string parses to `items` exactly when it is `bytes_to_hex_proof(items)` |
| Mmr.MergeInput | src/lib.rs:30-32 | the 64-byte hash input, left child then right child; see MergeInputInjective |
| Mmr.Blake2bMerge | src/lib.rs:29-37 | the merge never fails, and hashes left child then right child and keeps the first 32 bytes |
| Mmr.MergeInputInjective | src/lib.rs:30-32 | the 64-byte hash input determines the ordered pair of children |
| Mmr.MerkleMountainRange.constructor | src/lib.rs:59-60 | a new range holds no leaves |
| Mmr.MerkleMountainRange.Push | src/lib.rs:67 | the position is the library's answer for the leaves so far; success appends the leaf, failure leaves the range unchanged |
| Mmr.MerkleMountainRange.GetRoot | src/lib.rs:70 | the root is the library's answer for the leaves pushed so far |
| Mmr.MerkleMountainRange.GenProof | src/lib.rs:75-77 | the proof is the library's answer for the leaves pushed so far and the positions |
| Driver.Payload | src/lib.rs:65-66 | the leaf of iteration `i`; its properties are in PayloadBytes and PayloadEqualIff, and MakeLeaf builds it as the source does |
| Driver.PayloadBytes | src/lib.rs:65-66 | the leaf of iteration `i` is 32 bytes, byte 0 is `i mod 256`, the other 31 are 0 |
| Driver.PayloadEqualIff | src/lib.rs:65-66 | two iterations push equal leaves exactly when their indices agree mod 256 |
| Driver.MakeLeaf | src/lib.rs:65-66 | the zeroed array with byte 0 set to `i as u8` is the payload of iteration `i` |
| Driver.ProveLeaf | src/lib.rs:74-99 | generates the proof for the position, propagates a library error from it or from `verify`, and otherwise returns the hex root and the hex proof |
| Driver.Finish | src/lib.rs:74-99 | proof generation, verification and hex encoding for a selected position; ProveLeaf is proved equal to it and FinishDecodes states what it returns |
| Driver.FinishAt | src/lib.rs:74-99 | Finish applied to the push and root of iteration `i` |
| Driver.Run | src/lib.rs:64-102 | the reference definition of the loop from iteration `i` on; GenerateRoot is proved equal to it, and RunStops, RunIsFirstStop, RunOkIff, RunRejects, RunExhausted and RunResultDecodes state what it returns |
| Driver.GenerateRoot | src/lib.rs:57-103 | result equals the reference loop `Run`; at most `items_len` leaves are pushed, the leaves of iterations `0, 1, …` in order; `Ok` only when `target_pos` passes `is_leaf` and the last push returned it with no earlier push returning it (nothing pushed after); if every iteration continues, all `items_len` are pushed and the fixed error is returned |
| Driver.RunSkipsPrefix | src/lib.rs:64-101 | iterations that neither fail nor select can be skipped without changing the result |
| Driver.StopFrom | src/lib.rs:64-101 | the stopping iteration is the first that fails or selects, and every earlier one continues |
| Driver.RunStops | src/lib.rs:64-102 | the loop from iteration `i` returns what its first stopping iteration returns, or the fixed error if none stops |
| Driver.RunIsFirstStop | src/lib.rs:64-102 | `generate_root` is decided by its first non-continuing iteration: a library error there, the proof of that iteration, or "Node proofs not supported" if there is none |
| Driver.FirstPushOfTarget | src/lib.rs:67-73 | before the selecting iteration, no push returned `target_pos` |
| Driver.RunOkIff | src/lib.rs:64-102 | `Ok` exactly when some iteration is the first to select `target_pos` and proof generation and verification succeed there; the result is that iteration's |
| Driver.RunRejects | src/lib.rs:64-102 | no `Ok` when `target_pos` fails `is_leaf` or `items_len == 0` |
| Driver.RunExhausted | src/lib.rs:102 | if no iteration fails or selects, the result is "Node proofs not supported" |
| Driver.FinishDecodes | src/lib.rs:96-99 | a successful finish returns hex that decodes to the root and a proof string that parses to the generated proof's items |
| Driver.RunResultDecodes | src/lib.rs:96-99 | a successful result's `root` decodes to the library's root after the selecting push, and its `proof` parses to that proof's items |

## Left out

- The MMR library's internals (`MMR::push`, `get_root`, `gen_proof`, `MerkleProof::verify`, `proof_items`,
  `MemStore`): they are foreign. They are uninterpreted functions of the pushed leaves, and no peak,
  bagging or proof-path logic is modelled.
- Blake2b is an uninterpreted function from bytes to 64 bytes. The library's use of the merge inside the
  range is not modelled.
- The `wasm_bindgen` glue, the conversion of library errors into `JsError`, the `println!` logging and the
  `Display` impl of `MMRResult` are I/O or binding plumbing. A library error is represented by its message.
- The boolean `is_valid` that `verify` returns is not modelled. It is only printed, and only the
  error of `verify` affects the result.
- `leaf_data` is a local map built the same way as the source's `HashMap`. Hash-map iteration order and
  capacity are not modelled.
- The store is modelled as part of the range object. The range's leaves after a failed push are taken to
  be unchanged, and `generate_root` returns right after such a failure.
- `src/main.rs` is a demo driver calling `generate_root(100, 63)` and is not part of this model.
- At `u64::MAX` a debug build panics on the overflow of `pos + 1` in `is_leaf`. The model follows the
  wrapping (release) arithmetic there, stated in `IsLeafAtMax`.
- Bitwise AND is defined arithmetically (`BitAnd`). It is not linked to Dafny's `bv64` `&` operator.
