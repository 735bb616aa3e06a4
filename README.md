# zk-patent: circuit-input encoder and mint-log listing

This project models the two pieces of self-contained logic in the zk-patent
web application, which turns a patent-style idea into a zero-knowledge proof
and mints an NFT recording the idea's hash.

- **Circuit-input encoder** (`zk.dfy`, module `Zk`). Before a Groth16 proof
  is generated, the UTF-8 bytes of the idea become the `preimage` input of the
  hash-preimage circuit. An idea longer than 256 bytes is rejected with an
  error carrying its length. Otherwise a zero-filled 256-byte buffer is
  allocated and the idea is copied to its front. Each buffer byte then pushes
  its bits, bit 7 down to bit 0, onto `preimage`. `PrepareCircuitInput` is this
  imperative procedure, written over an `array` buffer and a `seq` accumulator
  with nested loops. It is proved equal to the reference function
  `CircuitInput`. The lemmas state the length (2048), the range (0 or 1), MSB-first bit
  order, zero padding, the bits-to-bytes round trip, and exactly which ideas
  collide: those differing only by trailing zero bytes.
- **Mint-log listing** (`mint_logs.dfy`, module `MintLogs`). The GET handler of
  `/api/mint-logs` reads an optional `limit` (absent means 0) and fetches the
  recent patents. It keeps the first `limit` entries when `limit > 0` and
  answers `{success: true, patents}` with status 200. If the fetch throws, it
  answers `{success: false, error}` with status 500. The message is the
  `Error`'s own, or "An unknown error occurred" for any other thrown value.
  The handler is a pure function of the parameter and of the fetch outcome.
- `wrappers.dfy` (module `Wrappers`) holds the `Option` and `Result` types both use.

Inputs from I/O are parameters. The UTF-8 bytes of the idea are given as a
sequence of `Byte` (0..255). The parsed `limit` is an `Option<int>`. The
outcome of `getRecentPatents()` is a `Result<seq<T>, Thrown>` over an
arbitrary element type `T`.

JavaScript's `>>` and `& 1` on a byte are modelled as `ShiftRight`
(repeated floor halving) and `LowBit` (`% 2`). On non-negative values these
agree with the source operators.

## Model

| member | source | states |
|---|---|---|
| Zk.PrepareCircuitInput | src/lib/server/zk.ts:23-47 | the in-place procedure (length check, zero-filled buffer, copy, nested MSB-first push loops) returns exactly the reference encoding `CircuitInput`, the error included |
| Zk.CircuitInput | src/lib/server/zk.ts:27-43 | rejected exactly when the input exceeds 256 bytes, with an error carrying the byte length; an accepted input (256 bytes included) gives 2048 elements, each 0 or 1 |
| Zk.Padded | src/lib/server/zk.ts:33-34 | the padded buffer has exactly 256 bytes, starts with the input, and every byte after it is 0 |
| Zk.ByteBits | src/lib/server/zk.ts:39-42 | one byte expands into 8 elements, each 0 or 1 |
| Zk.ExpandBits | src/lib/server/zk.ts:38-43 | the expansion has 8 elements per byte, each 0 or 1 |
| Zk.ExpandBitsAppend | src/lib/server/zk.ts:38-43 | pushing one more byte appends exactly that byte's 8 bits to the expansion |
| Zk.ExpandBitsAt | src/lib/server/zk.ts:38-43 | element `8*k + j` of the expansion is bit `7 - j` of byte `k` |
| Zk.BitOrder | src/lib/server/zk.ts:33-43 | `preimage[8*k + j] == (padded[k] >> (7 - j)) & 1` for every byte k < 256 and j < 8, which is the input byte's bit inside the input and 0 in the padding |
| Zk.PaddingIsZero | src/lib/server/zk.ts:33-34 | for an input of n bytes every preimage element at index 8*n or beyond is 0 |
| Zk.ByteRoundTrip | src/lib/server/zk.ts:39-41 | reading a byte's 8 extracted bits back MSB-first yields the byte |
| Zk.PackExpandBits | src/lib/server/zk.ts:37-43 | regrouping any byte sequence's expansion into MSB-first bytes yields that sequence |
| Zk.EncodeRoundTrip | src/lib/server/zk.ts:33-43 | regrouping an accepted preimage into MSB-first bytes yields the 256-byte padded buffer, whose first n bytes are the input |
| Zk.TrailingZerosCollide | src/lib/server/zk.ts:33-34 | an accepted input with trailing zero bytes appended has the same preimage as the input |
| Zk.SamePreimageOnlyByTrailingZeros | src/lib/server/zk.ts:33-43 | conversely, two accepted inputs with equal preimages differ only by trailing zero bytes |
| MintLogs.Truncate | src/routes/api/mint-logs/+server.ts:9-11 | for a positive limit the result has `min(limit, n)` entries, each equal to the entry at the same position; for a non-positive limit it is the list unchanged |
| MintLogs.Get | src/routes/api/mint-logs/+server.ts:4-19 | success exactly when the fetch succeeds; then status 200 with a prefix of the fetched list, of length `min(limit, n)` for a positive limit and the whole list otherwise; a failed fetch gives status 500, no list, and the thrown `Error`'s message or the fixed unknown-error text |
| MintLogs.AbsentLimitReturnsAll | src/routes/api/mint-logs/+server.ts:6-13 | an absent `limit` behaves as 0: the whole fetched list is returned with success |
| MintLogs.TruncateKeepsAll | src/routes/api/mint-logs/+server.ts:9-10 | the list comes back unchanged exactly when the limit is non-positive or at least the list's length |

## Left out

- UTF-8 encoding of the idea string (`Buffer.from(idea, 'utf-8')`, src/lib/server/zk.ts:25), including Node's replacement of lone surrogates: the model starts from the byte sequence.
- Logging (`console.log`, `console.error`) in both files: no effect on results.
- `BigInt(...)` wrapping of each bit: the preimage is a sequence of mathematical integers.
- Proof and calldata generation (`generateProof`, `generateCalldata`, src/lib/server/zk.ts:52-80): calls into the snarkjs and ffjavascript libraries.
- Parsing of the query string with `Number(...)`: `limit` is given already as an integer. A non-numeric value (`NaN`) fails `limit > 0` and so behaves like a non-positive limit. A fractional limit, which `slice` truncates toward zero, is not modelled.
- `getRecentPatents()` is given as its outcome (a list or a thrown value). It is not part of this model, because src/lib/server/web3.ts ends at line 361 and does not define it. For the same reason the on-chain event cache, duplicate-idea detection and cache invalidation are not modelled.
- Serialization failures inside the `json(...)` helper: the helper is a foreign call.
- Contract setup and minting (`mintPatentNftWithProof`, src/lib/server/web3.ts:313-361), LLM summarisation, document text extraction and the submit route: network calls and foreign parsers.
