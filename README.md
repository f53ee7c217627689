# Row-permutation video cipher: a verified Dafny model

This project models the core of a video-frame scrambler. The core is the
class `Encryption` (src/Encryption.java) and its key type `Key`
(src/Key.java).

A frame is a flat buffer of `height × width × channels` signed bytes.

- **Encrypt and decrypt.** `encrypt` cuts the rows into consecutive blocks
  whose sizes are the largest powers of two that fit the rows left. Inside a
  block of `N` rows it sends local row `i` to local row
  `(r + (2s+1)·i) mod N`. `decrypt` undoes this.
- **Dynamic modes.** `dynamicEncrypt` picks a key, encrypts the frame, and
  hides the key's 15 bits. Each bit goes in the least significant bit of
  channel 0 of one of 15 pixels, chosen from a user seed.
  `dynamicDecrypt` finds the same pixels from the same seed, reads the key
  back, and decrypts.
- **Key recovery.** `bruteForceCrack` and `smartCrack` recover a key from an
  encrypted frame alone. They score candidate keys with squared row
  distances and a row "variance".

Module layout:

| module | what it holds |
|---|---|
| `Bits` | Powers of two, `&` and `|` on naturals, Java `int` wrap-around, and signed bytes (`I8`, with `U8` for `b & 0xFF`). |
| `Keys` | `Key`. |
| `Frames` | Flat buffers and their rows. |
| `Permutation` | The block structure and the row map, with the proof that the map is a bijection. |
| `Cipher` | `encrypt` and `decrypt`, as methods on arrays. |
| `Positions` | The key's pixel positions. |
| `KeyCodec` | The key's bits and their embedding. |
| `Dynamic` | The two dynamic modes. |
| `Scorers` | The row scores. |
| `KeySearch` | The two key searches. |

Each loop of the source is a method with a `while` or `for` loop. Each method
is proved against a function of its inputs. The properties the source relies
on are lemmas about those functions.

## Model

| member | source | states |
|---|---|---|
| Bits.LargestPowerOf2 | src/Encryption.java:49-57 | 0 for `n <= 0`; otherwise a power of two `p` with `p <= n < 2p`, equal to Pow2Floor(n) (loop guard corrected, see Findings) |
| Bits.Pow2Floor | src/Encryption.java:49-57 | 0 for 0; otherwise `1 <= p <= n < 2p` |
| Bits.Pow2FloorUnique | src/Encryption.java:49-57 | any power of two `p` with `p <= n < 2p` is Pow2Floor(n): the block size is well defined |
| Bits.LargestPowerOf2AsWrittenNeverExits | src/Encryption.java:52-55 | for every `n` in `[2^30, 2^31)` the source's guard `power * 2 <= n` (32-bit) holds after any number of passes |
| Bits.MaskedIntIsMod | src/Encryption.java:91 | `x & (N-1)` on a 32-bit `int` is the Euclidean `x mod N` for a power of two `N <= 2^31`, whatever the sign or wrap of `x` |
| Permutation.MaskedIndexIsBlockIndex | src/Encryption.java:91 | `(r + step*i) & mask` in Java `int` arithmetic, with `step = 2s+1`, equals `(r + (2s+1)i) mod N` |
| Permutation.BlockIndexBijective | src/Encryption.java:90-99 | within a block of power-of-two size the map `i ↦ (r + (2s+1)i) mod N` is injective and hits every local row |
| Permutation.BlockSourceInverse | src/Encryption.java:139-148 | the inverse block map undoes the block map |
| Permutation.BlocksTile | src/Encryption.java:84-101 | the blocks start at the first row, follow each other without gaps, and end exactly at the height |
| Permutation.BlockOfGreedy | src/Encryption.java:84-86 | the block holding a row has size Pow2Floor(rows left from its start), a power of two |
| Permutation.BlocksShrink | src/Encryption.java:84-101 | each block is strictly smaller than the previous one |
| Permutation.DestStaysInBlock | src/Encryption.java:90-99 | a row is sent to a row of its own block |
| Permutation.DestSourceInverse | src/Encryption.java:84-101 | the whole-frame row map and its inverse are mutually inverse |
| Permutation.DecryptEncryptRows | src/Encryption.java:117-157 | decrypting the rows encrypted with the same key gives the rows back |
| Permutation.EncryptDecryptRows | src/Encryption.java:67-107 | encrypting the rows decrypted with the same key gives the rows back |
| Permutation.IdentityKeyRows | src/Encryption.java:91 | key (0, 0) leaves every row in place |
| Cipher.PermutedRow | src/Encryption.java:93-98 | row `j` of the encrypted buffer is source row Source(j); row `j` of the decrypted buffer is source row Dest(j) |
| Cipher.EncryptMovesRow | src/Encryption.java:93-98 | encrypt moves row `i` to Dest(i), inside its block, unchanged |
| Cipher.CopyRow | src/Encryption.java:96-98 | System.arraycopy of one row: the destination buffer with that row replaced and nothing else changed |
| Cipher.EncryptBlock | src/Encryption.java:90-99 | after one block's loop, every row of the block is placed by the block map and every other row is unchanged |
| Cipher.DecryptBlock | src/Encryption.java:139-149 | after one block's loop, every row of the block is fetched through the block map and every other row is unchanged |
| Cipher.Encrypt | src/Encryption.java:67-107 | the output is the input frame with its rows permuted by the key's row map |
| Cipher.Decrypt | src/Encryption.java:117-157 | the output is the input frame with the inverse permutation applied |
| Cipher.DecryptEncrypt | src/Encryption.java:117-157 | decrypt(encrypt(f, r, s), r, s) == f for every valid frame and every key |
| Cipher.EncryptDecrypt | src/Encryption.java:67-107 | encrypt(decrypt(f, r, s), r, s) == f |
| Cipher.IdentityKey | src/Encryption.java:67-157 | key (0, 0) leaves a frame unchanged in both directions |
| Cipher.DecryptByte | src/Encryption.java:143-148 | byte `p` of a decrypted buffer is byte DecryptByteFrom(p) of its input |
| Positions.GetPositions | src/Encryption.java:25-41 | the rejection loop returns PositionsFor: the first 15 distinct draws in draw order; BadBound for a non-positive bound; OutOfDraws when the draws run out |
| Positions.PositionsValid | src/Encryption.java:25-41 | the result has 15 positions, no two equal, all inside the frame |
| Positions.DistinctFacts | src/Encryption.java:33-37 | the rejection keeps one copy of each draw, the same set of points, and no more points than draws |
| Positions.TooSmallFrame | src/Encryption.java:32-38 | a frame of fewer than 15 pixels never yields positions |
| KeyCodec.EncodeKeyBits | src/Encryption.java:177-184 | the 15 bits are bits 0–7 of `r` then bits 0–6 of `s`, and they decode back to `r` and `s` |
| KeyCodec.DecodeBits | src/Encryption.java:244-256 | the `|=` loop computes BitsValue, the binary value of the bits with bit 0 lowest |
| KeyCodec.DecodeKeyBits | src/Encryption.java:244-256 | decodes `r < 256` and `s < 128`, and the key re-encodes to the same 15 bits |
| KeyCodec.LowBitsValue | src/Encryption.java:179-184 | the value of the low `n` bits of `v` is `v mod 2^n` |
| KeyCodec.BitOfValue | src/Encryption.java:244-256 | bit `i` of the value built from some bits is bit `i` of those bits |
| KeyCodec.KeyBitsRoundTrip | src/Encryption.java:177-184 | decoding the encoding of a key with `r < 256`, `s < 128` gives that key |
| KeyCodec.BitsRoundTrip | src/Encryption.java:244-256 | every 15-bit pattern decodes to a key in range that encodes back to the same pattern |
| KeyCodec.WithLowBit | src/Encryption.java:200-208 | `(v & 0xFE) | bit` sets the low bit of the sample's unsigned value to `bit` and keeps its other seven bits |
| KeyCodec.LowBit | src/Encryption.java:238-241 | `(v & 1) == 1` is the parity of the sample's unsigned value |
| KeyCodec.ChannelZeroInjective | src/Encryption.java:187-211 | distinct pixels of a frame have distinct channel-0 byte indices |
| KeyCodec.Embed | src/Encryption.java:186-212 | the in-place loop leaves the buffer equal to Embedded, one low bit replaced per key bit in order |
| KeyCodec.EmbedChangesOnlyLowBits | src/Encryption.java:186-212 | embedding keeps the upper seven bits of every byte; a byte that is no position's channel-0 sample is unchanged |
| KeyCodec.EmbedSetsBits | src/Encryption.java:186-212 | with distinct positions, the low bit at position `i` is key bit `i` after all 15 writes |
| KeyCodec.ExtractKeyBits | src/Encryption.java:231-242 | the extraction loop returns the low bits at the positions in order |
| KeyCodec.ExtractEmbedded | src/Encryption.java:186-242 | extracting at the same distinct positions returns exactly the embedded bits |
| Dynamic.DynamicEncrypt | src/Encryption.java:166-215 | the result is the frame encrypted with `(r, s)` and then carrying KeyBits(r, s) at the seed's positions; it fails exactly when the positions do |
| Dynamic.DynamicDecrypt | src/Encryption.java:224-261 | the result is the frame decrypted with the key read from the seed's positions; it fails exactly when the positions do |
| Dynamic.HiddenKey | src/Encryption.java:244-256 | the key read from any frame has `r < 256` and `s < 128` |
| Dynamic.DynamicRoundTrip | src/Encryption.java:166-261 | with the same seed: the hidden key is read back exactly; the output has the input's dimensions; every byte keeps its upper seven bits; a byte that does not come from a key-carrying sample is restored exactly |
| Scorers.EuclideanDistance | src/Encryption.java:337-350 | minus the squared distance of the unsigned samples; at most 0, and 0 exactly when the rows are equal |
| Scorers.EuclideanDistanceFast | src/Encryption.java:362-376 | minus the squared distance of rows `r1` and `r2` of the buffer at every `step`-th sample; at most 0, and 0 when `r1 == r2` |
| Scorers.EuclideanDistanceSq | src/Encryption.java:543-552 | the squared distance at every tenth sample; at least 0, and 0 for equal rows |
| Scorers.RowVariance | src/Encryption.java:526-534 | the sum of `|row[i] - row[i + channels]|` over unsigned samples; at least 0 |
| Scorers.SqSumZero | src/Encryption.java:362-376 | the sampled squared distance is 0 exactly when the sampled bytes agree |
| Scorers.SqSumSymmetric | src/Encryption.java:337-350 | the squared distance does not depend on the order of the rows |
| Scorers.SqSumBound | src/Encryption.java:337-376 | each sample adds at most 255², so the sum stays far inside a `long` and is exact in a `double` |
| Scorers.AbsDiffSumZero | src/Encryption.java:526-534 | the variance is 0 exactly when every channel is constant along the row |
| Scorers.AbsDiffSumBound | src/Encryption.java:526-534 | each pair adds at most 255 |
| KeySearch.FirstArgMax | src/Encryption.java:421-424 | a strict `>` scan keeps the first index of the largest score |
| KeySearch.FirstArgMin | src/Encryption.java:488-491 | a strict `<` scan keeps the first index of the smallest score |
| KeySearch.FirstArgMaxUnique | src/Encryption.java:421-424 | an index with the first-maximum property is the one FirstArgMax finds |
| KeySearch.FirstArgMinUnique | src/Encryption.java:488-491 | an index with the first-minimum property is the one FirstArgMin finds |
| KeySearch.ScanMax | src/Encryption.java:421-424 | one `if (score > best)` step keeps the first maximum of one more score |
| KeySearch.ScanMin | src/Encryption.java:488-491 | one `if (score < best)` step keeps the first minimum of one more score |
| KeySearch.ScoreKey | src/Encryption.java:413-420 | the index array holds the block map of `(r, s)`, and summing euclideanDistanceFast over its adjacent entries gives the key's score KeyScore |
| KeySearch.AdjScoreNonPositive | src/Encryption.java:418-420 | no key scores above 0 |
| KeySearch.SearchS | src/Encryption.java:412-425 | the `s` pass returns the first `s` of highest score with `r = 0` |
| KeySearch.SearchR | src/Encryption.java:427-440 | the `r` pass returns the first `r` of highest score with the chosen `s` |
| KeySearch.BruteForceCrack | src/Encryption.java:397-442 | the key's `s` is the first maximiser of the `s` pass over the first Pow2Floor(height) rows, its `r` the first maximiser of the `r` pass with that `s`; the key is in range |
| KeySearch.CandidateBound | src/Encryption.java:465 | the loop `i += 40` while `i < N` visits exactly the candidates `k < (N+39)/40` |
| KeySearch.Pivot | src/Encryption.java:460-473 | the pivot row lies in the first block |
| KeySearch.SelectPivot | src/Encryption.java:460-473 | the pivot is row `40k` for the first `k` of highest variance |
| KeySearch.SDistance | src/Encryption.java:483-487 | one `s` candidate's distance is SScore: from the pivot row to row `(pivot + 2s+1) mod N` |
| KeySearch.SelectS | src/Encryption.java:478-493 | the first `s` of smallest stride-10 distance from the pivot row to its `2s+1`-th cyclic neighbour |
| KeySearch.RDistance | src/Encryption.java:506-508 | one `r` candidate's score is RScore: euclideanDistanceFast of gray rows `(r - step) mod N` and `r` |
| KeySearch.SelectR | src/Encryption.java:497-514 | Err exactly when the first block has fewer than 256 rows; otherwise the first `r` of smallest score |
| KeySearch.SmartCrack | src/Encryption.java:450-517 | succeeds exactly when Pow2Floor(height) >= 256; then `s` is the first minimiser of the pivot distances and `r` the first minimiser of the `r` scores for `step = 2s+1` |
| Keys.ConstructorKeepsFields | src/Key.java:23-44 | `new Key(r, s)` then getR/getS give back `r` and `s` |
| Keys.EqualsIsStructural | src/Key.java:53-59 | `equals` holds exactly for an object of class Key with the same `r` and `s` |
| Keys.EqualsIsEquivalence | src/Key.java:53-59 | `equals` is reflexive, symmetric and transitive on keys |
| Keys.HashCodeAgreesWithEquals | src/Key.java:53-70 | equal objects have equal hash codes |
| Keys.HashCodeInRange | src/Key.java:67-70 | for a key in range the 32-bit `31 * r + s` does not wrap, and it lies in `[0, 31·255 + 128)` |
| Keys.ToStringRoundTrip | src/Key.java:77-80 | the text `Key{r=…, s=…}` parses back to the key, for every pair of `int`s |
| Keys.ToStringInjective | src/Key.java:77-80 | distinct keys have distinct texts |

## Left out

- pearson, pearsonFast and evaluateFrameForKeyFinding are floating-point scorers, and none of the modelled operations calls them. The video player, the UI, the speed test and the command-line entry point are left out too.
- The random sources are inputs. `java.util.Random` in dynamicEncrypt becomes the parameters `r`, `s`. The seeded `SplittableRandom` of getPositionsForDynamicEncryption becomes the finite sequence `draws` of points it yields.
- The source's rejection loop draws for ever when fewer than 15 distinct points can come (a frame of under 15 pixels). The model returns `Err(OutOfDraws)` when `draws` runs out, so that case is only approximated.
- OpenCV is not modelled. `Mat.get`/`Mat.put` become reads and writes of the flat buffer. `Mat.get(row, col)` of a pixel becomes the unsigned byte value. The grayscale conversion `cvtColor` is not modelled: the key searches take the gray samples as an input.
- SmartCrack: takes the gray image of the whole frame and uses its first `N` rows. Converting `submat(0, N)` and converting the whole frame agree on those rows, since the conversion works pixel by pixel.
- BruteForceCrack, SmartCrack: require the frame's sizes to fit a Java `int`, as `new byte[N * width]` needs. Both also require a non-empty frame, since OpenCV's `cvtColor` (src/Encryption.java:402 and 501) rejects an empty one.
- Cipher.Encrypt, Cipher.Decrypt: require `height < 2^31`. They do not model a 32-bit overflow of `height * rowSize`.
- The initial scores `-Infinity`, `Long.MAX_VALUE` and `Double.MAX_VALUE` become `None`, so the first candidate always wins. This matches the source: every real score is finite and below `Long.MAX_VALUE`. `maxVariance = -1` stays, since variances are `>= 0`.
- Double arithmetic is modelled as exact integers. Every sum is an integer far below 2^53 (Scorers.SqSumBound), so the `double` holds it exactly.
- Scorers.EuclideanDistanceFast: requires both whole rows to lie in the buffer even when `step > 1`. In the source, the last sample read may be the only one that needs to fit.
- Encrypt, Decrypt, BruteForceCrack and the dynamic modes use the corrected largestPowerOf2 (see Findings). For heights of 2^30 and more, the source's version never returns.
- SmartCrack's `r` step keeps the `r` whose rows `(r - step) mod N` and `r` are farthest apart. This is because it minimises `correlation`, the negated distance. Under the true key those two rows hold original rows `N-1` and `0`, the only pair that is not adjacent in the original.

## Findings

| source | as written | input that shows it | evidently intended | confidence | as-written member | corrected member |
|---|---|---|---|---|---|---|
| src/Encryption.java:53 | `while (power * 2 <= n)` doubles a 32-bit `int`: once `power` reaches 2^30, `power * 2` wraps to `Integer.MIN_VALUE` and then to 0, and both are `<= n` | `n = 2^30` (any `n` in `[2^30, 2^31)`) | return the largest power of two `<= n` (2^30 here) | not executed | Bits.LargestPowerOf2AsWrittenNeverExits | Bits.LargestPowerOf2 |
