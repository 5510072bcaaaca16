# LaplacianOS algorithm models

Dafny models of the self-contained algorithm cores of LaplacianOS, with proofs of what each is for. The
code that works step by step is modelled step by step: classes over arrays, loops and in-place updates, each
method proved against a function of its inputs or of the old state. What the code promises is then proved of
those functions for every input, every run or every reachable state. Where the code does not keep a promise,
the exact condition under which it does is proved, together with an input that fails.

`dafny verify dfyconfig.toml` checks the whole project.

## What is modelled

| area | modules |
|---|---|
| Machine words, bit operations, little-endian numbers, byte hash | `Bits`, `Bitset`, `LittleEndian`, `Fnv` |
| Sums, roundings, sets, permutations, options | `Sums`, `Rounding`, `Sets`, `Permutations`, `Options` |
| Poly1305, ChaCha20, authenticated encryption | `Poly1305`, `ChaCha`, `ChaChaPoly` |
| AES-256-XTS | `Gf256`, `AesTables`, `AesXts`, `AesXtsTweak`, `AesXtsInPlace`, `AesKeySchedule`, `AesContext` |
| Personalised PageRank in Q16 | `PageRank`, `PageRankFlow`, `PageRankEngine` |
| Kneser-Ney trigram model | `OpenTable`, `KneserNey`, `KneserNeyLaws`, `KneserNeyMix`, `KneserNeyCounts`, `KneserNeyModel` |
| SimHash and the banded index | `Fingerprint`, `Lsh`, `LshIndex` |
| Sketches and entity promotion | `Sketch`, `Correlation`, `Promotion`, `NearestEntity`, `Pipeline` |
| BM25 | `Bm25`, `Bm25Index`, `Bm25Query`, `Bm25Score` |
| Greedy cover and integer square root | `MinCover`, `MinCoverSelect` |
| Benjamini-Hochberg and the observation ring | `BenjaminiHochberg`, `VarHistory` |
| Boot loader and package store | `ElfLoader`, `PackageStore` |
| CBOR of the authenticator | `Cbor`, `CborBuffer`, `CborLookup` |
| Secret redaction | `Redact`, `RedactScan`, `RedactSecrets`, `RedactTwice` |
| Text editor | `Editor`, `EditorBuffer` |

Integers are unbounded in Dafny, so every width is written out: machine words are subset types, and each wrap,
truncating cast and saturating addition of the source appears as `%` or `Min`.

## Where the code and its promise part

* The Poly1305 tag is the RFC 8439 tag exactly when none of the three lower 32-bit additions of the residue and
  `s` carries (`Poly1305.TagIsRfcTagIff`); `Poly1305.LostCarry` gives a key and a four-byte message that fail.
* The trigram model's discounted probabilities and back-off weight stay within one exactly when the context's
  total is below 65536 or a multiple of it, because the total is shifted left by sixteen in 32 bits
  (`KneserNeyLaws.ContextMassFitsIff`); `KneserNeyCounts.OverfullBreaksTheLaw` gives a run that fails.
* The lower-order probability falls short of the formula it stands for by less than 3.5 units of 2^-16 and never
  exceeds it (`KneserNeyMix.BigramBracket`); it can fall short by more than three (`KneserNeyMix.ThreeUnitsMissed`).
  The trigram probability, for totals below 65536, falls short by less than two units and 1.5 times the lower order
  (`KneserNeyMix.ProbabilityBracket`).
* A BM25 score does not fall as a term occurs more often (`Bm25Score.MoreOftenNeverLess`); this is for whole counts,
  the only ones a query passes, and fails of frequencies with fractions (`Bm25Score.FractionsCanFall`).
* A pair of entities is not promoted before its third co-occurrence, unless in every row of the sketch another pair
  is counted with it; and then it is promoted, unless the filter claims it wrongly (`Promotion.PromotedIff`).
* A banded query finds every entity in range exactly for distances up to seven (`Lsh.CompleteIff`).
* The resolver returns a nearest entity exactly as long as no more than eight are in range, over all indexes of a
  given number in range (`NearestEntity.NearestForExactlyIff`) and over the indexes a run can build
  (`NearestEntity.NearestUpToIff`), which are those whose fingerprints are apart (`NearestEntity.ReachableIff`);
  `NearestEntity.NearestCanBeMissed` gives nine mentions after which a tenth goes to the wrong entity.
* Loading leaves memory outside the zeroed pages alone exactly when every file part lies within one merged range
  (`ElfLoader.OutsideSurvivesIff`); `ElfLoader.LongFileSpills` is a segment whose file part does not.
* CBOR lengths and numbers read back exactly within one or two bytes (`Cbor.StringSkipIff`, `Cbor.ArraySkipIff`,
  `Cbor.MapSkipIff`, `Cbor.UIntReadsBackIff`, `Cbor.NIntReadsBackIff`).
* A map lookup slices past the end of the data exactly when the first pair it reaches with the key has a value that
  ends there (`CborLookup.MapIntPanicsIff`, `CborLookup.MapTextPanicsIff`), as in `Cbor.TruncatedValuePanics`; skipping
  the whole item first rules that out for every key (`CborLookup.WholeMapsAreSafe`).
* Redacting twice can find more than redacting once (`RedactTwice.SecondPassFindsMore`); the second pass changes
  nothing exactly when no fixed-length key or web token that was left in place ends where the next secret found
  begins (`RedactTwice.RedactTwiceIff`).
* A JSON web token of enough characters is recognised exactly when the whole run of them has two dots
  (`Redact.JwtIff`), so no token is recognised with a full stop after it (`Redact.FullStopHides`).
* Up and then down returns to the same column exactly when the line above is long enough (`Editor.UpThenDown`).

## Model

| member | source | states |
|---|---|---|
| Poly1305.Multiply | kernel/src/crypto/chacha20poly.rs:185-190 | the five column sums of the limb product stay below 2^60 and are congruent to the product modulo 2^130 - 5 |
| Poly1305.Carry | kernel/src/crypto/chacha20poly.rs:192-210 | one carry pass keeps the residue and brings every limb short enough for the next block |
| Poly1305.AbsorbBlock | kernel/src/crypto/chacha20poly.rs:164-213 | a block is one Horner step (h + c) * r modulo 2^130 - 5, with no 64-bit overflow |
| Poly1305.Finalise | kernel/src/crypto/chacha20poly.rs:215-253 | the final carries and masked subtraction leave the canonical residue in normal limbs |
| Poly1305.ToWordsValue | kernel/src/crypto/chacha20poly.rs:261-265 | the four 32-bit words are that residue modulo 2^128 |
| Poly1305.Mac | kernel/src/crypto/chacha20poly.rs:129-281 | the tag bytes are the residue words plus s word by word, for every key and message |
| Poly1305.TagIsRfcTagIff | kernel/src/crypto/chacha20poly.rs:267-281 | that tag is the tag of section 2.5 of RFC 8439 if and only if no lower word carries |
| Poly1305.LostCarry | kernel/src/crypto/chacha20poly.rs:267-273 | a concrete key and message whose tag is wrong |
| ChaCha.QuarterRoundInPlace | kernel/src/crypto/chacha20poly.rs:25-38 | the in-place quarter round is the function of the old sixteen words |
| ChaCha.QuarterRoundOfOne | kernel/src/crypto/chacha20poly.rs:25-38 | where a single bit goes in a quarter round, which shows every addition and every shift count |
| ChaCha.RoundsInvert | kernel/src/crypto/chacha20poly.rs:68-80 | any number of double rounds can be run backwards: the rounds permute the states |
| ChaCha.ComputeBlock | kernel/src/crypto/chacha20poly.rs:45-94 | the 64 bytes are the permuted initial state added to itself word by word, little-endian |
| ChaCha.XorStream | kernel/src/crypto/chacha20poly.rs:98-110 | every byte of a buffer of any length is combined with the keystream byte at its offset, the block counter wrapping |
| ChaCha.CryptTwice | kernel/src/crypto/chacha20poly.rs:98-110 | the stream applied twice gives the data back |
| ChaChaPoly.BuildMacInput | kernel/src/crypto/chacha20poly.rs:395-425 | the padded associated data, padded text and two lengths |
| ChaChaPoly.MacInputIff | kernel/src/crypto/chacha20poly.rs:395-425 | two pairs of associated data and text are authenticated alike if and only if they are equal, wherever one part ends and the other begins |
| ChaChaPoly.TextAvoidsKeyBlock | kernel/src/crypto/chacha20poly.rs:331-346 | byte i of the text is combined with the block of counter 1 + i / 64, up to 2^32 - 1 blocks, which starts from another state than the block that keys the authenticator |
| ChaChaPoly.Seal | kernel/src/crypto/chacha20poly.rs:331-346 | the output is ciphertext then tag, and what follows is untouched |
| ChaChaPoly.Open | kernel/src/crypto/chacha20poly.rs:353-392 | succeeds exactly when the tag is right, then yields the plaintext; otherwise the output is wiped |
| ChaChaPoly.OpensExactlyTheSealed | kernel/src/crypto/chacha20poly.rs:331-392 | opening a box gives a plaintext if and only if the box is what sealing that plaintext gives |
| Gf256.MulMul | kernel/src/crypto/aes_xts.rs:39-46 | multiplications by constants compose as multiplication modulo the AES polynomial |
| AesTables.InvSboxInverts | kernel/src/crypto/aes_xts.rs:180-184 | the inverse substitution table undoes the substitution table on every byte |
| AesTables.SboxIsAffineInverse | kernel/src/crypto/aes_xts.rs:17-33 | the substitution table is the affine map of section 5.1.1 of FIPS 197 after the inverse in GF(2^8), zero going to zero |
| AesXts.InvShiftRowsInverts | kernel/src/crypto/aes_xts.rs:187-203 | the inverse row shift undoes the row shift |
| AesXts.InvMixColumnsInverts | kernel/src/crypto/aes_xts.rs:236-248 | the matrix (14, 11, 13, 9) undoes (2, 3, 1, 1) over GF(2^8), column by column |
| AesXts.DecryptedEncrypted | kernel/src/crypto/aes_xts.rs:253-273 | decryption with the same schedule in reverse undoes encryption of a block |
| AesXts.AlphaCoefficient | kernel/src/crypto/aes_xts.rs:278-288 | every one of the 128 coefficients of the next tweak is that of the old one times x modulo x^128 + x^7 + x^2 + x + 1 |
| AesXts.XtsInverts | kernel/src/crypto/aes_xts.rs:312-365 | with equal tweak sequences, inverse block ciphers give inverse sector ciphers |
| AesXts.SectorRoundTrip | kernel/src/crypto/aes_xts.rs:312-365 | for every key pair, sector number and sector, decryption undoes encryption |
| AesXtsTweak.SectorBlockHoldsNumber | kernel/src/crypto/aes_xts.rs:315-318 | the block given to the tweak cipher is the sector number in eight little-endian bytes and then zeros, for every 64-bit number |
| AesXtsTweak.TweaksDiffer | kernel/src/crypto/aes_xts.rs:312-319 | different sectors have different tweaks, under every key |
| AesXtsTweak.EncryptedBlock | kernel/src/crypto/aes_xts.rs:312-336 | block j of a sector is encrypted between two additions of the sector's tweak times x to the j |
| AesXtsTweak.DecryptedBlock | kernel/src/crypto/aes_xts.rs:341-365 | block j of a sector is decrypted between two additions of the same |
| AesXtsTweak.XtsTail | kernel/src/crypto/aes_xts.rs:321-335 | what is left after the last whole block is not touched |
| AesXtsInPlace.EncryptBlock | kernel/src/crypto/aes_xts.rs:97-117 | fourteen in-place rounds are the block cipher |
| AesXtsInPlace.DecryptBlock | kernel/src/crypto/aes_xts.rs:253-273 | the in-place inverse rounds are its inverse |
| AesXtsInPlace.AlphaInPlace | kernel/src/crypto/aes_xts.rs:278-288 | the byte-wise shift with feedback is multiplication of the tweak by x |
| AesXtsInPlace.EncryptSector | kernel/src/crypto/aes_xts.rs:312-336 | the whole sector is encrypted in place, an incomplete last block left alone |
| AesXtsInPlace.DecryptSector | kernel/src/crypto/aes_xts.rs:341-365 | the whole sector is decrypted in place |
| AesKeySchedule.Expand | kernel/src/crypto/aes_xts.rs:53-91 | the 240 bytes satisfy the key-expansion recurrence of AES-256 |
| AesKeySchedule.ExpansionIsUnique | kernel/src/crypto/aes_xts.rs:53-91 | that recurrence leaves no byte free |
| AesContext.Context.constructor | kernel/src/crypto/aes_xts.rs:301-308 | the two halves of the key material are expanded with the substitution table into the data and tweak schedules |
| AesContext.SameMaterialDecrypts | kernel/src/crypto/aes_xts.rs:301-365 | what is encrypted under 64 bytes of key material is decrypted under the same, for every sector and number |
| PageRank.FlowsFit | kernel/src/cognitive/pagerank.rs:126-135 | what all nodes receive never exceeds the damped rank of the nodes that have out-edges |
| PageRank.RawNextSum | kernel/src/cognitive/pagerank.rs:119-146 | before normalisation the next scores sum to at least 1 and at most one unit |
| PageRank.NormalizedSum | kernel/src/cognitive/pagerank.rs:210-243 | after normalisation a non-zero vector sums to exactly one unit |
| PageRank.RestartSum | kernel/src/cognitive/pagerank.rs:99-118 | the restart vector is exactly one unit for every seed list |
| PageRank.RanksSum | kernel/src/cognitive/pagerank.rs:99-162 | for every graph, seed list and number of iterations the ranks are exactly one unit |
| PageRankFlow.RawNextBracket | kernel/src/cognitive/pagerank.rs:119-146 | a node's next score before normalisation is 0.15 of its restart, 0.85 of what every edge into it brings from its source by weight, and its share of the dangling rank, short of that by less than three for each edge and three more |
| PageRankFlow.NextIsNoLess | kernel/src/cognitive/pagerank.rs:210-243 | normalising lowers no score |
| PageRankFlow.EdgeFeedsItsEnd | kernel/src/cognitive/pagerank.rs:126-135 | after every iteration the end of an edge has at least what the edge carried, floored |
| PageRankFlow.NoEdgeInRank | kernel/src/cognitive/pagerank.rs:119-146 | a node with no edge into it has its restart and dangling shares in proportion to the whole, unless it takes the remainder |
| PageRankFlow.UnreachedIsZero | kernel/src/cognitive/pagerank.rs:99-162 | a node with no edge into it and no restart never has any rank |
| PageRankEngine.Engine.AddNode | kernel/src/cognitive/pagerank.rs:60-72 | an id is stored once, its index returned, and refused when the table is full |
| PageRankEngine.Engine.AddEdge | kernel/src/cognitive/pagerank.rs:74-91 | an edge is appended and its source's out-weight stays the sum of its edges |
| PageRankEngine.Engine.ComputePersonalized | kernel/src/cognitive/pagerank.rs:99-162 | the arrays hold the ranks after the first iteration below the threshold, or the last allowed, and sum to one unit |
| PageRankEngine.Engine.TopK | kernel/src/cognitive/pagerank.rs:172-187 | the output is the best-ranked nodes in order, short only when every other rank is zero |
| OpenTable.ProbeDecides | kernel/src/cognitive/kneser_ney.rs:466-483 | with unbroken probe chains a probe finds a key if and only if some slot holds it |
| OpenTable.UpsertIntact | kernel/src/cognitive/kneser_ney.rs:439-464 | counting a key keeps keys distinct and every probe chain unbroken |
| OpenTable.UpsertRefines | kernel/src/cognitive/kneser_ney.rs:439-464 | a counting step on the table is a step on a map of bounded size |
| OpenTable.TallyIsOccurrences | kernel/src/cognitive/kneser_ney.rs:439-464 | while the distinct keys fit, that map holds each key's number of occurrences, saturated |
| KneserNey.EveryRunIsSound | kernel/src/cognitive/kneser_ney.rs:239-264 | after any run, tables full or not, chains are unbroken and each stored context has exactly as many continuations as distinct trigrams |
| KneserNeyLaws.UnigramsFit | kernel/src/cognitive/kneser_ney.rs:356-362 | the unigram probabilities of all words add up to at most one |
| KneserNeyLaws.ContextMassFitsIff | kernel/src/cognitive/kneser_ney.rs:302-324 | in a sound model the discounted probabilities of a seen context and its back-off weight fit in one if and only if the total is below 65536 or a multiple of it |
| KneserNeyLaws.EveryRunConserves | kernel/src/cognitive/kneser_ney.rs:302-324 | the same over every run, for totals below 65536 |
| KneserNeyMix.BigramBracket | kernel/src/cognitive/kneser_ney.rs:328-352 | with T, e and f counted over slots (trigrams with w1 in the middle, those that also end in w2, bigrams that start with w1) and u the unigram: the lower order is u if T is zero, else (65536 e - 49152 [e > 0] + 49152 f u / 65536) / T, short of it by less than 3.5 and never above |
| KneserNeyMix.ProbabilityBracket | kernel/src/cognitive/kneser_ney.rs:302-324 | in a sound model the same for a context with a total below 65536: the stored count less 0.75 as a share, and 0.75 for every continuation times the lower order; with room in the table the continuations are the distinct trigrams of the context |
| KneserNeyMix.ThreeUnitsMissed | kernel/src/cognitive/kneser_ney.rs:336-344 | counts at which the four floorings lose more than three |
| KneserNeyCounts.EveryRunRefines | kernel/src/cognitive/kneser_ney.rs:239-264 | after any run both tables are the tallies of its trigrams and bigrams |
| KneserNeyCounts.RunCounts | kernel/src/cognitive/kneser_ney.rs:466-483 | while the distinct trigrams fit, each stored count is the saturated number of observations |
| KneserNeyCounts.RunBigramCounts | kernel/src/cognitive/kneser_ney.rs:563-577 | the same for bigrams |
| KneserNeyCounts.OverfullBreaksTheLaw | kernel/src/cognitive/kneser_ney.rs:308-321 | a run of 65537 observations whose mass exceeds one |
| KneserNeyModel.Model.ObserveTrigram | kernel/src/cognitive/kneser_ney.rs:239-264 | the arrays and counters become those of the run with one more observation |
| KneserNeyModel.Model.GetTrigramCount | kernel/src/cognitive/kneser_ney.rs:466-483 | what the run counted for the trigram |
| KneserNeyModel.Model.GetBigramCount | kernel/src/cognitive/kneser_ney.rs:563-577 | what the run counted for the bigram |
| KneserNeyModel.Model.UnigramProbability | kernel/src/cognitive/kneser_ney.rs:356-362 | the share of stored bigrams that end in the word |
| KneserNeyModel.Model.GetProbability | kernel/src/cognitive/kneser_ney.rs:302-352 | the interpolated probability as a function of the two tables |
| Fingerprint.CloseSharesBand | kernel/src/cognitive/lsh.rs:158-165 | fingerprints at most seven bits apart agree on one of the eight bytes |
| Fingerprint.HammingTriangle | kernel/src/cognitive/lsh.rs:128-130 | the distance satisfies the triangle inequality |
| Fingerprint.SimHash | kernel/src/cognitive/lsh.rs:57-86 | each bit is set exactly when the weighted votes for it are positive |
| Fingerprint.SimHashText | kernel/src/cognitive/lsh.rs:89-125 | the fingerprint of a text is that of its words with weight one |
| Fingerprint.SimHashIsUnique | kernel/src/cognitive/lsh.rs:57-86 | the fingerprint depends on the words and their numbers, not on their order |
| Lsh.HitsExact | kernel/src/cognitive/lsh.rs:289-343 | a query visits exactly the close entities that share a byte, or all close ones after an overflow, each once |
| Lsh.CompleteIff | kernel/src/cognitive/lsh.rs:289-343 | every entity in range is found in every index if and only if the range is at most seven |
| Lsh.AnswerSize | kernel/src/cognitive/lsh.rs:289-343 | up to seven, the number of matches is the lesser of the room and the number in range |
| LshIndex.Index.Insert | kernel/src/cognitive/lsh.rs:262-281 | one more stored entity, filed in all eight bands, its bucket overflowing past sixteen |
| LshIndex.Index.Query | kernel/src/cognitive/lsh.rs:289-343 | the output holds the first matches in band order with their true distances, the rest of it untouched |
| LshIndex.Index.Nearest | kernel/src/cognitive/lsh.rs:348-365 | the first of the nearest entities if it is in range |
| Sketch.NoFalseNegatives | kernel/src/cognitive/sketch.rs:70-95 | the filter never denies an item it was given |
| Sketch.BloomFilter.Insert | kernel/src/cognitive/sketch.rs:70-80 | the bits set become those of one more item |
| Sketch.BloomFilter.Contains | kernel/src/cognitive/sketch.rs:83-95 | yes exactly when all seven bits of the item are set by some item |
| Sketch.NeverUnder | kernel/src/cognitive/sketch.rs:199-211 | an estimate is never below the true count, short of saturation |
| Sketch.ExactWithoutCollision | kernel/src/cognitive/sketch.rs:199-211 | one row without a collision makes the estimate exact |
| Sketch.CountMinSketch.Add | kernel/src/cognitive/sketch.rs:183-191 | every cell is the saturated sum of what hashed to it |
| Sketch.DotCoversJoin | kernel/src/cognitive/sketch.rs:220-236 | without saturation no row's dot product is below the size of the join |
| Sketch.CountMinSketch.InnerProduct | kernel/src/cognitive/sketch.rs:220-236 | the least row product in 64-bit words, an upper bound on the join when nothing saturates or wraps |
| Sketch.HyperLogLog.Add | kernel/src/cognitive/sketch.rs:280-291 | each register is the highest rank of its items |
| Sketch.HyperLogLog.Merge | kernel/src/cognitive/sketch.rs:351-360 | the merge is the sketch of everything both have seen |
| Sketch.SameItemsSameRegisters | kernel/src/cognitive/sketch.rs:280-291 | registers depend only on which items were added |
| Correlation.ResolvedKeepsApart | kernel/src/cognitive/correlation.rs:151-175 | resolving a mention keeps stored fingerprints more than six bits apart |
| NearestEntity.ResolvedIsNearest | kernel/src/cognitive/correlation.rs:151-169 | with at most eight entities in range the one returned is a nearest one |
| NearestEntity.BestIsNearestIff | kernel/src/cognitive/correlation.rs:153-162 | the match chosen is a nearest entity if and only if one of the first eight in probing order is |
| NearestEntity.NearestForExactlyIff | kernel/src/cognitive/correlation.rs:151-169 | for each number up to the table's size: every index with so many in range gives a nearest entity if and only if the number is at most eight |
| NearestEntity.ReachableIff | kernel/src/cognitive/correlation.rs:151-175 | resolving mentions from nothing can build an index if and only if its fingerprints are more than six bits apart and fit the table |
| NearestEntity.NearestUpToIff | kernel/src/cognitive/correlation.rs:151-169 | over the indexes a run can build, eight is the largest bound under which the entity returned is always nearest |
| NearestEntity.NearestCanBeMissed | kernel/src/cognitive/correlation.rs:151-169 | nine mentions, resolved from nothing, after which a tenth goes to an entity that is not the nearest |
| Promotion.KeyInjective | kernel/src/cognitive/correlation.rs:250-258 | different pairs of entities have different sixteen-byte keys |
| Promotion.ThreeTimesIsReported | kernel/src/cognitive/correlation.rs:260-267 | every pair that co-occurred three times is reported by the filter |
| Promotion.ThreeTimesIsPromoted | kernel/src/cognitive/correlation.rs:260-273 | and has become a relation unless the filter wrongly claimed it first |
| Promotion.PromotedAtThree | kernel/src/cognitive/correlation.rs:260-273 | every relation was made by a co-occurrence of its pair at which the sketch's estimate was at least three, the filter did not claim it, and its weight is that estimate shifted left by sixteen in 32 bits |
| Promotion.PromotedAloneAtThree | kernel/src/cognitive/correlation.rs:260-273 | where in some row no other pair of the run shares the column, that estimate is the number of co-occurrences so far |
| Promotion.CooccurringExactly | kernel/src/cognitive/correlation.rs:234-258 | a chunk's co-occurrences are exactly the pairs of different entities it mentions |
| Promotion.EveryRunIsSafe | kernel/src/cognitive/correlation.rs:192-281 | over any run of chunks entities stay apart, no pair is promoted twice and three co-occurrences are reported |
| Promotion.EveryPromotionAtThree | kernel/src/cognitive/correlation.rs:192-281 | over any run of chunks a relation is made only where the sketch has come to three for its pair |
| Promotion.PromotedIff | kernel/src/cognitive/correlation.rs:192-281 | over any run of chunks a pair alone in some row is a relation only if it co-occurred three times, and if the filter never claimed it wrongly, exactly then |
| Pipeline.ResolveEntity | kernel/src/cognitive/correlation.rs:151-175 | the index and the answer are those of the resolution step |
| Pipeline.ProcessChunk | kernel/src/cognitive/correlation.rs:192-281 | index, sketch, filter and relations are those of the run with one more chunk |
| Bm25.ScoreIgnoresOrder | kernel/src/cognitive/bm25.rs:219-249 | a score depends on which calls were accepted, not on their order |
| Bm25.AnswerIsUnique | kernel/src/cognitive/bm25.rs:251-272 | there is one ranking by score with ties to the lower document |
| Bm25Score.LongerNeverMore | kernel/src/cognitive/bm25.rs:313-327 | with all else fixed a longer document never scores more, for all 64-bit arguments |
| Bm25Score.MoreOftenNeverLess | kernel/src/cognitive/bm25.rs:313-327 | more occurrences never score less, for all whole counts |
| Bm25Score.HigherIdfNeverLess | kernel/src/cognitive/bm25.rs:313-327 | a higher inverse document frequency never scores less |
| Bm25Score.AtMostFactor | kernel/src/cognitive/bm25.rs:313-327 | no score exceeds 2.2 (in Q16, 144179) times the inverse document frequency |
| Bm25Score.ScoreIsFormula | kernel/src/cognitive/bm25.rs:313-327 | a score is 2.2 idf f / (f + 1.2 (0.25 + 0.75 length / average)), short of it by less than 1 + idf / 65536 unless it is the largest word, and above it by no more than a denominator lower by 3.1 / 65536 gives while nothing is capped |
| Bm25Score.AtAverage | kernel/src/cognitive/bm25.rs:313-327 | at the average length that is 2.2 idf f / (f + 1.2), never exceeded |
| Bm25Score.FractionsCanFall | kernel/src/cognitive/bm25.rs:313-327 | two frequencies with fractions of which the larger scores less |
| Bm25Score.RarerNeverLess | kernel/src/cognitive/bm25.rs:305-311 | for every monotone logarithm a term in fewer documents has at least as large an inverse document frequency |
| Bm25Score.LongerScoresNoMore | kernel/src/cognitive/bm25.rs:219-249 | of two documents that contain every query term equally often, the longer scores no more |
| Bm25Score.ShorterListedFirst | kernel/src/cognitive/bm25.rs:210-273 | what a query writes lists such a shorter document before the longer, unless they tie and the longer was added first |
| Bm25.EverythingAccepted | kernel/src/cognitive/bm25.rs:129-183 | within capacity every document and every call of a history is accepted, however they are interleaved |
| Bm25.OrderDoesNotMatter | kernel/src/cognitive/bm25.rs:146-249 | two histories with the same documents and, in any order within capacity, the same calls give every document the same score for every query |
| Bm25Index.Index.AddDocument | kernel/src/cognitive/bm25.rs:129-140 | a new document takes the next id, or none when full |
| Bm25Index.Index.IndexTermWithHash | kernel/src/cognitive/bm25.rs:146-183 | the linked lists, lengths and terms become those of one more call; the result says whether it was accepted |
| Bm25Index.FindInList | kernel/src/cognitive/bm25.rs:158-167 | a walk along a term's list finds the document's posting if and only if there is one |
| Bm25Query.FrequencyIsListLength | kernel/src/cognitive/bm25.rs:169-182 | a term's list is as long as there are documents that contain it |
| Bm25Query.Query | kernel/src/cognitive/bm25.rs:210-273 | the output is the ranking of the scores, each document once, as far as there is room |
| Bm25Query.SameCallsSameHits | kernel/src/cognitive/bm25.rs:146-273 | two indexes with such histories write the same hits for every query |
| Bm25Query.IndexText | kernel/src/cognitive/bm25.rs:192-208 | every word of the text is indexed in order and the accepted ones are counted |
| MinCover.DegreesCount | kernel/src/cognitive/walsh_math.rs:436-450 | each degree is the number of picks that contain the entity, counted at its first mass only |
| MinCover.CoverWithinTotal | kernel/src/cognitive/walsh_math.rs:362-369 | no selection covers more than the total mass |
| MinCover.OverlapIsExcess | kernel/src/cognitive/walsh_math.rs:350-390 | before any cap, overlap and covered mass add up to the masses of the entities of all picks |
| MinCover.CoverGrows | kernel/src/cognitive/walsh_math.rs:362-369 | one more candidate never uncovers anything |
| MinCover.CostFalls | kernel/src/cognitive/walsh_math.rs:427-481 | every pick takes more than the tolerance off the cost |
| MinCoverSelect.Select | kernel/src/cognitive/walsh_math.rs:427-481 | each pick improves by more than the tolerance, nothing unused beats it by more, nothing earlier is as cheap, and an early stop means nothing would improve |
| MinCoverSelect.CausalMinCover | kernel/src/cognitive/walsh_math.rs:391-490 | the report is that of such picks, with cost and trajectory recomputed from the selection |
| MinCoverSelect.IntegerSqrt | kernel/src/cognitive/walsh_math.rs:29-41 | Newton's iteration ends at the floored square root |
| MinCoverSelect.SqrtQ16 | kernel/src/cognitive/walsh_math.rs:44-46 | the floored root of a Q16 number in Q16, never capped |
| BenjaminiHochberg.SortPairs | kernel/src/graph/causal.rs:279-288 | the in-place insertion sort sorts and permutes |
| BenjaminiHochberg.Correct | kernel/src/graph/causal.rs:269-307 | the mask is exactly the hypotheses within the threshold of the largest rank k that k values pass |
| BenjaminiHochberg.RejectedWithin | kernel/src/graph/causal.rs:290-307 | nothing above q is rejected |
| BenjaminiHochberg.AllRejectedIff | kernel/src/graph/causal.rs:290-307 | all are rejected if and only if none is above q |
| BenjaminiHochberg.VerdictsFollowValues | kernel/src/graph/causal.rs:269-307 | reordering the hypotheses reorders the verdicts, and ties share one |
| BenjaminiHochberg.RejectedCount | kernel/src/graph/causal.rs:290-299 | exactly as many are rejected as that rank |
| VarHistory.Accumulator.Get | kernel/src/graph/causal.rs:224-234 | the observation so many before the latest, while the ring still has it |
| VarHistory.Accumulator.Mean | kernel/src/graph/causal.rs:237-249 | the floored mean of the latest observations |
| ElfLoader.Merge | boot/uefi-loader/src/main.rs:535-546 | the merged ranges are page-aligned, in order with gaps, and cover exactly what the inputs cover |
| ElfLoader.SeparatedIsUnique | boot/uefi-loader/src/main.rs:533-546 | separated ranges are determined by what they cover, whatever the unstable sort does |
| ElfLoader.LoadElfSegments | boot/uefi-loader/src/main.rs:477-615 | every byte of memory is the last file byte written there, a zero in a merged range, or what it was |
| ElfLoader.LoadMeaning | boot/uefi-loader/src/main.rs:499-614 | disjoint segments show their file bytes and then zeros, and nothing outside the ranges changes |
| ElfLoader.OutsideSurvivesIff | boot/uefi-loader/src/main.rs:582-612 | memory outside the merged ranges holds what it held, whatever that was, if and only if every file part lies within one range |
| ElfLoader.SegmentShowsIff | boot/uefi-loader/src/main.rs:585-612 | for one file: a segment shows all its file bytes if and only if whatever is copied over one last is the same byte |
| ElfLoader.SegmentIntactIff | boot/uefi-loader/src/main.rs:585-612 | for every file: a segment shows all its file bytes if and only if whatever is copied over one last comes from the same place in the file |
| ElfLoader.LongFileSpills | boot/uefi-loader/src/main.rs:582-612 | a segment that writes past its zeroed page |
| PackageStore.BuildPackageStore | kernel/build.rs:371-437 | an image exactly when paths are distinct and under 64 bytes; header, records and blobs in their places |
| PackageStore.InspectPackageStore | boot/uefi-loader/src/main.rs:312-358 | the checks in order, each fault by name |
| PackageStore.ChecksumIgnoresItsField | kernel/build.rs:427-429 | storing the checksum does not change the checksum |
| PackageStore.WriterSatisfiesLoader | boot/uefi-loader/src/main.rs:312-376 | the loader accepts every image the writer makes, with the same entry count |
| PackageStore.RecordsPointToBlobs | kernel/build.rs:397-424 | each record read back names a 16-aligned, in-bounds extent that holds its blob, disjoint from the others |
| LittleEndian.DecodeEncode | kernel/build.rs:412-416 | a number that fits its bytes is read back |
| Cbor.SkipLands | kernel/src/fido2/mod.rs:168-201 | skipping any encoded tree within the encoders' ranges lands exactly on its end |
| Cbor.StringSkipIff | kernel/src/fido2/mod.rs:99-132 | a string is skipped correctly if and only if its length fits sixteen bits |
| Cbor.ArraySkipIff | kernel/src/fido2/mod.rs:143-152 | an array of such items is skipped correctly if and only if it has fewer than 256 |
| Cbor.MapSkipIff | kernel/src/fido2/mod.rs:133-142 | a map of such pairs is skipped correctly if and only if it has fewer than 256 |
| Cbor.UIntReadsBackIff | kernel/src/fido2/mod.rs:74-88 | an unsigned number is read back if and only if it fits sixteen bits |
| Cbor.NIntReadsBackIff | kernel/src/fido2/mod.rs:89-98 | a negative number is read back if and only if it fits eight bits |
| Cbor.StrBytesIff | kernel/src/fido2/mod.rs:261-274 | a string is read back whole if and only if its length fits sixteen bits |
| Cbor.MapIntFindsFirst | kernel/src/fido2/mod.rs:203-232 | on an encoded map with integer keys the lookup returns exactly the first match |
| Cbor.MapTextFindsFirst | kernel/src/fido2/mod.rs:234-259 | on any encoded map the text lookup returns exactly the first match, passing over other keys |
| Cbor.TruncatedValuePanics | kernel/src/fido2/mod.rs:225-229 | a truncated value makes the lookup slice past the end |
| CborLookup.MapIntAnswers | kernel/src/fido2/mod.rs:203-232 | on any input, malformed or not, the answer is the value of the first pair reached with the key, sliced as far as it claims to go |
| CborLookup.MapIntAbsentIff | kernel/src/fido2/mod.rs:203-232 | the lookup gives nothing if and only if no pair with the key is reached |
| CborLookup.MapIntPanicsIff | kernel/src/fido2/mod.rs:225-229 | it slices past the end if and only if the first pair reached with the key has a value that ends there |
| CborLookup.MapTextAnswers | kernel/src/fido2/mod.rs:234-259 | the same for text keys, passing over keys of other kinds |
| CborLookup.MapTextAbsentIff | kernel/src/fido2/mod.rs:234-259 | a text lookup gives nothing if and only if no pair with the key is reached |
| CborLookup.MapTextPanicsIff | kernel/src/fido2/mod.rs:252-256 | a text lookup slices past the end if and only if the first pair reached with the key has a value that ends there |
| CborLookup.WholeMapsAreSafe | kernel/src/fido2/mod.rs:168-259 | if the whole item can be skipped within the data, no lookup slices past the end, whatever the key |
| CborBuffer.WriteString | kernel/src/fido2/mod.rs:99-132 | a byte or text string is encoded at the position and nothing else is touched |
| CborBuffer.SkipItem | kernel/src/fido2/mod.rs:168-201 | the recursive walk is the skip function on every input |
| CborBuffer.MapIntLookup | kernel/src/fido2/mod.rs:203-232 | the loop is the lookup function on every input, malformed or not |
| CborBuffer.MapTextLookup | kernel/src/fido2/mod.rs:234-259 | the loop is the text lookup function on every input |
| CborBuffer.BuildCoseKey | kernel/src/fido2/mod.rs:293-304 | the 42 bytes are the encoded key map |
| CborBuffer.CoseKeyReadsBack | kernel/src/fido2/mod.rs:293-304 | the point is read back from the key under label -2 |
| Redact.MatchBounds | kernel/src/cognitive/redact.rs:125-323 | every pattern that fires takes at least ten bytes and stays in the input |
| Redact.RedactedLength | kernel/src/cognitive/redact.rs:39-118 | output length plus what the secrets have beyond ten bytes each is the input length |
| Redact.NoHexKeySurvives | kernel/src/cognitive/redact.rs:39-118 | whatever the input and the room, no thirty-two hex digits in a row come out |
| RedactSecrets.MatchIff | kernel/src/cognitive/redact.rs:120-323 | a pattern fires at a position if and only if a secret of one of the nine kinds, each described by its characters, starts there |
| RedactSecrets.NoSecretCopied | kernel/src/cognitive/redact.rs:39-118 | a byte that the pass gets to is copied if and only if no such secret starts at it |
| Redact.JwtIff | kernel/src/cognitive/redact.rs:267-298 | a token is matched, to the end of its characters, if and only if it starts with "eyJ" and has at least twenty of them with two dots among them |
| Redact.FullStopHides | kernel/src/cognitive/redact.rs:267-298 | a token that is matched by itself is not matched with a full stop after it |
| RedactTwice.UnchangedIff | kernel/src/cognitive/redact.rs:39-118 | redacting changes nothing if and only if no pattern fires anywhere |
| RedactTwice.RedactTwiceIff | kernel/src/cognitive/redact.rs:39-118 | redacting twice is redacting once if and only if at no copied position a key or token would fire, did the text end at the next secret found |
| RedactTwice.SecondPassFindsMore | kernel/src/cognitive/redact.rs:139-143 | a text in which only the second pass finds the key, once the password it ran into is gone |
| RedactScan.MatchNamed | kernel/src/cognitive/redact.rs:208-264 | the first name, in any case, with a long enough value |
| RedactScan.RedactInto | kernel/src/cognitive/redact.rs:39-118 | the output is as much of the redacted input as there is room for; with room for the input all of it is consumed |
| Editor.LinesTile | apps/editor/src/main.rs:109-121 | the lines cover the text between newlines |
| Editor.RowAndColumn | apps/editor/src/main.rs:306-324 | the row's start plus the column is the cursor, which is on that line |
| Editor.VerticalMove | apps/editor/src/main.rs:336-352 | up and down land on the neighbouring line in the same column or at its end and change nothing else |
| Editor.UpThenDown | apps/editor/src/main.rs:336-352 | up then down comes back if and only if the line above is long enough |
| Editor.DoneIsReplayable | apps/editor/src/main.rs:354-375 | every edit and motion keeps the undo stack applicable to the text |
| Editor.UndoRestores | apps/editor/src/main.rs:131-146 | after any mix of typing, deleting and moving, n undos give the text as it was n edits earlier, up to 64 |
| EditorBuffer.GapBuffer.MoveGapTo | apps/editor/src/main.rs:63-79 | only the gap moves, the text stays |
| EditorBuffer.GapBuffer.Insert | apps/editor/src/main.rs:81-91 | one byte is inserted into the text, the gap growing if it is used up |
| EditorBuffer.GapBuffer.DeleteAt | apps/editor/src/main.rs:93-99 | one byte is deleted, or nothing past the end |
| EditorBuffer.GapBuffer.Lines | apps/editor/src/main.rs:109-121 | the lines of the text |
| EditorBuffer.Session.InsertChar | apps/editor/src/main.rs:354-362 | text, cursor and undo stack are those of the typed document |
| EditorBuffer.Session.DeleteBack | apps/editor/src/main.rs:364-375 | text, cursor and undo stack are those of the document with one byte less |
| EditorBuffer.Session.UndoLatest | apps/editor/src/main.rs:377-391 | the latest edit is taken back and the cursor is where it happened |
| EditorBuffer.Session.CursorLineCol | apps/editor/src/main.rs:306-314 | row and column of the cursor, whose line start and column add up to it |

## Left out

- AesXtsInPlace.EncryptSector: the source passes a pointer into the sector to the block cipher; the model copies the sixteen bytes out and back, so it says nothing about that pointer cast.
- AesKeySchedule.Expand: the schedule is a flat sequence, and the source's table of constants and in-place words are not separate arrays in the model.
- KneserNeyModel.Model.ObserveTrigram: trigram, bigram and token counters are unbounded, and the dictionary of token spellings, text splitting, sequence scores and prediction are not modelled.
- LshIndex.Index.Insert: bucket entries and counters are natural numbers; their sixteen- and eight-bit widths are never reached.
- Fingerprint.SimHash: the 64-bit vote counters are unbounded, so a wrap after more than 2^32 features is not modelled.
- Sketch.HyperLogLog.Merge: merging a sketch into itself is excluded, as the source's borrowing rules do; cardinality and false-positive estimates are approximations and not modelled.
- Pipeline.ProcessChunk: mentions arrive as fingerprints with the graph's answer for a new node; extracting them from text, and the mention edges of the graph, are not modelled.
- Bm25Query.Query: the fixed-point logarithm is a parameter, any function of 64-bit words; what is said of rarer terms is for monotone ones.
- MinCoverSelect.CausalMinCover: the fixed-point logarithm is a parameter, and the candidate arrays are sequences.
- ElfLoader.LoadElfSegments: memory is one array, page allocation always succeeds, headers are parsed already, and a segment is taken to lie within the file and memory.
- ElfLoader.SortByStart: the library's unstable sort is an insertion sort; the merged result does not depend on that.
- PackageStore.BuildPackageStore: inputs are given as bytes; reading files and writing the image are not modelled.
- CborBuffer.WriteHead: a write past the end of the buffer, a panic in the source, is a precondition.
- EditorBuffer.GapBuffer.Insert: the growing vector is a sequence; an insertion past the end, a panic in the source, is a precondition.
- EditorBuffer.Session.UndoLatest: undo after a line deletion or a file load is not modelled, as neither records an operation; nor are modes, commands and drawing.
- RedactScan.MatchAny: the two prefixed-key matchers share one loop, and the two key-and-value matchers another.
- Bigram- and trigram-level probabilities adding up to one: the bigram back-off weight counts contexts from another table, so only the discount and unigram laws are stated.
- Curve25519, Ed25519 and SHA-256.
- Cosine estimates, subspace drift, Hoeffding and Davis-Kahan radii, and the claim filter of the Walsh module: approximations without an exact statement in the code.
- Locks, atomics and interrupt masking: each object is modelled sequentially.
- Drivers, boot services, windows, drawing, games, installer and network services.
