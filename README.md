# LSH bucket index and normal-ranking evaluator helpers, in Dafny

This project models two parts of a Mahout-based recommender toolkit and proves properties of them.

**The locality-sensitive-hashing index `SimplexSpace<T>`** (module `Neighborhood`, with the bit-mask algebra in `Lod`):
- `addVector` copies a sparse vector into a dense buffer and hashes the buffer to one 32-bit code per dimension.
- It clears the codes' low bits selected by the level of detail (LOD), giving a bucket key. Then it records the id and the vector in that bucket.
- Three maps are kept in step: id → key, key → ids, key → vectors.
- `setLOD` builds the low-bit mask with a shift loop under Java's 32-bit shift semantics.
- `findNeighbors` lists the other ids of a bucket.
- `getDistance` compares two buckets' coordinates under a distance measure. The coordinates are either unhashed or the raw codes.

**The helpers of `NormalRankingRecommenderEvaulator`** (module `NormalRanking`, with `IntSort` standing for `Arrays.sort(int[])`):
- the fill loop of `getPrefsArray`;
- `sloppyHamming`, which counts recommended items lying outside a ±1 window of the data model's order;
- `getVectorZ`, which computes position displacements with a shrinking `bottom`/`top` window and nulls used entries;
- `wilcoxonRanks`, which assigns tie-averaged signed ranks shifted down by the number of zero displacements;
- the means `getMeanWplus` and `getMeanWminus`.

Modelling choices:
- Each Java method that loops over arrays is a Dafny `method` over arrays with loop invariants. Its contract ties the result, or the new array contents, to a specification function. The lemmas prove the source's promises about those functions.
- A Java `null` is `Option.None`. A Java exception is a `Result`/`Outcome` error value.
- A Java `double` is a `real`. `int` codes and masks are `bv32`.
- The hasher and the distance measure are opaque function values.

The model follows the code where the design description and the code disagree:
- Re-adding an id moves its id → key entry but leaves it in its old bucket. So the number of ids over all buckets is not in general the number of distinct ids, and `Indexed` only promises that each id is in its current bucket.
- Unknown ids make `getDistance` return the sentinel `-1`, not an error value.
- A vector is not checked against the dimensionality. Only a non-zero element past the buffer throws.
- LOD levels of 32 and above do not fail. Java takes shift distances modulo 32, so they select all 32 bits.
- The generic `findNeighbors(T)` returns an empty map for a known id. It never adds the co-resident ids.
- The cross-space `getDistance` does not compare the two spaces' dimensionalities.

## Model

| member | source | states |
|---|---|---|
| Lod.LowBitsStep | mahout/src/mahout/org/apache/mahout/cf/taste/neighborhood/SimplexSpace.java:191-193 | one turn of the loop, `mask \|= 1 << x`, turns the mask of level x into the mask of level x + 1, including Java's shift modulo 32 |
| Lod.LevelMask | mahout/src/mahout/org/apache/mahout/cf/taste/neighborhood/SimplexSpace.java:189-194 | the mask-building loop, started from the empty mask, ends with exactly the level-k mask |
| Lod.LowBitsExactly | mahout/src/mahout/org/apache/mahout/cf/taste/neighborhood/SimplexSpace.java:187-196 | the level-k mask has bit b set exactly when b < k: empty for k ≤ 0, all 32 bits for k ≥ 32 |
| Lod.LowBitsClosedForm | mahout/src/mahout/org/apache/mahout/cf/taste/neighborhood/SimplexSpace.java:187-196 | for 0 ≤ k < 32 the level-k mask is 2^k − 1 |
| Lod.LowBitsGrow | mahout/src/mahout/org/apache/mahout/cf/taste/neighborhood/SimplexSpace.java:187-196 | a lower level's mask is contained in every higher level's mask |
| Lod.MaskClearsOnlyMaskBits | mahout/src/mahout/org/apache/mahout/cf/taste/neighborhood/SimplexSpace.java:89 | `c & ~mask` has every mask bit clear and every other bit of c |
| Lod.MaskIdempotent | mahout/src/mahout/org/apache/mahout/cf/taste/neighborhood/SimplexSpace.java:89 | masking one code twice with the same mask is masking it once |
| Lod.MaskCoarsens | mahout/src/mahout/org/apache/mahout/cf/taste/neighborhood/SimplexSpace.java:85-92 | two codes equal after masking at level k stay equal at every level k′ ≥ k |
| Lod.MaskCodesMeaning | mahout/src/mahout/org/apache/mahout/cf/taste/neighborhood/SimplexSpace.java:85-92 | each masked code of a hash has the mask bits clear and the original's other bits, with the length kept |
| Lod.MaskCodesIdempotent | mahout/src/mahout/org/apache/mahout/cf/taste/neighborhood/SimplexSpace.java:85-92 | masking a whole hash twice is masking it once |
| Lod.MaskCodesCoarsen | mahout/src/mahout/org/apache/mahout/cf/taste/neighborhood/SimplexSpace.java:85-92 | hashes in one bucket at level k are in one bucket at every level k′ ≥ k |
| Neighborhood.IndexedInsert | mahout/src/mahout/org/apache/mahout/cf/taste/neighborhood/SimplexSpace.java:68-79 | the three map updates of `addVector` keep the maps in step: the same key sets, every id in its current bucket, its vector among that bucket's vectors |
| Neighborhood.SimplexSpace.constructor | mahout/src/mahout/org/apache/mahout/cf/taste/neighborhood/SimplexSpace.java:51-55 | a new space has empty maps, level 0, the empty mask, unhash mode and no default measure |
| Neighborhood.SimplexSpace.WithMeasure | mahout/src/mahout/org/apache/mahout/cf/taste/neighborhood/SimplexSpace.java:57-61 | as the constructor, with the given default measure |
| Neighborhood.SimplexSpace.AddVector | mahout/src/mahout/org/apache/mahout/cf/taste/neighborhood/SimplexSpace.java:64-80 | throws, changing nothing, exactly when v has a non-zero element past the dimensions. Otherwise it maps the id to the vector's masked key, adds the id and the vector to that bucket and leaves every other id and bucket alone. The bucket count grows by one exactly when the key is new. The invariant is kept |
| Neighborhood.SimplexSpace.GetHashLOD | mahout/src/mahout/org/apache/mahout/cf/taste/neighborhood/SimplexSpace.java:85-92 | the key has one code per dimension, each the hasher's code with the current mask bits cleared and all other bits kept |
| Neighborhood.SimplexSpace.GetValues | mahout/src/mahout/org/apache/mahout/cf/taste/neighborhood/SimplexSpace.java:94-100 | succeeds exactly when every non-zero element fits the buffer; then each non-zero element is copied to its index and all other entries are left as they were |
| Neighborhood.SimplexSpace.FindNeighbors | mahout/src/mahout/org/apache/mahout/cf/taste/neighborhood/SimplexSpace.java:106-119 | null exactly for an id never added; otherwise exactly the ids of its current bucket other than itself, so never the id |
| Neighborhood.SimplexSpace.FindNeighborsMap | mahout/src/mahout/org/apache/mahout/cf/taste/neighborhood/SimplexSpace.java:121-132 | null for an unknown id, otherwise an empty map; the maps and all other state are unchanged |
| Neighborhood.SimplexSpace.HashDistance | mahout/src/mahout/org/apache/mahout/cf/taste/neighborhood/SimplexSpace.java:161-177 | the measure applied to both keys' unhashed coordinates, or in raw mode to their codes as signed numbers; throws when a raw second key is shorter, or when the measure is null |
| Neighborhood.SimplexSpace.GetDistance | mahout/src/mahout/org/apache/mahout/cf/taste/neighborhood/SimplexSpace.java:134-144 | −1 when either id is unknown; otherwise the bucket distance under the given measure, or the space's own when none is given |
| Neighborhood.SimplexSpace.GetDistanceAcross | mahout/src/mahout/org/apache/mahout/cf/taste/neighborhood/SimplexSpace.java:146-159 | as `GetDistance`, with the second id resolved in the other space's id → key map |
| Neighborhood.SimplexSpace.SetLOD | mahout/src/mahout/org/apache/mahout/cf/taste/neighborhood/SimplexSpace.java:187-196 | stores the level and leaves exactly the level's low bits in the mask; only the level and the mask change, so the maps keep their invariant |
| Neighborhood.SimplexSpace.GetNumHashes | mahout/src/mahout/org/apache/mahout/cf/taste/neighborhood/SimplexSpace.java:292-294 | the number of id buckets equals the number of vector buckets, and is positive once any id was added |
| IntSort.SortSorted | extras/mahout/src/org/apache/mahout/cf/taste/impl/eval/NormalRankingRecommenderEvaulator.java:249-250 | the sorted clone is ascending |
| IntSort.SortPermutes | extras/mahout/src/org/apache/mahout/cf/taste/impl/eval/NormalRankingRecommenderEvaulator.java:249-250 | the sorted clone is a permutation of the magnitudes |
| IntSort.InsertSorted | extras/mahout/src/org/apache/mahout/cf/taste/impl/eval/NormalRankingRecommenderEvaulator.java:249-250 | inserting into an ascending sequence keeps it ascending |
| IntSort.InsertPermutes | extras/mahout/src/org/apache/mahout/cf/taste/impl/eval/NormalRankingRecommenderEvaulator.java:249-250 | insertion adds exactly the inserted value to the multiset of elements |
| IntSort.SortCounts | extras/mahout/src/org/apache/mahout/cf/taste/impl/eval/NormalRankingRecommenderEvaulator.java:249-250 | sorting keeps the number of entries below, and at or below, any value |
| IntSort.SortedCountLess | extras/mahout/src/org/apache/mahout/cf/taste/impl/eval/NormalRankingRecommenderEvaulator.java:260-266 | in sorted order the entries below x are exactly the first CountLess(x) positions |
| IntSort.SortedCountLeq | extras/mahout/src/org/apache/mahout/cf/taste/impl/eval/NormalRankingRecommenderEvaulator.java:252-254 | in sorted order the entries at or below x are exactly the first CountLeq(x) positions |
| IntSort.CountLessLeq | extras/mahout/src/org/apache/mahout/cf/taste/impl/eval/NormalRankingRecommenderEvaulator.java:260-263 | an entry present adds at least one tied position: CountLess < CountLeq |
| IntSort.CountLeqBelow | extras/mahout/src/org/apache/mahout/cf/taste/impl/eval/NormalRankingRecommenderEvaulator.java:269 | for y < x, the entries at or below y are no more than the entries below x, so `zeros` never exceeds the number of magnitudes below a positive one |
| NormalRanking.SloppyHamming | extras/mahout/src/org/apache/mahout/cf/taste/impl/eval/NormalRankingRecommenderEvaulator.java:166-184 | the loop's count is the specification count (stopping at the first throwing read) and lies between 0 and max(0, n − 2) |
| NormalRanking.HammingBound | extras/mahout/src/org/apache/mahout/cf/taste/impl/eval/NormalRankingRecommenderEvaulator.java:169 | at most one is counted per remaining interior index |
| NormalRanking.HammingCountsMisplaced | extras/mahout/src/org/apache/mahout/cf/taste/impl/eval/NormalRankingRecommenderEvaulator.java:169-175 | without null entries the count is the number of interior indices whose recommended item is in none of the data model's neighbouring slots |
| NormalRanking.HammingSameOrder | extras/mahout/src/org/apache/mahout/cf/taste/impl/eval/NormalRankingRecommenderEvaulator.java:169-175 | a recommendation in the data model's own order counts 0 |
| NormalRanking.FirstMatch | extras/mahout/src/org/apache/mahout/cf/taste/impl/eval/NormalRankingRecommenderEvaulator.java:223-227 | a match found by the inner loop lies in the window and holds the item |
| NormalRanking.FirstMatchIsFirst | extras/mahout/src/org/apache/mahout/cf/taste/impl/eval/NormalRankingRecommenderEvaulator.java:223-238 | the match is the first holding index of the window, and no match means no index of the window holds the item |
| NormalRanking.FindInWindow | extras/mahout/src/org/apache/mahout/cf/taste/impl/eval/NormalRankingRecommenderEvaulator.java:223-239 | the inner loop, skipping nulls and breaking at a match, returns the first index of the window holding the item, or none when no index does |
| NormalRanking.TakeIndex | extras/mahout/src/org/apache/mahout/cf/taste/impl/eval/NormalRankingRecommenderEvaulator.java:230-236 | after a match at j, `bottom` moves up when j is the bottom, else `top` moves down when j is the top, else prefsR[j] becomes null; nothing else changes |
| NormalRanking.Run | extras/mahout/src/org/apache/mahout/cf/taste/impl/eval/NormalRankingRecommenderEvaulator.java:221-240 | after n outer iterations one match outcome is recorded per item, and the recommendation keeps its length |
| NormalRanking.WindowBounds | extras/mahout/src/org/apache/mahout/cf/taste/impl/eval/NormalRankingRecommenderEvaulator.java:219-233 | `bottom` and `top` stay inside the array, with bottom ≤ top + 1 |
| NormalRanking.GetVectorZ | extras/mahout/src/org/apache/mahout/cf/taste/impl/eval/NormalRankingRecommenderEvaulator.java:217-241 | for each data-model index matched to j, vectorZ = i − j and vectorZabs = \|i − j\|; unmatched indices keep their values; prefsR ends as the run leaves it; prefsDM is not in the method's frame, so it is not modified |
| NormalRanking.RunConsistent | extras/mahout/src/org/apache/mahout/cf/taste/impl/eval/NormalRankingRecommenderEvaulator.java:221-238 | through the run, every entry is its original or null; an index is matched exactly when it was non-null and has left the open window; each match holds its item; no index is matched twice |
| NormalRanking.MatchSameItem | extras/mahout/src/org/apache/mahout/cf/taste/impl/eval/NormalRankingRecommenderEvaulator.java:227-229 | whenever vectorZ[i] = i − j is set, prefsR[j] held the same item as prefsDM[i] |
| NormalRanking.NullsOnlyMatched | extras/mahout/src/org/apache/mahout/cf/taste/impl/eval/NormalRankingRecommenderEvaulator.java:230-236 | the run changes prefsR only by nulling entries it matched |
| NormalRanking.AdvanceNullsInside | extras/mahout/src/org/apache/mahout/cf/taste/impl/eval/NormalRankingRecommenderEvaulator.java:230-236 | an outer iteration nulls an entry only at an index strictly between `bottom` and `top`; a match at either end moves the bound instead |
| NormalRanking.NullsInterior | extras/mahout/src/org/apache/mahout/cf/taste/impl/eval/NormalRankingRecommenderEvaulator.java:219-236 | over the whole run, the entries of prefsR that change are all interior: index 0 and index n − 1 are never nulled |
| NormalRanking.MatchesInjective | extras/mahout/src/org/apache/mahout/cf/taste/impl/eval/NormalRankingRecommenderEvaulator.java:230-236 | no index of prefsR is matched twice |
| NormalRanking.SameOrderMatchesInPlace | extras/mahout/src/org/apache/mahout/cf/taste/impl/eval/NormalRankingRecommenderEvaulator.java:221-238 | a recommendation in the data model's order matches every item in place, so every displacement is 0 |
| NormalRanking.AllMatched | extras/mahout/src/org/apache/mahout/cf/taste/impl/eval/NormalRankingRecommenderEvaulator.java:221-238 | with distinct items all offered by the recommendation, every item is matched |
| NormalRanking.MagnitudesKept | extras/mahout/src/org/apache/mahout/cf/taste/impl/eval/NormalRankingRecommenderEvaulator.java:228-229 | from the caller's all-zero arrays, vectorZabs[i] = \|vectorZ[i]\| at every index afterwards |
| NormalRanking.CountZeros | extras/mahout/src/org/apache/mahout/cf/taste/impl/eval/NormalRankingRecommenderEvaulator.java:251-255 | `zeros` is the number of sorted magnitudes at or below 0 |
| NormalRanking.ZerosAreZeroDisplacements | extras/mahout/src/org/apache/mahout/cf/taste/impl/eval/NormalRankingRecommenderEvaulator.java:251-255 | when vectorZabs holds the magnitudes of vectorZ, `zeros` is the number of zero displacements |
| NormalRanking.TiedRank | extras/mahout/src/org/apache/mahout/cf/taste/impl/eval/NormalRankingRecommenderEvaulator.java:257-267 | the inner loop's `rank` and `count`, including its early `break`, are the sum of shifted positions and the number of sorted entries equal to the score |
| NormalRanking.RankSumOverTies | extras/mahout/src/org/apache/mahout/cf/taste/impl/eval/NormalRankingRecommenderEvaulator.java:260-263 | over sorted entries the sums cover exactly the run of tied positions CountLess + 1 ..; the count is the run's length |
| NormalRanking.RankQuotient | extras/mahout/src/org/apache/mahout/cf/taste/impl/eval/NormalRankingRecommenderEvaulator.java:269 | for a present score the count is positive and rank / count is the mean 1-based sorted position of the score, less zeros |
| NormalRanking.RankOfScore | extras/mahout/src/org/apache/mahout/cf/taste/impl/eval/NormalRankingRecommenderEvaulator.java:249-269 | over the sorted clone, the loop's quotient for index i is the average rank of vectorZabs[i] among all magnitudes |
| NormalRanking.RankAtLeastOne | extras/mahout/src/org/apache/mahout/cf/taste/impl/eval/NormalRankingRecommenderEvaulator.java:269 | a positive magnitude's average rank less zeros is at least 1 (the in-code comment's claim) |
| NormalRanking.WilcoxonRanks | extras/mahout/src/org/apache/mahout/cf/taste/impl/eval/NormalRankingRecommenderEvaulator.java:247-273 | where vectorZ[i] ≠ 0, ranks[i] is the tie-averaged rank of vectorZabs[i] less zeros, with vectorZ[i]'s sign, and ranksAbs[i] its magnitude; elsewhere both arrays keep their values |
| NormalRanking.SignedRank | extras/mahout/src/org/apache/mahout/cf/taste/impl/eval/NormalRankingRecommenderEvaulator.java:268-271 | with magnitudes in vectorZabs, the written rank has vectorZ[i]'s sign (both directions), magnitude equal to the average rank, and magnitude ≥ 1 |
| NormalRanking.RanksSigned | extras/mahout/src/org/apache/mahout/cf/taste/impl/eval/NormalRankingRecommenderEvaulator.java:268-271 | after the method: at every written index the sign matches vectorZ's, ranksAbs = \|ranks\| and \|ranks\| ≥ 1 |
| NormalRanking.TiedRanksShared | extras/mahout/src/org/apache/mahout/cf/taste/impl/eval/NormalRankingRecommenderEvaulator.java:256-271 | after the method: written indices with tied magnitudes share one unsigned rank, the mean of their sorted positions less zeros |
| NormalRanking.PositiveSum | extras/mahout/src/org/apache/mahout/cf/taste/impl/eval/NormalRankingRecommenderEvaulator.java:290-294 | the sum of the positive ranks is never negative |
| NormalRanking.NegativeSum | extras/mahout/src/org/apache/mahout/cf/taste/impl/eval/NormalRankingRecommenderEvaulator.java:301-305 | the sum of the negative ranks' magnitudes is never negative |
| NormalRanking.SignedSumsSplit | extras/mahout/src/org/apache/mahout/cf/taste/impl/eval/NormalRankingRecommenderEvaulator.java:288-308 | W+ sum − W− sum is the plain rank sum, and W+ sum + W− sum is the sum of magnitudes |
| NormalRanking.MeanOf | extras/mahout/src/org/apache/mahout/cf/taste/impl/eval/NormalRankingRecommenderEvaulator.java:295 | `sum / nitems` (in both means) is NaN exactly for no ranks; otherwise its product with nitems is the sum, and it is non-negative for a non-negative sum |
| NormalRanking.GetMeanWplus | extras/mahout/src/org/apache/mahout/cf/taste/impl/eval/NormalRankingRecommenderEvaulator.java:288-297 | the loop computes the positive-rank sum over the count; the result is a non-negative number for non-empty ranks |
| NormalRanking.GetMeanWminus | extras/mahout/src/org/apache/mahout/cf/taste/impl/eval/NormalRankingRecommenderEvaulator.java:299-308 | the loop computes the negative-rank magnitude sum over the count; the result is a non-negative number for non-empty ranks |
| NormalRanking.FillComplete | extras/mahout/src/org/apache/mahout/cf/taste/impl/eval/NormalRankingRecommenderEvaulator.java:129-135 | a list at least as long as the array fills every slot, with the list's items in order |
| NormalRanking.FillPrefs | extras/mahout/src/org/apache/mahout/cf/taste/impl/eval/NormalRankingRecommenderEvaulator.java:125-135 | over a fresh array, the loop leaves `Fill`'s contents. It returns normally exactly when the list is at least as long as the array; otherwise `recs.get` throws once the list runs out |

## Left out

- `stDevCounts`, `stDevCenters` and `toString` of `SimplexSpace`, and its `centerMap` and `distance` fields. They are floating-point running statistics from classes outside this model, console printing and debug strings.
- `Hasher.hash`/`unhash` and `DistanceMeasure.distance`: foreign code, modelled as opaque total functions. The constructors require `hash` to yield one code per dimension.
- `Hash<T>` internals: its level and payload fields do not take part in key equality, so a key is its code sequence.
- The `System.out.println` in the cross-space `getDistance`: console output.
- `Vector.iterateNonZero`: modelled as index order over the non-zero elements of a dense sequence.
- Floating point: `double` arithmetic is exact `real` arithmetic. Rounding, infinities and NaN are not represented, except the NaN of `0.0 / 0` in the means, which is `Quotient.NotANumber`.
- Neighborhood.SimplexSpace.GetHashLOD: the source loops to `dimensions`, and the model masks every code the hasher returns. They agree because the constructors require the hasher to return `dimensions` codes.
- Neighborhood.SimplexSpace.FindNeighbors: the `(Long)` cast of each id in the source is not modelled; ids are of the generic type T.
- The public `evaluate` overloads, `getMatchesFromDataModel`, `getMatchesFromRecommender` and the `PrefComparator` sorts of the evaluator. They depend on `Recommender`/`DataModel`, randomness and a comparator that is not part of this model. So the `Arrays.sort` at the end of `getPrefsArray` is left out.
- `normalWilcoxon`: its `Math.sqrt` scaling and `Math.min` over doubles. The property it relies on (vectorZabs holds the magnitudes of vectorZ) is `MagnitudesKept`.
- `getMeanRank`: an unused alternative mean. Its sum is `Sum`, which `SignedSumsSplit` relates to the two one-sided sums.
- `Arrays.sort(int[])` is modelled as the pure insertion sort `IntSort.Sort`, not as an in-place array sort.
- NormalRanking.FillPrefs: requires every slot to be null, as both callers pass a fresh array. On an occupied slot the source loop would not advance and would run forever; that case is not modelled.
- NormalRanking.GetVectorZ: requires a non-null `prefsDM` entry everywhere; the callers fill it before the call. It also requires `prefsR` and the two result arrays to be distinct arrays of `prefsDM`'s length. A `null` in `prefsDM` (a `NullPointerException` in the source) is not modelled.
- NormalRanking.WilcoxonRanks: requires the four arrays to have one length and the two rank arrays to be distinct, as the caller allocates them. The rank division by `count` would be a double division by zero only for a score absent from its own sorted clone, which cannot happen.
- `Math.abs` and `i − j` on `int` cannot overflow for array indices, so `Abs` is exact. In raw mode the code → `double` conversion is modelled as the signed value of the 32-bit code.
- Neighborhood.SimplexSpace.constructor / WithMeasure: `dimensions` is a `nat`. A negative Java `int` dimensionality, for which `addVector` and `hashDistance` throw `NegativeArraySizeException` at `new double[dimensions]`, is not modelled.
- Mutations through aliases of the bucket sets returned by the maps are not modelled. The sets are values that the methods reassign.
