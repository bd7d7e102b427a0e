# Verified models of openGauss extension modules

This project models the self-contained algorithms of several openGauss contrib
modules in Dafny and proves what they are meant to guarantee.

- **fuzzystrmatch** (`EditDistance`, `Levenshtein*`): the weighted edit distance
  as cheapest edit script; the two-row program that computes it; and the banded
  program that slides its first and last column, plants sentinels and gives up
  early, proved to return min(distance, bound + 1), with the exact condition on
  the costs.
- **btree_gist** (`ByteString`, `VarKey*`, `NumKey`): index keys over byte
  strings, packed, joined and truncated, and over numbers. The law is that an
  index never loses a row that a plain scan would find.
- **hstore** (`HStore*`, `Signature`, `Crc32*`): the stored form of key/value
  maps, its builders and its in-place upgrade from the old format; the signature
  index with its split; the table-driven CRC-32.
- **cube** (`Cube*`): boxes of any dimension, their order, distance, index keys
  and Guttman's split.
- **gauss_connector** (`ForeignScan`, `Pushdown*`, `Remote*`): batched
  fetching through a remote cursor, the check that an expression may be sent to
  the remote server, and the numbering of the parameters sent along.

Loops and in-place updates of the source are methods with loop invariants, tied by
their contracts to specification functions or predicates; the laws are lemmas over
those. Trees of index keys are recorded as histories: how a key came about from the
leaves below it. The splits record their runs as sequences of states.

Where code and expectation part, the model follows the code and the exact condition
is proved: negative costs together with a bound (`LevenshteinCosts`), splitting
pages of internal byte-string keys (`VarKeyLoss`), the early return of the hstore
upgrade (`HStoreCompat`), contained-by search with a query of more dimensions
(`CubeIndex`), the order of cubes of different dimensions (`CubeCompare`) and
enlargement by a cube of more dimensions (`CubeSplit`).

## Model

| member | source | states |
|---|---|---|
| `EditDistance.DistanceIsCheapestScript` | contrib/fuzzystrmatch/levenshtein.cpp:37-47 | the last cell of the cost matrix is the cost of some script of insertions, deletions and replacements turning s into t, and no script is cheaper; for any costs, negative ones included |
| `EditDistance.ScriptCostsAtLeastCell` | contrib/fuzzystrmatch/levenshtein.cpp:37-47 | a partial script costs at least the cell it has reached |
| `EditDistance.CheapestScript` | contrib/fuzzystrmatch/levenshtein.cpp:37-47 | every cell is paid for exactly by a script it constructs |
| `EditDistance.Lipschitz` | contrib/fuzzystrmatch/levenshtein.cpp:242-304 | neighbouring cells differ by at most one insertion or deletion |
| `EditDistance.DiagonalNeverFalls` | contrib/fuzzystrmatch/levenshtein.cpp:318-361 | the distance between prefixes never falls along a diagonal |
| `EditDistance.TriangleInequality` | contrib/fuzzystrmatch/levenshtein.cpp:37-47 | going through a third string is never cheaper |
| `EditDistance.CapChangesNothing` | contrib/fuzzystrmatch/levenshtein.cpp:126-170 | lowering the substitution cost to ins + del leaves every cell as it was |
| `EditDistance.ResidualConsistent` | contrib/fuzzystrmatch/levenshtein.cpp:318-361 | the estimate of the remaining cost is a consistent heuristic whenever neither a substitution nor an insertion undone by a deletion gains: one step lowers it by no more than the step's cost |
| `EditDistance.DeadRow` | contrib/fuzzystrmatch/levenshtein.cpp:318-361 | under the same condition, when every cell of some row exceeds the bound with its remaining cost, so does the distance |
| `EditDistance.TheoreticalMinimum` | contrib/fuzzystrmatch/levenshtein.cpp:126-170 | under the same condition the distance is at least the cost of the difference in length |
| `EditDistance.CellUpperBound` | contrib/fuzzystrmatch/levenshtein.cpp:126-170 | and, when substituting does not gain, at most that plus a substitution for every common position |
| `Levenshtein.FillRow` | contrib/fuzzystrmatch/levenshtein.cpp:209-304 | given row j - 1 of the matrix in one array, the inner loop leaves row j in the other |
| `Levenshtein.Levenshtein` | contrib/fuzzystrmatch/levenshtein.cpp:97-124 | the two-row program returns the distance for all strings and costs, and refuses exactly two non-empty strings one of which is longer than 255 |
| `LevenshteinLessEqual.PrepareBand` | contrib/fuzzystrmatch/levenshtein.cpp:126-170 | gives up exactly when the difference in length costs more than the bound, and drops the bound exactly when no script can cost more; for reliable costs the distance then exceeds the bound, or lies within it; every column from the initial stop column on is out of reach |
| `LevenshteinLessEqual.DeadOnLeft` | contrib/fuzzystrmatch/levenshtein.cpp:340-361 | columns out of reach on the left stay out of reach in the next row |
| `LevenshteinLessEqual.DeadOnRight` | contrib/fuzzystrmatch/levenshtein.cpp:214-241 | right of the column where the remainders are equally long, a column stays out of reach when it and its left neighbour were, so widening the band by one is enough |
| `LevenshteinLessEqual.CellStandsFor` | contrib/fuzzystrmatch/levenshtein.cpp:242-304 | the recurrence applied to representative values gives a representative value: exact where the cell still matters, never below what the bound can tell apart |
| `LevenshteinLessEqual.SlideTest` | contrib/fuzzystrmatch/levenshtein.cpp:318-361 | a column fails the slide test exactly when no script within the bound goes through it |
| `LevenshteinLessEqual.FillBand` | contrib/fuzzystrmatch/levenshtein.cpp:242-304 | for any costs the inner loop over the band alone, reading s from the shifted pointer, obeys the recurrence; it represents row j on the band and leaves the sentinels alone |
| `LevenshteinLessEqual.SlideStop` | contrib/fuzzystrmatch/levenshtein.cpp:318-339 | for any costs it moves left to the first column that passes the test; with non-negative costs past columns out of reach only, and as far as possible |
| `LevenshteinLessEqual.SlideStart` | contrib/fuzzystrmatch/levenshtein.cpp:340-361 | for any costs it moves right to the first column that passes the test, planting max_d + 1 in both rows and advancing the string pointer in step; with non-negative costs past columns out of reach only |
| `LevenshteinLessEqual.SlideColumns` | contrib/fuzzystrmatch/levenshtein.cpp:306-361 | both slides together: when the columns cross the distance exceeds the bound, otherwise the band keeps its meaning and ends beyond the column where the remainders are equally long |
| `LevenshteinLessEqual.NextRow` | contrib/fuzzystrmatch/levenshtein.cpp:209-304 | one row of the outer loop keeps the band's meaning: right values inside, nothing within reach outside |
| `LevenshteinLessEqual.EmptyBand` | contrib/fuzzystrmatch/levenshtein.cpp:318-361 | giving up on an empty band is right |
| `LevenshteinLessEqual.RunBand` | contrib/fuzzystrmatch/levenshtein.cpp:172-369 | for any costs the rows form a run of the loop, ended by crossing columns or the last row; with non-negative costs the result is the distance, or max_d + 1 when it exceeds the bound; without a bound the distance |
| `LevenshteinLessEqual.LevenshteinBounded` | contrib/fuzzystrmatch/levenshtein.cpp:97-369 | for non-empty strings and reliable costs (none negative, or neither insertion nor deletion positive, or the capped substitution free) the result is exactly min(distance, max_d + 1); for other costs it is one the run allows; for empty strings or a negative bound, the distance; the same refusals as the plain routine |
| `LevenshteinCosts.UnreliableCosts` | contrib/fuzzystrmatch/levenshtein.cpp:126-369 | the condition on the costs is exact: for every other choice there are strings of at most two characters and a bound for which every answer the routine can give differs from min(distance, max_d + 1) |
| `LevenshteinCosts.SentinelInserted` | contrib/fuzzystrmatch/levenshtein.cpp:214-241 | with a negative insertion cost the value planted right of the band is taken for a way to the next row |
| `LevenshteinCosts.SentinelDeleted` | contrib/fuzzystrmatch/levenshtein.cpp:340-361 | with a negative deletion cost the value planted left of the band is |
| `VarKey.LeafTestIsExact` | contrib/btree_gist/btree_utils_var.cpp:450-500 | on a leaf key the six strategies are the six comparisons |
| `VarKey.InnerTestIsExact` | contrib/btree_gist/btree_utils_var.cpp:450-500 | an inner key is descended into exactly when a value between its bounds, or continuing one of them, would satisfy the query, up to equality for the strict comparisons |
| `ByteString.CompareIsLexicographic` | contrib/btree_gist/btree_bytea.cpp:57-61 | byteacmp as modelled: the first differing byte decides, and a proper prefix comes first |
| `VarKey.TruncationCovers` | contrib/btree_gist/btree_utils_var.cpp:162-186 | cutting a joined key to its common prefix plus two bytes covers every value near it: lower bound below it, and upper bound above it or a prefix of it beyond the common prefix |
| `VarKey.LongTruncationCovers` | contrib/btree_gist/btree_utils_var.cpp:162-186 | a longer cut covers every value that lies between the uncut bounds |
| `VarKey.TruncationKeepsNear` | contrib/btree_gist/btree_utils_var.cpp:162-186 | any cut beyond the byte that separates the bounds keeps near what was near the key |
| `VarKey.CoveredStep` | contrib/btree_gist/btree_utils_var.cpp:450-500 | a key that covers a value accepts every query the value satisfies, in all six strategies |
| `VarKeyTree.KeyCovers` | contrib/btree_gist/btree_utils_var.cpp:188-280 | after any nesting of unions and splits, every key but that of an internal page's split covers every value below |
| `VarKeyTree.KeyIsNear` | contrib/btree_gist/btree_utils_var.cpp:188-442 | every value below any key, internal splits included, is near it and near the bounds it was cut from |
| `VarKeyLoss.KeyLosesNothingIff` | contrib/btree_gist/btree_utils_var.cpp:414-442 | of all halves of pages of internal entries in sort order, each cut with its sibling, with given joined bounds and length, over all histories, none loses a value stored below it if and only if the cut is safe: the lower bound is a prefix of the upper, or no byte kept beyond the two that separate the bounds can be exceeded by a value below (a byte of 0xFF cannot, nor can the first of them when the bounds leave no room for the key such a value lies under) |
| `VarKeyLoss.NoRowLost` | contrib/btree_gist/btree_utils_var.cpp:450-500 | every key above a value accepts whatever query the value satisfies, whatever splits lie below, unless the key is the side of an internal split with an unsafe cut |
| `VarKeyLoss.KeyEscapes` | contrib/btree_gist/btree_utils_var.cpp:188-442 | where the bounds leave no room, every key above a value that would exceed the upper bound reaches above that bound or below the lower one, through any unions and splits |
| `VarKeyLoss.UnsafeCutLoses` | contrib/btree_gist/btree_utils_var.cpp:429-442 | for every unsafe cut it constructs a page in sort order, both its halves, and a value stored below the left one that its key rejects |
| `VarKeyLoss.OneSideKeeps` | contrib/btree_gist/btree_utils_var.cpp:435-439 | of two sides cut at one length only the one with the shorter common prefix can lose a value |
| `VarKeyLoss.SharedTruncationLosesNothingIff` | contrib/btree_gist/btree_utils_var.cpp:429-442 | for everything near the joined bounds, stored or not: the cut at a shared length keeps it findable if and only if the lower bound is a prefix of the upper or the extra bytes kept of the upper are all 0xFF |
| `VarKeyLoss.InternalSplitLosesRow` | contrib/btree_gist/btree_utils_var.cpp:429-442 | a page of four union keys, in sort order, whose left half drops a stored value from equality search |
| `VarKeyLayout.CopyReadsBack` | contrib/btree_gist/btree_utils_var.cpp:51-79 | a copied key, packed with INTALIGN and arbitrary bytes in the gap, reads back as the bounds it was made of, and as a leaf exactly when it was one and no node was forced |
| `VarKeyLayout.NodeLayout` | contrib/btree_gist/btree_utils_var.cpp:64-79 | the bytes of a node key: each bound behind its header, the upper one at the next offset divisible by four, nothing after it |
| `VarKeySupport.NodeCpLen` | contrib/btree_gist/btree_utils_var.cpp:94-128 | the loop over stored bytes returns the length of the common prefix of the bounds |
| `VarKeySupport.TruncateKey` | contrib/btree_gist/btree_utils_var.cpp:162-186 | the new stored key holds both bounds cut to at most cpf_length + 1 bytes |
| `VarKeySupport.BinUnion` | contrib/btree_gist/btree_utils_var.cpp:188-226 | the stored union holds the lesser lower and the greater upper bound, starting from nothing too |
| `VarKeySupport.UnionEntries` | contrib/btree_gist/btree_utils_var.cpp:249-280 | the union of all entries, truncated after its common prefix |
| `Entries.SidesInOrder` | contrib/btree_gist/btree_utils_var.cpp:407-427 | cutting sorted positions anywhere leaves every entry on the left before every entry on the right |
| `VarKeySupport.PickSplit` | contrib/btree_gist/btree_utils_var.cpp:370-445 | the two lists are the sorted positions cut in the middle, everything left sorts before everything right, neither is empty, and each side's stored key is its entries' union cut at the shared length |
| `VarKeySupport.LeafSplitLosesNothing` | contrib/btree_gist/btree_utils_var.cpp:414-442 | a split of leaf entries gives keys that accept whatever an entry of their side satisfies |
| `NumKey.DistanceIsNearest` | contrib/btree_gist/btree_utils_num.cpp:210-224 | the distance of a key is that of the nearest value in its interval: none is nearer, and one is as near |
| `NumKey.Datum.BinUnion` | contrib/btree_gist/btree_utils_num.cpp:136-158 | the interval updated in place stays the smallest one around everything joined in so far |
| `NumKey.Union` | contrib/btree_gist/btree_utils_num.cpp:90-115 | the result is the smallest interval around all entries, with both bounds attained |
| `NumKey.PickSplit` | contrib/btree_gist/btree_utils_num.cpp:226-264 | sorted positions cut in half, left before right and no lower bound on the left above one on the right, each key the smallest interval around its side |
| `NumKey.AncestorEncloses` | contrib/btree_gist/btree_utils_num.cpp:90-158 | every key encloses every key below it |
| `NumKey.NoRowLost` | contrib/btree_gist/btree_utils_num.cpp:166-204 | every key above a stored value that satisfies one of the six comparisons is accepted |
| `NumKey.LeafTestIsExact` | contrib/btree_gist/btree_utils_num.cpp:166-204 | on a stored value the six strategies are the six comparisons |
| `NumKey.InnerTestIsExact` | contrib/btree_gist/btree_utils_num.cpp:166-204 | an inner key is descended into exactly when some value in its interval would satisfy the query, up to equality for the strict comparisons |
| `NumKey.DistanceNeverExceedsDescendant` | contrib/btree_gist/btree_utils_num.cpp:210-224 | a key is never farther from the query than anything below it, which nearest-neighbour search relies on |
| `Crc32Table.TableDivides` | contrib/hstore/crc32.cpp:26-283 | each of the 256 constants is the remainder of its index after eight division steps |
| `Crc32.ByteStepDivides` | contrib/hstore/crc32.cpp:285-296 | one table step is eight division steps on the register with the byte added |
| `Crc32.ByteStepFeedsBits` | contrib/hstore/crc32.cpp:285-296 | one table step feeds the eight bits of a byte one by one, lowest first |
| `Crc32.Crc32Sz` | contrib/hstore/crc32.cpp:285-296 | the loop returns the bit-by-bit reflected CRC of any byte sequence, with the conditioning of section 8 of RFC 1952 |
| `Crc32Theory.CrcIsLongDivision` | contrib/hstore/crc32.cpp:19-296 | that CRC is the complement of the remainder of plain polynomial long division of the message, padded by 32 bits and with its first 32 bits inverted |
| `Crc32Theory.RegisterInjective` | contrib/hstore/crc32.cpp:285-296 | feeding the same bits keeps different registers different |
| `Crc32Theory.BurstDetected` | contrib/hstore/crc32.cpp:285-296 | two different buffers of equal length whose bits differ only within 32 consecutive ones, at any offset, never share a CRC |
| `Crc32Theory.ShortDifferenceDetected` | contrib/hstore/crc32.cpp:285-296 | nor do two that differ only within four consecutive bytes, one byte included |
| `HStoreLayout.StoresReadsBack` | contrib/hstore/hstore.h:22-78 | an area with the right end positions, flags and strings is read by the macros as exactly its list of pairs |
| `HStoreLayout.EntryPositions` | contrib/hstore/hstore.h:22-78 | offsets and lengths of key and value follow from the end positions, the first entry's flag standing for position zero |
| `HStoreBuild.AddItem` | contrib/hstore/hstore.h:109-126 | the area stores one more pair, null or not, and both cursors follow |
| `HStoreBuild.CopyItem` | contrib/hstore/hstore.h:94-103 | the same for a key and value that lie contiguous in another hstore |
| `HStoreBuild.MoveDown` | contrib/hstore/hstore.h:129-141 | memmove to lower, possibly overlapping addresses moves the bytes as they were before |
| `HStoreBuild.Finalize` | contrib/hstore/hstore.h:129-141 | flags the first entry, closes the gap when fewer pairs came than announced, and leaves count and size exact |
| `HStoreBuild.HStorePairs` | contrib/hstore/hstore_io.cpp:282-308 | any list of pairs of total length up to HENTRY_POSMASK, built by HS_ADDITEM and HS_FINALIZE, reads back as that list |
| `HStoreBuild.CopyKept` | contrib/hstore/hstore_op.cpp:222-260 | copying any subsequence of a stored hstore and finalizing with the smaller count reads back as exactly that subsequence |
| `HStoreCompat.ValidOldFormat` | contrib/hstore/hstore_compat.cpp:162-216 | the loops decide exactly the condition that HStoreFormats.ValidOldIff characterises, and say 2 exactly when the size is exact |
| `HStoreCompat.ValidNewFormat` | contrib/hstore/hstore_compat.cpp:114-154 | accepts exactly the values whose end positions do not fall, whose keys are ordered and whose first entry alone is flagged, says 2 exactly when the size is exact, whatever lies in memory beyond the value |
| `HStoreCompat.PositionsFitWord` | contrib/hstore/hstore_compat.cpp:162-216 | the running position of the validity loop never wraps a 32-bit word |
| `HStoreCompat.ConvertEntries` | contrib/hstore/hstore_compat.cpp:301-328 | the loop that overwrites each old record with two new words over the same eight bytes reads every record before it is destroyed |
| `HStoreCompat.Convert` | contrib/hstore/hstore_compat.cpp:301-328 | after the rewrite the new macros read exactly the keys, values and nulls the old records described; end positions never fall; count and size are exact |
| `HStoreCompat.Upgrade` | contrib/hstore/hstore_compat.cpp:221-331 | every outcome for every value, also one whose count points beyond its end: the early return changes nothing, a valid old value is converted in place or in a fresh copy, anything else is left alone or has its size fixed, and failure is reported exactly for what is valid in neither format |
| `HStoreCompat.FastPathTakesOldIff` | contrib/hstore/hstore_compat.cpp:229-229 | the early return mistakes a valid non-empty old value for a new one if and only if it is shorter than 32768 bytes and its first value is null with a recorded length of 32768 or more |
| `HStoreCompat.FastPathTakesOldExample` | contrib/hstore/hstore_compat.cpp:229-229 | such a value exists |
| `HStoreFormats.ValidOldIff` | contrib/hstore/hstore_compat.cpp:162-216 | the check accepts exactly the values that are, byte by byte, the old form of some list of pairs whose keys never get shorter, of any length the count allows and with any slop behind |
| `HStoreFormats.DescribesIffImage` | contrib/hstore/hstore_compat.cpp:90-103 | the fields read from the records describe exactly the list of pairs whose bytes they are |
| `HStoreFormats.UpgradeImage` | contrib/hstore/hstore_compat.cpp:221-331 | the upgrade of the old form of any such list, off the early return, succeeds and reads back as that list |
| `HStoreFormats.StoredIsValidNew` | contrib/hstore/hstore_compat.cpp:114-154 | the new form of any list of pairs whose keys never get shorter is accepted |
| `HStoreFormats.ValidNewReads` | contrib/hstore/hstore_compat.cpp:114-154 | of an accepted new value every pair can be read within bounds, one behind the other, no later key is null and the keys never get shorter |
| `HStoreFormats.StoredIsTaken` | contrib/hstore/hstore_compat.cpp:229-229 | short new values take the early return |
| `Signature.SizeBitVec` | contrib/hstore/hstore_gist.cpp:184-195 | the byte loop counts the set bits |
| `Signature.HemDistSign` | contrib/hstore/hstore_gist.cpp:197-208 | the bit loop counts the differing positions |
| `Signature.HemDist` | contrib/hstore/hstore_gist.cpp:210-221 | with an all-true key on either side or both, the same as counting differences from all ones |
| `Signature.DistanceIsMetric` | contrib/hstore/hstore_gist.cpp:197-221 | symmetric, zero exactly for keys with the same bits, and within the triangle inequality |
| `HStoreGist.CompressLeaf` | contrib/hstore/hstore_gist.cpp:96-145 | the signature holds exactly the bits that the keys and non-null values hash to |
| `HStoreGist.CompressInner` | contrib/hstore/hstore_gist.cpp:96-145 | a key becomes all-true exactly when all its bits are set, and its bits stay the same |
| `HStoreGist.Union` | contrib/hstore/hstore_gist.cpp:223-267 | the union holds exactly the bits of its entries, an all-true entry cutting the loop short |
| `HStoreGist.Consistent` | contrib/hstore/hstore_gist.cpp:431-515 | the loops over the query's pairs or keys decide exactly whether the needed bits are there |
| `HStoreGist.AcceptsIffRowPossible` | contrib/hstore/hstore_gist.cpp:431-515 | a signature is accepted exactly when some row whose bits it holds would satisfy the query |
| `HStoreGist.HashValIsLowBits` | contrib/hstore/hstore_gist.cpp:31-37 | the bit for a key or value is given by the seven low bits of its checksum |
| `HStoreGist.UnionCovers` | contrib/hstore/hstore_gist.cpp:223-267 | a union's key covers each of its entries |
| `HStoreSplit.PickSeeds` | contrib/hstore/hstore_gist.cpp:316-336 | the seeds are two different positions, farthest apart among the scanned pairs, and 1 and 2 when none is scanned |
| `HStoreSplit.DealKeepsBalance` | contrib/hstore/hstore_gist.cpp:379-421 | dealing one entry keeps the sizes within 110, one less while a seed is still to come |
| `HStoreSplit.NearerOrShorterWins` | contrib/hstore/hstore_gist.cpp:395-421 | between equally long sides the nearer key gets the entry, between equally near ones the shorter side |
| `HStoreSplit.LongerAttractsLess` | contrib/hstore/hstore_gist.cpp:54-60 | a side that is longer attracts nothing that it would not attract when shorter |
| `HStoreSplit.BalanceThroughout` | contrib/hstore/hstore_gist.cpp:379-421 | at every point of every run, for any number of entries in any order, the sizes differ by at most 110 |
| `HStoreSplit.KeysExactThroughout` | contrib/hstore/hstore_gist.cpp:379-421 | at every point each side's key holds exactly the bits of its seed and of the entries dealt to it |
| `HStoreSplit.RunOutcome` | contrib/hstore/hstore_gist.cpp:364-421 | a complete run places every position once, the seeds on their sides, and each key is the union of its side |
| `HStoreSplit.PickSplit` | contrib/hstore/hstore_gist.cpp:291-429 | the method is such a run: both lists non-empty, together all positions once, sizes within 110, keys the unions of their sides |
| `HStoreSplit.SideCovers` | contrib/hstore/hstore_gist.cpp:379-421 | each side's key covers each of its members |
| `HStoreTree.StoreRow` | contrib/hstore/hstore_gist.cpp:96-145 | compressing a row gives a leaf of an index tree |
| `HStoreTree.StoreUnion` | contrib/hstore/hstore_gist.cpp:96-267 | the union of the keys of a page, then compressed, is a key of a tree over that page |
| `HStoreTree.StoreSplit` | contrib/hstore/hstore_gist.cpp:96-429 | both keys of a split, then compressed, are keys of trees over their sides, and the sides hold every position once |
| `HStoreTree.HashedBitsReachUp` | contrib/hstore/hstore_gist.cpp:223-429 | through any nesting of unions and split sides, every bit a row hashes to is set in every key above it |
| `HStoreTree.NoRowLost` | contrib/hstore/hstore_gist.cpp:431-515 | no key above a row that satisfies contains, exists, exists-all or exists-any is rejected |
| `Cube.CubeUnion` | contrib/cube/cube.cpp:653-696 | the smallest box around two zero-padded boxes of any dimensions, with corners normalised |
| `Cube.CubeInter` | contrib/cube/cube.cpp:712-770 | the greater lower and lesser upper bounds of the zero-padded boxes |
| `Cube.InterHoldsCommonPoints` | contrib/cube/cube.cpp:712-770 | for boxes that meet, the intersection holds exactly their common points |
| `Cube.CubeContains` | contrib/cube/cube.cpp:956-986 | true exactly when the first box encloses the second in the first's dimensions and the second is zero beyond them |
| `Cube.ContainsMeansPoints` | contrib/cube/cube.cpp:956-986 | which is that, in the dimensions of the second, all its points lie in the zero-padded first |
| `Cube.CubeOverlap` | contrib/cube/cube.cpp:1016-1052 | true exactly when the zero-padded boxes meet in every dimension |
| `Cube.OverlapMeansCommonPoint` | contrib/cube/cube.cpp:1016-1052 | which is having a point in common |
| `Cube.CubeDistance` | contrib/cube/cube.cpp:1071-1109 | the loops accumulate the squared gaps over all dimensions |
| `Cube.Distance1DIsGap` | contrib/cube/cube.cpp:1111-1123 | the one-dimensional distance is the gap between the two intervals, whichever way their ends are given |
| `Cube.DistanceIsMinimum` | contrib/cube/cube.cpp:1071-1123 | the squared distance is the minimum over all pairs of points of the two boxes, and attained |
| `Cube.DistanceSymmetric` | contrib/cube/cube.cpp:1071-1109 | the distance is symmetric |
| `Cube.DistanceZeroIffOverlap` | contrib/cube/cube.cpp:1016-1109 | it is zero exactly when the boxes overlap |
| `CubeCompare.CubeCmp` | contrib/cube/cube.cpp:803-868 | the loops compare the padded corners lexicographically, common dimensions first, then by dimension |
| `CubeCompare.SignAntisymmetric` | contrib/cube/cube.cpp:803-868 | swapping the boxes negates the result |
| `CubeCompare.ZeroIffSame` | contrib/cube/cube.cpp:803-868 | zero exactly for equal dimensions and equal normalised corners |
| `CubeCompare.FirstDifferenceDecides` | contrib/cube/cube.cpp:803-868 | the first difference decides and the lesser number makes the lesser box: common dimensions before the others, in either block all lower bounds before the upper ones |
| `CubeCompare.FewerDimensionsFirst` | contrib/cube/cube.cpp:803-868 | of boxes that agree in every dimension the one with fewer is the lesser |
| `CubeCompare.TransitiveAtOneDimension` | contrib/cube/cube.cpp:803-868 | transitive on the boxes of one dimension, together with those of none |
| `CubeCompare.TransitiveIff` | contrib/cube/cube.cpp:803-868 | on a class of boxes given by their dimensions the comparison is transitive if and only if the class has at most one positive dimension |
| `CubeCompare.CycleAcross` | contrib/cube/cube.cpp:803-868 | for any two positive dimensions there are three boxes that form a cycle |
| `CubeCompare.NotTransitiveAcrossDimensions` | contrib/cube/cube.cpp:803-868 | such a cycle in one and two dimensions |
| `CubeIndex.Consistent` | contrib/cube/cube.cpp:588-640 | leaves are tested with the operators themselves; inner keys are descended into on overlap for overlap and contained-by, and on containment of the query for the others |
| `CubeIndex.LeafTestIsExact` | contrib/cube/cube.cpp:588-614 | at leaves the four strategies mean sharing a point, having the same points, and holding the other's points |
| `CubeIndex.InnerTestMeans` | contrib/cube/cube.cpp:616-640 | an inner key is descended into exactly when it shares a point with the query, or for contains and same when it holds all its points |
| `CubeIndex.UnionEntries` | contrib/cube/cube.cpp:359-383 | two or more entries give the least box enclosing them all; a single entry gives none |
| `CubeIndex.HullGrows` | contrib/cube/cube.cpp:359-383 | joining one more box to the least box around some gives the least box around all |
| `CubeIndex.ContainedByFoundIff` | contrib/cube/cube.cpp:616-640 | for contained-by that condition is exact: the box is found under every enclosing key if and only if the query reaches zero in the dimensions the box lacks |
| `CubeSplit.RtCubeSize` | contrib/cube/cube.cpp:787-799 | the loop gives the product of all extents, whichever way the corners are stored, and 1 for a box without dimensions |
| `CubeSplit.WasteOf` | contrib/cube/cube.cpp:475-480 | size of the union less size of the intersection, stated on the padded bounds |
| `CubeSplit.PickSeeds` | contrib/cube/cube.cpp:462-493 | the seeds are two different positions of greatest waste among the scanned pairs, and 1 and 2 when none is scanned |
| `CubeSplit.LeastGrowthWins` | contrib/cube/cube.cpp:537-556 | an entry that is no seed goes to the side whose box grows less in size by it, to the right one if both grow alike |
| `CubeSplit.SizeScales` | contrib/cube/cube.cpp:787-799 | size is volume: it scales with every extent |
| `CubeSplit.EnlargementNonNegative` | contrib/cube/cube.cpp:537-545 | adding a box of no more dimensions never shrinks a side's size |
| `CubeSplit.EnlargementNonNegativeIff` | contrib/cube/cube.cpp:537-545 | for given dimensions no pair of boxes gives a negative enlargement if and only if the added box has no more dimensions |
| `CubeSplit.EnlargementCanBeNegative` | contrib/cube/cube.cpp:537-545 | a pair that gives one |
| `CubeSplit.RunPartitions` | contrib/cube/cube.cpp:519-556 | at every point of a run the two lists are increasing, disjoint and hold the positions dealt so far |
| `CubeSplit.RunOfHulls` | contrib/cube/cube.cpp:519-556 | at every point each side's box is the least around its seed and its members |
| `CubeSplit.RunNeverShrinks` | contrib/cube/cube.cpp:519-556 | when all entries share a dimension, no enlargement is ever negative during a run |
| `CubeSplit.PickSplit` | contrib/cube/cube.cpp:436-563 | the method is such a run: seeds on their sides, positions partitioned into two increasing lists, each box the least around the entries of its side |
| `CubeTree.StoreUnion` | contrib/cube/cube.cpp:359-383 | the union of the keys of a page is a key of a tree over that page |
| `CubeTree.StoreSplit` | contrib/cube/cube.cpp:436-563 | both keys of a split are keys of trees over their sides |
| `CubeTree.KeyEnclosesLeaf` | contrib/cube/cube.cpp:359-563 | through any nesting of unions and split sides, every key encloses every box below |
| `CubeTree.NoRowLost` | contrib/cube/cube.cpp:588-640 | overlap, contains and same in any mix of dimensions, and contained-by when the query reaches zero in the dimensions the box lacks: every key above an accepted box is accepted |
| `CubeTree.ContainedByLosesNothingIff` | contrib/cube/cube.cpp:616-640 | for contained-by the condition is exact over all trees: every key above the box is descended into if and only if the query reaches zero in the dimensions the box lacks |
| `CubeTree.ContainedByLosesRow` | contrib/cube/cube.cpp:616-640 | a box, a query and a tree for which the row is lost |
| `ForeignScan.ScanState.CreateCursor` | contrib/gauss_connector/gc_fdw.cpp:1557-1615 | a fresh cursor before the first row, nothing buffered |
| `ForeignScan.ScanState.FetchMoreData` | contrib/gauss_connector/gc_fdw.cpp:1623-1693 | the next batch replaces the used one; a short batch means the end |
| `ForeignScan.ScanState.Iterate` | contrib/gauss_connector/gc_fdw.cpp:1010-1063 | returns the next remote row, or the empty slot at the end or on a node to be skipped, and fetches only when the batch is used up and the end is not known |
| `ForeignScan.ScanState.ReScan` | contrib/gauss_connector/gc_fdw.cpp:1276-1311 | the scan is back before its first row |
| `ForeignScan.Drain` | contrib/gauss_connector/gc_fdw.cpp:1010-1063 | any number of calls returns the rows in order and then the empty slot for ever, with n / fetch_size + 1 fetches in all and none after the end |
| `ForeignScan.DrainTwice` | contrib/gauss_connector/gc_fdw.cpp:1276-1311 | before and after a restart the calls return the rows from the first one on, and the second run takes as many fetches as the first would |
| `ForeignScan.ReadAll` | contrib/gauss_connector/gc_fdw.cpp:1010-1063 | a scan read to its first empty slot gives all rows of its node, and nothing when its index is -1 or beyond the nodes |
| `ForeignScan.ReadCluster` | contrib/gauss_connector/gc_fdw.cpp:2558-2569 | reading the scans of all nodes gives the rows of a replicated table exactly once, and of any other table the rows of every node |
| `PushdownCheck.LocalContext.MergeIn` | contrib/gauss_connector/deparse.cpp:661-703 | the in-place merge: any collation over none, unsafe over safe, a non-default collation over the default, and two different ones give an unsafe result |
| `PushdownCheck.Walk` | contrib/gauss_connector/deparse.cpp:247-707 | the in-place walk accepts and merges exactly what each node contributes as a function of the node alone |
| `PushdownCheck.WalkSorts` | contrib/gauss_connector/deparse.cpp:606-627 | the loop accepts the sort operators of an aggregate exactly when each is a default one of its column's type or shippable |
| `PushdownTheory.SafeComesFromVar` | contrib/gauss_connector/deparse.cpp:247-707 | a collation called safe belongs to a foreign-table column below |
| `PushdownTheory.AcceptedIsJustified` | contrib/gauss_connector/deparse.cpp:247-707 | every function, operator, array operator and aggregate of an accepted tree that has an input collation has below it a foreign-table column of that very collation |
| `PushdownSafety.AcceptedIsSendable` | contrib/gauss_connector/deparse.cpp:247-654 | in an accepted tree every type, function, operator and non-default sort operator is known to the remote server, and there is no local parameter, system column but ctid and oid, assignment or unknown node |
| `PushdownSafety.AcceptedIsUnspoiled` | contrib/gauss_connector/deparse.cpp:247-707 | at every node with an input collation each argument brings none, the default one, or that very one from a foreign column |
| `PushdownSafety.UniformIsAccepted` | contrib/gauss_connector/deparse.cpp:247-707 | conversely a tree of known parts, whose only collation besides the default comes from foreign columns wherever it is claimed or needed, is accepted and hands that collation on |
| `PushdownSafety.IsForeignExpr` | contrib/gauss_connector/deparse.cpp:195-232 | an expression is sent exactly when it is accepted, not unsafe at the top and free of mutable functions; what is sent is known, justified and unspoiled throughout, and what is known and uniform is sent |
| `PushdownTheory.CombinedIsDetermined` | contrib/gauss_connector/deparse.cpp:661-703 | the verdict on a list depends only on the set of its elements' contributions, by a rule that does not mention order |
| `PushdownTheory.OrderIrrelevant` | contrib/gauss_connector/deparse.cpp:247-707 | lists with the same elements get the same verdict |
| `PushdownTheory.CallOrderIrrelevant` | contrib/gauss_connector/deparse.cpp:247-707 | permuting the arguments of a call changes nothing of what it contributes |
| `RemoteParams.Deparser.AppendRemoteValue` | contrib/gauss_connector/deparse.cpp:1588-1610 | the search loop finds the first equal element or appends one, and prints its number; without a list it prints the placeholder |
| `RemoteParams.Deparser.DeparseExpr` | contrib/gauss_connector/deparse.cpp:1378-1431 | buffer and list after the recursive printing are those the specification gives; without a list the same text with placeholders |
| `RemoteParams.MaskedIgnoresList` | contrib/gauss_connector/deparse.cpp:2002-2032 | apart from the numbers, the text does not depend on the list |
| `RemoteParams.ListOnlyGrows` | contrib/gauss_connector/deparse.cpp:1441-1485 | over a whole deparse the list grows only at its end and stays free of duplicates |
| `RemoteText.PiecesWrite` | contrib/gauss_connector/deparse.cpp:1615-1942 | what each node printer appends is the node written out in SQL: operands, operator, quantifier, connective and null test in their places |
| `RemoteText.PrintsSql` | contrib/gauss_connector/deparse.cpp:1378-1610 | the text printed while the list grows is the expression in SQL with every remote value numbered by the finished list |
| `RemoteText.NumbersDenoteValues` | contrib/gauss_connector/deparse.cpp:1378-1610 | the printed numbers, in order, are positions in the finished list of the very values that stand at those places of the expression, from left to right |
| `RemoteParams.MaskedAt` | contrib/gauss_connector/deparse.cpp:2026-2032 | without a list every number is the placeholder of its type, and nothing else changes |
| `RemoteParams.DigitsAreDecimal` | contrib/gauss_connector/deparse.cpp:1441-1485 | the numbers in subquery column names are decimal |
| `RemoteParams.ReprintIsStable` | contrib/gauss_connector/deparse.cpp:1378-1610 | printing again over the finished list or any extension of it appends nothing and prints the same text |

## Left out

- Levenshtein.Levenshtein: costs and distances are unbounded integers; 32-bit overflow is not modelled.
- Multibyte walking in levenshtein.cpp (cached character lengths, rest_of_char_same): strings are sequences of characters.
- HStoreSplit.PickSplit: the order by cost is any permutation of the positions; that qsort sorts by cost is not used by any result.
- VarKeySupport.PickSplit: qsort is given as a permutation that sorts; pages of fewer than two entries are left out, as one side's key would then not exist.
- NumKey.PickSplit: qsort is given as a permutation that sorts.
- VarKeyLoss.NoRowLost: a key that a split of an internal page has just produced must have been cut safely; KeyLosesNothingIff shows that otherwise some page loses a stored value.
- CubeTree.NoRowLost: contained-by needs the query to reach zero in the dimensions the box lacks; ContainedByLosesNothingIff shows the condition to be exact.
- HStoreCompat.Upgrade: the build that defines HSTORE_IS_HSTORE_NEW and the warnings of ambiguous values are not modelled, nor is detoasting; whether a copy was made by detoasting is a parameter.
- btree_gist for text (multibyte lengths, collations) and bit strings (leaf-to-node conversion), penalties, and key types without a distance; numeric types are reals.
- Index keys larger than the allocator's limit, and allocation itself; memory that palloc leaves uninitialised holds arbitrary bytes.
- Floating point: cube coordinates and costs are reals, so rounding, infinities and NaN do not occur; the balance term of the hstore split is compared exactly in units of 1/10000, and the square root of cube_distance is not taken.
- hstore text input and output, search by key, set operations other than copying a subsequence, securec error paths, and errors for unknown strategies.
- ghstore and cube penalties, and the GiST core that calls these functions.
- Null pointers that cube functions test for.
- Pushdown: catalog lookups (built-in objects, the sort operators of a type, relation membership) are parameters of the server; missing nodes are not modelled.
- Deparsing of coordinator queries (simpleDeparseVar, aggregates), the text of constants and names looked up in the catalog, which are given as text.
- Foreign scan: remote errors, vectorised scans, tuple conversion, connection handling and EXPLAIN; the remote cursor is reliable.
- metaphone, soundex, earthdistance, intarray, dblink and the remaining contrib modules: rule tables, wrappers and input/output, which would add only easier members.
