# Succinct rank/select bit vector — a Dafny model

This project models the core of a succinct bit vector library written in Java.
The library builds an index over an immutable bit buffer. The index answers three queries:

- `access(i)`: the bit at position i.
- `rank(i, bit)`: how many positions in [0, i) hold `bit`.
- `select(k, bit)`: the position of the k-th occurrence of `bit`.

There are two implementations:

- A naive one that scans the buffer on every query.
- An efficient one that builds its tables in a single sweep over the buffer:
  - a rank table with one 296-byte record per superblock of 65536 bits. A record holds the ones before the superblock, an 8-bit count per 256-bit block and an overflow bit set for blocks that are full.
  - a select table of 12-byte records. Each record holds one 48-bit entry per bit value. In the corrected build, entry j names the superblock where the count of that bit first reaches 65536 (j + 1). The zero-list test the source writes at line 150 of `EfficientBitVector.java` can name a later superblock or miss the crossing (see Findings).

The model also covers the two text helpers the command-line driver uses (`indexOf`, `parseLong`). It covers the driver's parsing of instruction lines and its packing of the `0`/`1` bit string into longs.

Modules, following the Java classes:

| module | file | models |
|---|---|---|
| `Results`, `Bytes` | results.dfy, bytes.dfy | error results, unsigned bytes, bit extraction and popcount |
| `BitPrefix` | prefix.dfy | the reference meaning of every query: `Ones`/`Count` over a bit prefix, `BitAt` |
| `Naive` | naive.dfy | `NaiveBitVector`: rank, select, access, toString, memoryUsage |
| `RankIndex` | rankindex.dfy | rank records: block counts, `sumPairwise`, `sumBlocksUntil`, `countBits` |
| `SelectCodec` | selectcodec.dfy | the 12-byte select record: `setSelect`, `getSelect` |
| `Build` | build.dfy | `createEfficientBitVector`, `flushOverflowBitset`, with the select table corrected (see Findings) |
| `Efficient` | efficient.dfy | `EfficientBitVector`: rank, select (both phases), access, memoryUsage |
| `Agreement` | agreement.dfy | the efficient engine against the naive reference |
| `BuildAsWritten` | findings.dfy | the build and select steps exactly as the source writes them, with the inputs that break them |
| `MemorySupport` | memorysupport.dfy | `indexOf`, `parseLong` with 64-bit wrap-around |
| `Instructions` | instructions.dfy | `parseInstructions` and a renderer for its line format |
| `Loader` | loader.dfy | `loadBitVector`: chunk parse, `Long.reverse`, the alignment shift, the store |

Modelling conventions:

- A memory access outside a segment becomes `Failure(OutOfBounds)`. Byte offsets use Java's truncating division (`Bytes.JavaDiv`), so `access` at an index from -7 to -1 reads byte 0.
- A failing Java `assert` becomes `Failure(AssertionFailed)`: assertions are modelled as enabled.
- A rejected size becomes `Failure(BadSize)`.
- Where an assert only guards a query's arguments (`rank`, `select`), it is a `requires`. `RankChecked` models the unguarded call.
- Java `long` arithmetic is unbounded in Dafny. It is wrapped explicitly where it can overflow: `Wrap64` in `parseLong`, and the 48-bit select entry.
- The vector species is fixed at 256 bits, so a block is 32 bytes.
- `getSelect` combines its two halves with `|`. The low half is an unsigned char and the high half is shifted left by 16, so this is modelled as `+`.
- In the corrected build, a select-table entry j names the superblock in which the bit's count first reaches 65536 (j + 1), not the one that exceeds 65536 j. The ones list follows the source's crossing test exactly. The zero list follows it only once the test at line 150 is corrected. `BuildAsWritten.ZeroTriggersAsWritten` keeps the literal test.
- `rank` is exclusive of position i, as the code computes it. Some test assertions in the repository expect the inclusive count; those are not modelled.

## Model

| member | source | states |
|---|---|---|
| BitPrefix.OnesInByte | src/main/java/de/sirywell/bitvectors/EfficientBitVector.java:189-192 | masking the target byte with the bits below `index & 7` adds exactly the ones of that byte below the index to the prefix count |
| BitPrefix.ByteOnesIsOnes | src/main/java/de/sirywell/bitvectors/NaiveBitVector.java:34-47 | popcount over the whole bytes [a, b) equals the ones in bit positions [8a, 8b) |
| BitPrefix.CountMonotone | src/main/java/de/sirywell/bitvectors/NaiveBitVector.java:53-56 | the rank of either bit never decreases with the index, and the zero rank is the index minus the one rank |
| BitPrefix.CountStep | src/main/java/de/sirywell/bitvectors/NaiveBitVector.java:62-65 | moving the index by one raises the rank by one exactly when that position holds the bit |
| Naive.CompressSingleBit | src/main/java/de/sirywell/bitvectors/NaiveBitVector.java:97 | `Integer.compress` with the single-bit mask `1 << k` yields bit k of the byte |
| Naive.Rank | src/main/java/de/sirywell/bitvectors/NaiveBitVector.java:25-57 | the result is the number of positions in [0, index) holding `bit` |
| Naive.Access | src/main/java/de/sirywell/bitvectors/NaiveBitVector.java:94-98 | access succeeds exactly when the byte `index / 8`, with Java's truncating division, lies in the buffer: for -8 < index < 8 * (byte length) on a non-empty buffer; it then returns the bit at the index, and for an index from -7 to -1 the bit at index + 8, which `index & 7` selects in byte 0 |
| Naive.Select | src/main/java/de/sirywell/bitvectors/NaiveBitVector.java:60-91 | returns i - 1 for the least i in [1, bitSize) whose rank is k; returns -1 exactly when no such i exists |
| Naive.SelectFindsOccurrence | src/main/java/de/sirywell/bitvectors/NaiveBitVector.java:62-65 | a position select returns holds the bit and is preceded by k - 1 occurrences of it |
| Naive.ToString | src/main/java/de/sirywell/bitvectors/NaiveBitVector.java:118-124 | bitSize characters, character l is '1' exactly when bit l is set |
| Naive.MemoryUsage | src/main/java/de/sirywell/bitvectors/NaiveBitVector.java:101-103 | the buffer's byte size; Agreement.MemoryOverhead relates it to the efficient engine's |
| Naive.AccessSmall | src/test/java/de/sirywell/bitvectors/BitVectorTest.java:49-60 | on the long 0b100110101110001, access gives 1, 0, 1, 1, 0 at 0, 1, 4, 5, 7 |
| RankIndex.BlockCountIsOnes | src/main/java/de/sirywell/bitvectors/EfficientBitVector.java:135-140 | the masked 32-byte popcount of block j is the number of ones in bits [256j, 256j + 256), at most 256 |
| RankIndex.NineBitSplit | src/main/java/de/sirywell/bitvectors/EfficientBitVector.java:141-144 | a block count of 0 to 256 is recovered from its stored low byte plus 256 when its overflow bit is set |
| RankIndex.SumPairwise | src/main/java/de/sirywell/bitvectors/EfficientBitVector.java:246-256 | short lane k is the sum of bytes 2k and 2k + 1, read unsigned |
| RankIndex.SumPairwiseTotal | src/main/java/de/sirywell/bitvectors/EfficientBitVector.java:246-256 | pairing the bytes into short lanes keeps their total |
| RankIndex.WindowSum | src/main/java/de/sirywell/bitvectors/EfficientBitVector.java:222-225 | the masked byte loads of the first m block counts sum to those m stored bytes |
| RankIndex.SplitTrueSum | src/main/java/de/sirywell/bitvectors/EfficientBitVector.java:226-236 | the count of the first m blocks is their stored bytes plus 256 per overflow bit set among them |
| RankIndex.SumBlocksUntil | src/main/java/de/sirywell/bitvectors/EfficientBitVector.java:218-238 | the lane sum masked to 16 bits plus 256 per counted overflow bit equals the true count of the first m blocks |
| RankIndex.TrueSumIsOnes | src/main/java/de/sirywell/bitvectors/EfficientBitVector.java:218-238 | on a record the build wrote, the block sum is the number of ones from the superblock start to the end of block m |
| RankIndex.CountBits | src/main/java/de/sirywell/bitvectors/EfficientBitVector.java:204-216 | the masked load from the block start to the target byte counts the ones in exactly those bytes |
| SelectCodec.SetSelect | src/main/java/de/sirywell/bitvectors/EfficientBitVector.java:317-321 | writing one entry leaves the six bytes of the other entry unchanged |
| SelectCodec.SetSelectBytes | src/main/java/de/sirywell/bitvectors/EfficientBitVector.java:317-321 | the char half holds the value mod 2^16 and the int half the 32 bits of `value >>> 16` |
| SelectCodec.HighHalf | src/main/java/de/sirywell/bitvectors/EfficientBitVector.java:320 | the low 32 bits of the unsigned shift by 16 are those of the floor quotient by 2^16 |
| SelectCodec.SelectRoundTrip | src/main/java/de/sirywell/bitvectors/EfficientBitVector.java:311-321 | getSelect returns the long setSelect stored exactly when it lies in [-2^47, 2^47) |
| SelectCodec.SelectIndependent | src/main/java/de/sirywell/bitvectors/EfficientBitVector.java:89-99 | the two entries of a record do not overlap: writing one never changes what the other reads |
| SelectCodec.EmptyRecordReadsZero | src/main/java/de/sirywell/bitvectors/EfficientBitVector.java:123 | a record never written, in zeroed arena memory, reads 0 for both bits |
| Build.RunningOnesIsOnes | src/main/java/de/sirywell/bitvectors/EfficientBitVector.java:145-154 | the running `onesSum` after J blocks is the number of ones in the first 256J bits |
| Build.OnesStep | src/main/java/de/sirywell/bitvectors/EfficientBitVector.java:145-149 | a block appends its superblock to the ones list exactly when the running count moves into a new multiple of 65536 |
| Build.ZerosStep | src/main/java/de/sirywell/bitvectors/EfficientBitVector.java:150-153 | a block appends its superblock to the zero list exactly when the zero count moves into a new multiple of 65536 (corrected; as written: BuildAsWritten.ZeroTriggersAsWritten) |
| Build.OnesTriggersCount | src/main/java/de/sirywell/bitvectors/EfficientBitVector.java:145-149 | after J blocks the ones list has one entry per multiple of 65536 ones reached |
| Build.ZeroTriggersCount | src/main/java/de/sirywell/bitvectors/EfficientBitVector.java:150-153 | after J blocks the zero list has one entry per multiple of 65536 zeros reached (corrected; as written: BuildAsWritten.ZeroTriggersAsWritten) |
| Build.TriggersSorted | src/main/java/de/sirywell/bitvectors/EfficientBitVector.java:146-153 | both lists are non-decreasing superblock indices below the superblocks swept |
| Build.OnesTriggers | src/main/java/de/sirywell/bitvectors/EfficientBitVector.java:145-149 | the ones list the block loop collects; its meaning is stated by Build.OnesTriggersCount, Build.OnesTriggerLocates and Build.TriggersSorted |
| Build.ZeroTriggers | src/main/java/de/sirywell/bitvectors/EfficientBitVector.java:150-153 | the zero list with the line-150 test corrected; its meaning is stated by Build.ZeroTriggersCount, Build.ZeroCrossing and Build.TriggersSorted (corrected; as written: BuildAsWritten.ZeroTriggersAsWritten) |
| Build.OnesTriggerLocates | src/main/java/de/sirywell/bitvectors/EfficientBitVector.java:145-149 | entry j of the ones list is the superblock holding the one of rank 65536 (j + 1) |
| Build.SuperblockForMatches | src/main/java/de/sirywell/bitvectors/EfficientBitVector.java:128-157 | the record written for superblock s holds the ones before s, each block's low count byte and the full-block flags rank reads |
| Build.SelectTableReads | src/main/java/de/sirywell/bitvectors/EfficientBitVector.java:147-159 | record j of the table reads back entry j of each bit's list, or 0 past the list's end |
| Build.TriggersCount | src/main/java/de/sirywell/bitvectors/EfficientBitVector.java:145-153 | the superblock list for either bit has one entry per multiple of 65536 occurrences of that bit reached (corrected; as written: BuildAsWritten.ZeroTriggersAsWritten) |
| Build.TriggerLocates | src/main/java/de/sirywell/bitvectors/EfficientBitVector.java:145-153 | entry j of either list is a superblock before which fewer than 65536 (j + 1) occurrences lie and within which that many are reached (corrected; as written: BuildAsWritten.ZeroTriggersAsWritten) |
| Build.ZeroCrossing | src/main/java/de/sirywell/bitvectors/EfficientBitVector.java:150-153 | the block that appends entry j to the zero list is the one in which the zero count crosses 65536 (j + 1) (corrected; as written: BuildAsWritten.ZeroTriggersAsWritten) |
| Build.BuildSelectTable | src/main/java/de/sirywell/bitvectors/EfficientBitVector.java:147-159 | the built table has n + 1 records; record j reads entry j of each list, or the sentinel n - 1 right after the list |
| Build.BuildSpec | src/main/java/de/sirywell/bitvectors/EfficientBitVector.java:120-161 | a successful build keeps the buffer and bitSize and has ceilDiv(bitSize, 65536) rank records and one select record more; Build.BuildSucceeds, Build.BuildValid and Build.BuildSelectTable state the rest |
| Build.BuildSucceeds | src/main/java/de/sirywell/bitvectors/EfficientBitVector.java:158-159 | with n + 1 select records, neither list with its sentinel overruns the table |
| Build.BuildValid | src/main/java/de/sirywell/bitvectors/EfficientBitVector.java:120-161 | a build of one or more bits yields an engine whose every record matches the buffer and whose select entries are superblock indices |
| Build.OnesBeforeMonotone | src/main/java/de/sirywell/bitvectors/EfficientBitVector.java:129 | the superblock values stored in the rank table never decrease |
| Build.BuildMemoryUsage | src/main/java/de/sirywell/bitvectors/EfficientBitVector.java:339-341 | memory is the buffer plus 296 bytes per superblock plus 12 per select record |
| Build.LongArray | src/main/java/de/sirywell/bitvectors/EfficientBitVector.java:164 | `toLongArray`: bit i of word w is set exactly when 64w + i is in the set, at most four words |
| Build.FlushOverflowBitset | src/main/java/de/sirywell/bitvectors/EfficientBitVector.java:163-168 | the record's 256 flags are exactly the set's members, and the set is left empty |
| Build.ScanSuperblock | src/main/java/de/sirywell/bitvectors/EfficientBitVector.java:130-155 | one superblock's block loop: its count bytes, its full blocks, the running count and both lists extended by that superblock |
| Build.FillRankTable | src/main/java/de/sirywell/bitvectors/EfficientBitVector.java:128-157 | the superblock loop writes every record and collects both complete lists |
| Build.Create | src/main/java/de/sirywell/bitvectors/EfficientBitVector.java:120-161 | the build as a loop produces exactly the specified engine |
| Efficient.MemoryUsage | src/main/java/de/sirywell/bitvectors/EfficientBitVector.java:339-341 | the buffer plus both tables; Build.BuildMemoryUsage and Agreement.MemoryOverhead state its value for a built engine |
| Efficient.CeilDiv | src/main/java/de/sirywell/bitvectors/EfficientBitVector.java:121 | the least r with d * r at least a |
| Efficient.Access | src/main/java/de/sirywell/bitvectors/EfficientBitVector.java:333-336 | as for the naive access: success exactly for -8 < index < 8 * (byte length) on a non-empty buffer, the bit at the index, or at index + 8 for a negative index; any other index fails as the out-of-bounds read |
| Efficient.RankTerms | src/main/java/de/sirywell/bitvectors/EfficientBitVector.java:182-193 | superblock value, block sum, `countBits` and the masked last byte add up to the ones before the index |
| Efficient.Rank | src/main/java/de/sirywell/bitvectors/EfficientBitVector.java:179-198 | the result is the number of positions in [0, index) holding `bit` |
| Efficient.RankChecked | src/main/java/de/sirywell/bitvectors/EfficientBitVector.java:180-189 | rank fails exactly when an assert or a table read fails, and otherwise returns the count |
| Efficient.ToRank | src/main/java/de/sirywell/bitvectors/EfficientBitVector.java:274-279 | `toRank` of superblock c is the count of the bit before bit 65536c |
| Efficient.ToRankMonotone | src/main/java/de/sirywell/bitvectors/EfficientBitVector.java:280-287 | `toRank` never decreases over superblocks, the order the binary search needs |
| Efficient.SelectEntry | src/main/java/de/sirywell/bitvectors/EfficientBitVector.java:311-315 | reading a select entry succeeds exactly inside the table and yields a superblock index |
| Efficient.FirstSuperblockReaching | src/main/java/de/sirywell/bitvectors/EfficientBitVector.java:280-287 | the first superblock in [lo, hi) whose `toRank` reaches k, or hi when none does |
| Efficient.LocateSuperblock | src/main/java/de/sirywell/bitvectors/EfficientBitVector.java:280-287 | the binary search returns that first superblock |
| Efficient.StepBack | src/main/java/de/sirywell/bitvectors/EfficientBitVector.java:288-291 | steps back when past the last record, else exactly when that superblock's `toRank` reaches k (corrected; as written: BuildAsWritten.StepBackAsWritten) |
| Efficient.Phase1 | src/main/java/de/sirywell/bitvectors/EfficientBitVector.java:271-291 | phase 1 answers a superblock index from -1 to the last record; Efficient.Phase1At and Agreement.SelectPhase1 state which one |
| Efficient.Phase1Succeeds | src/main/java/de/sirywell/bitvectors/EfficientBitVector.java:271-291 | with readable entries, phase 1 is the binary search's result stepped back when required |
| Efficient.SuperblockOf | src/main/java/de/sirywell/bitvectors/EfficientBitVector.java:271-291 | phase 1 as a method gives the result of the phase-1 function |
| Efficient.RankProbe | src/main/java/de/sirywell/bitvectors/EfficientBitVector.java:298 | one rank probe of select, computed with the table walk, fails or succeeds exactly as the checked rank does and returns the count |
| Efficient.FirstSuperblockReachingIs | src/main/java/de/sirywell/bitvectors/EfficientBitVector.java:280-287 | the superblock search result is the only index meeting its description |
| Efficient.Phase1At | src/main/java/de/sirywell/bitvectors/EfficientBitVector.java:271-291 | when the table entries bracket superblock c and c is the first from the lower entry whose start reaches k, phase 1 answers c - 1 |
| Efficient.Phase2Search | src/main/java/de/sirywell/bitvectors/EfficientBitVector.java:294-304 | the phase-2 binary search as a function; Efficient.Phase2SearchFinds and Efficient.Phase2SearchFails state what it finds and when it fails |
| Efficient.Phase2SearchFails | src/main/java/de/sirywell/bitvectors/EfficientBitVector.java:296-304 | the phase-2 search fails only on a non-empty range at whose last position rank is undefined |
| Efficient.Phase2SearchFinds | src/main/java/de/sirywell/bitvectors/EfficientBitVector.java:296-304 | a successful phase-2 search returns the first position of the range whose rank reaches k, or the range's end when none does |
| Efficient.LocateBit | src/main/java/de/sirywell/bitvectors/EfficientBitVector.java:294-304 | the binary-search loop over the superblock's bits, probing rank at each midpoint, returns the first position of the range whose rank reaches k (the range's end when none does), and fails only when rank is undefined at the range's last position; its result is the phase-2 search's |
| Efficient.Phase2SearchMeaning | src/main/java/de/sirywell/bitvectors/EfficientBitVector.java:296-304 | the phase-2 search's outcome, success and failure together: the first position reaching k, or a failure at a range whose last position has no rank |
| Efficient.Phase2End | src/main/java/de/sirywell/bitvectors/EfficientBitVector.java:295 | the end of phase 2's range is the end of the superblock or bitSize, whichever comes first, and never past either |
| Efficient.SelectSpec | src/main/java/de/sirywell/bitvectors/EfficientBitVector.java:267-309 | select as a function; Efficient.SelectSpecResult states its result and Agreement.SelectAgrees its agreement with the naive select |
| Efficient.SelectFinish | src/main/java/de/sirywell/bitvectors/EfficientBitVector.java:305-308 | the last probe succeeds exactly when rank is defined at l, and select then returns l - 1 when the count before l is exactly k and l - 2 otherwise |
| Efficient.SelectSpecResult | src/main/java/de/sirywell/bitvectors/EfficientBitVector.java:267-309 | a -1 from phase 1 makes select fail; a successful select went through phase 1 to superblock sb >= 0 and phase 2 to the first position l whose rank reaches k, and returns l - 1 when rank(l) is exactly k and l - 2 otherwise |
| Efficient.FinishSelect | src/main/java/de/sirywell/bitvectors/EfficientBitVector.java:305-308 | the final probe and step back, as a method, give what the select function specifies |
| Efficient.Select | src/main/java/de/sirywell/bitvectors/EfficientBitVector.java:267-309 | select as a method, phase 1 then phase 2 then the step back, returns what the select function specifies |
| Agreement.AccessAgrees | src/main/java/de/sirywell/bitvectors/EfficientBitVector.java:333-336 | efficient access equals naive access on the same buffer at every index, failures included |
| Agreement.RankAgrees | src/main/java/de/sirywell/bitvectors/EfficientBitVector.java:179-198 | efficient rank equals naive rank wherever the rank table covers the index |
| Agreement.RankStep | src/main/java/de/sirywell/bitvectors/NaiveBitVector.java:25-57 | the rank of ones rises by the accessed bit and the rank of zeros by its complement |
| Agreement.CountBelowFirst | src/main/java/de/sirywell/bitvectors/NaiveBitVector.java:60-91 | below the first position whose count is k, every count stays below k, since counts grow by at most one per step |
| Agreement.ReachesFrom | src/main/java/de/sirywell/bitvectors/NaiveBitVector.java:60-91 | the positions whose count reaches k are exactly those from the first position of count k on |
| Agreement.TriggersCover | src/main/java/de/sirywell/bitvectors/EfficientBitVector.java:271-272 | the select-table row k / 65536 exists whenever some position below bitSize has count k |
| Agreement.BuiltTable | src/main/java/de/sirywell/bitvectors/EfficientBitVector.java:147-159 | the built select table has n + 1 records; its entries for a bit read that bit's superblock list, then n - 1 |
| Agreement.UpperEntry | src/main/java/de/sirywell/bitvectors/EfficientBitVector.java:272 | the upper select entry names a superblock whose end is at or past the first position of count k |
| Agreement.LowerEntry | src/main/java/de/sirywell/bitvectors/EfficientBitVector.java:273 | the lower select entry names a superblock starting before the first position of count k |
| Agreement.SelectPhase1 | src/main/java/de/sirywell/bitvectors/EfficientBitVector.java:271-291 | phase 1 picks the superblock holding the position just before the first position of count k |
| Agreement.SearchFindsP | src/main/java/de/sirywell/bitvectors/EfficientBitVector.java:294-304 | over a window holding the first position of count k, with rank defined at the window's end, phase 2 finds that position |
| Agreement.SelectPhase2 | src/main/java/de/sirywell/bitvectors/EfficientBitVector.java:294-304 | phase 2 over the picked superblock finds the first position of count k |
| Agreement.SelectAgrees | src/main/java/de/sirywell/bitvectors/EfficientBitVector.java:267-309 | on a built engine, whenever the naive select answers r for k >= 1, the efficient select answers r as well |
| Agreement.MemoryOverhead | src/main/java/de/sirywell/bitvectors/EfficientBitVector.java:339-341 | the efficient engine uses the naive vector's bytes plus 296 per superblock and 12 per select record |
| Bytes.JavaDiv | src/main/java/de/sirywell/bitvectors/EfficientBitVector.java:150 | Java's long division rounds toward zero: the remainder takes the dividend's sign and is smaller than the divisor |
| Bytes.JavaByteIndex | src/main/java/de/sirywell/bitvectors/NaiveBitVector.java:96 | the byte `index / 8` of an n-byte buffer exists exactly when n > 0 and -8 < index < 8n; it is the floor quotient for a non-negative index and byte 0 for an index from -7 to -1 |
| BuildAsWritten.ZeroTriggersAsWritten | src/main/java/de/sirywell/bitvectors/EfficientBitVector.java:150-153 | the zero list with the line-150 test as written; BuildAsWritten.ZeroListAsWrittenWrong shows an input where it differs from the corrected list |
| BuildAsWritten.BuildAsWritten | src/main/java/de/sirywell/bitvectors/EfficientBitVector.java:120-161 | the literal build fails exactly when either list, without its sentinel, already fills the n records |
| BuildAsWritten.OnesListOverflows | src/main/java/de/sirywell/bitvectors/EfficientBitVector.java:123 | the ones list fills all n records exactly when every bit of the n superblocks is 1 |
| BuildAsWritten.AllOnesBuildFails | src/main/java/de/sirywell/bitvectors/EfficientBitVector.java:158 | a 65536-bit vector of ones makes the sentinel write fail, while the corrected build succeeds |
| BuildAsWritten.ZeroListAsWrittenWrong | src/main/java/de/sirywell/bitvectors/EfficientBitVector.java:150-153 | on 65536 zeros then 768 ones the literal zero list is [1, 1, 1] where one entry, [0], is due, and the build fails |
| BuildAsWritten.StepBackAsWritten | src/main/java/de/sirywell/bitvectors/EfficientBitVector.java:288-291 | the literal guard reads the record at lo exactly when lo is not past `bitSize / 65536`, failing when that record does not exist |
| BuildAsWritten.Phase1AsWritten | src/main/java/de/sirywell/bitvectors/EfficientBitVector.java:271-291 | whenever the literal phase 1 succeeds, it agrees with the corrected one |
| BuildAsWritten.StepBackPastTable | src/main/java/de/sirywell/bitvectors/EfficientBitVector.java:288-289 | on a 65536-bit vector, select for any 1 <= k < 65536 fails in phase 1 as written, while the corrected phase 1 gives superblock 0 |
| BuildAsWritten.Phase2EndAsWritten | src/main/java/de/sirywell/bitvectors/EfficientBitVector.java:295 | the literal end of phase 2 differs from the corrected one only when it is bitSize + 1 and the corrected end is bitSize |
| BuildAsWritten.SelectSpecAsWritten | src/main/java/de/sirywell/bitvectors/EfficientBitVector.java:267-309 | select as written: the literal step back of phase 1 (BuildAsWritten.Phase1AsWritten) and phase 2 ending at bitSize + 1; BuildAsWritten.SelectAsWrittenFails and BuildAsWritten.LastProbeFails show inputs where it fails and the corrected select does not |
| BuildAsWritten.AllOnesPrefix | src/main/java/de/sirywell/bitvectors/EfficientBitVector.java:179-198 | in a buffer of 0xFF bytes, the count of ones before i is i |
| BuildAsWritten.AllOnesSearchFails | src/main/java/de/sirywell/bitvectors/EfficientBitVector.java:296-304 | on 192 set bits, the literal phase-2 search for k = 191 probes 96, 145, 169, 181, 187 and 190, then rank(192), which fails |
| BuildAsWritten.LastProbeFails | src/main/java/de/sirywell/bitvectors/EfficientBitVector.java:295 | on 24 bytes of 0xFF, select(191, 1) fails as written while the corrected select returns 190 |
| BuildAsWritten.SelectAsWrittenFails | src/main/java/de/sirywell/bitvectors/EfficientBitVector.java:288-289 | select(1, 1) on 8192 zero bytes fails as written with OutOfBounds, at the read of the missing superblock record in the step back |
| MemorySupport.IndexOf | src/main/java/de/sirywell/bitvectors/MemorySupport.java:12-19 | the first position at or after start holding b; -1 exactly when there is none |
| MemorySupport.Wrap64 | src/main/java/de/sirywell/bitvectors/MemorySupport.java:33 | the long congruent to x modulo 2^64; x itself when x is a long |
| MemorySupport.WrapStep | src/main/java/de/sirywell/bitvectors/MemorySupport.java:33 | wrapping after every Horner step gives the same long as wrapping once at the end |
| MemorySupport.ParseLong | src/main/java/de/sirywell/bitvectors/MemorySupport.java:28-36 | succeeds exactly when every position of the range holds a digit below the radix, and returns the digits' value wrapped to a long |
| MemorySupport.ParseLongError | src/main/java/de/sirywell/bitvectors/MemorySupport.java:30-32 | the first bad position decides the error: out of the file, or a failed digit assertion |
| MemorySupport.ParseLongSplit | src/main/java/de/sirywell/bitvectors/MemorySupport.java:28-36 | parsing a digit range split at m gives the first part's value scaled by radix to the length of the second, plus the second's value |
| MemorySupport.DecRoundTrip | src/main/java/de/sirywell/bitvectors/MemorySupport.java:28-36 | parsing the decimal rendering of a non-negative long gives that long back |
| Instructions.TailField | src/main/java/de/sirywell/bitvectors/Main.java:88-90 | the field ends at the next newline, and reading it succeeds exactly when it is all decimal digits |
| Instructions.ParseLine | src/main/java/de/sirywell/bitvectors/Main.java:86-111 | an unknown first byte leaves the slot empty and the line start unchanged; a parsed line ends just past a newline |
| Instructions.ParseAll | src/main/java/de/sirywell/bitvectors/Main.java:85-113 | the loop fills exactly count slots |
| Instructions.ParseInstructions | src/main/java/de/sirywell/bitvectors/Main.java:82-84 | a count outside the int range is rejected; otherwise there are exactly n slots |
| Instructions.StuckLine | src/main/java/de/sirywell/bitvectors/Main.java:86-112 | after a line with an unknown first byte, every later slot stays empty |
| Instructions.TailFieldRoundTrip | src/main/java/de/sirywell/bitvectors/Main.java:88-92 | a decimal number followed by a newline reads back as that number and ends at that newline |
| Instructions.BitFieldRoundTrip | src/main/java/de/sirywell/bitvectors/Main.java:95-96 | a single '0' or '1' reads as that bit |
| Instructions.AccessLineAt | src/main/java/de/sirywell/bitvectors/Main.java:87-93 | an `access` line parses to its index |
| Instructions.RankLineAt | src/main/java/de/sirywell/bitvectors/Main.java:94-102 | a `rank` line parses to its bit and index |
| Instructions.SelectLineAt | src/main/java/de/sirywell/bitvectors/Main.java:103-111 | a `select` line parses to its bit and rank |
| Instructions.ParseLineRoundTrip | src/main/java/de/sirywell/bitvectors/Main.java:86-111 | parsing a rendered instruction line gives the instruction back and moves past its newline |
| Instructions.SomesSlots | src/main/java/de/sirywell/bitvectors/Main.java:85-113 | slot k of a fully parsed list holds instruction k |
| Instructions.RenderedLines | src/main/java/de/sirywell/bitvectors/Main.java:85-113 | a rendered list sits in the file as one rendered line after the other |
| Instructions.ParseLinesRoundTrip | src/main/java/de/sirywell/bitvectors/Main.java:85-113 | parsing rendered lines, line after line, fills every slot with its instruction, in order |
| Instructions.ParseAllRoundTrip | src/main/java/de/sirywell/bitvectors/Main.java:82-115 | parsing the rendering of a list of instructions gives every instruction back, in order |
| Loader.Reverse | src/main/java/de/sirywell/bitvectors/Main.java:72 | `Long.reverse`: bit k of the result is bit 63 - k of the argument |
| Loader.ShiftRightLogical | src/main/java/de/sirywell/bitvectors/Main.java:74 | `>>>`: bit k of the result is bit k + s, with zeros above |
| Loader.StoreLong | src/main/java/de/sirywell/bitvectors/Main.java:77 | the store succeeds exactly when the long lies in the segment; it writes those eight bytes and keeps every other |
| Loader.CeilDiv64 | src/main/java/de/sirywell/bitvectors/Main.java:66 | `Math.ceilDiv(x, 64)` rounds toward positive infinity |
| Loader.LoadBitVector | src/main/java/de/sirywell/bitvectors/Main.java:64-80 | the buffer holds ceilDiv(vecLen, 64) longs; a negative count is rejected |
| Loader.ParsedPattern | src/main/java/de/sirywell/bitvectors/Main.java:71 | the long a chunk parses to has, as its bit pattern, the chunk's binary value |
| Loader.ShiftedChunk | src/main/java/de/sirywell/bitvectors/Main.java:73-75 | the last chunk, shifted by (64 - vecLen) mod 64, starts at bit 0 |
| Loader.PackChunk | src/main/java/de/sirywell/bitvectors/Main.java:70-75 | a parsed chunk packs into 64 bits; Loader.ChunkBits states that bit k is character k of the chunk and 0 above it |
| Loader.LoadChunks | src/main/java/de/sirywell/bitvectors/Main.java:69-78 | the chunk loop keeps the segment's length; Loader.LoadRoundTrip states the buffer's contents |
| Loader.ChunkBits | src/main/java/de/sirywell/bitvectors/Main.java:70-75 | bit k of the packed word is character k of the chunk, and 0 above the chunk |
| Loader.StoreLongBits | src/main/java/de/sirywell/bitvectors/Main.java:77 | storing a word at long c rewrites bits [64c, 64c + 64) with its bits and keeps every other |
| Loader.LoadRoundTrip | src/main/java/de/sirywell/bitvectors/Main.java:64-80 | with the chunk number as the store address, bit j of the buffer is character j of the bit string, and 0 in the padding |
| Loader.LoadToStringRoundTrip | src/main/java/de/sirywell/bitvectors/NaiveBitVector.java:118-124 | the naive vector over the loaded buffer prints back the bit string it was loaded from |
| Loader.LoadAsWrittenFails | src/main/java/de/sirywell/bitvectors/Main.java:77 | with the character offset as the store address, a bit string of 65 to 4096 characters fails at the second store |
| Loader.LoadAsWrittenShort | src/main/java/de/sirywell/bitvectors/Main.java:77 | up to 64 characters, both store addresses give the same buffer |

## Left out

- SIMD vectors, masked loads and lane reductions are modelled by their arithmetic effect on whole sequences. The species is fixed at 256 bits.
- Foreign memory, arenas and alignment are modelled as immutable byte sequences; `close()` has no model.
- The driver's file mapping, its header parsing, timing and output printing are I/O and are left out. So are `print(PrintStream)`, `InputGenerator` and the benchmark code.
- Naive.MemoryUsage and Efficient.MemoryUsage carry no contract of their own. Agreement.MemoryOverhead relates the two for every built engine.
- Storage is assumed little-endian. `Loader.LongBytes` and the `Le16`/`Le32` codecs of `SelectCodec` fix that byte order, which the source leaves to the platform's native order. Loader.StoreLongBits, Loader.LoadRoundTrip and Naive.AccessSmall rely on it. A big-endian platform is not modelled.
- Efficient.SelectSpec: the corrected select keeps the final probe `rank(l)` at line 305. When the k-th occurrence is the last bit of a buffer whose bit length equals bitSize, that probe is rank(bitSize) and fails its assertion. The model keeps that failure, as the source has it.
- Build.OnesTriggers, Build.ZeroTriggers, BuildAsWritten.ZeroTriggersAsWritten, Efficient.Phase2Search, Efficient.SelectSpec and BuildAsWritten.SelectSpecAsWritten carry no contract of their own. The lemmas named in their rows state their meaning.
- Efficient.Select: its contract names the select function, whose meaning SelectSpecResult states. Agreement.SelectAgrees proves agreement with the naive select only where the naive select finds a position, for k >= 1. Select(0, bit) always fails, because phase 1 steps back to superblock -1, while the naive select can answer 0.
- Agreement.SelectAgrees: the naive select only inspects positions below bitSize, so it never returns the last bit. Where it returns -1, nothing is claimed about the efficient select.
- Efficient.Rank: requires the index to lie in a superblock that has a record, as the rank table read at line 184 demands. Efficient.RankChecked models the failing reads.
- The test assertions that expect an inclusive rank are not modelled: the code computes the exclusive rank.
- The Java `byte` read in `parseLong` is signed. A negative byte minus '0' fails the same digit assertion as the unsigned reading, so bytes are modelled as 0 to 255.
- The main model uses the corrected select table: n + 1 records, with the zero-list trigger corrected and the step back after phase 1 guarded by `lower >= nOfSuperBlocks`. It also ends phase 2 of select at bitSize rather than bitSize + 1 (see Findings). The literal build lives in `BuildAsWritten` next to the inputs that break it.

## Findings

| source | as written | input that shows it | evidently intended | confidence | as-written member | corrected member |
|---|---|---|---|---|---|---|
| src/main/java/de/sirywell/bitvectors/EfficientBitVector.java:123 | the select table has nOfSuperBlocks records, but the sentinel at line 158 is written after up to nOfSuperBlocks entries | 8192 bytes of 0xFF, bitSize 65536: one ones entry, then the sentinel at record 1 of a 1-record table | nOfSuperBlocks + 1 records | not executed | BuildAsWritten.AllOnesBuildFails | Build.BuildSucceeds |
| src/main/java/de/sirywell/bitvectors/EfficientBitVector.java:150 | `(block - onesSum) / S != (block - n) / S` subtracts the block's ones from the zeros before the block instead of adding its zeros | 8192 zero bytes then 96 bytes of 0xFF, bitSize 66304: the zero list becomes [1, 1, 1] and the build fails | compare `block - onesSum` with `block + 256 - n`, the zeros before and after the block | not executed | BuildAsWritten.ZeroListAsWrittenWrong | Build.ZeroTriggersCount |
| src/main/java/de/sirywell/bitvectors/EfficientBitVector.java:288-289 | steps back only when lower > bitSize / S, otherwise reads the superblock value at lower, even when lower equals the number of superblocks | any 65536-bit vector, select(1, 1): the search ends at superblock 1, and there is no record 1 | step back when lower >= nOfSuperBlocks | not executed | BuildAsWritten.StepBackPastTable | Efficient.StepBack |
| src/main/java/de/sirywell/bitvectors/EfficientBitVector.java:295 | phase 2 searches up to `bitSize + 1` exclusive, so it can probe `rank(bitSize)`, whose assertion needs an index below the buffer's bit length | 24 bytes of 0xFF, bitSize 192, select(191, 1): the probes end with rank(192) | end the range at bitSize | not executed | BuildAsWritten.LastProbeFails | Agreement.SelectAgrees |
| src/main/java/de/sirywell/bitvectors/Main.java:77 | stores chunk l at long index l, the character offset | a bit string of 65 characters: the second chunk goes to long 64 of a 2-long segment | long index l / 64 | not executed | Loader.LoadAsWrittenFails | Loader.LoadRoundTrip |
