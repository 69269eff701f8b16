# Cache lab: cache simulator and blocked matrix transpose

This project models the two graded parts of a CS:APP cache lab solution.

**Part A: `csim.c`, a trace-driven cache simulator.**
- The cache is a table of 2^s sets. Each set holds E lines of `{valid, lru, tag}`.
- Three global counters record hits, misses and evictions.
- `checkCache(address)` decodes the address into a tag and a set index. It then scans the set once. A valid line with the tag is a hit. Every other valid line it passes ages by one. The last free line it saw, and the line with the largest age, are remembered.
- On a miss it fills the free line. If there is none, it overwrites the line with the largest age.
- The simulator loop skips instruction records. `L` and `S` call `checkCache` once. `M` calls it once and then counts one more hit.

**Part B: `trans.c`, matrix transpose kernels B = Aᵀ.**
- `trans` is the plain row-wise transpose.
- `transpose_submit` is a blocked transpose. It has one tiling for N = 32, one for N = 64 (which parks values in B and moves them later) and a clipped 16×16 tiling for every other size.
- `is_transpose` is the checker.

The files are:

- `cache_model.dfy` (module `CacheModel`) describes the simulator on values:
  - address decoding;
  - lines and sets;
  - `AccessSet`, which is what one `checkCache` does to one set;
  - `Step`, which is the same on the whole state with its counters;
  - `Dispatch` and `Run`, which process one trace record and a whole trace.
- `cache_lemmas.dfy` (module `CacheLemmas`) holds the properties of that model.
- `cache_examples.dfy` (module `CacheExamples`) holds worked examples on concrete sets and traces.
- `cache.dfy` (module `CacheSim`) is the imperative simulator:
  - class `Cache` owns the `array2<Line>` table and the three counters;
  - `CheckCache` and `Simulator` update them in place;
  - each is proved to leave exactly the state `Step` and `Run` describe, and to keep the invariant `Valid`: unique tags in every set, and evictions <= misses.
- `trans.dfy` (module `Trans`) holds the transpose kernels as loops over `array2<int>`. They are proved against the predicate `Transposed`.

Where the code and its textbook description differ, the model follows the code:
- **Fills.** A fill goes to the highest-indexed free line, because `empty` is overwritten on every invalid line.
- **Ageing is not exact LRU.** A hit at index h ages only the lines before h. `AgingIsNotLru` shows that with three lines, the accesses A B C A C B D evict C, although A is the least recently used line.
- **`M`.** An `M` record makes one lookup plus a bare hit increment. It does not make a second lookup.
- **Unknown operation characters.** A record whose operation is not `I`, `L`, `S` or `M` calls nothing. Its code stays 0.

Structure of `CheckCache`:
- Its scan loop is the method `ScanSet`.
- The hit counter is incremented in `CheckCache` right after the scan reports a hit; in the C loop it is incremented just before the hit line's store. The final state is the same.

Assumptions stated in the model:
- `ConfigOk` requires s ≤ 30, so that `1 << s` fits an `int`.
- It requires s + b < 64, so that the shifts stay inside the 64-bit address.
- It requires E ≥ 1. With E = 0 the eviction store would write outside the set.

The transpose branches have size preconditions:
- the N = 32 branch needs M to be a multiple of 8;
- the N = 64 branch needs M = 64;
- A and B are distinct arrays.

## Model

| member | source | states |
|---|---|---|
| CacheModel.Tag | csim.c:143 | The tag is address >> (s + b): tag * 2^(s+b) <= address < tag * 2^(s+b) + 2^(s+b). See DecodeSplit and DecodeRoundTrip. |
| CacheModel.SetIndex | csim.c:144 | The set index (address >> b) & ((1 << s) - 1) is below 2^s. See DecodeSplit and DecodeRoundTrip. |
| CacheModel.Initial | csim.c:88 | The table after allocation has 2^s sets of E lines, every line zeroed (invalid, age 0, tag 0), and zero counters. See ColdStart and FirstAccessToSetFills. |
| CacheModel.Victim | csim.c:156-159 | The running `evict` choice over a full set; its own contract says only that it is a line of the set, v < E. VictimIsLastMax and VictimUnique characterise it. |
| CacheModel.AccessSet | csim.c:149-174 | One checkCache call on its set; its own contract says only that the set keeps its E lines. AccessHit, AccessFill, AccessEvict and AccessCode characterise it, with AccessKeepsValid, AccessInstallsTag and AccessPreservesUnique. |
| CacheModel.Step | csim.c:142-175 | checkCache on the whole state: its own contract says the table stays 2^s × E. StepCounters, StepPreservesWellFormed and StepInstallsTag characterise it; CheckCache is proved to compute it. |
| CacheModel.Dispatch | csim.c:102-119 | The body of the simulator loop for one record; its own contract says the table stays 2^s × E. DispatchCounters and DispatchPreservesWellFormed characterise it. |
| CacheModel.Run | csim.c:100-134 | The simulator loop over a trace; its own contract says the table stays 2^s × E. RunCounters, RunPreservesWellFormed, UntouchedSetUnchanged and EvictionsBoundedByMisses characterise it; Simulator is proved to compute it. |
| CacheModel.FindHit | csim.c:149-155 | The scan stops at the first valid line carrying the tag. It yields None exactly when no valid line of the set carries the tag. |
| CacheModel.LastFree | csim.c:160-161 | The remembered free line is invalid and every later line is valid. It is None exactly when every line is valid. |
| CacheLemmas.DecodeSplit | csim.c:143-144 | The set index is below 2^s, and tag * 2^s + set index == address >> b. |
| CacheLemmas.DecodeRoundTrip | csim.c:143-144 | Tag, set index and block offset, shifted back into place and added, give the address again. |
| CacheLemmas.SameBlockSameDecode | csim.c:143-144 | Two addresses have the same block number exactly when they decode to the same tag and set index. |
| CacheLemmas.VictimIsLastMax | csim.c:156-159 | The line `evict` ends on has the largest age in the set, and every later line has a strictly smaller age (ties go to the highest index). |
| CacheLemmas.VictimUnique | csim.c:156-159 | The last-maximum property determines the evicted line uniquely. |
| CacheLemmas.AccessHit | csim.c:149-155 | With unique tags and a valid matching line at h: the code is HIT and line h's age becomes 1. Valid lines below h age by one and lines above h are unchanged. No valid bit or tag changes. |
| CacheLemmas.AccessFill | csim.c:149-168 | When the tag is absent and e is the highest invalid line: the code is MISS and line e becomes valid with the tag and age 1. Every other valid line ages by one; invalid lines are unchanged. |
| CacheLemmas.AccessEvict | csim.c:149-174 | When the tag is absent, every line is valid and v is the last line of largest age: the code is EVICTION, line v gets the tag and age 1, and every other line ages by one. The evicted line stays valid; only its tag and age are rewritten. |
| CacheLemmas.AccessCode | csim.c:149-174 | HIT when the tag is present, MISS when it is absent and a line is free, EVICTION when it is absent and the set is full. All three are iffs. |
| CacheLemmas.AccessKeepsValid | csim.c:149-174 | No access clears a valid bit. A line's tag changes only where the tag was not held and is installed. |
| CacheLemmas.AccessInstallsTag | csim.c:153-170 | After an access the set holds a valid line carrying the accessed tag. |
| CacheLemmas.AccessPreservesUnique | csim.c:149-174 | An access keeps every set free of duplicate valid tags. |
| CacheLemmas.AccessValidCount | csim.c:149-174 | The number of valid lines in a set never decreases and never exceeds E. |
| CacheLemmas.SecondAccessHits | csim.c:115-118 | Accessing the same tag twice in a row, the second access is a hit. |
| CacheLemmas.StepPreservesWellFormed | csim.c:142-175 | A checkCache call keeps the table shaped 2^s × E and keeps tags unique in every set. |
| CacheLemmas.StepCounters | csim.c:142-175 | hits + misses rises by exactly 1 and neither hits nor misses decreases, so misses rises by one exactly on a miss. hits rises exactly on HIT and evictions exactly on EVICTION. evictions rises only with misses. Only the addressed set changes. |
| CacheLemmas.StepInstallsTag | csim.c:115-118 | After checkCache(address) the addressed set holds address's tag, so an immediate second call would hit; this is the reason for M's bare hit increment. |
| CacheLemmas.ColdStart | csim.c:88 | The zeroed table is well formed, and the first access after allocation is a MISS that fills its set's last line. |
| CacheLemmas.UntouchedSetUnchanged | csim.c:100-134 | A trace none of whose L, S or M records decodes to set x leaves set x exactly as it was. |
| CacheLemmas.FirstAccessToSetFills | csim.c:88 | From the zeroed table, the first access to a set is a MISS that fills the set's last line with the tag and age 1, whatever other sets were accessed before. |
| CacheLemmas.DispatchPreservesWellFormed | csim.c:100-119 | One record keeps the table well formed. |
| CacheLemmas.RunPreservesWellFormed | csim.c:100-134 | A whole trace keeps the table well formed. |
| CacheLemmas.DispatchCounters | csim.c:102-119 | Per record, hits + misses rises by 0 for I, 1 for L and S, 2 for M and 0 for any other character. No counter decreases, and evictions rises no more than misses. There is one code for every non-I record. |
| CacheLemmas.RunCounters | csim.c:100-134 | Over a trace, hits + misses rises by the access count (M counts twice). No counter decreases and evictions grows no more than misses. There is one code per non-instruction record. |
| CacheLemmas.EvictionsBoundedByMisses | csim.c:24-26 | From the zeroed counters, evictions <= misses after any trace, and hits + misses equals the trace's access count. |
| CacheLemmas.AllocationAsWrittenMissesSet | csim.c:86-92 | As written, the allocation loop never allocates the row of set 2^s - 1. The address (2^s - 1) << b is a valid 64-bit address that decodes to that set. |
| CacheLemmas.AllocationCoversDecodedSets | csim.c:81-82 | With 2^s rows, every set index an address decodes to has a row. |
| CacheExamples.FillsFromTop | csim.c:160-168 | In an empty three-line set, three misses fill lines 2, 1 and 0 in that order. Each miss ages the lines filled before it. |
| CacheExamples.HitsAgeOnlyScannedLines | csim.c:149-156 | A hit resets the hit line to 1 and ages only the lines scanned before it. |
| CacheExamples.MissEvictsC | csim.c:156-159 | In the example set the miss on D evicts line 0, the last line of largest age after ageing. |
| CacheExamples.AgingIsNotLru | csim.c:149-174 | Tags A B C A C B D in a three-line set: the D access evicts C and keeps A and B, although A is the least recently used. |
| CacheExamples.TinySteps | csim.c:142-175 | With s = 0, E = 1 and b = 0 there are three calls: a fill, an eviction and a hit. Each has its exact state and code. |
| CacheExamples.TinyTrace | csim.c:100-134 | The trace L 0, M 1, I 2, X 5, S 1 yields the codes MISS, EVICTION, HIT, HIT and ends with hits 2, misses 2, evictions 1. |
| CacheSim.Cache.constructor | csim.c:79-92 | Allocates a fresh 2^s × E table of zeroed lines with zeroed counters. The state is `Initial` and the invariant holds. |
| CacheSim.Cache.CheckCache | csim.c:142-175 | In place it leaves exactly the state `Step` gives, returns `Step`'s code and keeps the invariant. |
| CacheSim.Cache.ScanSet | csim.c:146-162 | The scan loop. On a hit, the row is what `AccessSet` gives for HIT. Otherwise every valid line has aged by one and invalid lines are unchanged, no line held the tag, and `empty` is the last free line or -1. When every line was valid (`empty` is -1), `evict` is the last line of largest age. Other rows are untouched. |
| CacheSim.Cache.Simulator | csim.c:100-134 | Over parsed records it leaves exactly the state `Run` gives, returns `Run`'s codes and keeps the invariant. |
| Trans.IsTranspose | trans.c:157-168 | Returns 0 or 1. It returns 1 exactly when A[i][j] == B[j][i] for all i < N and j < M. |
| Trans.Trans | trans.c:126-135 | B becomes the transpose of A and A is unchanged. |
| Trans.TransposeSubmit | trans.c:23-115 | Under each branch's size precondition, B becomes the transpose of A and A is unchanged. |
| Trans.Submit32 | trans.c:24-48 | With N = 32 and M a multiple of 8, the 8×8 tiles together transpose A into B. |
| Trans.Tile32 | trans.c:28-46 | One 8×8 tile: B[j+c][k] == A[k][j+c] on the tile, and no other cell of B changes. |
| Trans.Submit64 | trans.c:49-101 | With N = M = 64, the 8×8 tiles together transpose A into B. |
| Trans.Tile64 | trans.c:53-99 | After the three inner loops, B[i..i+8][j..j+8] is the transpose of A[j..j+8][i..i+8], and no other cell changes. |
| Trans.Tile64Park | trans.c:53-70 | The top-left quadrant is transposed, the top-right quadrant parks A[y-4][x+4] in B[x][y], and nothing outside the top half of the tile changes. |
| Trans.Tile64Move | trans.c:71-89 | The parked values move to the bottom-left quadrant. The top-right quadrant gets its own transposed values and the bottom-right quadrant is untouched. |
| Trans.Tile64Finish | trans.c:90-99 | The bottom-right quadrant is transposed, and no other cell changes. |
| Trans.SubmitGeneral | trans.c:102-113 | For any M and N, the clipped 16×16 tiles together transpose A into B. |
| Trans.Tile16 | trans.c:106-111 | One tile clipped by k < N and l < M is transposed, and nothing outside the tile changes. |

## Left out

- Option parsing (`parseArg`, getopt, atoi, usage text) and `main`: command-line glue.
- `printSummary`: it is declared in cachelab.h and cachelab.h is not part of this model.
- Trace file I/O (`fopen`, `fgets`, `sscanf`, `fclose`): the simulator takes a sequence of parsed `(op, addr)` records instead. A line that `sscanf` fails to parse, which would reuse the previous record's values, is not modelled. A data line with a leading blank whose operation character is I is not skipped by the C (only a first character I is); such a line is represented as a record whose operation is a character other than I, L, S and M, which reports code 0 and counts nothing.
- The `size` field of a record: never used by the simulation.
- Verbose `printf` output: `Simulator` returns the code of every non-instruction record instead (0 HIT, 1 MISS, 2 EVICTION).
- Table allocation details: the float `pow`, the `malloc` sized in `cacheData` units, allocation failure and `free` are not modelled. This includes the freeing loop, which has the same bound as the allocation loop. The constructor allocates the full 2^s × E zeroed table (see Findings).
- C `int` overflow of `lru` and of the counters: lines and counters are `nat`.
- Configurations outside `ConfigOk` (s > 30, s + b ≥ 64, E = 0): the C code has undefined behaviour there.
- Exact LRU replacement: the code does not implement it. `AgingIsNotLru` shows where it differs.
- The cache-miss performance of the transpose kernels: not a functional property.
- `registerFunctions`: it calls into the external grading driver.
- Transposing a matrix into itself: every kernel requires A and B to be different arrays, as the driver passes them.

## Findings

| source | as written | input that shows it | evidently intended | confidence | as-written member | corrected member |
|---|---|---|---|---|---|---|
| csim.c:86-92 | The row-allocation loop runs `i < setIndexBit`, so only rows 0 .. s-1 get lines, while checkCache indexes rows up to 2^s - 1. | s = 0: no row is allocated, yet every address decodes to set 0. s = 1, b = 0: address 1 decodes to set 1, whose row is never allocated. | Allocate one row per set, `i < 2^s`; the `Cache` constructor does this. | not executed | CacheLemmas.AllocationAsWrittenMissesSet | CacheLemmas.AllocationCoversDecodedSets |
