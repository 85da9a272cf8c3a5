# paging-sim: a verified model of the page-replacement engine

paging-sim simulates virtual-memory paging. A page-reference sequence (the
page indices requested, in order) is served with a fixed number of physical
frames by four replacement policies:

- **MIN/OPT** evicts the resident page whose next request is farthest away;
- **LRU** evicts the page whose latest request is oldest;
- **FIFO** evicts the page admitted earliest;
- **RAND** evicts an arbitrary resident page.

Each policy reports the number of page faults and its final *swap state*:
the pages that were requested but are no longer in a frame. Around the
policies sit a few value types (a frame, a page sequence, a simulation
result), the system configuration, which derives page size, frame count and
swap size from the memory sizes, and a set of input checks.

The model is in Dafny, one module per source file:

- `OptPolicy` in `opt_policy.dfy` models `OPTPolicy`;
- `LruPolicy` in `lru_policy.dfy` models `LRUPolicy`;
- `FifoPolicy` in `fifo_policy.dfy` models `FIFOPolicy`;
- `RandPolicy` in `rand_policy.dfy` models `RANDPageReplacementPolicy`;
- `MemoryFrames` in `memory_frame.dfy` models `MemoryFrame`;
- `PageSequences` in `page_sequence.dfy` models `PageSequence`;
- `SimulationResults` in `simulation_result.dfy` models `SimulationResult`;
- `SystemConfigurations` in `system_configuration.dfy` models `SystemConfiguration`;
- `InputValidation` in `input_validator.dfy` models `InputValidator`.

Shared modules:

- `Errors` holds the error kinds and the `Result`/`Outcome`/`Option` wrappers;
  a thrown exception becomes an `Err`/`Fail` value;
- `JavaInt` holds the Java `int` range and the bit test `x & (x - 1)`;
- `JavaText` holds decimal rendering and parsing, space-joining and splitting,
  and Java's `trim`;
- `PageSets` holds distinct pages, first and last occurrence, the swap
  formula, and sorted order;
- `ReferenceStrings` holds the reference string `1 2 3 4 1 2 5 1 2 3 4 5`
  used by the worked examples.

Each policy is a class whose fields are the source's fields. It is proved
against a pure specification:

- `XStep` says what one request does;
- `XRun` says what the first k requests do;
- `XInvariant` says what holds after any prefix.

`Simulate` ends in the state `XRun` gives (for RAND, in a state satisfying
`RandInvariant`, whichever victims were chosen). Lemmas about `XRun` then
prove what the source promises:

- distinct resident pages, at most `numberOfFrames` of them;
- swap = requested pages − resident pages;
- a fault count between the number of distinct pages and the length of the
  sequence;
- no eviction while the distinct pages fit (`OptNoEviction`, `LruNoEviction`,
  `FifoRunFitting`, and the fit clause of `RandInvariant`);
- the victim rules;
- the worked examples.

Positions in the sequence serve as the logical timestamps. The measured
execution time is a parameter of `Simulate`.

## Model

| member | source | states |
|---|---|---|
| OptPolicy.NextUseIsFirstOccurrence | paging-sim/src/policy/OPTPolicy.java:140-148 | the next use of a page from `start` is the least index at or after `start` holding it, and Integer.MAX_VALUE exactly when no later request is for it |
| OptPolicy.OPTPolicy.FindNextUse | paging-sim/src/policy/OPTPolicy.java:140-148 | the forward scan returns the specification's next use |
| OptPolicy.LastFarthestIsLastMaximum | paging-sim/src/policy/OPTPolicy.java:114-129 | the victim scan picks a slot whose next use is maximal; every later slot's next use is strictly smaller, so the last of the tied maxima wins (`>=`) |
| OptPolicy.LastFarthestSnoc | paging-sim/src/policy/OPTPolicy.java:118-126 | one iteration of the scan: the running victim moves to slot i exactly when that slot's next use is `>=` the current farthest |
| OptPolicy.OPTPolicy.FindOptimalVictim | paging-sim/src/policy/OPTPolicy.java:114-129 | the loop returns 0 on no frames, otherwise an in-range slot equal to the scan function's choice |
| OptPolicy.TiesAreNeverUsedAgain | paging-sim/src/policy/OPTPolicy.java:114-148 | two distinct pages tie on next use only when neither is requested again, so the tie-break only chooses among such pages |
| OptPolicy.OptStepEffect | paging-sim/src/policy/OPTPolicy.java:68-82 | a hit changes nothing; a miss adds exactly one fault and leaves the page resident; below capacity a frame is appended; at capacity only the victim's slot is overwritten, and every other slot keeps its frame |
| OptPolicy.OptStepKeepsInvariant | paging-sim/src/policy/OPTPolicy.java:68-82 | one request keeps: no page in two slots, at most n slots, only requested pages resident, load times earlier than the position, faults between distinct pages and requests |
| OptPolicy.OptRunInvariant | paging-sim/src/policy/OPTPolicy.java:45-48 | the invariant holds after every prefix of a run from empty frames |
| OptPolicy.OptNoEviction | paging-sim/src/policy/OPTPolicy.java:45-48 | while the distinct pages requested fit in the frames, all of them are resident and each has faulted exactly once |
| OptPolicy.OptExample | paging-sim/src/policy/OPTPolicy.java:45-48 | on `1 2 3 4 1 2 5 1 2 3 4 5` with 3 frames: 7 faults, frames `[1, 4, 5]`, swap `{2, 3}` |
| OptPolicy.OPTPolicy.constructor | paging-sim/src/policy/OPTPolicy.java:22-25 | no frames, no faults |
| OptPolicy.OPTPolicy.Reset | paging-sim/src/policy/OPTPolicy.java:32-36 | frames cleared, counter zero |
| OptPolicy.OPTPolicy.GetPolicyName | paging-sim/src/policy/OPTPolicy.java:27-30 | the policy reports under the name "MIN" |
| OptPolicy.OPTPolicy.Simulate | paging-sim/src/policy/OPTPolicy.java:38-57 | the frames and count end as the specification run leaves them; the result carries "MIN", the given time, the fault count and the requested pages less the resident ones |
| OptPolicy.OPTPolicy.ProcessPageRequest | paging-sim/src/policy/OPTPolicy.java:68-82 | the new frames and count are the specification step's; on a hit the frame list and the counter are exactly as before |
| OptPolicy.OPTPolicy.IsPageInMemory | paging-sim/src/policy/OPTPolicy.java:90-98 | true exactly when some frame holds the page |
| OptPolicy.OPTPolicy.CalculateSwapState | paging-sim/src/policy/OPTPolicy.java:156-167 | the requested pages that no frame holds |
| PageSets.SwapOf | paging-sim/src/policy/OPTPolicy.java:156-167 | the swap is disjoint from the resident pages, contains only requested pages and together with them covers every requested page |
| LruPolicy.LruVictimIsFirstMinimum | paging-sim/src/policy/LRUPolicy.java:104-117 | the running minimum ends on a slot with the least stamp, and every earlier slot's stamp is strictly larger (strict `<`: lowest slot on ties) |
| LruPolicy.LruVictimSnoc | paging-sim/src/policy/LRUPolicy.java:108-114 | one iteration of the scan: the victim moves to slot i exactly when its stamp is strictly smaller |
| LruPolicy.LRUPolicy.FindLRUVictim | paging-sim/src/policy/LRUPolicy.java:104-117 | on non-empty frames the loop returns the specification's least-recently-used slot |
| LruPolicy.LRUPolicy.FindFrameByPage | paging-sim/src/policy/LRUPolicy.java:89-96 | null exactly when no frame holds the page, otherwise the frame in the first slot holding it |
| LruPolicy.LruStepHit | paging-sim/src/policy/LRUPolicy.java:66-71 | a hit at position t rewrites only the stamp of the slot holding the page; pages, load times, other slots and the fault count are unchanged |
| LruPolicy.LruStepLoad | paging-sim/src/policy/LRUPolicy.java:73-76 | a miss below capacity appends a frame with both stamps t and adds one fault |
| LruPolicy.LruStepEvict | paging-sim/src/policy/LRUPolicy.java:73-80 | a miss at capacity puts a frame stamped t in the victim's slot, leaves every other slot, and adds one fault |
| LruPolicy.LruStepKeepsInvariant | paging-sim/src/policy/LRUPolicy.java:65-81 | one request keeps: distinct pages, at most n slots, faults between distinct pages and requests, each stamp the position of its page's latest request |
| LruPolicy.LruRunInvariant | paging-sim/src/policy/LRUPolicy.java:44-47 | the invariant holds after every prefix of a run from empty frames |
| LruPolicy.LruStampIsLatestRequest | paging-sim/src/policy/LRUPolicy.java:65-81 | a slot's stamp is an earlier position requesting its page, and no later request before the current position is for that page |
| LruPolicy.LruVictimIsLeastRecent | paging-sim/src/policy/LRUPolicy.java:104-117 | the stamps of the resident frames are pairwise distinct, so the victim's stamp is strictly the least: the tie-break never decides |
| LruPolicy.LruNoEviction | paging-sim/src/policy/LRUPolicy.java:73-76 | while the distinct pages requested fit in the frames, all of them are resident and each has faulted exactly once |
| LruPolicy.LruNoEvictionStep | paging-sim/src/policy/LRUPolicy.java:66-76 | in a run that has not evicted, a hit keeps the pages and the count, and a miss finds a free slot, so pages and faults both gain exactly the new page |
| LruPolicy.LruHitKeepsPages | paging-sim/src/policy/LRUPolicy.java:68-71 | a hit leaves the resident pages in their slots and the fault count unchanged |
| LruPolicy.LruExample | paging-sim/src/policy/LRUPolicy.java:44-47 | on `1 2 3 4 1 2 5 1 2 3 4 5` with 3 frames: 10 faults, frames holding 3, 4, 5, swap `{1, 2}` |
| LruPolicy.LRUPolicy.constructor | paging-sim/src/policy/LRUPolicy.java:21-24 | no frames, no faults |
| LruPolicy.LRUPolicy.Reset | paging-sim/src/policy/LRUPolicy.java:31-35 | frames cleared, counter zero |
| LruPolicy.LRUPolicy.GetPolicyName | paging-sim/src/policy/LRUPolicy.java:26-29 | the policy reports under the name "LRU" |
| LruPolicy.LRUPolicy.Simulate | paging-sim/src/policy/LRUPolicy.java:37-56 | the frames and count end as the specification run leaves them; the result carries "LRU", the given time, the fault count and the requested pages less the resident ones |
| LruPolicy.LRUPolicy.Report | paging-sim/src/policy/LRUPolicy.java:52-55 | the returned result carries "LRU", the given time, the fault count and the requested pages less the resident ones |
| LruPolicy.LRUPolicy.ServeNext | paging-sim/src/policy/LRUPolicy.java:44-47 | one iteration of the loop moves the state from the run of the first i requests to the run of the first i + 1 |
| LruPolicy.LRUPolicy.ProcessPageRequest | paging-sim/src/policy/LRUPolicy.java:65-81 | the new frames and count are the specification step's |
| LruPolicy.LRUPolicy.RefreshFrame | paging-sim/src/policy/LRUPolicy.java:68-70 | the hit path: only the hit frame's stamp changes; frame list and count stay |
| LruPolicy.LRUPolicy.AppendFrame | paging-sim/src/policy/LRUPolicy.java:75-76 | the new frame goes after the others |
| LruPolicy.LRUPolicy.ReplaceFrame | paging-sim/src/policy/LRUPolicy.java:78-79 | the new frame takes the victim's slot; the other slots stay |
| LruPolicy.LRUPolicy.CalculateSwapState | paging-sim/src/policy/LRUPolicy.java:125-135 | the requested pages that no frame holds |
| FifoPolicy.FifoStep | paging-sim/src/policy/FIFOPolicy.java:38-56 | a hit leaves the state (queue order included) exactly as it was; a miss adds one fault and leaves the page resident at the tail of the queue |
| FifoPolicy.FifoStepLoad | paging-sim/src/policy/FIFOPolicy.java:39-46 | a miss below capacity: page appended to the queue, added to the resident set, removed from the swap set, one more fault |
| FifoPolicy.FifoEvictsHead | paging-sim/src/policy/FIFOPolicy.java:48-53 | at capacity the queue is non-empty, its head (the earliest admitted) leaves the resident set for the swap set, and the requested page takes its place |
| FifoPolicy.FifoStepKeepsInvariant | paging-sim/src/policy/FIFOPolicy.java:38-56 | one request keeps: queue without duplicates holding exactly the resident pages, at most n; swap disjoint from resident and together equal to the pages requested so far; faults between distinct pages and requests |
| FifoPolicy.FifoRunInvariant | paging-sim/src/policy/FIFOPolicy.java:38-56 | the invariant holds after every prefix of a run from the reset state |
| FifoPolicy.FifoRunFitting | paging-sim/src/policy/FIFOPolicy.java:38-56 | while the distinct pages requested fit in the frames, nothing is swapped out and each has faulted exactly once |
| FifoPolicy.FifoRunQueueHoldsResident | paging-sim/src/policy/FIFOPolicy.java:44-48 | whenever the resident set is full the queue has a head, so the poll never comes up empty |
| FifoPolicy.FifoSwapIsRequestedLessResident | paging-sim/src/policy/FIFOPolicy.java:38-62 | the swap a whole run ends with is the requested pages less the resident ones |
| FifoPolicy.FifoAlternatingExample | paging-sim/src/policy/FIFOPolicy.java:38-56 | `1 2 1 2` with 1 frame: 4 faults, swap `{1}` |
| FifoPolicy.FifoReferenceExample | paging-sim/src/policy/FIFOPolicy.java:38-56 | `1 2 3 4 1 2 5 1 2 3 4 5` with 3 frames: 9 faults, queue `[5, 3, 4]`, swap `{1, 2}` |
| FifoPolicy.FIFOPolicy.constructor | paging-sim/src/policy/FIFOPolicy.java:19-21 | the reset state |
| FifoPolicy.FIFOPolicy.Reset | paging-sim/src/policy/FIFOPolicy.java:23-29 | empty queue, resident and swap sets, zero faults |
| FifoPolicy.FIFOPolicy.GetPolicyName | paging-sim/src/policy/FIFOPolicy.java:65-68 | the policy reports under the name "FIFO" |
| FifoPolicy.FIFOPolicy.Simulate | paging-sim/src/policy/FIFOPolicy.java:31-63 | the fields end as the specification run leaves them; the swap is the requested pages less the resident ones; the result carries "FIFO", the given time, the faults and the swap |
| FifoPolicy.FIFOPolicy.ServeRequest | paging-sim/src/policy/FIFOPolicy.java:39-55 | the body of the loop for one request moves the fields as the specification step says |
| RandPolicy.RandMiss | paging-sim/src/policy/RANDPageReplacementPolicy.java:38-51 | a miss adds one fault and leaves the page resident and out of the swap set; at capacity the chosen resident page moves to the swap set and the resident count stays |
| RandPolicy.AdmitKeepsSets | paging-sim/src/policy/RANDPageReplacementPolicy.java:41-44 | admitting a non-resident page into a resident set with room keeps swap and resident disjoint with union the requested pages (now with the page), at most n resident, and the fit clause |
| RandPolicy.RandStepKeepsInvariant | paging-sim/src/policy/RANDPageReplacementPolicy.java:37-53 | whichever resident page is chosen, one request keeps: at most n resident, swap disjoint from resident and together equal to the pages requested so far, faults between distinct pages and requests, and no swap with one fault per page while the pages fit |
| RandPolicy.RandRunOutcome | paging-sim/src/policy/RANDPageReplacementPolicy.java:37-59 | after the whole sequence: swap = requested − resident, faults at most the sequence length, and when the distinct pages fit, faults = distinct pages and an empty swap |
| RandPolicy.RANDPageReplacementPolicy.constructor | paging-sim/src/policy/RANDPageReplacementPolicy.java:18-20 | the reset state |
| RandPolicy.RANDPageReplacementPolicy.Reset | paging-sim/src/policy/RANDPageReplacementPolicy.java:22-28 | empty resident and swap sets, zero faults |
| RandPolicy.RANDPageReplacementPolicy.GetPolicyName | paging-sim/src/policy/RANDPageReplacementPolicy.java:73-76 | the policy reports under the name "RAND" |
| RandPolicy.RANDPageReplacementPolicy.Simulate | paging-sim/src/policy/RANDPageReplacementPolicy.java:30-60 | whatever victims are chosen, the final state keeps the invariant, the swap is the requested pages less the resident ones, and when the distinct pages fit each faults once and nothing is swapped; the result carries "RAND", the time, faults and swap |
| RandPolicy.RANDPageReplacementPolicy.ServeNext | paging-sim/src/policy/RANDPageReplacementPolicy.java:37-53 | one iteration of the loop keeps the invariant from the first i requests to the first i + 1 |
| RandPolicy.RANDPageReplacementPolicy.ServeRequest | paging-sim/src/policy/RANDPageReplacementPolicy.java:38-52 | the body of the loop for one request moves the fields as the step with the chosen page says, and the chosen page is resident |
| RandPolicy.RANDPageReplacementPolicy.SelectRandomPage | paging-sim/src/policy/RANDPageReplacementPolicy.java:67-71 | on a non-empty resident set, some resident page |
| MemoryFrames.MemoryFrame.constructor | paging-sim/src/model/MemoryFrame.java:14-18 | stores the page; last-access and load time both equal the given time |
| MemoryFrames.MemoryFrame.UpdateAccessTime | paging-sim/src/model/MemoryFrame.java:20-22 | sets the last-access time; page and load time cannot change (they are constants) |
| MemoryFrames.MemoryFrame.GetPageIndex | paging-sim/src/model/MemoryFrame.java:24-26 | the page the frame was constructed with |
| MemoryFrames.MemoryFrame.GetLastAccessTime | paging-sim/src/model/MemoryFrame.java:28-30 | the current last-access stamp |
| MemoryFrames.MemoryFrame.GetLoadTime | paging-sim/src/model/MemoryFrame.java:32-34 | the time the frame was constructed with |
| MemoryFrames.MemoryFrame.Value | paging-sim/src/model/MemoryFrame.java:24-34 | the three getters' values are the current fields |
| MemoryFrames.MemoryFrame.ToString | paging-sim/src/model/MemoryFrame.java:36-39 | the rendering of the current fields, starting `Frame[page = ` and ending `]` |
| MemoryFrames.FrameTextInjective | paging-sim/src/model/MemoryFrame.java:37-39 | the rendering determines the frame: equal texts mean equal page, last access and load time |
| PageSequences.Create | paging-sim/src/model/PageSequence.java:20-26 | rejects a null or empty list; otherwise keeps the same requests in the same order, with the same size |
| PageSequences.PageSequence.GetRequests | paging-sim/src/model/PageSequence.java:48-50 | the stored requests, in order |
| PageSequences.PageSequence.Size | paging-sim/src/model/PageSequence.java:55-57 | the number of stored requests |
| PageSequences.PageSequence.Validate | paging-sim/src/model/PageSequence.java:35-43 | passes exactly when every request lies in [0, maxPages - 1], otherwise an illegal-argument failure; the sequence is a value and cannot change |
| PageSequences.PageSequence.ToString | paging-sim/src/model/PageSequence.java:59-68 | the decimal renderings of the requests joined by single spaces |
| PageSequences.RenderingSplitsIntoRequests | paging-sim/src/model/PageSequence.java:59-68 | splitting the rendering on spaces gives exactly `size()` tokens, and token i parses back to request i |
| JavaText.IntToStringRoundTrip | paging-sim/src/model/PageSequence.java:65 | a decimal rendering parses back to the integer |
| JavaText.SplitJoin | paging-sim/src/model/PageSequence.java:62-66 | joining non-empty space-free tokens with single spaces and splitting on spaces gives the tokens back |
| SimulationResults.SimulationResult.SortedSwapState | paging-sim/src/model/SimulationResult.java:24 | the swap in TreeSet order: strictly ascending, exactly the swap's pages |
| SimulationResults.SimulationResult.GetSwapStateFormatted | paging-sim/src/model/SimulationResult.java:43-58 | "0" for an empty swap, otherwise the ascending pages joined by single spaces |
| SimulationResults.FormatSwapTokens | paging-sim/src/model/SimulationResult.java:48-57 | a non-empty swap renders as `|swap|` space-separated tokens that parse to its pages in strictly ascending order |
| SimulationResults.FormatSwapNotInjective | paging-sim/src/model/SimulationResult.java:44-57 | the format is not injective: `{}` and `{0}` both render as "0" |
| PageSets.Sorted | paging-sim/src/model/SimulationResult.java:24 | the elements of a set as a strictly ascending sequence of the same size |
| SystemConfigurations.ValidateInputs | paging-sim/src/model/SystemConfiguration.java:44-58 | passes exactly when physical > 0, virtual >= physical, the architecture is "x86" or "x64" and pages > 0; otherwise an illegal-argument failure |
| SystemConfigurations.CalculatePageSize | paging-sim/src/model/SystemConfiguration.java:64-72 | V / P is accepted exactly when it is 0 or a power of two, and is then the page size |
| JavaInt.AndPredecessorZeroIff | paging-sim/src/model/SystemConfiguration.java:67 | on a non-negative `int`, `x & (x - 1) == 0` holds exactly for 0 and the powers of two |
| JavaInt.AndPredecessorZeroIffPowerOfTwo | paging-sim/src/validation/InputValidator.java:83 | on a positive `int`, `x & (x - 1) == 0` holds exactly for the powers of two |
| SystemConfigurations.Create | paging-sim/src/model/SystemConfiguration.java:27-39 | invalid inputs raise an illegal argument; otherwise it succeeds exactly when V / P is a power of two, a page size of 0 divides by zero, and a success stores the inputs, frames = M / pageSize and swap = (P − frames) · pageSize |
| SystemConfigurations.SwapSizeFits | paging-sim/src/model/SystemConfiguration.java:37-38 | the derived frame count lies in [0, M] and the swap size in [−M, V], so neither overflows an `int` |
| SystemConfigurations.DivisibleGivesNonNegativeSwap | paging-sim/src/model/SystemConfiguration.java:36-38 | when P divides V, frames <= pages and the swap size is non-negative |
| SystemConfigurations.NegativeSwapExample | paging-sim/src/model/SystemConfiguration.java:36-38 | 10, 10, x86, 4 gives page size 2, 5 frames and swap size −2 |
| SystemConfigurations.DefaultConfigurationExample | paging-sim/src/model/SystemConfiguration.java:36-38 | the generator defaults 4096, 16384, x86, 16 give page size 1024, 4 frames and swap size 12288 |
| SystemConfigurations.ZeroPageSizeDividesByZero | paging-sim/src/model/SystemConfiguration.java:36-37 | virtual 1 over 2 pages gives page size 0, which passes the bit test, and the constructor then divides by zero |
| SystemConfigurations.CalculatePageSizeIntended | paging-sim/src/model/SystemConfiguration.java:64-72 | the check its error message describes: accepted exactly when V / P is a power of two, so the page size is at least 1 |
| SystemConfigurations.CreateIntended | paging-sim/src/model/SystemConfiguration.java:27-39 | with the intended check the constructor never divides by zero: every rejection is an illegal argument, and it succeeds exactly on valid inputs with a power-of-two page size, agreeing with `Create` there |
| InputValidation.RequirePositive | paging-sim/src/validation/InputValidator.java:18-24 | returns the value exactly when it is above zero, otherwise an invalid-input error |
| InputValidation.RequireInRange | paging-sim/src/validation/InputValidator.java:29-38 | returns the value exactly when min <= value <= max, both inclusive, otherwise an invalid-input error |
| InputValidation.InvertedRangeRejectsAll | paging-sim/src/validation/InputValidator.java:29-38 | with min > max every value is rejected |
| InputValidation.RequireNonEmpty | paging-sim/src/validation/InputValidator.java:43-49 | rejects null and strings blank after trim with an invalid-input error; otherwise returns the trimmed string, non-empty and without leading or trailing blanks |
| JavaText.Trim | paging-sim/src/validation/InputValidator.java:44-48 | Java's trim: empty exactly when every character is at most a space, otherwise beginning and ending with a character above a space |
| InputValidation.RequireValidArchitecture | paging-sim/src/validation/InputValidator.java:54-65 | accepts exactly the untrimmed strings "x86" and "x64" and returns them unchanged; everything else is an invalid-input error |
| InputValidation.PaddedArchitectureRejected | paging-sim/src/validation/InputValidator.java:55-57 | " x86" passes the non-empty step (trimmed to "x86") but fails the exact comparison |
| InputValidation.RequireVirtualGreaterOrEqualPhysical | paging-sim/src/validation/InputValidator.java:70-77 | passes exactly when virtual >= physical (equal accepted), otherwise an invalid-configuration error |
| InputValidation.RequirePowerOfTwo | paging-sim/src/validation/InputValidator.java:82-87 | passes exactly on the powers of two, otherwise an invalid-configuration error |
| InputValidation.PowerOfTwoCheckStricterThanBitTest | paging-sim/src/validation/InputValidator.java:82-87 | everything this check accepts passes the bare bit test, while 0 passes the bit test and is rejected here |
| InputValidation.RequireNonEmptyList | paging-sim/src/validation/InputValidator.java:92-96 | passes exactly on a non-null, non-empty list, otherwise an invalid-input error |

## Left out

- Wall-clock timing and its rounding (`currentTimeMillis`/`nanoTime`, `Math.round`) in every `simulate`: the elapsed seconds are the `executionTimeSeconds` parameter of each `Simulate`.
- RandPolicy.RANDPageReplacementPolicy.SelectRandomPage: `java.util.Random` and the HashSet iteration order behind `new ArrayList<>(pagesInMemory)` are replaced by an unconstrained choice of a resident page; the distribution is not modelled, and every property proved holds for every choice.
- The `PageReplacementPolicy` interface has no behaviour of its own; the four classes carry the same `Simulate`/`GetPolicyName`/`Reset` members without a common supertype.
- Exception classes and messages: a thrown `IllegalArgumentException`, `InvalidInputException`, `InvalidConfigurationException` or `ArithmeticException` becomes an error kind in a `Result`/`Outcome`; the message text and the field-name arguments of the `require*` checks are dropped.
- `Application.java` (file listing, streams, output, `System.exit`), `InputParser.java` (Scanner cursor semantics) and the test-case generator script are not part of this model; the generator's defaults appear only in `DefaultConfigurationExample`.
- `numberOfFrames >= 1` is a precondition of every policy's `Simulate`: with 0 frames each policy fails in its own way (a `set(0, …)` on an empty list, `frames.get(0)`, unboxing a null poll, `nextInt(0)`), and those crashes are not modelled.
- OptPolicy.OPTPolicy.ProcessPageRequest, LruPolicy.LRUPolicy.ProcessPageRequest, FifoPolicy.FIFOPolicy.ServeRequest, RandPolicy.RANDPageReplacementPolicy.ServeRequest: fault counters are unbounded integers; Java's `int` wrap-around would need more than 2^31 − 1 faults and is not modelled.
- LruPolicy.LRUPolicy.Simulate: Java stamps frames with `long` positions; the model uses unbounded integers, which agree since a list has fewer than 2^31 elements.
- OptPolicy.OPTPolicy.State: OPT never reads or refreshes a frame's last-access time, so its specification tracks only each frame's page and load time.
- FifoPolicy.FifoStep: the branch for a full resident set with an empty queue leaves the state unchanged; the source would fail there on unboxing a null poll, and `FifoRunQueueHoldsResident` shows no run reaches it.
- Loop bodies and method tails the source writes inline are split into helper methods (`ServeNext`, `ServeRequest`, `RefreshFrame`, `AppendFrame`, `ReplaceFrame`, `Report`); they perform the same statements in the same order.
- `Collections.unmodifiableList`/`unmodifiableSet` wrappers: requests and swap sets are Dafny values, so no caller can alter them.
- SystemConfigurations.Create: a null architecture is not modelled (architecture is a string value); the source would throw a `NullPointerException` in `validateInputs`.
- Getters of `SimulationResult` and `SystemConfiguration` are the datatype's fields, so they return what was constructed.
- Belady optimality of MIN and the monotonicity of fault counts in the number of frames are not claimed by the source and are not proved.

## Findings

| source | as written | input that shows it | evidently intended | confidence | as-written member | corrected member |
|---|---|---|---|---|---|---|
| paging-sim/src/model/SystemConfiguration.java:36-37 | `calculatePageSize` (lines 64-72) tests `(size & (size - 1)) != 0`, which lets size 0 through as a "power of two", and line 37 then evaluates `physicalMemorySize / 0` | physical 1, virtual 1, "x86", 2 pages (V / P = 0) | reject a page size that is not a positive power of two with the same illegal-argument error, as the message says | not executed | SystemConfigurations.ZeroPageSizeDividesByZero | SystemConfigurations.CreateIntended |
