# Cyclic Gray codes on n bits, modelled in Dafny

GrayCodeProject counts the cyclic Gray codes on n bits. Such a code is a cycle
of 2^n single-bit steps. Starting from 0, each step XORs one bit into the
current value, every n-bit value is visited once, and the walk returns to 0
after the last step.

The program works with canonical representatives called seeds. A Gray code
and the codes from it by relabelling the bit positions (digits) and rotating
the cycle make one class, and each class has one seed. The program enumerates
the seeds by a backtracking search over step buffers. It splits that search
into five partitions, one per fixed start of a code, and checks each
candidate against all its relabelled rotations. It then extrapolates how many
codes each seed stands for, using a hash table of sequence numbers. A
sequence number is the code's steps read as a base-n numeral.

This project models that core in Dafny. What it proves, piece by piece:

- the numeral arithmetic: sequence numbers are injective, ordered as the
  lexicographic order, and rotate in constant time;
- the relabelling swaps, and that the swap queue visits every arrangement of
  the digits exactly once;
- the lexicographic comparison and the ruler-shaped "lowest" skeleton;
- the partition predicates, as exact pattern matches;
- the backtracking search: its flag and XOR-walk invariants, and that the
  candidates strictly increase. The search is proved sound (every code
  reported is a cyclic Gray code with the required start), not complete;
- the seed check, exactly: on a cyclic Gray code it passes if and only if no
  rotation, relabelled by swaps of the n step masks so that it begins with
  the partition's set start, is lexicographically below the candidate;
- the extrapolation: each seed's count is exactly the number of rotation
  classes among its n! relabellings, at every milestone exit, by an
  orbit-counting argument (that number is n! divided by a power of two);
- both open-addressing hash tables.

The older snapshots are modelled as well:

- the first counting program, `Old/CountCodes.c`;
- the culling seed search of `Old/SeedSearch2.c`;
- the numeral tools and AVL tree of `Old/analysis.c`;
- the sorting routines of `Old/SortingTest.c`.

n (`NUM_DIGITS`) is a parameter throughout, and the code length `len` is
`Pow2(n)`. Steps are kept as the source keeps them:

- single-bit masks in the search;
- digit numbers (bit positions) in seeds and sequence numbers.

Arbitrary-precision GMP integers are `nat`.

The modules follow the source files:

| module | file | models |
|---|---|---|
| `Bits`, `Numerals` | `bits.dfy`, `numerals.dfy` | shared foundations: XOR on `nat`, single-bit masks, count of trailing zeros, base-n numerals, lexicographic order, rotation |
| `PermQueue`, `Probing`, `SortedSearch` | `perm_queue.dfy`, `probing.dfy`, `marks.dfy` | shared foundations: the swap queue `Q`, double-hashing probes, the key comparison and binary search of `markForRemoval` |
| `Chimera` | `chimera.dfy` | the arithmetic and table building of `GreyCodeChimera.c` |
| `CodeSearch` | `code_search.dfy` | the XOR walk, the flags frame and the increment step shared by both searches |
| `ChimeraSearch` | `chimera_search.dfy` | `calculateCodesWithSetStart` of `GreyCodeChimera.c` |
| `RotationCheck` | `rotation_check.dfy` | the relabelled-rotation seed check inside that search |
| `Extrapolation` | `extrapolation.dfy` | `extrapolateSeeds` |
| `ChimeraMain` | `chimera_main.dfy` | the partition loop of `main` |
| `Checkers` | `checkers.dfy` | `ThreadSequenceCheckers.c` |
| `GmpTable`, `SeqTable` | `gmp_table.dfy`, `seq_table.dfy` | the two hash tables |
| `CountCodes`, `SeedSearch`, `Analysis`, `Sorting` | `count_codes.dfy`, `seed_search.dfy`, `analysis.dfy`, `sorting.dfy` | `Old/CountCodes.c`, `Old/SeedSearch2.c`, `Old/analysis.c`, `Old/SortingTest.c` |

Notes on the source:

- The comment on `checkStepsIn01021` says it compares the first and second
  steps. The code compares the first and third, and the model follows the
  code (`Checkers.In01021`).
- In `extrapolateSeeds`, the early exit overwrites the table's `count` with
  the queue size. The model reports that per-seed count in a local variable
  and keeps the table's own count. The value read at the end is the same.
- `markForRemoval` in `Old/SeedSearch2.c` treats its `size` argument as an
  inclusive high index, but its caller passes the list length. See
  "## Findings".

## Model

| member | source | states |
|---|---|---|
| Numerals.NumBound | GreyCodeChimera.c:102-111 | a numeral of len digits below n is below n^len |
| Numerals.LexLessNum | GreyCodeChimera.c:314-323 | for digit strings of equal length, lexicographic order coincides with numeral order, both directions |
| Numerals.NumInjective | GreyCodeChimera.c:102-111 | equal numerals of equal-length digit strings mean equal strings |
| Numerals.LexTotal | GreyCodeChimera.c:314-323 | two different sequences of equal length are ordered one way or the other |
| Numerals.RotLNum | GreyCodeChimera.c:744-762 | rotating left by one gives the old value times b minus the first digit times (b^len - 1) |
| Numerals.RotPeriodic | GreyCodeChimera.c:602-611 | when rotating by p gives the sequence back, every rotation is one of the first p |
| Numerals.DigitsNum | Old/analysis.c:381-385 | the digit expansion of x < b^len is a digit string whose numeral is x (the inverse of Num) |
| Chimera.GetSequenceNumber | GreyCodeChimera.c:102-111 | the loop's result is the first len steps read as a base-n numeral, most significant first |
| Chimera.SequenceNumberDistinguishes | GreyCodeChimera.c:102-111 | sequence numbers of codes are equal exactly when the codes are equal, and lie below n^len |
| Chimera.SwapLabels | GreyCodeChimera.c:122-150 | within the first limit entries a becomes b and b becomes a, other entries are kept, nothing past limit changes |
| PermQueue.SwapInvolution | GreyCodeChimera.c:122-130 | swapping the same pair twice restores the sequence |
| PermQueue.AddQueueSwaps | GreyCodeChimera.c:164-204 | returns n!-1 (0 for n <= 1), writes exactly Q(ind) into queue from index from and leaves the rest of the queue unchanged |
| PermQueue.QLength | GreyCodeChimera.c:164-204 | the swap queue of n elements has n!-1 swaps |
| PermQueue.QVisits | GreyCodeChimera.c:695-705 | applying the queue's swaps in order from an arrangement visits n! arrangements, pairwise distinct, i.e. every permutation exactly once |
| PermQueue.VisitsArr | GreyCodeChimera.c:695-705 | every arrangement visited is a rearrangement of the start over the same labels |
| Chimera.BuildQueue | GreyCodeChimera.c:695-705 | the queue array is a dummy entry followed by Q of the n digit labels, n! entries in all |
| Chimera.BuildMaskQueue | GreyCodeChimera.c:707-736 | the masks queue is a dummy followed by Q of the labels from low on, (n-low)! entries |
| Chimera.QueueEnumerates | GreyCodeChimera.c:695-705 | running the built queue from a distinct labelling visits n!+1 labellings whose last n! are pairwise distinct |
| Chimera.IsLower | GreyCodeChimera.c:314-323 | true exactly when the first sequence is strictly lexicographically smaller over len entries |
| Chimera.IsLowerStrict | GreyCodeChimera.c:314-323 | the order is irreflexive (equal sequences give false), asymmetric and total on different sequences |
| Chimera.BuildLowest | GreyCodeChimera.c:677-692 | the doubling loop builds exactly the skeleton Lowest(n): entry j is 1 << ctz(j+1) (the ruler sequence) for j < len-1, and the last entry is LAST_DIGIT_STEP = 2^(n-1) |
| Chimera.LowestSteps | GreyCodeChimera.c:677-692 | every skeleton entry is a single-bit mask below 2^n |
| Chimera.LowestNeighboursDiffer | GreyCodeChimera.c:677-692 | no two adjacent skeleton entries are equal, cyclically |
| Chimera.Factorial | GreyCodeChimera.c:695-698 | the loop computes n! |
| Chimera.BuildMultiples | GreyCodeChimera.c:744-762 | entry f of the table is f * (n^len - 1) for every digit f |
| Chimera.RotationStep | GreyCodeChimera.c:602-611 | N * n - table[first digit] is the numeral of the one-step left rotation |
| Chimera.RotationReturns | GreyCodeChimera.c:602-611 | the rotation loop visits the k-th rotation at step k and returns to the original numeral after len steps |
| Chimera.MarkForRemoval | GreyCodeChimera.c:269-302 | found exactly when an entry up to the inclusive high index agrees with the key from step 2 on; exactly the matching entries get first step 1 and all other entries are unchanged |
| SortedSearch.Compare | GreyCodeChimera.c:279-296 | the comparison loop's sign is the lexicographic order of the two keys, both directions |
| SortedSearch.Search | GreyCodeChimera.c:269-302 | the binary search finds an entry with the key, and reports not found exactly when no entry in range has it |
| SortedSearch.KeyUnique | GreyCodeChimera.c:269-302 | in a strictly sorted list, equal keys mean the same index |
| Checkers.In01020Pattern | ThreadSequenceCheckers.c:25-28 | on a window of a code, the check holds exactly when the five steps relabel to 01020 |
| Checkers.In01021Pattern | ThreadSequenceCheckers.c:42-45 | the check holds exactly when the five steps relabel to 01021 |
| Checkers.In01023Pattern | ThreadSequenceCheckers.c:59-62 | the check holds exactly when the five steps relabel to 01023 |
| Checkers.In0120Pattern | ThreadSequenceCheckers.c:75-78 | the check holds exactly when the four steps relabel to 0120 |
| Checkers.In0123Pattern | ThreadSequenceCheckers.c:92-95 | the check holds exactly when the four steps relabel to 0123 |
| Checkers.FiveStepExclusive | ThreadSequenceCheckers.c:25-62 | when the first two steps differ, at most one of the three five-step checks holds |
| Checkers.FourStepExclusive | ThreadSequenceCheckers.c:75-95 | the two four-step checks never hold together |
| Checkers.Lower01021Is01020 | ThreadSequenceCheckers.c:110-113 | the backward 01021 check is the forward 01020 check of the window four back |
| Checkers.Lower01023IsEarlier | ThreadSequenceCheckers.c:127-130 | the backward 01023 check holds exactly when the window four back is in 01020 or 01021 |
| Checkers.Lower01021Implies01023 | ThreadSequenceCheckers.c:110-130 | the backward 01021 check implies the backward 01023 check |
| Checkers.Lower0120Implies0123 | ThreadSequenceCheckers.c:143-163 | the backward 0120 check one position earlier implies the backward 0123 check |
| Checkers.SetStartsConsistent | GreyCodeChimera.c:790-794 | each partition's set start passes its own In check, is not rejected by its own backward check and has the stated number of digits |
| Checkers.SetStartsMatchPatterns | GreyCodeChimera.c:790-794 | the starts 12141, 12142, 12148, 1241, 1248 relabel to the patterns of their partitions |
| GmpTable.Hash1 | GMPHashTable.c:44-47 | the home slot lies in [0, size) |
| GmpTable.Hash2 | GMPHashTable.c:58-61 | the stride lies in [1, NUM_DIGITS - 1] |
| GmpTable.GMPTable.constructor | GMPHashTable.c:70-80 | a new table has the given size, no keys and count 0 |
| GmpTable.GMPTable.FindFree | GMPHashTable.c:92-97 | the probe loop stops at the first free slot of the key's probe sequence |
| GmpTable.FirstFree | GMPHashTable.c:92-97 | the probe loop on the occupied flags: the slot reached is free and every earlier probe of the run was occupied |
| GmpTable.GMPTable.Insert | GMPHashTable.c:89-102 | the key set gains key, count grows by one even for a key already present, and exactly one free slot is written |
| GmpTable.GMPTable.Contains | GMPHashTable.c:112-130 | true exactly when key is stored; changes nothing |
| GmpTable.ProbeFor | GMPHashTable.c:112-130 | the probe walk stops at a slot holding the key (found) or at a free slot (not found); every earlier probe held another key |
| GmpTable.GMPTable.Empty | GMPHashTable.c:139-143 | afterwards no key is stored and count is 0; the size is a constant |
| GmpTable.InsertLayout | GMPHashTable.c:89-102 | storing a key in the first free slot of its probe sequence keeps every stored key reachable by its probes |
| GmpTable.AbsentLayout | GMPHashTable.c:122-129 | a probe sequence that reaches a free slot after passing only other keys proves the key absent |
| Probing.ProbeInjective | GMPHashTable.c:93-97 | with a stride that spreads, the first m probes are pairwise distinct slots |
| Probing.ProbesWithin | GMPHashTable.c:93-97 | when the first t probes all land in occupied slots, t is at most the number of occupied slots, so probing stops |
| Probing.OddSpreads | SequenceHashTable.c:71-79 | an odd stride reaches every slot of a power-of-two table |
| Probing.FactorialTableSpreads | GreyCodeChimera.c:549 | every stride 1..n-1 reaches every slot of a table of 2*n!+1 slots |
| SeqTable.SeqHash1 | SequenceHashTable.c:53-60 | the accumulating loop computes the home slot, at most modMask |
| SeqTable.SeqHash2 | SequenceHashTable.c:71-79 | the stride is odd, at least 1 and at most modMask/2 + 2 |
| SeqTable.HomeBound | SequenceHashTable.c:53-60 | the home slot of every key is below the table size |
| SeqTable.StrideOdd | SequenceHashTable.c:71-79 | the stride is odd and so reaches every slot |
| SeqTable.SequenceTable.constructor | SequenceHashTable.c:90-99 | size is 2^e, modMask is size - 1, no keys and count 0 |
| SeqTable.SequenceTable.Resize | SequenceHashTable.c:107-159 | size grows eightfold, modMask follows, count and the exact key set are kept |
| SeqTable.RehashAll | SequenceHashTable.c:118-149 | rehashing into the larger table keeps the key set and the count, and every key reachable |
| SeqTable.SequenceTable.Search | SequenceHashTable.c:247-263 | finds the key exactly when stored; otherwise ends at the first free slot of its probe sequence |
| SeqTable.SequenceTable.InsertIfNotContains | SequenceHashTable.c:171-201 | true exactly when key was absent; the key set gains key, count grows by one exactly when added, the table resizes exactly when 3*count > size, and a free slot remains |
| SeqTable.SequenceTable.Insert | SequenceHashTable.c:211-234 | the key set gains key, count always grows by one (no duplicate check), resize exactly when 3*count > size |
| SeqTable.SequenceTable.Contains | SequenceHashTable.c:244-264 | true exactly when key is stored; changes nothing |
| CodeSearch.Walk | GreyCodeChimera.c:402-417 | the XOR walk of t steps has t+1 values and starts at 0 |
| CodeSearch.WalkBound | GreyCodeChimera.c:402-417 | a walk of steps that are masks below 2^n stays below 2^n |
| CodeSearch.FrameForward | Old/CountCodes.c:236-246 | a fresh non-zero value keeps the flags frame (flags are set exactly for the walk values before the cursor) one step further on |
| CodeSearch.FrameBack | Old/CountCodes.c:263-268 | stepping the cursor back clears exactly the flag of the value left |
| CodeSearch.Pigeonhole | Old/CountCodes.c:228-246 | 2^n distinct values below 2^n include every value below 2^n |
| CodeSearch.NoFreshAtEnd | Old/CountCodes.c:228-246 | at the last position every non-zero value is already flagged, so only 0 can close the cycle |
| CodeSearch.FrameClosed | GreyCodeChimera.c:402-417 | a full frame whose walk returns to 0 at the end is a cyclic Gray code |
| CodeSearch.GrayAdjacent | GreyCodeChimera.c:402-417 | in a cyclic Gray code on n >= 2 bits adjacent steps differ |
| CodeSearch.CandidateIncreases | Old/CountCodes.c:273-287 | raising one step and keeping the prefix strictly increases the candidate's base-n numeral |
| CodeSearch.Increment | GreyCodeChimera.c:506-519 | the bumped step differs from its predecessor, the prefix up to it keeps its order, the suffix is reset to the skeleton, and the frame holds |
| CodeSearch.Refill | GreyCodeChimera.c:513-517 | the suffix after the cursor is the matching prefix of the skeleton |
| CodeSearch.BumpLoop | GreyCodeChimera.c:506-512 | the doubling loop stops at a step that differs from its predecessor, raising the candidate |
| CodeSearch.Descend | GreyCodeChimera.c:499-512 | backing up past exhausted steps keeps the frame and stops at a step that can still be doubled |
| CodeSearch.IncreasingDistinct | Old/CountCodes.c:273-287 | codes found in strictly increasing numeral order are pairwise distinct |
| CountCodes.Check | Old/CountCodes.c:228-246 | the check loop keeps the frame, and reports valid only for a cyclic Gray code closed at the last position |
| CountCodes.AdvanceValid | Old/CountCodes.c:263-269 | after a valid code the candidate is raised and the frame holds at the new cursor |
| CountCodes.SearchStep | Old/CountCodes.c:224-288 | one pass keeps the frame and the record of codes found, strictly increases the candidate, and keeps the first two steps while test[1] is the start step |
| CountCodes.RecordValid | Old/CountCodes.c:250-269 | a valid candidate is appended to the codes found, the count grows by one, and the candidate moves strictly higher with every code found below it |
| CountCodes.SkipInvalid | Old/CountCodes.c:273-287 | an invalid candidate adds nothing; the candidate moves strictly higher keeping the frame and every code found below it |
| CountCodes.CalculateCodesWithSetStart | Old/CountCodes.c:154-309 | count is the number of codes found, each one a cyclic Gray code starting 1, startStep, found in strictly increasing order |
| CountCodes.Start | Old/CountCodes.c:214-216 | fresh buffers of len steps that start 1, startStep, with the frame holding at the first position |
| CountCodes.CountAll | Old/CountCodes.c:347-370 | the total is the number of distinct codes over all start steps (each starting 1 then not 1), and the tentative count is n times it |
| ChimeraSearch.SetStartShape | GreyCodeChimera.c:372-374 | each partition's fixed start consists of single-bit masks and fits the search shape |
| ChimeraSearch.SetStartWalks | GreyCodeChimera.c:372-374 | the XOR walks of the five set starts, value by value |
| ChimeraSearch.FirstCandidate | GreyCodeChimera.c:372-374 | the first candidate is the set start, then the skeleton, then the wrapped copy of the start's first steps |
| ChimeraSearch.Layout | GreyCodeChimera.c:372-374 | the buffer is laid out as FirstCandidate |
| ChimeraSearch.Start | GreyCodeChimera.c:378-389 | the buffers start at FirstCandidate with the frame holding after the set start |
| ChimeraSearch.NextValue | GreyCodeChimera.c:402-417 | one check step either stops, or extends the frame by one, or reports a cyclic Gray code closed at the end |
| ChimeraSearch.Validate | GreyCodeChimera.c:396-418 | the check loop keeps the frame and the no-lower-partition invariant, and reports valid only for a Gray code |
| ChimeraSearch.SpecialCheck | GreyCodeChimera.c:422-427 | true exactly when a backward partition check fires in the wrapped tail |
| ChimeraSearch.SkipBack | GreyCodeChimera.c:499-503 | the cursor backs up to len - 4 and the frame holds there |
| ChimeraSearch.SeedDigits | GreyCodeChimera.c:469-473 | the seed is the digit (bit position) of each step mask |
| ChimeraSearch.RecordSeed | GreyCodeChimera.c:430-476 | a candidate is appended to the seeds exactly when it is a seed code of the partition |
| ChimeraSearch.CheckCandidate | GreyCodeChimera.c:396-476 | checking one candidate keeps the frame and records it only if it is a seed code |
| ChimeraSearch.SearchStep | GreyCodeChimera.c:396-519 | one pass keeps all invariants and strictly increases the candidate's numeral |
| ChimeraSearch.CalculateCodesWithSetStart | GreyCodeChimera.c:337-532 | every seed found is a seed code of the partition (a Gray code with the set start, no lower partition, and passing the seed check, which SeedCodeMinimal turns into minimality among its relabelled rotations), listed in strictly increasing order with its digits |
| RotationCheck.MatchSetStart | GreyCodeChimera.c:442-444 | the copy becomes MatchStart of the old copy: for each set-start position whose step differs, the two labels are exchanged throughout |
| RotationCheck.QueueCheck | GreyCodeChimera.c:450-456 | no relabelling along the swap queue gives a window below the candidate |
| RotationCheck.RotationStep | GreyCodeChimera.c:433-459 | no window of the rotation at k, relabelled in any way the loop tries, is below the candidate |
| RotationCheck.SeedCheck | GreyCodeChimera.c:430-459 | the check returns isSeed exactly when no window it builds (each rotation of the candidate, relabelled to match the set start and then along the swap queue) is below the candidate |
| RotationCheck.RejectedHasLowerVariant | GreyCodeChimera.c:430-459 | on candidates whose cyclic windows never repeat a step or alternate two, a rejected candidate has a rotation that, relabelled by swaps of the n masks only, begins with the set start and is strictly below it, so rejection is sound |
| RotationCheck.InPartitionPattern | GreyCodeChimera.c:435-444 | on such a window the partition test holds only if the window relabels to the set start's pattern, so the matching swaps leave the set start in front |
| RotationCheck.QueueAvoidsStart | GreyCodeChimera.c:448-456 | the queue swaps exchange step masks of free digits only, none of them in the set start |
| RotationCheck.SeedPassesExactly | GreyCodeChimera.c:430-459 | both directions together: the check passes exactly when no rotation relabelled by swaps of the n masks to begin with the set start is below the candidate |
| RotationCheck.PassedHasNoLowerVariant | GreyCodeChimera.c:430-459 | the converse: with the partition's queue over its free digits, a candidate that passes has no rotation that, relabelled by any swaps of the n masks to begin with the set start, is lexicographically below it |
| ChimeraSearch.SeedCodeMinimal | GreyCodeChimera.c:430-476 | a seed code the search reports is at most each of its relabelled rotations that begin with the partition's set start |
| ChimeraSearch.GrayCycleClean | GreyCodeChimera.c:402-417 | a cyclic Gray code (the search's validity test) never takes the same step twice in a row nor alternates two steps as a b a b, in any cyclic window |
| ChimeraSearch.SeedTestExact | GreyCodeChimera.c:430-459 | on a cyclic Gray code the seed check passes if and only if the code is at most each of its relabelled rotations that begin with the set start |
| Extrapolation.BuildHalves | GreyCodeChimera.c:567-569 | the halving milestones of n!, ending at n! |
| Extrapolation.HalfShape | GreyCodeChimera.c:567-569 | milestone i is the odd part of n! times 2^i |
| Extrapolation.HalfEnds | GreyCodeChimera.c:567-569 | the first milestone is odd and the last is n! itself |
| Extrapolation.FindRotation | GreyCodeChimera.c:598-611 | present exactly when some rotation's numeral is in the table; otherwise no rotation is |
| Extrapolation.ProbeRotation | GreyCodeChimera.c:605-609 | present exactly when the current numeral is in the table; otherwise the result is the next rotation's numeral, and after the last rotation it is the starting numeral again |
| Extrapolation.NextRotation | GreyCodeChimera.c:608-609 | times n less the multiple of the leading digit is the numeral of the next rotation; the last step returns to the sequence's own numeral |
| Extrapolation.InsertNew | GreyCodeChimera.c:612-614 | a relabelling with no stored rotation is added: the table holds one more representative and the bookkeeping for the next queue position holds |
| Extrapolation.PeriodCovers | GreyCodeChimera.c:598-611 | when rotation returns early, checking the first period covers every rotation |
| Extrapolation.ExtrapolateSeed | GreyCodeChimera.c:576-637 | the per-seed count lies in [1, n!]; the relabellings stored are codes, no two rotations of each other, and every relabelling visited is a rotation of one stored; with the main swap queue and a seed that uses every digit, the count is exactly the number of rotation classes among the seed's n! relabellings, whichever of the three exits the loop takes |
| Extrapolation.ScanQueue | GreyCodeChimera.c:585-637 | the queue loop from an empty table: the same count, bookkeeping and exact-class-count guarantee as ExtrapolateSeed, for each of the three ways it can end |
| Extrapolation.HalvesAgreeSlices | GreyCodeChimera.c:579 | comparing the two halves entry by entry is comparing them as slices, as the memcmp does |
| Extrapolation.MultiplicityHalfTurn | GreyCodeChimera.c:579 | the multiplier is len/2 exactly when the two halves of the seed agree, and len otherwise |
| Extrapolation.ExtrapolateSeeds | GreyCodeChimera.c:542-641 | each seed count lies in [1, n!] and, with the main swap queue, is the seed's number of rotation classes of relabellings for every seed that uses all digits; the total is the sum of count times multiplier |
| Extrapolation.ExtrapolateOne | GreyCodeChimera.c:576-640 | one seed: its count lies in [1, n!], is its class count under the main queue when it uses all digits, and what it adds to the total is the count times the seed's multiplicity |
| Extrapolation.CountSeeds | GreyCodeChimera.c:572-641 | the loop over the seeds: one count per seed in [1, n!], the class count for every seed using all digits under the main queue, and the running total equal to the tally |
| Extrapolation.VisitedRelabelling | GreyCodeChimera.c:590-595 | after t+1 swaps of the main queue the local copy is the seed relabelled by the t-th arrangement the queue visits |
| Extrapolation.ClassBounds | GreyCodeChimera.c:591-637 | after q relabellings the stored count is at most the class count, and the class count exceeds it by at most the n! - q relabellings still to come |
| Extrapolation.ClassMilestone | GreyCodeChimera.c:564-569 | the class count of a seed of length 2^n that uses every digit is one of the halving milestones of n! |
| Extrapolation.PassedHalfExit | GreyCodeChimera.c:619-629 | a stored count past the milestone just below n! means the class count is n!, the count the exit sets |
| Extrapolation.StableExit | GreyCodeChimera.c:630-635 | a stored count on a milestone, with fewer relabellings left than that milestone, is the class count |
| Extrapolation.FullPass | GreyCodeChimera.c:591-637 | after all n! relabellings of the main queue the stored count is the class count |
| Extrapolation.HalfOrder | GreyCodeChimera.c:567-569 | the milestones are ordered as their indices, both directions |
| Extrapolation.CtzBound | GreyCodeChimera.c:556 | when 2^j divides x > 0, j is at most the number of trailing zeros of x, so numHalves bounds every power-of-two divisor |
| Relabellings.PermsExactly | GreyCodeChimera.c:695-705 | the arrangements the main swap queue visits are exactly the permutations of the n digits |
| Relabellings.PermsCard | GreyCodeChimera.c:695-705 | there are n! of them |
| Relabellings.OrbitStabiliser | GreyCodeChimera.c:556-557 | n! is the number of rotation classes among the relabellings times the number of relabellings that send the seed to one of its rotations |
| Relabellings.StabiliserDivides | GreyCodeChimera.c:601-611 | for a seed that uses every digit those relabellings act freely on its rotations, so the rotations split into orbits of their size |
| Relabellings.RotationsDivide | GreyCodeChimera.c:601-611 | the number of distinct rotations of a sequence divides its length |
| Relabellings.Pow2Divisor | GreyCodeChimera.c:556-557 | a divisor of 2^n is a power of two |
| Relabellings.ClassCountShape | GreyCodeChimera.c:556-569 | for a seed of length 2^m that uses every digit, n! is its class count times 2^j for some j <= m |
| CodeSearch.FlipsEveryBit | GreyCodeChimera.c:402-417 | every digit below n is the step of some position of a cyclic Gray code of length 2^n |
| ChimeraMain.SearchPartition | GreyCodeChimera.c:790-818 | one partition's seeds are the digits of its seed codes in increasing order, each seed's count is its number of rotation classes of relabellings, and the code total is their tally |
| ChimeraMain.JoinSearch | GreyCodeChimera.c:804-824 | joining a partition adds its seeds and codes to the running totals, every count being its seed's class count |
| ChimeraMain.TallyBounds | GreyCodeChimera.c:640 | a seed list's code total is between seeds * len/2 and seeds * n! * len |
| ChimeraMain.CodeTotalBounds | GreyCodeChimera.c:804-830 | the same bounds hold for the grand totals |
| ChimeraMain.SearchAll | GreyCodeChimera.c:774-830 | the totals are over all five partitions: the seed total is the number of seeds found and the code total is the sum, over those seeds, of each seed's class count times its multiplier, within those bounds |
| ChimeraMain.JoinAll | GreyCodeChimera.c:803-829 | joining the searches from the last partition to the first gives one seed list per partition, with the seed total and the code total over those lists at their class counts |
| SeedSearch.AddQueueSwaps | Old/SeedSearch2.c:86-126 | for n >= 2, returns n!-1 and writes exactly Q(ind) from index from |
| SeedSearch.BuildSwapQueue | Old/SeedSearch2.c:217-227 | the queue is Q of the n labels, n!-1 swaps |
| SeedSearch.MarkAllSorted | Old/SeedSearch2.c:137-170 | marking keeps the list sorted on steps 4 onward |
| SeedSearch.UnmarkedMarkAll | Old/SeedSearch2.c:367-382 | compacting after marking equals filtering the keys out of the unmarked list |
| SeedSearch.UnmarkedIdempotent | Old/SeedSearch2.c:367-382 | compacting twice is compacting once |
| SeedSearch.ProbesPastEnd | Old/SeedSearch2.c:144-149 | with the list length as the inclusive high index, the search reads one past the list |
| SeedSearch.ProbesWithin | Old/SeedSearch2.c:144-166 | with the high index inside the list, every index read lies in [low, high] |
| SeedSearch.MarkForRemoval | Old/SeedSearch2.c:137-170 | the counter grows by one and exactly the entries with the key are marked (high = size - 1) |
| SeedSearch.ScanFinds | Old/SeedSearch2.c:313-332 | the scan's skips never pass a rotation that starts 0102 |
| SeedSearch.ScanRotations | Old/SeedSearch2.c:313-332 | marks exactly the keys of the rotations starting 0102 and counts them |
| SeedSearch.Round | Old/SeedSearch2.c:313-363 | marks exactly the keys of all relabelled rotations of the seed |
| SeedSearch.SwapAndScan | Old/SeedSearch2.c:336-362 | relabels the doubled seed by one swap, then scans it |
| SeedSearch.Doubled | Old/SeedSearch2.c:288-289 | the buffer is the seed followed by itself |
| SeedSearch.RoundFindsSeed | Old/SeedSearch2.c:313-363 | a round marks the seed itself, so at least one entry |
| SeedSearch.FindSeed | Old/SeedSearch2.c:283-292 | found exactly when an unmarked entry exists, and then it is the first unmarked one |
| SeedSearch.Compact | Old/SeedSearch2.c:367-382 | the new size is the number of unmarked entries, which are kept in order |
| SeedSearch.UnmarkedSorted | Old/SeedSearch2.c:367-382 | compaction keeps the list sorted |
| SeedSearch.Cull | Old/SeedSearch2.c:271-388 | the seeds are CullSeeds of the unmarked entries |
| SeedSearch.CullOnce | Old/SeedSearch2.c:283-382 | one pass takes the first unmarked entry as seed, marks its round, and compacts |
| SeedSearch.RoundKeysSound | Old/SeedSearch2.c:313-363 | every key marked is a relabelled rotation of the seed |
| SeedSearch.RoundKeysComplete | Old/SeedSearch2.c:313-363 | every relabelled rotation of the seed starting 0102 is marked |
| SeedSearch.CullSeedsApart | Old/SeedSearch2.c:271-388 | no later seed is a relabelled rotation of an earlier one |
| SeedSearch.CullSeedsCover | Old/SeedSearch2.c:271-388 | every input sequence is covered by some seed |
| SeedSearch.Signature | Old/SeedSearch2.c:408-411 | entry d counts the occurrences of digit d, and the counts sum to the seed length |
| SeedSearch.FindSeeds | Old/SeedSearch2.c:271-411 | the seeds are the culled list and each signature sums to len |
| Analysis.RotateSequenceDigits | Old/analysis.c:328-332 | rotateSequence moves the leading base-n digit to the end |
| Analysis.RotateSequenceBound | Old/analysis.c:328-332 | the result stays below n^len |
| Analysis.RotateSequenceCycle | Old/analysis.c:328-332 | len applications give x back |
| Analysis.SequenceNumber | Old/analysis.c:381-385 | the loop gives the characters' digits read as a base-n numeral |
| Analysis.SequenceNumberDigits | Old/analysis.c:381-385 | that numeral is below n^len and expands back to the same digits |
| Analysis.SwapCharsExchanges | Old/analysis.c:342-347 | a becomes b, b becomes a, all other characters stay |
| Analysis.SwapCharsInvolution | Old/analysis.c:342-347 | swapping twice restores the line |
| Analysis.SwapSequence | Old/analysis.c:342-347 | the loop swaps within the first len characters and keeps the rest |
| Analysis.OrderedElements | Old/analysis.c:83-94 | an ordered tree lists its keys in strictly increasing order |
| Analysis.RotateUpOrder | Old/analysis.c:122-150 | a rotation keeps the in-order keys and the ordering |
| Analysis.RestructureOrder | Old/analysis.c:179-202 | restructuring keeps the keys and the ordering |
| Analysis.Descend | Old/analysis.c:83-94 | the search stops at the node holding value or at the sentinel where it belongs |
| Analysis.InsertStep | Old/analysis.c:179-206 | after one rebalance the subtree is AVL, holds value, and its height grows by at most one |
| Analysis.Insert | Old/analysis.c:159-208 | the tree stays AVL (ordered, heights correct, balanced) and gains exactly value |
| Analysis.AVLTree.constructor | Old/analysis.c:216-228 | an empty tree of size 0 |
| Analysis.AVLTree.FindValue | Old/analysis.c:83-94 | the sentinel exactly when value is absent, otherwise its node |
| Analysis.AVLTree.TreeNotContains | Old/analysis.c:32 | true exactly when value is not a stored key |
| Analysis.AVLTree.AddNode | Old/analysis.c:159-208 | the key set gains value, size grows by one, the tree stays AVL |
| Sorting.IntCompare | Old/SortingTest.c:200-203 | -1, 0 or 1 exactly when a < b, a == b or a > b |
| Sorting.SelectionSort | Old/SortingTest.c:235-254 | sorted ascending and a permutation of the input |
| Sorting.InsertionSort | Old/SortingTest.c:210-229 | sorted ascending and a permutation of the input |
| Sorting.QuickSortHelper | Old/SortingTest.c:78-110 | arr[low..high] becomes a sorted permutation of itself, other indices unchanged |
| Sorting.Partition | Old/SortingTest.c:83-102 | smaller entries before the pivot, the rest after it, a permutation of the range |
| Sorting.QuickSort | Old/SortingTest.c:115-118 | sorted ascending and a permutation of the input |
| Sorting.Heapify | Old/SortingTest.c:127-165 | given heap order at every parent index above i, heap order then holds from i on; the array is a permutation of the old one and entries outside i and [2i+1, n) keep their value |
| Sorting.HeapRootMax | Old/SortingTest.c:171-191 | a heap's root is its largest entry |
| Sorting.HeapSort | Old/SortingTest.c:171-191 | sorted ascending and a permutation of the input |
| Sorting.CountSort | Old/SortingTest.c:48-69 | for non-negative entries, sorted ascending and a permutation of the input |
| Sorting.Count | Old/SortingTest.c:53-58 | entry v of the count array is the number of occurrences of v |
| Sorting.Place | Old/SortingTest.c:62-65 | the output array is the tally of the input, each value repeated by its count |
| Sorting.TallyPerm | Old/SortingTest.c:48-69 | the tally is a permutation of the input |
| Sorting.TallySorted | Old/SortingTest.c:48-69 | the tally is sorted |
| Sorting.SortedPermUnique | Old/SortingTest.c:48-69 | two sorted permutations of each other are equal |
| Sorting.FrequencyArray | Old/SortingTest.c:262-269 | entry b counts the entries whose half is b |
| Sorting.FrequencyDecides | Old/SortingTest.c:262-269 | two frequency tables agree exactly when the halved arrays are permutations of each other |

## Left out

- Threads (`pthread_create`, `pthread_join`, `pthread_exit`, the thread
  structs): each partition's search and each extrapolation is one sequential
  call.
- Console output, timing and the progress prints: they do not change the
  result.
- File I/O: the `FILE_OUTPUT` paths of `Old/CountCodes.c`, the file reading
  and writing of `Old/SeedSearch2.c` (183-263, 394-427), and `readLine` and
  the input loop of `Old/analysis.c` (355-430). Sequences come in as
  parameters.
- Memory management: GMP initialisation and clearing, `malloc`/`realloc`/`free`
  of seed lists, buckets and tree nodes, `freeGMPTable`, `freeSeqTable`,
  `freeTree`. Lists are sequences and buffers are fresh arrays.
- Floating point: the upper-bound estimate at GreyCodeChimera.c:834-835 is
  dropped. `SIZE_LIMIT_FRACTION` is restated exactly as `3 * count > size`.
  `HIGHEST_POWER` (`pow`) is exact exponentiation.
- `shuffle`, `testSort` and `main` of `Old/SortingTest.c` (randomness and
  benchmarking); `inOrderHelper`/`printInOrder` and the `nodesAdded` counter of
  `Old/analysis.c` (printing only).
- The two claims the source states without proof: that the codes starting
  with each digit are equally many (Old/CountCodes.c:6-12), and that the
  skeleton is the lowest sequence that can be a code (Old/CountCodes.c:34).
  The model does not prove them, nor what rests on them below. That the five
  partitions do not overlap is not proved either.
- CountCodes.CalculateCodesWithSetStart: only soundness is proved (every code
  counted is a cyclic Gray code starting 1, startStep, counted once). That
  the search finds every such code rests on the skeleton's minimality and is
  not proved.
- CountCodes.CountAll: the total is proved to count distinct codes found, not
  all codes. It inherits the missing completeness above, and n times it
  equals the number of all codes only under the equal-counts claim. It
  requires at least one digit: with none, the C's `LAST_DIGIT_STEP` shifts by
  -1. With one digit no search runs and the total is 0.
- ChimeraSearch.CalculateCodesWithSetStart: only soundness is proved (every
  seed reported is a seed code of the partition, in increasing order). That
  every seed code is reported rests on the skeleton's minimality and is not
  proved.
- Extrapolation.ExtrapolateSeeds: the exact class count is proved for seeds
  that use every digit, which every seed the searches report does
  (CodeSearch.FlipsEveryBit). For other seeds only the bounds hold.
- ChimeraMain.SearchAll: the code total is the sum of class counts times multipliers
  over the seeds found. That this is the number of all cyclic Gray codes
  needs the searches' completeness above, which is not proved.
- The `CHECK_EVERYTHING` mode of `Old/CountCodes.c`, which lets the first
  step vary.
- GreyCodeTypes.h holds only type names and the `len` constant. n is a
  parameter and `len` is `Pow2(n)`.
- Machine integers: C's `unsigned long`, `int` and `char` are unbounded here.
  Overflow of the code totals and of the `char` signature counts is not
  modelled.
- GmpTable.GMPTable.Insert: requires `count < size` and a stride that reaches
  every slot. The C loops forever on a full table. The caller sizes the
  table at 2*n!+1 slots, which `Probing.FactorialTableSpreads` shows
  suffices.
- GmpTable.GMPTable.Contains: requires `count < size` for the same reason.
- SeqTable.SequenceTable.Contains: requires `count < size`, which
  `InsertIfNotContains` and `Insert` maintain.
- Analysis.AVLTree.AddNode: requires `value != 0` and `value` absent. 0 is
  the sentinel's value and the caller checks `treeNotContains` first. The
  nodes' parent pointers are modelled as a path of crumbs through a tree
  value, so aliasing of nodes is not modelled. The C's fallback of returning
  the sentinel from `tallerChild` and `rotate` is kept in
  `Analysis.TallerChildIsLeft` and `Analysis.RotateUp`.
- Sorting.InsertionSort: requires at least two entries, as the C's
  `do`-`while` starts at the second entry. The other sorts take arrays of any
  length rather than `NUM_ELEMS`.
- Sorting.Heapify: requires heap order at every parent index above i, not
  only inside the two subtrees of i. Every call in `heapSort` meets that
  stronger hypothesis: the building loop works downward from the last parent
  and each extraction restores from the root. The frame says that entries
  other than i and outside [2i+1, n) keep their value. That is weaker than
  "only the subtree at i changes".
- Sorting.FrequencyArray: returns the table that the C builds and then
  discards.
- Extrapolation.ExtrapolateSeed: the per-seed count is reported as a result.
  The C instead overwrites the table's `count`.

## Findings

| source | as written | input that shows it | evidently intended | confidence | as-written member | corrected member |
|---|---|---|---|---|---|---|
| Old/SeedSearch2.c:144 | `markForRemoval` uses its `size` argument as the inclusive high index, and the caller at line 328 passes the list length `seqListSize`. | A one-entry list `[0,1,0,2,0,1,0,2]` searched for `[0,1,0,2,1,0,1,2]`: the first probe compares index 0, the key is larger, and the second probe reads index 1, past the list. | The high index is the list length minus one. | not executed | SeedSearch.ProbesPastEnd | SeedSearch.MarkForRemoval |
