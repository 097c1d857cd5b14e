# Knights, cipher relay and letter frequencies — a Dafny model

This project models the three exercises of a parallel-programming course:

- **Knight selection** (`knight_selection.dfy`, module `KnightSelection`).
  Knights sit at a round table, and each knight is a thread that raises and
  lowers its hand. A selector picks raised hands, and no two neighbours may
  both be selected. The mutex-protected regions become atomic transitions
  on an immutable state. An arbitrary sequence of these transitions stands
  for any interleaving of the threads.
- **City capture** (`city_capture.dfy`, module `CityCapture`). This is an
  MPI program. Rank 0 is the commander: it captures the cities 1..N in a
  shuffled order and relays cipher parts between them. Ranks 1..N are the
  cities. Each point-to-point send is a `Message(dest, tag, payload)`.
  - A commander step is a pure function from its state and the two values
    it receives to the next state and the list of messages it sends.
  - A city step is a pure function from the step value it receives, the
    values its blocking receives return, and the part it generates.
- **Book analyzer** (`book_analyzer.dfy`, module `BookAnalyzer`). This is
  an OpenMP letter-frequency count of a Russian text.
  - Positions are assigned to threads by an arbitrary `owner` sequence,
    which covers every dynamic schedule.
  - Each thread counts into its own 33-bucket slice of one flat array at
    `t*33 + i`.
  - The slices are merged. Buckets with a positive sum are stored under
    their letter, and the entries are sorted by descending count.

Main results:

- **Knights.** From a freshly built table of two or more knights, every
  interleaving keeps this invariant:
  - no two neighbours are selected;
  - the counter equals the number of selected flags and never exceeds the
    requirement;
  - a raised hand has no raised or selected neighbour.
  
  With a single knight the knight is its own neighbour. A two-step run then
  selects it next to itself (`LoneKnightBreaksNoAdjacent`).
- **Capture order.** The order is a permutation of 1..N.
- **Commander step.** A step keeps "captured = the order's prefix". At step
  s it relays:
  - the new part on tag 2+s to exactly the s earlier cities;
  - from step 1 on, the first city's part on tag 4+s to the earlier cities
    except the first, and on tag 5+s to the current city.
- **Relay mismatch.** `CurrentCityWaitsOnUnsentTags` shows that from step 1
  on, the city being captured waits on tags 2+s and 4+s. The commander
  sends it only tags 0 and 5+s at that step, so the two sides of the relay
  do not meet.
- **Book analyzer.**
  - However the positions are split among threads, and with any thread
    count, the merged buckets equal the sequential counts.
  - The map holds exactly the positive buckets. The sorted list is a
    permutation of the map's entries, and its counts add up to the letter
    total.
  - я falls into the ё bucket and is reported as ё.

## Model

| member | source | states |
|---|---|---|
| CityCapture.CityCount | part3-mpi/src/main.cpp:15-25 | The city count is always in [2, 50]. It equals the argument when that is in range, and is 20 for a missing or out-of-range argument. |
| CityCapture.RoleOf | part3-mpi/src/CityCapture.cpp:28-38 | Rank 0 is the commander. Ranks 1..N are the cities, each with its rank as id. Every other rank is idle. Each role is stated as an if-and-only-if. |
| CityCapture.CipherPart | part3-mpi/src/CityCapture.cpp:225-230 | A generated part always lies in [1000, 2000), whatever the two 64-bit hash values. |
| CityCapture.InitialOrderValues | part3-mpi/src/CityCapture.cpp:47-50 | Before the shuffle, position i holds city id i+1. |
| CityCapture.Shuffle | part3-mpi/src/CityCapture.cpp:52-54 | Any Fisher-Yates swap sequence keeps the length and the multiset of ids. |
| CityCapture.MakeCaptureOrder | part3-mpi/src/CityCapture.cpp:46-54 | The capture order is a rearrangement of 1..N. |
| CityCapture.CaptureOrderIsPermutation | part3-mpi/src/CityCapture.cpp:46-54 | A capture order has N entries, all in 1..N. Every id 1..N occurs in it, and no id occurs twice. |
| CityCapture.InitCommander | part3-mpi/src/CityCapture.cpp:66-67 | The commander starts at step 0, with nothing captured and N zero cipher slots. |
| CityCapture.StepCommander | part3-mpi/src/CityCapture.cpp:69-116 | One capture step. It advances the step and appends the current city to the captured list. It stores the received part in that step's slot and leaves every other slot unchanged. Filtered by tag, its sends are: the step notice to the current city on tag 0; the part to every captured city on tag 2+s; nothing on 4+s and 5+s while the captured list is empty; otherwise the first city's part to the other captured cities on 4+s and to the current city on 5+s. Nothing is sent on any other tag, and every send goes to the current city or to a city already captured. |
| CityCapture.StepKeepsCapturedPrefix | part3-mpi/src/CityCapture.cpp:88-116 | A step keeps the commander invariant: the captured list is the order's prefix up to the step. The tag 2+s destinations are exactly order[0..s). Step 0 has no tag 4+s relay. From step 1 on, the tag 4+s destinations are order[1..s) and the tag 5+s destination is order[s]. |
| CityCapture.RunCommander | part3-mpi/src/CityCapture.cpp:66-137 | After the loop, every city has been captured, in order. Every slot holds the part received at its step. The sends are, in order, the sends of every step, each taken with the cities before it in the order already captured, followed by the N finish signals. |
| CityCapture.StepNoticesFollowOrder | part3-mpi/src/CityCapture.cpp:69-77 | Across the first k steps, the commander's log holds exactly k step notices on tag 0. The i-th goes to the i-th city of the capture order and carries i. |
| CityCapture.FinishSignals | part3-mpi/src/CityCapture.cpp:133-137 | One message to each city 1..N in turn, each on tag 100 carrying -1. |
| CityCapture.InitCity | part3-mpi/src/CityCapture.cpp:147-153 | A city starts holding only its own part. |
| CityCapture.StepCity | part3-mpi/src/CityCapture.cpp:156-213 | The received value -1 exits the loop, and only -1 does. Any other value that does not index the order is an undefined step. Otherwise the values received are appended to the parts, and every send goes to rank 0. The city sends its own part on tag 1 exactly when it is the city captured at that step. It sends a generated part on tag 3+step exactly when it is the order's first city and either the step is 0 or it is not the city captured at that step. Nothing is sent on any tag other than 1 and 3+step. |
| CityCapture.RunCityOnlyAppends | part3-mpi/src/CityCapture.cpp:156-216 | Over any run of deliveries, the list of parts only grows at the end. Earlier entries are kept, and the id, order and own part never change. |
| CityCapture.CityKeepsOwnPartFirst | part3-mpi/src/CityCapture.cpp:151-216 | From the initial state, the first entry of a city's parts is always its own part. |
| CityCapture.FinishSignalEndsCities | part3-mpi/src/CityCapture.cpp:133-162 | Every finish signal the commander sends is outside [0, N) and makes the city exit its loop. |
| CityCapture.RelayedPartIsNotAStep | part3-mpi/src/CityCapture.cpp:156-165 | A cipher part taken by the wildcard-tag receive in place of a step value never indexes an order of at most 50 cities. |
| CityCapture.CurrentCityWaitsOnUnsentTags | part3-mpi/src/CityCapture.cpp:88-193 | From step 1 on, the captured city waits on tags 2+s and 4+s. Yet every message the commander sends it at that step is on tag 0 or 5+s. |
| CityCapture.ValidateResults | part3-mpi/src/CityCapture.cpp:263-290 | The commander succeeds if and only if every reported size equals N. A city succeeds if and only if its own size equals N. An idle rank fails. |
| KnightSelection.NewKnights | part1-threads/src/KnightSelection.cpp:9-21 | Construction succeeds if and only if 0 < required <= total. The new table has no selection, no raised hand and a zero count. |
| KnightSelection.NeighborsAreRemainders | part1-threads/src/KnightSelection.cpp:23-30 | The neighbours, defined by wrapping at the ends of the ring, are exactly the source's (id - 1 + n) % n and (id + 1) % n. |
| KnightSelection.NeighborsAreAdjacent | part1-threads/src/KnightSelection.cpp:23-30 | b is in the neighbour list of a if and only if the two seats are adjacent on the ring. The relation is symmetric. |
| KnightSelection.NotOwnNeighbor | part1-threads/src/KnightSelection.cpp:23-30 | With two or more knights, no knight is its own neighbour. |
| KnightSelection.LoneKnightIsOwnNeighbor | part1-threads/src/KnightSelection.cpp:23-30 | With one knight, both neighbours of knight 0 are knight 0 itself. |
| KnightSelection.RaiseHand | part1-threads/src/KnightSelection.cpp:32-77 | A knight's hand ends up raised if and only if it was raised already or neither the knight nor a neighbour is selected or has a raised hand. Nothing else changes. |
| KnightSelection.LowerHand | part1-threads/src/KnightSelection.cpp:83-87 | The hand stays up only if the knight is selected. Nothing else changes. |
| KnightSelection.ResetHands | part1-threads/src/KnightSelection.cpp:167-171 | Every hand is down, and the selection and the count are unchanged. |
| KnightSelection.Select | part1-threads/src/KnightSelection.cpp:143-160 | If the chosen knight is already selected or has its hand down, nothing changes. Otherwise the knight is selected, the count rises by one, and the hands of the knight and both neighbours go down, while every other hand is unchanged. |
| KnightSelection.NewKnightsEstablishesInv | part1-threads/src/KnightSelection.cpp:9-21 | A freshly built table of two or more knights satisfies the invariant. |
| KnightSelection.RaisePreservesInv | part1-threads/src/KnightSelection.cpp:58-77 | Raising a hand keeps the invariant. |
| KnightSelection.LowerPreservesInv | part1-threads/src/KnightSelection.cpp:83-87 | Lowering a hand keeps the invariant. |
| KnightSelection.ResetPreservesInv | part1-threads/src/KnightSelection.cpp:167-171 | The reset keeps the invariant. |
| KnightSelection.SelectPreservesInv | part1-threads/src/KnightSelection.cpp:143-160 | A selection made while the count is below the requirement keeps the invariant. |
| KnightSelection.RunPreservesInv | part1-threads/src/KnightSelection.cpp:51-174 | Every interleaving of the atomic steps keeps the invariant. |
| KnightSelection.ReachableStatesAreSound | part1-threads/src/KnightSelection.cpp:9-174 | From construction with two or more knights, every run ends with no two neighbours selected. The counter equals the number of selected flags and is at most the requirement. |
| KnightSelection.LoneKnightBreaksNoAdjacent | part1-threads/src/KnightSelection.cpp:18-30 | The constructor accepts one knight. Then raising its hand and picking it leaves a selected knight whose neighbour, itself, is selected. |
| KnightSelection.AvailableKnights | part1-threads/src/KnightSelection.cpp:113-135 | The candidate list is strictly ascending. It holds exactly the knights that have a raised hand, are unselected and have no selected neighbour. |
| KnightSelection.AvailableIsRaised | part1-threads/src/KnightSelection.cpp:119-135 | Under the invariant, a knight is a candidate if and only if its hand is raised. |
| KnightSelection.SelectedKnights | part1-threads/src/KnightSelection.cpp:210-220 | The result is strictly ascending and holds exactly the selected knights. Its length is the number of selected flags. |
| KnightSelection.ValidateSelection | part1-threads/src/KnightSelection.cpp:222-250 | Validation succeeds if and only if at least the required number of knights are selected and no selected knight has a selected neighbour. |
| KnightSelection.ValidationReflectsCount | part1-threads/src/KnightSelection.cpp:222-250 | In every reachable state, the validation condition holds if and only if the count equals the requirement. |
| BookAnalyzer.ToLowerRussian | part2-openmp/src/book_analyzer.cpp:23-35 | А..Я move to а..я by a fixed offset. Ё, Ї, Є and І map to ё, ї, є and і. Lower-case letters are unchanged. |
| BookAnalyzer.ToLowerIsLowerCase | part2-openmp/src/book_analyzer.cpp:12-35 | Lower-casing any accepted letter gives a lower-case accepted letter, and doing it twice changes nothing more. |
| BookAnalyzer.BucketIndex | part2-openmp/src/book_analyzer.cpp:86-88 | The index lies in [-1, 33) and is never 6. It is -1 exactly for characters that are neither ё nor in а..я. |
| BookAnalyzer.LetterOfInvertsBucket | part2-openmp/src/book_analyzer.cpp:86-111 | For а..ю and ё, the reporting letter of a character's bucket is the character itself. |
| BookAnalyzer.YaCountsAsYo | part2-openmp/src/book_analyzer.cpp:86-111 | я and ё share bucket 32, which is reported as ё. No bucket is reported as я. |
| BookAnalyzer.BucketCollisions | part2-openmp/src/book_analyzer.cpp:86-88 | Two different characters share a bucket only when they are я and ё. |
| BookAnalyzer.LetterOfIncreasing | part2-openmp/src/book_analyzer.cpp:106-111 | Reporting letters strictly increase with the bucket, leaving out the never-filled bucket 6. |
| BookAnalyzer.CountedLetters | part2-openmp/src/book_analyzer.cpp:12-93 | A character is counted if and only if it is a Russian letter of either case, or ё or Ё. The Ukrainian letters pass the letter test but are never counted. |
| BookAnalyzer.CaseInsensitive | part2-openmp/tests/test_book_analyzer.cpp:109-119 | A capital letter and its lower-case letter fall in the same bucket, and so do Ё and ё. |
| BookAnalyzer.BucketSixEmpty | part2-openmp/src/book_analyzer.cpp:86-88 | No text ever puts anything in bucket 6. |
| BookAnalyzer.LettersIsSumOfBuckets | part2-openmp/src/book_analyzer.cpp:84-93 | The letter total equals the sum of the 33 bucket counts. |
| BookAnalyzer.PartitionedCountIsSequential | part2-openmp/src/book_analyzer.cpp:75-96 | For every split of positions among the threads, summing a bucket over the threads gives its sequential count. |
| BookAnalyzer.CountingPass | part2-openmp/src/book_analyzer.cpp:66-96 | Slot t*33+b holds the number of thread t's positions counted in bucket b. The reduced total is the text's letter count. |
| BookAnalyzer.MergeBuckets | part2-openmp/src/book_analyzer.cpp:99-104 | Each merged bucket is that bucket summed over all thread slices. |
| BookAnalyzer.MergedSlicesAreCounts | part2-openmp/src/book_analyzer.cpp:98-104 | Merging the counting pass's slices gives the per-thread sums of the owned counts. |
| BookAnalyzer.FrequencyMapContents | part2-openmp/src/book_analyzer.cpp:99-112 | With bucket 6 empty, a bucket's letter is a key exactly when the bucket's sum is positive. Its value is that sum, and every key comes from such a bucket. |
| BookAnalyzer.EntriesListMap | part2-openmp/src/book_analyzer.cpp:37-45 | The entry list contains a (letter, count) pair exactly when the map has that letter with that count. |
| BookAnalyzer.EntriesAscending | part2-openmp/src/book_analyzer.cpp:40-45 | The entries come in strictly increasing letter order, which is the order the map is iterated in. |
| BookAnalyzer.EntrySumIsPrefixSum | part2-openmp/src/book_analyzer.cpp:99-112 | Dropping the empty buckets loses nothing: the entries' counts add up to the bucket total. |
| BookAnalyzer.InsertByCount | part2-openmp/src/book_analyzer.cpp:47-51 | Inserting into a list in descending count order keeps that order. The result is the old list plus the new entry, as a multiset. |
| BookAnalyzer.SortByFrequency | part2-openmp/src/book_analyzer.cpp:37-54 | The result is in descending count order and is a permutation of the input. |
| BookAnalyzer.EntrySumPermutation | part2-openmp/src/book_analyzer.cpp:37-54 | Reordering entries does not change the sum of their counts. |
| BookAnalyzer.EffectiveThreads | part2-openmp/src/book_analyzer.cpp:62-64 | A positive request is used as given. Otherwise the runtime's maximum is used, so the count used is always positive. |
| BookAnalyzer.AnalyzeText | part2-openmp/src/book_analyzer.cpp:56-128 | The character count is the text length, and the threads used are the effective count. The letter total, the map and the entries are the sequential ones for the text, whatever the thread split. The sorted list is a descending-count permutation of the map's entries, holds exactly the map's pairs, and its counts add up to the letter total. |
| BookAnalyzer.EmptyText | part2-openmp/tests/test_book_analyzer.cpp:80-90 | An empty text has no letters, an empty map and no entries. |

## Left out

- MPI transport is left out: blocking, message matching, barriers, `MPI_Bcast`, and the N*N gather on tag 99 together with the size gather on tag 101. Received values are parameters of the step functions, and the commander's sends are a list.
- CityCapture.RunCommander: the model does not claim that commander and cities together finish. `CurrentCityWaitsOnUnsentTags` shows that, as written, the captured city waits on tags the commander does not send it at that step. Tag 3+s receives by the commander are parameters.
- CityCapture.RunCommander: the finish signals are appended directly after the step loop. In the source, the commander first blocks on a tag-99 receive from every city (part3-mpi/src/CityCapture.cpp:122-131). A city sends tag 99 only after it has received the -1 finish signal and left its loop (part3-mpi/src/CityCapture.cpp:160-162, 219). As written, the two sides wait on each other, and the finish signals that `RunCommander` and `FinishSignalEndsCities` describe are never sent. The model states what the signals are and what they do when they arrive, not that they are reached.
- CityCapture.ValidateResults: only rank 0 calls it (part3-mpi/src/main.cpp:42-46). So the city branch the model states (part3-mpi/src/CityCapture.cpp:282-286) never runs as written. The commander's tag-101 receives (part3-mpi/src/CityCapture.cpp:268-271) then wait on sizes that no city sends. The model states what each branch returns given the sizes, not that the sizes arrive.
- CityCapture.CipherPart: the hashes of the seed and of the clock reading are parameters. The model does not state that the bv64-to-int reduction reaches every value in [1000, 2000).
- Randomness is left out: `std::shuffle`, the knights' sleep times and the selector's random choice. The shuffle is any Fisher-Yates swap sequence, and the choice is any knight.
- Threads, mutexes, sleeps and the stop flag are left out. Each locked region is one atomic transition of `Apply`.
- KnightSelection.Apply: the selector's attempt counter is not modelled. The reset every 20 attempts is a `Reset` action allowed at any point, which covers every actual schedule.
- KnightSelection.ReachableStatesAreSound: the invariant is stated for two or more knights, because with one knight the constructor accepts a table whose only knight neighbours itself (see `LoneKnightBreaksNoAdjacent`).
- The model does not show that the selection ever reaches the requirement (liveness). The 1000-attempt bound (part1-threads/src/KnightSelection.cpp:108-110) decides only when the selector gives up and sets the stop flag that ends every knight thread (part1-threads/src/KnightSelection.cpp:177). That is termination, not safety, and it is not modelled: a run is any finite action sequence. The final messages are output only.
- Printing (`printSelectedKnights`, `logEvent`, `printResults`, `printTopLetters`), the timing and speedup fields, file reading, the CSV and plot writers and `createTestText` are left out: they are I/O.
- The empty result maps `getCaptureResults`/`getCipherResults` are left out. They return empty maps unconditionally.
- `integral_calculator` is left out: it is floating-point code outside the modelled core.
- The root-level `src/KnightSelection.cpp` is left out. It holds no implementation: it is a gtest suite for the knight class, with a `getNeighborsForTest` helper and test cases. The `part1-threads` implementation is the one modelled.
- Characters are Unicode code points. The source compares a byte-wide `char` with multi-byte Cyrillic literals; taken literally, no Cyrillic letter would ever be counted. The model follows the evident intent and reads the text as a sequence of code points.
- BookAnalyzer.AnalyzeText: the source's 32-bit `int` width is not modelled. `totalCharacters` is an `int` set from `text.length()`, and `totalLetters` and the bucket counts are `int` counters (part2-openmp/src/book_analyzer.cpp:68-70, 91-92). The slice array has `threads * 33` entries, also computed in `int`. A text of 2^31 characters or more, or more than 0x7fff_ffff / 33 threads, overflows these in the source. The model's counts are unbounded, so `totalCharacters == |text|` and the letter total are stated for every text and thread count.
- BookAnalyzer.CountingPass: for the same reason, the per-thread slot counts and the reduced letter total are unbounded integers. The source's `int` counters would overflow past 0x7fff_ffff letters.
- BookAnalyzer.AnalyzeText: the character count is in code points, not bytes. The source sets it from `text.length()`, which counts the bytes of the UTF-8 string (part2-openmp/src/book_analyzer.cpp:70), and its test checks it against that byte length for a Cyrillic text (part2-openmp/tests/test_book_analyzer.cpp:39-43). For a Cyrillic text, the model's `totalCharacters` is therefore smaller than the source's.
- BookAnalyzer.ToLowerRussian: the fallback `std::tolower` is the "C" locale's, which maps only the ASCII capitals. Other locales are not modelled.
- The analyzer header declares the map and sorted list with `std::string` keys, while the implementation builds them with `char` keys. The model uses one character per key.
- BookAnalyzer.SortByFrequency: `std::sort` is not stable, so the order among entries with equal counts is not part of the contract. The model inserts in a fixed way, but states only descending order and permutation.
- The analyzer tests on ASCII text (`aaaabbbbccccdddd`) are not modelled. Under the code, ASCII letters are never counted.
- `part3-mpi/src/main.cpp` is modelled only for the city-count clamp. MPI start-up, the process-count warning and the call sequence are left out.
