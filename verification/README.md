# SIT315 parallel-programming exercises: the sequential core in Dafny

This project models the sequential logic behind the parallel programs of the
SIT315 exercises and proves properties of it. There are four groups.

- **Traffic simulator** (`Module2/Task2.3D`). The producer parses CSV rows
  `id,ts,cars` into readings (`TrafficRows`). The consumer folds each reading
  into a table of hour buckets (`Aggregation`). It finds or creates the
  bucket of the reading's hour, then the light with the reading's id, then
  adds the cars to that light. Finally it rebuilds the bucket's `topN`:
  the lights sorted by descending total, resized to `top` (`Ranking`). The
  input generator's record loop is `TrafficRows.Generate`. `RingBuffer` is
  `ts_buffer<T>`, the bounded buffer between producers and consumers. It
  has `capacity + 1` slots, a write index `head` and a read index `tail`,
  and is shown to refine a FIFO queue.
- **Quicksort** (`Module2/Task2.2C`, `Module3/Task3.2C`). `QuickSort` holds
  the Lomuto `partition` and the recursive sort. The three copies of the
  sort share it. The task-spawning variant makes the same calls on both
  sides of its size threshold, and `QuickSort.TasksAgree` shows it gives
  the same result. `TwoRankSort` is the two-process sort. It splits the
  array in two (rank 0 takes the odd element), sorts each block, and
  merges the blocks with a stable merge. `SampleCheck` is the closing
  "Validity Test (10 Samples)".
- **Matrix multiply** (`Module2/Task2.1P`, `Module3/Task3.1P`). `Matrices`
  holds:
  - `calc_row_col` and `multiply_matrices`;
  - `new_matrix`, whose rows are views of one block of cells (`Layout`);
  - `new_zero_matrix`, `new_rand_matrix` and `create_matrix`;
  - the ranks' local multiply into a zeroed block.

  `RowPartition` is the MPI send-count/displacement arithmetic.
  `Distributed` runs the MPI program rank by rank: scatter the rows of A,
  multiply locally, gather the blocks. It uses the intended displacement
  guard `i < np - 1` (see "## Findings"), and proves the gathered matrix is
  the product. `ElementSplit` is the element-range split of the threaded
  multiply. `MatrixText` is the result-file text: a title line, then
  comma-separated rows. It proves that reading the text back gives the
  matrix.

Everything is sequential and works on values. Arrays are `seq`s, and an
in-place update returns the new sequence. The input matrices of a
multiplication are therefore unchanged by construction. Integers are
mathematical. Random draws, the clock and `localtime` are parameters.

## Model

| member | source | states |
|---|---|---|
| Aggregation.HourKey | Module2/Task2.3D/src/trafficSimulator/main.cpp:177-181 | the lookup key has minutes and seconds cleared and lies in the same hour as the timestamp's local time |
| Aggregation.HourKeyEquality | Module2/Task2.3D/src/trafficSimulator/main.cpp:116-123 | two times match under `operator==` exactly when their cleared hour keys are equal; on cleared keys the match is plain equality |
| Aggregation.SameHourEquivalence | Module2/Task2.3D/src/trafficSimulator/main.cpp:116-123 | the field comparison is reflexive, symmetric and transitive, so buckets partition the times |
| Aggregation.FindHour | Module2/Task2.3D/src/trafficSimulator/main.cpp:186-193 | the hour search returns the first bucket whose key matches, or reports that none matches |
| Aggregation.FindLight | Module2/Task2.3D/src/trafficSimulator/main.cpp:202-209 | the light search returns the first light with the reading's id, or reports that none has it |
| Aggregation.WithBucket | Module2/Task2.3D/src/trafficSimulator/main.cpp:194-200 | a missing hour appends exactly one bucket at the end; the existing buckets keep their order and contents |
| Aggregation.WithLight | Module2/Task2.3D/src/trafficSimulator/main.cpp:210-216 | a missing id appends exactly one light at the end of the bucket; the existing lights are unchanged |
| Aggregation.Bump | Module2/Task2.3D/src/trafficSimulator/main.cpp:203-219 | no contract of its own: makes sure the reading's light exists, then adds `cars` to its total; `Aggregation.BumpChangesOneLight` proves what this does to every light |
| Aggregation.BumpChangesOneLight | Module2/Task2.3D/src/trafficSimulator/main.cpp:203-219 | the found or new light gets its old total (0 for a new light) plus `cars`; every other light is unchanged |
| Aggregation.Update | Module2/Task2.3D/src/trafficSimulator/main.cpp:203-226 | no contract of its own: bumps the bucket's light, then rebuilds `topN` from all its lights; `Aggregation.UpdateRanks` proves the result |
| Aggregation.UpdateRanks | Module2/Task2.3D/src/trafficSimulator/main.cpp:219-226 | after an update the bucket keeps its key, its lights are the bumped lights, and its `topN` ranks the `top` busiest of them |
| Aggregation.Apply | Module2/Task2.3D/src/trafficSimulator/main.cpp:184-229 | no contract of its own: the critical section for one reading (find or add the hour bucket, then update it); `Aggregation.ApplyShape`, `Aggregation.ApplyOthers`, `Aggregation.ApplyTotal` and `Aggregation.ApplyKeepsWellFormed` prove its effect |
| Aggregation.Consume | Module2/Task2.3D/src/trafficSimulator/main.cpp:177-229 | no contract of its own: one popped reading's hour key (from `localtime`, a parameter, with minutes and seconds cleared), then `Aggregation.Apply` |
| Aggregation.ApplyAll | Module2/Task2.3D/src/trafficSimulator/main.cpp:168-237 | no contract of its own: the consumer loop, handling the readings in the order they are popped; `Aggregation.Conservation`, `Aggregation.ApplyAllWellFormed` and `Aggregation.ApplyAllKeys` prove its result |
| Aggregation.ApplyShape | Module2/Task2.3D/src/trafficSimulator/main.cpp:186-226 | one reading grows the table by one bucket exactly when its hour is new, and the chosen bucket is the updated one |
| Aggregation.ApplyOthers | Module2/Task2.3D/src/trafficSimulator/main.cpp:219-226 | every bucket other than the chosen one, `topN` included, is unchanged |
| Aggregation.FindHourAfterApply | Module2/Task2.3D/src/trafficSimulator/main.cpp:186-200 | after a reading, a lookup of any hour finds the same bucket as before, or the appended bucket for the reading's own new hour |
| Aggregation.ApplyTotal | Module2/Task2.3D/src/trafficSimulator/main.cpp:211-219 | a reading adds its cars to the total of its own (hour, id) pair and to no other pair |
| Aggregation.Conservation | Module2/Task2.3D/src/trafficSimulator/main.cpp:211-219 | starting from an empty table, each (hour, id) total is the sum of the cars over exactly the readings with that hour and id |
| Aggregation.ApplyKeepsWellFormed | Module2/Task2.3D/src/trafficSimulator/main.cpp:186-226 | an update keeps hour keys unique in the table, ids unique per bucket and every `topN` a ranking of its bucket |
| Aggregation.ApplyAllWellFormed | Module2/Task2.3D/src/trafficSimulator/main.cpp:186-226 | any sequence of readings applied to an empty table gives a well-formed table |
| Aggregation.ApplyKeys | Module2/Task2.3D/src/trafficSimulator/main.cpp:194-200 | the table's set of hour keys gains exactly the reading's key, and its length grows only for a new key |
| Aggregation.KeysCount | Module2/Task2.3D/src/trafficSimulator/main.cpp:194-200 | with unique hour keys the table has one bucket per distinct key |
| Aggregation.ApplyAllKeys | Module2/Task2.3D/src/trafficSimulator/main.cpp:194-200 | the buckets built from a sequence of readings are exactly the hours of those readings |
| Aggregation.DistinctHours | Module2/Task2.3D/src/trafficSimulator/main.cpp:194-200 | buckets are never removed or duplicated: the table length is the number of distinct hours seen |
| Ranking.SortByTotal | Module2/Task2.3D/src/trafficSimulator/main.cpp:105-107 | the `topN` sort returns a permutation of the lights in non-increasing order of total |
| Ranking.Resize | Module2/Task2.3D/src/trafficSimulator/main.cpp:226 | `resize(top)` keeps the first `top` entries and pads with value-initialised entries up to exactly `top` |
| Ranking.TopN | Module2/Task2.3D/src/trafficSimulator/main.cpp:222-226 | no contract of its own: copies the lights, sorts them with `Ranking.SortByTotal` and resizes to `top` with `Ranking.Resize`; `Ranking.TopNRanks` proves the result ranks the busiest `top` lights |
| Ranking.TopNRanks | Module2/Task2.3D/src/trafficSimulator/main.cpp:221-226 | `topN` has exactly `top` entries; it starts with lights of the bucket in non-increasing order, no left-out light is busier than a kept one, and `{0,0}` pads the rest |
| Decimal.ParseInteger | Module2/Task2.3D/src/trafficSimulator/main.cpp:153-159 | a successful `stoi`/`stol` gives a value inside the target type's range |
| Decimal.ParseIntegerRoundTrip | Module2/Task2.3D/src/trafficSimulator/main.cpp:153-159 | parsing the decimal text of any in-range integer gives that integer back |
| Decimal.ParseIntegerNoDigits | Module2/Task2.3D/src/trafficSimulator/main.cpp:153-159 | a field without a digit makes the conversion fail with `invalid_argument` |
| Decimal.ParseIntegerOutOfRange | Module2/Task2.3D/src/trafficSimulator/main.cpp:153-159 | the decimal text of an integer outside the range fails with `out_of_range` |
| TrafficRows.GetLine | Module2/Task2.3D/src/trafficSimulator/main.cpp:152-158 | a successful `getline` returns the text up to the first delimiter and resumes after it; a failed one leaves `col` unchanged or empties it, and fails the stream |
| TrafficRows.ReadLines | Module2/Task2.3D/src/trafficSimulator/main.cpp:138-143 | no contract of its own: the producer's `getline(fin, row)` loop, collecting lines until a read fails; `TrafficRows.ReadLinesOfText` proves it returns exactly the lines of a written file |
| TrafficRows.ParseRow | Module2/Task2.3D/src/trafficSimulator/main.cpp:147-159 | a parsed row has an `int` id, a `long` timestamp and an `int` car count |
| TrafficRows.ParseRenderedRow | Module2/Task2.3D/src/trafficSimulator/main.cpp:147-159 | the row `i,t,c` parses to id `i`, timestamp `t` and cars `c`, in that field order |
| TrafficRows.NonNumericIdRejected | Module2/Task2.3D/src/trafficSimulator/main.cpp:152-153 | a first field without digits is rejected as `invalid_argument` on field 0 |
| TrafficRows.RenderReading | Module2/Task2.3D/src/inputGenerator/main.cpp:25 | no contract of its own: one generated line, `id,ts,cars` in decimal, without the `endl`; `TrafficRows.ParseRenderedRow` proves the producer's parser reads it back |
| TrafficRows.ReadLinesOfText | Module2/Task2.3D/src/trafficSimulator/main.cpp:152-158 | splitting newline-terminated text into lines gives back the lines written |
| TrafficRows.ParseGeneratedFile | Module2/Task2.3D/src/trafficSimulator/main.cpp:147-159 | a file of rendered records, read line by line and parsed, gives back the records |
| TrafficRows.Generate | Module2/Task2.3D/src/inputGenerator/main.cpp:23-28 | the generator writes `SAMPLES` times the light count of records; within a sample the ids run 0 upward and the timestamp is constant; it grows by exactly 300 between samples; cars are below `MAX_CARS`; the text, written line by line as the records are made, is those records as `id,ts,cars` lines |
| TrafficRows.GeneratedFileParses | Module2/Task2.3D/src/inputGenerator/main.cpp:25 | the producer's parser reads every generated row back as the record that was written |
| RingBuffer.New | Module2/Task2.3D/src/trafficSimulator/ts_buffer.cpp:7-15 | a buffer of capacity n has n+1 slots and starts empty with head and tail at 0 |
| RingBuffer.AdvanceIsMod | Module2/Task2.3D/src/trafficSimulator/ts_buffer.cpp:38-39 | the wrap-to-zero index step is `(i + 1) mod slots`, so indices stay in range |
| RingBuffer.Push | Module2/Task2.3D/src/trafficSimulator/ts_buffer.cpp:21-43 | a push on a non-full buffer stores the item at the old head, advances head modulo the slot count, leaves tail alone and returns true |
| RingBuffer.Pop | Module2/Task2.3D/src/trafficSimulator/ts_buffer.cpp:45-63 | a pop returns false on an empty buffer and changes nothing; otherwise it yields the slot at tail, advances tail modulo the slot count and returns true |
| RingBuffer.Occupancy | Module2/Task2.3D/src/trafficSimulator/ts_buffer.cpp:73-82 | the number of held items is `(head - tail) mod slots` and lies between 0 and the capacity |
| RingBuffer.IsEmpty | Module2/Task2.3D/src/trafficSimulator/ts_buffer.cpp:73-76 | no contract of its own: `_isEmpty`, `head - tail == 0`; `RingBuffer.EmptyIff` proves it holds exactly when the buffer holds nothing |
| RingBuffer.IsFull | Module2/Task2.3D/src/trafficSimulator/ts_buffer.cpp:78-82 | no contract of its own: `_isFull`, tail unwrapped past head is exactly one ahead; `RingBuffer.FullIff` and `RingBuffer.ZeroCapacityLosesPush` prove when it holds |
| RingBuffer.EmptyIff | Module2/Task2.3D/src/trafficSimulator/ts_buffer.cpp:73-76 | `_isEmpty` holds exactly when no item is held |
| RingBuffer.FullIff | Module2/Task2.3D/src/trafficSimulator/ts_buffer.cpp:78-82 | for capacity at least 1, `_isFull` holds exactly when `(head + 1) mod slots == tail`, which is exactly when the buffer holds `capacity` items |
| RingBuffer.ZeroCapacityLosesPush | Module2/Task2.3D/src/trafficSimulator/ts_buffer.cpp:7-15 | a buffer built with capacity 0 is never full, yet a pushed item is not kept |
| RingBuffer.PushAppends | Module2/Task2.3D/src/trafficSimulator/ts_buffer.cpp:36-39 | a push appends the item to the back of the queued contents |
| RingBuffer.PopTakesFront | Module2/Task2.3D/src/trafficSimulator/ts_buffer.cpp:56-59 | a pop removes and returns the front of the queued contents |
| RingBuffer.RingRefinesQueue | Module2/Task2.3D/src/trafficSimulator/ts_buffer.cpp:21-63 | any sequence of pushes and pops on the ring gives the same pop results and final contents as a FIFO queue |
| QuickSort.Swap | Module2/Task2.2C/src/quicksort.cpp:13-18 | a swap exchanges two entries, changes nothing else and keeps the multiset |
| QuickSort.PartitionScan | Module2/Task2.2C/src/quicksort.cpp:22-32 | the scan keeps entries at most the pivot in `[low, i]` and greater ones in `(i, high)`, touching only `[low, high)` |
| QuickSort.Partition | Module2/Task2.2C/src/quicksort.cpp:20-36 | `partition` returns `p` in `[low, high]` with the old `arr[high]` at `p`, smaller-or-equal entries before it and greater ones after it, as a permutation changing nothing outside the range |
| QuickSort.QuickSort | Module2/Task2.2C/src/quicksort.cpp:38-46 | `quickSort` leaves `[low, high]` sorted, as a permutation, with everything outside unchanged; with `low >= high` it changes nothing |
| QuickSort.QuickSortTasks | Module2/Task2.2C/src/quicksort-omp.cpp:39-60 | the threshold variant, read sequentially, sorts and permutes `[low, high]` and changes nothing outside |
| QuickSort.TasksAgree | Module3/Task3.2C/src/qs-mpi-omp.cpp:34-55 | both sides of the threshold give the same array as the plain sort |
| QuickSort.SortResultUnique | Module2/Task2.2C/src/quicksort-omp.cpp:45-57 | any two sorted permutations of a range that agree outside it are equal, so the result does not depend on the branch taken |
| TwoRankSort.SplitTwo | Module3/Task3.2C/src/qs-mpi-omp.cpp:84-89 | the two send counts sum to the element count, rank 0 takes the odd extra, and the displacements are `[0, send_counts[0]]` |
| TwoRankSort.Block | Module3/Task3.2C/src/qs-mpi-cl.cpp:50 | a rank's block holds `send_counts[rank]` elements |
| TwoRankSort.BlocksCover | Module3/Task3.2C/src/qs-mpi-cl.cpp:42-47 | the two blocks laid end to end are the whole array |
| TwoRankSort.MergeBoth | Module3/Task3.2C/src/qs-mpi-omp.cpp:125-131 | the first merge loop, taking from the first run when `data[u1] <= data[u2]`, ends with the state the reference merge reaches after `s` steps, with one run used up |
| TwoRankSort.DrainFirst | Module3/Task3.2C/src/qs-mpi-omp.cpp:133-134 | copying the rest of the first run keeps the loop state equal to the reference merge's, and ends with the first run used up |
| TwoRankSort.DrainSecond | Module3/Task3.2C/src/qs-mpi-omp.cpp:136-137 | copying the rest of the second run keeps the loop state equal to the reference merge's, and ends with the second run used up |
| TwoRankSort.Merge | Module3/Task3.2C/src/qs-mpi-omp.cpp:124-137 | the merge writes exactly `el_count` entries as a permutation of the data; it is sorted when both runs are sorted; when the first run is sorted it is also stable, taking from the first run on ties |
| TwoRankSort.SortTwoRanks | Module3/Task3.2C/src/qs-mpi-omp.cpp:84-163 | split, per-rank sort and merge give a sorted permutation; the validity check then reports PASS, or no verdict for an empty array |
| TwoRankSort.TwoRanksAgree | Module3/Task3.2C/src/qs-mpi-omp.cpp:84-137 | the two-process sort gives the same array as sorting the whole array at once |
| SampleCheck.SampleInBounds | Module3/Task3.2C/src/qs-mpi-omp.cpp:147-153 | every sampled position `i * span` with `i < 10` lies inside a non-empty array |
| SampleCheck.Sample | Module3/Task3.2C/src/qs-mpi-omp.cpp:147-153 | no contract of its own: sample `i` is `sorted[i * span]`, with `span = el_count / 10`; `SampleCheck.SampleInBounds` proves the index lies inside the array |
| SampleCheck.ValidityTest | Module3/Task3.2C/src/qs-mpi-cl.cpp:99-115 | the check reports PASS exactly when no sample is below its predecessor; an empty array gives no verdict |
| SampleCheck.SortedPasses | Module3/Task3.2C/src/qs-mpi-omp.cpp:147-163 | a sorted non-empty array always passes |
| SampleCheck.PassDoesNotMeanSorted | Module3/Task3.2C/src/qs-mpi-omp.cpp:147-163 | PASS does not imply sorted: below ten elements every sample is the first one |
| Layout.CellOf | Module2/Task2.1P/src/Parallel.cpp:58-61 | the worker's `(el / size, el % size)` names the cell whose row-major number is `el` |
| Layout.CellOfFlatIndex | Module2/Task2.1P/src/Parallel.cpp:58-61 | numbering a cell and mapping the number back gives the cell: the element map is a bijection |
| Layout.CellOfBounds | Module2/Task2.1P/src/Parallel.cpp:58-61 | every element number below `size * size` maps to a cell inside the matrix |
| Layout.FlatIndexBounds | Module3/Task3.1P/src/mm-mpi-cl.cpp:158-166 | every cell of a rows-by-cols matrix lies inside its block, and each row's cells come before the next row's |
| Matrices.CalcRowCol | Module2/Task2.1P/src/OpenMP.cpp:35-44 | `calc_row_col` is the dot product of row `row` of A and column `col` of B |
| Matrices.MultiplyMatrices | Module2/Task2.1P/src/OpenMP.cpp:46-66 | every `result[r][c]` is `calc_row_col(A, B, r, c)`: the result is the product |
| Matrices.ProductRow | Module2/Task2.1P/src/OpenMP.cpp:58-63 | one row of the collapsed loop is the corresponding row of the product |
| Matrices.AddDot | Module3/Task3.1P/src/mm-mpi-omp.cpp:110-111 | the innermost `+=` loop adds the dot product to the accumulator |
| Matrices.AddRow | Module3/Task3.1P/src/mm-mpi-omp.cpp:109-111 | the column loop adds the dot product to every cell of the row |
| Matrices.LocalMultiply | Module3/Task3.1P/src/mm-mpi-omp.cpp:107-111 | each `c[row][col]` becomes its old value plus the dot product of row `row` of the block and column `col` of B |
| Matrices.LocalProduct | Module3/Task3.1P/src/mm-mpi-omp.cpp:33-41 | with `c` zeroed first, the local multiply computes the product of the block with B |
| Matrices.NewMatrix | Module3/Task3.1P/src/mm-mpi-cl.cpp:158-166 | `new_matrix` over one block of `rows * cols` cells gives `rows` rows of `cols`, row `r` being the cells from offset `r * cols` |
| Matrices.NewMatrixCell | Module3/Task3.1P/src/mm-mpi-cl.cpp:158-166 | cell `(r, c)` of the view is cell `r * cols + c` of the block |
| Matrices.FlattenNewMatrix | Module3/Task3.1P/src/mm-mpi-cl.cpp:158-166 | viewing a block as a matrix and laying its rows end to end gives the block back |
| Matrices.NewMatrixOfFlatten | Module3/Task3.1P/src/mm-mpi-cl.cpp:158-166 | a matrix is the view of its own flattened cells |
| Matrices.ZeroMatrix | Module3/Task3.1P/src/mm-mpi-cl.cpp:178-186 | `new_zero_matrix` gives a rows-by-cols matrix of zeros |
| Matrices.RandMatrix | Module3/Task3.1P/src/mm-mpi-omp.cpp:23-31 | `new_rand_matrix` gives a rows-by-cols matrix with every entry in `[0, MAX_ELEMENT)` |
| Matrices.RandMatrixCell | Module2/Task2.1P/src/Parallel.cpp:20-33 | `create_matrix` fills cells in row-major order, each the draw at its position modulo `MAX_EL` |
| Matrices.ProductRows | Module3/Task3.1P/src/mm-mpi-omp.cpp:107-111 | multiplying a band of A's rows gives the same band of the full product |
| Matrices.ProductIdentity | Module2/Task2.1P/src/OpenMP.cpp:35-44 | multiplying by the identity matrix gives the matrix back |
| RowPartition.PartitionRows | Module3/Task3.1P/src/mm-mpi-omp.cpp:67-82 | with the guard `i < np - 1`, every count is that rank's rows times `size`, and every displacement is the cells of the earlier ranks |
| RowPartition.PartitionRowsAsWritten | Module3/Task3.1P/src/mm-mpi-cl.cpp:43-58 | with the guard `i < size - 1`, the loop writes past the displacement array exactly when `np < size`; otherwise the counts and the first `size` displacements are right, and ranks with no rows keep displacement 0 |
| RowPartition.DefaultRunOverruns | Module3/Task3.1P/src/mm-mpi-omp.cpp:55-81 | the default size 5 on two ranks writes `displacements[2]`, outside the array |
| RowPartition.SendCountRows | Module3/Task3.1P/src/mm-mpi-omp.cpp:70-79 | every send count is a whole number of rows |
| RowPartition.RowsBalanced | Module3/Task3.1P/src/mm-mpi-cl.cpp:46-55 | exactly the first `size % np` ranks get an extra row; counts never grow with the rank and differ by at most one row |
| RowPartition.CountsCoverMatrix | Module3/Task3.1P/src/mm-mpi-omp.cpp:70-79 | the ranks' rows add up to `size`, and the send counts to `size * size` |
| RowPartition.OffsetRows | Module3/Task3.1P/src/mm-mpi-omp.cpp:68-81 | each displacement is the prefix sum of the earlier counts, i.e. the earlier ranks' rows times `size` |
| RowPartition.OffsetMonotone | Module3/Task3.1P/src/mm-mpi-cl.cpp:44-57 | the displacements never decrease with the rank |
| RowPartition.BlocksDisjoint | Module3/Task3.1P/src/mm-mpi-omp.cpp:68-81 | the block of an earlier rank ends at or before the start of a later one |
| RowPartition.CellOwned | Module3/Task3.1P/src/mm-mpi-omp.cpp:68-81 | every cell before a rank's displacement belongs to the block of some earlier rank |
| RowPartition.MyRowCount | Module3/Task3.1P/src/mm-mpi-omp.cpp:86 | no contract of its own: `my_row_count = send_counts[rank] / size`, no result for size 0, where the source divides by zero; `RowPartition.MyRowCountIsShare` proves it is the rank's share of rows |
| RowPartition.MyRowCountIsShare | Module3/Task3.1P/src/mm-mpi-omp.cpp:86 | `send_counts[rank] / size` is exactly the rank's share of rows |
| Distributed.MultiplyRank | Module3/Task3.1P/src/mm-mpi-omp.cpp:155-179 | a rank that receives its rows of A and all of B returns the cells of its rows of the product, `send_counts[rank]` of them |
| Distributed.GatherProducts | Module3/Task3.1P/src/mm-mpi-omp.cpp:113-114 | with the displacements of the intended guard `i < np - 1` (see "## Findings"), gathering each rank's block at its displacement yields the cells of the whole product |
| RowPartition.RowlessRanks | Module3/Task3.1P/src/mm-mpi-omp.cpp:68-81 | some rank gets no rows exactly when there are more ranks than rows, and rank `i` gets none exactly when `i >= size` |
| Distributed.MultiplyDistributed | Module3/Task3.1P/src/mm-mpi-omp.cpp:66-115 | with the intended displacement guard `i < np - 1` (see "## Findings"), scatter, local multiply and gather give the product of A and B; size 0 divides by zero computing `my_row_count`, and is the error result |
| ElementSplit.ThreadCount | Module2/Task2.1P/src/Parallel.cpp:77-78 | the thread count is the smaller of `MAX_THREADS` and the number of cells |
| ElementSplit.RangesAsWritten | Module2/Task2.1P/src/Parallel.cpp:76-93 | one range per thread; no split exists for zero cells, where `elCount / threadCount` divides by zero |
| ElementSplit.AsWrittenCovers | Module2/Task2.1P/src/Parallel.cpp:79-93 | a cell is in some range exactly when it is below `threadCount * elPart`, so the last `elCount % threadCount` cells get no worker |
| ElementSplit.DividingCountCovers | Module2/Task2.1P/src/Parallel.cpp:76-97 | when the thread count divides the number of cells, every cell gets a worker |
| ElementSplit.OddSizeLeavesCell | Module2/Task2.1P/src/Parallel.cpp:79-93 | a 3-by-3 matrix on two threads gets the ranges `0..3` and `4..7`, so cell 8 is never computed |
| ElementSplit.RangesCorrected | Module2/Task2.1P/src/Parallel.cpp:85-93 | the corrected split, which gives the remainder to the last worker, has one range per thread |
| ElementSplit.CorrectedCovers | Module2/Task2.1P/src/Parallel.cpp:85-93 | the corrected ranges cover every cell |
| ElementSplit.CorrectedDisjoint | Module2/Task2.1P/src/Parallel.cpp:85-93 | the corrected ranges never overlap, so each cell is written once |
| ElementSplit.CorrectedWithin | Module2/Task2.1P/src/Parallel.cpp:91-93 | every corrected range lies within the cells |
| ElementSplit.Worker | Module2/Task2.1P/src/Parallel.cpp:54-65 | a worker stores the dot product for cell `(el / size, el % size)` for each `el` of its range and leaves other cells alone |
| ElementSplit.RunWorkers | Module2/Task2.1P/src/Parallel.cpp:84-97 | after all workers, a cell holds its dot product exactly when some range holds it, and is unset otherwise |
| ElementSplit.MultiplyAsWritten | Module2/Task2.1P/src/Parallel.cpp:67-97 | with the split as written, exactly the cells below `threadCount * elPart` are computed, each correctly |
| ElementSplit.MultiplyCorrected | Module2/Task2.1P/src/Parallel.cpp:67-97 | with the corrected split every cell `(r, c)` of the result holds the product entry |
| MatrixText.WriteRow | Module3/Task3.1P/src/mm-mpi-cl.cpp:112-114 | one row is written as its values in decimal, separated by `,` and ended by `\n` |
| MatrixText.WriteRows | Module3/Task3.1P/src/mm-mpi-cl.cpp:100-114 | the whole matrix is written as one such line per row, in row order |
| MatrixText.PrintRow | Module2/Task2.1P/src/OpenMP.cpp:73-76 | the `size - 1` values with `,` then the last with `\n` give the same line as the MPI loop |
| MatrixText.PrintMatrix | Module2/Task2.1P/src/OpenMP.cpp:68-79 | an open file gets the title line, then one line per row; a closed file gets nothing |
| MatrixText.JoinedShape | Module3/Task3.1P/src/mm-mpi-cl.cpp:100-114 | a printed row has exactly `size - 1` commas and no line break |
| MatrixText.SplitJoin | Module3/Task3.1P/src/mm-mpi-cl.cpp:100-114 | splitting a joined line at its commas gives back the fields |
| MatrixText.ReadPrintedRow | Module3/Task3.1P/src/mm-mpi-cl.cpp:100-114 | parsing each field of a printed row gives back the row |
| MatrixText.MatrixRoundTrip | Module3/Task3.1P/src/mm-mpi-omp.cpp:127-143 | reading the printed rows of a square `int` matrix line by line and field by field gives back the matrix |

## Left out

- Threads, mutexes and the producer/consumer setup of the traffic simulator are left out, because their behaviour depends on interleaving. The model applies readings one at a time, in the order consumed.
- The busy-wait in `ts_buffer::push` becomes the precondition "not full" on `RingBuffer.Push`. The `eof` termination poll is left out.
- MPI `Bcast`, `Scatterv`, `Gatherv` and `Barrier` are left out. `Distributed` runs the ranks one after another and copies the blocks directly. The `np != 2` exit of the sorts is left out; `TwoRankSort` always uses two ranks.
- OpenMP pragmas and tasks are modelled by their sequential meaning.
- All OpenCL code (`cl_matrix_mul`, the device and program helpers, the OpenCL `quickSort`, `qs-cl.cpp`) is left out: it is a foreign device API with external kernels.
- `localtime` is a parameter `int -> Tm` of the aggregation, because time-zone conversion is library behaviour.
- File output, `printf`/`cout` reports and `chrono` timing are left out. `MatrixText` models the text a result file receives.
- `rand()` draws are a parameter sequence of non-negative integers, and `srand`/`time(NULL)` are left out.
- `atoi` argument parsing is left out. So are the `argv[0]` mistakes in OpenMP.cpp and the input generator. The generator's light count is a parameter.
- `new`/`delete` memory management is left out. `new_matrix` is modelled as a row view over one block.
- Parallel.cpp's `print_matrix` and `Module2/Task2.2C/src/Quicksort.cpp` are left out: neither is part of the modelled core (the first skips column 0, the second does not compile).
- `Module1/Task1.5HD/main.c` is not part of this model; it holds embedded GPIO code.
- Integer overflow is left out. Matrix entries, products and totals are mathematical integers. Parsed values are range-checked against `int` and `long`, as `stoi` and `stol` do.
- Aggregation.WithLight: a new light's total starts at 0. The source leaves `light_t::total` uninitialised, so its first value is indeterminate.
- Ranking.SortByTotal: the comparator `!(total < a.total)` (main.cpp:105-107) makes `x < x` true, so it is not the strict weak order `std::sort` requires, and the call at main.cpp:225 has undefined behaviour; above 16 elements libstdc++'s unguarded partition can even read past the range. The model's promise, a permutation in non-increasing order of total, is therefore an assumption about that call that the source does not guarantee. No order among equal totals is promised; the code fixes none.
- Distributed.MultiplyDistributed: uses the corrected displacement guard `i < np - 1` (`RowPartition.PartitionRows`). As written, the guard `i < size - 1` (mm-mpi-omp.cpp:80, mm-mpi-cl.cpp:56) stores `displacements[np]` out of bounds for every `np < size`, before any scatter (`RowPartition.PartitionRowsAsWritten`), so the product is not promised for the program as written.
- Distributed.MultiplyDistributed: a matrix of size 0 is the `None` result instead of the division by zero at `send_counts[rank] / size`.
- Distributed.MultiplyDistributed: with more ranks than rows (`np > size`, exactly when some rank gets no rows, `RowPartition.RowlessRanks`), those ranks call `new_matrix(0, size)` and `new_zero_matrix(0, size)` (mm-mpi-omp.cpp:157, 159; mm-mpi-cl.cpp:128, 130). `new_matrix` then stores `matrix[0]` into a zero-length pointer array (mm-mpi-omp.cpp:14-15; mm-mpi-cl.cpp:160-161). The model gives such a rank an empty block and still returns the product; it does not model that out-of-bounds store.
- Matrices.NewMatrix: with `rows = 0` the model gives the empty matrix, where the source writes `matrix[0]` past a zero-length array.
- TwoRankSort.SortTwoRanks: the contract follows qs-mpi-omp.cpp. In qs-mpi-cl.cpp each rank's sort is the OpenCL kernel (qs-mpi-cl.cpp:68, 144-192), which is assumed to return a sorted permutation of its block.
- RingBuffer: with capacity 0 the buffer has one slot, is never full, and loses every pushed item (`RingBuffer.ZeroCapacityLosesPush`).
- SampleCheck.ValidityTest: an empty array is the `None` result instead of reading `sorted[0]` of an empty allocation.
- ElementSplit.RangesAsWritten: zero cells is the `None` result instead of the division by zero in `elCount / threadCount`.

## Findings

| source | as written | input that shows it | evidently intended | confidence | as-written member | corrected member |
|---|---|---|---|---|---|---|
| Module3/Task3.1P/src/mm-mpi-omp.cpp:80 (also mm-mpi-cl.cpp:56) | `if (i < size - 1) displacements[i + 1] = ...` | `size = 5`, `np = 2` (the default size on two ranks): at `i = 1` the loop writes `displacements[2]`, past the `np`-element array | `if (i < np - 1)`: displacements are the prefix sums of the counts | not executed | RowPartition.PartitionRowsAsWritten, RowPartition.DefaultRunOverruns | RowPartition.PartitionRows, Distributed.MultiplyDistributed |
| Module2/Task2.1P/src/Parallel.cpp:79, 91-93 | `elPart = elCount / threadCount`; worker `t` gets `t * elPart .. t * elPart + elPart - 1` | `size = 3`: 9 cells on 2 threads give ranges `0..3` and `4..7`; cell 8 (row 2, column 2) is never computed | the last worker's range ends at `elCount - 1`, so every cell is computed once | not executed | ElementSplit.MultiplyAsWritten, ElementSplit.OddSizeLeavesCell | ElementSplit.MultiplyCorrected, ElementSplit.CorrectedCovers |
