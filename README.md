# ulib mapreduce, modelled in Dafny

This project models the in-memory MapReduce engine of `src/ext2/mapreduce/mapreduce.h`.
A job takes a dataset, which is a random-access sequence of records, and a caller-owned keyed result store.
It splits the dataset's indices into `ntask` contiguous ranges and gives each range to a task.
A task maps each record of its range to a `(key, value)` pair and folds the value into the store with `store[key] += value`.
An absent key reads as the default-constructed value.

Modules, one per component:

- `Accumulate` (accumulate.dfy): `associative<V>` is the `Associative` class. It holds a reference to a slot (a `Cell`) and mutates that slot in `AddAssign`. `Value` reads the slot back, standing for both `value()` and `operator V()`. `reducer<V>` adds nothing to `associative<V>`, so `Reducer` is a type synonym.
- `KeyedStore` (store.dfy): the keyed result store. `store.h` is not part of this model. Only the interface the tasks use is modelled: `operator[]` as lookup-or-create. A new key's slot holds `zero`, the default-constructed value. Each key has its own slot.
- `Partition` (partition.dfy): `partitioner<K>` as a datatype. `Equals` is `operator==`. `Slot` is `operator size_t`, with the key-to-word conversion and the mixing macro passed in as functions.
- `Split` (split.dfy): the range arithmetic of `job::exec`. `TaskRange` defines the range of task `i`. `SplitRanges` fills an array of ranges in a loop. The lemmas prove that the ranges are well formed, have the stated lengths, are contiguous, ordered and disjoint, and cover `[0, size)`.
- `Aggregate` (aggregate.dfy): the meaning of a task's work on values. `Step` is one `store[key] += value`. `FoldRange` folds a range in index order. `Apply` folds an arbitrary schedule of indices. The lemmas cover the fold's frame, additive sums, and order independence under a commutative and associative `+=`.
- `MapReduce` (mapreduce.dfy): `task` is the `Task` class, with `Run` being `task::run`. `job` is the `Job` class, with `Exec` being `job::exec`, split into `CreateTasks` and `RunAll`. The main results relate running the tasks to one fold over the dataset.

The mapper's pure virtual `key()` and `value()` become the two function fields of the `Mapper` datatype.
The value type's `+=` becomes the `plus` function.
The store's default value becomes `zero`.
In `Aggregate`, `Combiner` bundles `plus` and `zero`.

## Model

| member | source | states |
|---|---|---|
| Accumulate.Associative.constructor | src/ext2/mapreduce/mapreduce.h:48-50 | the accumulator refers to the given slot and uses the given `+=` |
| Accumulate.Associative.AddAssign | src/ext2/mapreduce/mapreduce.h:52-57 | the referenced slot becomes `old value + other`, nothing else changes, and the same accumulator is returned, so chained calls fold left |
| KeyedStore.Store.Lookup | src/ext2/mapreduce/mapreduce.h:166 | lookup-or-create: a present key returns its existing slot and leaves the store as it was; an absent key gets a fresh slot holding the default value; the store view gains at most that one entry |
| Partition.Partitioner.Equals | src/ext2/mapreduce/mapreduce.h:131-135 | `operator==` holds exactly when the two partitioners are the same value, that is, when they wrap the same key |
| Partition.EqualsIffSameKey | src/ext2/mapreduce/mapreduce.h:131-135 | two partitioners are equal exactly when their keys are equal, in both directions |
| Partition.EqualsIsEquivalence | src/ext2/mapreduce/mapreduce.h:133-135 | `operator==` is reflexive, symmetric and transitive |
| Partition.EqualPartitionersShareSlot | src/ext2/mapreduce/mapreduce.h:121-129 | the slot depends on the key alone, so equal partitioners get the same slot |
| Split.TaskRange | src/ext2/mapreduce/mapreduce.h:206-211 | every task's range is well formed (`begin <= end`) and lies within `[0, size)` |
| Split.SplitRanges | src/ext2/mapreduce/mapreduce.h:206-211 | the loop fills one range per task, and slot `i` holds `TaskRange(size, ntask, i)`; `ntask >= 1` is required |
| Split.NonLastRangeLength | src/ext2/mapreduce/mapreduce.h:206-209 | each non-last task `i` starts at `len * i` and has exactly `len = size / ntask` records |
| Split.LastRangeAbsorbsRemainder | src/ext2/mapreduce/mapreduce.h:210-211 | the last task starts at `len * (ntask - 1) <= size`, ends at `size`, and has `len + size % ntask` records |
| Split.RangesContiguous | src/ext2/mapreduce/mapreduce.h:207-211 | each range ends exactly where the next one begins |
| Split.RangesSpanDataset | src/ext2/mapreduce/mapreduce.h:206-211 | the first range starts at 0 and the last ends at `size` |
| Split.RangesOrdered | src/ext2/mapreduce/mapreduce.h:206-211 | for `i < j`, range `i` ends no later than range `j` begins, so the ranges are ordered and pairwise disjoint |
| Split.EveryIndexInExactlyOneRange | src/ext2/mapreduce/mapreduce.h:206-211 | every index in `[0, size)` lies in some task's range and in no other |
| Split.DegenerateSplit | src/ext2/mapreduce/mapreduce.h:204-211 | when `ntask > size`, `len` is 0, every non-last range is empty, and the last range is all of `[0, size)` |
| Split.SingleTaskCoversAll | src/ext2/mapreduce/mapreduce.h:206-211 | with one task, that task's range is `[0, size)` |
| Split.TaskIndicesAreAllIndices | src/ext2/mapreduce/mapreduce.h:206-211 | concatenating the tasks' index ranges in task order gives exactly `0, 1, ..., size - 1` |
| Aggregate.FoldConcat | src/ext2/mapreduce/mapreduce.h:163-168 | folding `[a, b)` and then `[b, c)` gives the same store as folding `[a, c)` |
| Aggregate.FoldFrame | src/ext2/mapreduce/mapreduce.h:163-168 | a fold over a range adds exactly the keys its records map to; keys no record maps to keep their old entries |
| Aggregate.EmptyRangeUnchanged | src/ext2/mapreduce/mapreduce.h:163 | an empty range leaves the store unchanged |
| Aggregate.AdditiveTotals | src/ext2/mapreduce/mapreduce.h:163-168 | with `+=` as integer addition and default 0, each key's value grows by exactly the sum of the values mapped to it in the range |
| Aggregate.AdditiveFromEmpty | src/ext2/mapreduce/mapreduce.h:163-168 | from an empty store with additive `+=`, a key is present iff some record maps to it, and it holds the sum of those records' values |
| Aggregate.StepsCommute | src/ext2/mapreduce/mapreduce.h:165-167 | two `store[key] += value` steps commute: on different keys with any `+=`, on the same key when `+=` is commutative and associative |
| Aggregate.ApplyPermutation | src/ext2/mapreduce/mapreduce.h:163-168 | with a commutative and associative `+=`, folding the same indices in any order gives the same store |
| Aggregate.ApplyInOrder | src/ext2/mapreduce/mapreduce.h:163 | folding the indices `b .. e - 1` in increasing order is the range fold `FoldRange` |
| MapReduce.Task.constructor | src/ext2/mapreduce/mapreduce.h:152-154 | a task holds the shared store, the dataset and a well-formed range `[begin, end)` |
| MapReduce.Task.Process | src/ext2/mapreduce/mapreduce.h:164-167 | one record: its key's slot is looked up or created and gets `+= value`, so the store's view takes exactly one `Step`; every key present before keeps the very same slot, and different keys still have different slots |
| MapReduce.Task.Run | src/ext2/mapreduce/mapreduce.h:160-170 | after the loop, the store equals the in-order fold of `store[key] += value` over `[begin, end)` applied to the old store; every key present before keeps the very same slot, different keys still have different slots, and slots it adds are new; it returns 0 |
| MapReduce.TasksInOrderAreOneFold | src/ext2/mapreduce/mapreduce.h:206-215 | running tasks `0 .. n - 1` one after another equals one fold over `[0, end of task n - 1)`; with all tasks, one fold over the whole dataset |
| MapReduce.TaskCountIrrelevant | src/ext2/mapreduce/mapreduce.h:199-217 | any two task counts leave the same final store |
| MapReduce.AnyScheduleGivesSameStore | src/ext2/mapreduce/mapreduce.h:212-215 | any order of steps that processes each index of the tasks' ranges once gives the same store as the in-order fold, when `+=` is commutative and associative |
| MapReduce.JobComputesPerKeySums | src/ext2/mapreduce/mapreduce.h:199-217 | from an empty store with additive `+=`, after all tasks each key some record maps to holds the sum of those records' values, and no other key is present |
| MapReduce.Job.constructor | src/ext2/mapreduce/mapreduce.h:195-197 | a job is bound to the caller's result store and the dataset |
| MapReduce.Job.CreateTasks | src/ext2/mapreduce/mapreduce.h:202-211 | a fresh array holding one freshly allocated task per index, no two indices sharing a task, where task `i` works on `TaskRange(size, ntask, i)` and shares the job's store |
| MapReduce.Job.RunAll | src/ext2/mapreduce/mapreduce.h:212-215 | running the created tasks in index order leaves the store as `RunTasks` describes; slots it adds are new and every key present before keeps its slot |
| MapReduce.Job.Exec | src/ext2/mapreduce/mapreduce.h:199-217 | with `ntask >= 1`, the result store ends up as the tasks run in order would leave it, which equals one in-order fold over the whole dataset; an empty dataset leaves it unchanged; any slot the store gained is new, so no slot a caller already holds is shared, and every key present before keeps its slot |

## Left out

- Threads: `ulib::thread`, `start()` and `stop_and_join()` (lines 150, 156-157, 212-215) are not modelled. `RunAll` starts each task and lets it finish before the next one starts. Concurrent interleavings are covered only at the value level: `AnyScheduleGivesSameStore` shows that any order of the per-record steps gives the same store when `+=` is commutative and associative. The source does not enforce that property. With a non-commutative `+=`, the sequential order modelled here is only one of the possible outcomes.
- Partitioner keys: in the source, the result store is `S<partitioner<K>, V>` (lines 192-193). It is keyed by partitioners and compares them with `operator==`. Here `Store<K, V>` is keyed by the mapper's key `K` directly, with Dafny's `==`. `Partition.EqualsIffSameKey` justifies the substitution: `p.Equals(q) <==> p == q <==> p.key == q.key`, so keying by partitioner and keying by key pick out the same entries.
- Per-key locking: `_store.lock` and `_store.unlock` (lines 165, 167) are no-ops in a sequential model, so they are omitted. Each step touches one key's slot, and `StepsCommute` holds for steps on different keys with any `+=`.
- Hash mixing: `RAND_INT3_MIX64` (line 127) and the `K` to `uint64_t` conversion (line 126) come from code outside this model. `Partition.Partitioner.Slot` takes them as function parameters.
- `store.h` and `dataset.h` are not part of this model. The store is assumed to be a map with lookup-or-create that default-constructs new entries. The dataset is a `seq`, and an iterator is an index into it.
- Heap management: the `delete`s of the tasks and of the task array (lines 214-216) are not modelled, because Dafny is garbage collected. The `new`s (lines 202-203, 207-208, 210-211) are modelled by `Job.CreateTasks`. The typedefs and `typical_job` (lines 189-193, 228-242) only carry types.
- The mapper's virtual dispatch (lines 86-92) is replaced by the two function fields of `Mapper`. `mapper::record()` is not modelled separately: it returns the record the functions are applied to.
- Partition.Partitioner.Slot: no contract beyond its body, because the key-to-word conversion (line 126) and `RAND_INT3_MIX64` (line 127) come in as parameters. The one promise the source makes about the slot, that it depends on the key alone, is stated by `Partition.EqualPartitionersShareSlot`.
- `Accumulate.Associative.Value`: no contract beyond its body. It returns the referenced slot's value, as do `value()` and `operator V()`.
- Aggregate.AdditiveTotals: assumes the value type's `+=` is unbounded integer addition. For a fixed-width `V`, `_value += other` (line 55) wraps when `V` is unsigned and is undefined behaviour when it is signed, once a key's total leaves the type's range. The per-key totals are then exact only modulo 2^w, for a wrapping `V`.
- Aggregate.AdditiveFromEmpty: the same unbounded-integer assumption as `AdditiveTotals`. The key set it states holds for any `V`.
- MapReduce.JobComputesPerKeySums: the same unbounded-integer assumption. The generic results (`TasksInOrderAreOneFold`, `TaskCountIrrelevant`, `AnyScheduleGivesSameStore`) take `+=` as a parameter, so they also apply to a wrapping `plus`.
- `size_t` is modelled as an unbounded `nat`. No product `len * i` in the split exceeds `size`, so no wrap-around can occur.
- `MapReduce.Task.Run` requires `begin <= end <= |dataset|`. The source's `i != _end` loop assumes the same and would run past the end otherwise. Every task that `job::exec` creates satisfies it.
