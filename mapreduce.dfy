/**
 `task` and `job` of mapreduce.h with the threads taken out: a task folds its
 range of the dataset into the shared store, and a job splits the dataset
 among `ntask` tasks and runs them, here one after another in task order.
 */
module MapReduce {
  import opened Accumulate
  import opened KeyedStore
  import opened Split
  import opened Aggregate

  /**
   A task: the shared store, the dataset its iterators point into, and its
   half-open range `[begin, end)` of that dataset. The mapper and the `+=`
   that the C++ template parameters M and R fix are fields here.
   */
  class Task<R, K(==), V> {
    const store: Store<K, V>
    const dataset: seq<R>
    const mapper: Mapper<R, K, V>
    const plus: (V, V) -> V
    const begin: nat
    const end: nat

    ghost predicate Valid() {
      begin <= end <= |dataset|
    }

    constructor (store: Store<K, V>, dataset: seq<R>, mapper: Mapper<R, K, V>, plus: (V, V) -> V,
                 begin: nat, end: nat)
      requires begin <= end <= |dataset|
      ensures Valid()
      ensures this.store == store && this.dataset == dataset && this.mapper == mapper
      ensures this.plus == plus && this.begin == begin && this.end == end
    {
      this.store := store;
      this.dataset := dataset;
      this.mapper := mapper;
      this.plus := plus;
      this.begin := begin;
      this.end := end;
    }

    /**
     The body of `task::run`'s loop for one record: `R(store[key]) += value`,
     which is one `Step` of the store's view.
     */
    method Process(record: R)
      requires store.Valid()
      modifies store, store.slots.Values
      ensures store.Valid()
      ensures store.Contents() == Step(mapper, Combiner(plus, store.zero), old(store.Contents()), record)
      ensures forall k :: k in old(store.slots) ==> k in store.slots && store.slots[k] == old(store.slots[k])
      ensures fresh(store.slots.Values - old(store.slots.Values))
    {
      var key := mapper.key(record);
      var slot := store.Lookup(key);
      ghost var looked := store.Contents();
      var acc: Reducer<V> := new Associative(slot, plus);
      var _ := acc.AddAssign(mapper.value(record));
      ViewAfterSlotWrite(store, key, looked);
    }

    /**
     `task::run`: for each record of the range, in order, `store[key] += value`.
     The store ends up as the fold of the range into its old contents.
     */
    method Run() returns (status: int)
      requires Valid() && store.Valid()
      modifies store, store.slots.Values
      ensures store.Valid()
      ensures store.Contents() == FoldRange(mapper, Combiner(plus, store.zero), dataset, old(store.Contents()), begin, end)
      ensures forall k :: k in old(store.slots) ==> k in store.slots && store.slots[k] == old(store.slots[k])
      ensures fresh(store.slots.Values - old(store.slots.Values))
      ensures status == 0
    {
      var i := begin;
      while i != end
        invariant begin <= i <= end
        invariant store.Valid()
        invariant store.Contents() == FoldRange(mapper, Combiner(plus, store.zero), dataset, old(store.Contents()), begin, i)
        invariant forall k :: k in old(store.slots) ==> k in store.slots && store.slots[k] == old(store.slots[k])
        invariant fresh(store.slots.Values - old(store.slots.Values))
        decreases end - i
      {
        Process(dataset[i]);
        i := i + 1;
      }
      status := 0;
    }
  }

  /**
   The store's view after the slot of `k` was written, given `m`, a view
   that agrees with every other key's slot.
   */
  lemma ViewAfterSlotWrite<K, V>(store: Store<K, V>, k: K, m: map<K, V>)
    requires store.Valid() && k in store.slots && m.Keys == store.slots.Keys
    requires forall k' :: k' in store.slots && k' != k ==> store.slots[k'].value == m[k']
    ensures store.Contents() == m[k := store.slots[k].value]
  {
  }

  /**
   The stores that running tasks `0 .. n - 1` one after another leaves,
   starting from `m`.
   */
  function RunTasks<R, K, V>(mp: Mapper<R, K, V>, cb: Combiner<V>, data: seq<R>,
                             m: map<K, V>, ntask: int, n: nat): map<K, V>
    requires 1 <= ntask && n <= ntask
  {
    if n == 0 then m
    else
      var w := TaskRange(|data|, ntask, n - 1);
      FoldRange(mp, cb, data, RunTasks(mp, cb, data, m, ntask, n - 1), w.begin, w.end)
  }

  /**
   Running tasks `0 .. n - 1` in order is one fold over the prefix of the
   dataset that their ranges cover; with all `ntask` tasks, over all of it.
   */
  lemma {:induction false} TasksInOrderAreOneFold<R, K, V>(mp: Mapper<R, K, V>, cb: Combiner<V>, data: seq<R>,
                                                           m: map<K, V>, ntask: int, n: nat)
    requires 1 <= n <= ntask
    ensures RunTasks(mp, cb, data, m, ntask, n)
            == FoldRange(mp, cb, data, m, 0, TaskRange(|data|, ntask, n - 1).end)
    ensures n == ntask ==> RunTasks(mp, cb, data, m, ntask, n) == FoldRange(mp, cb, data, m, 0, |data|)
  {
    var w := TaskRange(|data|, ntask, n - 1);
    if n == 1 {
      assert RunTasks(mp, cb, data, m, ntask, 0) == m;
    } else {
      TasksInOrderAreOneFold(mp, cb, data, m, ntask, n - 1);
      RangesContiguous(|data|, ntask, n - 2);
      FoldConcat(mp, cb, data, m, 0, w.begin, w.end);
    }
  }

  /** The final store does not depend on how many tasks the job uses. */
  lemma TaskCountIrrelevant<R, K, V>(mp: Mapper<R, K, V>, cb: Combiner<V>, data: seq<R>,
                                     m: map<K, V>, n1: int, n2: int)
    requires n1 >= 1 && n2 >= 1
    ensures RunTasks(mp, cb, data, m, n1, n1) == RunTasks(mp, cb, data, m, n2, n2)
  {
    TasksInOrderAreOneFold(mp, cb, data, m, n1, n1);
    TasksInOrderAreOneFold(mp, cb, data, m, n2, n2);
  }

  /**
   Concurrent tasks apply the steps of all records in some order that keeps
   each task's own order but interleaves tasks arbitrarily. Whatever that
   order, if it processes each index of the tasks' ranges once, a commutative
   and associative `+=` leaves the same store as the single in-order fold.
   */
  lemma AnyScheduleGivesSameStore<R, K, V(!new)>(mp: Mapper<R, K, V>, cb: Combiner<V>, data: seq<R>,
                                                 m: map<K, V>, ntask: int, sched: seq<nat>)
    requires ntask >= 1 && CommutativeAssociative(cb.plus)
    requires multiset(sched) == multiset(TaskIndices(|data|, ntask, ntask))
    ensures InBounds(data, sched)
    ensures Apply(mp, cb, data, m, sched) == FoldRange(mp, cb, data, m, 0, |data|)
  {
    TaskIndicesAreAllIndices(|data|, ntask, ntask);
    ApplyInOrder(mp, cb, data, m, 0, |data|);
    forall j | j in sched
      ensures j < |data|
    {
      assert j in multiset(Indices(0, |data|));
    }
    InBoundsByMembers(data, sched);
    ApplyPermutation(mp, cb, data, m, sched, Indices(0, |data|));
  }

  /**
   With an additive `+=` and an empty store to start from, after all tasks
   every key some record maps to holds the sum of those records' values,
   and no other key is present.
   */
  lemma JobComputesPerKeySums<R, K>(mp: Mapper<R, K, int>, cb: Combiner<int>, data: seq<R>, ntask: int, k: K)
    requires ntask >= 1 && Additive(cb)
    ensures var r := RunTasks(mp, cb, data, map[], ntask, ntask);
            (k in r <==> exists j :: 0 <= j < |data| && mp.key(data[j]) == k) &&
            (k in r ==> r[k] == SumFor(mp, data, k, 0, |data|))
  {
    TasksInOrderAreOneFold(mp, cb, data, map[], ntask, ntask);
    AdditiveFromEmpty(mp, cb, data, k);
  }

  /** A job: the caller's result store, the dataset, the mapper, and the value type's `+=`. */
  class Job<R, K(==), V> {
    const result: Store<K, V>
    const dataset: seq<R>
    const mapper: Mapper<R, K, V>
    const plus: (V, V) -> V

    constructor (result: Store<K, V>, dataset: seq<R>, mapper: Mapper<R, K, V>, plus: (V, V) -> V)
      ensures this.result == result && this.dataset == dataset
      ensures this.mapper == mapper && this.plus == plus
    {
      this.result := result;
      this.dataset := dataset;
      this.mapper := mapper;
      this.plus := plus;
    }

    /** `t` is the task `job::exec` creates for range `i` of `ntask`. */
    ghost predicate TaskOf(t: Task?<R, K, V>, i: nat, ntask: int)
      requires 1 <= ntask && i < ntask
    {
      && t != null && t.Valid()
      && t.store == result && t.dataset == dataset && t.mapper == mapper && t.plus == plus
      && WorkRange(t.begin, t.end) == TaskRange(|dataset|, ntask, i)
    }

    /**
     `job::exec`: split the dataset into `ntask` ranges, create one task per
     range, then run every task. The result store ends up as the tasks run in
     order would leave it, which is one fold over the whole dataset.
     */
    method Exec(ntask: int)
      requires ntask >= 1 && result.Valid()
      modifies result, result.slots.Values
      ensures result.Valid()
      ensures result.Contents() == RunTasks(mapper, Combiner(plus, result.zero), dataset, old(result.Contents()), ntask, ntask)
      ensures result.Contents() == FoldRange(mapper, Combiner(plus, result.zero), dataset, old(result.Contents()), 0, |dataset|)
      ensures |dataset| == 0 ==> result.Contents() == old(result.Contents())
      ensures fresh(result.slots.Values - old(result.slots.Values))
      ensures forall k :: k in old(result.slots) ==> k in result.slots && result.slots[k] == old(result.slots[k])
    {
      var tasks := CreateTasks(ntask);
      RunAll(tasks, ntask);
      TasksInOrderAreOneFold(mapper, Combiner(plus, result.zero), dataset, old(result.Contents()), ntask, ntask);
    }

    /** The first half of `job::exec`: the ranges, and one task over each. */
    method CreateTasks(ntask: int) returns (tasks: array<Task?<R, K, V>>)
      requires ntask >= 1
      ensures fresh(tasks) && tasks.Length == ntask
      ensures forall j :: 0 <= j < ntask ==> TaskOf(tasks[j], j, ntask) && fresh(tasks[j])
      ensures forall a, b :: 0 <= a < b < ntask ==> tasks[a] != tasks[b]
    {
      var ranges := SplitRanges(|dataset|, ntask);
      tasks := new Task?<R, K, V>[ntask];
      var i := 0;
      while i < ntask
        modifies tasks
        invariant 0 <= i <= ntask
        invariant forall j :: 0 <= j < i ==> TaskOf(tasks[j], j, ntask) && fresh(tasks[j])
        invariant forall a, b :: 0 <= a < b < i ==> tasks[a] != tasks[b]
      {
        tasks[i] := new Task(result, dataset, mapper, plus, ranges[i].begin, ranges[i].end);
        i := i + 1;
      }
    }

    /**
     The second half of `job::exec`: start every task and wait for it. Run
     one after another, task `i` folds its range into what tasks `0 .. i - 1`
     left.
     */
    method RunAll(tasks: array<Task?<R, K, V>>, ntask: int)
      requires ntask >= 1 && tasks.Length == ntask && result.Valid()
      requires forall j :: 0 <= j < ntask ==> TaskOf(tasks[j], j, ntask)
      modifies result, result.slots.Values
      ensures result.Valid()
      ensures result.Contents() == RunTasks(mapper, Combiner(plus, result.zero), dataset, old(result.Contents()), ntask, ntask)
      ensures fresh(result.slots.Values - old(result.slots.Values))
      ensures forall k :: k in old(result.slots) ==> k in result.slots && result.slots[k] == old(result.slots[k])
    {
      var i := 0;
      while i < ntask
        invariant 0 <= i <= ntask
        invariant result.Valid()
        invariant result.Contents() == RunTasks(mapper, Combiner(plus, result.zero), dataset, old(result.Contents()), ntask, i)
        invariant fresh(result.slots.Values - old(result.slots.Values))
        invariant forall k :: k in old(result.slots) ==> k in result.slots && result.slots[k] == old(result.slots[k])
      {
        var _ := tasks[i].Run();
        i := i + 1;
      }
    }
  }
}
