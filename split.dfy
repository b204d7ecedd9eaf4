/**
 How `job::exec` splits the dataset's index space `[0, size)` among `ntask`
 tasks: with `len = size / ntask`, task `i < ntask - 1` gets
 `[len * i, len * (i + 1))` and the last task gets `[len * (ntask - 1), size)`.
 */
module Split {

  /** A half-open index interval `[begin, end)` of the dataset. */
  datatype WorkRange = WorkRange(begin: nat, end: nat) {
    predicate Contains(j: int) {
      begin <= j < end
    }
  }

  /** The indices `b, b + 1, ..., e - 1`, in order. */
  function Indices(b: nat, e: nat): seq<nat>
    requires b <= e
  {
    seq(e - b, i => b + i)
  }

  lemma IndicesConcat(a: nat, b: nat, c: nat)
    requires a <= b <= c
    ensures Indices(a, b) + Indices(b, c) == Indices(a, c)
  {
  }

  lemma MulMonotone(len: nat, i: nat, j: nat)
    requires i <= j
    ensures len * i <= len * j
  {
  }

  /** The range `job::exec` assigns to task `i`; it always lies within `[0, size)`. */
  function TaskRange(size: nat, ntask: int, i: nat): (w: WorkRange)
    requires 1 <= ntask && i < ntask
    ensures w.begin <= w.end <= size
  {
    var len := size / ntask;
    MulMonotone(len, i, ntask - 1);
    MulMonotone(len, ntask - 1, ntask);
    if i < ntask - 1 then
      MulMonotone(len, i + 1, ntask - 1);
      WorkRange(len * i, len * (i + 1))
    else
      WorkRange(len * (ntask - 1), size)
  }

  /**
   The partitioning loop of `job::exec`: one range per task, the first
   `ntask - 1` in a loop, the last one after it.
   */
  method SplitRanges(size: nat, ntask: int) returns (tasks: array<WorkRange>)
    requires ntask >= 1
    ensures tasks.Length == ntask
    ensures forall i :: 0 <= i < ntask ==> tasks[i] == TaskRange(size, ntask, i)
  {
    tasks := new WorkRange[ntask];
    var len: nat := size / ntask;
    var i: nat := 0;
    while i < ntask - 1
      invariant i <= ntask - 1
      invariant forall j :: 0 <= j < i ==> tasks[j].begin == len * j && tasks[j].end == len * (j + 1)
    {
      tasks[i] := WorkRange(len * i, len * (i + 1));
      i := i + 1;
    }
    tasks[ntask - 1] := WorkRange(len * (ntask - 1), size);
    SplitIsTaskRanges(tasks[..], size, ntask, len);
  }

  /** A sequence laid out as the partitioning loop lays it out holds `TaskRange(size, ntask, i)` at each `i`. */
  lemma SplitIsTaskRanges(s: seq<WorkRange>, size: nat, ntask: int, len: nat)
    requires ntask >= 1 && |s| == ntask && len == size / ntask
    requires forall j :: 0 <= j < ntask - 1 ==> s[j].begin == len * j && s[j].end == len * (j + 1)
    requires s[ntask - 1].begin == len * (ntask - 1) && s[ntask - 1].end == size
    ensures forall i :: 0 <= i < ntask ==> s[i] == TaskRange(size, ntask, i)
  {
  }

  /** Every task but the last gets exactly `size / ntask` records. */
  lemma NonLastRangeLength(size: nat, ntask: int, i: nat)
    requires 1 <= ntask && i < ntask - 1
    ensures TaskRange(size, ntask, i).begin == (size / ntask) * i
    ensures TaskRange(size, ntask, i).end - TaskRange(size, ntask, i).begin == size / ntask
  {
    var len := size / ntask;
    assert len * (i + 1) == len * i + len;
  }

  /**
   The last task ends at `size` and absorbs the remainder: it gets
   `size / ntask + size % ntask` records.
   */
  lemma LastRangeAbsorbsRemainder(size: nat, ntask: int)
    requires ntask >= 1
    ensures TaskRange(size, ntask, ntask - 1).begin == (size / ntask) * (ntask - 1) <= size
    ensures TaskRange(size, ntask, ntask - 1).end == size
    ensures TaskRange(size, ntask, ntask - 1).end - TaskRange(size, ntask, ntask - 1).begin
            == size / ntask + size % ntask
  {
    var len := size / ntask;
    assert size == len * ntask + size % ntask;
    assert len * ntask == len * (ntask - 1) + len;
  }

  /** Consecutive ranges touch: each range ends where the next one begins. */
  lemma RangesContiguous(size: nat, ntask: int, i: nat)
    requires 1 <= ntask && i + 1 < ntask
    ensures TaskRange(size, ntask, i).end == TaskRange(size, ntask, i + 1).begin
  {
  }

  /** The first range starts at 0 and the last one ends at `size`. */
  lemma RangesSpanDataset(size: nat, ntask: int)
    requires ntask >= 1
    ensures TaskRange(size, ntask, 0).begin == 0
    ensures TaskRange(size, ntask, ntask - 1).end == size
  {
  }

  /** Ranges are in task order and do not overlap: an earlier range ends before a later one begins. */
  lemma RangesOrdered(size: nat, ntask: int, i: nat, j: nat)
    requires i < j < ntask
    ensures TaskRange(size, ntask, i).end <= TaskRange(size, ntask, j).begin
  {
    var len := size / ntask;
    MulMonotone(len, i + 1, j);
  }

  /** Every index of the dataset lies in exactly one task's range. */
  lemma EveryIndexInExactlyOneRange(size: nat, ntask: int, j: nat)
    requires ntask >= 1 && j < size
    ensures exists i :: 0 <= i < ntask && TaskRange(size, ntask, i).Contains(j)
    ensures forall i1, i2 ::
              (0 <= i1 < ntask && 0 <= i2 < ntask &&
               TaskRange(size, ntask, i1).Contains(j) && TaskRange(size, ntask, i2).Contains(j)) ==> i1 == i2
  {
    var owner := OwnerOf(size, ntask, j, 0);
    forall i1, i2 | 0 <= i1 < ntask && 0 <= i2 < ntask &&
        TaskRange(size, ntask, i1).Contains(j) && TaskRange(size, ntask, i2).Contains(j)
      ensures i1 == i2
    {
      if i1 < i2 {
        RangesOrdered(size, ntask, i1, i2);
      } else if i2 < i1 {
        RangesOrdered(size, ntask, i2, i1);
      }
    }
  }

  /** The first task at or after `i` whose range contains `j`, found by walking the contiguous ranges. */
  function OwnerOf(size: nat, ntask: int, j: nat, i: nat): (owner: nat)
    requires ntask >= 1 && j < size && i < ntask
    requires TaskRange(size, ntask, i).begin <= j
    ensures i <= owner < ntask && TaskRange(size, ntask, owner).Contains(j)
    decreases ntask - i
  {
    if j < TaskRange(size, ntask, i).end then i
    else
      RangesContiguous(size, ntask, i);
      OwnerOf(size, ntask, j, i + 1)
  }

  /**
   More tasks than records: `len` is 0, so every task but the last gets an
   empty range and the last task processes the whole dataset.
   */
  lemma DegenerateSplit(size: nat, ntask: int)
    requires ntask > size
    ensures size / ntask == 0
    ensures forall i :: 0 <= i < ntask - 1 ==> TaskRange(size, ntask, i) == WorkRange(0, 0)
    ensures TaskRange(size, ntask, ntask - 1) == WorkRange(0, size)
  {
  }

  /** A single task covers the whole dataset. */
  lemma SingleTaskCoversAll(size: nat)
    ensures TaskRange(size, 1, 0) == WorkRange(0, size)
  {
  }

  /** The index sequences of tasks `0 .. n - 1`, concatenated in task order. */
  function TaskIndices(size: nat, ntask: int, n: nat): seq<nat>
    requires 1 <= ntask && n <= ntask
  {
    if n == 0 then []
    else
      var w := TaskRange(size, ntask, n - 1);
      TaskIndices(size, ntask, n - 1) + Indices(w.begin, w.end)
  }

  /**
   Concatenating the tasks' ranges in task order gives exactly
   `0, 1, ..., size - 1`: every index is processed once, none twice.
   */
  lemma {:induction false} TaskIndicesAreAllIndices(size: nat, ntask: int, n: nat)
    requires 1 <= n <= ntask
    ensures TaskIndices(size, ntask, n) == Indices(0, TaskRange(size, ntask, n - 1).end)
    ensures n == ntask ==> TaskIndices(size, ntask, n) == Indices(0, size)
  {
    var w := TaskRange(size, ntask, n - 1);
    if n == 1 {
      assert TaskIndices(size, ntask, 0) == [];
    } else {
      TaskIndicesAreAllIndices(size, ntask, n - 1);
      RangesContiguous(size, ntask, n - 2);
      IndicesConcat(0, w.begin, w.end);
    }
  }
}
