/**
 The value-level meaning of a task's work: what the store's key/value view
 becomes when records are mapped to `(key, value)` and each value is folded
 into its key's entry with `+=`, an absent key reading as the default value.
 */
module Aggregate {
  import opened Split

  /** `mapper<R, K, V>`: a record's intermediate key and value. */
  datatype Mapper<!R, K, V> = Mapper(key: R -> K, value: R -> V)

  /**
   What a job's `+=` does (`plus`) and what the store puts in a slot it
   creates (`zero`, the default-constructed value).
   */
  datatype Combiner<!V> = Combiner(plus: (V, V) -> V, zero: V)

  /** Lookup-or-default: the value a key reads as. */
  function Get<K, V>(cb: Combiner<V>, m: map<K, V>, k: K): V {
    if k in m then m[k] else cb.zero
  }

  /** One iteration of `task::run`: `store[key(r)] += value(r)`. */
  function Step<R, K, V>(mp: Mapper<R, K, V>, cb: Combiner<V>, m: map<K, V>, r: R): map<K, V> {
    m[mp.key(r) := cb.plus(Get(cb, m, mp.key(r)), mp.value(r))]
  }

  /** The records `data[b .. e)` folded into `m` one after another, in index order. */
  function FoldRange<R, K, V>(mp: Mapper<R, K, V>, cb: Combiner<V>, data: seq<R>,
                              m: map<K, V>, b: nat, e: nat): map<K, V>
    requires b <= e <= |data|
    decreases e - b
  {
    if e == b then m else Step(mp, cb, FoldRange(mp, cb, data, m, b, e - 1), data[e - 1])
  }

  /** The keys that the records `data[b .. e)` map to. */
  function MappedKeys<R, K, V>(mp: Mapper<R, K, V>, data: seq<R>, b: nat, e: nat): set<K>
    requires b <= e <= |data|
  {
    set j | b <= j < e :: mp.key(data[j])
  }

  /** Folding `[a, b)` and then `[b, c)` is folding `[a, c)`. */
  lemma {:induction false} FoldConcat<R, K, V>(mp: Mapper<R, K, V>, cb: Combiner<V>, data: seq<R>,
                                               m: map<K, V>, a: nat, b: nat, c: nat)
    requires a <= b <= c <= |data|
    ensures FoldRange(mp, cb, data, FoldRange(mp, cb, data, m, a, b), b, c) == FoldRange(mp, cb, data, m, a, c)
    decreases c - b
  {
    if c > b {
      FoldConcat(mp, cb, data, m, a, b, c - 1);
    }
  }

  /**
   A fold over `[b, e)` adds exactly the keys its records map to, and leaves
   every other key's entry as it was.
   */
  lemma {:induction false} FoldFrame<R, K, V>(mp: Mapper<R, K, V>, cb: Combiner<V>, data: seq<R>,
                                              m: map<K, V>, b: nat, e: nat)
    requires b <= e <= |data|
    ensures FoldRange(mp, cb, data, m, b, e).Keys == m.Keys + MappedKeys(mp, data, b, e)
    ensures forall k :: k in m && k !in MappedKeys(mp, data, b, e) ==>
              FoldRange(mp, cb, data, m, b, e)[k] == m[k]
    decreases e - b
  {
    if e > b {
      FoldFrame(mp, cb, data, m, b, e - 1);
      assert MappedKeys(mp, data, b, e) == MappedKeys(mp, data, b, e - 1) + {mp.key(data[e - 1])};
    } else {
      assert MappedKeys(mp, data, b, e) == {};
    }
  }

  /** An empty range leaves the store as it was. */
  lemma EmptyRangeUnchanged<R, K, V>(mp: Mapper<R, K, V>, cb: Combiner<V>, data: seq<R>,
                                     m: map<K, V>, b: nat)
    requires b <= |data|
    ensures FoldRange(mp, cb, data, m, b, b) == m
  {
  }

  // ---- Additive combine: every key holds the sum of its records' values ----

  /** `+=` is integer addition and a new slot starts at 0. */
  ghost predicate Additive(cb: Combiner<int>) {
    cb.zero == 0 && forall x, y :: cb.plus(x, y) == x + y
  }

  /** The sum of `value(data[j])` over the `j` in `[b, e)` with `key(data[j]) == k`. */
  function SumFor<R, K(==)>(mp: Mapper<R, K, int>, data: seq<R>, k: K, b: nat, e: nat): int
    requires b <= e <= |data|
    decreases e - b
  {
    if e == b then 0
    else SumFor(mp, data, k, b, e - 1) + (if mp.key(data[e - 1]) == k then mp.value(data[e - 1]) else 0)
  }

  /** With an additive combine, each key gains exactly the sum of the values mapped to it. */
  lemma {:induction false} AdditiveTotals<R, K>(mp: Mapper<R, K, int>, cb: Combiner<int>, data: seq<R>,
                                                m: map<K, int>, b: nat, e: nat, k: K)
    requires Additive(cb) && b <= e <= |data|
    ensures Get(cb, FoldRange(mp, cb, data, m, b, e), k) == Get(cb, m, k) + SumFor(mp, data, k, b, e)
    decreases e - b
  {
    if e > b {
      AdditiveTotals(mp, cb, data, m, b, e - 1, k);
    }
  }

  /**
   Starting from an empty store with an additive combine: the keys present
   are exactly the keys some record maps to, and each holds the sum of the
   values of the records that map to it.
   */
  lemma AdditiveFromEmpty<R, K>(mp: Mapper<R, K, int>, cb: Combiner<int>, data: seq<R>, k: K)
    requires Additive(cb)
    ensures var r := FoldRange(mp, cb, data, map[], 0, |data|);
            (k in r <==> exists j :: 0 <= j < |data| && mp.key(data[j]) == k) &&
            (k in r ==> r[k] == SumFor(mp, data, k, 0, |data|))
  {
    FoldFrame(mp, cb, data, map[], 0, |data|);
    AdditiveTotals(mp, cb, data, map[], 0, |data|, k);
  }

  // ---- Any processing order gives the same store when += is commutative and associative ----

  ghost predicate CommutativeAssociative<V(!new)>(plus: (V, V) -> V) {
    && (forall x, y :: plus(x, y) == plus(y, x))
    && (forall x, y, z :: plus(plus(x, y), z) == plus(x, plus(y, z)))
  }

  /** Every index the schedule lists is an index of the dataset. */
  predicate InBounds<R>(data: seq<R>, sched: seq<nat>) {
    forall i :: 0 <= i < |sched| ==> sched[i] < |data|
  }

  lemma InBoundsByMembers<R>(data: seq<R>, sched: seq<nat>)
    requires forall j :: j in sched ==> j < |data|
    ensures InBounds(data, sched)
  {
    forall i | 0 <= i < |sched|
      ensures sched[i] < |data|
    {
      assert sched[i] in sched;
    }
  }

  /** The store after the records at the indices `sched` are folded in, in the order `sched` lists them. */
  function Apply<R, K, V>(mp: Mapper<R, K, V>, cb: Combiner<V>, data: seq<R>,
                          m: map<K, V>, sched: seq<nat>): map<K, V>
    requires InBounds(data, sched)
    decreases |sched|
  {
    if sched == [] then m
    else Step(mp, cb, Apply(mp, cb, data, m, sched[..|sched| - 1]), data[sched[|sched| - 1]])
  }

  /** Two steps commute: for different keys with any `+=`, for one key when `+=` is commutative and associative. */
  lemma StepsCommute<R, K, V(!new)>(mp: Mapper<R, K, V>, cb: Combiner<V>, m: map<K, V>, r1: R, r2: R)
    requires mp.key(r1) != mp.key(r2) || CommutativeAssociative(cb.plus)
    ensures Step(mp, cb, Step(mp, cb, m, r1), r2) == Step(mp, cb, Step(mp, cb, m, r2), r1)
  {
  }

  lemma {:induction false} StepCommutesWithApply<R, K, V(!new)>(mp: Mapper<R, K, V>, cb: Combiner<V>, data: seq<R>,
                                                                 m: map<K, V>, r: R, sched: seq<nat>)
    requires CommutativeAssociative(cb.plus) && InBounds(data, sched)
    ensures Step(mp, cb, Apply(mp, cb, data, m, sched), r) == Apply(mp, cb, data, Step(mp, cb, m, r), sched)
    decreases |sched|
  {
    if sched != [] {
      var init, last := sched[..|sched| - 1], data[sched[|sched| - 1]];
      StepCommutesWithApply(mp, cb, data, m, r, init);
      StepsCommute(mp, cb, Apply(mp, cb, data, m, init), last, r);
    }
  }

  lemma {:induction false} ApplyConcat<R, K, V>(mp: Mapper<R, K, V>, cb: Combiner<V>, data: seq<R>,
                                                m: map<K, V>, s: seq<nat>, t: seq<nat>)
    requires InBounds(data, s) && InBounds(data, t)
    ensures InBounds(data, s + t)
    ensures Apply(mp, cb, data, m, s + t) == Apply(mp, cb, data, Apply(mp, cb, data, m, s), t)
    decreases |t|
  {
    if t == [] {
      assert s + t == s;
    } else {
      var t' := t[..|t| - 1];
      ApplyConcat(mp, cb, data, m, s, t');
      assert (s + t)[..|s + t| - 1] == s + t';
      assert (s + t)[|s + t| - 1] == t[|t| - 1];
    }
  }

  lemma MultisetRemove(s': seq<nat>, x: nat, t1: seq<nat>, t2: seq<nat>)
    requires multiset(s' + [x]) == multiset(t1 + [x] + t2)
    ensures multiset(s') == multiset(t1 + t2)
  {
    calc {
      multiset(s');
      multiset(s' + [x]) - multiset{x};
      multiset(t1 + [x] + t2) - multiset{x};
      multiset(t1) + multiset(t2);
      multiset(t1 + t2);
    }
  }

  lemma SplitAt<R>(data: seq<R>, t: seq<nat>, x: nat) returns (t1: seq<nat>, t2: seq<nat>)
    requires x in multiset(t) && InBounds(data, t)
    ensures t == t1 + [x] + t2
    ensures InBounds(data, t1) && InBounds(data, t2) && x < |data|
  {
    var p :| 0 <= p < |t| && t[p] == x;
    t1, t2 := t[..p], t[p + 1..];
    assert t == t1 + [x] + t2;
  }

  /** With a commutative and associative `+=`, one index can be moved to the end of a schedule. */
  lemma {:induction false} MoveToEnd<R, K, V(!new)>(mp: Mapper<R, K, V>, cb: Combiner<V>, data: seq<R>,
                                                     m: map<K, V>, t1: seq<nat>, x: nat, t2: seq<nat>)
    requires CommutativeAssociative(cb.plus) && InBounds(data, t1) && InBounds(data, t2) && x < |data|
    ensures InBounds(data, t1 + [x] + t2) && InBounds(data, t1 + t2)
    ensures Apply(mp, cb, data, m, t1 + [x] + t2) == Step(mp, cb, Apply(mp, cb, data, m, t1 + t2), data[x])
  {
    var m1 := Apply(mp, cb, data, m, t1);
    ApplyConcat(mp, cb, data, m, t1, [x]);
    assert [x][..0] == [];
    assert Apply(mp, cb, data, m, t1 + [x]) == Step(mp, cb, m1, data[x]);
    ApplyConcat(mp, cb, data, m, t1 + [x], t2);
    StepCommutesWithApply(mp, cb, data, m1, data[x], t2);
    ApplyConcat(mp, cb, data, m, t1, t2);
  }

  /**
   With a commutative and associative `+=`, folding the same indices in any
   order (any permutation of the schedule) gives the same store.
   */
  lemma {:induction false} ApplyPermutation<R, K, V(!new)>(mp: Mapper<R, K, V>, cb: Combiner<V>, data: seq<R>,
                                                            m: map<K, V>, s: seq<nat>, t: seq<nat>)
    requires CommutativeAssociative(cb.plus) && InBounds(data, s) && InBounds(data, t)
    requires multiset(s) == multiset(t)
    ensures Apply(mp, cb, data, m, s) == Apply(mp, cb, data, m, t)
    decreases |s|
  {
    if s == [] {
      assert |t| == |multiset(t)| == 0;
    } else {
      var x := s[|s| - 1];
      var s' := s[..|s| - 1];
      assert s == s' + [x];
      var t1, t2 := SplitAt(data, t, x);
      MultisetRemove(s', x, t1, t2);
      MoveToEnd(mp, cb, data, m, t1, x, t2);
      ApplyPermutation(mp, cb, data, m, s', t1 + t2);
    }
  }

  /** Folding the indices `b, ..., e - 1` in increasing order is `FoldRange`. */
  lemma {:induction false} ApplyInOrder<R, K, V>(mp: Mapper<R, K, V>, cb: Combiner<V>, data: seq<R>,
                                                 m: map<K, V>, b: nat, e: nat)
    requires b <= e <= |data|
    ensures InBounds(data, Indices(b, e))
    ensures Apply(mp, cb, data, m, Indices(b, e)) == FoldRange(mp, cb, data, m, b, e)
    decreases e - b
  {
    if e > b {
      ApplyInOrder(mp, cb, data, m, b, e - 1);
      assert Indices(b, e)[..e - b - 1] == Indices(b, e - 1);
    }
  }
}
