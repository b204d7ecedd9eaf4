/**
 `partitioner<K>`: wraps an intermediate key for the store, which uses it to
 bucket entries (through a hash of the key) and to find them again (through
 key equality).
 */
module Partition {

  datatype Partitioner<K(==)> = Partitioner(key: K) {

    /** `operator==`: two partitioners are equal when their keys are. */
    predicate Equals(other: Partitioner<K>): (r: bool)
      ensures r <==> this == other
    {
      key == other.key
    }

    /**
     `operator size_t`: the key converted to a 64-bit word, then mixed. Both
     the conversion and the mixing macro are outside this model and come in
     as parameters.
     */
    function Slot(toWord: K -> bv64, mix: bv64 -> bv64): bv64 {
      mix(toWord(key))
    }
  }

  /** Equality of partitioners is exactly equality of their keys. */
  lemma EqualsIffSameKey<K>(p: Partitioner<K>, q: Partitioner<K>)
    ensures p.Equals(q) <==> p.key == q.key
    ensures p.Equals(q) <==> p == q
  {
  }

  /** `operator==` is an equivalence relation. */
  lemma EqualsIsEquivalence<K>(p: Partitioner<K>, q: Partitioner<K>, r: Partitioner<K>)
    ensures p.Equals(p)
    ensures p.Equals(q) ==> q.Equals(p)
    ensures p.Equals(q) && q.Equals(r) ==> p.Equals(r)
  {
  }

  /**
   The slot is a function of the key alone, so equal partitioners always
   land in the same slot.
   */
  lemma EqualPartitionersShareSlot<K>(p: Partitioner<K>, q: Partitioner<K>,
                                      toWord: K -> bv64, mix: bv64 -> bv64)
    requires p.Equals(q)
    ensures p.Slot(toWord, mix) == q.Slot(toWord, mix)
  {
  }
}
