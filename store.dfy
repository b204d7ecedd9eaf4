/**
 The keyed output store that a job writes into. Its implementation is not
 part of this model; only the interface the tasks use is: lookup-or-create
 by key, which hands out a reference to the key's slot and, for a key seen
 for the first time, creates a slot holding the default value `zero`.
 */
module KeyedStore {
  import opened Accumulate

  class Store<K(==), V> {
    var slots: map<K, Cell<V>>
    /** What default-constructing a V yields. */
    const zero: V

    /** Different keys never share a slot. */
    ghost predicate Valid()
      reads this
    {
      forall k1, k2 :: k1 in slots && k2 in slots && k1 != k2 ==> slots[k1] != slots[k2]
    }

    /** The key/value view of the store. */
    ghost function Contents(): map<K, V>
      reads this, slots.Values
    {
      map k | k in slots :: slots[k].value
    }

    constructor (zero: V)
      ensures Valid() && this.zero == zero
      ensures slots == map[] && Contents() == map[]
    {
      slots := map[];
      this.zero := zero;
    }

    /**
     `operator[]`: the slot of `k`; a key not yet present gets a fresh slot
     holding `zero`. No other key's entry changes.
     */
    method Lookup(k: K) returns (c: Cell<V>)
      requires Valid()
      modifies this
      ensures Valid()
      ensures k in slots && slots[k] == c
      ensures k in old(slots) ==> slots == old(slots)
      ensures k !in old(slots) ==> fresh(c) && slots == old(slots)[k := c]
      ensures c.value == if k in old(Contents()) then old(Contents())[k] else zero
      ensures Contents() == old(Contents())[k := c.value]
    {
      if k in slots {
        c := slots[k];
      } else {
        c := new Cell(zero);
        slots := slots[k := c];
      }
    }
  }
}
