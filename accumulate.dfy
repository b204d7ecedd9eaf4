/**
 The accumulator of mapreduce.h: `associative<V>` holds a reference to a
 stored value and folds incoming values into it with the value type's `+=`.
 A C++ reference `V &` is modelled as a `Cell<V>` object, so that the update
 is seen by whoever else holds the same cell (the keyed store).
 */
module Accumulate {

  /** One mutable slot holding a value of type V. */
  class Cell<V> {
    var value: V

    constructor (value: V)
      ensures this.value == value
    {
      this.value := value;
    }
  }

  /**
   `associative<V>`: wraps a referenced slot; `plus` is what the value type's
   `+=` does (a user may overload it, so it is a parameter).
   */
  class Associative<V> {
    const slot: Cell<V>
    const plus: (V, V) -> V

    constructor (slot: Cell<V>, plus: (V, V) -> V)
      ensures this.slot == slot && this.plus == plus
    {
      this.slot := slot;
      this.plus := plus;
    }

    /**
     `operator+=`: the referenced slot becomes `old + other`, nothing else
     changes, and the same accumulator is returned so that calls chain.
     */
    method AddAssign(other: V) returns (self: Associative<V>)
      modifies slot
      ensures slot.value == plus(old(slot.value), other)
      ensures self == this
    {
      slot.value := plus(slot.value, other);
      self := this;
    }

    /** `value()` and `operator V()`: read the referenced slot back. */
    function Value(): V
      reads slot
    {
      slot.value
    }
  }

  /** `reducer<V>` adds nothing to `associative<V>`. */
  type Reducer<V> = Associative<V>
}
