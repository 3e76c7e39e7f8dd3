/**
 * The wrap-around counter the clock is built from: a value in 0..limit-1
 * that rolls over to zero when it is incremented past its limit.
 */
module NumberDisplays {

  class NumberDisplay {
    /** The roll-over limit, fixed when the counter is created. */
    const limit: nat
    /** The current value, always below the limit. */
    var value: nat

    ghost predicate Valid()
      reads this
    {
      0 < limit && value < limit
    }

    /** A new counter with the given limit, starting at zero. */
    constructor (rollOverLimit: nat)
      requires 0 < rollOverLimit
      ensures Valid()
      ensures limit == rollOverLimit && value == 0
    {
      limit := rollOverLimit;
      value := 0;
    }

    /** The current value; it is always below the limit. */
    function GetValue(): (v: nat)
      reads this
      requires Valid()
      ensures v < limit
    {
      value
    }

    /** Advance by one, rolling over to zero when the limit is reached. */
    method Increment()
      requires Valid()
      modifies this
      ensures Valid()
      ensures value == (old(value) + 1) % limit
    {
      value := (value + 1) % limit;
    }

    /** Set the value; only in-range replacements are modelled. */
    method SetValue(replacementValue: int)
      requires Valid()
      requires 0 <= replacementValue < limit
      modifies this
      ensures Valid()
      ensures value == replacementValue
    {
      value := replacementValue;
    }
  }
}
