/** `AverageCollector`: a running sum and count of numbers, and their mean. */
module Utils {

  /** The sum of a list of numbers. */
  function Sum(values: seq<real>): real
  {
    if values == [] then 0.0 else Sum(values[..|values| - 1]) + values[|values| - 1]
  }

  class AverageCollector {
    var sum: real
    var count: nat
    /** The values added so far, in order. */
    ghost var values: seq<real>

    ghost predicate Valid()
      reads this
    {
      sum == Sum(values) && count == |values|
    }

    constructor ()
      ensures Valid() && values == []
    {
      sum, count := 0.0, 0;
      values := [];
    }

    /** `add(value)`: one more value; returns the collector itself so that calls chain. */
    method Add(value: real) returns (self: AverageCollector)
      requires Valid()
      modifies this
      ensures Valid() && values == old(values) + [value]
      ensures sum == old(sum) + value && count == old(count) + 1
      ensures self == this
    {
      sum := sum + value;
      count := count + 1;
      values := values + [value];
      assert values[..|values| - 1] == old(values);
      self := this;
    }

    /** `average()`: the mean of the values added; with none added it is 0/0, so some must be. */
    function Average(): (mean: real)
      reads this
      requires Valid() && count > 0
      ensures mean * (|values| as real) == Sum(values)
    {
      sum / (count as real)
    }
  }
}
