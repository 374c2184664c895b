/** BFCalculator: a running BigFraction that the four operations replace in place. */
module Calculators {
  import opened Outcomes
  import F = BigFractions

  class BFCalculator {
    /** The last computed value. Its type keeps it normalized at every assignment. */
    var lastValue: F.BigFraction

    /** A fresh calculator holds 0/1. */
    constructor ()
      ensures lastValue == F.Zero
    {
      F.MakeZero(1);
      lastValue := F.Make(0, 1).value;
    }

    method Get() returns (r: F.BigFraction)
      ensures r == lastValue
    {
      r := lastValue;
    }

    method Add(val: F.BigFraction)
      modifies this
      ensures lastValue == F.Add(old(lastValue), val)
    {
      lastValue := F.Add(lastValue, val);
    }

    method Subtract(val: F.BigFraction)
      modifies this
      ensures lastValue == F.Subtract(old(lastValue), val)
    {
      lastValue := F.Subtract(lastValue, val);
    }

    method Multiply(val: F.BigFraction)
      modifies this
      ensures lastValue == F.Multiply(old(lastValue), val)
    {
      lastValue := F.Multiply(lastValue, val);
    }

    /** Fails with division by zero, before any assignment, when val is zero. */
    method Divide(val: F.BigFraction) returns (s: Status)
      modifies this
      ensures s == Fail(DivByZero) <==> val.num == 0
      ensures s.Fail? ==> s == Fail(DivByZero) && lastValue == old(lastValue)
      ensures s.Pass? ==> lastValue == F.Divide(old(lastValue), val).value
    {
      var q := F.Divide(lastValue, val);
      if q.Err? {
        return Fail(q.error);
      }
      lastValue := q.value;
      s := Pass;
    }

    /** Resets the value to 0/1, whatever it was. */
    method Clear()
      modifies this
      ensures lastValue == F.Zero
    {
      F.MakeZero(1);
      lastValue := F.Make(0, 1).value;
    }
  }
}
