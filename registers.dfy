/** BFRegisterSet: 26 BigFraction slots named 'a' to 'z'. */
module Registers {
  import opened Outcomes
  import F = BigFractions

  const RegisterCount := 26

  /** The range check of store and get. */
  predicate IsRegister(c: char) {
    'a' <= c <= 'z'
  }

  /** `register - 'a'`. */
  function Slot(c: char): (i: nat)
    requires IsRegister(c)
    ensures i < RegisterCount
  {
    c as int - 'a' as int
  }

  /** The slots of a fresh register set. */
  function Initial(): (s: seq<F.BigFraction>)
    ensures |s| == RegisterCount
    ensures forall i :: 0 <= i < RegisterCount ==> s[i] == F.Zero
  {
    seq(RegisterCount, _ => F.Zero)
  }

  /** What `get(c)` returns from a register set holding `slots`. */
  function Lookup(slots: seq<F.BigFraction>, c: char): (r: Result<F.BigFraction>)
    requires |slots| == RegisterCount
    ensures r.Err? <==> !IsRegister(c)
    ensures r.Err? ==> r.error == Invalid
    ensures r.Ok? ==> r.value == slots[c as int - 'a' as int]
  {
    if !IsRegister(c) then Err(Invalid) else Ok(slots[Slot(c)])
  }

  /** The slots after `store(c, v)`; a bad register leaves them as they were. */
  function Stored(slots: seq<F.BigFraction>, c: char, v: F.BigFraction): (r: seq<F.BigFraction>)
    requires |slots| == RegisterCount
    ensures |r| == RegisterCount
    ensures IsRegister(c) ==> r[c as int - 'a' as int] == v
    ensures forall i :: 0 <= i < RegisterCount && (!IsRegister(c) || i != Slot(c)) ==> r[i] == slots[i]
  {
    if IsRegister(c) then slots[Slot(c) := v] else slots
  }

  class BFRegisterSet {
    const registers: array<F.BigFraction>

    ghost predicate Valid()
      reads this
    {
      registers.Length == RegisterCount
    }

    function Contents(): seq<F.BigFraction>
      reads this, registers
    {
      registers[..]
    }

    /** Every slot starts at 0/1. */
    constructor ()
      ensures Valid() && fresh(registers)
      ensures Contents() == Initial()
    {
      F.MakeZero(1);
      var zero := F.Make(0, 1).value;
      registers := new F.BigFraction[RegisterCount](_ => zero);
    }

    method Store(register: char, value: F.BigFraction) returns (s: Status)
      requires Valid()
      modifies registers
      ensures s == (if IsRegister(register) then Pass else Fail(Invalid))
      ensures Contents() == Stored(old(Contents()), register, value)
    {
      if register < 'a' || register > 'z' {
        return Fail(Invalid);
      }
      registers[register as int - 'a' as int] := value;
      s := Pass;
    }

    method Get(register: char) returns (r: Result<F.BigFraction>)
      requires Valid()
      ensures r == Lookup(Contents(), register)
    {
      if register < 'a' || register > 'z' {
        return Err(Invalid);
      }
      r := Ok(registers[register as int - 'a' as int]);
    }
  }

  // ---------------------------------------------------------------------
  // Properties of store and get

  /** A fresh register set reads 0/1 in every register. */
  lemma InitialReadsZero(c: char)
    requires IsRegister(c)
    ensures Lookup(Initial(), c) == Ok(F.Zero)
  {
  }

  /** Reading a register right after storing into it gives the stored value. */
  lemma StoreThenGet(slots: seq<F.BigFraction>, c: char, v: F.BigFraction)
    requires |slots| == RegisterCount && IsRegister(c)
    ensures Lookup(Stored(slots, c, v), c) == Ok(v)
  {
  }

  /** Storing into one register leaves every other register as it was. */
  lemma StoreFrame(slots: seq<F.BigFraction>, c: char, v: F.BigFraction, other: char)
    requires |slots| == RegisterCount && other != c
    ensures Lookup(Stored(slots, c, v), other) == Lookup(slots, other)
  {
  }

  /** The last of two stores to a register wins. */
  lemma LastStoreWins(slots: seq<F.BigFraction>, c: char, v: F.BigFraction, w: F.BigFraction)
    requires |slots| == RegisterCount
    ensures Stored(Stored(slots, c, v), c, w) == Stored(slots, c, w)
  {
  }
}
