/**
  The multicast PHY read-modify-write, which reuses its data argument as a scratch variable.
*/
module PhyAccess {

  function Taken(value: bv32, mask: bv32): bv32 { value & mask }

  function Join(kept: bv32, taken: bv32): bv32 { kept | taken }

  /** The bits under the mask come from the data, all others from the register. */
  function Merge(reg: bv32, data: bv32, mask: bv32): bv32 {
    Join(Taken(reg, !mask), Taken(data, mask))
  }

  /** Any bits under the mask are the data's in a merged value, and any bits outside it are the register's. */
  lemma MergedBits(reg: bv32, data: bv32, mask: bv32, bits: bv32)
    ensures bits & mask == bits ==> Merge(reg, data, mask) & bits == data & bits
    ensures bits & mask == 0 ==> Merge(reg, data, mask) & bits == reg & bits
  {
  }

  lemma MergeKeepsTaken(reg: bv32, data: bv32, mask: bv32)
    ensures Taken(Merge(reg, data, mask), mask) == Taken(data, mask)
  {
  }

  /** Every active interface is merged with the original data, whatever was merged before it. */
  method BusReadModifyWrite(regs: array<bv32>, active: seq<bool>, dataValue: bv32, regMask: bv32)
    requires |active| == regs.Length
    modifies regs
    ensures forall i :: 0 <= i < regs.Length ==>
              regs[i] == if active[i] then Merge(old(regs[i]), dataValue, regMask) else old(regs[i])
  {
    hide Taken, Join;
    var data := dataValue;
    for ifId := 0 to regs.Length
      invariant Taken(data, regMask) == Taken(dataValue, regMask)
      invariant forall i :: 0 <= i < ifId ==>
                  regs[i] == if active[i] then Merge(old(regs[i]), dataValue, regMask) else old(regs[i])
      invariant forall i :: ifId <= i < regs.Length ==> regs[i] == old(regs[i])
    {
      if active[ifId] {
        MergeKeepsTaken(regs[ifId], data, regMask);
        data := Merge(regs[ifId], data, regMask);
        regs[ifId] := data;
      }
    }
  }
}
