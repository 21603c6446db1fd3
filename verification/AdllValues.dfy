/**
  Saving and restoring one PHY register of every active bus through a flat array that is
  indexed by interface and bus.
*/
module AdllValues {
  import opened Common

  /** The flat index of a bus. */
  function Cell(octets: nat, ifId: nat, bus: nat): nat {
    ifId * octets + bus
  }

  /** Distinct buses have distinct cells within the array. */
  lemma CellsAreDistinct(nIf: nat, octets: nat, i: nat, b: nat, i': nat, b': nat)
    requires i < nIf && b < octets && i' < nIf && b' < octets
    ensures Cell(octets, i, b) < nIf * octets
    ensures Cell(octets, i, b) == Cell(octets, i', b') ==> i == i' && b == b'
  {
    Multiples(octets, i, nIf);
    if Cell(octets, i, b) == Cell(octets, i', b') {
      DigitsAreUnique(octets, i, b, i', b');
    }
  }

  /** The array holds the buses of one interface after those of another. */
  lemma CellsAreConsecutive(octets: nat, i: nat, b: nat)
    ensures Cell(octets, 0, 0) == 0
    ensures Cell(octets, i, b + 1) == Cell(octets, i, b) + 1
    ensures Cell(octets, i + 1, 0) == Cell(octets, i, octets)
  {
  }

  ghost predicate Active(ifActive: seq<bool>, busActive: seq<bool>, i: nat, b: nat) {
    i < |ifActive| && b < |busActive| && ifActive[i] && busActive[b]
  }

  method ReadAdllValue(regs: array2<nat>, ifActive: seq<bool>, busActive: seq<bool>, values: array<nat>)
    requires regs.Length0 == |ifActive| && regs.Length1 == |busActive|
    requires values.Length >= |ifActive| * |busActive|
    modifies values
    ensures forall i: nat, b: nat :: Active(ifActive, busActive, i, b) ==>
              Cell(|busActive|, i, b) < values.Length && values[Cell(|busActive|, i, b)] == regs[i, b]
  {
    hide Cell;
    var ifId := 0;
    while ifId < |ifActive|
      invariant ifId <= |ifActive|
      invariant forall i: nat, b: nat :: i < ifId && Active(ifActive, busActive, i, b) ==>
                  Cell(|busActive|, i, b) < values.Length && values[Cell(|busActive|, i, b)] == regs[i, b]
    {
      if ifActive[ifId] {
        var bus := 0;
        while bus < |busActive|
          invariant bus <= |busActive|
          invariant forall i: nat, b: nat ::
                      (i < ifId || (i == ifId && b < bus)) && Active(ifActive, busActive, i, b) ==>
                        Cell(|busActive|, i, b) < values.Length && values[Cell(|busActive|, i, b)] == regs[i, b]
        {
          if busActive[bus] {
            forall i: nat, b: nat | Active(ifActive, busActive, i, b)
              ensures Cell(|busActive|, i, b) < values.Length
              ensures Cell(|busActive|, i, b) == Cell(|busActive|, ifId, bus) ==> i == ifId && b == bus
            {
              CellsAreDistinct(|ifActive|, |busActive|, i, b, ifId, bus);
            }
            values[Cell(|busActive|, ifId, bus)] := regs[ifId, bus];
          }
          bus := bus + 1;
        }
      }
      ifId := ifId + 1;
    }
  }

  method WriteAdllValue(regs: array2<nat>, ifActive: seq<bool>, busActive: seq<bool>, values: array<nat>)
    requires regs.Length0 == |ifActive| && regs.Length1 == |busActive|
    requires values.Length >= |ifActive| * |busActive|
    modifies regs
    ensures forall i: nat, b: nat :: Active(ifActive, busActive, i, b) ==>
              Cell(|busActive|, i, b) < values.Length && regs[i, b] == values[Cell(|busActive|, i, b)]
    ensures forall i: nat, b: nat :: i < regs.Length0 && b < regs.Length1 && !Active(ifActive, busActive, i, b) ==>
              regs[i, b] == old(regs[i, b])
  {
    hide Cell;
    forall i: nat, b: nat | Active(ifActive, busActive, i, b)
      ensures Cell(|busActive|, i, b) < values.Length
    {
      CellsAreDistinct(|ifActive|, |busActive|, i, b, i, b);
    }
    var ifId := 0;
    while ifId < |ifActive|
      invariant ifId <= |ifActive|
      invariant forall i: nat, b: nat :: i < ifId && Active(ifActive, busActive, i, b) ==>
                  regs[i, b] == values[Cell(|busActive|, i, b)]
      invariant forall i: nat, b: nat :: i < regs.Length0 && b < regs.Length1 && !Active(ifActive, busActive, i, b) ==>
                  regs[i, b] == old(regs[i, b])
    {
      if ifActive[ifId] {
        var bus := 0;
        while bus < |busActive|
          invariant bus <= |busActive|
          invariant forall i: nat, b: nat ::
                      (i < ifId || (i == ifId && b < bus)) && Active(ifActive, busActive, i, b) ==>
                        regs[i, b] == values[Cell(|busActive|, i, b)]
          invariant forall i: nat, b: nat ::
                      i < regs.Length0 && b < regs.Length1 && !Active(ifActive, busActive, i, b) ==>
                        regs[i, b] == old(regs[i, b])
        {
          if busActive[bus] {
            assert Active(ifActive, busActive, ifId, bus);
            regs[ifId, bus] := values[Cell(|busActive|, ifId, bus)];
          }
          bus := bus + 1;
        }
      }
      ifId := ifId + 1;
    }
  }
}
