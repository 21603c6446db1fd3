/**
  The chip-select mask for mode register commands.

  All active buses' masks are combined by "or" and by "and". If these agree, the chip-selects
  are the same on every bus and only the effective one is addressed; otherwise all are. A bit
  mask is modelled as the set of its bit positions.
*/
module ChipSelectMask {

  const CS_BIT_MASK: set<nat> := {0, 1, 2, 3}

  ghost predicate OnSomeBus(active: seq<bool>, masks: seq<set<nat>>, cs: nat)
    requires |active| == |masks|
  {
    exists i :: 0 <= i < |active| && active[i] && cs in masks[i]
  }

  ghost predicate OnEveryBus(active: seq<bool>, masks: seq<set<nat>>, cs: nat)
    requires |active| == |masks|
  {
    forall i :: 0 <= i < |active| && active[i] ==> cs in masks[i]
  }

  /** All active buses, at least one, have the same mask m of the four chip-selects. */
  ghost predicate IsCommon(active: seq<bool>, masks: seq<set<nat>>, m: set<nat>)
    requires |active| == |masks|
  {
    && m <= {0, 1, 2, 3}
    && (exists i :: 0 <= i < |active| && active[i])
    && forall i :: 0 <= i < |active| && active[i] ==> masks[i] == m
  }

  /** "Or" and "and" agree exactly when the active buses have one common mask. */
  lemma AgreeMeansCommon(active: seq<bool>, masks: seq<set<nat>>, all: set<nat>, same: set<nat>)
    requires |active| == |masks|
    requires forall cs: nat :: cs in all <==> OnSomeBus(active, masks, cs)
    requires forall cs: nat :: cs in same <==> cs in CS_BIT_MASK && OnEveryBus(active, masks, cs)
    ensures all == same <==> IsCommon(active, masks, all)
    ensures forall m :: IsCommon(active, masks, m) ==> m == all
  {
  }

  lemma NextBus(active: seq<bool>, masks: seq<set<nat>>, bus: nat)
    requires bus < |active| == |masks|
    ensures forall cs: nat :: OnSomeBus(active[..bus + 1], masks[..bus + 1], cs) <==>
                                OnSomeBus(active[..bus], masks[..bus], cs) || (active[bus] && cs in masks[bus])
    ensures forall cs: nat :: OnEveryBus(active[..bus + 1], masks[..bus + 1], cs) <==>
                                OnEveryBus(active[..bus], masks[..bus], cs) && (active[bus] ==> cs in masks[bus])
  {
  }

  /**
    The active-low mask. With one common mask only the effective chip-select can be low, and it
    is low exactly when the buses have it; otherwise every chip-select of some bus is low.
  */
  method CalcCsMask(active: seq<bool>, masks: seq<set<nat>>, effectiveCs: nat) returns (csMask: set<nat>)
    requires |active| == |masks|
    ensures csMask <= {0, 1, 2, 3}
    ensures forall m, cs: nat :: IsCommon(active, masks, m) && cs <= 3 ==>
              (cs !in csMask <==> cs == effectiveCs && cs in m)
    ensures (forall m :: !IsCommon(active, masks, m)) ==>
              forall cs: nat :: cs <= 3 ==> (cs !in csMask <==> OnSomeBus(active, masks, cs))
  {
    var allBusCs: set<nat>, sameBusCs := {}, CS_BIT_MASK;
    csMask := CS_BIT_MASK;
    for bus := 0 to |active|
      invariant forall cs: nat :: cs in allBusCs <==> OnSomeBus(active[..bus], masks[..bus], cs)
      invariant forall cs: nat :: cs in sameBusCs <==> cs in CS_BIT_MASK && OnEveryBus(active[..bus], masks[..bus], cs)
      invariant csMask == CS_BIT_MASK - allBusCs
    {
      NextBus(active, masks, bus);
      if active[bus] {
        allBusCs, sameBusCs, csMask := allBusCs + masks[bus], sameBusCs * masks[bus], csMask - masks[bus];
      }
    }
    assert active[..|active|] == active && masks[..|masks|] == masks;
    AgreeMeansCommon(active, masks, allBusCs, sameBusCs);
    if allBusCs == sameBusCs {
      csMask := csMask + (CS_BIT_MASK - {effectiveCs});
    }
  }
}
