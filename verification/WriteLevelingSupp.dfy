/**
  The write-leveling supplement.

  After write leveling a byte may still be off by whole phases. The supplement tries the
  current phase and its neighbours, with the data delay at three offsets, until a compare
  test passes. The tests' outcomes are arbitrary.
*/
module WriteLevelingSupp {
  import opened Common

  /** The WL register: ADLL in bits 0..4, phase in bits 6..8, and all other bits. */
  datatype WlReg = WlReg(adll: nat, phase: nat, rest: nat)

  /** The phase field holds three bits. */
  type Wl = r: WlReg | r.phase < 8 witness WlReg(0, 0, 0)

  /** The shifts in the order in which they are tried. */
  datatype Shift = Stay | Back2 | Up2 | Up4 | Up6

  /** A shift is tried when the shifted phase is in range; phase 1 may also go back, to 0. */
  predicate Tried(wl: Wl, shift: Shift) {
    match shift
    case Stay => true
    case Back2 => wl.phase >= 1
    case Up2 => wl.phase <= 5
    case Up4 => wl.phase <= 3
    case Up6 => wl.phase <= 1
  }

  /** What the register holds while a shift is tested. */
  function Shifted(wl: Wl, shift: Shift): Wl
    requires Tried(wl, shift)
  {
    match shift
    case Stay => wl
    case Back2 => if wl.phase == 1 then wl.(phase := 0, adll := 0) else wl.(phase := wl.phase - 2)
    case Up2 => wl.(phase := wl.phase + 2)
    case Up4 => wl.(phase := wl.phase + 4)
    case Up6 => wl.(phase := wl.phase + 6)
  }

  function Order(shift: Shift): nat {
    match shift case Stay => 0 case Back2 => 1 case Up2 => 2 case Up4 => 3 case Up6 => 4
  }

  function Offset(shift: Shift): int {
    match shift case Stay => 0 case Back2 => -2 case Up2 => 2 case Up4 => 4 case Up6 => 6
  }

  /**
    A tried shift moves the phase by its offset within 0..7 and keeps all other bits; from
    phase 1, going back clears phase and ADLL.
  */
  lemma ShiftMovesPhase(wl: Wl, shift: Shift)
    requires Tried(wl, shift)
    ensures var r := Shifted(wl, shift);
            && r.rest == wl.rest
            && if shift == Back2 && wl.phase == 1 then r.phase == 0 && r.adll == 0
               else r.adll == wl.adll && r.phase == wl.phase + Offset(shift) <= 7
  {
  }

  /**
    The phases that are tried, in numbers: the present one, all higher ones of the same parity, and the
    one two below, or 0 from phase 1. The present one comes first, then the lower one, then the higher
    ones in ascending order.
  */
  lemma TriedPhases(wl: Wl, q: nat)
    ensures (exists shift: Shift :: Tried(wl, shift) && Shifted(wl, shift).phase == q) <==>
              q <= 7 && ((wl.phase <= q && (q - wl.phase) % 2 == 0) || q + 2 == wl.phase || (wl.phase == 1 && q == 0))
    ensures forall a: Shift, b: Shift :: Order(a) < Order(b) <==>
              Offset(b) != 0 && (Offset(a) == 0 || Offset(a) < Offset(b))
  {
    if q <= 7 {
      var d := q - wl.phase;
      if d == 0 {
        assert Tried(wl, Stay);
      } else if d == -2 || (wl.phase == 1 && q == 0) {
        assert Tried(wl, Back2) && Shifted(wl, Back2).phase == q;
      } else if d == 2 {
        assert Tried(wl, Up2) && Shifted(wl, Up2).phase == q;
      } else if d == 4 {
        assert Tried(wl, Up4) && Shifted(wl, Up4).phase == q;
      } else if d == 6 {
        assert Tried(wl, Up6) && Shifted(wl, Up6).phase == q;
      }
    }
  }

  /** The first shift that is tried and passes. */
  ghost predicate IsFirst(wl: Wl, test: Shift -> bool, shift: Shift) {
    && Tried(wl, shift) && test(shift)
    && forall other: Shift :: Order(other) < Order(shift) ==> !(Tried(wl, other) && test(other))
  }

  ghost predicate NonePasses(wl: Wl, test: Shift -> bool) {
    forall shift: Shift :: !(Tried(wl, shift) && test(shift))
  }

  /** The supplementary result of a bus. */
  datatype SuppResult = SuppResult(isPupFail: bool, stage: int)

  ghost predicate KeepsFirst(wl0: Wl, test: Shift -> bool, wl: Wl, res: SuppResult) {
    exists shift :: IsFirst(wl0, test, shift) && wl == Shifted(wl0, shift) && res == SuppResult(false, Offset(shift))
  }

  lemma FirstIs(wl: Wl, test: Shift -> bool, shift: Shift)
    requires Tried(wl, shift) && test(shift)
    requires 0 < Order(shift) ==> !(Tried(wl, Stay) && test(Stay))
    requires 1 < Order(shift) ==> !(Tried(wl, Back2) && test(Back2))
    requires 2 < Order(shift) ==> !(Tried(wl, Up2) && test(Up2))
    requires 3 < Order(shift) ==> !(Tried(wl, Up4) && test(Up4))
    ensures KeepsFirst(wl, test, Shifted(wl, shift), SuppResult(false, Offset(shift)))
  {
  }

  lemma NoneIs(wl: Wl, test: Shift -> bool)
    requires !(Tried(wl, Stay) && test(Stay)) && !(Tried(wl, Back2) && test(Back2))
    requires !(Tried(wl, Up2) && test(Up2)) && !(Tried(wl, Up4) && test(Up4)) && !(Tried(wl, Up6) && test(Up6))
    ensures NonePasses(wl, test)
  {
  }

  /** The phase search either keeps the first shift that passes, or leaves the register as it was. */
  method AlignPhaseShift(test: Shift -> bool, wl0: Wl, res0: SuppResult)
    returns (status: Status, wl: Wl, res: SuppResult)
    ensures status == MV_OK ==> KeepsFirst(wl0, test, wl, res)
    ensures status == MV_FAIL ==> NonePasses(wl0, test) && wl == wl0 && res == SuppResult(true, 0)
  {
    hide KeepsFirst, NonePasses;
    wl, res := wl0, res0.(stage := 0);
    if test(Stay) {
      FirstIs(wl0, test, Stay);
      return MV_OK, wl, SuppResult(false, 0);
    }
    var data := wl;
    var originalPhase := data.phase;
    if originalPhase >= 1 {
      wl := if originalPhase == 1 then data.(phase := 0, adll := 0) else data.(phase := originalPhase - 2);
      if test(Back2) {
        FirstIs(wl0, test, Back2);
        return MV_OK, wl, SuppResult(false, -2);
      }
    }
    if originalPhase <= 5 {
      wl := data.(phase := originalPhase + 2);
      if test(Up2) {
        FirstIs(wl0, test, Up2);
        return MV_OK, wl, SuppResult(false, 2);
      }
    }
    if originalPhase <= 3 {
      wl := data.(phase := originalPhase + 4);
      if test(Up4) {
        FirstIs(wl0, test, Up4);
        return MV_OK, wl, SuppResult(false, 4);
      }
    }
    if originalPhase <= 1 {
      wl := data.(phase := originalPhase + 6);
      if test(Up6) {
        FirstIs(wl0, test, Up6);
        return MV_OK, wl, SuppResult(false, 6);
      }
    }
    NoneIs(wl0, test);
    wl, res := data, res.(isPupFail := true);
    return MV_FAIL, wl, res;
  }

  /** The outcomes of the compare tests for the three offsets of the data delay. */
  type Outcomes = t: seq<Shift -> bool> | |t| == 3 witness [_ => false, _ => false, _ => false]

  /** The data delay of the three attempts (32-bit arithmetic). */
  function Delay(data: nat, attempt: nat): nat {
    match attempt case 0 => data case 1 => (data + 5) % 0x1_0000_0000 case _ => (data - 5) % 0x1_0000_0000
  }

  /** The registers of a bus: write leveling, data delay, and the supplementary result. */
  datatype Bus = Bus(wl: Wl, ctx: nat, res: SuppResult)

  ghost predicate Succeeds(tests: Outcomes, bus0: Bus, bus: Bus, attempt: nat, shift: Shift) {
    && attempt < 3
    && IsFirst(bus0.wl, tests[attempt], shift)
    && (forall earlier :: 0 <= earlier < attempt ==> NonePasses(bus0.wl, tests[earlier]))
    && bus == Bus(Shifted(bus0.wl, shift), Delay(bus0.ctx, attempt), SuppResult(false, Offset(shift)))
  }

  /** A bus that fails all three attempts keeps its write leveling, but its delay stays at the last offset. */
  ghost predicate FailsAll(tests: Outcomes, bus0: Bus, bus: Bus) {
    && (forall attempt :: 0 <= attempt < 3 ==> NonePasses(bus0.wl, tests[attempt]))
    && bus.wl == bus0.wl && bus.ctx == Delay(bus0.ctx, 2) && bus.res == SuppResult(true, 0)
  }

  /** The data delay in numbers: unchanged, 5 taps later, and 5 taps earlier, in 32 bits. */
  lemma DelaysInNumbers(tests: Outcomes, bus0: Bus, bus: Bus)
    requires 5 <= bus0.ctx < 0xffff_fffb
    ensures FailsAll(tests, bus0, bus) ==> bus.ctx == bus0.ctx - 5
    ensures forall shift :: Succeeds(tests, bus0, bus, 0, shift) ==> bus.ctx == bus0.ctx
    ensures forall shift :: Succeeds(tests, bus0, bus, 1, shift) ==> bus.ctx == bus0.ctx + 5
    ensures forall shift :: Succeeds(tests, bus0, bus, 2, shift) ==> bus.ctx == bus0.ctx - 5
  {
    hide NonePasses, IsFirst, Shifted;
  }

  lemma AttemptSucceeds(tests: Outcomes, bus0: Bus, bus: Bus, attempt: nat)
    requires attempt < 3 && KeepsFirst(bus0.wl, tests[attempt], bus.wl, bus.res) && bus.ctx == Delay(bus0.ctx, attempt)
    requires forall earlier :: 0 <= earlier < attempt ==> NonePasses(bus0.wl, tests[earlier])
    ensures exists shift :: Succeeds(tests, bus0, bus, attempt, shift)
  {
    hide NonePasses, Shifted, Delay;
    var shift :| IsFirst(bus0.wl, tests[attempt], shift) && bus.wl == Shifted(bus0.wl, shift)
                 && bus.res == SuppResult(false, Offset(shift));
    assert Succeeds(tests, bus0, bus, attempt, shift);
  }

  /** One bus: the data delay as it is, then 5 taps later, then 5 taps earlier. */
  method SuppBus(tests: Outcomes, bus0: Bus) returns (failed: bool, bus: Bus)
    ensures !failed ==> exists attempt, shift :: Succeeds(tests, bus0, bus, attempt, shift)
    ensures failed ==> FailsAll(tests, bus0, bus)
  {
    hide KeepsFirst, NonePasses, Succeeds;
    bus := bus0.(res := bus0.res.(isPupFail := true));
    var data: int := bus.ctx;
    var status, wl, res := AlignPhaseShift(tests[0], bus.wl, bus.res);
    bus := bus.(wl := wl, res := res);
    if status == MV_OK {
      AttemptSucceeds(tests, bus0, bus, 0);
      return false, bus;
    }

    bus := bus.(ctx := (data + 5) % 0x1_0000_0000);
    status, wl, res := AlignPhaseShift(tests[1], bus.wl, bus.res);
    bus := bus.(wl := wl, res := res);
    if status == MV_OK {
      AttemptSucceeds(tests, bus0, bus, 1);
      return false, bus;
    }

    bus := bus.(ctx := (data - 5) % 0x1_0000_0000);
    status, wl, res := AlignPhaseShift(tests[2], bus.wl, bus.res);
    bus := bus.(wl := wl, res := res);
    if status == MV_OK {
      AttemptSucceeds(tests, bus0, bus, 2);
      return false, bus;
    }
    failed := true;
  }

  lemma FailureIsMarked(tests: Outcomes, bus0: Bus, bus: Bus)
    requires FailsAll(tests, bus0, bus)
    ensures bus.res.isPupFail
  {
  }

  lemma SuccessIsMarked(tests: Outcomes, bus0: Bus, bus: Bus, attempt: nat, shift: Shift)
    requires Succeeds(tests, bus0, bus, attempt, shift)
    ensures !bus.res.isPupFail && !FailsAll(tests, bus0, bus)
  {
  }

  class Supplement {
    const active: seq<bool>
    const buses: array<Bus>

    constructor (active: seq<bool>, buses: array<Bus>)
      requires |active| == buses.Length
      ensures this.active == active && this.buses == buses
    {
      this.active, this.buses := active, buses;
    }

    /** The interface fails exactly when some active bus fails all three attempts. */
    method Run(tests: seq<Outcomes>) returns (status: Status)
      requires |active| == |tests| == buses.Length
      modifies buses
      ensures forall k :: 0 <= k < buses.Length && active[k] ==>
                || (exists attempt, shift :: Succeeds(tests[k], old(buses[k]), buses[k], attempt, shift))
                || FailsAll(tests[k], old(buses[k]), buses[k])
      ensures status == MV_FAIL <==>
                exists k :: 0 <= k < buses.Length && active[k] && FailsAll(tests[k], old(buses[k]), buses[k])
      ensures forall k :: 0 <= k < buses.Length && !active[k] ==> buses[k] == old(buses[k])
      ensures forall k :: 0 <= k < buses.Length && active[k] ==>
                (buses[k].res.isPupFail <==> FailsAll(tests[k], old(buses[k]), buses[k]))
    {
      hide FailsAll, Succeeds;
      var ifFail := false;
      for k := 0 to buses.Length
        invariant forall j :: 0 <= j < buses.Length && (!active[j] || k <= j) ==> buses[j] == old(buses[j])
        invariant forall j :: 0 <= j < k && active[j] ==>
                    || (exists attempt, shift :: Succeeds(tests[j], old(buses[j]), buses[j], attempt, shift))
                    || FailsAll(tests[j], old(buses[j]), buses[j])
        invariant ifFail <==> exists j :: 0 <= j < k && active[j] && FailsAll(tests[j], old(buses[j]), buses[j])
        invariant forall j :: 0 <= j < k && active[j] ==>
                    (buses[j].res.isPupFail <==> FailsAll(tests[j], old(buses[j]), buses[j]))
      {
        if active[k] {
          ghost var before := buses[k];
          var failed, bus := SuppBus(tests[k], buses[k]);
          buses[k] := bus;
          if failed {
            FailureIsMarked(tests[k], before, bus);
            ifFail := true;
          } else {
            ghost var attempt, shift :| Succeeds(tests[k], before, bus, attempt, shift);
            SuccessIsMarked(tests[k], before, bus, attempt, shift);
          }
        }
      }
      status := if ifFail then MV_FAIL else MV_OK;
    }
  }
}
