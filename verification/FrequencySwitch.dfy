/**
  The frequency switch: the clock divider may only change while the memory is blocked and in
  self-refresh (compare section 4.7 of JESD79-3F, input clock frequency change).

  Every write to the DFS register is recorded together with the register as it is afterwards,
  so that the order of the steps can be stated over whole runs.
*/
module FrequencySwitch {
  import opened Common

  /** The fields of the DFS register; each masked write changes one of them. */
  datatype Dfs = Dfs(dllOff: bool, block: bool, selfRefresh: bool, cl: nat, cwl: nat)

  datatype Event =
    | SetDll | SetBlock | EnterSelfRefresh | ProgramDivider(ifId: nat)
    | SetCl | SetCwl(ifId: nat) | ExitSelfRefresh | ReleaseBlock

  /** The mode register codes of the CAS and CAS write latencies. */
  const CL_MASK_TABLE: seq<nat> := [0, 0, 0, 0, 0, 0x2, 0x4, 0x6, 0x8, 0xa, 0xc, 0xe, 0x1, 0x3, 0x5, 0x5]
  const CWL_MASK_TABLE: seq<nat> := [0, 0, 0, 0, 0, 0, 0x1, 0x2, 0x3, 0x4, 0x5, 0x6, 0x7, 0x8, 0x9, 0x9]

  datatype Latency = Latency(cl: nat, cwl: nat)

  type Latencies = l: Latency | l.cl < 16 && l.cwl < 16 witness Latency(0, 0)

  function ClCode(lat: Latencies): (code: nat)
    ensures code < 16
  {
    CL_MASK_TABLE[lat.cl]
  }

  function CwlCode(lat: Latencies): nat {
    CWL_MASK_TABLE[lat.cwl]
  }

  /** The codes in numbers, as the DDR3 mode registers define them. */
  lemma CodesInNumbers(lat: Latencies)
    ensures 5 <= lat.cl <= 11 ==> ClCode(lat) == 2 * (lat.cl - 4)
    ensures 12 <= lat.cl <= 14 ==> ClCode(lat) == 2 * (lat.cl - 12) + 1
    ensures 5 <= lat.cwl <= 14 ==> CwlCode(lat) == lat.cwl - 5
    ensures lat.cl <= 4 ==> ClCode(lat) == 0
    ensures lat.cwl <= 4 ==> CwlCode(lat) == 0
    ensures lat.cl == 15 ==> ClCode(lat) == 5
    ensures lat.cwl == 15 ==> CwlCode(lat) == 9
  {
  }

  /** The written fields of MR0 (bit 2 and bits 4..6) and of MR2 (bits 3..5 and 9..10). */
  datatype Mr0 = Mr0(bit2: nat, bits4to6: nat)
  datatype Mr2 = Mr2(bits3to5: nat, rttWr: nat)

  /** The latency codes that the mode registers hold; MR0 splits off the lowest bit. */
  function Mr0Code(mr0: Mr0): nat { mr0.bit2 + 2 * mr0.bits4to6 }
  function Mr2Code(mr2: Mr2): nat { mr2.bits3to5 }

  function Mr0Of(code: nat): Mr0 { Mr0(code % 2, (code / 2) % 8) }

  lemma SmallRemainder(x: nat)
    requires x < 8
    ensures x % 8 == x
  {
  }

  lemma Mr0ReadsBack(code: nat)
    requires code < 16
    ensures Mr0Code(Mr0Of(code)) == code && Mr0Of(code).bit2 <= 1
  {
    var half := code / 2;
    assert half < 8 && code == 2 * half + code % 2;
    SmallRemainder(half);
  }

  // ----- Safety of a run -----

  datatype Step = Step(event: Event, dfs: Dfs)

  /** The divider changes only while blocked and in self-refresh; the block ends only after self-refresh. */
  predicate IsSafeStep(step: Step) {
    match step.event
    case ProgramDivider(_) => step.dfs.block && step.dfs.selfRefresh
    case ExitSelfRefresh => step.dfs.block
    case ReleaseBlock => !step.dfs.selfRefresh
    case _ => true
  }

  ghost predicate IsSafe(run: seq<Step>) {
    forall i :: 0 <= i < |run| ==> IsSafeStep(run[i])
  }

  /** What safety means for a step of a run. */
  lemma SafetyMeans(run: seq<Step>, i: nat)
    requires IsSafe(run) && i < |run|
    ensures run[i].event.ProgramDivider? ==> run[i].dfs.block && run[i].dfs.selfRefresh
    ensures run[i].event.ExitSelfRefresh? ==> run[i].dfs.block
    ensures run[i].event.ReleaseBlock? ==> !run[i].dfs.selfRefresh
  {
  }

  /** The interfaces whose divider a run programs, in order. */
  ghost function Dividers(run: seq<Step>): seq<nat> {
    if run == [] then []
    else
      var last := run[|run| - 1].event;
      Dividers(run[..|run| - 1]) + if last.ProgramDivider? then [last.ifId] else []
  }

  /** The interfaces whose latencies a run sets, in order, with the codes that the DFS register then holds. */
  ghost function Latched(run: seq<Step>): seq<(nat, nat, nat)> {
    if run == [] then []
    else
      var last := run[|run| - 1];
      Latched(run[..|run| - 1]) + if last.event.SetCwl? then [(last.event.ifId, last.dfs.cl, last.dfs.cwl)] else []
  }

  lemma AppendStep(run: seq<Step>, step: Step)
    ensures Dividers(run + [step]) == Dividers(run) + if step.event.ProgramDivider? then [step.event.ifId] else []
    ensures Latched(run + [step]) ==
              Latched(run) + if step.event.SetCwl? then [(step.event.ifId, step.dfs.cl, step.dfs.cwl)] else []
  {
    assert (run + [step])[..|run|] == run;
  }

  /** The active interfaces below n, in order. */
  ghost function ActiveBelow(active: seq<bool>, n: nat): seq<nat>
    requires n <= |active|
  {
    if n == 0 then [] else ActiveBelow(active, n - 1) + if active[n - 1] then [n - 1] else []
  }

  /** The active interfaces below n, in order, with the codes of their latencies; the CWL field has three bits. */
  ghost function CodesBelow(active: seq<bool>, lats: seq<Option<Latencies>>, n: nat): seq<(nat, nat, nat)>
    requires n <= |active| == |lats| && forall i :: 0 <= i < n && active[i] ==> lats[i].Some?
  {
    if n == 0 then []
    else
      CodesBelow(active, lats, n - 1)
      + if active[n - 1] then [(n - 1, ClCode(lats[n - 1].value), CwlCode(lats[n - 1].value) % 8)] else []
  }

  /** Interface i is the last active one below n. */
  ghost predicate IsLastActive(active: seq<bool>, n: nat, i: nat)
    requires n <= |active|
  {
    i < n && active[i] && forall j :: i < j < n ==> !active[j]
  }

  class Dunit {
    var dfs: Dfs
    var mr0: Mr0
    var mr2: Mr2
    ghost var run: seq<Step>

    constructor (dfs: Dfs, mr0: Mr0, mr2: Mr2)
      ensures this.dfs == dfs && this.mr0 == mr0 && this.mr2 == mr2 && run == []
    {
      this.dfs, this.mr0, this.mr2, run := dfs, mr0, mr2, [];
    }

    method WriteDfs(event: Event, dfs': Dfs)
      requires IsSafe(run) && IsSafeStep(Step(event, dfs'))
      modifies this`dfs, this`run
      ensures dfs == dfs' && run == old(run) + [Step(event, dfs')] && IsSafe(run)
      ensures Dividers(run) == Dividers(old(run)) + if event.ProgramDivider? then [event.ifId] else []
      ensures Latched(run) == Latched(old(run)) + if event.SetCwl? then [(event.ifId, dfs'.cl, dfs'.cwl)] else []
    {
      AppendStep(run, Step(event, dfs'));
      dfs, run := dfs', run + [Step(event, dfs')];
    }

    /** The first half of a switch: block, enter self-refresh, program the divider and the latencies. */
    method EnterSwitch(ifId: nat, dllOff: bool, lat: Latencies)
      requires IsSafe(run)
      modifies this`dfs, this`run
      ensures IsSafe(run) && old(run) <= run && Dividers(run) == Dividers(old(run)) + [ifId]
      ensures Latched(run) == Latched(old(run)) + [(ifId, ClCode(lat), CwlCode(lat) % 8)]
      ensures dfs == Dfs(dllOff, true, true, ClCode(lat), CwlCode(lat) % 8)
    {
      hide IsSafe, Dividers, Latched, ClCode, CwlCode;
      WriteDfs(SetDll, dfs.(dllOff := dllOff));
      WriteDfs(SetBlock, dfs.(block := true));
      WriteDfs(EnterSelfRefresh, dfs.(selfRefresh := true));
      WriteDfs(ProgramDivider(ifId), dfs);
      WriteDfs(SetCl, dfs.(cl := ClCode(lat) % 16));
      WriteDfs(SetCwl(ifId), dfs.(cwl := CwlCode(lat) % 8));
    }

    /** The registers hold the codes of these latencies and the other fields that a switch writes. */
    ghost predicate Holds(dllOff: bool, lat: Latencies, rttWr: nat)
      reads this
    {
      && dfs == Dfs(dllOff, false, false, ClCode(lat), CwlCode(lat) % 8)
      && Mr0Code(mr0) == ClCode(lat) && mr0.bit2 <= 1
      && mr2 == Mr2(CwlCode(lat) % 8, rttWr % 4)
    }

    /** One interface, once its latencies are known; the PHY configuration may not be available. */
    method SwitchInterface(ifId: nat, dllOff: bool, lat: Latencies, phyConfigOk: bool, rttWr: nat)
      returns (status: Status)
      requires IsSafe(run)
      modifies this
      ensures IsSafe(run) && old(run) <= run && Dividers(run) == Dividers(old(run)) + [ifId]
      ensures Latched(run) == Latched(old(run)) + [(ifId, ClCode(lat), CwlCode(lat) % 8)]
      ensures status == MV_OK <==> phyConfigOk
      ensures status == MV_OK ==> Holds(dllOff, lat, rttWr)
      ensures status == MV_FAIL ==> dfs == Dfs(dllOff, true, true, ClCode(lat), CwlCode(lat) % 8)
      ensures status == MV_FAIL ==> mr0 == old(mr0) && mr2 == old(mr2)
    {
      hide IsSafe, Dividers, Latched, ClCode, CwlCode, Mr0Of, Mr0Code;
      EnterSwitch(ifId, dllOff, lat);
      if !phyConfigOk {
        return MV_FAIL;
      }
      WriteDfs(ExitSelfRefresh, dfs.(selfRefresh := false));
      WriteDfs(ReleaseBlock, dfs.(block := false));
      mr0 := Mr0Of(ClCode(lat));
      Mr0ReadsBack(ClCode(lat));
      mr2 := Mr2(CwlCode(lat) % 8, rttWr % 4);
      return MV_OK;
    }

    /**
      The switch of any number of interfaces. Every run is safe. On success the dividers and the
      latencies of exactly the active interfaces were set, in order, the memory runs again, and the
      DFS register and the mode registers hold the codes of the last one's latencies. A missing PHY
      configuration is the only exit that leaves the memory blocked; a latency that is not
      supported is found before anything of its interface is touched.
    */
    method FreqSet(active: seq<bool>, lats: seq<Option<Latencies>>, dllOff: bool, phyConfigOk: bool, rttWr: nat)
      returns (status: Status)
      requires |active| == |lats| && IsSafe(run)
      modifies this
      ensures IsSafe(run) && old(run) <= run
      ensures status == MV_OK <==> forall i :: 0 <= i < |active| && active[i] ==> lats[i].Some? && phyConfigOk
      ensures status == MV_OK ==>
                && Dividers(run) == Dividers(old(run)) + ActiveBelow(active, |active|)
                && Latched(run) == Latched(old(run)) + CodesBelow(active, lats, |active|)
      ensures status == MV_OK ==>
                forall i: nat :: IsLastActive(active, |active|, i) ==> Holds(dllOff, lats[i].value, rttWr)
      ensures status == MV_OK && (forall i :: 0 <= i < |active| ==> !active[i]) ==>
                dfs == old(dfs) && mr0 == old(mr0) && mr2 == old(mr2)
      ensures status == MV_FAIL && phyConfigOk && !old(dfs.block) ==> !dfs.block
    {
      hide IsSafe, Dividers, Latched, Mr0Code, ClCode, CwlCode;
      var ifId := 0;
      while ifId < |active|
        invariant ifId <= |active| && IsSafe(run) && old(run) <= run
        invariant forall i :: 0 <= i < ifId && active[i] ==> lats[i].Some? && phyConfigOk
        invariant Dividers(run) == Dividers(old(run)) + ActiveBelow(active, ifId)
        invariant Latched(run) == Latched(old(run)) + CodesBelow(active, lats, ifId)
        invariant forall i: nat :: IsLastActive(active, ifId, i) ==> Holds(dllOff, lats[i].value, rttWr)
        invariant (forall i :: 0 <= i < ifId ==> !active[i]) ==> dfs == old(dfs) && mr0 == old(mr0) && mr2 == old(mr2)
        invariant !old(dfs.block) ==> !dfs.block
      {
        if active[ifId] {
          if lats[ifId].None? {
            return MV_FAIL;
          }
          var done := SwitchInterface(ifId, dllOff, lats[ifId].value, phyConfigOk, rttWr);
          if done == MV_FAIL {
            return MV_FAIL;
          }
        } else {
          assert forall i: nat :: IsLastActive(active, ifId + 1, i) ==> IsLastActive(active, ifId, i);
        }
        ifId := ifId + 1;
      }
      return MV_OK;
    }
  }
}
