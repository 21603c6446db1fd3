/**
  From the search outcomes to the programmed delays.

  All subphys of a chip-select share one read sample delay, so each found delay is
  re-encoded as a phase and an ADLL value relative to the sample of the smallest one.
  Registers hold only the low bits of what is written to their fields.
*/
module ReadLevelingResult {
  import opened Common
  import opened ReadLeveling

  /** C integer division and remainder truncate towards zero. */
  function CDiv(x: int, y: nat): int
    requires y > 0
  {
    if x >= 0 then x / y else -((-x) / y)
  }

  function CMod(x: int, y: nat): int
    requires y > 0
  {
    x - y * CDiv(x, y)
  }

  /** The RL PHY register: ADLL in bits 0..4, phase in bits 6..8. */
  function RlWord(adll: int, phase: int): nat {
    adll % 32 + 64 * (phase % 8)
  }

  /** A chip-select's fields of the two read delay registers, and the RL words written to its subphys. */
  datatype CsRegs = CsRegs(sample: nat, ready: nat, rl: seq<Option<nat>>)

  /** The delay in taps that the stability log computes from a sample field and an RL word. */
  function LoggedDelay(sample: nat, rl: nat): nat {
    rl % 32 + ((rl / 64) % 8) * 32 + sample * 64
  }

  // ----- The encoding used while searching -----

  /** Tap i as it is programmed in the search: sample delay, phase and ADLL. */
  function SearchEncoding(cl: nat, i: nat): (nat, nat, nat) {
    (cl + 2 * (i / TAPS_PER_RD_SAMPLE),
     (i % TAPS_PER_RD_SAMPLE) / MAX_RD_SAMPLES,
     (i % TAPS_PER_RD_SAMPLE) % MAX_RD_SAMPLES)
  }

  /** The log reads back what was written exactly when the written values fit their fields. */
  lemma LogReadsBack(sample: nat, phase: nat, adll: nat)
    requires adll < 32
    ensures LoggedDelay(sample % 32, RlWord(adll, phase)) == 64 * sample + 32 * phase + adll
            <==> phase < 8 && sample < 32
  {
  }

  /** The search programs exactly tap i, and the log reads it back when the sample fits its field. */
  lemma SearchEncodingPreservesDelay(cl: nat, i: nat)
    ensures var (sample, phase, adll) := SearchEncoding(cl, i);
            && 64 * (sample - cl) + 32 * phase + adll == i
            && phase < 4 && adll < 32
            && (LoggedDelay(sample % 32, RlWord(adll, phase)) == i + 64 * cl <==> sample < 32)
  {
    hide LoggedDelay, RlWord;
    var (sample, phase, adll) := SearchEncoding(cl, i);
    LogReadsBack(sample, phase, adll);
  }

  // ----- Post-processing -----

  /** The final delay of a subphy, relative to the shared sample delay, before the fields cut it. */
  lemma ReencodingPreservesDelay(cl: nat, minVal: nat, value: nat)
    ensures var cycles := minVal / TAPS_PER_RD_SAMPLE;
            var x := value - cycles * TAPS_PER_RD_SAMPLE;
            64 * (cl + 2 * cycles - cl) + 32 * CDiv(x, MAX_RD_SAMPLES) + CMod(x, MAX_RD_SAMPLES) == value
  {
  }

  /**
    The log reads a locked subphy's delay back from the registers exactly when its phase
    and the shared sample delay fit their fields.
  */
  lemma LoggedDelayIsExact(cl: nat, minVal: nat, value: nat)
    requires minVal <= value
    ensures var cycles := minVal / TAPS_PER_RD_SAMPLE;
            var x := value - cycles * TAPS_PER_RD_SAMPLE;
            LoggedDelay((cl + 2 * cycles) % 32, RlWord(CMod(x, MAX_RD_SAMPLES), CDiv(x, MAX_RD_SAMPLES)))
              == value + 64 * cl
            <==> x < 256 && cl + 2 * cycles < 32
  {
    hide LoggedDelay, RlWord;
    var cycles := minVal / TAPS_PER_RD_SAMPLE;
    var x := value - cycles * TAPS_PER_RD_SAMPLE;
    assert x >= 0;
    LogReadsBack(cl + 2 * cycles, CDiv(x, MAX_RD_SAMPLES), CMod(x, MAX_RD_SAMPLES));
  }

  /** The RL word of a subphy with the given delay, relative to the shared sample delay. */
  function FinalWord(cycles: nat, value: nat): nat {
    var x := value - cycles * TAPS_PER_RD_SAMPLE;
    RlWord(CMod(x, MAX_RD_SAMPLES), CDiv(x, MAX_RD_SAMPLES))
  }

  lemma RlWordInNumbers(adll: int, phase: int)
    ensures RlWord(adll, phase) == adll % 32 + 64 * (phase % 8)
  {
  }

  /** The RL word in numbers, d taps above the shared sample delay or d taps below it. */
  lemma FinalWordInNumbers(cycles: nat, d: nat)
    ensures FinalWord(cycles, cycles * 128 + d) == d % 32 + 64 * ((d / 32) % 8)
    ensures d <= cycles * 128 ==>
              FinalWord(cycles, cycles * 128 - d) == (-(d % 32)) % 32 + 64 * ((-(d / 32)) % 8)
  {
    hide RlWord;
    RlWordInNumbers(d % 32, d / 32);
    RlWordInNumbers(-(d % 32), -(d / 32));
  }

  /** What post-processing writes for one chip-select; inactive subphys are skipped. */
  ghost predicate Programs(cl: nat, active: seq<bool>, sub: seq<Subphy>, c: Shared, r: CsRegs) {
    var cycles := c.minVal / TAPS_PER_RD_SAMPLE;
    && |r.rl| == |sub| == |active|
    && r.sample == (cl + 2 * cycles) % 32
    && r.ready == (cl + 2 * cycles + RD_FIFO_DLY) % 32
    && forall s :: 0 <= s < |sub| ==>
         r.rl[s] == if active[s] then Some(FinalWord(cycles, sub[s].value)) else None
  }

  /** The two delays of a chip-select in numbers: two samples for each 128 taps of the smallest value, ready 8 later. */
  lemma DelaysInNumbers(cl: nat, active: seq<bool>, sub: seq<Subphy>, c: Shared, r: CsRegs)
    requires Programs(cl, active, sub, c, r)
    ensures r.sample < 32 && r.sample == (cl + 2 * (c.minVal / 128)) % 32 && r.ready == (r.sample + 8) % 32
  {
    hide FinalWord;
  }

  method PostProcess(cl: nat, active: seq<bool>, sub: seq<Subphy>, c: Shared) returns (r: CsRegs)
    requires |sub| == |active|
    ensures Programs(cl, active, sub, c, r)
  {
    hide RlWord, CMod, CDiv;
    var cycles := c.minVal / TAPS_PER_RD_SAMPLE;
    var sample := cl + 2 * cycles;
    var rl := seq(|sub|, _ => None);
    var s := 0;
    while s < |sub|
      invariant s <= |sub| == |rl|
      invariant forall j :: 0 <= j < s ==>
                  rl[j] == if active[j] then Some(FinalWord(cycles, sub[j].value)) else None
      invariant forall j :: s <= j < |sub| ==> rl[j] == None
    {
      if active[s] {
        var x := sub[s].value - cycles * TAPS_PER_RD_SAMPLE;
        var adll := CMod(x, MAX_RD_SAMPLES);
        var phase := CDiv(x, MAX_RD_SAMPLES);
        rl := rl[s := Some(RlWord(adll, phase))];
      }
      s := s + 1;
    }
    r := CsRegs(sample % 32, (sample + RD_FIFO_DLY) % 32, rl);
  }

  ghost function Inactive(active: seq<bool>): set<nat> {
    set s: nat | s < |active| && !active[s]
  }

  ghost function Active(active: seq<bool>): set<nat> {
    set s: nat | s < |active| && active[s]
  }

  /** The initial lock count: the unconnected subphys, counted once per chip-select. */
  method CountInactive(maxCs: nat, active: seq<bool>) returns (count: nat)
    ensures count == maxCs * |Inactive(active)|
  {
    count := 0;
    var cs := 0;
    while cs < maxCs
      invariant cs <= maxCs
      invariant count == cs * |Inactive(active)|
    {
      var s := 0;
      while s < |active|
        invariant s <= |active|
        invariant count == cs * |Inactive(active)| + |Inactive(active[..s])|
      {
        assert Inactive(active[..s + 1]) == Inactive(active[..s]) + if active[s] then {} else {s};
        if !active[s] {
          count := count + 1;
        }
        s := s + 1;
      }
      assert active[..s] == active;
      cs := cs + 1;
    }
  }

  lemma ScaledBelowOne(x: nat, d: int)
    requires 0 <= x * d < x
    ensures d == 0
  {
  }

  lemma ExactQuotient(x: nat, y: nat)
    requires x > 0
    ensures (x * y) / x == y
  {
    var d := y - (x * y) / x;
    assert 0 <= x * d < x;
    ScaledBelowOne(x, d);
  }

  ghost predicate Searched(active: seq<bool>, fifo: FifoOracle, sub: seq<Subphy>, c: Shared) {
    exists taps :: IsOutcome(fifo, |active|, |Inactive(active)|, taps, sub, c)
  }

  ghost predicate ChipSelectDone(active: seq<bool>, cl: nat, fifo: FifoOracle, r: CsRegs) {
    exists sub, c :: Searched(active, fifo, sub, c) && Programs(cl, active, sub, c, r)
  }

  /** Along the searched trace every connected subphy has a window. */
  ghost predicate AllFound(active: seq<bool>, fifo: FifoOracle) {
    exists taps, sub, c ::
      IsOutcome(fifo, |active|, |Inactive(active)|, taps, sub, c) && Active(active) <= Locked(fifo, |active|, taps)
  }

  /** The record of subphy s holds the midpoint of its first window. */
  ghost predicate IsCentred(fifo: FifoOracle, s: nat, taps: seq<nat>, p: Subphy) {
    exists a: nat, b: nat :: IsFirstWindow(fifo, s, taps, a, b) && p.value == (taps[a] + taps[b]) / 2
  }

  /** Every connected subphy is programmed with the midpoint of its first window. */
  ghost predicate AllCentred(active: seq<bool>, cl: nat, fifo: FifoOracle, r: CsRegs) {
    exists taps, sub, c ::
      && IsOutcome(fifo, |active|, |Inactive(active)|, taps, sub, c) && Programs(cl, active, sub, c, r)
      && forall s: nat :: s < |active| && s < |sub| && active[s] ==> IsCentred(fifo, s, taps, sub[s])
  }

  /** A record holds a midpoint exactly when its subphy has a window, otherwise the start of its last run. */
  lemma RecordedValue(fifo: FifoOracle, n: nat, inactive: nat, taps: seq<nat>, sub: seq<Subphy>, c: Shared, s: nat)
    requires IsOutcome(fifo, n, inactive, taps, sub, c) && s < n
    ensures |sub| == n && (IsCentred(fifo, s, taps, sub[s]) <==> HasWindow(fifo, s, taps))
    ensures !HasWindow(fifo, s, taps) ==> sub[s].value == LastStart(fifo, s, taps)
  {
    hide IsStep, IsTrace, StillSearching, Counted, LastStart;
    assert Tracks(fifo, s, taps, sub[s]);
  }

  /** The connected subphys of a chip-select are all programmed with midpoints exactly when all have windows. */
  lemma CentredIffFound(active: seq<bool>, cl: nat, fifo: FifoOracle, r: CsRegs)
    requires ChipSelectDone(active, cl, fifo, r)
    ensures AllCentred(active, cl, fifo, r) <==> AllFound(active, fifo)
  {
    hide IsOutcome, Programs, IsCentred, HasWindow;
    if AllCentred(active, cl, fifo, r) {
      var taps, sub, c :| IsOutcome(fifo, |active|, |Inactive(active)|, taps, sub, c)
        && forall s: nat :: s < |active| && s < |sub| && active[s] ==> IsCentred(fifo, s, taps, sub[s]);
      forall s: nat | s in Active(active)
        ensures s in Locked(fifo, |active|, taps)
      {
        RecordedValue(fifo, |active|, |Inactive(active)|, taps, sub, c, s);
      }
    }
    if AllFound(active, fifo) {
      var taps, sub, c :| IsOutcome(fifo, |active|, |Inactive(active)|, taps, sub, c)
        && Active(active) <= Locked(fifo, |active|, taps);
      var sub', c' :| Searched(active, fifo, sub', c') && Programs(cl, active, sub', c', r);
      var taps' :| IsOutcome(fifo, |active|, |Inactive(active)|, taps', sub', c');
      OutcomeTraceIsUnique(fifo, |active|, |Inactive(active)|, taps, sub, c, taps', sub', c');
      forall s: nat | s < |active| && active[s]
        ensures s < |sub'| && IsCentred(fifo, s, taps', sub'[s])
      {
        RecordedValue(fifo, |active|, |Inactive(active)|, taps', sub', c', s);
        assert s in Active(active);
      }
    }
  }

  datatype TestResult = TEST_SUCCESS | TEST_FAILED

  /**
    Every chip-select is searched, then its registers are programmed from its own outcome. An
    incomplete lock count is only logged: the status is always MV_OK and the training result a
    success. What was programmed is a window midpoint for every connected subphy of every
    chip-select exactly when each of them has a window.
  */
  method RlDqsBurst(active: seq<bool>, cl: nat, fifos: seq<FifoOracle>)
    returns (status: Status, result: TestResult, regs: seq<CsRegs>)
    requires fifos != []
    ensures status == MV_OK && result == TEST_SUCCESS
    ensures |regs| == |fifos|
    ensures forall cs :: 0 <= cs < |fifos| ==> ChipSelectDone(active, cl, fifos[cs], regs[cs])
    ensures (forall cs :: 0 <= cs < |fifos| ==> AllCentred(active, cl, fifos[cs], regs[cs]))
            <==> (forall cs :: 0 <= cs < |fifos| ==> AllFound(active, fifos[cs]))
  {
    hide IsOutcome, Programs, Inactive, AllCentred, AllFound;
    var passLockNum := CountInactive(|fifos|, active);
    var initPassLockNum := passLockNum / |fifos|;
    ExactQuotient(|fifos|, |Inactive(active)|);
    result := TEST_SUCCESS;

    var subs: seq<seq<Subphy>>, shared: seq<Shared> := [], [];
    while |subs| < |fifos|
      invariant |subs| == |shared| <= |fifos|
      invariant forall cs :: 0 <= cs < |subs| ==> |subs[cs]| == |active|
      invariant forall cs :: 0 <= cs < |subs| ==> Searched(active, fifos[cs], subs[cs], shared[cs])
      decreases |fifos| - |subs|
    {
      var sub, c := SearchChipSelect(|active|, initPassLockNum, fifos[|subs|]);
      subs, shared := subs + [sub], shared + [c];
    }

    regs := [];
    while |regs| < |fifos|
      invariant |regs| <= |fifos|
      invariant forall cs :: 0 <= cs < |regs| ==> ChipSelectDone(active, cl, fifos[cs], regs[cs])
      decreases |fifos| - |regs|
    {
      ghost var cs := |regs|;
      var r := PostProcess(cl, active, subs[|regs|], shared[|regs|]);
      assert Searched(active, fifos[cs], subs[cs], shared[cs]);
      regs := regs + [r];
    }
    forall cs | 0 <= cs < |fifos|
      ensures AllCentred(active, cl, fifos[cs], regs[cs]) <==> AllFound(active, fifos[cs])
    {
      CentredIffFound(active, cl, fifos[cs], regs[cs]);
    }
    status := MV_OK;
  }

  // ----- What the whole procedure guarantees -----

  lemma LockedRecord(fifo: FifoOracle, n: nat, inactive: nat, taps: seq<nat>, sub: seq<Subphy>, c: Shared, s: nat)
    requires IsOutcome(fifo, n, inactive, taps, sub, c)
    requires s < n && HasWindow(fifo, s, taps)
    ensures IsTrace(fifo, n, taps)
    ensures |sub| == n && sub[s].state.RL_BEHIND? && Tracks(fifo, s, taps, sub[s])
    ensures c.minVal <= sub[s].value
  {
    hide IsStep, IsTrace, StillSearching;
    SettledCount(fifo, n, inactive, taps, sub, c);
    assert s in Locked(fifo, n, taps);
  }

  lemma ProgrammedWord(cl: nat, active: seq<bool>, sub: seq<Subphy>, c: Shared, r: CsRegs, s: nat)
    requires Programs(cl, active, sub, c, r)
    requires s < |active| && active[s] && c.minVal <= sub[s].value
    ensures var cycles := c.minVal / TAPS_PER_RD_SAMPLE;
            && |r.rl| == |active| && r.rl[s].Some?
            && (LoggedDelay(r.sample, r.rl[s].value) == sub[s].value + 64 * cl
                <==> sub[s].value - cycles * TAPS_PER_RD_SAMPLE < 256 && cl + 2 * cycles < 32)
  {
    hide RlWord, CMod, CDiv, LoggedDelay;
    LoggedDelayIsExact(cl, c.minVal, sub[s].value);
  }

  /**
    For every chip-select and every locked, connected subphy, the log reads back the midpoint
    of the subphy's first window (plus the CAS latency), exactly when the phase and the sample
    delay fit their fields.
  */
  lemma ProgrammedDelayIsWindowMidpoint(active: seq<bool>, cl: nat, fifo: FifoOracle, taps: seq<nat>,
                                        sub: seq<Subphy>, c: Shared, r: CsRegs, s: nat)
    returns (a: nat, b: nat)
    requires IsOutcome(fifo, |active|, |Inactive(active)|, taps, sub, c) && Programs(cl, active, sub, c, r)
    requires s < |active| && active[s] && HasWindow(fifo, s, taps)
    ensures IsFirstWindow(fifo, s, taps, a, b)
    ensures taps[a] + 20 <= taps[b] <= taps[a] + 128
    ensures var middle := (taps[a] + taps[b]) / 2;
            var cycles := c.minVal / TAPS_PER_RD_SAMPLE;
            && r.rl[s].Some?
            && (LoggedDelay(r.sample, r.rl[s].value) == middle + 64 * cl
                <==> middle - cycles * TAPS_PER_RD_SAMPLE < 256 && cl + 2 * cycles < 32)
  {
    hide *;
    LockedRecord(fifo, |active|, |Inactive(active)|, taps, sub, c, s);
    a, b := LockIsWindowMidpoint(fifo, |active|, taps, s, sub[s]);
    ProgrammedWord(cl, active, sub, c, r, s);
  }

  /**
    A connected subphy without a window is programmed all the same: with the start of its last run
    of hits, which was jitter or was cut off by the end of the sweep, or with tap 0.
  */
  lemma UnlockedSubphyIsProgrammedStale(active: seq<bool>, cl: nat, fifo: FifoOracle, taps: seq<nat>,
                                        sub: seq<Subphy>, c: Shared, r: CsRegs, s: nat)
    requires IsOutcome(fifo, |active|, |Inactive(active)|, taps, sub, c) && Programs(cl, active, sub, c, r)
    requires s < |active| && active[s] && !HasWindow(fifo, s, taps)
    ensures |r.rl| == |active|
    ensures r.rl[s] == Some(FinalWord(c.minVal / TAPS_PER_RD_SAMPLE, LastStart(fifo, s, taps)))
  {
    hide IsOutcome, FinalWord, HasWindow, LastStart;
    RecordedValue(fifo, |active|, |Inactive(active)|, taps, sub, c, s);
  }

  lemma NotAllFound(active: seq<bool>, fifo: FifoOracle, v: nat, taps: seq<nat>, sub: seq<Subphy>, c: Shared)
    requires IsOutcome(fifo, |active|, |Inactive(active)|, taps, sub, c)
    requires v < |active| && active[v] && !HasWindow(fifo, v, taps)
    ensures !AllFound(active, fifo)
  {
    hide IsOutcome, HasWindow;
    assert v in Active(active);
    if AllFound(active, fifo) {
      var taps', sub', c' :| IsOutcome(fifo, |active|, |Inactive(active)|, taps', sub', c')
        && Active(active) <= Locked(fifo, |active|, taps');
      OutcomeTraceIsUnique(fifo, |active|, |Inactive(active)|, taps, sub, c, taps', sub', c');
    }
  }

  ghost predicate NeverHits(fifo: FifoOracle, s: nat) {
    forall tap: nat :: !Hit(fifo, s, tap)
  }

  lemma NeverHitsNeverLocks(fifo: FifoOracle, s: nat, taps: seq<nat>)
    requires NeverHits(fifo, s)
    ensures !HasWindow(fifo, s, taps) && LastStart(fifo, s, taps) == 0
  {
  }

  /** No subphy ever reads a known position. */
  function Silent(tap: nat, s: nat): Fifo {
    Fifo(0, 0)
  }

  lemma ZeroWord()
    ensures FinalWord(MAX_RL_VALUE / TAPS_PER_RD_SAMPLE, 0) == 0
  {
  }

  lemma SampleOfNothing(cl: nat, active: seq<bool>, sub: seq<Subphy>, c: Shared, r: CsRegs)
    requires Programs(cl, active, sub, c, r) && c.minVal == MAX_RL_VALUE
    ensures r.sample == cl % 32
  {
    hide FinalWord;
    assert r.sample == (cl + 64) % 32;
  }

  /** Without a lock the smallest value keeps its initial one. */
  lemma NothingLocked(fifo: FifoOracle, n: nat, inactive: nat, taps: seq<nat>, sub: seq<Subphy>, c: Shared)
    requires IsOutcome(fifo, n, inactive, taps, sub, c)
    requires forall s: nat :: !HasWindow(fifo, s, taps)
    ensures c.minVal == MAX_RL_VALUE
  {
    hide IsStep, IsTrace, StillSearching, HasWindow;
    SettledCount(fifo, n, inactive, taps, sub, c);
    assert Locked(fifo, n, taps) == {};
  }

  /**
    On such readings the procedure still returns MV_OK, with every connected subphy of the
    chip-select programmed to tap 0, although none has a window.
  */
  lemma SilentSubphysAreProgrammed(active: seq<bool>, cl: nat, taps: seq<nat>,
                                   sub: seq<Subphy>, c: Shared, r: CsRegs, s: nat)
    requires IsOutcome(Silent, |active|, |Inactive(active)|, taps, sub, c) && Programs(cl, active, sub, c, r)
    requires s < |active| && active[s]
    ensures |r.rl| == |active| && r.sample == cl % 32 && r.rl[s] == Some(0)
    ensures !AllFound(active, Silent) && !AllCentred(active, cl, Silent, r)
  {
    hide IsOutcome, HasWindow, LastStart, FinalWord, AllFound, AllCentred, Programs, Inactive;
    forall j: nat
      ensures !HasWindow(Silent, j, taps) && LastStart(Silent, j, taps) == 0
    {
      NeverHitsNeverLocks(Silent, j, taps);
    }
    UnlockedSubphyIsProgrammedStale(active, cl, Silent, taps, sub, c, r, s);
    NothingLocked(Silent, |active|, |Inactive(active)|, taps, sub, c);
    ZeroWord();
    SampleOfNothing(cl, active, sub, c, r);
    NotAllFound(active, Silent, s, taps, sub, c);
    CentredIffFound(active, cl, Silent, r);
  }

  // ----- Subphys that hit from some tap on -----

  lemma TraceStart(fifo: FifoOracle, n: nat, taps: seq<nat>)
    requires IsTrace(fifo, n, taps) && taps != []
    ensures taps[0] == 0
  {
  }

  /** A trace that gets as far as a tap has a first visit at it or above, less than a step away. */
  lemma FirstTapFrom(fifo: FifoOracle, n: nat, taps: seq<nat>, from: nat) returns (a: nat)
    requires IsTrace(fifo, n, taps) && taps != [] && from <= taps[|taps| - 1]
    ensures a < |taps| && from <= taps[a] < from + 64
    ensures forall k: nat :: k < a ==> taps[k] < from
  {
    hide IsTrace, IsStep;
    a := 0;
    TraceStart(fifo, n, taps);
    while taps[a] < from
      invariant a < |taps| && (taps[a] < from + 64)
      invariant forall k: nat :: k < a ==> taps[k] < from
      decreases |taps| - a
    {
      StepNeverGrows(fifo, n, taps, a + 1);
      a := a + 1;
    }
  }

  /** A subphy that hits exactly from a tap on locks when the trace gets far enough beyond it. */
  lemma HitsFromThereLock(fifo: FifoOracle, n: nat, s: nat, from: nat, taps: seq<nat>)
    requires IsTrace(fifo, n, taps) && taps != [] && from + 128 < taps[|taps| - 1]
    requires forall tap: nat :: Hit(fifo, s, tap) <==> from <= tap
    ensures HasWindow(fifo, s, taps)
  {
    hide IsTrace, Hit;
    var a := FirstTapFrom(fifo, n, taps, from);
    var b := |taps| - 1;
    forall k | a <= k <= b
      ensures Hit(fifo, s, taps[k])
    {
      TraceIncreases(fifo, n, taps, a, k);
    }
    assert IsRun(fifo, s, taps, a, b + 1);
    var b' := WideRunHasWindow(fifo, s, taps, a, b);
  }

  /** A subphy that hits no earlier than at a tap does not lock before it. */
  lemma NoHitsNoWindow(fifo: FifoOracle, n: nat, s: nat, from: nat, taps: seq<nat>)
    requires IsTrace(fifo, n, taps) && taps != [] && taps[|taps| - 1] < from
    requires forall tap: nat :: Hit(fifo, s, tap) ==> from <= tap
    ensures !HasWindow(fifo, s, taps)
  {
    hide IsTrace, Hit;
    forall k | 0 <= k < |taps|
      ensures !Hit(fifo, s, taps[k])
    {
      TraceIncreases(fifo, n, taps, k, |taps| - 1);
    }
  }

  /** A subphy that reads the lock position from tap 2048 on, and no known position before. */
  function LateHits(tap: nat, s: nat): Fifo {
    if tap >= 2048 then Fifo(0x10, 0x3ff7) else Fifo(0, 0)
  }

  lemma LateLock(taps: seq<nat>, sub: seq<Subphy>, c: Shared)
    requires IsOutcome(LateHits, 1, 0, taps, sub, c)
    ensures HasWindow(LateHits, 0, taps) && |sub| == 1 && c.minVal == sub[0].value >= 2048
  {
    hide IsStep, IsTrace, StillSearching, HasWindow, LastStart;
    SettledCount(LateHits, 1, 0, taps, sub, c);
    if c.passLockNum != 1 {
      HitsFromThereLock(LateHits, 1, 0, 2048, taps);
    } else {
      assert Locked(LateHits, 1, taps) != {};
    }
    var a, b := LockIsWindowMidpoint(LateHits, 1, taps, 0, sub[0]);
    assert Hit(LateHits, 0, taps[a]);
  }

  /** Its window is found, but the sample delay does not fit its field, whatever the CAS latency. */
  lemma LateWindowIsNotLogged(cl: nat, taps: seq<nat>, sub: seq<Subphy>, c: Shared, r: CsRegs)
    requires IsOutcome(LateHits, 1, |Inactive([true])|, taps, sub, c) && Programs(cl, [true], sub, c, r)
    ensures HasWindow(LateHits, 0, taps) && |sub| == 1 && r.rl[0].Some?
    ensures LoggedDelay(r.sample, r.rl[0].value) != sub[0].value + 64 * cl
  {
    hide IsStep, StillSearching, HasWindow, LoggedDelay, FinalWord, LastStart;
    assert Inactive([true]) == {};
    assert IsTrace(LateHits, 1, taps);
    SettledCount(LateHits, 1, 0, taps, sub, c);
    LateLock(taps, sub, c);
    ProgrammedWord(cl, [true], sub, c, r, 0);
  }

  // ----- Unconnected subphys -----

  lemma SubsetSize(x: set<nat>, y: set<nat>)
    requires x <= y
    ensures |x| <= |y| && (|x| == |y| <==> x == y)
  {
    assert y == x + (y - x);
  }

  lemma CountedLocks(locked: set<nat>, active: set<nat>, inactive: set<nat>)
    requires active !! inactive && locked <= active + inactive
    ensures |locked| == |active| ==> (active <= locked <==> locked !! inactive)
    ensures locked !! inactive ==> (|locked| == |active| <==> active <= locked)
  {
    if locked !! inactive {
      SubsetSize(locked, active);
    }
    if active <= locked {
      SubsetSize(active, locked);
    }
  }

  ghost function Below(n: nat): (r: set<nat>)
    ensures forall s: nat :: s in r <==> s < n
    ensures |r| == n
  {
    if n == 0 then {} else Below(n - 1) + {n - 1}
  }

  lemma PartitionSize(active: seq<bool>)
    ensures |Active(active)| + |Inactive(active)| == |active|
  {
    assert Active(active) + Inactive(active) == Below(|active|);
  }

  /**
    Unconnected subphys are read like connected ones, so one of them can lock and be counted
    twice. When the lock count reaches the number of subphys, every connected subphy is locked
    exactly when no unconnected one is; and then it does so exactly when all of them are locked.
  */
  lemma FullCountMeansAllLocked(active: seq<bool>, fifo: FifoOracle, taps: seq<nat>, sub: seq<Subphy>, c: Shared)
    requires IsOutcome(fifo, |active|, |Inactive(active)|, taps, sub, c)
    ensures var locked := Locked(fifo, |active|, taps);
            && (c.passLockNum == |active| ==> (Active(active) <= locked <==> locked !! Inactive(active)))
            && (locked !! Inactive(active) ==> (c.passLockNum == |active| <==> Active(active) <= locked))
  {
    hide IsStep, IsTrace, StillSearching, HasWindow;
    SettledCount(fifo, |active|, |Inactive(active)|, taps, sub, c);
    PartitionSize(active);
    CountedLocks(Locked(fifo, |active|, taps), Active(active), Inactive(active));
  }

  /** If unconnected subphys never hit, the count is full exactly when all connected ones are locked. */
  lemma QuietUnconnectedSubphys(active: seq<bool>, fifo: FifoOracle, taps: seq<nat>, sub: seq<Subphy>, c: Shared)
    requires IsOutcome(fifo, |active|, |Inactive(active)|, taps, sub, c)
    requires forall s: nat :: s in Inactive(active) ==> NeverHits(fifo, s)
    ensures c.passLockNum == |active| <==> Active(active) <= Locked(fifo, |active|, taps)
  {
    hide IsOutcome, NeverHits, HasWindow;
    forall s: nat | s in Inactive(active)
      ensures s !in Locked(fifo, |active|, taps)
    {
      NeverHitsNeverLocks(fifo, s, taps);
    }
    FullCountMeansAllLocked(active, fifo, taps, sub, c);
  }

  /**
    Readings for a configuration with an unconnected subphy u and a connected subphy v: u and the
    connected subphys other than v always hit, v hits from tap 1000 on, the others never.
  */
  function EarlyExit(active: seq<bool>, u: nat, v: nat): FifoOracle {
    (tap: nat, s: nat) =>
      if s == u || (s < |active| && active[s] && s != v) || (s == v && tap >= 1000)
      then Fifo(0x10, 0x3ff7) else Fifo(0, 0)
  }

  ghost function Loud(active: seq<bool>, u: nat, v: nat): set<nat> {
    Active(active) - {v} + {u}
  }

  lemma EarlyExitHits(active: seq<bool>, u: nat, v: nat, s: nat)
    requires u < |active| && v < |active| && !active[u] && active[v] && s < |active|
    ensures s in Loud(active, u, v) ==> forall tap: nat :: Hit(EarlyExit(active, u, v), s, tap) <==> 0 <= tap
    ensures s !in Loud(active, u, v) ==> forall tap: nat :: Hit(EarlyExit(active, u, v), s, tap) ==> 1000 <= tap
  {
  }

  lemma LoudLock(active: seq<bool>, u: nat, v: nat, taps: seq<nat>)
    requires u < |active| && v < |active| && !active[u] && active[v]
    requires IsTrace(EarlyExit(active, u, v), |active|, taps) && taps != [] && 128 < taps[|taps| - 1] < 1000
    ensures Locked(EarlyExit(active, u, v), |active|, taps) == Loud(active, u, v)
    ensures |Inactive(active)| + |Loud(active, u, v)| == |active|
  {
    hide IsTrace, HasWindow, EarlyExit, Hit;
    var fifo := EarlyExit(active, u, v);
    forall s: nat | s < |active|
      ensures HasWindow(fifo, s, taps) <==> s in Loud(active, u, v)
    {
      EarlyExitHits(active, u, v, s);
      if s in Loud(active, u, v) {
        HitsFromThereLock(fifo, |active|, s, 0, taps);
      } else {
        NoHitsNoWindow(fifo, |active|, s, 1000, taps);
      }
    }
    PartitionSize(active);
    assert v in Active(active) && |Active(active) - {v}| == |Active(active)| - 1;
  }

  lemma TracePrefix(fifo: FifoOracle, n: nat, taps: seq<nat>, m: nat)
    requires IsTrace(fifo, n, taps) && m <= |taps|
    ensures IsTrace(fifo, n, taps[..m])
  {
    hide IsStep;
    forall k | 0 < k < m
      ensures IsStep(fifo, n, taps[..m][..k], n, taps[..m][k] - taps[..m][k - 1])
    {
      assert taps[..m][..k] == taps[..k];
    }
  }

  lemma SearchedBefore(fifo: FifoOracle, n: nat, inactive: nat, taps: seq<nat>, m: nat)
    requires 0 < m < |taps| && StillSearching(fifo, n, inactive, taps[..|taps| - 1])
    ensures inactive + |Locked(fifo, n, taps[..m])| != n
  {
    hide Locked;
    assert taps[..|taps| - 1][..m] == taps[..m];
  }

  lemma EarlyExitMisses(active: seq<bool>, u: nat, v: nat, taps: seq<nat>)
    requires u < |active| && v < |active| && !active[u] && active[v]
    requires IsTrace(EarlyExit(active, u, v), |active|, taps) && taps != [] && taps[|taps| - 1] < 1000
    ensures !HasWindow(EarlyExit(active, u, v), v, taps)
  {
    hide IsTrace, HasWindow, EarlyExit, Hit;
    EarlyExitHits(active, u, v, v);
    NoHitsNoWindow(EarlyExit(active, u, v), |active|, v, 1000, taps);
  }

  /**
    In every configuration with a connected and an unconnected subphy, the sweep can end before the
    window of the connected one: the count is complete, because the unconnected one counts twice.
  */
  lemma UnconnectedSubphyCountedTwice(active: seq<bool>, u: nat, v: nat, taps: seq<nat>, sub: seq<Subphy>, c: Shared)
    requires u < |active| && v < |active| && !active[u] && active[v]
    requires IsOutcome(EarlyExit(active, u, v), |active|, |Inactive(active)|, taps, sub, c)
    ensures c.passLockNum == |active| && taps[|taps| - 1] < 1000
    ensures |sub| == |active| && !sub[v].state.RL_BEHIND? && !AllFound(active, EarlyExit(active, u, v))
  {
    hide IsStep, IsTrace, StillSearching, HasWindow, Locked, EarlyExit, Hit, AllFound, Loud, LastStart;
    var fifo, n, inactive := EarlyExit(active, u, v), |active|, |Inactive(active)|;
    SettledCount(fifo, n, inactive, taps, sub, c);
    if taps[|taps| - 1] >= 1000 {
      var a := FirstTapFrom(fifo, n, taps, 129);
      TracePrefix(fifo, n, taps, a + 1);
      LoudLock(active, u, v, taps[..a + 1]);
      SearchedBefore(fifo, n, inactive, taps, a + 1);
    }
    EarlyExitMisses(active, u, v, taps);
    BehindIffWindow(fifo, v, taps, sub[v]);
    NotAllFound(active, fifo, v, taps, sub, c);
  }

  /**
    In every run of a configuration a full count means that all connected subphys are locked,
    exactly when it does not have both connected and unconnected subphys.
  */
  lemma FullCountInEveryRun(active: seq<bool>)
    ensures (forall fifo, taps, sub, c ::
               IsOutcome(fifo, |active|, |Inactive(active)|, taps, sub, c) && c.passLockNum == |active| ==>
                 Active(active) <= Locked(fifo, |active|, taps))
            <==> Active(active) == {} || Inactive(active) == {}
  {
    hide IsOutcome, HasWindow;
    if Active(active) == {} || Inactive(active) == {} {
      forall fifo, taps, sub, c
        | IsOutcome(fifo, |active|, |Inactive(active)|, taps, sub, c) && c.passLockNum == |active|
        ensures Active(active) <= Locked(fifo, |active|, taps)
      {
        FullCountMeansAllLocked(active, fifo, taps, sub, c);
      }
    } else {
      var u: nat :| u in Inactive(active);
      var v: nat :| v in Active(active);
      var fifo := EarlyExit(active, u, v);
      var taps, sub, c := OutcomeExists(fifo, |active|, |Inactive(active)|);
      UnconnectedSubphyCountedTwice(active, u, v, taps, sub, c);
    }
  }
}
