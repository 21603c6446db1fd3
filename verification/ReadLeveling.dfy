/**
  The read-leveling DQS burst search.

  A chip-select's read delay is swept upwards in adaptive steps. At every visited
  tap each subphy reports a read-FIFO position; a run of taps at the lock position
  is the subphy's window, and its midpoint is the delay to program. The FIFO is an
  arbitrary function of tap and subphy: a search visits a tap at most once, so such
  functions cover every sequence of readings.
*/
module ReadLeveling {

  const TAPS_PER_RD_SAMPLE: nat := 128
  const MAX_RD_SAMPLES: nat := 32
  const MAX_RL_VALUE: nat := 4096
  const RD_FIFO_DLY: nat := 8
  const STEP_SIZE: nat := 64
  const RL_JITTER_WIDTH_LMT: nat := 20
  const ADLL_TAPS_IN_CYCLE: nat := 64

  /** The two FIFO pointer status words of one subphy. */
  datatype Fifo = Fifo(low: nat, high: nat)

  type FifoOracle = (nat, nat) -> Fifo

  const FALL_EDGE_POS: seq<nat> := [0x1, 0x2, 0x4, 0x8, 0x10]
  const RISE_EDGE_POS: seq<nat> := [0x1fff, 0x3ffe, 0x3ffd, 0x3ffb, 0x3ff7]

  predicate AtPos(r: Fifo, k: nat)
    requires k < 5
  {
    r.low == FALL_EDGE_POS[k] && r.high == RISE_EDGE_POS[k]
  }

  /** Position 4 is the lock position. */
  predicate Hit(fifo: FifoOracle, s: nat, tap: nat) {
    AtPos(fifo(tap, s), 4)
  }

  datatype RlState = RL_AHEAD | RL_INSIDE | RL_BEHIND

  datatype Subphy = Subphy(state: RlState, value: nat, minValue: nat, maxValue: nat)

  /** The search variables shared by all subphys of a chip-select. */
  datatype Shared = Shared(step: nat, passLockNum: nat, minVal: nat, maxVal: nat)

  // ----- Specification: windows in a trace of visited taps -----

  /** Tap number a of the trace starts a run of hits that lasts at least up to (not including) b. */
  ghost predicate IsRun(fifo: FifoOracle, s: nat, taps: seq<nat>, a: nat, b: nat) {
    && a < b <= |taps|
    && (a == 0 || !Hit(fifo, s, taps[a - 1]))
    && forall k {:trigger taps[k]} :: a <= k < b ==> Hit(fifo, s, taps[k])
  }

  /**
    Tap number b closes the window opened at tap number a: the run of hits from a ends
    at b and is wide enough not to be jitter, or it outgrows one clock cycle at b.
  */
  ghost predicate IsWindow(fifo: FifoOracle, s: nat, taps: seq<nat>, a: nat, b: nat) {
    && b < |taps|
    && IsRun(fifo, s, taps, a, b)
    && if Hit(fifo, s, taps[b])
       then taps[b - 1] <= taps[a] + ADLL_TAPS_IN_CYCLE < taps[b]
       else taps[a] + RL_JITTER_WIDTH_LMT <= taps[b]
  }

  ghost predicate HasWindow(fifo: FifoOracle, s: nat, taps: seq<nat>) {
    exists a: nat, b: nat :: IsWindow(fifo, s, taps, a, b)
  }

  ghost predicate IsFirstWindow(fifo: FifoOracle, s: nat, taps: seq<nat>, a: nat, b: nat) {
    && IsWindow(fifo, s, taps, a, b)
    && forall a': nat, b': nat :: IsWindow(fifo, s, taps, a', b') ==> b <= b'
  }

  /** The subphys that have found a window somewhere in the trace. */
  ghost function Locked(fifo: FifoOracle, n: nat, taps: seq<nat>): set<nat> {
    set s: nat | s < n && HasWindow(fifo, s, taps)
  }

  /** The tap at which the most recent run of hits started, or 0 if there was no hit. */
  ghost function LastStart(fifo: FifoOracle, s: nat, taps: seq<nat>): nat {
    if taps == [] then 0
    else
      var k := |taps| - 1;
      if Hit(fifo, s, taps[k]) && (k == 0 || !Hit(fifo, s, taps[k - 1])) then taps[k]
      else LastStart(fifo, s, taps[..k])
  }

  /** What the per-subphy record must say about the subphy's readings along the trace. */
  ghost predicate Tracks(fifo: FifoOracle, s: nat, taps: seq<nat>, p: Subphy) {
    match p.state
    case RL_AHEAD =>
      && !HasWindow(fifo, s, taps) && p.value == LastStart(fifo, s, taps)
      && (taps == [] || !Hit(fifo, s, taps[|taps| - 1]))
    case RL_INSIDE =>
      && !HasWindow(fifo, s, taps) && p.value == LastStart(fifo, s, taps)
      && exists a: nat ::
           && IsRun(fifo, s, taps, a, |taps|)
           && p.value == p.minValue == taps[a]
           && taps[|taps| - 1] <= taps[a] + ADLL_TAPS_IN_CYCLE
    case RL_BEHIND =>
      exists a: nat, b: nat ::
        && IsFirstWindow(fifo, s, taps, a, b)
        && p.value == (taps[a] + taps[b]) / 2
  }

  // ----- Specification: the adaptive step -----

  /** The coarsest step that a reading outside any run of hits still allows. */
  function StepCap(r: Fifo): nat {
    if AtPos(r, 3) then 2 else if AtPos(r, 2) then 16 else if AtPos(r, 1) then 32 else 64
  }

  /** The step demanded by subphy s after tap number k: 2 at its lock, a cap while it is still outside. */
  ghost function Cap(fifo: FifoOracle, s: nat, taps: seq<nat>, k: nat): nat
    requires k < |taps|
  {
    if HasWindow(fifo, s, taps[..k]) then 64
    else if HasWindow(fifo, s, taps[..k + 1]) then 2
    else if k > 0 && Hit(fifo, s, taps[k - 1]) then 64
    else StepCap(fifo(taps[k], s))
  }

  /** The pairs of tap number and subphy processed before subphy s of the last tap. */
  ghost predicate Seen(n: nat, taps: seq<nat>, s: nat, k: nat, s': nat) {
    k < |taps| && s' < n && (k < |taps| - 1 || s' < s)
  }

  /** The step is the smallest one demanded so far. */
  ghost predicate IsStep(fifo: FifoOracle, n: nat, taps: seq<nat>, s: nat, step: nat) {
    && (forall k: nat, s': nat {:trigger Seen(n, taps, s, k, s')} ::
          Seen(n, taps, s, k, s') ==> step <= Cap(fifo, s', taps, k))
    && step <= STEP_SIZE
    && (step == STEP_SIZE || exists k: nat, s': nat :: Seen(n, taps, s, k, s') && step == Cap(fifo, s', taps, k))
  }

  /** A trace starts at tap 0 and advances by the demanded step. */
  ghost predicate IsTrace(fifo: FifoOracle, n: nat, taps: seq<nat>) {
    && (taps != [] ==> taps[0] == 0)
    && (forall k :: 0 < k < |taps| ==> taps[k - 1] < taps[k])
    && (forall k :: 0 < k < |taps| ==> IsStep(fifo, n, taps[..k], n, taps[k] - taps[k - 1]))
  }

  // ----- Lemmas about windows -----

  lemma RunIsUnique(fifo: FifoOracle, s: nat, taps: seq<nat>, a: nat, a': nat, b: nat)
    requires IsRun(fifo, s, taps, a, b) && IsRun(fifo, s, taps, a', b)
    ensures a == a'
  {
  }

  /** Visiting one more tap keeps the windows closed so far. */
  lemma WindowsKept(fifo: FifoOracle, s: nat, taps: seq<nat>, t: nat)
    ensures forall a: nat, b: nat :: b < |taps| ==>
              (IsWindow(fifo, s, taps, a, b) <==> IsWindow(fifo, s, taps + [t], a, b))
  {
    forall a: nat, b: nat | b < |taps|
      ensures IsWindow(fifo, s, taps, a, b) <==> IsWindow(fifo, s, taps + [t], a, b)
    {
      assert forall k :: 0 <= k < |taps| ==> (taps + [t])[k] == taps[k];
      assert IsRun(fifo, s, taps, a, b) <==> IsRun(fifo, s, taps + [t], a, b);
    }
  }

  lemma FirstWindowKept(fifo: FifoOracle, s: nat, taps: seq<nat>, t: nat, a: nat, b: nat)
    requires IsFirstWindow(fifo, s, taps, a, b)
    ensures IsFirstWindow(fifo, s, taps + [t], a, b)
    ensures HasWindow(fifo, s, taps + [t])
  {
    WindowsKept(fifo, s, taps, t);
    forall a': nat, b': nat | IsWindow(fifo, s, taps + [t], a', b')
      ensures b <= b'
    {
      if b' < |taps| {
        assert IsWindow(fifo, s, taps, a', b');
      }
    }
  }

  /** Without a hit at the last tap, no window can close at the next one. */
  lemma NoWindowAfterMiss(fifo: FifoOracle, s: nat, taps: seq<nat>, t: nat)
    requires !HasWindow(fifo, s, taps)
    requires taps == [] || !Hit(fifo, s, taps[|taps| - 1])
    ensures !HasWindow(fifo, s, taps + [t])
  {
    WindowsKept(fifo, s, taps, t);
    forall a: nat, b: nat
      ensures !IsWindow(fifo, s, taps + [t], a, b)
    {
      assert b < |taps| ==> !IsWindow(fifo, s, taps, a, b);
      assert taps != [] ==> (taps + [t])[|taps| - 1] == taps[|taps| - 1];
    }
  }

  /** Inside a run, the only window that can close at the next tap is the run's own. */
  lemma WindowInsideRun(fifo: FifoOracle, s: nat, taps: seq<nat>, t: nat, a: nat)
    requires !HasWindow(fifo, s, taps)
    requires IsRun(fifo, s, taps, a, |taps|)
    ensures IsRun(fifo, s, taps + [t], a, |taps|)
    ensures HasWindow(fifo, s, taps + [t]) <==> IsWindow(fifo, s, taps + [t], a, |taps|)
    ensures HasWindow(fifo, s, taps + [t]) ==> IsFirstWindow(fifo, s, taps + [t], a, |taps|)
  {
    var taps' := taps + [t];
    assert forall k :: 0 <= k < |taps| ==> taps'[k] == taps[k];
    WindowsKept(fifo, s, taps, t);
    assert forall a': nat, b': nat :: b' < |taps| ==> !IsWindow(fifo, s, taps', a', b');
    forall a': nat, b': nat | IsWindow(fifo, s, taps', a', b')
      ensures a' == a && b' == |taps|
    {
      RunIsUnique(fifo, s, taps', a, a', |taps|);
    }
  }

  /** A locked subphy stays locked, at the same value. */
  lemma BehindKept(fifo: FifoOracle, s: nat, taps: seq<nat>, t: nat, p: Subphy)
    requires p.state.RL_BEHIND? && Tracks(fifo, s, taps, p)
    ensures Tracks(fifo, s, taps + [t], p)
  {
    var a: nat, b: nat :| IsFirstWindow(fifo, s, taps, a, b) && p.value == (taps[a] + taps[b]) / 2;
    FirstWindowKept(fifo, s, taps, t, a, b);
    assert (taps + [t])[a] == taps[a] && (taps + [t])[b] == taps[b];
  }

  // ----- The search -----

  /** The bookkeeping of a new lock. */
  function Lock(value: nat, c: Shared): Shared {
    Shared(2, c.passLockNum + 1,
           if c.minVal > value then value else c.minVal,
           if c.maxVal < value then value else c.maxVal)
  }

  /** One reading of a subphy that is not locked yet. */
  method ReadSubphy(ghost fifo: FifoOracle, ghost s: nat, ghost taps: seq<nat>,
                    i: nat, r: Fifo, p0: Subphy, c0: Shared)
    returns (p: Subphy, c: Shared)
    requires !p0.state.RL_BEHIND? && Tracks(fifo, s, taps, p0)
    requires r == fifo(i, s)
    requires taps == [] || taps[|taps| - 1] < i
    requires c0.step <= 64
    ensures Tracks(fifo, s, taps + [i], p)
    ensures p.state.RL_BEHIND? ==> p.value < i && c == Lock(p.value, c0)
    ensures !p.state.RL_BEHIND? ==>
              c == c0.(step := if p0.state.RL_AHEAD? && StepCap(r) < c0.step then StepCap(r) else c0.step)
  {
    p, c := p0, c0;
    assert (taps + [i])[|taps|] == i && (taps + [i])[..|taps|] == taps;
    match p0.state {
      case RL_AHEAD =>
        NoWindowAfterMiss(fifo, s, taps, i);
        if AtPos(r, 4) {
          p := p.(state := RL_INSIDE, value := i, minValue := i);
          assert IsRun(fifo, s, taps + [i], |taps|, |taps| + 1);
        } else if AtPos(r, 3) {
          c := c.(step := if c.step < 2 then c.step else 2);
        } else if AtPos(r, 2) {
          c := c.(step := if c.step < 16 then c.step else 16);
        } else if AtPos(r, 1) {
          c := c.(step := if c.step < 32 then c.step else 32);
        } else if AtPos(r, 0) {
          c := c.(step := if c.step < 64 then c.step else 64);
        }
      case RL_INSIDE =>
        ghost var a: nat :| IsRun(fifo, s, taps, a, |taps|) && p.value == p.minValue == taps[a];
        WindowInsideRun(fifo, s, taps, i, a);
        if AtPos(r, 4) {
          p := p.(maxValue := i);
          if p.maxValue - p.minValue > ADLL_TAPS_IN_CYCLE {
            p := p.(state := RL_BEHIND, value := (i + p.value) / 2);
            c := Lock(p.value, c);
          } else {
            assert IsRun(fifo, s, taps + [i], a, |taps| + 1);
          }
        }
        if !AtPos(r, 4) {
          if i - p.value < RL_JITTER_WIDTH_LMT {
            p := p.(state := RL_AHEAD);
          } else {
            p := p.(state := RL_BEHIND, value := (i + p.value) / 2);
            c := Lock(p.value, c);
          }
        }
    }
  }

  /** A record that tracks the readings has locked exactly when they contain a window. */
  lemma BehindIffWindow(fifo: FifoOracle, s: nat, taps: seq<nat>, p: Subphy)
    requires Tracks(fifo, s, taps, p)
    ensures p.state.RL_BEHIND? <==> HasWindow(fifo, s, taps)
  {
  }

  /** The state decides which step the subphy demands at the next tap. */
  lemma CapAt(fifo: FifoOracle, s: nat, taps: seq<nat>, t: nat, p0: Subphy, p: Subphy)
    requires Tracks(fifo, s, taps, p0) && Tracks(fifo, s, taps + [t], p)
    ensures Cap(fifo, s, taps + [t], |taps|) ==
              if p0.state.RL_BEHIND? then 64
              else if p.state.RL_BEHIND? then 2
              else if p0.state.RL_AHEAD? then StepCap(fifo(t, s))
              else 64
  {
    var taps' := taps + [t];
    assert taps'[..|taps|] == taps && taps'[..|taps| + 1] == taps';
  }

  /** A new tap demands nothing before its first subphy is read. */
  lemma StepCarriedOver(fifo: FifoOracle, n: nat, taps: seq<nat>, t: nat, step: nat)
    requires IsStep(fifo, n, taps, n, step)
    ensures IsStep(fifo, n, taps + [t], 0, step)
  {
    var taps' := taps + [t];
    assert forall k :: 0 <= k <= |taps| ==> taps'[..k] == taps[..k];
    assert forall k: nat, s': nat :: Seen(n, taps', 0, k, s') <==> Seen(n, taps, n, k, s');
  }

  /** Processing subphy s at the last tap lowers the step to what it demands. */
  lemma StepLowered(fifo: FifoOracle, n: nat, taps: seq<nat>, s: nat, step: nat, step': nat)
    requires taps != [] && s < n
    requires IsStep(fifo, n, taps, s, step)
    requires step' == if Cap(fifo, s, taps, |taps| - 1) < step then Cap(fifo, s, taps, |taps| - 1) else step
    ensures IsStep(fifo, n, taps, s + 1, step')
  {
    forall k: nat, s': nat | Seen(n, taps, s + 1, k, s')
      ensures step' <= Cap(fifo, s', taps, k)
    {
      assert Seen(n, taps, s, k, s') || (k == |taps| - 1 && s' == s);
    }
    assert Seen(n, taps, s + 1, |taps| - 1, s);
    if step' == step != STEP_SIZE {
      var k: nat, s': nat :| Seen(n, taps, s, k, s') && step == Cap(fifo, s', taps, k);
      assert Seen(n, taps, s + 1, k, s');
    }
  }

  ghost function Behind(sub: seq<Subphy>): set<nat> {
    set j: nat | j < |sub| && sub[j].state.RL_BEHIND?
  }

  /** minVal and maxVal are the extremes of the locked subphys, or their initial values. */
  ghost predicate Extremes(sub: seq<Subphy>, c: Shared) {
    && (forall j: nat :: j in Behind(sub) ==> c.minVal <= sub[j].value <= c.maxVal)
    && (if Behind(sub) == {}
        then c.minVal == MAX_RL_VALUE && c.maxVal == 0
        else (exists j: nat :: j in Behind(sub) && sub[j].value == c.minVal)
             && (exists j: nat :: j in Behind(sub) && sub[j].value == c.maxVal))
  }

  /** The counters agree with the records: locks are counted on top of the initial number. */
  ghost predicate Counted(inactive: nat, sub: seq<Subphy>, c: Shared) {
    && c.passLockNum == inactive + |Behind(sub)|
    && Extremes(sub, c)
  }

  lemma CountLock(inactive: nat, sub: seq<Subphy>, s: nat, p: Subphy, c: Shared)
    requires s < |sub| && !sub[s].state.RL_BEHIND? && p.state.RL_BEHIND?
    requires Counted(inactive, sub, c) && p.value < MAX_RL_VALUE
    ensures Counted(inactive, sub[s := p], Lock(p.value, c))
  {
    var sub' := sub[s := p];
    assert Behind(sub') == Behind(sub) + {s};
    assert sub'[s].value == p.value;
    forall j: nat | j in Behind(sub)
      ensures j in Behind(sub') && sub'[j] == sub[j]
    {
    }
  }

  lemma CountKept(inactive: nat, sub: seq<Subphy>, s: nat, p: Subphy, c: Shared, c': Shared)
    requires s < |sub| && !sub[s].state.RL_BEHIND? && !p.state.RL_BEHIND?
    requires Counted(inactive, sub, c) && c' == c.(step := c'.step)
    ensures Counted(inactive, sub[s := p], c')
  {
    assert Behind(sub[s := p]) == Behind(sub);
  }

  /** Between two taps, all records follow the trace and the shared variables agree with them. */
  ghost predicate Settled(fifo: FifoOracle, n: nat, inactive: nat, taps: seq<nat>, sub: seq<Subphy>, c: Shared) {
    && |sub| == n
    && (forall j: nat :: j < n ==> Tracks(fifo, j, taps, sub[j]))
    && Counted(inactive, sub, c)
    && 2 <= c.step <= 64 && IsStep(fifo, n, taps, n, c.step)
  }

  /** One tap for all subphys: the records follow the trace to its new last tap. */
  method ReadTap(n: nat, ghost inactive: nat, fifo: FifoOracle, ghost taps: seq<nat>, i: nat,
                 sub0: seq<Subphy>, c0: Shared)
    returns (sub: seq<Subphy>, c: Shared)
    requires Settled(fifo, n, inactive, taps, sub0, c0)
    requires i < MAX_RL_VALUE && (taps == [] || taps[|taps| - 1] < i)
    ensures Settled(fifo, n, inactive, taps + [i], sub, c)
  {
    hide IsStep, Counted, Tracks;
    sub, c := sub0, c0;
    ghost var taps' := taps + [i];
    StepCarriedOver(fifo, n, taps, i, c.step);
    var s := 0;
    while s < n
      invariant s <= n == |sub|
      invariant forall j: nat :: j < s ==> Tracks(fifo, j, taps', sub[j])
      invariant forall j: nat :: s <= j < n ==> sub[j] == sub0[j]
      invariant Counted(inactive, sub, c)
      invariant 2 <= c.step <= 64 && IsStep(fifo, n, taps', s, c.step)
    {
      ghost var p0, step := sub[s], c.step;
      if !sub[s].state.RL_BEHIND? {
        var p, c' := ReadSubphy(fifo, s, taps, i, fifo(i, s), sub[s], c);
        if p.state.RL_BEHIND? {
          CountLock(inactive, sub, s, p, c);
        } else {
          CountKept(inactive, sub, s, p, c, c');
        }
        sub, c := sub[s := p], c';
      } else {
        BehindKept(fifo, s, taps, i, p0);
      }
      CapAt(fifo, s, taps, i, p0, sub[s]);
      StepLowered(fifo, n, taps', s, step, c.step);
      s := s + 1;
    }
  }

  /** Before the first tap nothing is locked and the step is the coarsest. */
  lemma SettledAtStart(fifo: FifoOracle, n: nat, inactive: nat, sub: seq<Subphy>)
    requires sub == seq(n, _ => Subphy(RL_AHEAD, 0, 0, 0))
    ensures Settled(fifo, n, inactive, [], sub, Shared(STEP_SIZE, inactive, MAX_RL_VALUE, 0))
  {
  }

  /** The lock counter is the initial number plus the number of subphys with a window in the trace. */
  lemma SettledCount(fifo: FifoOracle, n: nat, inactive: nat, taps: seq<nat>, sub: seq<Subphy>, c: Shared)
    requires Settled(fifo, n, inactive, taps, sub, c)
    ensures |sub| == n && Locked(fifo, n, taps) == Behind(sub)
    ensures c.passLockNum == inactive + |Locked(fifo, n, taps)|
    ensures 2 <= c.step <= 64 && IsStep(fifo, n, taps, n, c.step)
  {
  }

  lemma TraceExtends(fifo: FifoOracle, n: nat, taps: seq<nat>, t: nat, step: nat)
    requires IsTrace(fifo, n, taps)
    requires taps == [] ==> t == 0
    requires taps != [] ==> t == taps[|taps| - 1] + step && 0 < step && IsStep(fifo, n, taps, n, step)
    ensures IsTrace(fifo, n, taps + [t])
  {
    hide IsStep, Hit;
    var taps' := taps + [t];
    forall k | 0 < k < |taps'|
      ensures taps'[k - 1] < taps'[k] && IsStep(fifo, n, taps'[..k], n, taps'[k] - taps'[k - 1])
    {
      assert taps'[..k] == taps[..k] && taps[..|taps|] == taps;
    }
  }

  /** The sweep goes on as long as the lock count differs from the number of subphys. */
  ghost predicate StillSearching(fifo: FifoOracle, n: nat, inactive: nat, taps: seq<nat>) {
    forall m :: 0 < m <= |taps| ==> inactive + |Locked(fifo, n, taps[..m])| != n
  }

  lemma SearchContinues(fifo: FifoOracle, n: nat, inactive: nat, taps: seq<nat>, t: nat)
    requires StillSearching(fifo, n, inactive, taps)
    ensures StillSearching(fifo, n, inactive, (taps + [t])[..|taps|])
    ensures inactive + |Locked(fifo, n, taps + [t])| != n ==> StillSearching(fifo, n, inactive, taps + [t])
  {
    hide Locked;
    var taps' := taps + [t];
    assert taps'[..|taps|] == taps && taps'[..|taps'|] == taps';
    assert forall m :: 0 <= m <= |taps| ==> taps'[..m] == taps[..m];
  }

  /**
    The outcome of searching one chip-select over n subphys with an initial lock count.
    Every record describes its subphy's readings along the visited trace, the counters
    describe the records, and the trace stops at the first tap where the lock count is n,
    or at the end of the range.
  */
  ghost predicate IsOutcome(fifo: FifoOracle, n: nat, inactive: nat, taps: seq<nat>, sub: seq<Subphy>, c: Shared) {
    && IsTrace(fifo, n, taps)
    && taps != [] && taps[|taps| - 1] < MAX_RL_VALUE
    && Settled(fifo, n, inactive, taps, sub, c)
    && StillSearching(fifo, n, inactive, taps[..|taps| - 1])
    && (c.passLockNum == n || taps[|taps| - 1] + c.step >= MAX_RL_VALUE)
  }

  method SearchChipSelect(n: nat, inactive: nat, fifo: FifoOracle) returns (sub: seq<Subphy>, c: Shared)
    ensures |sub| == n
    ensures exists taps :: IsOutcome(fifo, n, inactive, taps, sub, c)
  {
    hide Settled, IsStep, Locked;
    sub := seq(n, _ => Subphy(RL_AHEAD, 0, 0, 0));
    c := Shared(STEP_SIZE, inactive, MAX_RL_VALUE, 0);
    ghost var taps: seq<nat> := [];
    SettledAtStart(fifo, n, inactive, sub);
    var i := 0;
    while i < MAX_RL_VALUE
      invariant IsTrace(fifo, n, taps)
      invariant |sub| == n && Settled(fifo, n, inactive, taps, sub, c)
      invariant 2 <= c.step <= 64 && IsStep(fifo, n, taps, n, c.step)
      invariant if taps == [] then i == 0 else i == taps[|taps| - 1] + c.step && taps[|taps| - 1] < MAX_RL_VALUE
      invariant StillSearching(fifo, n, inactive, taps)
      invariant taps != [] ==> StillSearching(fifo, n, inactive, taps[..|taps| - 1])
      decreases MAX_RL_VALUE - i
    {
      TraceExtends(fifo, n, taps, i, c.step);
      SearchContinues(fifo, n, inactive, taps, i);
      sub, c := ReadTap(n, inactive, fifo, taps, i, sub, c);
      taps := taps + [i];
      SettledCount(fifo, n, inactive, taps, sub, c);
      if c.passLockNum == n {
        assert IsOutcome(fifo, n, inactive, taps, sub, c);
        return;
      }
      i := i + c.step;
    }
    assert IsOutcome(fifo, n, inactive, taps, sub, c);
  }

  // ----- What an outcome means -----

  /** A run that outgrows one clock cycle contains a window from its start. */
  lemma WideRunHasWindow(fifo: FifoOracle, s: nat, taps: seq<nat>, a: nat, b: nat) returns (b': nat)
    requires b < |taps| && IsRun(fifo, s, taps, a, b + 1)
    requires taps[a] + ADLL_TAPS_IN_CYCLE < taps[b]
    ensures b' <= b && IsWindow(fifo, s, taps, a, b')
  {
    b' := a + 1;
    while taps[b'] <= taps[a] + ADLL_TAPS_IN_CYCLE
      invariant a < b' <= b
      invariant taps[b' - 1] <= taps[a] + ADLL_TAPS_IN_CYCLE
      decreases b - b'
    {
      b' := b' + 1;
    }
  }

  lemma FirstWindowWidth(fifo: FifoOracle, n: nat, s: nat, taps: seq<nat>, a: nat, b: nat)
    requires IsTrace(fifo, n, taps)
    requires IsFirstWindow(fifo, s, taps, a, b)
    ensures taps[a] + 20 <= taps[b] <= taps[a] + 128
  {
    hide Cap;
    if taps[b - 1] > taps[a] + ADLL_TAPS_IN_CYCLE {
      var b' := WideRunHasWindow(fifo, s, taps, a, b - 1);
    }
    assert IsStep(fifo, n, taps[..b], n, taps[b] - taps[b - 1]);
  }

  /**
    A locked subphy holds the floor midpoint of a real window: all its samples from the
    opening tap up to the closing one are hits, the sample before is a miss, and the
    window is 20 to 128 taps wide, so jitter never locks.
  */
  lemma LockIsWindowMidpoint(fifo: FifoOracle, n: nat, taps: seq<nat>, s: nat, p: Subphy) returns (a: nat, b: nat)
    requires IsTrace(fifo, n, taps)
    requires p.state.RL_BEHIND? && Tracks(fifo, s, taps, p)
    ensures a < b < |taps|
    ensures forall k {:trigger taps[k]} :: a <= k < b ==> Hit(fifo, s, taps[k])
    ensures a == 0 || !Hit(fifo, s, taps[a - 1])
    ensures Hit(fifo, s, taps[b]) ==> taps[b] > taps[a] + 64
    ensures taps[a] + 20 <= taps[b] <= taps[a] + 128
    ensures p.value == (taps[a] + taps[b]) / 2
    ensures IsFirstWindow(fifo, s, taps, a, b)
  {
    hide IsTrace, Hit;
    a, b :| IsFirstWindow(fifo, s, taps, a, b) && p.value == (taps[a] + taps[b]) / 2;
    FirstWindowWidth(fifo, n, s, taps, a, b);
  }

  /** The demanded step is unique. */
  lemma StepIsUnique(fifo: FifoOracle, n: nat, taps: seq<nat>, s: nat, step: nat, step': nat)
    requires IsStep(fifo, n, taps, s, step) && IsStep(fifo, n, taps, s, step')
    ensures step == step'
  {
  }

  lemma CapSizes(fifo: FifoOracle, n: nat, taps: seq<nat>, step: nat)
    requires IsStep(fifo, n, taps, n, step)
    ensures step == 64 || step == 32 || step == 16 || step == 2
  {
  }

  lemma MinOverMore(fifo: FifoOracle, n: nat, taps: seq<nat>, t: nat, step: nat, step': nat)
    requires IsStep(fifo, n, taps, n, step) && IsStep(fifo, n, taps + [t], n, step')
    ensures step' <= step
  {
    hide HasWindow, Hit;
    var taps' := taps + [t];
    assert forall k :: 0 <= k <= |taps| ==> taps'[..k] == taps[..k];
    assert forall k: nat, s: nat :: Seen(n, taps, n, k, s) ==> Seen(n, taps', n, k, s);
  }

  /** The step is one of four sizes and never grows from one tap to the next, which bounds the sweep. */
  lemma StepNeverGrows(fifo: FifoOracle, n: nat, taps: seq<nat>, k: nat)
    requires IsTrace(fifo, n, taps) && 0 < k < |taps|
    ensures taps[k] - taps[k - 1] == 64 || taps[k] - taps[k - 1] == 32
            || taps[k] - taps[k - 1] == 16 || taps[k] - taps[k - 1] == 2
    ensures k + 1 < |taps| ==> taps[k + 1] - taps[k] <= taps[k] - taps[k - 1]
  {
    hide IsStep;
    var step := taps[k] - taps[k - 1];
    CapSizes(fifo, n, taps[..k], step);
    if k + 1 < |taps| {
      assert taps[..k + 1] == taps[..k] + [taps[k]];
      assert IsStep(fifo, n, taps[..k + 1], n, taps[k + 1] - taps[k + 1 - 1]);
      MinOverMore(fifo, n, taps[..k], taps[k], step, taps[k + 1] - taps[k]);
    }
  }

  /** Two traces agree as far as both go: the readings determine where the sweep goes. */
  lemma {:induction false} TracesAgree(fifo: FifoOracle, n: nat, t: seq<nat>, t': seq<nat>, k: nat)
    requires IsTrace(fifo, n, t) && IsTrace(fifo, n, t')
    requires k <= |t| && k <= |t'|
    ensures t[..k] == t'[..k]
  {
    hide IsStep;
    if k > 0 {
      TracesAgree(fifo, n, t, t', k - 1);
      assert t[..k] == t[..k - 1] + [t[k - 1]] && t'[..k] == t'[..k - 1] + [t'[k - 1]];
      if k > 1 {
        assert t[k - 2] == t[..k - 1][k - 2] == t'[..k - 1][k - 2] == t'[k - 2];
        StepIsUnique(fifo, n, t[..k - 1], n, t[k - 1] - t[k - 2], t'[k - 1] - t'[k - 2]);
      }
    }
  }

  lemma {:induction false} TraceIncreases(fifo: FifoOracle, n: nat, taps: seq<nat>, j: nat, k: nat)
    requires IsTrace(fifo, n, taps) && j <= k < |taps|
    ensures taps[j] <= taps[k]
    decreases k
  {
    hide IsStep;
    if j < k {
      TraceIncreases(fifo, n, taps, j, k - 1);
    }
  }

  lemma TraceStep(fifo: FifoOracle, n: nat, taps: seq<nat>, k: nat)
    requires IsTrace(fifo, n, taps) && 0 < k < |taps|
    ensures IsStep(fifo, n, taps[..k], n, taps[k] - taps[k - 1])
  {
  }

  lemma NotLonger(fifo: FifoOracle, n: nat, inactive: nat,
                  taps: seq<nat>, sub: seq<Subphy>, c: Shared,
                  taps': seq<nat>, sub': seq<Subphy>, c': Shared)
    requires IsOutcome(fifo, n, inactive, taps, sub, c)
    requires IsOutcome(fifo, n, inactive, taps', sub', c')
    ensures |taps'| <= |taps|
  {
    hide IsStep, Settled, Locked, IsTrace;
    if |taps| < |taps'| {
      var m := |taps|;
      TracesAgree(fifo, n, taps, taps', m);
      assert taps[..m] == taps && taps'[..|taps'| - 1][..m] == taps'[..m] == taps;
      SettledCount(fifo, n, inactive, taps, sub, c);
      assert c.passLockNum != n;
      TraceStep(fifo, n, taps', m);
      StepIsUnique(fifo, n, taps, n, c.step, taps'[m] - taps'[m - 1]);
      TraceIncreases(fifo, n, taps', m, |taps'| - 1);
    }
  }

  /** The readings determine the whole trace of a search. */
  lemma OutcomeTraceIsUnique(fifo: FifoOracle, n: nat, inactive: nat,
                             taps: seq<nat>, sub: seq<Subphy>, c: Shared,
                             taps': seq<nat>, sub': seq<Subphy>, c': Shared)
    requires IsOutcome(fifo, n, inactive, taps, sub, c)
    requires IsOutcome(fifo, n, inactive, taps', sub', c')
    ensures taps == taps'
  {
    hide IsStep, Settled, Locked, IsTrace;
    if |taps| < |taps'| {
      NotLonger(fifo, n, inactive, taps, sub, c, taps', sub', c');
    } else if |taps'| < |taps| {
      NotLonger(fifo, n, inactive, taps', sub', c', taps, sub, c);
    } else {
      TracesAgree(fifo, n, taps, taps', |taps|);
      assert taps[..|taps|] == taps && taps'[..|taps|] == taps';
    }
  }

  /** A run of hits shorter than 20 taps locks nothing; one of 20 taps or more does, as does one beyond 64 taps. */
  lemma WindowInNumbers(fifo: FifoOracle, s: nat, taps: seq<nat>, a: nat, b: nat)
    requires b < |taps| && IsRun(fifo, s, taps, a, b)
    ensures fifo(taps[b], s) != Fifo(0x10, 0x3ff7) ==> (IsWindow(fifo, s, taps, a, b) <==> taps[a] + 20 <= taps[b])
    ensures fifo(taps[b], s) == Fifo(0x10, 0x3ff7) ==>
              (IsWindow(fifo, s, taps, a, b) <==> taps[b - 1] <= taps[a] + 64 < taps[b])
  {
  }

  /** The sweep ends below tap 4096: with a full count, or because the next tap would not be below. */
  lemma SweepInNumbers(fifo: FifoOracle, n: nat, inactive: nat, taps: seq<nat>, sub: seq<Subphy>, c: Shared)
    requires IsOutcome(fifo, n, inactive, taps, sub, c)
    ensures taps != [] && taps[0] == 0 && taps[|taps| - 1] < 4096
    ensures c.passLockNum == n || 4096 <= taps[|taps| - 1] + c.step <= taps[|taps| - 1] + 64
  {
    hide IsStep, StillSearching;
    SettledCount(fifo, n, inactive, taps, sub, c);
  }

  /** The run of hits at the end of a trace starts at the most recent start. */
  lemma {:induction false} RunAtEnd(fifo: FifoOracle, s: nat, taps: seq<nat>) returns (a: nat)
    requires taps != [] && Hit(fifo, s, taps[|taps| - 1])
    ensures IsRun(fifo, s, taps, a, |taps|) && taps[a] == LastStart(fifo, s, taps)
    decreases |taps|
  {
    hide Hit;
    var k := |taps| - 1;
    if k == 0 || !Hit(fifo, s, taps[k - 1]) {
      a := k;
    } else {
      a := RunAtEnd(fifo, s, taps[..k]);
    }
  }

  /** The most recent start is that of a run of hits after which nothing hits, or 0 if nothing ever hit. */
  lemma {:induction false} LastStartIsStart(fifo: FifoOracle, s: nat, taps: seq<nat>)
    ensures if forall k :: 0 <= k < |taps| ==> !Hit(fifo, s, taps[k]) then LastStart(fifo, s, taps) == 0
            else exists a: nat, b: nat ::
                   && IsRun(fifo, s, taps, a, b) && LastStart(fifo, s, taps) == taps[a]
                   && forall k :: b <= k < |taps| ==> !Hit(fifo, s, taps[k])
    decreases |taps|
  {
    hide Hit;
    if taps != [] {
      var k := |taps| - 1;
      if Hit(fifo, s, taps[k]) {
        var a := RunAtEnd(fifo, s, taps);
        assert IsRun(fifo, s, taps, a, |taps|);
      } else {
        LastStartIsStart(fifo, s, taps[..k]);
        assert forall j :: 0 <= j < k ==> taps[..k][j] == taps[j];
        if exists j :: 0 <= j < k && Hit(fifo, s, taps[j]) {
          var a: nat, b: nat :| IsRun(fifo, s, taps[..k], a, b) && LastStart(fifo, s, taps[..k]) == taps[..k][a]
            && forall j :: b <= j < k ==> !Hit(fifo, s, taps[..k][j]);
          assert IsRun(fifo, s, taps, a, b);
        }
      }
    }
  }

  // ----- The step in terms of the FIFO words -----

  ghost predicate OutsideAt(fifo: FifoOracle, s: nat, taps: seq<nat>, k: nat)
    requires k < |taps|
  {
    k == 0 || !Hit(fifo, s, taps[k - 1])
  }

  /** A subphy that was not inside a run of hits has read these two words at some tap of the trace. */
  ghost predicate ReadOutside(fifo: FifoOracle, n: nat, taps: seq<nat>, low: nat, high: nat) {
    exists k: nat, s: nat :: k < |taps| && s < n && OutsideAt(fifo, s, taps, k) && fifo(taps[k], s) == Fifo(low, high)
  }

  lemma WindowInPrefix(fifo: FifoOracle, s: nat, taps: seq<nat>, m: nat)
    requires m <= |taps| && HasWindow(fifo, s, taps[..m])
    ensures HasWindow(fifo, s, taps)
  {
    hide Hit;
    var a: nat, b: nat :| IsWindow(fifo, s, taps[..m], a, b);
    assert IsRun(fifo, s, taps, a, b);
    assert IsWindow(fifo, s, taps, a, b);
  }

  /** While nothing is locked, a subphy demands a step only by what it reads outside a run. */
  lemma CapBeforeLock(fifo: FifoOracle, n: nat, s: nat, taps: seq<nat>, k: nat)
    requires s < n && k < |taps| && Locked(fifo, n, taps) == {}
    ensures Cap(fifo, s, taps, k) == if OutsideAt(fifo, s, taps, k) then StepCap(fifo(taps[k], s)) else 64
  {
    hide HasWindow;
    if HasWindow(fifo, s, taps[..k]) {
      WindowInPrefix(fifo, s, taps, k);
    }
    if HasWindow(fifo, s, taps[..k + 1]) {
      WindowInPrefix(fifo, s, taps, k + 1);
    }
    assert s !in Locked(fifo, n, taps);
  }

  lemma CapsByWords(r: Fifo)
    ensures StepCap(r) == 2 <==> r == Fifo(0x8, 0x3ffb)
    ensures StepCap(r) == 16 <==> r == Fifo(0x4, 0x3ffd)
    ensures StepCap(r) == 32 <==> r == Fifo(0x2, 0x3ffe)
    ensures StepCap(r) in {2, 16, 32, 64}
  {
  }

  /**
    Before any lock, the nearest position to the lock that was read outside a run decides the step:
    position 3 makes it 2, position 2 makes it 16, position 1 makes it 32, and nothing near leaves 64.
  */
  lemma StepByWords(fifo: FifoOracle, n: nat, taps: seq<nat>, step: nat)
    requires IsStep(fifo, n, taps, n, step) && Locked(fifo, n, taps) == {}
    ensures step == if ReadOutside(fifo, n, taps, 0x8, 0x3ffb) then 2
                    else if ReadOutside(fifo, n, taps, 0x4, 0x3ffd) then 16
                    else if ReadOutside(fifo, n, taps, 0x2, 0x3ffe) then 32
                    else 64
  {
    hide Cap, StepCap, Hit, Locked;
    forall k: nat, s: nat | k < |taps| && s < n
      ensures Seen(n, taps, n, k, s)
      ensures Cap(fifo, s, taps, k) == 2 <==> OutsideAt(fifo, s, taps, k) && fifo(taps[k], s) == Fifo(0x8, 0x3ffb)
      ensures Cap(fifo, s, taps, k) == 16 <==> OutsideAt(fifo, s, taps, k) && fifo(taps[k], s) == Fifo(0x4, 0x3ffd)
      ensures Cap(fifo, s, taps, k) == 32 <==> OutsideAt(fifo, s, taps, k) && fifo(taps[k], s) == Fifo(0x2, 0x3ffe)
      ensures Cap(fifo, s, taps, k) in {2, 16, 32, 64}
    {
      CapBeforeLock(fifo, n, s, taps, k);
      CapsByWords(fifo(taps[k], s));
    }
  }

  lemma StepIsSmallest(fifo: FifoOracle, n: nat, taps: seq<nat>, k: nat, s: nat, step: nat)
    requires IsStep(fifo, n, taps, n, step) && k < |taps| && Seen(n, taps, n, k, s)
    ensures step <= Cap(fifo, s, taps, k)
  {
  }

  lemma NoWindowInNothing(fifo: FifoOracle, s: nat, taps: seq<nat>)
    requires HasWindow(fifo, s, taps)
    ensures taps != []
  {
  }

  lemma FirstLockedAt(fifo: FifoOracle, s: nat, taps: seq<nat>) returns (k: nat)
    requires HasWindow(fifo, s, taps)
    ensures k < |taps| && HasWindow(fifo, s, taps[..k + 1]) && !HasWindow(fifo, s, taps[..k])
  {
    hide IsWindow;
    k := |taps|;
    assert taps[..k] == taps;
    while HasWindow(fifo, s, taps[..k])
      invariant k <= |taps| && (k < |taps| ==> HasWindow(fifo, s, taps[..k + 1]))
      invariant k == |taps| ==> HasWindow(fifo, s, taps[..k])
      decreases k
    {
      NoWindowInNothing(fifo, s, taps[..k]);
      k := k - 1;
    }
  }

  /** From the first lock on, the step is 2. */
  lemma {:induction false} StepAfterLock(fifo: FifoOracle, n: nat, taps: seq<nat>, step: nat)
    requires IsStep(fifo, n, taps, n, step) && Locked(fifo, n, taps) != {}
    ensures step == 2
  {
    hide IsStep, Hit;
    var s: nat :| s in Locked(fifo, n, taps);
    var k := FirstLockedAt(fifo, s, taps);
    assert Cap(fifo, s, taps, k) == 2 && Seen(n, taps, n, k, s);
    StepIsSmallest(fifo, n, taps, k, s, step);
    CapSizes(fifo, n, taps, step);
  }

  /** The sweep in terms of the words: how far each tap of a trace lies above the one before. */
  lemma TraceByWords(fifo: FifoOracle, n: nat, taps: seq<nat>, k: nat)
    requires IsTrace(fifo, n, taps) && 0 < k < |taps|
    ensures taps[k] - taps[k - 1] ==
              if Locked(fifo, n, taps[..k]) != {} || ReadOutside(fifo, n, taps[..k], 0x8, 0x3ffb) then 2
              else if ReadOutside(fifo, n, taps[..k], 0x4, 0x3ffd) then 16
              else if ReadOutside(fifo, n, taps[..k], 0x2, 0x3ffe) then 32
              else 64
  {
    hide IsStep, Locked, ReadOutside;
    if Locked(fifo, n, taps[..k]) == {} {
      StepByWords(fifo, n, taps[..k], taps[k] - taps[k - 1]);
    } else {
      StepAfterLock(fifo, n, taps[..k], taps[k] - taps[k - 1]);
    }
  }

  // ----- Every search has an outcome -----

  lemma FirstWindowExists(fifo: FifoOracle, s: nat, taps: seq<nat>) returns (a: nat, b: nat)
    requires HasWindow(fifo, s, taps)
    ensures IsFirstWindow(fifo, s, taps, a, b)
  {
    hide IsWindow;
    a, b :| IsWindow(fifo, s, taps, a, b);
    while !IsFirstWindow(fifo, s, taps, a, b)
      invariant IsWindow(fifo, s, taps, a, b)
      decreases b
    {
      var a': nat, b': nat :| IsWindow(fifo, s, taps, a', b') && b' < b;
      a, b := a', b';
    }
  }

  /** For every trace a subphy has a record that describes its readings. */
  lemma TrackedRecord(fifo: FifoOracle, n: nat, s: nat, taps: seq<nat>) returns (p: Subphy)
    requires IsTrace(fifo, n, taps)
    ensures Tracks(fifo, s, taps, p)
    ensures p.state.RL_BEHIND? ==> taps != [] && p.value <= taps[|taps| - 1]
  {
    hide IsTrace, Hit, LastStart;
    if HasWindow(fifo, s, taps) {
      var a, b := FirstWindowExists(fifo, s, taps);
      TraceIncreases(fifo, n, taps, a, b);
      TraceIncreases(fifo, n, taps, b, |taps| - 1);
      p := Subphy(RL_BEHIND, (taps[a] + taps[b]) / 2, 0, 0);
    } else if taps != [] && Hit(fifo, s, taps[|taps| - 1]) {
      var a := RunAtEnd(fifo, s, taps);
      p := Subphy(RL_INSIDE, taps[a], taps[a], 0);
      if taps[a] + ADLL_TAPS_IN_CYCLE < taps[|taps| - 1] {
        var b := WideRunHasWindow(fifo, s, taps, a, |taps| - 1);
      }
    } else {
      p := Subphy(RL_AHEAD, LastStart(fifo, s, taps), 0, 0);
    }
  }

  lemma CapAtLeastTwo(fifo: FifoOracle, s: nat, taps: seq<nat>, k: nat)
    requires k < |taps|
    ensures 2 <= Cap(fifo, s, taps, k) <= 64
  {
  }

  lemma {:induction false} StepExists(fifo: FifoOracle, n: nat, taps: seq<nat>) returns (step: nat)
    ensures 2 <= step <= 64 && IsStep(fifo, n, taps, n, step)
    decreases |taps|
  {
    if taps == [] {
      step := STEP_SIZE;
    } else {
      hide IsStep, Cap;
      var k := |taps| - 1;
      step := StepExists(fifo, n, taps[..k]);
      assert taps == taps[..k] + [taps[k]];
      StepCarriedOver(fifo, n, taps[..k], taps[k], step);
      for s := 0 to n
        invariant 2 <= step <= 64 && IsStep(fifo, n, taps, s, step)
      {
        CapAtLeastTwo(fifo, s, taps, k);
        var cap := Cap(fifo, s, taps, k);
        var step' := if cap < step then cap else step;
        StepLowered(fifo, n, taps, s, step, step');
        step := step';
      }
    }
  }

  lemma NothingCounted(inactive: nat, sub: seq<Subphy>, c: Shared)
    requires forall j :: 0 <= j < |sub| ==> sub[j].state.RL_AHEAD?
    requires c.passLockNum == inactive && c.minVal == MAX_RL_VALUE && c.maxVal == 0
    ensures Counted(inactive, sub, c)
  {
    assert Behind(sub) == {};
  }

  lemma StepIsNotCounted(inactive: nat, sub: seq<Subphy>, c: Shared, step: nat)
    requires Counted(inactive, sub, c)
    ensures Counted(inactive, sub, c.(step := step))
  {
  }

  lemma SettledExists(fifo: FifoOracle, n: nat, inactive: nat, taps: seq<nat>) returns (sub: seq<Subphy>, c: Shared)
    requires IsTrace(fifo, n, taps) && (taps == [] || taps[|taps| - 1] < MAX_RL_VALUE)
    ensures Settled(fifo, n, inactive, taps, sub, c)
  {
    hide IsTrace, IsStep, Counted, Tracks;
    var step := StepExists(fifo, n, taps);
    sub := seq(n, _ => Subphy(RL_AHEAD, 0, 0, 0));
    c := Shared(STEP_SIZE, inactive, MAX_RL_VALUE, 0);
    NothingCounted(inactive, sub, c);
    for s := 0 to n
      invariant |sub| == n && Counted(inactive, sub, c)
      invariant forall j: nat :: j < s ==> Tracks(fifo, j, taps, sub[j])
      invariant forall j: nat :: s <= j < n ==> sub[j].state.RL_AHEAD?
    {
      var p := TrackedRecord(fifo, n, s, taps);
      if p.state.RL_BEHIND? {
        CountLock(inactive, sub, s, p, c);
        sub, c := sub[s := p], Lock(p.value, c);
      } else {
        CountKept(inactive, sub, s, p, c, c);
        sub := sub[s := p];
      }
    }
    StepIsNotCounted(inactive, sub, c, step);
    c := c.(step := step);
  }

  lemma OneTap(fifo: FifoOracle, n: nat, inactive: nat)
    ensures IsTrace(fifo, n, [0]) && StillSearching(fifo, n, inactive, [0][..|[0]| - 1])
  {
  }

  /** Every search has an outcome, for all readings, any number of subphys and any initial count. */
  lemma OutcomeExists(fifo: FifoOracle, n: nat, inactive: nat) returns (taps: seq<nat>, sub: seq<Subphy>, c: Shared)
    ensures IsOutcome(fifo, n, inactive, taps, sub, c)
  {
    hide Settled, IsStep, Locked, IsTrace, StillSearching;
    taps := [0];
    OneTap(fifo, n, inactive);
    sub, c := SettledExists(fifo, n, inactive, taps);
    SettledCount(fifo, n, inactive, taps, sub, c);
    while c.passLockNum != n && taps[|taps| - 1] + c.step < MAX_RL_VALUE
      invariant IsTrace(fifo, n, taps) && taps != [] && taps[|taps| - 1] < MAX_RL_VALUE
      invariant Settled(fifo, n, inactive, taps, sub, c)
      invariant 2 <= c.step <= 64 && IsStep(fifo, n, taps, n, c.step)
      invariant c.passLockNum == inactive + |Locked(fifo, n, taps)|
      invariant StillSearching(fifo, n, inactive, taps[..|taps| - 1])
      decreases MAX_RL_VALUE - taps[|taps| - 1]
    {
      var i := taps[|taps| - 1] + c.step;
      assert taps == taps[..|taps| - 1] + [taps[|taps| - 1]];
      SearchContinues(fifo, n, inactive, taps[..|taps| - 1], taps[|taps| - 1]);
      TraceExtends(fifo, n, taps, i, c.step);
      assert (taps + [i])[..|taps + [i]| - 1] == taps;
      taps := taps + [i];
      sub, c := SettledExists(fifo, n, inactive, taps);
      SettledCount(fifo, n, inactive, taps, sub, c);
    }
  }
}
