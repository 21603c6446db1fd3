/**
  The Vref search: the best reference voltage index of every pup by its valid window.

  A pup steps up by 3 while its window does not shrink by more than 200 (a fifth of a tap),
  and then back by 1. The windows are arbitrary measurements, one per round.
*/
module VrefSearch {

  const VREF_INITIAL_STEP: nat := 3
  const VREF_SECOND_STEP: nat := 1
  const VREF_MAX_INDEX: nat := 7
  const VREF_WINDOW_SIZE_TH: nat := 12
  const MAX_ROUNDS: nat := 10

  /** The Vref register has a non-linear order. */
  const VREF_MAP: seq<nat> := [1, 2, 3, 4, 5, 6, 7, 0]

  datatype Step = VREF_STEP_1 | VREF_STEP_2 | VREF_CONVERGE

  datatype Pup = Pup(st: Step, cur: nat, last: nat, lim: nat, window: nat, lastWindow: nat, reg: nat)

  /** The window measured in each round. */
  type Windows = nat -> nat

  function Max(a: nat, b: nat): nat {
    if a < b then b else a
  }

  /** The low four bits of the register select the reference; the rest is kept. */
  function Select(reg: nat, index: nat): nat
    requires index <= VREF_MAX_INDEX
  {
    reg - reg % 16 + VREF_MAP[index]
  }

  predicate Selects(reg0: nat, reg: nat, index: nat) {
    index <= VREF_MAX_INDEX && reg / 16 == reg0 / 16 && reg % 16 == VREF_MAP[index]
  }

  /** Index i selects reference i + 1, and the last index reference 0. */
  lemma SelectsNext(reg0: nat, reg: nat, index: nat)
    requires Selects(reg0, reg, index)
    ensures reg % 16 == (index + 1) % 8 && reg - reg % 16 == reg0 - reg0 % 16
  {
  }

  lemma SelectKeepsUpperBits(reg0: nat, reg: nat, index: nat)
    requires index <= VREF_MAX_INDEX && reg / 16 == reg0 / 16
    ensures Selects(reg0, Select(reg, index), index)
  {
  }

  // ----- The search as a decision on the measured windows -----

  /** The window shrinks noticeably at index 3, or at index 6. */
  predicate ShrinksAt3(w: Windows) { w(1) + 200 < w(0) }
  predicate ShrinksAt6(w: Windows) { !ShrinksAt3(w) && w(2) + 200 < Max(w(0), w(1)) }

  /** The number of rounds until a pup converges. */
  function Rounds(w: Windows): nat {
    if ShrinksAt3(w) then (if w(2) + 200 < w(1) then 3 else 4)
    else if ShrinksAt6(w) then (if w(3) + 200 < w(2) then 4 else 5)
    else 4
  }

  /** The index measured in round r. */
  function IndexAt(w: Windows, r: nat): nat {
    if r <= 1 then 3 * r
    else if ShrinksAt3(w) then (if r == 2 then 2 else 1)
    else if r == 2 then 6
    else if ShrinksAt6(w) then (if r == 3 then 5 else 4)
    else 7
  }

  /** The index that is programmed in the end. */
  function FinalIndex(w: Windows): nat {
    if ShrinksAt3(w) then
      if w(2) + 200 < w(1) then 3 else if w(3) + 200 < Max(w(2), w(1)) then 2 else 0
    else if ShrinksAt6(w) then
      if w(3) + 200 < w(2) then 6 else if w(4) + 200 < Max(w(3), w(2)) then 5 else 3
    else 7
  }

  /** The round in which that index was the current one. */
  function FinalRound(w: Windows): nat {
    match FinalIndex(w)
    case 0 => 0
    case 3 => 1
    case 2 => 2
    case 6 => 2
    case _ => 3
  }

  /** The search converges within five rounds, on an index that was the current one in an earlier round. */
  lemma FinalIndexWasVisited(w: Windows)
    ensures 3 <= Rounds(w) <= 5
    ensures FinalRound(w) < Rounds(w) && IndexAt(w, FinalRound(w)) == FinalIndex(w)
    ensures forall r: nat :: r < Rounds(w) ==> IndexAt(w, r) <= VREF_MAX_INDEX
  {
  }

  /** No visited index has a window that is noticeably wider than the one of the index that is kept. */
  ghost predicate KeepsTheWidest(w: Windows) {
    forall r: nat :: r < Rounds(w) ==> w(r) <= w(FinalRound(w)) + 200
  }

  /**
    The search is not an argmax: it keeps a widest window, within the margin of 200, exactly under
    these conditions on the windows. After a first shrink, the first step back must not shrink the
    window again, and the index that is then kept must make up for the shrink; without a shrink,
    the window of the last index must reach the others, although nothing is compared with it.
  */
  lemma KeepsTheWidestExactly(w: Windows)
    ensures KeepsTheWidest(w) <==>
              if ShrinksAt3(w) then
                && w(2) + 200 >= w(1)
                && (if w(3) + 200 < Max(w(2), w(1)) then w(0) <= w(2) + 200
                    else w(2) <= w(0) + 200 && w(3) <= w(0) + 200)
              else if ShrinksAt6(w) then
                && w(3) + 200 >= w(2)
                && (if w(4) + 200 < Max(w(3), w(2)) then Max(w(0), w(1)) <= w(3) + 200
                    else w(3) <= w(1) + 200 && w(4) <= w(1) + 200)
              else Max(w(0), Max(w(1), w(2))) <= w(3) + 200
  {
    assert KeepsTheWidest(w) <==>
      forall r: nat :: r in {0, 1, 2, 3, 4} && r < Rounds(w) ==> w(r) <= w(FinalRound(w)) + 200;
  }

  /** No index is measured twice, so a window per round is a window per index. */
  lemma IndicesAreDistinct(w: Windows, r: nat, r': nat)
    requires r < r' < Rounds(w)
    ensures IndexAt(w, r) != IndexAt(w, r')
  {
  }

  /** The state of a pup before round r of a search with windows w. */
  ghost predicate Before(w: Windows, r: nat, reg0: nat, p: Pup) {
    && p.reg / 16 == reg0 / 16
    && if r >= Rounds(w) then p.st == VREF_CONVERGE && Selects(reg0, p.reg, FinalIndex(w))
       else
         && p.cur == IndexAt(w, r) && Selects(reg0, p.reg, p.cur)
         && match r
            case 0 => p.st == VREF_STEP_1 && p.last == p.lim == 0 && p.lastWindow == 0
            case 1 => p.st == VREF_STEP_1 && p.last == p.lim == 3 && p.lastWindow == w(0)
            case 2 =>
              if ShrinksAt3(w) then p.st == VREF_STEP_2 && p.last == 3 && p.lim == 0 && p.lastWindow == w(1)
              else p.st == VREF_STEP_1 && p.last == p.lim == 6 && p.lastWindow == Max(w(0), w(1))
            case 3 =>
              if ShrinksAt3(w) then p.st == VREF_STEP_2 && p.last == 2 && p.lim == 0 && p.lastWindow == Max(w(2), w(1))
              else if ShrinksAt6(w) then p.st == VREF_STEP_2 && p.last == 6 && p.lim == 3 && p.lastWindow == w(2)
              else p.st == VREF_STEP_2 && p.last == p.lim == 7
            case _ => p.st == VREF_STEP_2 && p.last == 5 && p.lim == 3 && p.lastWindow == Max(w(3), w(2))
  }

  /** One round of a pup that has not converged. */
  method StepPup(ghost w: Windows, ghost r: nat, ghost reg0: nat, p0: Pup) returns (p: Pup)
    requires Before(w, r, reg0, p0) && p0.st != VREF_CONVERGE && p0.window == w(r)
    ensures Before(w, r + 1, reg0, p)
    ensures p0.st == VREF_STEP_1 ==> p0.cur in {0, 3, 6}
    ensures p.window == p0.window
  {
    hide Select, Selects;
    p := p0;
    if p.window + 200 >= p.lastWindow {
      if p.st == VREF_STEP_1 {
        if p.cur == VREF_MAX_INDEX {
          p := p.(st := VREF_CONVERGE);
        } else {
          p := p.(cur := if p.cur + VREF_INITIAL_STEP > VREF_MAX_INDEX then VREF_MAX_INDEX
                         else p.cur + VREF_INITIAL_STEP);
          if p.cur == VREF_MAX_INDEX {
            p := p.(st := VREF_STEP_2);
          }
          p := p.(lim := p.cur, last := p.cur);
        }
        p := p.(lastWindow := Max(p.window, p.lastWindow));
        SelectKeepsUpperBits(reg0, p.reg, p.cur);
        p := p.(reg := Select(p.reg, p.cur));
      } else {
        p := p.(lastWindow := Max(p.window, p.lastWindow), last := p.cur);
        if p.cur - VREF_SECOND_STEP == p.lim {
          p := p.(st := VREF_CONVERGE, cur := p.cur - VREF_SECOND_STEP);
        } else if p.cur == p.lim {
          p := p.(st := VREF_CONVERGE);
        } else {
          p := p.(cur := p.cur - VREF_SECOND_STEP);
        }
        SelectKeepsUpperBits(reg0, p.reg, p.cur);
        p := p.(reg := Select(p.reg, p.cur));
      }
    } else if p.st == VREF_STEP_1 {
      p := p.(st := VREF_STEP_2, lim := p.cur - VREF_INITIAL_STEP, lastWindow := p.window, last := p.cur);
      p := p.(cur := p.last - VREF_SECOND_STEP);
      SelectKeepsUpperBits(reg0, p.reg, p.cur);
      p := p.(reg := Select(p.reg, p.cur));
    } else {
      SelectKeepsUpperBits(reg0, p.reg, p.last);
      p := p.(reg := Select(p.reg, p.last), st := VREF_CONVERGE);
    }
  }

  // ----- The windows that are compared -----

  /** Three repeated measurements for every round and pup. */
  type Lengths = (nat, nat, nat) -> nat

  /** A measurement is a 5-bit length for the first four pups; the others read a byte behind these four. */
  function Reading(hw: Lengths, r: nat, rep: nat, k: nat): nat {
    if k < 4 then hw(r, rep, k) % 32 else hw(r, rep, k) % 256
  }

  /** The lengths of the first four pups are below 32; a byte behind them is read as it is. */
  lemma ReadingRange(hw: Lengths, r: nat, rep: nat, k: nat)
    ensures k <= 3 && hw(r, rep, k) <= 31 ==> Reading(hw, r, rep, k) == hw(r, rep, k)
    ensures k <= 3 ==> Reading(hw, r, rep, k) <= 31
    ensures k >= 4 && hw(r, rep, k) <= 255 ==> Reading(hw, r, rep, k) == hw(r, rep, k)
  {
  }

  /** One step of the running average, in thousandths; the window is a 16-bit value. */
  function Average(window: nat, rep: nat, x: nat): nat
    requires rep > 0
  {
    ((window * (rep - 1) + 1000 * x) / rep) % 0x1_0000
  }

  /** The window of a round: the running average after its three measurements. */
  function WindowOf(hw: Lengths, r: nat, k: nat): nat {
    Average(Average(Average(0, 1, Reading(hw, r, 1, k)), 2, Reading(hw, r, 2, k)), 3, Reading(hw, r, 3, k))
  }

  /** The exact average of three measurements, in thousandths. */
  function Mean(x: nat, y: nat, z: nat): nat {
    1000 * (x + y + z) / 3
  }

  lemma AverageSteps(window: nat, x: nat)
    ensures Average(window, 1, x) == (1000 * x) % 0x1_0000
    ensures Average(window, 2, x) == ((window + 1000 * x) / 2) % 0x1_0000
    ensures Average(window, 3, x) == ((2 * window + 1000 * x) / 3) % 0x1_0000
  {
  }

  /** The running average is the exact one precisely when no step of it leaves 16 bits. */
  lemma AverageIsExact(x: nat, y: nat, z: nat)
    requires x <= 255 && y <= 255 && z <= 255
    ensures Average(Average(Average(0, 1, x), 2, y), 3, z) == Mean(x, y, z)
            <==> x <= 65 && x + y <= 131 && x + y + z <= 196
  {
    hide Average;
    var w1 := Average(0, 1, x);
    var w2 := Average(w1, 2, y);
    AverageSteps(0, x);
    AverageSteps(w1, y);
    AverageSteps(w2, z);
    var i, j := 1000 * x / 0x1_0000, (w1 + 1000 * y) / 2 / 0x1_0000;
    var k := (2 * w2 + 1000 * z) / 3 / 0x1_0000;
    assert w2 == 500 * x + 500 * y - 0x8000 * i - 0x1_0000 * j;
    assert Average(w2, 3, z) == (2 * w2 + 1000 * z) / 3 - 0x1_0000 * k;
    assert i == 0 <==> x <= 65;
    assert i == 0 ==> (j == 0 <==> x + y <= 131);
    assert i == 0 && j == 0 ==> (k == 0 <==> x + y + z <= 196);
    assert i + 2 * j > 0 ==> (2 * w2 + 1000 * z) / 3 < Mean(x, y, z);
  }

  /** It is so for lengths up to 65, hence always for the first four pups. */
  lemma WindowIsMean(hw: Lengths, r: nat, k: nat)
    requires k < 4 || forall rep: nat :: Reading(hw, r, rep, k) <= 65
    ensures WindowOf(hw, r, k) == Mean(Reading(hw, r, 1, k), Reading(hw, r, 2, k), Reading(hw, r, 3, k))
  {
    hide Average, Mean;
    AverageIsExact(Reading(hw, r, 1, k), Reading(hw, r, 2, k), Reading(hw, r, 3, k));
  }

  function WindowsOf(hw: Lengths, k: nat): Windows {
    r => WindowOf(hw, r, k)
  }

  /** What a pup compares in round r: a round that is not measured compares the window before once more. */
  function ComparedIn(hw: Lengths, measured: seq<bool>, k: nat, r: nat): nat {
    if r < |measured| && measured[r] then WindowOf(hw, r, k)
    else if r == 0 then 0
    else ComparedIn(hw, measured, k, r - 1)
  }

  function Compared(hw: Lengths, measured: seq<bool>, k: nat): Windows {
    r => ComparedIn(hw, measured, k, r)
  }

  ghost function SearchedPups(active: seq<bool>, searched: seq<bool>): set<nat>
    requires |active| == |searched|
  {
    set k: nat | k < |active| && active[k] && searched[k]
  }

  /** The pups that the windows compared in these rounds have brought to converge. */
  ghost function Converged(hw: Lengths, active: seq<bool>, searched: seq<bool>, measured: seq<bool>): set<nat>
    requires |active| == |searched|
  {
    set k: nat | k in SearchedPups(active, searched) && Rounds(Compared(hw, measured, k)) <= |measured|
  }

  /** Which of the first n rounds are measured: those before which not exactly four pups have converged. */
  ghost function Schedule(hw: Lengths, active: seq<bool>, searched: seq<bool>, n: nat): (measured: seq<bool>)
    requires |active| == |searched|
    ensures |measured| == n
  {
    if n == 0 then []
    else
      var before := Schedule(hw, active, searched, n - 1);
      before + [|Converged(hw, active, searched, before)| != 4]
  }

  ghost predicate AgreeBelow(w: Windows, w': Windows, r: nat) {
    forall i: nat :: i < r ==> w(i) == w'(i)
  }

  /** Whether a pup has converged before round r depends on the earlier windows only. */
  lemma RoundsDependOnThePast(w: Windows, w': Windows, r: nat)
    requires AgreeBelow(w, w', r)
    ensures Rounds(w) <= r <==> Rounds(w') <= r
    ensures Rounds(w) <= r ==> Rounds(w) == Rounds(w') && FinalIndex(w) == FinalIndex(w')
  {
    assert 2 < r ==> w(0) == w'(0) && w(1) == w'(1) && w(2) == w'(2);
    assert 3 < r ==> w(3) == w'(3);
    assert 4 < r ==> w(4) == w'(4);
  }

  lemma StateDependsOnThePast(w: Windows, w': Windows, r: nat, reg0: nat, p: Pup)
    requires AgreeBelow(w, w', r) && Before(w, r, reg0, p)
    ensures Before(w', r, reg0, p)
  {
    hide Selects;
    RoundsDependOnThePast(w, w', r);
    assert 0 < r ==> w(0) == w'(0);
    assert 1 < r ==> w(1) == w'(1);
    assert 2 < r ==> w(2) == w'(2);
    assert 3 < r ==> w(3) == w'(3);
  }

  /** Later rounds do not change what was compared. */
  lemma {:induction false} ComparedKept(hw: Lengths, m: seq<bool>, m': seq<bool>, k: nat, r: nat)
    requires m <= m' && r < |m|
    ensures ComparedIn(hw, m', k, r) == ComparedIn(hw, m, k, r)
  {
    if !m[r] && r > 0 {
      ComparedKept(hw, m, m', k, r - 1);
    }
  }

  lemma ComparedAgrees(hw: Lengths, m: seq<bool>, m': seq<bool>, k: nat)
    requires m <= m'
    ensures AgreeBelow(Compared(hw, m, k), Compared(hw, m', k), |m|)
  {
    hide WindowOf;
    forall r: nat | r < |m|
      ensures ComparedIn(hw, m', k, r) == ComparedIn(hw, m, k, r)
    {
      ComparedKept(hw, m, m', k, r);
    }
  }

  lemma {:induction false} ScheduleGrows(hw: Lengths, active: seq<bool>, searched: seq<bool>, n: nat, n': nat)
    requires |active| == |searched| && n <= n'
    ensures Schedule(hw, active, searched, n) <= Schedule(hw, active, searched, n')
  {
    hide Converged;
    if n < n' {
      ScheduleGrows(hw, active, searched, n, n' - 1);
    }
  }

  /** A round is measured exactly when not exactly four pups have converged before it. */
  lemma MeasuredExactly(hw: Lengths, active: seq<bool>, searched: seq<bool>, n: nat, r: nat)
    requires |active| == |searched| && r < n
    ensures Schedule(hw, active, searched, n)[..r] == Schedule(hw, active, searched, r)
    ensures Schedule(hw, active, searched, n)[r] <==>
              |Converged(hw, active, searched, Schedule(hw, active, searched, r))| != 4
  {
    hide Converged;
    ScheduleGrows(hw, active, searched, r, n);
    ScheduleGrows(hw, active, searched, r + 1, n);
  }

  /** The pups that converge after three rounds: their window shrinks at index 3 and again at index 2. */
  ghost function EarlyPups(hw: Lengths, active: seq<bool>, searched: seq<bool>): set<nat>
    requires |active| == |searched|
  {
    set k: nat | k in SearchedPups(active, searched)
                 && ShrinksAt3(WindowsOf(hw, k)) && WindowOf(hw, 2, k) + 200 < WindowOf(hw, 1, k)
  }

  lemma ThreeMeasured(hw: Lengths, active: seq<bool>, searched: seq<bool>)
    requires |active| == |searched|
    requires var m := Schedule(hw, active, searched, MAX_ROUNDS); m[0] && m[1] && m[2]
    ensures Converged(hw, active, searched, Schedule(hw, active, searched, 3)) == EarlyPups(hw, active, searched)
  {
    hide WindowOf, Schedule;
    var m := Schedule(hw, active, searched, 3);
    ScheduleGrows(hw, active, searched, 3, MAX_ROUNDS);
    forall k: nat | k in SearchedPups(active, searched)
      ensures k in Converged(hw, active, searched, m) <==> k in EarlyPups(hw, active, searched)
    {
      assert AgreeBelow(Compared(hw, m, k), WindowsOf(hw, k), 3);
      RoundsDependOnThePast(Compared(hw, m, k), WindowsOf(hw, k), 3);
    }
  }

  /** The first three rounds are always measured, the fourth unless exactly four pups are early. */
  lemma FirstRounds(hw: Lengths, active: seq<bool>, searched: seq<bool>)
    requires |active| == |searched|
    ensures var m := Schedule(hw, active, searched, MAX_ROUNDS);
            m[0] && m[1] && m[2] && (m[3] <==> |EarlyPups(hw, active, searched)| != 4)
  {
    hide WindowOf, Schedule, Compared;
    forall r: nat | r < 4
      ensures var m := Schedule(hw, active, searched, r);
              && (r < 3 ==> Converged(hw, active, searched, m) == {})
              && (Schedule(hw, active, searched, MAX_ROUNDS)[r] <==> |Converged(hw, active, searched, m)| != 4)
    {
      MeasuredExactly(hw, active, searched, MAX_ROUNDS, r);
    }
    ThreeMeasured(hw, active, searched);
  }

  /** The index that a pup keeps was the current one in some measured round. */
  ghost predicate KeepsMeasured(hw: Lengths, measured: seq<bool>, k: nat) {
    var w := Compared(hw, measured, k);
    exists r: nat :: r < Rounds(w) && r < |measured| && measured[r] && IndexAt(w, r) == FinalIndex(w)
  }

  lemma FinalRoundIsLate(w: Windows)
    ensures FinalRound(w) <= 3 && (FinalRound(w) == 3 <==> FinalIndex(w) in {5, 7})
  {
  }

  /**
    The search lands on a measured index, except for index 5 or 7 in a run in which exactly four
    pups converge after three rounds: then no window is measured at that index.
  */
  lemma FinalIndexWasMeasured(hw: Lengths, active: seq<bool>, searched: seq<bool>, k: nat)
    requires |active| == |searched| && k in SearchedPups(active, searched)
    ensures var m := Schedule(hw, active, searched, MAX_ROUNDS);
            KeepsMeasured(hw, m, k) <==>
              !(|EarlyPups(hw, active, searched)| == 4 && FinalIndex(Compared(hw, m, k)) in {5, 7})
  {
    hide Schedule, Compared, EarlyPups, Rounds, IndexAt, FinalIndex;
    var m := Schedule(hw, active, searched, MAX_ROUNDS);
    FirstRounds(hw, active, searched);
    var w := Compared(hw, m, k);
    FinalIndexWasVisited(w);
    FinalRoundIsLate(w);
    forall r: nat | r < Rounds(w) && IndexAt(w, r) == FinalIndex(w)
      ensures r == FinalRound(w)
    {
      if r < FinalRound(w) {
        IndicesAreDistinct(w, r, FinalRound(w));
      } else if FinalRound(w) < r {
        IndicesAreDistinct(w, FinalRound(w), r);
      }
    }
  }

  lemma FourOfFour(x: set<nat>, all: set<nat>)
    requires x <= all && |all| <= |x|
    ensures x == all
  {
    assert all == x + (all - x);
  }

  /**
    With at most four searched pups, whatever the number of lanes, every pup is measured in each of
    its rounds, so it keeps the index that its own windows decide.
  */
  lemma FewPupsAreAlwaysMeasured(hw: Lengths, active: seq<bool>, searched: seq<bool>, k: nat)
    requires |active| == |searched| && k in SearchedPups(active, searched)
    requires |SearchedPups(active, searched)| <= 4
    ensures var m := Schedule(hw, active, searched, MAX_ROUNDS);
            var w := Compared(hw, m, k);
            && (forall r: nat :: r < Rounds(w) ==> m[r] && w(r) == WindowOf(hw, r, k))
            && FinalIndex(w) == FinalIndex(WindowsOf(hw, k)) && KeepsMeasured(hw, m, k)
  {
    hide WindowOf, Schedule, Rounds, IndexAt, FinalIndex;
    var m := Schedule(hw, active, searched, MAX_ROUNDS);
    var w := Compared(hw, m, k);
    FinalIndexWasVisited(w);
    forall r: nat | r < Rounds(w)
      ensures m[r]
    {
      MeasuredExactly(hw, active, searched, MAX_ROUNDS, r);
      ComparedAgrees(hw, m[..r], m, k);
      RoundsDependOnThePast(Compared(hw, m[..r], k), w, r);
      var done := Converged(hw, active, searched, m[..r]);
      if |done| == 4 {
        FourOfFour(done, SearchedPups(active, searched));
      }
    }
    RoundsDependOnThePast(w, WindowsOf(hw, k), Rounds(w));
  }

  /** Lengths that make exactly the given pups early, while all other windows are equally wide. */
  function EarlyLengths(early: set<nat>): Lengths {
    (r, rep, k) => if k !in early || r == 0 then 20 else if r == 1 then 10 else 0
  }

  lemma EarlyReading(early: set<nat>, r: nat, rep: nat, k: nat)
    ensures Reading(EarlyLengths(early), r, rep, k) == if k !in early || r == 0 then 20 else if r == 1 then 10 else 0
  {
  }

  lemma EarlyWindows(early: set<nat>, k: nat)
    ensures var hw := EarlyLengths(early);
            && WindowOf(hw, 0, k) == 20000
            && WindowOf(hw, 1, k) == (if k in early then 10000 else 20000)
            && WindowOf(hw, 2, k) == (if k in early then 0 else 20000)
  {
    hide Reading, WindowOf;
    var hw := EarlyLengths(early);
    forall r: nat, rep: nat
      ensures Reading(hw, r, rep, k) == if k !in early || r == 0 then 20 else if r == 1 then 10 else 0
    {
      EarlyReading(early, r, rep, k);
    }
    WindowIsMean(hw, 0, k);
    WindowIsMean(hw, 1, k);
    WindowIsMean(hw, 2, k);
  }

  /** When four pups are early, any other pup keeps index 7, which is never measured. */
  lemma OthersAreNotMeasured(active: seq<bool>, searched: seq<bool>, early: set<nat>, k: nat)
    requires |active| == |searched| && k in SearchedPups(active, searched) - early
    requires early <= SearchedPups(active, searched) && |early| == 4
    ensures var hw := EarlyLengths(early);
            var m := Schedule(hw, active, searched, MAX_ROUNDS);
            FinalIndex(Compared(hw, m, k)) == 7 && !KeepsMeasured(hw, m, k)
  {
    hide Schedule, KeepsMeasured, WindowOf, EarlyLengths, FinalRound;
    var hw := EarlyLengths(early);
    var m := Schedule(hw, active, searched, MAX_ROUNDS);
    forall j: nat
      ensures j in EarlyPups(hw, active, searched) <==> j in early
    {
      EarlyWindows(early, j);
    }
    assert EarlyPups(hw, active, searched) == early;
    FirstRounds(hw, active, searched);
    FinalIndexWasMeasured(hw, active, searched, k);
    EarlyWindows(early, k);
    assert ComparedIn(hw, m, k, 0) == ComparedIn(hw, m, k, 1) == ComparedIn(hw, m, k, 2) == 20000;
  }

  lemma SubsetOfSize(all: set<nat>, n: nat) returns (part: set<nat>)
    requires n < |all|
    ensures part <= all && |part| == n && all - part != {}
  {
    if n == 0 {
      part := {};
      assert all - part == all;
    } else {
      var smaller := SubsetOfSize(all, n - 1);
      var x :| x in all - smaller;
      part := smaller + {x};
      assert all == part + (all - part);
    }
  }

  /** The search lands on measured indices in every run exactly when at most four pups are searched. */
  lemma MeasuredInEveryRun(active: seq<bool>, searched: seq<bool>)
    requires |active| == |searched|
    ensures (forall hw: Lengths, k: nat :: k in SearchedPups(active, searched) ==>
               KeepsMeasured(hw, Schedule(hw, active, searched, MAX_ROUNDS), k))
            <==> |SearchedPups(active, searched)| <= 4
  {
    hide Schedule, KeepsMeasured, FinalIndex, Rounds, WindowOf, Compared;
    var all := SearchedPups(active, searched);
    if |all| <= 4 {
      forall hw: Lengths, k: nat | k in all
        ensures KeepsMeasured(hw, Schedule(hw, active, searched, MAX_ROUNDS), k)
      {
        FewPupsAreAlwaysMeasured(hw, active, searched, k);
      }
    } else {
      var early := SubsetOfSize(all, 4);
      var k :| k in all - early;
      OthersAreNotMeasured(active, searched, early, k);
    }
  }

  /** In particular with five active lanes, whose first four pups are early. */
  lemma FifthPupIsNotMeasured()
    ensures var five := seq(5, _ => true);
            !KeepsMeasured(EarlyLengths({0, 1, 2, 3}), Schedule(EarlyLengths({0, 1, 2, 3}), five, five, MAX_ROUNDS), 4)
  {
    hide Schedule, KeepsMeasured;
    OthersAreNotMeasured(seq(5, _ => true), seq(5, _ => true), {0, 1, 2, 3}, 4);
  }

  /** Equally wide windows up to index 6, and none at index 7. */
  function DropAtTheEnd(r: nat, rep: nat, k: nat): nat {
    if r < 3 then 20 else 0
  }

  lemma DropWindows()
    ensures forall r: nat :: WindowOf(DropAtTheEnd, r, 0) == if r < 3 then 20000 else 0
  {
    hide Average, WindowOf;
    forall r: nat
      ensures WindowOf(DropAtTheEnd, r, 0) == if r < 3 then 20000 else 0
    {
      WindowIsMean(DropAtTheEnd, r, 0);
    }
  }

  /** On these a pup keeps the narrowest window, because nothing is compared with the last index. */
  lemma KeepsTheNarrowest()
    ensures var w := WindowsOf(DropAtTheEnd, 0);
            && FinalIndex(w) == 7 && w(FinalRound(w)) == 0 && w(0) == w(1) == w(2) == 20000 && !KeepsTheWidest(w)
  {
    hide KeepsTheWidest;
    var w := WindowsOf(DropAtTheEnd, 0);
    DropWindows();
    KeepsTheWidestExactly(w);
  }

  /** A first length that no longer fits the 16-bit window, and equal lengths afterwards. */
  function HugeAtFirst(r: nat, rep: nat, k: nat): nat {
    if r == 0 then 255 else 60
  }

  /** The windows of exact averages. */
  function MeansOf(hw: Lengths, k: nat): Windows {
    r => Mean(Reading(hw, r, 1, k), Reading(hw, r, 2, k), Reading(hw, r, 3, k))
  }

  lemma HugeWindows(r: nat)
    ensures WindowOf(HugeAtFirst, r, 4) == if r == 0 then 36546 else 60000
    ensures MeansOf(HugeAtFirst, 4)(r) == if r == 0 then 255000 else 60000
  {
    hide Average;
    if r == 0 {
      AverageSteps(0, 255);
      AverageSteps(58392, 255);
      AverageSteps(25624, 255);
    } else {
      WindowIsMean(HugeAtFirst, r, 4);
    }
  }

  /** On these the fifth pup keeps index 7, as its first window has wrapped around; exact averages decide index 0. */
  lemma WrappedWindowDecides()
    ensures WindowOf(HugeAtFirst, 0, 4) == 36546 && MeansOf(HugeAtFirst, 4)(0) == 255000
    ensures FinalIndex(WindowsOf(HugeAtFirst, 4)) == 7 && FinalIndex(MeansOf(HugeAtFirst, 4)) == 0
  {
    hide WindowOf, MeansOf;
    HugeWindows(0);
    HugeWindows(1);
    HugeWindows(2);
    HugeWindows(3);
  }

  // ----- All pups -----

  /** The running average after some repetitions. */
  ghost predicate Averaged(hw: Lengths, r: nat, reps: nat, k: nat, window: nat) {
    match reps
    case 1 => window == Average(0, 1, Reading(hw, r, 1, k))
    case 2 => window == Average(Average(0, 1, Reading(hw, r, 1, k)), 2, Reading(hw, r, 2, k))
    case _ => window == WindowOf(hw, r, k)
  }

  lemma AverageStep(hw: Lengths, r: nat, rep: nat, k: nat, window: nat)
    requires 1 <= rep <= 3 && (rep > 1 ==> Averaged(hw, r, rep - 1, k, window))
    ensures Averaged(hw, r, rep, k, Average(window, rep, Reading(hw, r, rep, k)))
  {
    hide Reading;
  }

  lemma AverageOfThree(hw: Lengths, r: nat, k: nat, window: nat)
    ensures Averaged(hw, r, 3, k, window) ==> window == WindowOf(hw, r, k)
  {
  }

  /**
    A pup before the comparison of round r, which its compared windows have brought there. An
    unsearched pup keeps its register; an inactive one stays at index 0.
  */
  ghost predicate PupInRound(hw: Lengths, m: seq<bool>, r: nat, active: bool, searched: bool, reg0: nat,
                             k: nat, p: Pup) {
    if !searched then p.st == VREF_CONVERGE && p.reg == reg0
    else if !active then p.st == VREF_STEP_1 && Selects(reg0, p.reg, 0)
    else Before(Compared(hw, m, k), r, reg0, p)
  }

  /** A pup that is still searching holds the window that it compared last, or none yet. */
  ghost predicate HoldsLast(hw: Lengths, m: seq<bool>, active: bool, k: nat, p: Pup) {
    active && p.st != VREF_CONVERGE ==> p.window == if m == [] then 0 else ComparedIn(hw, m, k, |m| - 1)
  }

  lemma SameButWindow(w: Windows, r: nat, reg0: nat, p: Pup, p': Pup)
    requires Before(w, r, reg0, p) && p' == p.(window := p'.window)
    ensures Before(w, r, reg0, p')
  {
  }

  /** Measuring adds a round to the schedule and changes no more than the window. */
  lemma AfterMeasuring(hw: Lengths, m: seq<bool>, isFresh: bool, active: bool, searched: bool, reg0: nat, k: nat,
                       p: Pup, p': Pup)
    requires PupInRound(hw, m, |m|, active, searched, reg0, k, p) && HoldsLast(hw, m, active, k, p)
    requires p' == p.(window := p'.window)
    requires !isFresh ==> p' == p
    requires isFresh && active && p.st != VREF_CONVERGE ==> p'.window == WindowOf(hw, |m|, k)
    ensures PupInRound(hw, m + [isFresh], |m|, active, searched, reg0, k, p')
    ensures HoldsLast(hw, m + [isFresh], active, k, p')
  {
    hide WindowOf;
    var m' := m + [isFresh];
    ComparedAgrees(hw, m, m', k);
    if searched && active {
      StateDependsOnThePast(Compared(hw, m, k), Compared(hw, m', k), |m|, reg0, p);
      SameButWindow(Compared(hw, m', k), |m|, reg0, p, p');
    }
    if !isFresh && m != [] {
      ComparedKept(hw, m, m', k, |m| - 1);
    }
  }

  method StepActive(ghost hw: Lengths, ghost m: seq<bool>, ghost searched: bool, ghost reg0: nat, ghost k: nat, p0: Pup)
    returns (p: Pup)
    requires m != [] && PupInRound(hw, m, |m| - 1, true, searched, reg0, k, p0) && HoldsLast(hw, m, true, k, p0)
    requires p0.st != VREF_CONVERGE
    ensures searched && PupInRound(hw, m, |m|, true, searched, reg0, k, p) && HoldsLast(hw, m, true, k, p)
  {
    hide Before, ComparedIn;
    p := StepPup(Compared(hw, m, k), |m| - 1, reg0, p0);
  }

  lemma StaysConverged(hw: Lengths, m: seq<bool>, active: bool, searched: bool, reg0: nat, k: nat, p: Pup)
    requires m != [] && PupInRound(hw, m, |m| - 1, active, searched, reg0, k, p) && (active ==> p.st == VREF_CONVERGE)
    ensures PupInRound(hw, m, |m|, active, searched, reg0, k, p) && HoldsLast(hw, m, active, k, p)
  {
  }

  lemma AfterTenRounds(hw: Lengths, m: seq<bool>, active: bool, searched: bool, reg0: nat, k: nat, p: Pup)
    requires PupInRound(hw, m, MAX_ROUNDS, active, searched, reg0, k, p)
    ensures !searched ==> p.reg == reg0
    ensures searched && !active ==> Selects(reg0, p.reg, 0)
    ensures searched && active ==> p.st == VREF_CONVERGE && Selects(reg0, p.reg, FinalIndex(Compared(hw, m, k)))
  {
  }

  /** The searched active pups that have converged. */
  ghost function Done(active: seq<bool>, searched: seq<bool>, ps: seq<Pup>): set<nat>
    requires |searched| == |active| == |ps|
  {
    set k: nat | k in SearchedPups(active, searched) && ps[k].st == VREF_CONVERGE
  }

  lemma DoneAfterStep(active: seq<bool>, searched: seq<bool>, ps: seq<Pup>, k: nat, p: Pup)
    requires |searched| == |active| == |ps| && k < |ps| && active[k] && searched[k] && ps[k].st != VREF_CONVERGE
    ensures |Done(active, searched, ps[k := p])| ==
              |Done(active, searched, ps)| + if p.st == VREF_CONVERGE then 1 else 0
  {
    if p.st == VREF_CONVERGE {
      assert Done(active, searched, ps[k := p]) == Done(active, searched, ps) + {k};
    } else {
      assert Done(active, searched, ps[k := p]) == Done(active, searched, ps);
    }
  }

  /** Measuring changes no step, so it converges no pup. */
  lemma DoneAfterMeasuring(active: seq<bool>, searched: seq<bool>, ps: seq<Pup>, ps': seq<Pup>)
    requires |searched| == |active| == |ps| == |ps'|
    requires forall k :: 0 <= k < |ps| ==> ps'[k].st == ps[k].st
    ensures Done(active, searched, ps') == Done(active, searched, ps)
  {
  }

  /** The converged pups are those whose compared windows decide so. */
  lemma DoneIsConverged(hw: Lengths, m: seq<bool>, active: seq<bool>, searched: seq<bool>, regs: seq<nat>, ps: seq<Pup>)
    requires |searched| == |active| == |ps| == |regs|
    requires forall k: nat :: k < |ps| ==> PupInRound(hw, m, |m|, active[k], searched[k], regs[k], k, ps[k])
    ensures Done(active, searched, ps) == Converged(hw, active, searched, m)
  {
    hide Selects, Compared;
    forall k: nat | k in SearchedPups(active, searched)
      ensures ps[k].st == VREF_CONVERGE <==> Rounds(Compared(hw, m, k)) <= |m|
    {
      assert PupInRound(hw, m, |m|, active[k], searched[k], regs[k], k, ps[k]);
    }
  }

  lemma FewerThan(x: set<nat>, n: nat)
    requires forall k :: k in x ==> k < n
    ensures |x| <= n
  {
    if n > 0 {
      FewerThan(x - {n - 1}, n - 1);
    } else {
      assert x == {};
    }
  }

  /** Pups with a wide window are not searched. */
  ghost function Searched(windowSize: seq<nat>): seq<bool> {
    seq(|windowSize|, k requires 0 <= k < |windowSize| => windowSize[k] <= VREF_WINDOW_SIZE_TH)
  }

  /** A pup when the search begins. */
  ghost predicate Started(windowSize: nat, p0: Pup, p: Pup) {
    if windowSize > VREF_WINDOW_SIZE_TH then p.st == VREF_CONVERGE && p.reg == p0.reg
    else p.window == 0 && forall w: Windows :: Before(w, 0, p0.reg, p)
  }

  lemma StartedPup(windowSize: nat, p0: Pup, p: Pup)
    requires windowSize > VREF_WINDOW_SIZE_TH ==> p.st == VREF_CONVERGE && p.reg == p0.reg
    requires windowSize <= VREF_WINDOW_SIZE_TH ==>
               && p.st == VREF_STEP_1 && p.reg == Select(p0.reg, 0)
               && p.cur == p.last == p.lim == p.window == p.lastWindow == 0
    ensures Started(windowSize, p0, p)
  {
    hide Select, Selects;
    SelectKeepsUpperBits(p0.reg, p0.reg, 0);
  }

  class Search {
    const active: seq<bool>
    const pups: array<Pup>
    var algoRunFlag: nat
    var interfaceState: nat

    ghost predicate Valid() {
      |active| == pups.Length
    }

    constructor (active: seq<bool>, pups: array<Pup>)
      requires |active| == pups.Length
      ensures Valid() && this.active == active && this.pups == pups && algoRunFlag == 0
    {
      this.active, this.pups, algoRunFlag, interfaceState := active, pups, 0, 0;
    }

    /** Pups whose window is already wide are not searched; all others start at index 0. */
    method Start(windowSize: seq<nat>)
      requires Valid() && |windowSize| == pups.Length
      modifies pups, this`interfaceState
      ensures interfaceState == 0
      ensures forall k: nat :: k < pups.Length ==> Started(windowSize[k], old(pups[k]), pups[k])
    {
      hide Started;
      for k := 0 to pups.Length
        invariant forall j :: k <= j < pups.Length ==> pups[j] == old(pups[j])
        invariant forall j: nat :: j < k ==> Started(windowSize[j], old(pups[j]), pups[j])
      {
        var p := pups[k].(cur := 0, last := 0, lim := 0, window := 0, lastWindow := 0);
        if windowSize[k] > VREF_WINDOW_SIZE_TH {
          p := p.(st := VREF_CONVERGE);
        } else {
          p := p.(st := VREF_STEP_1, reg := Select(p.reg, 0));
        }
        StartedPup(windowSize[k], pups[k], p);
        pups[k] := p;
      }
      interfaceState := 0;
    }

    /**
      The search after the rounds m, of which the true ones were measured: every pup is where the
      windows that it compared have brought it, and the counters count the converged ones.
    */
    ghost predicate InRound(hw: Lengths, m: seq<bool>, searched: seq<bool>, regs: seq<nat>)
      reads this, pups
    {
      && Valid() && |searched| == |regs| == pups.Length
      && m == Schedule(hw, active, searched, |m|)
      && algoRunFlag == interfaceState == |Done(active, searched, pups[..])|
      && forall k: nat :: k < pups.Length ==>
           && PupInRound(hw, m, |m|, active[k], searched[k], regs[k], k, pups[k])
           && HoldsLast(hw, m, active[k], k, pups[k])
    }

    /** The same within a round, when its windows are there but not yet compared. */
    ghost predicate Measured(hw: Lengths, m: seq<bool>, searched: seq<bool>, regs: seq<nat>)
      reads this, pups
    {
      && Valid() && |searched| == |regs| == pups.Length
      && m == Schedule(hw, active, searched, |m|) && m != []
      && algoRunFlag == interfaceState == |Done(active, searched, pups[..])|
      && forall k: nat :: k < pups.Length ==>
           && PupInRound(hw, m, |m| - 1, active[k], searched[k], regs[k], k, pups[k])
           && HoldsLast(hw, m, active[k], k, pups[k])
    }

    /**
      A round measures each searching pup three times and averages, unless exactly four pups have
      converged: then all windows stay as they are.
    */
    method Measure(hw: Lengths, ghost m: seq<bool>, ghost searched: seq<bool>, ghost regs: seq<nat>, r: nat)
      requires InRound(hw, m, searched, regs) && r == |m|
      modifies pups
      ensures Measured(hw, m + [|Converged(hw, active, searched, m)| != 4], searched, regs)
      ensures forall k: nat :: k < pups.Length && active[k] && pups[k].st != VREF_CONVERGE ==>
                pups[k].window == if |Converged(hw, active, searched, m)| == 4 then old(pups[k].window)
                                  else WindowOf(hw, r, k)
    {
      hide PupInRound, HoldsLast, WindowOf, Averaged, Done, Converged, Reading, Average;
      DoneIsConverged(hw, m, active, searched, regs, pups[..]);
      for rep := 1 to 4
        invariant forall j: nat :: j < pups.Length ==> pups[j] == old(pups[j]).(window := pups[j].window)
        invariant interfaceState == 4 ==> forall j: nat :: j < pups.Length ==> pups[j] == old(pups[j])
        invariant rep > 1 && interfaceState != 4 ==>
                    forall j: nat :: j < pups.Length && active[j] && pups[j].st != VREF_CONVERGE ==>
                      Averaged(hw, r, rep - 1, j, pups[j].window)
      {
        if interfaceState != 4 {
          for k := 0 to pups.Length
            invariant forall j: nat :: j < pups.Length ==> pups[j] == old(pups[j]).(window := pups[j].window)
            invariant forall j: nat :: j < k && active[j] && pups[j].st != VREF_CONVERGE ==>
                        Averaged(hw, r, rep, j, pups[j].window)
            invariant rep > 1 ==>
                        forall j: nat :: k <= j < pups.Length && active[j] && pups[j].st != VREF_CONVERGE ==>
                          Averaged(hw, r, rep - 1, j, pups[j].window)
          {
            if active[k] && pups[k].st != VREF_CONVERGE {
              AverageStep(hw, r, rep, k, pups[k].window);
              pups[k] := pups[k].(window := Average(pups[k].window, rep, Reading(hw, r, rep, k)));
            }
          }
        }
      }
      ghost var isFresh := interfaceState != 4;
      forall k: nat | k < pups.Length
        ensures PupInRound(hw, m + [isFresh], |m|, active[k], searched[k], regs[k], k, pups[k])
        ensures HoldsLast(hw, m + [isFresh], active[k], k, pups[k])
        ensures isFresh && active[k] && pups[k].st != VREF_CONVERGE ==> pups[k].window == WindowOf(hw, r, k)
      {
        AverageOfThree(hw, r, k, pups[k].window);
        AfterMeasuring(hw, m, isFresh, active[k], searched[k], regs[k], k, old(pups[k]), pups[k]);
      }
      DoneAfterMeasuring(active, searched, old(pups[..]), pups[..]);
    }

    /** The comparison of one round: every pup that has not converged takes its step. */
    method Compare(ghost hw: Lengths, ghost m: seq<bool>, ghost searched: seq<bool>, ghost regs: seq<nat>)
      requires Measured(hw, m, searched, regs)
      modifies pups, this`algoRunFlag, this`interfaceState
      ensures InRound(hw, m, searched, regs)
    {
      hide PupInRound, HoldsLast, Done, Schedule;
      for k := 0 to pups.Length
        invariant algoRunFlag == interfaceState == |Done(active, searched, pups[..])|
        invariant forall j: nat :: j < k ==>
                    && PupInRound(hw, m, |m|, active[j], searched[j], regs[j], j, pups[j])
                    && HoldsLast(hw, m, active[j], j, pups[j])
        invariant forall j: nat :: k <= j < pups.Length ==> pups[j] == old(pups[j])
      {
        if active[k] && pups[k].st != VREF_CONVERGE {
          ghost var before := pups[..];
          var p := StepActive(hw, m, searched[k], regs[k], k, pups[k]);
          pups[k] := p;
          DoneAfterStep(active, searched, before, k, p);
          assert pups[..] == before[k := p];
          if p.st == VREF_CONVERGE {
            algoRunFlag := algoRunFlag + 1;
            interfaceState := interfaceState + 1;
          }
        } else {
          StaysConverged(hw, m, active[k], searched[k], regs[k], k, pups[k]);
        }
      }
    }

    lemma NothingDone(hw: Lengths, windowSize: seq<nat>, before: seq<Pup>, regs: seq<nat>)
      requires Valid() && |windowSize| == |before| == |regs| == pups.Length
      requires algoRunFlag == interfaceState == 0
      requires forall k: nat :: k < pups.Length ==>
                 regs[k] == before[k].reg && Started(windowSize[k], before[k], pups[k])
      ensures InRound(hw, [], Searched(windowSize), regs)
    {
      hide Selects;
      var searched := Searched(windowSize);
      forall k: nat | k < pups.Length
        ensures PupInRound(hw, [], 0, active[k], searched[k], regs[k], k, pups[k])
        ensures HoldsLast(hw, [], active[k], k, pups[k])
        ensures searched[k] ==> pups[k].st == VREF_STEP_1
      {
        assert searched[k] ==> Before(Compared(hw, [], k), 0, regs[k], pups[k]);
      }
      assert Done(active, searched, pups[..]) == {};
    }

    lemma DoneIsBounded(searched: seq<bool>)
      requires Valid() && |searched| == pups.Length
      ensures |Done(active, searched, pups[..])| <= pups.Length
    {
      FewerThan(Done(active, searched, pups[..]), pups.Length);
    }

    /**
      The whole search always makes ten rounds. Every searched active pup has converged by then
      on the index that its compared windows decide, with the upper bits of its register kept;
      pups with a wide window keep their register, and inactive ones are left at index 0.
    */
    method Run(windowSize: seq<nat>, hw: Lengths) returns (rounds: nat)
      requires Valid() && |windowSize| == pups.Length && algoRunFlag == 0
      modifies pups, this
      ensures rounds == 10
      ensures forall k: nat :: k < pups.Length && windowSize[k] > 12 ==>
                pups[k].reg == old(pups[k].reg)
      ensures forall k: nat :: k < pups.Length && !active[k] && windowSize[k] <= 12 ==>
                Selects(old(pups[k].reg), pups[k].reg, 0)
      ensures var measured := Schedule(hw, active, Searched(windowSize), MAX_ROUNDS);
              forall k: nat :: k < pups.Length && active[k] && windowSize[k] <= 12 ==>
                && pups[k].st == VREF_CONVERGE
                && Selects(old(pups[k].reg), pups[k].reg, FinalIndex(Compared(hw, measured, k)))
    {
      hide PupInRound, HoldsLast, Selects, Schedule, Converged, Compared, Started;
      ghost var regs := seq(pups.Length, k requires 0 <= k < pups.Length reads pups => pups[k].reg);
      ghost var searched := Searched(windowSize);
      Start(windowSize);
      NothingDone(hw, windowSize, old(pups[..]), regs);
      ghost var m: seq<bool> := [];
      rounds := 0;
      while algoRunFlag <= pups.Length && rounds < MAX_ROUNDS
        invariant rounds == |m| <= MAX_ROUNDS && InRound(hw, m, searched, regs)
        decreases MAX_ROUNDS - rounds
      {
        Measure(hw, m, searched, regs, rounds);
        m := m + [|Converged(hw, active, searched, m)| != 4];
        Compare(hw, m, searched, regs);
        rounds := rounds + 1;
      }
      DoneIsBounded(searched);
      forall k: nat | k < pups.Length
        ensures !searched[k] ==> pups[k].reg == regs[k]
        ensures searched[k] && !active[k] ==> Selects(regs[k], pups[k].reg, 0)
        ensures searched[k] && active[k] ==>
                  pups[k].st == VREF_CONVERGE && Selects(regs[k], pups[k].reg, FinalIndex(Compared(hw, m, k)))
      {
        AfterTenRounds(hw, m, active[k], searched[k], regs[k], k, pups[k]);
      }
    }
  }
}
