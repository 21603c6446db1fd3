/**
  Centralization: the common window of all bits over all patterns, and its midpoint.

  For every pattern the training wrapper gives the two edges of each bit's window. A byte
  lane (bus) keeps the intersection of all windows; when the sweep is over, the midpoint
  is programmed and the window length recorded.
*/
module Centralization {
  import opened Common
  import Wrapper = TrainingWrapper

  const MIN_WINDOW_SIZE: nat := 6

  datatype Mode = CENTRAL_TX | CENTRAL_RX

  function MaxWindow(mode: Mode): nat {
    if mode.CENTRAL_TX? then 64 else 32
  }

  /** Written data is searched up to one period of 64 taps further. */
  function ConsTap(mode: Mode): nat {
    if mode.CENTRAL_TX? then 64 else 0
  }

  /** A bit's two edges (8-bit taps) and whether both searches locked. */
  datatype Edges = Edges(start: nat, end: nat, locked: bool)

  type Pattern = p: seq<Edges> | |p| == BITS && forall b :: 0 <= b < BITS ==> p[b].start <= 255 && p[b].end <= 255
    witness seq(8, _ => Edges(0, 0, false))

  /** State 0 is good, 1 failed, 2 and 3 mark short windows at the end or start of the range. */
  datatype Bus = Bus(state: nat, start: nat, end: nat)

  // ----- Specification -----

  ghost predicate AllLocked(p: Pattern) {
    forall b :: 0 <= b < BITS ==> p[b].locked
  }

  /** An unlocked pattern is still usable if every bit found its start but not its end. */
  ghost predicate IsFixable(p: Pattern) {
    forall b :: 0 <= b < BITS ==> p[b].start > 0 && p[b].end == 0
  }

  ghost predicate Contributes(p: Pattern) {
    AllLocked(p) || IsFixable(p)
  }

  /** The end edges that count: a usable unlocked pattern ends at the end of the range. */
  ghost function EndOf(mode: Mode, p: Pattern, b: nat): nat
    requires b < BITS
  {
    if AllLocked(p) then p[b].end else MaxWindow(mode) - 1
  }

  /** No pattern before q made the bus fail. */
  ghost predicate NoneFailed(ps: seq<Pattern>) {
    forall q :: 0 <= q < |ps| ==> Contributes(ps[q])
  }

  /** Pattern q takes part in the window; a failed bus still counts its locked patterns. */
  ghost predicate Counts(ps: seq<Pattern>, q: nat)
    requires q < |ps|
  {
    AllLocked(ps[q]) || NoneFailed(ps[..q + 1])
  }

  /** [s, e] is exactly the intersection of the windows that count, within the searched range. */
  ghost predicate IsIntersection(mode: Mode, ps: seq<Pattern>, s: nat, e: nat) {
    && (forall q, b :: 0 <= q < |ps| && 0 <= b < BITS && Counts(ps, q) ==>
          ps[q][b].start <= s && e <= EndOf(mode, ps[q], b))
    && (s == 0 || exists q, b :: 0 <= q < |ps| && 0 <= b < BITS && Counts(ps, q) && ps[q][b].start == s)
    && e <= MaxWindow(mode) - 1 + ConsTap(mode)
    && (e == MaxWindow(mode) - 1 + ConsTap(mode)
        || exists q, b :: 0 <= q < |ps| && 0 <= b < BITS && Counts(ps, q) && EndOf(mode, ps[q], b) == e)
  }

  /** A window is accepted when it is long enough or touches an end of the range. */
  predicate IsAccepted(mode: Mode, s: nat, e: nat) {
    || (e + 1 > s + MIN_WINDOW_SIZE && e + 1 < s + MaxWindow(mode))
    || (s == 0 && e != 0) || (s != MaxWindow(mode) - 1 && e == MaxWindow(mode) - 1)
  }

  ghost predicate Follows(mode: Mode, ps: seq<Pattern>, bus: Bus) {
    && bus.state == (if NoneFailed(ps) then 0 else 1)
    && IsIntersection(mode, ps, bus.start, bus.end)
  }

  // ----- The helpers over a byte -----

  method BufMin(buf: seq<nat>) returns (m: nat)
    requires |buf| == BITS && forall b :: 0 <= b < BITS ==> buf[b] <= 255
    ensures m in buf && forall b :: 0 <= b < BITS ==> m <= buf[b]
  {
    m := 0xff;
    for cnt := 0 to BITS
      invariant m == 0xff || m in buf
      invariant forall b :: 0 <= b < cnt ==> m <= buf[b]
    {
      if buf[cnt] < m {
        m := buf[cnt];
      }
    }
    assert m == 0xff ==> buf[0] == 0xff;
  }

  method BufMax(buf: seq<nat>) returns (m: nat)
    requires |buf| == BITS
    ensures m in buf && forall b :: 0 <= b < BITS ==> buf[b] <= m
  {
    m := 0;
    for cnt := 0 to BITS
      invariant m == 0 || m in buf
      invariant forall b :: 0 <= b < cnt ==> buf[b] <= m
    {
      if buf[cnt] > m {
        m := buf[cnt];
      }
    }
    assert m == 0 ==> buf[0] == 0;
  }

  method IsPupLock(p: Pattern) returns (all: bool)
    ensures all <==> AllLocked(p)
  {
    for b := 0 to BITS
      invariant forall j :: 0 <= j < b ==> p[j].locked
    {
      if !p[b].locked {
        return false;
      }
    }
    return true;
  }

  /** The fix-up of an unlocked pattern: the effective ends, or failure. */
  method FixEnds(mode: Mode, p: Pattern) returns (fixable: bool, ends: seq<nat>)
    requires !AllLocked(p)
    ensures fixable <==> IsFixable(p)
    ensures |ends| == BITS
    ensures fixable ==> forall b :: 0 <= b < BITS ==> ends[b] == EndOf(mode, p, b)
  {
    fixable := true;
    ends := seq(BITS, b requires 0 <= b < BITS => p[b].end);
    for b := 0 to BITS
      invariant |ends| == BITS
      invariant fixable <==> forall j :: 0 <= j < b ==> p[j].start > 0 && p[j].end == 0
      invariant fixable ==> forall j :: 0 <= j < b ==> ends[j] == MaxWindow(mode) - 1
    {
      if p[b].start > 0 && p[b].end == 0 {
        ends := ends[b := MaxWindow(mode) - 1];
      } else {
        fixable := false;
      }
    }
  }

  // ----- One pattern on one bus -----

  lemma CountsKept(ps: seq<Pattern>, p: Pattern, q: nat)
    requires q < |ps|
    ensures Counts(ps + [p], q) <==> Counts(ps, q)
  {
    assert (ps + [p])[..q + 1] == ps[..q + 1];
  }

  lemma CountsLast(ps: seq<Pattern>, p: Pattern)
    ensures NoneFailed(ps + [p]) <==> NoneFailed(ps) && Contributes(p)
    ensures Counts(ps + [p], |ps|) <==> AllLocked(p) || (NoneFailed(ps) && IsFixable(p))
  {
    var ps' := ps + [p];
    assert ps'[..|ps| + 1] == ps' && ps'[|ps|] == p;
    assert forall q :: 0 <= q < |ps| ==> ps'[q] == ps[q];
  }

  /** A pattern that does not count leaves the window as it is. */
  lemma IntersectionKept(mode: Mode, ps: seq<Pattern>, p: Pattern, s: nat, e: nat)
    requires IsIntersection(mode, ps, s, e) && !Counts(ps + [p], |ps|)
    ensures IsIntersection(mode, ps + [p], s, e)
  {
    hide Counts, EndOf;
    var ps' := ps + [p];
    forall q: nat | q < |ps|
      ensures Counts(ps', q) <==> Counts(ps, q)
    {
      CountsKept(ps, p, q);
    }
    assert forall q :: 0 <= q < |ps| ==> ps'[q] == ps[q];
  }

  /** One that counts narrows it to its own innermost edges. */
  lemma IntersectionNarrowed(mode: Mode, ps: seq<Pattern>, p: Pattern, s: nat, e: nat, maxStart: nat, minEnd: nat)
    requires IsIntersection(mode, ps, s, e) && Counts(ps + [p], |ps|)
    requires forall b :: 0 <= b < BITS ==> p[b].start <= maxStart && minEnd <= EndOf(mode, p, b)
    requires exists b :: 0 <= b < BITS && p[b].start == maxStart
    requires exists b :: 0 <= b < BITS && EndOf(mode, p, b) == minEnd
    ensures IsIntersection(mode, ps + [p], if s < maxStart then maxStart else s, if e < minEnd then e else minEnd)
  {
    hide Counts, EndOf;
    var ps' := ps + [p];
    forall q: nat | q < |ps|
      ensures Counts(ps', q) <==> Counts(ps, q)
    {
      CountsKept(ps, p, q);
    }
    assert ps'[|ps|] == p && forall q :: 0 <= q < |ps| ==> ps'[q] == ps[q];
  }

  method StepBus(mode: Mode, skipCheck: bool, ghost ps: seq<Pattern>, p: Pattern, bus0: Bus)
    returns (bus: Bus, failed: bool)
    requires Follows(mode, ps, bus0)
    ensures Follows(mode, ps + [p], bus)
    ensures failed <==> !skipCheck && Counts(ps + [p], |ps|) && !IsAccepted(mode, bus.start, bus.end)
  {
    hide IsIntersection, Counts, NoneFailed;
    bus, failed := bus0, false;
    CountsLast(ps, p);
    var starts := seq(BITS, b requires 0 <= b < BITS => p[b].start);
    var ends := seq(BITS, b requires 0 <= b < BITS => p[b].end);
    var locked := IsPupLock(p);
    if !locked {
      if bus.state == 1 {
        IntersectionKept(mode, ps, p, bus.start, bus.end);
        return;
      }
      var fixable;
      fixable, ends := FixEnds(mode, p);
      if !fixable {
        bus := bus.(state := 1);
        IntersectionKept(mode, ps, p, bus.start, bus.end);
        return;
      }
    }
    assert forall b :: 0 <= b < BITS ==> starts[b] == p[b].start && ends[b] == EndOf(mode, p, b);
    var curEndWinMin := BufMin(ends);
    var curStartWinMax := BufMax(starts);
    IntersectionNarrowed(mode, ps, p, bus.start, bus.end, curStartWinMax, curEndWinMin);
    bus := bus.(end := if bus.end < curEndWinMin then bus.end else curEndWinMin,
                start := if bus.start < curStartWinMax then curStartWinMax else bus.start);
    failed := !skipCheck && !IsAccepted(mode, bus.start, bus.end);
  }

  // ----- The recorded window length -----

  /** Recording a length keeps the bits above the field that is written, at offset 0 or 5. */
  function StoreTx(reg: bv32, len: bv32): bv32 { (reg & !0x1f) | len }
  function StoreRx(reg: bv32, len: bv32): bv32 { (reg & (!0x1f << 5)) | (len << 5) }

  /** The two lengths as they are read back. */
  function TxLength(reg: bv32): bv32 { reg & 0x1f }
  function RxLength(reg: bv32): bv32 { (reg >> 5) & 0x1f }

  lemma RxAfterStoreRx(reg: bv32, len: bv32)
    ensures RxLength(StoreRx(reg, len)) == len & 0x1f
  {
  }

  lemma TxAfterStoreTx(reg: bv32, len: bv32)
    ensures TxLength(StoreTx(reg, len)) == len & 0x1f
  {
  }

  lemma TxAfterStoreRx(reg: bv32, len: bv32)
    ensures TxLength(StoreRx(reg, len)) == 0
  {
  }

  lemma RxAfterStoreTx(reg: bv32, len: bv32)
    ensures RxLength(StoreTx(reg, len)) == RxLength(reg) | RxLength(len)
  {
  }

  lemma FitsField(x: bv32)
    ensures x & 0x1f == x <==> x < 32
  {
  }

  lemma NothingAdded(x: bv32, y: bv32)
    ensures x | y == x <==> y & !x == 0
  {
  }

  /**
    A length reads back exactly when it fits its five bits. Recording a read window clears the
    written one; recording a written window keeps the read one exactly when no bit of the
    length that spills into its field is new.
  */
  lemma LengthReadsBack(reg: bv32, len: bv32)
    ensures RxLength(StoreRx(reg, len)) == len <==> len < 32
    ensures TxLength(StoreTx(reg, len)) == len <==> len < 32
    ensures TxLength(StoreRx(reg, len)) == 0
    ensures RxLength(StoreTx(reg, len)) == RxLength(reg)
            <==> RxLength(len) & !RxLength(reg) == 0
  {
    hide StoreRx, StoreTx, RxLength, TxLength;
    RxAfterStoreRx(reg, len);
    TxAfterStoreTx(reg, len);
    TxAfterStoreRx(reg, len);
    RxAfterStoreTx(reg, len);
    FitsField(len);
    NothingAdded(RxLength(reg), RxLength(len));
  }

  /** The widest read window, all 32 taps, reads back as 0. */
  lemma FullWindowReadsAsZero(reg: bv32)
    ensures RxLength(StoreRx(reg, 32)) == 0
  {
  }

  function LengthBits(s: int, e: int): bv32 {
    ((e - s + 1) % 0x1_0000_0000) as bv32
  }

  // ----- The flow -----

  /** The programmed tap: the midpoint, minus the period for written data (8-bit arithmetic). */
  function Midpoint(mode: Mode, s: nat, e: nat): nat {
    ((s + e) / 2 - ConsTap(mode)) % 256
  }

  /** What is programmed for a bus that has not failed; a short window at the range's end is marked 2. */
  ghost predicate IsProgrammed(mode: Mode, skipCheck: bool, bus0: Bus, len0: bv32, bus: Bus, tap: nat, len: bv32) {
    && bus.start == bus0.start && bus.end == bus0.end
    && bus.state == (if !skipCheck && bus.end == MaxWindow(mode) - 1
                        && bus.start + 2 < bus.end < bus.start + MIN_WINDOW_SIZE
                     then 2 else bus0.state)
    && tap == Midpoint(mode, bus.start, bus.end)
    && len == (if mode.CENTRAL_TX? then StoreTx(len0, LengthBits(bus.start, bus.end))
               else StoreRx(len0, LengthBits(bus.start, bus.end)))
  }

  method ProgramBus(mode: Mode, skipCheck: bool, bus0: Bus, len0: bv32) returns (bus: Bus, tap: nat, len: bv32)
    requires bus0.state != 1
    ensures IsProgrammed(mode, skipCheck, bus0, len0, bus, tap, len)
  {
    hide StoreRx, StoreTx, LengthBits, Midpoint;
    bus := bus0;
    var s: int, e: int := bus.start, bus.end;
    if !skipCheck {
      if e == MaxWindow(mode) - 1 && e - s < MIN_WINDOW_SIZE && e - s > 2 {
        bus := bus.(state := 2);
      }
      if e == 0 && e - s < MIN_WINDOW_SIZE && e - s > 2 {
        // state 3 is never set: a window that ends at tap 0 cannot be longer than 2
        assert false;
      }
    }
    tap := Midpoint(mode, s, e);
    len := if mode.CENTRAL_TX? then StoreTx(len0, LengthBits(s, e)) else StoreRx(len0, LengthBits(s, e));
  }

  ghost predicate Centred(mode: Mode, skipCheck: bool, ps: seq<Pattern>, len0: bv32, bus: Bus, tap: nat, len: bv32) {
    && IsIntersection(mode, ps, bus.start, bus.end)
    && IsProgrammed(mode, skipCheck, Bus(0, bus.start, bus.end), len0, bus, tap, len)
  }

  lemma ProgrammedIsCentred(mode: Mode, skipCheck: bool, ps: seq<Pattern>, bus0: Bus, len0: bv32,
                            bus: Bus, tap: nat, len: bv32)
    requires Follows(mode, ps, bus0) && NoneFailed(ps)
    requires IsProgrammed(mode, skipCheck, bus0, len0, bus, tap, len)
    ensures Centred(mode, skipCheck, ps, len0, bus, tap, len)
  {
  }

  /** The patterns of one bus. */
  ghost function Column(hw: seq<seq<Pattern>>, k: nat): seq<Pattern>
    requires forall q :: 0 <= q < |hw| ==> k < |hw[q]|
  {
    seq(|hw|, q requires 0 <= q < |hw| => hw[q][k])
  }

  /** Every pattern that counts leaves an accepted window. */
  ghost predicate AlwaysAccepted(mode: Mode, ps: seq<Pattern>) {
    forall q, s: nat, e: nat :: 0 <= q < |ps| && Counts(ps, q) && IsIntersection(mode, ps[..q + 1], s, e) ==>
      IsAccepted(mode, s, e)
  }

  lemma FollowsAtStart(mode: Mode)
    ensures Follows(mode, [], Bus(0, 0, MaxWindow(mode) - 1 + ConsTap(mode)))
  {
  }

  lemma ColumnsAtStart(mode: Mode, hw: seq<seq<Pattern>>, n: nat)
    requires forall q :: 0 <= q < |hw| ==> |hw[q]| == n
    ensures forall j: nat :: j < n ==> Column(hw[..0], j) == [] && AlwaysAccepted(mode, Column(hw[..0], j))
  {
  }

  lemma ColumnGrows(hw: seq<seq<Pattern>>, q: nat, k: nat)
    requires q < |hw| && forall i :: 0 <= i < |hw| ==> k < |hw[i]|
    ensures Column(hw[..q + 1], k) == Column(hw[..q], k) + [hw[q][k]]
    ensures |Column(hw[..q], k)| == q
    ensures Column(hw, k)[..q + 1] == Column(hw[..q + 1], k)
  {
  }

  lemma CountsPrefix(ps: seq<Pattern>, q: nat, m: nat)
    requires q < m <= |ps|
    ensures Counts(ps[..m], q) <==> Counts(ps, q)
    ensures ps[..m][..q + 1] == ps[..q + 1]
  {
    assert ps[..m][..q + 1] == ps[..q + 1] && ps[..m][q] == ps[q];
  }

  lemma NotAccepted(mode: Mode, hw: seq<seq<Pattern>>, q: nat, k: nat, bus: Bus)
    requires q < |hw| && forall i :: 0 <= i < |hw| ==> k < |hw[i]|
    requires Follows(mode, Column(hw[..q + 1], k), bus)
    requires Counts(Column(hw[..q + 1], k), q) && !IsAccepted(mode, bus.start, bus.end)
    ensures !AlwaysAccepted(mode, Column(hw, k))
  {
    hide Counts, IsIntersection, NoneFailed, IsAccepted;
    ColumnGrows(hw, q, k);
    CountsPrefix(Column(hw, k), q, q + 1);
  }

  lemma IntersectionIsUnique(mode: Mode, ps: seq<Pattern>, s: nat, e: nat, s': nat, e': nat)
    requires IsIntersection(mode, ps, s, e) && IsIntersection(mode, ps, s', e')
    ensures s == s' && e == e'
  {
  }

  lemma AcceptedSoFar(mode: Mode, hw: seq<seq<Pattern>>, q: nat, k: nat, bus: Bus)
    requires q < |hw| && forall i :: 0 <= i < |hw| ==> k < |hw[i]|
    requires AlwaysAccepted(mode, Column(hw[..q], k))
    requires Follows(mode, Column(hw[..q + 1], k), bus)
    requires Counts(Column(hw[..q + 1], k), q) ==> IsAccepted(mode, bus.start, bus.end)
    ensures AlwaysAccepted(mode, Column(hw[..q + 1], k))
  {
    hide Counts, IsIntersection, NoneFailed, IsAccepted;
    ColumnGrows(hw, q, k);
    var ps, ps' := Column(hw[..q], k), Column(hw[..q + 1], k);
    assert ps'[..q] == ps && ps'[..q + 1] == ps';
    forall r, s: nat, e: nat | 0 <= r < |ps'| && Counts(ps', r) && IsIntersection(mode, ps'[..r + 1], s, e)
      ensures IsAccepted(mode, s, e)
    {
      if r < q {
        CountsPrefix(ps', r, q);
      } else {
        IntersectionIsUnique(mode, ps', s, e, bus.start, bus.end);
      }
    }
  }

  /** The end that counts in numbers: the bit's own tap, or the last tap of the range for a usable unlocked pattern. */
  lemma EndInNumbers(p: Pattern, b: nat)
    requires b < BITS && Contributes(p)
    ensures (forall j :: 0 <= j < BITS ==> p[j].locked) ==>
              EndOf(CENTRAL_RX, p, b) == EndOf(CENTRAL_TX, p, b) == p[b].end
    ensures (exists j :: 0 <= j < BITS && !p[j].locked) ==>
              p[b].start > 0 && p[b].end == 0 && EndOf(CENTRAL_RX, p, b) == 31 && EndOf(CENTRAL_TX, p, b) == 63
  {
  }

  /** Reading: a window is accepted with seven taps or more, or with two taps or more at an end of the range. */
  lemma AcceptedReading(s: nat, e: nat)
    requires e <= 31
    ensures IsAccepted(CENTRAL_RX, s, e) <==> s + 6 <= e || (s == 0 && 1 <= e) || (s != 31 && e == 31)
  {
  }

  /** Writing: it is accepted with 7 to 63 taps, with two taps or more from tap 0 on, or when it ends at tap 63. */
  lemma AcceptedWriting(s: nat, e: nat)
    ensures IsAccepted(CENTRAL_TX, s, e) <==>
              s + 6 <= e <= s + 62 || (s == 0 && 1 <= e) || (s != 63 && e == 63)
  {
  }

  /** The seven taps from t on lie in every bit's window of every pattern. */
  ghost predicate InCommonFrom(mode: Mode, ps: seq<Pattern>, t: nat) {
    forall q: nat, b: nat :: q < |ps| && b < BITS ==> ps[q][b].start <= t && t + 6 <= EndOf(mode, ps[q], b)
  }

  /** All taps lie in the searched range; a written window has less than 64 taps unless it starts at tap 0. */
  ghost predicate Ordinary(mode: Mode, ps: seq<Pattern>) {
    forall q: nat, b: nat :: q < |ps| && b < BITS ==>
      if mode.CENTRAL_RX? then ps[q][b].end <= 31
      else ps[q][b].end <= 127 && (ps[q][b].start == 0 || EndOf(mode, ps[q], b) < ps[q][b].start + 63)
  }

  lemma AcceptedAfter(mode: Mode, ps: seq<Pattern>, s: nat, e: nat, t: nat)
    requires ps != [] && InCommonFrom(mode, ps, t) && Ordinary(mode, ps) && IsIntersection(mode, ps, s, e)
    ensures IsAccepted(mode, s, e)
  {
    hide Counts, IsAccepted;
    assert t + 6 <= EndOf(mode, ps[0], 0) <= MaxWindow(mode) - 1 + ConsTap(mode);
    assert s <= t && t + 6 <= e;
    if s > 0 {
      var q, b :| 0 <= q < |ps| && 0 <= b < BITS && Counts(ps, q) && ps[q][b].start == s;
      assert e <= EndOf(mode, ps[q], b);
    }
    if mode.CENTRAL_RX? {
      AcceptedReading(s, e);
    } else {
      AcceptedWriting(s, e);
    }
  }

  lemma OrdinaryPrefix(mode: Mode, ps: seq<Pattern>, t: nat, m: nat)
    requires InCommonFrom(mode, ps, t) && Ordinary(mode, ps) && m <= |ps|
    ensures InCommonFrom(mode, ps[..m], t) && Ordinary(mode, ps[..m])
  {
    hide EndOf;
  }

  /** With seven taps in common, the window after every pattern is accepted. */
  lemma CommonTapsAreAccepted(mode: Mode, ps: seq<Pattern>, t: nat)
    requires InCommonFrom(mode, ps, t) && Ordinary(mode, ps)
    ensures AlwaysAccepted(mode, ps)
  {
    hide IsIntersection, Counts, IsAccepted, InCommonFrom, Ordinary;
    forall q, s: nat, e: nat | 0 <= q < |ps| && Counts(ps, q) && IsIntersection(mode, ps[..q + 1], s, e)
      ensures IsAccepted(mode, s, e)
    {
      OrdinaryPrefix(mode, ps, t, q + 1);
      AcceptedAfter(mode, ps[..q + 1], s, e, t);
    }
  }

  class Centralizer {
    const mode: Mode
    const active: seq<bool>
    const buses: array<Bus>
    var programmed: seq<nat>
    var lengths: seq<bv32>

    ghost predicate Valid()
      reads this
    {
      |active| == buses.Length == |programmed| == |lengths|
    }

    constructor (mode: Mode, active: seq<bool>, buses: array<Bus>, programmed: seq<nat>, lengths: seq<bv32>)
      requires |active| == buses.Length == |programmed| == |lengths|
      ensures Valid() && this.mode == mode && this.active == active && this.buses == buses
      ensures this.programmed == programmed && this.lengths == lengths
    {
      this.mode, this.active, this.buses, this.programmed, this.lengths := mode, active, buses, programmed, lengths;
    }

    /** The sweep over all patterns; it stops at the first window that is not accepted. */
    method Sweep(skipCheck: bool, hw: seq<seq<Pattern>>) returns (ok: bool)
      requires Valid() && forall q :: 0 <= q < |hw| ==> |hw[q]| == |active|
      modifies buses
      ensures ok ==> forall k: nat :: k < |active| && active[k] ==> Follows(mode, Column(hw, k), buses[k])
      ensures ok && !skipCheck ==> forall k: nat :: k < |active| && active[k] ==> AlwaysAccepted(mode, Column(hw, k))
      ensures !ok ==> !skipCheck
                      && exists k: nat :: k < |active| && active[k] && buses[k].state == 1
                                          && !AlwaysAccepted(mode, Column(hw, k))
      ensures forall k :: 0 <= k < |active| && !active[k] ==> buses[k] == old(buses[k])
    {
      hide Follows, AlwaysAccepted, Column;
      for k := 0 to |active|
        invariant forall j: nat :: j < k && active[j] ==> Follows(mode, [], buses[j])
        invariant forall j :: 0 <= j < |active| && !active[j] ==> buses[j] == old(buses[j])
      {
        if active[k] {
          buses[k] := Bus(0, 0, MaxWindow(mode) - 1 + ConsTap(mode));
          FollowsAtStart(mode);
        }
      }
      ColumnsAtStart(mode, hw, |active|);
      for q := 0 to |hw|
        invariant forall j: nat :: j < |active| && active[j] ==> Follows(mode, Column(hw[..q], j), buses[j])
        invariant !skipCheck ==> forall j: nat :: j < |active| && active[j] ==> AlwaysAccepted(mode, Column(hw[..q], j))
        invariant forall j :: 0 <= j < |active| && !active[j] ==> buses[j] == old(buses[j])
      {
        for k := 0 to |active|
          invariant forall j: nat :: k <= j < |active| && active[j] ==> Follows(mode, Column(hw[..q], j), buses[j])
          invariant forall j: nat :: j < k && active[j] ==> Follows(mode, Column(hw[..q + 1], j), buses[j])
          invariant !skipCheck ==>
                      forall j: nat :: k <= j < |active| && active[j] ==> AlwaysAccepted(mode, Column(hw[..q], j))
          invariant !skipCheck ==> forall j: nat :: j < k && active[j] ==> AlwaysAccepted(mode, Column(hw[..q + 1], j))
          invariant forall j :: 0 <= j < |active| && !active[j] ==> buses[j] == old(buses[j])
        {
          if active[k] {
            ColumnGrows(hw, q, k);
            var bus, failed := StepBus(mode, skipCheck, Column(hw[..q], k), hw[q][k], buses[k]);
            buses[k] := bus;
            if failed {
              NotAccepted(mode, hw, q, k, bus);
              buses[k] := bus.(state := 1);
              return false;
            }
            if !skipCheck {
              AcceptedSoFar(mode, hw, q, k, bus);
            }
          }
        }
      }
      assert hw[..|hw|] == hw;
      return true;
    }

    /** Programs the midpoint and records the length of every bus that has not failed. */
    method Program(skipCheck: bool) returns (ifFail: bool)
      requires Valid()
      modifies buses, this`programmed, this`lengths
      ensures Valid()
      ensures forall k: nat :: k < |active| ==>
                if active[k] && old(buses[k].state) != 1
                then IsProgrammed(mode, skipCheck, old(buses[k]), old(lengths[k]), buses[k], programmed[k], lengths[k])
                else buses[k] == old(buses[k]) && programmed[k] == old(programmed[k]) && lengths[k] == old(lengths[k])
      ensures ifFail <==> exists k: nat :: k < |active| && active[k] && old(buses[k].state) == 1
    {
      hide IsProgrammed;
      ifFail := false;
      for k := 0 to |active|
        invariant Valid()
        invariant forall j :: k <= j < |active| ==>
                    buses[j] == old(buses[j]) && programmed[j] == old(programmed[j]) && lengths[j] == old(lengths[j])
        invariant forall j: nat :: j < k ==>
                    if active[j] && old(buses[j].state) != 1
                    then IsProgrammed(mode, skipCheck, old(buses[j]), old(lengths[j]),
                                      buses[j], programmed[j], lengths[j])
                    else && buses[j] == old(buses[j])
                         && programmed[j] == old(programmed[j]) && lengths[j] == old(lengths[j])
        invariant ifFail <==> exists j: nat :: j < k && active[j] && old(buses[j].state) == 1
      {
        if active[k] {
          var bus := buses[k];
          if bus.state != 1 {
            var tap, len;
            bus, tap, len := ProgramBus(mode, skipCheck, bus, lengths[k]);
            programmed, lengths, buses[k] := programmed[k := tap], lengths[k := len], bus;
          } else {
            ifFail := true;
          }
        }
      }
    }

    /**
      The whole flow. Without an early exit, a bus fails exactly when some pattern neither locked
      nor was fixable on it; every other bus holds the exact intersection of all its patterns'
      windows, and its midpoint is programmed.
    */
    method Run(skipCheck: bool, hw: seq<seq<Pattern>>) returns (early: bool, ifFail: bool)
      requires Valid() && forall q :: 0 <= q < |hw| ==> |hw[q]| == |active|
      modifies buses, this`programmed, this`lengths
      ensures Valid()
      ensures early ==> !skipCheck && exists k: nat :: k < |active| && active[k] && !AlwaysAccepted(mode, Column(hw, k))
      ensures !early ==> forall k: nat :: k < |active| && active[k] ==>
                if NoneFailed(Column(hw, k))
                then Centred(mode, skipCheck, Column(hw, k), old(lengths[k]), buses[k], programmed[k], lengths[k])
                else buses[k].state == 1 && programmed[k] == old(programmed[k]) && lengths[k] == old(lengths[k])
      ensures !early ==> (ifFail <==> exists k: nat :: k < |active| && active[k] && !NoneFailed(Column(hw, k)))
      ensures !early && !skipCheck ==>
                forall k: nat :: k < |active| && active[k] ==> AlwaysAccepted(mode, Column(hw, k))
      ensures early ==> ifFail && programmed == old(programmed) && lengths == old(lengths)
      ensures (forall k: nat :: k < |active| && active[k] ==>
                 Ordinary(mode, Column(hw, k)) && exists t: nat :: InCommonFrom(mode, Column(hw, k), t)) ==> !early
    {
      hide IsIntersection, NoneFailed, AlwaysAccepted, Column, IsProgrammed, Centred, InCommonFrom, Ordinary;
      var ok := Sweep(skipCheck, hw);
      if !ok {
        ghost var k: nat :| k < |active| && active[k] && !AlwaysAccepted(mode, Column(hw, k));
        if Ordinary(mode, Column(hw, k)) && exists t: nat :: InCommonFrom(mode, Column(hw, k), t) {
          ghost var t: nat :| InCommonFrom(mode, Column(hw, k), t);
          CommonTapsAreAccepted(mode, Column(hw, k), t);
        }
        return true, true;
      }
      ghost var swept := buses[..];
      ifFail := Program(skipCheck);
      forall k: nat | k < |active| && active[k] && NoneFailed(Column(hw, k))
        ensures Centred(mode, skipCheck, Column(hw, k), old(lengths[k]), buses[k], programmed[k], lengths[k])
      {
        ProgrammedIsCentred(mode, skipCheck, Column(hw, k), swept[k], old(lengths[k]),
                            buses[k], programmed[k], lengths[k]);
      }
      early := false;
    }
  }

  // ----- What a good bus guarantees -----

  ghost predicate TapsInRange(mode: Mode, ps: seq<Pattern>) {
    forall q, b :: 0 <= q < |ps| && 0 <= b < BITS ==> ps[q][b].start < MaxWindow(mode) && ps[q][b].end < MaxWindow(mode)
  }

  lemma AllPatternsCount(ps: seq<Pattern>)
    requires NoneFailed(ps)
    ensures forall q: nat :: q < |ps| ==> Counts(ps, q)
  {
  }

  /**
    Reading: with the window check on, a bus that has not failed has a window of at least two
    taps, and the programmed tap lies in every bit's window of every pattern.
  */
  lemma ReadMidpointIsGood(ps: seq<Pattern>, len0: bv32, bus: Bus, tap: nat, len: bv32, q: nat, b: nat)
    requires NoneFailed(ps) && TapsInRange(CENTRAL_RX, ps) && AlwaysAccepted(CENTRAL_RX, ps)
    requires Centred(CENTRAL_RX, false, ps, len0, bus, tap, len)
    requires q < |ps| && b < BITS
    ensures bus.start < bus.end
    ensures tap == (bus.start + bus.end) / 2
    ensures ps[q][b].start <= bus.start <= tap <= bus.end <= EndOf(CENTRAL_RX, ps[q], b)
  {
    hide LengthBits, StoreRx, NoneFailed, Counts;
    AllPatternsCount(ps);
    assert ps[..|ps| - 1 + 1] == ps;
    assert Counts(ps, |ps| - 1) && IsAccepted(CENTRAL_RX, bus.start, bus.end);
  }

  /** The programmed tap in numbers: the midpoint when reading, 64 taps before it in 8 bits when writing. */
  lemma MidpointInNumbers(s: nat, e: nat)
    requires s <= 255 && e <= 255
    ensures 2 * Midpoint(CENTRAL_RX, s, e) <= s + e <= 2 * Midpoint(CENTRAL_RX, s, e) + 1
    ensures var tap := Midpoint(CENTRAL_TX, s, e);
            if s + e >= 128 then 2 * (tap + 64) <= s + e <= 2 * (tap + 64) + 1
            else 2 * (tap - 192) <= s + e <= 2 * (tap - 192) + 1
  {
  }

  /** What is recorded, in terms of the bits of the register: reading from bit 5 on, writing from bit 0 on. */
  lemma RecordedReading(reg: bv32, len: bv32)
    requires len < 32
    ensures StoreRx(reg, len) & 0x3ff == len << 5
    ensures StoreRx(reg, len) & 0xffff_fc00 == reg & 0xffff_fc00
  {
  }

  lemma RecordedWriting(reg: bv32, len: bv32)
    requires len < 32
    ensures StoreTx(reg, len) & 0x1f == len
    ensures StoreTx(reg, len) & 0xffff_ffe0 == reg & 0xffff_ffe0
  {
  }

  lemma LengthIsNumberOfTaps(s: nat, e: nat)
    requires s <= e + 1 && e < 0xffff_ffff
    ensures LengthBits(s, e) == (e - s + 1) as bv32
  {
  }

  /** A tap lies in the window of every bit of every pattern. */
  ghost predicate InAllWindows(mode: Mode, ps: seq<Pattern>, tap: nat) {
    forall q: nat, b: nat :: q < |ps| && b < BITS ==> ps[q][b].start <= tap <= EndOf(mode, ps[q], b)
  }

  lemma WholePeriods(x: int, n: int)
    ensures (x + 64 * n) % 64 == x % 64
  {
  }

  /** The programmed tap of written data is the midpoint modulo the period of 64 taps. */
  lemma MidpointModuloPeriod(s: nat, e: nat)
    ensures Midpoint(CENTRAL_TX, s, e) % 64 == ((s + e) / 2) % 64
  {
    var x: int := (s + e) / 2;
    var k := (x - 64) / 256;
    assert Midpoint(CENTRAL_TX, s, e) == x + 64 * (-1 - 4 * k);
    WholePeriods(x, -1 - 4 * k);
  }

  /** The midpoint of an intersection lies in all windows exactly when the intersection is not empty. */
  lemma MidpointOfIntersection(mode: Mode, ps: seq<Pattern>, s: nat, e: nat)
    requires NoneFailed(ps) && IsIntersection(mode, ps, s, e) && ps != []
    ensures InAllWindows(mode, ps, (s + e) / 2) <==> s <= e
  {
    hide NoneFailed, Counts, EndOf;
    AllPatternsCount(ps);
  }

  lemma StartInRange(mode: Mode, ps: seq<Pattern>, s: nat, e: nat)
    requires TapsInRange(mode, ps) && IsIntersection(mode, ps, s, e)
    ensures s < MaxWindow(mode)
  {
    hide Counts, EndOf;
  }

  /** With the check off, the midpoint lies in all windows exactly when they intersect. */
  lemma UncheckedMidpoint(ps: seq<Pattern>, len0: bv32, bus: Bus, tap: nat, len: bv32)
    requires NoneFailed(ps) && ps != [] && TapsInRange(CENTRAL_RX, ps)
    requires Centred(CENTRAL_RX, true, ps, len0, bus, tap, len)
    ensures bus.start <= bus.end <==> InAllWindows(CENTRAL_RX, ps, tap)
  {
    hide LengthBits, StoreRx, NoneFailed, Counts, IsIntersection;
    MidpointOfIntersection(CENTRAL_RX, ps, bus.start, bus.end);
    StartInRange(CENTRAL_RX, ps, bus.start, bus.end);
  }

  /**
    Writing: with the window check on, the midpoint of a bus that has not failed lies in every
    window, and modulo the period it is the programmed tap, exactly unless the window ends at tap
    63 and starts beyond it: the check for a window at the end of the range accepts that too.
  */
  lemma WriteMidpointIsGood(ps: seq<Pattern>, len0: bv32, bus: Bus, tap: nat, len: bv32)
    requires NoneFailed(ps) && ps != [] && AlwaysAccepted(CENTRAL_TX, ps)
    requires Centred(CENTRAL_TX, false, ps, len0, bus, tap, len)
    ensures tap % 64 == ((bus.start + bus.end) / 2) % 64
    ensures InAllWindows(CENTRAL_TX, ps, (bus.start + bus.end) / 2) <==> !(bus.end == 63 < bus.start)
  {
    hide LengthBits, StoreTx, NoneFailed, Counts, IsIntersection, Midpoint;
    AllPatternsCount(ps);
    assert ps[..|ps| - 1 + 1] == ps;
    assert Counts(ps, |ps| - 1) && IsAccepted(CENTRAL_TX, bus.start, bus.end);
    MidpointModuloPeriod(bus.start, bus.end);
    MidpointOfIntersection(CENTRAL_TX, ps, bus.start, bus.end);
  }

  /** One bit's window lies beyond tap 63, where those of the other bits end. */
  function Disjoint(): Pattern {
    seq(BITS, b => if b == 0 then Edges(70, 80, true) else Edges(40, 63, true))
  }

  /** These windows have no tap in common, and the check accepts them. */
  lemma DisjointWindowsAreAccepted()
    ensures NoneFailed([Disjoint()]) && AlwaysAccepted(CENTRAL_TX, [Disjoint()])
    ensures IsIntersection(CENTRAL_TX, [Disjoint()], 70, 63)
    ensures forall tap: nat :: !InAllWindows(CENTRAL_TX, [Disjoint()], tap)
  {
    var p := Disjoint();
    var ps := [p];
    assert AllLocked(p) && ps[..0 + 1] == ps && Counts(ps, 0);
    assert p[0].start == 70 && EndOf(CENTRAL_TX, p, 1) == 63;
    assert ps[0][0].start == 70 && EndOf(CENTRAL_TX, ps[0], 1) == 63;
    forall s: nat, e: nat | IsIntersection(CENTRAL_TX, ps, s, e)
      ensures s == 70 && e == 63
    {
      IntersectionIsUnique(CENTRAL_TX, ps, s, e, 70, 63);
    }
  }

  /** The edges that a byte's result words give to centralization. */
  function EdgesFrom(ws: seq<Wrapper.Words>): (es: seq<Edges>)
    ensures |es| == |ws|
  {
    seq(|ws|, b requires 0 <= b < |ws| =>
      Edges(Wrapper.Tap(ws[b].l2h), Wrapper.Tap(ws[b].h2l), Wrapper.BitLocked(ws[b])))
  }

  function LockedAt(start: nat, end: nat): Wrapper.Words {
    Wrapper.Words(Wrapper.TIP_ENG_LOCK + start, Wrapper.TIP_ENG_LOCK + end)
  }

  /** Search results of a byte with a low bit at taps 6 to 16 and high bits at taps 40 to 63. */
  function LowBesideHigh(): (ws: seq<Wrapper.Words>)
    ensures |ws| == BITS
  {
    seq(BITS, b => if b == 0 then LockedAt(6, 16) else LockedAt(40, 63))
  }

  /** Search results of a byte whose bits are all wrapped around. */
  function WrappedAround(): (ws: seq<Wrapper.Words>)
    ensures |ws| == BITS
  {
    seq(BITS, b => LockedAt(5, 60))
  }

  /** These words are locked, and what becomes of them in an alignment. */
  lemma ExampleWords()
    ensures Wrapper.BitLocked(LockedAt(6, 16)) && Wrapper.ClassOf(LockedAt(6, 16)) == Wrapper.Low
    ensures Wrapper.BitLocked(LockedAt(40, 63)) && Wrapper.ClassOf(LockedAt(40, 63)) == Wrapper.High
    ensures Wrapper.BitLocked(LockedAt(5, 60)) && Wrapper.ClassOf(LockedAt(5, 60)) == Wrapper.SplitOut
    ensures Wrapper.Up64(LockedAt(6, 16)) == LockedAt(70, 80) && Wrapper.BitLocked(LockedAt(70, 80))
  {
  }

  lemma AlignedExample(ml: seq<nat>, mh: seq<nat>)
    requires |ml| == |mh| == BITS
    ensures EdgesFrom(Wrapper.FinalWords(Wrapper.OPER_WRITE, LowBesideHigh(), ml, mh)) == Disjoint()
  {
    hide Wrapper.BitLocked, Wrapper.ClassOf, Wrapper.Up64, Wrapper.FinalWords;
    ExampleWords();
    var ws := LowBesideHigh();
    var centers := Wrapper.Centers(ws, ml, mh);
    assert centers[0] == 11 && centers[1] == 51;
    Wrapper.AlignedWithoutMiddleSearch(ws, ml, mh, 0, 1);
  }

  /**
    Disjoint windows do reach centralization: with a byte that has a wrapped-around bit beside it, the
    wrapper goes through without an unset pointer and aligns the first byte into exactly those edges.
  */
  lemma DisjointWindowsAreReached(ml: seq<seq<nat>>, mh: seq<seq<nat>>)
    requires |ml| == |mh| == 2 && forall s :: 0 <= s < 2 ==> |ml[s]| == |mh[s]| == BITS
    ensures !Wrapper.MeetsUnsetPointer(Wrapper.OPER_WRITE, [true, true],
                                               [LowBesideHigh(), WrappedAround()], ml, mh)
    ensures EdgesFrom(Wrapper.FinalWords(Wrapper.OPER_WRITE, LowBesideHigh(), ml[0], mh[0])) == Disjoint()
  {
    hide Wrapper.Tap, Wrapper.BitLocked, Wrapper.ClassOf, Wrapper.Up64, LockedAt;
    ExampleWords();
    var ws := WrappedAround();
    assert ws[0] == LockedAt(5, 60) && ws[..0 + 1] == [ws[0]] && Wrapper.AllBitsLocked(ws[..0 + 1]);
    assert Wrapper.ClassOf(ws[0]) == Wrapper.SplitOut && Wrapper.HasSplit(ws);
    var active, results := [true, true], [LowBesideHigh(), ws];
    assert active[1] && results[1] == ws;
    AlignedExample(ml[0], mh[0]);
  }
}
