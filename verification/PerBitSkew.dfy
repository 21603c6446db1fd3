/**
  Per-bit-skew calibration (PBS).

  A pup (byte lane) first shifts its ADLL to an edge where all bits fail (EBA). If a bit
  sits at the end of the range it retries with the DQS skew at its maximum (EEBA), and if
  that fails or a later skew search fails it searches from the other side (SBA). The skew
  search then gives one tap per bit, which is normalised to the smallest one.
*/
module PerBitSkew {
  import opened Common
  import AdllValues

  datatype Mode = PBS_TX_MODE | PBS_RX_MODE

  /** The five hardware searches, in the order in which a pup may need them. */
  datatype Stage = EBA | EEBA | SKEW | SBA_SHIFT | SBA_SKEW

  /** A training result register: the lock bit and the low bits that hold the tap. */
  datatype Result = Result(locked: bool, raw: nat)

  /** The result of a stage for a bit of the pup. */
  type Readings = (Stage, nat) -> Result

  function Tap(mode: Mode, r: Result): nat {
    if mode.PBS_RX_MODE? then r.raw % 32 else r.raw % 64
  }

  /** The tap at which the shift search cannot move the edge any further. */
  function EndOfRange(mode: Mode): nat {
    if mode.PBS_RX_MODE? then 0x1f else 0
  }

  /** The searches end in a pass; one tap further is the fail (32-bit arithmetic). */
  function OneTapFurther(mode: Mode, tap: nat): nat {
    if mode.PBS_RX_MODE? then tap + 1 else (tap - 1) % 0x1_0000_0000
  }

  /** 4-EEBA, 3-EBA, 2-SBA, 1-fail */
  datatype Pup = Pup(state: nat, lock: nat, shiftVal: nat, maxAdll: nat, minAdll: nat,
                     maxPbs: nat, minPbs: nat, bits: seq<nat>, mat: seq<nat>)

  // ----- Specification -----

  ghost predicate AllLocked(hw: Readings, stage: Stage) {
    forall b: nat :: b < BITS ==> hw(stage, b).locked
  }

  /** Bit b is usable for a shift: its search locked before the end of the range. */
  predicate Shiftable(mode: Mode, hw: Readings, stage: Stage, b: nat) {
    hw(stage, b).locked && Tap(mode, hw(stage, b)) != EndOfRange(mode)
  }

  ghost predicate AllShiftable(mode: Mode, hw: Readings, stage: Stage) {
    forall b: nat :: b < BITS ==> Shiftable(mode, hw, stage, b)
  }

  /** The bits below n are usable, and n is the first that is not. */
  ghost predicate FirstUnusable(mode: Mode, hw: Readings, stage: Stage, n: nat) {
    !Shiftable(mode, hw, stage, n) && forall j: nat :: j < n ==> Shiftable(mode, hw, stage, j)
  }

  /** The first bit that is not usable in EBA did not lock at all. */
  ghost predicate EbaBroken(mode: Mode, hw: Readings) {
    exists b: nat :: b < BITS && FirstUnusable(mode, hw, EBA, b) && !hw(EBA, b).locked
  }

  /** The state after the two edge shifts. */
  ghost function ShiftState(mode: Mode, hw: Readings): nat {
    if AllShiftable(mode, hw, EBA) then 3
    else if EbaBroken(mode, hw) then 1
    else if AllShiftable(mode, hw, EEBA) then 4
    else 2
  }

  /** The final state is decided by the readings alone. */
  ghost function FinalState(mode: Mode, hw: Readings): nat {
    var s := ShiftState(mode, hw);
    if s >= 3 && AllLocked(hw, SKEW) then s
    else if s == 1 || !AllLocked(hw, SBA_SHIFT) then 1
    else 2
  }

  /** The skew tap of a bit that counts for a pup in its final state. */
  ghost function SkewTap(mode: Mode, hw: Readings, state: nat, b: nat): nat {
    if state >= 3 then Tap(mode, hw(SKEW, b))
    else if hw(SBA_SKEW, b).locked then Tap(mode, hw(SBA_SKEW, b))
    else 0x1f
  }

  /** The taps that a shift search leads to, one tap further than where each bit locked. */
  ghost function ShiftTaps(mode: Mode, hw: Readings, stage: Stage, n: nat): seq<nat> {
    seq<nat>(n, (b: nat) => OneTapFurther(mode, Tap(mode, hw(stage, b))))
  }

  ghost predicate IsMax(m: nat, s: seq<nat>) {
    (forall b :: 0 <= b < |s| ==> s[b] <= m) && (m == 0 || m in s)
  }

  ghost predicate IsMin(m: nat, top: nat, s: seq<nat>) {
    m <= top && (forall b :: 0 <= b < |s| ==> m <= s[b]) && (m == top || m in s)
  }

  lemma IsMaxAppend(m: nat, s: seq<nat>, x: nat)
    requires IsMax(m, s)
    ensures IsMax(if m < x then x else m, s + [x])
  {
  }

  lemma IsMinAppend(m: nat, top: nat, s: seq<nat>, x: nat)
    requires IsMin(m, top, s)
    ensures IsMin(if x > m then m else x, top, s + [x])
  {
  }

  /**
    The ADLL extremes of a shift search, and the shift they give: past the last passing bit when
    reading, before the first one when writing. (A written tap 0 wraps around and spoils the maximum.)
  */
  ghost predicate IsShift(mode: Mode, hw: Readings, stage: Stage, top: nat, n: nat, p: Pup) {
    var taps := ShiftTaps(mode, hw, stage, n);
    && IsMin(p.minAdll, top, taps)
    && ((forall x :: x in taps ==> x <= 255) ==> IsMax(p.maxAdll, taps))
    && (n > 0 ==> p.shiftVal == if mode.PBS_RX_MODE? then p.maxAdll else p.minAdll)
  }

  function ShiftTop(mode: Mode): nat {
    if mode.PBS_RX_MODE? then 0x1f else 0x3f
  }

  // ----- One pup through the stages -----

  /** Folds a shift tap into the running extremes. */
  function Fold(mode: Mode, p: Pup, res: nat): Pup {
    var maxAdll := if p.maxAdll < res then res % 256 else p.maxAdll;
    var minAdll := if res > p.minAdll then p.minAdll else res % 256;
    p.(maxAdll := maxAdll, minAdll := minAdll, shiftVal := if mode.PBS_RX_MODE? then maxAdll else minAdll)
  }

  lemma FoldStep(mode: Mode, hw: Readings, stage: Stage, top: nat, n: nat, p: Pup)
    requires IsShift(mode, hw, stage, top, n, p) && top <= 255
    ensures IsShift(mode, hw, stage, top, n + 1, Fold(mode, p, OneTapFurther(mode, Tap(mode, hw(stage, n)))))
  {
    hide OneTapFurther, Tap;
    var res := OneTapFurther(mode, Tap(mode, hw(stage, n)));
    var taps := ShiftTaps(mode, hw, stage, n);
    assert ShiftTaps(mode, hw, stage, n + 1) == taps + [res];
    IsMinAppend(p.minAdll, top, taps, res);
    if forall x :: x in taps + [res] ==> x <= 255 {
      assert forall x :: x in taps ==> x in taps + [res];
      IsMaxAppend(p.maxAdll, taps, res);
      assert res in taps + [res];
    }
  }

  /** Only the search fields of a pup differ. */
  ghost predicate SameSkew(p: Pup, p': Pup) {
    p.maxPbs == p'.maxPbs && p.minPbs == p'.minPbs && p.bits == p'.bits && p.mat == p'.mat
  }

  lemma BrokenAtFirst(mode: Mode, hw: Readings, first: nat)
    requires first < BITS && FirstUnusable(mode, hw, EBA, first)
    ensures !AllShiftable(mode, hw, EBA)
    ensures EbaBroken(mode, hw) <==> !hw(EBA, first).locked
  {
  }

  method EbaPup(mode: Mode, hw: Readings, p0: Pup) returns (p: Pup)
    ensures p.state == if AllShiftable(mode, hw, EBA) then 3 else if EbaBroken(mode, hw) then 1 else 4
    ensures p.lock == if p.state == 3 then 1 else 0
    ensures p.state == 3 ==> IsShift(mode, hw, EBA, ShiftTop(mode), BITS, p)
    ensures SameSkew(p0, p)
  {
    p := p0.(minAdll := ShiftTop(mode), state := 3, lock := 1, maxAdll := 0);
    ghost var first: nat := BITS;
    var bit := 0;
    while bit < BITS
      invariant bit <= BITS
      invariant p.state == 3 ==> IsShift(mode, hw, EBA, ShiftTop(mode), bit, p)
      invariant p.state == 3 ==> forall j: nat :: j < bit ==> Shiftable(mode, hw, EBA, j)
      invariant p.state != 3 ==> first < bit && FirstUnusable(mode, hw, EBA, first)
      invariant p.state != 3 ==> p.state == if hw(EBA, first).locked then 4 else 1
      invariant p.lock == if p.state == 3 then 1 else 0
      invariant SameSkew(p0, p)
    {
      if p.state == 3 {
        var r := hw(EBA, bit);
        if !r.locked {
          p, first := p.(state := 1, lock := 0), bit;
        } else if Tap(mode, r) == EndOfRange(mode) {
          p, first := p.(state := 4, lock := 0), bit;
        } else {
          FoldStep(mode, hw, EBA, ShiftTop(mode), bit, p);
          p := Fold(mode, p, OneTapFurther(mode, Tap(mode, r)));
        }
      }
      bit := bit + 1;
    }
    if p.state != 3 {
      BrokenAtFirst(mode, hw, first);
    }
  }

  method EebaPup(mode: Mode, hw: Readings, p0: Pup) returns (p: Pup)
    requires p0.state == 4 && p0.lock == 0
    ensures p.state == if AllShiftable(mode, hw, EEBA) then 4 else 2
    ensures p.lock == if p.state == 4 then 1 else 0
    ensures p.state == 4 ==> IsShift(mode, hw, EEBA, ShiftTop(mode), BITS, p)
    ensures SameSkew(p0, p)
  {
    p := p0.(shiftVal := 0, minAdll := ShiftTop(mode), maxAdll := 0);
    var bit := 0;
    while bit < BITS
      invariant bit <= BITS + 1 && (bit == BITS + 1 ==> p.state == 2)
      invariant p.state == 4 ==> IsShift(mode, hw, EEBA, ShiftTop(mode), bit, p)
      invariant p.state == 4 ==> forall j: nat :: j < bit ==> Shiftable(mode, hw, EEBA, j)
      invariant p.state == 4 ==> p.lock == if bit > 0 then 1 else 0
      invariant p.state != 4 ==> p.state == 2 && p.lock == 0 && bit > BITS && !AllShiftable(mode, hw, EEBA)
      invariant SameSkew(p0, p)
    {
      var r := hw(EEBA, bit);
      if !r.locked || Tap(mode, r) == EndOfRange(mode) {
        assert !Shiftable(mode, hw, EEBA, bit);
        bit := BITS;
        p := p.(state := 2, lock := 0);
      } else {
        p := p.(lock := 1);
        FoldStep(mode, hw, EEBA, ShiftTop(mode), bit, p);
        p := Fold(mode, p, OneTapFurther(mode, Tap(mode, r)));
      }
      bit := bit + 1;
    }
  }

  /** The skew extremes cover the bits read so far. */
  ghost predicate Covers(p: Pup, n: nat) {
    && |p.bits| == BITS && n <= BITS
    && IsMax(p.maxPbs, p.bits[..n]) && IsMin(p.minPbs, 0x1f, p.bits[..n])
  }

  lemma NothingCovered(p: Pup)
    requires |p.bits| == BITS
    ensures p.maxPbs == 0 && p.minPbs == 0x1f ==> Covers(p, 0)
  {
  }

  /** Records a skew tap. */
  function Record(p: Pup, bit: nat, tap: nat): Pup
    requires bit < |p.bits|
  {
    p.(maxPbs := if tap > p.maxPbs then tap else p.maxPbs,
       minPbs := if tap < p.minPbs then tap else p.minPbs,
       bits := p.bits[bit := tap])
  }

  lemma RecordCovers(p: Pup, bit: nat, tap: nat)
    requires bit < BITS && Covers(p, bit)
    ensures Covers(Record(p, bit, tap), bit + 1)
  {
    assert Record(p, bit, tap).bits[..bit + 1] == p.bits[..bit] + [tap];
    IsMaxAppend(p.maxPbs, p.bits[..bit], tap);
    IsMinAppend(p.minPbs, 0x1f, p.bits[..bit], tap);
  }

  method SkewPup(mode: Mode, hw: Readings, p0: Pup) returns (p: Pup)
    requires p0.lock == 1 && (p0.state == 3 || p0.state == 4)
    requires |p0.bits| == BITS && p0.maxPbs == 0 && p0.minPbs == 0x1f
    ensures if AllLocked(hw, SKEW)
            then p.state == p0.state && p.lock == 1 && Covers(p, BITS)
                 && (forall b: nat :: b < BITS ==> p.bits[b] == Tap(mode, hw(SKEW, b)))
            else p.state == 2 && p.lock == 0 && p.maxPbs == 0 && p.minPbs == 0x1f
    ensures |p.bits| == BITS
    ensures p.shiftVal == p0.shiftVal && p.mat == p0.mat
  {
    hide IsMax, IsMin, Tap;
    NothingCovered(p0);
    p := p0;
    var bit := 0;
    while bit < BITS
      invariant bit <= BITS + 1 && (bit == BITS + 1 ==> p.state == 2)
      invariant p.shiftVal == p0.shiftVal && p.mat == p0.mat && |p.bits| == BITS
      invariant p.state == p0.state ==> p.lock == 1 && Covers(p, bit)
      invariant p.state == p0.state ==>
                  forall b: nat :: b < bit ==> hw(SKEW, b).locked && p.bits[b] == Tap(mode, hw(SKEW, b))
      invariant p.state != p0.state ==>
                  && p.state == 2 && p.lock == 0 && p.maxPbs == 0 && p.minPbs == 0x1f
                  && bit > BITS && !AllLocked(hw, SKEW)
    {
      var r := hw(SKEW, bit);
      if !r.locked {
        bit := BITS;
        p := p.(lock := 0, state := 2, maxPbs := 0, minPbs := 0x1f);
      } else {
        RecordCovers(p, bit, Tap(mode, r));
        p := Record(p, bit, Tap(mode, r));
      }
      bit := bit + 1;
    }
  }

  /** The shift from the other side counts the locked bits; all eight make a lock, one missing makes the pup fail. */
  method SbaShiftPup(mode: Mode, hw: Readings, p0: Pup) returns (p: Pup)
    ensures if AllLocked(hw, SBA_SHIFT) then p.state == p0.state && p.lock == 1 else p.state == 1 && p.lock == 0
    ensures AllLocked(hw, SBA_SHIFT) ==> IsShift(mode, hw, SBA_SHIFT, 0x1f, BITS, p)
    ensures SameSkew(p0, p)
  {
    p := p0.(lock := 0, shiftVal := 0, minAdll := 0x1f, maxAdll := 0);
    var bit := 0;
    while bit < BITS
      invariant bit <= BITS + 1
      invariant bit <= BITS ==>
                  && p.state == p0.state && p.lock == bit && IsShift(mode, hw, SBA_SHIFT, 0x1f, bit, p)
                  && forall b: nat :: b < bit ==> hw(SBA_SHIFT, b).locked
      invariant bit > BITS ==> p.state == 1 && p.lock < BITS && !AllLocked(hw, SBA_SHIFT)
      invariant SameSkew(p0, p)
    {
      var r := hw(SBA_SHIFT, bit);
      if !r.locked {
        bit := BITS;
        p := p.(state := 1);
      } else {
        p := p.(lock := p.lock + 1);
        FoldStep(mode, hw, SBA_SHIFT, 0x1f, bit, p);
        p := Fold(mode, p, OneTapFurther(mode, Tap(mode, r)));
      }
      bit := bit + 1;
    }
    p := p.(lock := if p.lock == BITS then 1 else 0);
  }

  /** The recorded minimum covers the bits read so far. */
  ghost predicate MinCovers(p: Pup, n: nat) {
    |p.bits| == BITS && n <= BITS && IsMin(p.minPbs, 0x1f, p.bits[..n])
  }

  lemma MinCoversMore(p: Pup, bit: nat, tap: nat, p': Pup)
    requires bit < BITS && MinCovers(p, bit) && p'.bits == p.bits[bit := tap]
    requires p'.minPbs == if tap < p.minPbs then tap else p.minPbs
    ensures MinCovers(p', bit + 1)
  {
    assert p'.bits[..bit + 1] == p.bits[..bit] + [tap];
    IsMinAppend(p.minPbs, 0x1f, p.bits[..bit], tap);
  }

  lemma NothingBelow(p: Pup)
    requires |p.bits| == BITS && p.minPbs == 0x1f
    ensures MinCovers(p, 0)
  {
  }

  /** The maximum that SBA records: a bit without lock resets it to 0x1f. */
  ghost function SbaMax(mode: Mode, hw: Readings, n: nat): nat {
    if n == 0 then 0
    else
      var m := SbaMax(mode, hw, n - 1);
      if !hw(SBA_SKEW, n - 1).locked then 0x1f
      else if Tap(mode, hw(SBA_SKEW, n - 1)) > m then Tap(mode, hw(SBA_SKEW, n - 1)) else m
  }

  method SbaSkewPup(mode: Mode, hw: Readings, p0: Pup) returns (p: Pup)
    requires |p0.bits| == BITS
    requires p0.state == 2 ==> p0.lock == 1 && p0.maxPbs == 0 && p0.minPbs == 0x1f
    ensures p0.state != 2 ==> p == p0
    ensures p0.state == 2 ==> p.state == 2 && p.lock == 1 && |p.bits| == BITS
    ensures p0.state == 2 ==> forall b: nat :: b < BITS ==> p.bits[b] == SkewTap(mode, hw, 2, b)
    ensures p0.state == 2 ==> MinCovers(p, BITS) && p.maxPbs == SbaMax(mode, hw, BITS)
    ensures p.shiftVal == p0.shiftVal && p.mat == p0.mat
  {
    hide MinCovers, Tap;
    if p0.state == 2 {
      NothingBelow(p0);
    }
    p := p0;
    var bit := 0;
    while bit < BITS
      invariant bit <= BITS + 1 && (bit == BITS + 1 ==> p0.state != 2)
      invariant p0.state != 2 ==> p == p0
      invariant |p.bits| == BITS && p.shiftVal == p0.shiftVal && p.mat == p0.mat
      invariant p0.state == 2 ==> p.state == 2 && p.lock == 1 && p.minPbs <= 0x1f
      invariant p0.state == 2 ==> forall b: nat :: b < bit ==> p.bits[b] == SkewTap(mode, hw, 2, b)
      invariant p0.state == 2 ==> MinCovers(p, bit) && p.maxPbs == SbaMax(mode, hw, bit)
    {
      var r := hw(SBA_SKEW, bit);
      if p.state != 2 {
        bit := BITS;
      } else {
        ghost var before := p;
        if !r.locked {
          p := p.(maxPbs := 0x1f, bits := p.bits[bit := 0x1f]);
          MinCoversMore(before, bit, 0x1f, p);
        } else {
          p := Record(p, bit, Tap(mode, r)).(lock := 1);
          MinCoversMore(before, bit, Tap(mode, r), p);
        }
      }
      bit := bit + 1;
    }
  }

  /** The normalised skews: relative to the smallest tap (8-bit arithmetic), or 0 without lock. */
  method NormPup(p0: Pup) returns (p: Pup)
    requires |p0.bits| == BITS && |p0.mat| == BITS
    ensures p == p0.(mat := p.mat, maxPbs := p.maxPbs, minPbs := p.minPbs) && |p.mat| == BITS
    ensures p.lock == 1 ==>
              && p.minPbs == p0.minPbs && p.maxPbs == p0.maxPbs
              && forall b: nat :: b < BITS ==> p.mat[b] == (p.bits[b] - p.minPbs) % 256
    ensures p.lock != 1 ==> p.minPbs == p.maxPbs == 0 && forall b: nat :: b < BITS ==> p.mat[b] == 0
  {
    p := p0;
    var bit := 0;
    while bit < BITS
      invariant bit <= BITS && |p.mat| == BITS
      invariant p == p0.(mat := p.mat, maxPbs := p.maxPbs, minPbs := p.minPbs)
      invariant p.lock == 1 ==> p.minPbs == p0.minPbs && p.maxPbs == p0.maxPbs
      invariant p.lock == 1 ==> forall b: nat :: b < bit ==> p.mat[b] == (p.bits[b] - p.minPbs) % 256
      invariant p.lock != 1 ==> bit > 0 ==> p.minPbs == p.maxPbs == 0
      invariant p.lock != 1 ==> forall b: nat :: b < bit ==> p.mat[b] == 0
    {
      if p.lock != 1 {
        p := p.(mat := p.mat[bit := 0], maxPbs := 0, minPbs := 0);
      } else {
        p := p.(mat := p.mat[bit := (p.bits[bit] - p.minPbs) % 256]);
      }
      bit := bit + 1;
    }
  }

  // ----- The stages of all pups -----

  ghost predicate AfterShift(mode: Mode, hw: Readings, p: Pup) {
    && p.state == ShiftState(mode, hw)
    && p.lock == (if p.state >= 3 then 1 else 0)
    && (p.state >= 3 ==> IsShift(mode, hw, if p.state == 3 then EBA else EEBA, ShiftTop(mode), BITS, p))
    && |p.mat| == BITS
  }

  ghost predicate Reset(p: Pup) {
    p.maxPbs == 0 && p.minPbs == 0x1f && p.bits == seq(BITS, _ => 0)
  }

  /** After the skew search, a pup is done or waits for SBA with its extremes reset. */
  ghost predicate AfterSkew(mode: Mode, hw: Readings, p: Pup) {
    var s := ShiftState(mode, hw);
    && |p.mat| == BITS && |p.bits| == BITS
    && if s >= 3 && AllLocked(hw, SKEW)
       then p.state == s && p.lock == 1 && Covers(p, BITS)
            && forall b: nat :: b < BITS ==> p.bits[b] == SkewTap(mode, hw, s, b)
       else p.state == (if s == 1 then 1 else 2) && p.lock == 0 && p.maxPbs == 0 && p.minPbs == 0x1f
            && (s == 1 ==> Reset(p))
  }

  ghost predicate AfterSba(mode: Mode, hw: Readings, p: Pup) {
    && |p.mat| == BITS && |p.bits| == BITS
    && p.state == FinalState(mode, hw)
    && (p.state >= 2 ==> p.lock == 1 && forall b: nat :: b < BITS ==> p.bits[b] == SkewTap(mode, hw, p.state, b))
    && (p.state == 2 ==> MinCovers(p, BITS) && p.maxPbs == SbaMax(mode, hw, BITS))
    && (p.state >= 3 ==> Covers(p, BITS))
    && (p.state == 1 ==> p.lock == (if AllLocked(hw, SBA_SHIFT) then 1 else 0) && (p.lock == 1 ==> Reset(p)))
  }

  /** An SBA bit whose tap lies above 0x1f and that is followed by a bit without lock is followed by a wider one. */
  ghost predicate MaxKept(mode: Mode, hw: Readings, state: nat) {
    state >= 3
    || forall b: nat, u: nat :: b < u < BITS && !hw(SBA_SKEW, u).locked && SkewTap(mode, hw, 2, b) > 0x1f ==>
         exists b': nat :: u < b' < BITS && SkewTap(mode, hw, 2, b') >= SkewTap(mode, hw, 2, b)
  }

  /**
    A calibrated pup. In the states 2 to 4 the normalised skews are the distances of the bits'
    taps from the recorded minimum. Its search starts at 0x1f, so one of them is 0 exactly when
    some tap is not above that; the recorded maximum covers the bits exactly when SBA kept it. A
    failed pup has skews 0, unless its SBA shift locked: then the reset values 0 and 0x1f are
    subtracted in 8 bits.
  */
  ghost predicate Calibrated(mode: Mode, hw: Readings, p: Pup) {
    && |p.mat| == BITS
    && p.state == FinalState(mode, hw)
    && (p.state == 1 ==> p.lock == if AllLocked(hw, SBA_SHIFT) then 1 else 0)
    && (p.state == 1 ==> p.maxPbs == 0 && p.minPbs == if AllLocked(hw, SBA_SHIFT) then 0x1f else 0)
    && (p.state == 1 ==> forall b: nat :: b < BITS ==> p.mat[b] == if AllLocked(hw, SBA_SHIFT) then 225 else 0)
    && (p.state >= 2 ==>
          && p.lock == 1 && p.minPbs <= 0x1f && p.maxPbs <= 0x3f
          && (forall b: nat :: b < BITS ==> p.mat[b] + p.minPbs == SkewTap(mode, hw, p.state, b))
          && ((exists b: nat :: b < BITS && p.mat[b] == 0)
              <==> (exists b: nat :: b < BITS && SkewTap(mode, hw, p.state, b) <= 0x1f))
          && ((forall b: nat :: b < BITS ==> SkewTap(mode, hw, p.state, b) <= p.maxPbs)
              <==> MaxKept(mode, hw, p.state))
          && (exists b: nat :: b < BITS && SkewTap(mode, hw, p.state, b) == p.maxPbs))
  }

  /** Every pup ends in one of the four states. */
  lemma FinalStates(mode: Mode, hw: Readings)
    ensures 1 <= FinalState(mode, hw) <= 4
  {
  }

  lemma SkewTapsBounded(mode: Mode, hw: Readings, state: nat)
    ensures forall b: nat :: b < BITS ==> SkewTap(mode, hw, state, b) <= 0x3f
  {
  }

  /** All normalised skews are distances from the recorded minimum; one is 0 exactly when some tap is at most 0x1f. */
  lemma SmallestIsZero(p0: Pup, p: Pup)
    requires MinCovers(p0, BITS) && p.bits == p0.bits && |p.mat| == BITS && p.minPbs == p0.minPbs
    requires forall b: nat :: b < BITS ==> p.bits[b] <= 0x3f
    requires forall b: nat :: b < BITS ==> p.mat[b] == (p.bits[b] - p.minPbs) % 256
    ensures p.minPbs <= 0x1f && forall b: nat :: b < BITS ==> p.mat[b] + p.minPbs == p.bits[b]
    ensures (exists b: nat :: b < BITS && p.mat[b] == 0) <==> (exists b: nat :: b < BITS && p.bits[b] <= 0x1f)
  {
    assert p0.bits[..BITS] == p.bits;
    if z: nat :| z < BITS && p.bits[z] <= 0x1f {
      assert p.minPbs == 0x1f ==> p.bits[z] == p.minPbs;
      var y: nat :| y < BITS && p.bits[y] == p.minPbs;
      assert p.mat[y] == 0;
    }
  }

  /** Bit b of the first n is not followed by one without lock. */
  ghost predicate NoResetAfter(hw: Readings, n: nat, b: nat) {
    b < n && forall u: nat :: b < u < n ==> hw(SBA_SKEW, u).locked
  }

  /** The recorded maximum is the largest tap from the last bit without lock on, or 0 if there is none at all. */
  lemma {:induction false} SbaMaxCovers(mode: Mode, hw: Readings, n: nat)
    ensures forall b: nat :: NoResetAfter(hw, n, b) ==> SkewTap(mode, hw, 2, b) <= SbaMax(mode, hw, n)
    ensures n > 0 ==> exists b: nat :: NoResetAfter(hw, n, b) && SkewTap(mode, hw, 2, b) == SbaMax(mode, hw, n)
  {
    hide Tap;
    if n > 0 {
      SbaMaxCovers(mode, hw, n - 1);
      var k := n - 1;
      assert NoResetAfter(hw, n, k);
      assert forall b: nat :: b < k && NoResetAfter(hw, n, b) <==> hw(SBA_SKEW, k).locked && NoResetAfter(hw, k, b);
      if k > 0 && hw(SBA_SKEW, k).locked {
        var b: nat :| NoResetAfter(hw, k, b) && SkewTap(mode, hw, 2, b) == SbaMax(mode, hw, k);
        assert NoResetAfter(hw, n, b);
      }
    }
  }

  /** The last bit without lock among those after b. */
  lemma LastReset(hw: Readings, b: nat, u: nat) returns (last: nat)
    requires b < u < BITS && !hw(SBA_SKEW, u).locked
    ensures b < last < BITS && !hw(SBA_SKEW, last).locked && NoResetAfter(hw, BITS, last)
  {
    last := u;
    while !NoResetAfter(hw, BITS, last)
      invariant b < last < BITS && !hw(SBA_SKEW, last).locked
      decreases BITS - last
    {
      var later: nat :| last < later < BITS && !hw(SBA_SKEW, later).locked;
      last := later;
    }
  }

  lemma ResetTap(mode: Mode, hw: Readings, u: nat)
    requires !hw(SBA_SKEW, u).locked
    ensures SkewTap(mode, hw, 2, u) == 0x1f
  {
  }

  /** If the maximum covers all bits, it was kept. */
  lemma CoveringIsKept(mode: Mode, hw: Readings, b: nat, u: nat)
    requires b < u < BITS && !hw(SBA_SKEW, u).locked
    requires 0x1f < SkewTap(mode, hw, 2, b) <= SbaMax(mode, hw, BITS)
    ensures exists b': nat :: u < b' < BITS && SkewTap(mode, hw, 2, b') >= SkewTap(mode, hw, 2, b)
  {
    hide SkewTap, SbaMax;
    SbaMaxCovers(mode, hw, BITS);
    var top: nat :| NoResetAfter(hw, BITS, top) && SkewTap(mode, hw, 2, top) == SbaMax(mode, hw, BITS);
    ResetTap(mode, hw, u);
  }

  lemma WiderBit(mode: Mode, hw: Readings, b: nat, u: nat) returns (b': nat)
    requires MaxKept(mode, hw, 2)
    requires b < u < BITS && !hw(SBA_SKEW, u).locked && SkewTap(mode, hw, 2, b) > 0x1f
    ensures u < b' < BITS && SkewTap(mode, hw, 2, b') >= SkewTap(mode, hw, 2, b)
  {
    hide SkewTap;
    b' :| u < b' < BITS && SkewTap(mode, hw, 2, b') >= SkewTap(mode, hw, 2, b);
  }

  lemma LaterThanReset(hw: Readings, last: nat, b: nat)
    requires NoResetAfter(hw, BITS, last) && last < b < BITS
    ensures NoResetAfter(hw, BITS, b)
  {
  }

  /** If it was kept, it covers all bits. */
  lemma KeptIsCovering(mode: Mode, hw: Readings, b: nat)
    requires b < BITS && MaxKept(mode, hw, 2)
    ensures SkewTap(mode, hw, 2, b) <= SbaMax(mode, hw, BITS)
  {
    hide SkewTap, SbaMax, MaxKept;
    SbaMaxCovers(mode, hw, BITS);
    if u: nat :| b < u < BITS && !hw(SBA_SKEW, u).locked {
      var last := LastReset(hw, b, u);
      ResetTap(mode, hw, last);
      if SkewTap(mode, hw, 2, b) > 0x1f {
        var b' := WiderBit(mode, hw, b, last);
        LaterThanReset(hw, last, b');
      }
    } else {
      assert NoResetAfter(hw, BITS, b);
    }
  }

  lemma NoResetBelow(hw: Readings)
    ensures forall b: nat :: NoResetAfter(hw, BITS, b) ==> b < BITS
  {
  }

  lemma MaxKeptExactly(mode: Mode, hw: Readings)
    ensures (forall b: nat :: b < BITS ==> SkewTap(mode, hw, 2, b) <= SbaMax(mode, hw, BITS)) <==> MaxKept(mode, hw, 2)
    ensures SbaMax(mode, hw, BITS) <= 0x3f
    ensures exists b: nat :: b < BITS && SkewTap(mode, hw, 2, b) == SbaMax(mode, hw, BITS)
  {
    hide SkewTap, SbaMax, NoResetAfter;
    SbaMaxCovers(mode, hw, BITS);
    NoResetBelow(hw);
    SkewTapsBounded(mode, hw, 2);
    if MaxKept(mode, hw, 2) {
      forall b: nat | b < BITS
        ensures SkewTap(mode, hw, 2, b) <= SbaMax(mode, hw, BITS)
      {
        KeptIsCovering(mode, hw, b);
      }
    } else {
      var b: nat, u: nat :| b < u < BITS && !hw(SBA_SKEW, u).locked && SkewTap(mode, hw, 2, b) > 0x1f
        && !exists b': nat :: u < b' < BITS && SkewTap(mode, hw, 2, b') >= SkewTap(mode, hw, 2, b);
      if SkewTap(mode, hw, 2, b) <= SbaMax(mode, hw, BITS) {
        CoveringIsKept(mode, hw, b, u);
      }
    }
  }

  lemma CoversBoth(p: Pup)
    requires Covers(p, BITS) && forall b: nat :: b < BITS ==> p.bits[b] <= 0x3f
    ensures MinCovers(p, BITS) && p.maxPbs <= 0x3f && forall b: nat :: b < BITS ==> p.bits[b] <= p.maxPbs
    ensures exists b: nat :: b < BITS && p.bits[b] == p.maxPbs
  {
    assert p.bits[..BITS] == p.bits;
    assert p.maxPbs == 0 ==> p.bits[0] == 0;
  }

  lemma NormalisedIsCalibrated(mode: Mode, hw: Readings, p0: Pup, p: Pup)
    requires AfterSba(mode, hw, p0)
    requires p == p0.(mat := p.mat, maxPbs := p.maxPbs, minPbs := p.minPbs) && |p.mat| == BITS
    requires p.lock == 1 ==>
               && p.minPbs == p0.minPbs && p.maxPbs == p0.maxPbs
               && forall b: nat :: b < BITS ==> p.mat[b] == (p.bits[b] - p.minPbs) % 256
    requires p.lock != 1 ==> p.minPbs == p.maxPbs == 0 && forall b: nat :: b < BITS ==> p.mat[b] == 0
    ensures Calibrated(mode, hw, p)
  {
    hide FinalState, Covers, MinCovers, SkewTap, SbaMax;
    FinalStates(mode, hw);
    if p.state >= 2 {
      SkewTapsBounded(mode, hw, p.state);
      if p.state >= 3 {
        CoversBoth(p0);
      } else {
        MaxKeptExactly(mode, hw);
      }
      SmallestIsZero(p0, p);
    }
  }

  /** Normalising preserves the differences between the bits of a calibrated pup. */
  lemma DifferencesPreserved(mode: Mode, hw: Readings, p: Pup, i: nat, j: nat)
    requires Calibrated(mode, hw, p) && p.state >= 2
    requires i < BITS && j < BITS
    ensures p.mat[i] + SkewTap(mode, hw, p.state, j) == p.mat[j] + SkewTap(mode, hw, p.state, i)
    ensures MaxKept(mode, hw, p.state) ==> p.mat[i] + p.minPbs <= p.maxPbs
  {
    hide FinalState, SkewTap, MaxKept;
  }

  lemma CalibratedShape(mode: Mode, hw: Readings, p: Pup)
    requires Calibrated(mode, hw, p)
    ensures |p.mat| == BITS && p.state == FinalState(mode, hw)
  {
  }

  /** The skew tap of a bit in numbers: five bits of its result when reading, six when writing, or 31 without lock. */
  lemma SkewTapInNumbers(mode: Mode, hw: Readings, state: nat, b: nat)
    ensures var width := if mode.PBS_RX_MODE? then 32 else 64;
            SkewTap(mode, hw, state, b) ==
              if state >= 3 then hw(SKEW, b).raw % width
              else if hw(SBA_SKEW, b).locked then hw(SBA_SKEW, b).raw % width
              else 31
  {
  }

  /** A bit is usable in numbers: it locked, not at tap 31 when reading and not at tap 0 when writing. */
  lemma UsableInNumbers(hw: Readings, stage: Stage, b: nat)
    ensures Shiftable(PBS_RX_MODE, hw, stage, b) <==> hw(stage, b).locked && hw(stage, b).raw % 32 != 31
    ensures Shiftable(PBS_TX_MODE, hw, stage, b) <==> hw(stage, b).locked && hw(stage, b).raw % 64 != 0
  {
  }

  /** A written tap 0 has no tap below: its shift wraps around, which makes the maximum 255 and keeps the minimum. */
  lemma TapZeroWraps(p: Pup)
    requires p.maxAdll <= 255 && p.minAdll <= 255
    ensures Fold(PBS_TX_MODE, p, OneTapFurther(PBS_TX_MODE, 0)) ==
              p.(maxAdll := 255, shiftVal := p.minAdll)
  {
  }

  /** The shift of a usable pup in numbers, reading: one tap above the largest tap of its bits. */
  lemma ReadShiftInNumbers(hw: Readings, stage: Stage, p: Pup, top: nat)
    requires IsShift(PBS_RX_MODE, hw, stage, top, BITS, p)
    ensures forall b: nat :: b < BITS ==> hw(stage, b).raw % 32 + 1 <= p.shiftVal
    ensures exists b: nat :: b < BITS && hw(stage, b).raw % 32 + 1 == p.shiftVal
  {
    var taps := ShiftTaps(PBS_RX_MODE, hw, stage, BITS);
    assert forall b: nat :: b < BITS ==> taps[b] == hw(stage, b).raw % 32 + 1;
    assert p.shiftVal >= taps[0] > 0;
  }

  /** Writing: one tap below the smallest tap of its bits. */
  lemma WriteShiftInNumbers(hw: Readings, stage: Stage, p: Pup)
    requires IsShift(PBS_TX_MODE, hw, stage, 0x3f, BITS, p) && AllShiftable(PBS_TX_MODE, hw, stage)
    ensures forall b: nat :: b < BITS ==> p.shiftVal + 1 <= hw(stage, b).raw % 64
    ensures exists b: nat :: b < BITS && p.shiftVal + 1 == hw(stage, b).raw % 64
  {
    var taps := ShiftTaps(PBS_TX_MODE, hw, stage, BITS);
    forall b: nat | b < BITS
      ensures taps[b] + 1 == hw(stage, b).raw % 64
    {
      UsableInNumbers(hw, stage, b);
      assert Shiftable(PBS_TX_MODE, hw, stage, b);
    }
    assert p.shiftVal <= taps[0] < 0x3f;
  }

  // ----- The skew registers of a pup -----

  /** The skew registers of a pup, by their address among its data PHY registers. */
  type Registers = map<nat, nat>

  function SkewBase(mode: Mode, cs: nat): nat {
    (if mode.PBS_RX_MODE? then 0x50 else 0x10) + cs * 0x10
  }

  /** The two strobe registers of writing, and those of reading, which the writing stage also writes. */
  predicate IsWriteDqs(cs: nat, a: nat) {
    a == 0x14 + cs * 0x10 || a == 0x15 + cs * 0x10
  }

  predicate IsReadDqs(cs: nat, a: nat) {
    a == 0x54 + cs * 0x10 || a == 0x55 + cs * 0x10
  }

  predicate IsDqs(mode: Mode, cs: nat, a: nat) {
    mode.PBS_TX_MODE? && (IsWriteDqs(cs, a) || IsReadDqs(cs, a))
  }

  /** Address a reads the same in both. */
  ghost predicate SameAt(regs: Registers, regs': Registers, a: nat) {
    (a in regs <==> a in regs') && (a in regs ==> regs[a] == regs'[a])
  }

  ghost predicate HoldsAt(regs: Registers, a: nat, x: nat) {
    a in regs && regs[a] == x
  }

  /** Address a is one of the sixteen skew registers of the mode. */
  predicate IsSkew(mode: Mode, cs: nat, a: nat) {
    SkewBase(mode, cs) <= a < SkewBase(mode, cs) + 16
  }

  /**
    The skew registers of the two modes and of the four chip-selects lie apart, from 0x10 and from 0x50
    on, above the shifted registers; the strobes are the registers 4 and 5 of their mode.
  */
  lemma BlocksAreDisjoint(mode: Mode, cs: nat, mode': Mode, cs': nat, a: nat)
    requires cs < 4 && cs' < 4 && IsSkew(mode, cs, a)
    ensures IsSkew(mode', cs', a) ==> mode == mode' && cs == cs'
    ensures if mode.PBS_TX_MODE? then 0x10 <= a < 0x50 else 0x50 <= a < 0x90
    ensures !IsDqs(PBS_RX_MODE, cs, a)
    ensures IsWriteDqs(cs, a) <==> mode.PBS_TX_MODE? && a - SkewBase(mode, cs) in {4, 5}
    ensures IsReadDqs(cs, a) <==> mode.PBS_RX_MODE? && a - SkewBase(mode, cs) in {4, 5}
  {
  }

  lemma SkewAddresses(cs: nat, a: nat)
    ensures IsSkew(PBS_TX_MODE, cs, a) <==> 0x10 + 0x10 * cs <= a <= 0x1f + 0x10 * cs
    ensures IsSkew(PBS_RX_MODE, cs, a) <==> 0x50 + 0x10 * cs <= a <= 0x5f + 0x10 * cs
  {
  }

  /** Half the spread of a pup (C division). */
  function HalfSpread(p: Pup): int {
    if p.maxPbs >= p.minPbs then (p.maxPbs - p.minPbs) / 2 else -((p.minPbs - p.maxPbs) / 2)
  }

  ghost predicate IsPad(mode: Mode, cs: nat, pads: seq<nat>, a: nat) {
    exists b :: 0 <= b < |pads| && a == SkewBase(mode, cs) + pads[b]
  }

  /** The last bit that is mapped to its pad, which is not a strobe, decides the register of that pad. */
  ghost predicate Owns(mode: Mode, cs: nat, pads: seq<nat>, b: nat)
    requires b < |pads|
  {
    !IsDqs(mode, cs, SkewBase(mode, cs) + pads[b]) && forall j :: b < j < |pads| ==> pads[j] != pads[b]
  }

  ghost predicate DqsWritten(mode: Mode, cs: nat, p: Pup, rxDqs0: nat, regs: Registers, rxDqs: nat) {
    if mode.PBS_RX_MODE? then rxDqs == HalfSpread(p) % 256
    else
      && rxDqs == rxDqs0
      && (forall a: nat :: IsWriteDqs(cs, a) ==> HoldsAt(regs, a, HalfSpread(p) % 0x1_0000_0000))
      && (forall a: nat :: IsReadDqs(cs, a) ==> HoldsAt(regs, a, rxDqs0))
  }

  /** The registers of a pup after its results are written; the read strobe's skew waits for the writing stage. */
  ghost predicate SkewsWritten(mode: Mode, cs: nat, pads: seq<nat>, p: Pup, regs0: Registers, rxDqs0: nat,
                               regs: Registers, rxDqs: nat) {
    && |p.mat| == |pads|
    && (forall b: nat :: b < |pads| && Owns(mode, cs, pads, b) ==>
          HoldsAt(regs, SkewBase(mode, cs) + pads[b], p.mat[b]))
    && (forall a: nat :: !IsPad(mode, cs, pads, a) && !IsDqs(mode, cs, a) ==> SameAt(regs, regs0, a))
    && DqsWritten(mode, cs, p, rxDqs0, regs, rxDqs)
  }

  /** Bit b is the last of the first n bits on its pad. */
  ghost predicate LastOnPad(pads: seq<nat>, n: nat, b: nat) {
    b < n <= |pads| && forall j :: b < j < n ==> pads[j] != pads[b]
  }

  lemma LastOfMore(pads: seq<nat>, n: nat, b: nat)
    requires n < |pads| && LastOnPad(pads, n + 1, b)
    ensures b == n || (LastOnPad(pads, n, b) && pads[n] != pads[b])
  {
  }

  lemma OwnerIsLast(mode: Mode, cs: nat, pads: seq<nat>, b: nat)
    requires b < |pads| && Owns(mode, cs, pads, b)
    ensures LastOnPad(pads, |pads|, b)
  {
  }

  method WritePads(mode: Mode, cs: nat, pads: seq<nat>, p: Pup, regs0: Registers) returns (regs: Registers)
    requires |pads| == |p.mat| == BITS
    ensures forall b: nat :: b < |pads| && Owns(mode, cs, pads, b) ==>
              HoldsAt(regs, SkewBase(mode, cs) + pads[b], p.mat[b])
    ensures forall a: nat :: !IsPad(mode, cs, pads, a) ==> SameAt(regs, regs0, a)
  {
    hide SkewBase, IsDqs, LastOnPad;
    regs := regs0;
    var base := SkewBase(mode, cs);
    for bit := 0 to BITS
      invariant forall b: nat :: b < bit && LastOnPad(pads, bit, b) ==> HoldsAt(regs, base + pads[b], p.mat[b])
      invariant forall a: nat :: !IsPad(mode, cs, pads, a) ==> SameAt(regs, regs0, a)
    {
      assert IsPad(mode, cs, pads, base + pads[bit]);
      ghost var before := regs;
      regs := regs[base + pads[bit] := p.mat[bit]];
      forall b: nat | b < bit + 1 && LastOnPad(pads, bit + 1, b)
        ensures HoldsAt(regs, base + pads[b], p.mat[b])
      {
        LastOfMore(pads, bit, b);
        assert b < bit ==> HoldsAt(before, base + pads[b], p.mat[b]);
      }
    }
    forall b: nat | b < |pads| && Owns(mode, cs, pads, b)
      ensures LastOnPad(pads, BITS, b)
    {
      OwnerIsLast(mode, cs, pads, b);
    }
  }

  method WriteDqs(mode: Mode, cs: nat, p: Pup, regs0: Registers, rxDqs0: nat) returns (regs: Registers, rxDqs: nat)
    ensures DqsWritten(mode, cs, p, rxDqs0, regs, rxDqs)
    ensures forall a: nat :: !IsDqs(mode, cs, a) ==> SameAt(regs, regs0, a)
  {
    hide HalfSpread;
    regs, rxDqs := regs0, rxDqs0;
    if mode.PBS_TX_MODE? {
      var half := HalfSpread(p) % 0x1_0000_0000;
      regs := regs[0x14 + cs * 0x10 := half][0x15 + cs * 0x10 := half];
      regs := regs[0x54 + cs * 0x10 := rxDqs][0x55 + cs * 0x10 := rxDqs];
    } else {
      rxDqs := HalfSpread(p) % 256;
    }
  }

  method WriteSkews(mode: Mode, cs: nat, pads: seq<nat>, p: Pup, regs0: Registers, rxDqs0: nat)
    returns (regs: Registers, rxDqs: nat)
    requires |pads| == |p.mat| == BITS
    ensures SkewsWritten(mode, cs, pads, p, regs0, rxDqs0, regs, rxDqs)
  {
    hide SkewBase, DqsWritten, IsDqs, IsPad;
    var padded := WritePads(mode, cs, pads, p, regs0);
    regs, rxDqs := WriteDqs(mode, cs, p, padded, rxDqs0);
  }

  /** Before the results are written, the first twelve skew registers of the mode are zeroed. */
  ghost predicate Cleaned(mode: Mode, cs: nat, regs0: Registers, regs: Registers) {
    forall a: nat ::
      if SkewBase(mode, cs) <= a < SkewBase(mode, cs) + 12 then a in regs && regs[a] == 0
      else (a in regs <==> a in regs0) && (a in regs ==> regs[a] == regs0[a])
  }

  method Clean(mode: Mode, cs: nat, regs0: Registers) returns (regs: Registers)
    ensures Cleaned(mode, cs, regs0, regs)
  {
    hide SkewBase;
    regs := regs0;
    for bit := 0 to BITS + 4
      invariant forall a: nat ::
                  if SkewBase(mode, cs) <= a < SkewBase(mode, cs) + bit then a in regs && regs[a] == 0
                  else (a in regs <==> a in regs0) && (a in regs ==> regs[a] == regs0[a])
    {
      regs := regs[SkewBase(mode, cs) + bit := 0];
    }
  }

  /** The searches drive the first twelve skew registers, pads and strobes; what they leave there is arbitrary. */
  ghost predicate Driven(mode: Mode, cs: nat, regs0: Registers, regs: Registers) {
    forall a: nat :: !(SkewBase(mode, cs) <= a < SkewBase(mode, cs) + 12) ==>
      (a in regs <==> a in regs0) && (a in regs ==> regs[a] == regs0[a])
  }

  method Drive(mode: Mode, cs: nat, regs0: Registers) returns (regs: Registers)
    ensures Driven(mode, cs, regs0, regs)
  {
    hide SkewBase;
    regs := regs0;
    for bit := 0 to 12
      invariant Driven(mode, cs, regs0, regs)
    {
      var x: nat := *;
      regs := regs[SkewBase(mode, cs) + bit := x];
    }
  }

  /** The search from the other side zeroes the strobes and the broadcast register of a pup. */
  function SbaZeroed(mode: Mode, cs: nat, regs: Registers): Registers {
    var base := SkewBase(mode, cs);
    regs[base + 4 := 0][base + 5 := 0][base + 0xf := 0]
  }

  /** What a skew register holds that gets no result: the broadcast register stays zero after SBA. */
  ghost predicate Background(mode: Mode, cs: nat, sba: bool, regs0: Registers, regs: Registers, a: nat) {
    if a < SkewBase(mode, cs) + 12 || (sba && a == SkewBase(mode, cs) + 0xf) then HoldsAt(regs, a, 0)
    else SameAt(regs, regs0, a)
  }

  ghost predicate AllBackground(mode: Mode, cs: nat, sba: bool, regs0: Registers, regs: Registers) {
    forall a: nat :: IsSkew(mode, cs, a) ==> Background(mode, cs, sba, regs0, regs, a)
  }

  lemma CleanedIsBackground(mode: Mode, cs: nat, sba: bool, regs0: Registers, driven: Registers, regs: Registers)
    requires Driven(mode, cs, regs0, driven)
    requires Cleaned(mode, cs, if sba then SbaZeroed(mode, cs, driven) else driven, regs)
    ensures AllBackground(mode, cs, sba, regs0, regs)
  {
    hide SkewBase;
  }

  /** The skew registers of a pup after the calibration. */
  ghost predicate ResultsIn(mode: Mode, cs: nat, sba: bool, pads: seq<nat>, p: Pup, regs0: Registers, rxDqs0: nat,
                            regs: Registers, rxDqs: nat) {
    && |p.mat| == |pads|
    && (forall b: nat :: b < |pads| && Owns(mode, cs, pads, b) ==>
          HoldsAt(regs, SkewBase(mode, cs) + pads[b], p.mat[b]))
    && (forall a: nat :: IsSkew(mode, cs, a) && !IsPad(mode, cs, pads, a) && !IsDqs(mode, cs, a) ==>
          Background(mode, cs, sba, regs0, regs, a))
    && DqsWritten(mode, cs, p, rxDqs0, regs, rxDqs)
  }

  lemma WrittenOnBackground(mode: Mode, cs: nat, sba: bool, pads: seq<nat>, p: Pup, regs0: Registers, rxDqs0: nat,
                            between: Registers, regs: Registers, rxDqs: nat)
    requires AllBackground(mode, cs, sba, regs0, between)
    requires SkewsWritten(mode, cs, pads, p, between, rxDqs0, regs, rxDqs)
    ensures ResultsIn(mode, cs, sba, pads, p, regs0, rxDqs0, regs, rxDqs)
  {
    hide SkewBase, IsPad, IsDqs, DqsWritten, Owns;
  }

  /** The pads of a pup are distinct and none is a strobe. */
  ghost predicate Wired(mode: Mode, cs: nat, pads: seq<nat>) {
    forall b: nat :: b < |pads| ==> Owns(mode, cs, pads, b)
  }

  /** On a wired pup the register of every pad holds the skew of its bit. */
  lemma PadHoldsSkew(mode: Mode, cs: nat, sba: bool, pads: seq<nat>, p: Pup, regs0: Registers, rxDqs0: nat,
                     regs: Registers, rxDqs: nat, b: nat)
    requires ResultsIn(mode, cs, sba, pads, p, regs0, rxDqs0, regs, rxDqs) && Wired(mode, cs, pads)
    requires b < |pads|
    ensures |p.mat| == |pads| && HoldsAt(regs, SkewBase(mode, cs) + pads[b], p.mat[b])
  {
    hide SkewBase, Background, DqsWritten, IsPad, IsDqs;
    assert Owns(mode, cs, pads, b);
  }

  /** So the registers of its pads keep all differences between the calibrated bits. */
  lemma PadsKeepDifferences(mode: Mode, cs: nat, sba: bool, pads: seq<nat>, hw: Readings, p: Pup, regs0: Registers,
                            rxDqs0: nat, regs: Registers, rxDqs: nat, i: nat, j: nat, x: nat, y: nat)
    requires Calibrated(mode, hw, p) && p.state >= 2
    requires ResultsIn(mode, cs, sba, pads, p, regs0, rxDqs0, regs, rxDqs) && Wired(mode, cs, pads)
    requires i < |pads| && HoldsAt(regs, SkewBase(mode, cs) + pads[i], x)
    requires j < |pads| && HoldsAt(regs, SkewBase(mode, cs) + pads[j], y)
    ensures x + SkewTap(mode, hw, p.state, j) == y + SkewTap(mode, hw, p.state, i)
    ensures MaxKept(mode, hw, p.state) ==> x + p.minPbs <= p.maxPbs
  {
    hide Calibrated, SkewTap, SkewBase, ResultsIn, Wired, MaxKept;
    CalibratedShape(mode, hw, p);
    PadHoldsSkew(mode, cs, sba, pads, p, regs0, rxDqs0, regs, rxDqs, i);
    PadHoldsSkew(mode, cs, sba, pads, p, regs0, rxDqs0, regs, rxDqs, j);
    DifferencesPreserved(mode, hw, p, i, j);
  }

  /**
    The strobes of a calibrated pup get half the distance between its largest and its smallest tap,
    rounded down, when the recorded extremes are these taps; with taps up to 31 they always are.
  */
  ghost predicate IsHalfOfSpread(mode: Mode, hw: Readings, state: nat, d: nat) {
    && (forall i: nat, j: nat :: i < BITS && j < BITS ==>
          SkewTap(mode, hw, state, i) <= SkewTap(mode, hw, state, j) + 2 * d + 1)
    && (exists i: nat, j: nat :: i < BITS && j < BITS
          && SkewTap(mode, hw, state, j) + 2 * d <= SkewTap(mode, hw, state, i))
  }

  lemma SpreadIsHalved(mode: Mode, hw: Readings, p: Pup)
    requires Calibrated(mode, hw, p) && p.state >= 2 && MaxKept(mode, hw, p.state)
    requires exists b: nat :: b < BITS && SkewTap(mode, hw, p.state, b) <= 0x1f
    ensures 0 <= HalfSpread(p) <= 0x1f && IsHalfOfSpread(mode, hw, p.state, HalfSpread(p))
  {
    hide FinalState, SkewTap, MaxKept, AllLocked;
    var low: nat :| low < BITS && p.mat[low] == 0;
    var high: nat :| high < BITS && SkewTap(mode, hw, p.state, high) == p.maxPbs;
    assert SkewTap(mode, hw, p.state, low) == p.minPbs;
  }

  lemma SmallTapsAreKept(mode: Mode, hw: Readings, state: nat)
    requires forall b: nat :: b < BITS ==> SkewTap(mode, hw, state, b) <= 0x1f
    requires state >= 2
    ensures MaxKept(mode, hw, state) && SkewTap(mode, hw, state, 0) <= 0x1f
  {
  }

  /** The strobe registers after writing, and the strobe value that reading stores for them, from the readings. */
  lemma StrobesHalveTheSpread(mode: Mode, cs: nat, hw: Readings, p: Pup, rxDqs0: nat,
                              regs: Registers, rxDqs: nat, a: nat, d: nat)
    requires Calibrated(mode, hw, p) && p.state >= 2 && MaxKept(mode, hw, p.state)
    requires exists b: nat :: b < BITS && SkewTap(mode, hw, p.state, b) <= 0x1f
    requires DqsWritten(mode, cs, p, rxDqs0, regs, rxDqs)
    requires mode.PBS_TX_MODE? ==> (a == 0x14 + cs * 0x10 || a == 0x15 + cs * 0x10) && HoldsAt(regs, a, d)
    requires mode.PBS_RX_MODE? ==> d == rxDqs
    ensures IsHalfOfSpread(mode, hw, p.state, d)
  {
    hide Calibrated, MaxKept, SkewTap, HalfSpread, IsHalfOfSpread;
    SpreadIsHalved(mode, hw, p);
    assert mode.PBS_TX_MODE? ==> IsWriteDqs(cs, a);
  }

  /** A failed pup gets the strobe value 0, or -15 in the width of its register if it counts as locked. */
  lemma FailedStrobes(mode: Mode, cs: nat, hw: Readings, p: Pup, rxDqs0: nat,
                      regs: Registers, rxDqs: nat, a: nat, d: nat)
    requires Calibrated(mode, hw, p) && p.state == 1
    requires DqsWritten(mode, cs, p, rxDqs0, regs, rxDqs)
    requires mode.PBS_TX_MODE? ==> (a == 0x14 + cs * 0x10 || a == 0x15 + cs * 0x10) && HoldsAt(regs, a, d)
    requires mode.PBS_RX_MODE? ==> d == rxDqs
    ensures d == if p.lock != 1 then 0 else if mode.PBS_RX_MODE? then 241 else 0xffff_fff1
  {
    hide FinalState, SkewTap, MaxKept, AllLocked;
    assert mode.PBS_TX_MODE? ==> IsWriteDqs(cs, a);
  }

  /** The searches leave anything in the register that they shift. */
  method Search(regs: array2<nat>)
    modifies regs
  {
    for i := 0 to regs.Length0 {
      for j := 0 to regs.Length1 {
        regs[i, j] := *;
      }
    }
  }

  /** A pup is not locked after the skew search, so it needs the search from the other side. */
  ghost predicate NeedsSba(mode: Mode, hw: Readings) {
    !(ShiftState(mode, hw) >= 3 && AllLocked(hw, SKEW))
  }

  lemma UnlockedAfterSkew(mode: Mode, hw: Readings, p: Pup)
    requires AfterSkew(mode, hw, p)
    ensures p.lock != 1 <==> NeedsSba(mode, hw)
  {
  }

  lemma UnlockedAfterSba(mode: Mode, hw: Readings, p: Pup)
    requires AfterSba(mode, hw, p)
    ensures p.lock != 1 <==> FinalState(mode, hw) == 1 && !AllLocked(hw, SBA_SHIFT)
  {
    hide FinalState;
    FinalStates(mode, hw);
  }

  lemma AfterSbaShape(mode: Mode, hw: Readings, p: Pup)
    requires AfterSba(mode, hw, p)
    ensures |p.mat| == BITS && |p.bits| == BITS
  {
  }

  /** A pup whose SBA shift is done, or that does not need one. */
  ghost predicate BeforeSbaSkew(mode: Mode, hw: Readings, p: Pup) {
    && |p.mat| == BITS && |p.bits| == BITS
    && p.state == FinalState(mode, hw)
    && (p.state == 2 ==> p.lock == 1 && p.maxPbs == 0 && p.minPbs == 0x1f)
    && (p.state != 2 ==> AfterSba(mode, hw, p))
  }

  lemma LockedNeedsNoSba(mode: Mode, hw: Readings, p: Pup)
    requires AfterSkew(mode, hw, p) && p.lock == 1
    ensures AfterSba(mode, hw, p) && p.state >= 3
  {
  }

  lemma ShiftedBeforeSkew(mode: Mode, hw: Readings, p0: Pup, p: Pup)
    requires AfterSkew(mode, hw, p0)
    requires p0.lock == 1 ==> p == p0
    requires p0.lock != 1 ==>
               && SameSkew(p0, p)
               && if AllLocked(hw, SBA_SHIFT) then p.state == p0.state && p.lock == 1 else p.state == 1 && p.lock == 0
    ensures BeforeSbaSkew(mode, hw, p) && |p.mat| == BITS
  {
  }

  lemma ShiftStates(mode: Mode, hw: Readings)
    ensures 1 <= ShiftState(mode, hw) <= 4
  {
  }

  ghost predicate AfterEba(mode: Mode, hw: Readings, p: Pup) {
    && p.state == (if AllShiftable(mode, hw, EBA) then 3 else if EbaBroken(mode, hw) then 1 else 4)
    && p.lock == (if p.state == 3 then 1 else 0)
    && (p.state == 3 ==> IsShift(mode, hw, EBA, ShiftTop(mode), BITS, p))
    && |p.mat| == BITS
  }

  class Pbs {
    const mode: Mode
    const cs: nat
    const active: seq<bool>
    const hw: seq<Readings>
    const padMap: seq<seq<nat>>
    const pups: array<Pup>
    const nominalAdll: array<nat>
    const skews: array<Registers>
    const rxDqs: array<nat>
    var trainingFailed: bool

    ghost predicate Valid()
      reads pups
    {
      && |active| == |hw| == |padMap| == pups.Length == skews.Length == rxDqs.Length <= nominalAdll.Length
      && rxDqs != nominalAdll
      && (forall k :: 0 <= k < |padMap| ==> |padMap[k]| == BITS)
      && forall k :: 0 <= k < pups.Length ==> |pups[k].mat| == BITS
    }

    constructor (mode: Mode, cs: nat, active: seq<bool>, hw: seq<Readings>, padMap: seq<seq<nat>>, pups: array<Pup>,
                 nominalAdll: array<nat>, skews: array<Registers>, rxDqs: array<nat>)
      requires |active| == |hw| == |padMap| == pups.Length == skews.Length == rxDqs.Length <= nominalAdll.Length
      requires rxDqs != nominalAdll
      requires forall k :: 0 <= k < |padMap| ==> |padMap[k]| == BITS
      requires forall k :: 0 <= k < pups.Length ==> |pups[k].mat| == BITS
      ensures Valid() && this.mode == mode && this.cs == cs && this.active == active && this.hw == hw
      ensures this.padMap == padMap && this.pups == pups && this.nominalAdll == nominalAdll
      ensures this.skews == skews && this.rxDqs == rxDqs
    {
      this.mode, this.cs, this.active, this.hw, this.padMap := mode, cs, active, hw, padMap;
      this.pups, this.nominalAdll, this.skews, this.rxDqs := pups, nominalAdll, skews, rxDqs;
    }

    /** EBA for every pup, then EEBA for those that need it. */
    method ShiftAll()
      requires Valid()
      modifies pups
      ensures Valid()
      ensures forall k :: 0 <= k < pups.Length && active[k] ==> AfterShift(mode, hw[k], pups[k])
      ensures forall k :: 0 <= k < pups.Length && !active[k] ==> pups[k] == old(pups[k])
    {
      hide AllShiftable, EbaBroken, IsShift;
      for k := 0 to pups.Length
        invariant Valid()
        invariant forall j :: 0 <= j < k && active[j] ==> AfterEba(mode, hw[j], pups[j])
        invariant forall j :: 0 <= j < pups.Length && (!active[j] || k <= j) ==> pups[j] == old(pups[j])
      {
        if active[k] {
          pups[k] := EbaPup(mode, hw[k], pups[k]);
        }
      }
      for k := 0 to pups.Length
        invariant Valid()
        invariant forall j :: 0 <= j < k && active[j] ==> AfterShift(mode, hw[j], pups[j])
        invariant forall j :: k <= j < pups.Length && active[j] ==> AfterEba(mode, hw[j], pups[j])
        invariant forall j :: 0 <= j < pups.Length && !active[j] ==> pups[j] == old(pups[j])
      {
        if active[k] && pups[k].state == 4 {
          pups[k] := EebaPup(mode, hw[k], pups[k]);
        }
      }
    }

    method ResetAll()
      requires Valid()
      requires forall k :: 0 <= k < pups.Length && active[k] ==> AfterShift(mode, hw[k], pups[k])
      modifies pups
      ensures Valid()
      ensures forall k :: 0 <= k < pups.Length && active[k] ==> AfterShift(mode, hw[k], pups[k]) && Reset(pups[k])
      ensures forall k :: 0 <= k < pups.Length && !active[k] ==> pups[k] == old(pups[k])
    {
      hide ShiftState, IsMin, IsMax, ShiftTaps;
      for k := 0 to pups.Length
        invariant Valid()
        invariant forall j :: 0 <= j < pups.Length && active[j] ==> AfterShift(mode, hw[j], pups[j])
        invariant forall j :: 0 <= j < k && active[j] ==> Reset(pups[j])
        invariant forall j :: 0 <= j < pups.Length && !active[j] ==> pups[j] == old(pups[j])
      {
        if active[k] {
          pups[k] := pups[k].(maxPbs := 0, minPbs := 0x1f, bits := seq(BITS, _ => 0));
        }
      }
    }

    /** Resets the skew results, then searches the skew of the locked pups. */
    method SkewAll()
      requires Valid()
      requires forall k :: 0 <= k < pups.Length && active[k] ==> AfterShift(mode, hw[k], pups[k])
      modifies pups
      ensures Valid()
      ensures forall k :: 0 <= k < pups.Length && active[k] ==> AfterSkew(mode, hw[k], pups[k])
      ensures forall k :: 0 <= k < pups.Length && !active[k] ==> pups[k] == old(pups[k])
    {
      hide ShiftState, AllLocked, IsShift, Covers;
      ResetAll();
      for k := 0 to pups.Length
        invariant Valid()
        invariant forall j :: 0 <= j < k && active[j] ==> AfterSkew(mode, hw[j], pups[j])
        invariant forall j :: k <= j < pups.Length && active[j] ==> AfterShift(mode, hw[j], pups[j]) && Reset(pups[j])
        invariant forall j :: 0 <= j < pups.Length && !active[j] ==> pups[j] == old(pups[j])
      {
        ShiftStates(mode, hw[k]);
        if active[k] && pups[k].lock == 1 {
          pups[k] := SkewPup(mode, hw[k], pups[k]);
        }
      }
    }

    method AllPupsLocked() returns (all: bool)
      requires Valid()
      ensures all <==> forall k :: 0 <= k < pups.Length && active[k] ==> pups[k].lock == 1
    {
      all := true;
      for k := 0 to pups.Length
        invariant all <==> forall j :: 0 <= j < k && active[j] ==> pups[j].lock == 1
      {
        if active[k] {
          all := all && pups[k].lock == 1;
        }
      }
    }

    /** The ADLL shift from the other side, for the pups that have not locked. */
    method SbaShiftAll()
      requires Valid()
      requires forall k :: 0 <= k < pups.Length && active[k] ==> AfterSkew(mode, hw[k], pups[k])
      modifies pups, skews
      ensures Valid()
      ensures forall k :: 0 <= k < pups.Length && active[k] ==> BeforeSbaSkew(mode, hw[k], pups[k])
      ensures forall k :: 0 <= k < pups.Length && !active[k] ==> pups[k] == old(pups[k])
      ensures forall k :: 0 <= k < skews.Length ==>
                skews[k] == if active[k] && NeedsSba(mode, hw[k]) then SbaZeroed(mode, cs, old(skews[k]))
                            else old(skews[k])
    {
      hide BeforeSbaSkew, AfterSkew, AllLocked, IsShift, SbaZeroed, NeedsSba;
      for k := 0 to pups.Length
        invariant Valid()
        invariant forall j :: 0 <= j < k && active[j] ==> BeforeSbaSkew(mode, hw[j], pups[j])
        invariant forall j :: 0 <= j < pups.Length && (!active[j] || k <= j) ==> pups[j] == old(pups[j])
        invariant forall j :: k <= j < skews.Length ==> skews[j] == old(skews[j])
        invariant forall j :: 0 <= j < k ==>
                    skews[j] == if active[j] && NeedsSba(mode, hw[j]) then SbaZeroed(mode, cs, old(skews[j]))
                                else old(skews[j])
      {
        if active[k] {
          ghost var p0 := pups[k];
          UnlockedAfterSkew(mode, hw[k], p0);
          if pups[k].lock != 1 {
            skews[k] := SbaZeroed(mode, cs, skews[k]);
            pups[k] := SbaShiftPup(mode, hw[k], pups[k]);
          }
          ShiftedBeforeSkew(mode, hw[k], p0, pups[k]);
        }
      }
    }

    method SbaSkewAll()
      requires Valid()
      requires forall k :: 0 <= k < pups.Length && active[k] ==> BeforeSbaSkew(mode, hw[k], pups[k])
      modifies pups
      ensures Valid()
      ensures forall k :: 0 <= k < pups.Length && active[k] ==> AfterSba(mode, hw[k], pups[k])
      ensures forall k :: 0 <= k < pups.Length && !active[k] ==> pups[k] == old(pups[k])
    {
      hide FinalState, AllLocked, SkewTap, Covers;
      for k := 0 to pups.Length
        invariant Valid()
        invariant forall j :: 0 <= j < k && active[j] ==> AfterSba(mode, hw[j], pups[j])
        invariant forall j :: k <= j < pups.Length && active[j] ==> BeforeSbaSkew(mode, hw[j], pups[j])
        invariant forall j :: 0 <= j < pups.Length && !active[j] ==> pups[j] == old(pups[j])
      {
        if active[k] {
          pups[k] := SbaSkewPup(mode, hw[k], pups[k]);
        }
      }
    }

    /** The search from the other side, when some pup has not locked. */
    method SbaAll()
      requires Valid()
      requires forall k :: 0 <= k < pups.Length && active[k] ==> AfterSkew(mode, hw[k], pups[k])
      modifies pups, skews
      ensures Valid()
      ensures forall k :: 0 <= k < pups.Length && active[k] ==> AfterSba(mode, hw[k], pups[k])
      ensures forall k :: 0 <= k < pups.Length && !active[k] ==> pups[k] == old(pups[k])
      ensures forall k :: 0 <= k < skews.Length ==>
                skews[k] == if active[k] && NeedsSba(mode, hw[k]) then SbaZeroed(mode, cs, old(skews[k]))
                            else old(skews[k])
    {
      hide AfterSkew, AfterSba, BeforeSbaSkew, SbaZeroed, NeedsSba;
      var all := AllPupsLocked();
      if all {
        forall k | 0 <= k < pups.Length && active[k]
          ensures AfterSba(mode, hw[k], pups[k]) && !NeedsSba(mode, hw[k])
        {
          LockedNeedsNoSba(mode, hw[k], pups[k]);
          UnlockedAfterSkew(mode, hw[k], pups[k]);
        }
        return;
      }
      SbaShiftAll();
      SbaSkewAll();
    }

    method NormAll()
      requires Valid()
      requires forall k :: 0 <= k < pups.Length && active[k] ==> AfterSba(mode, hw[k], pups[k])
      modifies pups, this`trainingFailed
      ensures Valid()
      ensures forall k :: 0 <= k < pups.Length && active[k] ==> Calibrated(mode, hw[k], pups[k])
      ensures forall k :: 0 <= k < pups.Length && !active[k] ==> pups[k] == old(pups[k])
      ensures trainingFailed <==>
                old(trainingFailed) || exists k :: 0 <= k < pups.Length && active[k] && old(pups[k].lock) != 1
    {
      hide AfterSba, Calibrated;
      for k := 0 to pups.Length
        invariant Valid()
        invariant forall j :: 0 <= j < k && active[j] ==> Calibrated(mode, hw[j], pups[j])
        invariant forall j :: 0 <= j < pups.Length && (!active[j] || k <= j) ==> pups[j] == old(pups[j])
        invariant trainingFailed <==>
                    old(trainingFailed) || exists j :: 0 <= j < k && active[j] && old(pups[j].lock) != 1
      {
        if active[k] {
          ghost var p0 := pups[k];
          AfterSbaShape(mode, hw[k], p0);
          pups[k] := NormPup(pups[k]);
          NormalisedIsCalibrated(mode, hw[k], p0, pups[k]);
          if pups[k].lock != 1 {
            trainingFailed := true;
          }
        }
      }
    }

    /** What the searches do to the skew registers of all pups. */
    method DriveAll()
      requires Valid()
      modifies skews
      ensures forall k :: 0 <= k < skews.Length ==> Driven(mode, cs, old(skews[k]), skews[k])
    {
      hide Driven;
      for k := 0 to skews.Length
        invariant forall j :: 0 <= j < k ==> Driven(mode, cs, old(skews[j]), skews[j])
        invariant forall j :: k <= j < skews.Length ==> skews[j] == old(skews[j])
      {
        skews[k] := Drive(mode, cs, skews[k]);
      }
    }

    /** All pups are cleaned, also the inactive ones. */
    method CleanAll()
      requires Valid()
      modifies skews
      ensures forall k :: 0 <= k < skews.Length ==> Cleaned(mode, cs, old(skews[k]), skews[k])
    {
      hide Cleaned;
      for k := 0 to skews.Length
        invariant forall j :: 0 <= j < k ==> Cleaned(mode, cs, old(skews[j]), skews[j])
        invariant forall j :: k <= j < skews.Length ==> skews[j] == old(skews[j])
      {
        skews[k] := Clean(mode, cs, skews[k]);
      }
    }

    /** Writes the results of every active pup; a missing pad map ends the stage at the first of them. */
    method WriteAll(padMapSet: bool) returns (ok: bool)
      requires Valid()
      modifies skews, rxDqs
      ensures forall k :: 0 <= k < skews.Length ==>
                if active[k] && padMapSet
                then SkewsWritten(mode, cs, padMap[k], pups[k], old(skews[k]), old(rxDqs[k]), skews[k], rxDqs[k])
                else skews[k] == old(skews[k]) && rxDqs[k] == old(rxDqs[k])
      ensures ok <==> padMapSet || forall k :: 0 <= k < |active| ==> !active[k]
    {
      hide SkewsWritten;
      for k := 0 to skews.Length
        invariant !padMapSet ==> forall j :: 0 <= j < k ==> !active[j]
        invariant forall j :: 0 <= j < k ==>
                    if active[j] && padMapSet
                    then SkewsWritten(mode, cs, padMap[j], pups[j], old(skews[j]), old(rxDqs[j]), skews[j], rxDqs[j])
                    else skews[j] == old(skews[j]) && rxDqs[j] == old(rxDqs[j])
        invariant forall j :: k <= j < skews.Length ==> skews[j] == old(skews[j]) && rxDqs[j] == old(rxDqs[j])
      {
        if active[k] {
          if !padMapSet {
            return false;
          }
          var regs, dqs := WriteSkews(mode, cs, padMap[k], pups[k], skews[k], rxDqs[k]);
          skews[k], rxDqs[k] := regs, dqs;
        }
      }
      return true;
    }

    method NoPupFailed() returns (ok: bool)
      requires Valid()
      requires forall k :: 0 <= k < pups.Length && active[k] ==> Calibrated(mode, hw[k], pups[k])
      ensures ok <==> forall k :: 0 <= k < pups.Length && active[k] ==> FinalState(mode, hw[k]) != 1
    {
      hide FinalState, SkewTap;
      for k := 0 to pups.Length
        invariant forall j :: 0 <= j < k && active[j] ==> FinalState(mode, hw[j]) != 1
      {
        if active[k] && pups[k].state == 1 {
          return false;
        }
      }
      return true;
    }

    /**
      The whole calibration of one interface. Every active pup ends as its readings decide,
      success means that no active pup failed, and on every exit but the one for a missing
      pad map the shifted register of each active pup has its value of before, whatever the
      searches wrote to it meanwhile.
    */
    method Run(padMapSet: bool, regs: array2<nat>) returns (ok: bool)
      requires Valid() && regs.Length0 == 1 && regs.Length1 == |active|
      modifies pups, nominalAdll, regs, skews, rxDqs, this`trainingFailed
      ensures Valid()
      ensures forall k :: 0 <= k < pups.Length ==>
                if active[k] && padMapSet
                then ResultsIn(mode, cs, NeedsSba(mode, hw[k]), padMap[k], pups[k], old(skews[k]), old(rxDqs[k]),
                               skews[k], rxDqs[k])
                else AllBackground(mode, cs, active[k] && NeedsSba(mode, hw[k]), old(skews[k]), skews[k])
                     && rxDqs[k] == old(rxDqs[k])
      ensures forall k :: 0 <= k < pups.Length && active[k] ==> Calibrated(mode, hw[k], pups[k])
      ensures forall k :: 0 <= k < pups.Length && !active[k] ==> pups[k] == old(pups[k])
      ensures ok <==> forall k :: 0 <= k < pups.Length && active[k] ==> padMapSet && FinalState(mode, hw[k]) != 1
      ensures padMapSet ==> forall k :: 0 <= k < |active| && active[k] ==> regs[0, k] == old(regs[0, k])
      ensures trainingFailed <==>
                || old(trainingFailed)
                || exists k :: 0 <= k < pups.Length && active[k]
                               && FinalState(mode, hw[k]) == 1 && !AllLocked(hw[k], SBA_SHIFT)
    {
      hide AllLocked, Cleaned, SkewsWritten, Driven, SbaZeroed, NeedsSba, AllBackground, ResultsIn;
      hide Calibrated, AfterSba, AfterSkew, AfterShift, FinalState;
      AdllValues.ReadAdllValue(regs, [true], active, nominalAdll);
      Search(regs);
      DriveAll();
      ghost var driven := skews[..];
      ShiftAll();
      SkewAll();
      SbaAll();
      forall k | 0 <= k < pups.Length && active[k]
        ensures pups[k].lock != 1 <==> FinalState(mode, hw[k]) == 1 && !AllLocked(hw[k], SBA_SHIFT)
      {
        UnlockedAfterSba(mode, hw[k], pups[k]);
      }
      NormAll();
      CleanAll();
      ghost var cleaned := skews[..];
      var written := WriteAll(padMapSet);
      forall k | 0 <= k < skews.Length
        ensures AllBackground(mode, cs, active[k] && NeedsSba(mode, hw[k]), old(skews[k]), cleaned[k])
        ensures active[k] && padMapSet ==>
                  ResultsIn(mode, cs, NeedsSba(mode, hw[k]), padMap[k], pups[k], old(skews[k]), old(rxDqs[k]),
                            skews[k], rxDqs[k])
      {
        var sba := active[k] && NeedsSba(mode, hw[k]);
        CleanedIsBackground(mode, cs, sba, old(skews[k]), driven[k], cleaned[k]);
        if active[k] && padMapSet {
          WrittenOnBackground(mode, cs, sba, padMap[k], pups[k], old(skews[k]), old(rxDqs[k]),
                              cleaned[k], skews[k], rxDqs[k]);
        }
      }
      if !written {
        return false;
      }
      AdllValues.WriteAdllValue(regs, [true], active, nominalAdll);
      assert forall j: nat :: j < |active| && active[j] ==> AdllValues.Active([true], active, 0, j);
      ok := NoPupFailed();
    }
  }

  /** A failed pup counts as locked exactly when its EBA search broke and its SBA shift locked. */
  lemma FailedButLocked(mode: Mode, hw: Readings, p: Pup)
    requires Calibrated(mode, hw, p)
    ensures p.state == 1 && p.lock == 1 <==> EbaBroken(mode, hw) && AllLocked(hw, SBA_SHIFT)
    ensures p.state == 1 && p.lock == 1 ==> forall b: nat :: b < BITS ==> p.mat[b] == 225
  {
    hide Shiftable;
    FinalStates(mode, hw);
    assert EbaBroken(mode, hw) ==> !AllShiftable(mode, hw, EBA);
  }

  /** The searches of all stages but EBA lock, at tap 5. */
  function OnlyEbaFails(stage: Stage, b: nat): Result {
    Result(stage != EBA, 5)
  }

  /** On these readings the pup fails, counts as locked and gets the skew 225 on every bit, in both modes. */
  lemma FailedButLockedExample(mode: Mode, p: Pup)
    requires Calibrated(mode, OnlyEbaFails, p)
    ensures FinalState(mode, OnlyEbaFails) == 1 && p.state == 1 && p.lock == 1 && p.mat == seq(BITS, _ => 225)
  {
    hide Calibrated, FinalState;
    assert FirstUnusable(mode, OnlyEbaFails, EBA, 0);
    FailedButLocked(mode, OnlyEbaFails, p);
    CalibratedShape(mode, OnlyEbaFails, p);
  }

  /** All searches lock, at tap 40. */
  function LateTaps(stage: Stage, b: nat): Result {
    Result(true, 40)
  }

  /** When writing, no normalised skew of such a pup is 0, although it is calibrated in EBA. */
  lemma LateTapsExample(p: Pup)
    requires Calibrated(PBS_TX_MODE, LateTaps, p)
    ensures p.state == 3 && forall b: nat :: b < BITS ==> p.mat[b] >= 9
  {
  }

  /** EBA and EEBA end at the end of the range; in SBA the second bit does not lock, the first does so at tap 40. */
  function ResetAfterLate(stage: Stage, b: nat): Result {
    match stage
    case SBA_SHIFT => Result(true, 5)
    case SBA_SKEW => if b == 0 then Result(true, 40) else Result(b != 1, 3)
    case _ => Result(true, 0)
  }

  lemma ResetAfterLateState()
    ensures FinalState(PBS_TX_MODE, ResetAfterLate) == 2
  {
    var mode := PBS_TX_MODE;
    assert FirstUnusable(mode, ResetAfterLate, EBA, 0) && !Shiftable(mode, ResetAfterLate, EEBA, 0);
    BrokenAtFirst(mode, ResetAfterLate, 0);
  }

  lemma ResetAfterLateMax()
    ensures !MaxKept(PBS_TX_MODE, ResetAfterLate, 2)
    ensures SkewTap(PBS_TX_MODE, ResetAfterLate, 2, 0) == 40
    ensures forall b: nat :: b < BITS ==> SkewTap(PBS_TX_MODE, ResetAfterLate, 2, b) <= 40
  {
    hide MaxKept;
    assert forall b: nat :: 1 < b ==> SkewTap(PBS_TX_MODE, ResetAfterLate, 2, b) == 3;
    if MaxKept(PBS_TX_MODE, ResetAfterLate, 2) {
      var b := WiderBit(PBS_TX_MODE, ResetAfterLate, 0, 1);
    }
  }

  /** When writing, the recorded maximum of such a pup is below the tap of its first bit. */
  lemma ResetAfterLateExample(p: Pup)
    requires Calibrated(PBS_TX_MODE, ResetAfterLate, p)
    ensures p.state == 2 && p.maxPbs < SkewTap(PBS_TX_MODE, ResetAfterLate, 2, 0) == 40
  {
    hide FinalState, MaxKept, SkewTap;
    ResetAfterLateState();
    ResetAfterLateMax();
  }
}
