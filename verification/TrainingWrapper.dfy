/**
  The training wrapper: classification of bit windows, byte status and 64-tap alignment.

  A search from low to high and one from high to low leave two result words per bit. The
  wrapper classifies each bit by its two edges, searches wrapped-around windows again from
  the middle, combines the bits into one status per byte, and moves the low bits of mixed
  bytes up by one period of 64 taps.
*/
module TrainingWrapper {
  import opened Common

  const TIP_ENG_LOCK: nat := 0x200_0000
  const TIP_TX_DLL_RANGE_MAX: nat := 64
  const WORD: nat := 0x1_0000_0000

  datatype Direction = OPER_READ | OPER_WRITE
  datatype Search = LOW2HIGH | HIGH2LOW

  // ----- Result words and their layout -----

  /** The tap and the lock bit of a result word. */
  function Tap(word: nat): nat {
    word % 256
  }

  predicate Locked(word: nat) {
    (word / TIP_ENG_LOCK) % 2 == 1
  }

  function SearchIndex(d: Search): nat {
    if d.LOW2HIGH? then 0 else 1
  }

  /** The first result word of an interface. */
  function BufIndex(nIf: nat, nBus: nat, d: Search, ifId: nat): nat {
    nIf * nBus * BITS * SearchIndex(d) + ifId * nBus * BITS
  }

  function Cell(nIf: nat, nBus: nat, d: Search, ifId: nat, s: nat, b: nat): nat {
    BufIndex(nIf, nBus, d, ifId) + s * BITS + b
  }

  /** The place of a result word within its search direction. */
  function Row(nBus: nat, i: nat, s: nat, b: nat): nat {
    (i * nBus + s) * BITS + b
  }

  lemma RowInRange(nIf: nat, nBus: nat, i: nat, s: nat, b: nat)
    requires i < nIf && s < nBus && b < BITS
    ensures Row(nBus, i, s, b) < nIf * nBus * BITS
  {
    Multiples(nBus, i, nIf);
    assert i * nBus + s < nIf * nBus;
  }

  lemma CellIsRow(nIf: nat, nBus: nat, d: Search, i: nat, s: nat, b: nat)
    requires i < nIf && s < nBus && b < BITS
    ensures Cell(nIf, nBus, d, i, s, b) == (if d.LOW2HIGH? then 0 else nIf * nBus * BITS) + Row(nBus, i, s, b)
  {
  }

  lemma RowsAreDistinct(nBus: nat, i: nat, s: nat, b: nat, i': nat, s': nat, b': nat)
    requires s < nBus && b < BITS && s' < nBus && b' < BITS
    requires Row(nBus, i, s, b) == Row(nBus, i', s', b')
    ensures i == i' && s == s' && b == b'
  {
    DigitsAreUnique(BITS, i * nBus + s, b, i' * nBus + s', b');
    DigitsAreUnique(nBus, i, s, i', s');
  }

  /** Every result word has its own place in the buffer, for any number of interfaces and buses. */
  lemma CellsAreDistinct(nIf: nat, nBus: nat, d: Search, i: nat, s: nat, b: nat, d': Search, i': nat, s': nat, b': nat)
    requires i < nIf && s < nBus && b < BITS
    requires i' < nIf && s' < nBus && b' < BITS
    ensures Cell(nIf, nBus, d, i, s, b) < nIf * nBus * BITS * 2
    ensures Cell(nIf, nBus, d, i, s, b) == Cell(nIf, nBus, d', i', s', b') ==> d == d' && i == i' && s == s' && b == b'
  {
    hide Cell, Row;
    CellIsRow(nIf, nBus, d, i, s, b);
    RowInRange(nIf, nBus, i, s, b);
    CellIsRow(nIf, nBus, d', i', s', b');
    RowInRange(nIf, nBus, i', s', b');
    if Row(nBus, i, s, b) == Row(nBus, i', s', b') {
      RowsAreDistinct(nBus, i, s, b, i', s', b');
    }
  }

  // ----- Bit classes -----

  datatype BitState = BIT_LOW_UI | BIT_HIGH_UI | BIT_SPLIT_IN | BIT_SPLIT_OUT

  /** The class of a bit by its two edges. */
  datatype Class = Low | High | SplitIn | SplitOut | Inverted

  /** The two words of a bit, from either search. */
  datatype Words = Words(l2h: nat, h2l: nat)

  function ClassOf(w: Words): Class {
    var e1: int, e2: int := Tap(w.l2h), Tap(w.h2l);
    if e2 - e1 > 32 then SplitOut
    else if e2 <= 31 then (if e1 <= 31 then Low else Inverted)
    else if e1 <= 31 then SplitIn else High
  }

  /** The code's four guards exclude each other for all edges; inverted edges meet none of them. */
  lemma GuardsAreExclusive(w: Words)
    ensures var e1: int, e2: int := Tap(w.l2h), Tap(w.h2l);
            var out := e2 - e1 > 32;
            && (out <==> ClassOf(w) == SplitOut)
            && (!out && e1 <= 31 && e2 <= 31 <==> ClassOf(w) == Low)
            && (!out && e1 >= 32 && e2 >= 32 <==> ClassOf(w) == High)
            && (!out && e1 <= 31 && e2 >= 32 <==> ClassOf(w) == SplitIn)
            && (e1 >= 32 && e2 <= 31 <==> ClassOf(w) == Inverted)
  {
  }

  const BYTE_NOT_DEFINED: bv8 := 0x0
  const BYTE_HOMOGENEOUS_LOW: bv8 := 0x1
  const BYTE_HOMOGENEOUS_HIGH: bv8 := 0x2
  const BYTE_HOMOGENEOUS_SPLIT_IN: bv8 := 0x4
  const BYTE_HOMOGENEOUS_SPLIT_OUT: bv8 := 0x8
  const BYTE_SPLIT_OUT_MIX: bv8 := 0x10

  predicate BitLocked(w: Words) {
    Locked(w.l2h) && Locked(w.h2l)
  }

  /** What phase 1 learns about a byte. */
  datatype ByteInfo = ByteInfo(status: bv8, states: seq<BitState>, l2h: seq<nat>, h2l: seq<nat>)

  // ----- Specification of phase 1 -----

  ghost predicate AllBitsLocked(ws: seq<Words>) {
    forall b :: 0 <= b < |ws| ==> BitLocked(ws[b])
  }

  ghost predicate SomeBit(ws: seq<Words>, c: Class) {
    exists b :: 0 <= b < |ws| && ClassOf(ws[b]) == c
  }

  /** The status of a fully locked, written byte: one flag for each class among its bits. */
  ghost function ClassFlags(ws: seq<Words>): bv8 {
    (if SomeBit(ws, Low) then 0x1 else 0) |
    (if SomeBit(ws, High) then 0x2 else 0) |
    (if SomeBit(ws, SplitIn) then 0x4 else 0) |
    (if SomeBit(ws, SplitOut) then 0x8 else 0)
  }

  ghost function Phase1Status(dir: Direction, ws: seq<Words>): bv8 {
    if !AllBitsLocked(ws) then 0
    else if dir.OPER_READ? then (if ws == [] then 0 else 0x1)
    else ClassFlags(ws)
  }

  /** The state of a classified bit; inverted ones keep the initial state. */
  function StateOf(w: Words): BitState {
    match ClassOf(w)
    case Low => BIT_LOW_UI
    case High => BIT_HIGH_UI
    case SplitIn => BIT_SPLIT_IN
    case SplitOut => BIT_SPLIT_OUT
    case Inverted => BIT_LOW_UI
  }

  /** The edges recorded in phase 1: 0 and 64 unless the bit has one of the three plain classes. */
  function EdgesOf(w: Words): (nat, nat) {
    if ClassOf(w).SplitOut? || ClassOf(w).Inverted? then (0, 64) else (Tap(w.l2h), Tap(w.h2l))
  }

  ghost predicate Describes(dir: Direction, ws: seq<Words>, info: ByteInfo) {
    && |info.states| == |info.l2h| == |info.h2l| == |ws|
    && info.status == Phase1Status(dir, ws)
    && (dir.OPER_WRITE? && AllBitsLocked(ws) ==>
          forall b :: 0 <= b < |ws| ==>
            info.states[b] == StateOf(ws[b]) && (info.l2h[b], info.h2l[b]) == EdgesOf(ws[b]))
  }

  /** The flag that a locked bit contributes. */
  function FlagOf(dir: Direction, w: Words): bv8 {
    if dir.OPER_READ? then BYTE_HOMOGENEOUS_LOW
    else match ClassOf(w)
         case Low => BYTE_HOMOGENEOUS_LOW
         case High => BYTE_HOMOGENEOUS_HIGH
         case SplitIn => BYTE_HOMOGENEOUS_SPLIT_IN
         case SplitOut => BYTE_HOMOGENEOUS_SPLIT_OUT
         case Inverted => BYTE_NOT_DEFINED
  }

  lemma StatusGrows(dir: Direction, ws: seq<Words>, b: nat)
    requires b < |ws| && AllBitsLocked(ws[..b]) && BitLocked(ws[b])
    ensures AllBitsLocked(ws[..b + 1])
    ensures Phase1Status(dir, ws[..b + 1]) == Phase1Status(dir, ws[..b]) | FlagOf(dir, ws[b])
  {
  }

  /** Some bit is wrapped around, and no bit up to it is unlocked. */
  ghost predicate HasSplit(ws: seq<Words>) {
    exists b :: 0 <= b < |ws| && ClassOf(ws[b]) == SplitOut && AllBitsLocked(ws[..b + 1])
  }

  lemma FlagsGrow(ws: seq<Words>, b: nat)
    requires b < |ws|
    ensures ws[..b + 1] == ws[..b] + [ws[b]]
    ensures forall c :: SomeBit(ws[..b + 1], c) <==> SomeBit(ws[..b], c) || ClassOf(ws[b]) == c
    ensures AllBitsLocked(ws[..b + 1]) <==> AllBitsLocked(ws[..b]) && BitLocked(ws[b])
  {
    assert ws[..b + 1] == ws[..b] + [ws[b]];
    assert ws[..b + 1][b] == ws[b];
  }

  lemma SplitGrows(ws: seq<Words>, b: nat)
    requires b < |ws| && AllBitsLocked(ws[..b])
    ensures HasSplit(ws[..b + 1]) <==> HasSplit(ws[..b]) || (BitLocked(ws[b]) && ClassOf(ws[b]) == SplitOut)
    ensures !BitLocked(ws[b]) ==> (HasSplit(ws) <==> HasSplit(ws[..b]))
  {
    hide ClassOf, BitLocked;
    assert forall k :: 0 <= k <= b ==> ws[..b + 1][..k] == ws[..k] && ws[..b][..k] == ws[..k];
    assert ws[..b + 1][..b + 1] == ws[..b + 1] && ws[..b + 1][b] == ws[b];
    FlagsGrow(ws, b);
    if !BitLocked(ws[b]) {
      assert forall k :: b < k <= |ws| ==> ws[..k][b] == ws[b];
    }
  }

  lemma NothingSeen(dir: Direction, ws: seq<Words>)
    ensures AllBitsLocked(ws[..0]) && Phase1Status(dir, ws[..0]) == 0 && !HasSplit(ws[..0])
  {
  }

  lemma UnlockedByte(dir: Direction, ws: seq<Words>, b: nat)
    requires b < |ws| && !BitLocked(ws[b])
    ensures !AllBitsLocked(ws) && Phase1Status(dir, ws) == 0
  {
  }

  method ClassifyBit(dir: Direction, w: Words, b: nat, info0: ByteInfo) returns (info: ByteInfo, split: bool)
    requires b < |info0.states| == |info0.l2h| == |info0.h2l|
    requires info0.states[b] == BIT_LOW_UI && info0.l2h[b] == 0 && info0.h2l[b] == 64
    ensures info.status == info0.status | FlagOf(dir, w)
    ensures info.states == if dir.OPER_WRITE? then info0.states[b := StateOf(w)] else info0.states
    ensures info.l2h == if dir.OPER_WRITE? then info0.l2h[b := EdgesOf(w).0] else info0.l2h
    ensures info.h2l == if dir.OPER_WRITE? then info0.h2l[b := EdgesOf(w).1] else info0.h2l
    ensures split <==> dir.OPER_WRITE? && ClassOf(w) == SplitOut
  {
    GuardsAreExclusive(w);
    hide ClassOf, Tap;
    info, split := info0, false;
    var e1: int, e2: int := Tap(w.l2h), Tap(w.h2l);
    if dir.OPER_READ? {
      info := info.(status := info.status | BYTE_HOMOGENEOUS_LOW);
    } else if e2 - e1 > 32 {
      info := info.(status := info.status | BYTE_HOMOGENEOUS_SPLIT_OUT, states := info.states[b := BIT_SPLIT_OUT]);
      split := true;
    } else {
      if e1 <= 31 && e2 <= 31 {
        info := info.(status := info.status | BYTE_HOMOGENEOUS_LOW, states := info.states[b := BIT_LOW_UI],
                      l2h := info.l2h[b := e1], h2l := info.h2l[b := e2]);
      }
      if e1 >= 32 && e2 >= 32 {
        info := info.(status := info.status | BYTE_HOMOGENEOUS_HIGH, states := info.states[b := BIT_HIGH_UI],
                      l2h := info.l2h[b := e1], h2l := info.h2l[b := e2]);
      }
      if e1 <= 31 && e2 >= 32 {
        info := info.(status := info.status | BYTE_HOMOGENEOUS_SPLIT_IN, states := info.states[b := BIT_SPLIT_IN],
                      l2h := info.l2h[b := e1], h2l := info.h2l[b := e2]);
      }
    }
  }

  method ClassifyByte(dir: Direction, ws: seq<Words>) returns (info: ByteInfo, splitSeen: bool)
    ensures Describes(dir, ws, info)
    ensures splitSeen <==> dir.OPER_WRITE? && HasSplit(ws)
  {
    hide Phase1Status, AllBitsLocked, HasSplit, Locked;
    var n := |ws|;
    info := ByteInfo(0, seq(n, _ => BIT_LOW_UI), seq(n, _ => 0), seq(n, _ => 64));
    splitSeen := false;
    NothingSeen(dir, ws);
    var b := 0;
    while b < n
      invariant b <= n == |info.states| == |info.l2h| == |info.h2l|
      invariant AllBitsLocked(ws[..b])
      invariant info.status == Phase1Status(dir, ws[..b])
      invariant dir.OPER_WRITE? ==> forall j :: 0 <= j < b ==>
                  info.states[j] == StateOf(ws[j]) && (info.l2h[j], info.h2l[j]) == EdgesOf(ws[j])
      invariant forall j :: b <= j < n ==> info.states[j] == BIT_LOW_UI && info.l2h[j] == 0 && info.h2l[j] == 64
      invariant splitSeen <==> dir.OPER_WRITE? && HasSplit(ws[..b])
    {
      SplitGrows(ws, b);
      if BitLocked(ws[b]) {
        StatusGrows(dir, ws, b);
        var split;
        info, split := ClassifyBit(dir, ws[b], b, info);
        splitSeen := splitSeen || split;
      } else {
        info := info.(status := BYTE_NOT_DEFINED);
        UnlockedByte(dir, ws, b);
        return;
      }
      b := b + 1;
    }
    assert ws[..n] == ws;
  }

  // ----- Specification of phases 2 and 3 -----

  /** What is stored for a wrapped-around bit after the search from the middle. */
  function MiddleWord(d: Search, raw: nat): nat {
    if !Locked(raw) then TIP_ENG_LOCK + TIP_TX_DLL_RANGE_MAX
    else (raw + if d.HIGH2LOW? then 64 else 0) % WORD
  }

  /** The words of a byte after the middle search: only wrapped-around bits are replaced. */
  function AfterMiddle(ws: seq<Words>, ml: seq<nat>, mh: seq<nat>): (r: seq<Words>)
    requires |ws| == |ml| == |mh|
    ensures |r| == |ws|
  {
    seq(|ws|, b requires 0 <= b < |ws| =>
          if ClassOf(ws[b]).SplitOut? then Words(MiddleWord(LOW2HIGH, ml[b]), MiddleWord(HIGH2LOW, mh[b])) else ws[b])
  }

  /** The centre of each bit's window. */
  function Centers(ws: seq<Words>, ml: seq<nat>, mh: seq<nat>): (r: seq<nat>)
    requires |ws| == |ml| == |mh|
    ensures |r| == |ws|
  {
    seq(|ws|, b requires 0 <= b < |ws| =>
          if ClassOf(ws[b]).SplitOut?
          then (Tap(MiddleWord(LOW2HIGH, ml[b])) + Tap(MiddleWord(HIGH2LOW, mh[b]))) / 2
          else (EdgesOf(ws[b]).0 + EdgesOf(ws[b]).1) / 2)
  }

  function MaxOf(s: seq<nat>): (m: nat)
    ensures forall i :: 0 <= i < |s| ==> s[i] <= m
    ensures s == [] || m in s
  {
    if s == [] then 0
    else var m := MaxOf(s[..|s| - 1]); if s[|s| - 1] > m || |s| == 1 then s[|s| - 1] else m
  }

  /** The smallest centre, but at most 64. */
  function MinOf(s: seq<nat>): (m: nat)
    ensures m <= 64 && forall i :: 0 <= i < |s| ==> m <= s[i]
    ensures m == 64 || m in s
  {
    if s == [] then 64 else var m := MinOf(s[..|s| - 1]); if s[|s| - 1] < m then s[|s| - 1] else m
  }

  predicate IsHomogeneous(status: bv8) {
    status == BYTE_NOT_DEFINED || status == BYTE_HOMOGENEOUS_LOW || status == BYTE_HOMOGENEOUS_HIGH
    || status == BYTE_HOMOGENEOUS_SPLIT_IN || status == BYTE_HOMOGENEOUS_SPLIT_OUT
  }

  ghost function Spread(centers: seq<nat>): int {
    MaxOf(centers) - MinOf(centers)
  }

  /** The final status: a mixture is resolved by how far apart the bits' centres are. */
  ghost function FinalStatus(dir: Direction, ws: seq<Words>, ml: seq<nat>, mh: seq<nat>): bv8
    requires |ws| == |ml| == |mh|
  {
    var st := Phase1Status(dir, ws);
    if IsHomogeneous(st) then st
    else if Spread(Centers(ws, ml, mh)) <= 31 then BYTE_HOMOGENEOUS_SPLIT_IN
    else BYTE_SPLIT_OUT_MIX
  }

  function Up64(w: Words): Words {
    Words((w.l2h + 64) % WORD, (w.h2l + 64) % WORD)
  }

  function Aligned(ws: seq<Words>, states: seq<BitState>): (r: seq<Words>)
    requires |ws| == |states|
    ensures |r| == |ws|
  {
    seq(|ws|, b requires 0 <= b < |ws| => if states[b].BIT_LOW_UI? then Up64(ws[b]) else ws[b])
  }

  ghost function FinalWords(dir: Direction, ws: seq<Words>, ml: seq<nat>, mh: seq<nat>): (r: seq<Words>)
    requires |ws| == |ml| == |mh|
  {
    if dir.OPER_READ? || Phase1Status(dir, ws) == 0 then ws
    else
      var stored := AfterMiddle(ws, ml, mh);
      if FinalStatus(dir, ws, ml, mh) == BYTE_SPLIT_OUT_MIX
      then Aligned(stored, seq(|ws|, b requires 0 <= b < |ws| => StateOf(ws[b])))
      else stored
  }

  // ----- Phases 2 and 3 of one byte -----

  /** The effect of storing one direction of the middle search in a byte. */
  ghost predicate MiddleStored(d: Search, raw: seq<nat>, ws0: seq<Words>, info0: ByteInfo,
                               ws: seq<Words>, info: ByteInfo) {
    && |ws| == |ws0| == |raw| == |info.states| == |info0.l2h| == |info.l2h| == |info0.h2l| == |info.h2l|
    && info == info0.(l2h := info.l2h, h2l := info.h2l)
    && forall b :: 0 <= b < |ws| ==>
         var m := MiddleWord(d, raw[b]);
         if !info.states[b].BIT_SPLIT_OUT?
         then ws[b] == ws0[b] && info.l2h[b] == info0.l2h[b] && info.h2l[b] == info0.h2l[b]
         else if d.LOW2HIGH?
         then ws[b] == ws0[b].(l2h := m) && info.l2h[b] == Tap(m) && info.h2l[b] == info0.h2l[b]
         else ws[b] == ws0[b].(h2l := m) && info.l2h[b] == info0.l2h[b] && info.h2l[b] == Tap(m)
  }

  /** Stores the middle search of one direction for the wrapped-around bits of a byte. */
  method StoreMiddle(d: Search, raw: seq<nat>, ws0: seq<Words>, info0: ByteInfo)
    returns (ws: seq<Words>, info: ByteInfo)
    requires |ws0| == |raw| == |info0.states| == |info0.l2h| == |info0.h2l|
    ensures |ws| == |ws0| && MiddleStored(d, raw, ws0, info0, ws, info)
  {
    hide MiddleWord;
    ws, info := ws0, info0;
    for b := 0 to |ws0|
      invariant |ws| == |ws0| && |info.l2h| == |info0.l2h| && |info.h2l| == |info0.h2l|
      invariant info == info0.(l2h := info.l2h, h2l := info.h2l)
      invariant forall j :: 0 <= j < b ==>
                  var m := MiddleWord(d, raw[j]);
                  if !info.states[j].BIT_SPLIT_OUT?
                  then ws[j] == ws0[j] && info.l2h[j] == info0.l2h[j] && info.h2l[j] == info0.h2l[j]
                  else if d.LOW2HIGH?
                  then ws[j] == ws0[j].(l2h := m) && info.l2h[j] == Tap(m) && info.h2l[j] == info0.h2l[j]
                  else ws[j] == ws0[j].(h2l := m) && info.l2h[j] == info0.l2h[j] && info.h2l[j] == Tap(m)
      invariant forall j :: b <= j < |ws0| ==>
                  ws[j] == ws0[j] && info.l2h[j] == info0.l2h[j] && info.h2l[j] == info0.h2l[j]
    {
      if info.states[b].BIT_SPLIT_OUT? {
        var m := MiddleWord(d, raw[b]);
        if d.LOW2HIGH? {
          ws, info := ws[b := ws[b].(l2h := m)], info.(l2h := info.l2h[b := Tap(m)]);
        } else {
          ws, info := ws[b := ws[b].(h2l := m)], info.(h2l := info.h2l[b := Tap(m)]);
        }
      }
    }
  }

  /** The distance between the outermost centres of a byte. */
  method CenterSpread(info: ByteInfo, ghost centers: seq<nat>) returns (spread: nat)
    requires |info.l2h| == |info.h2l| == |centers| > 0
    requires forall b :: 0 <= b < |centers| ==> centers[b] == (info.l2h[b] + info.h2l[b]) / 2
    ensures spread == Spread(centers)
  {
    var maxCenter, minCenter := 0, 64;
    for b := 0 to |info.l2h|
      invariant maxCenter == MaxOf(centers[..b]) && minCenter == MinOf(centers[..b])
    {
      assert centers[..b + 1][..b] == centers[..b] && centers[..b + 1][b] == centers[b];
      var c := (info.l2h[b] + info.h2l[b]) / 2;
      if c > maxCenter {
        maxCenter := c;
      }
      if c < minCenter {
        minCenter := c;
      }
    }
    assert centers[..|centers|] == centers && centers[0] in centers;
    spread := maxCenter - minCenter;
  }

  method AlignByte(ws0: seq<Words>, states: seq<BitState>) returns (ws: seq<Words>)
    requires |ws0| == |states|
    ensures ws == Aligned(ws0, states)
  {
    ws := ws0;
    for b := 0 to |ws0|
      invariant |ws| == |ws0|
      invariant forall j :: 0 <= j < b ==> ws[j] == if states[j].BIT_LOW_UI? then Up64(ws0[j]) else ws0[j]
      invariant forall j :: b <= j < |ws0| ==> ws[j] == ws0[j]
    {
      if states[b].BIT_LOW_UI? {
        ws := ws[b := Words((ws[b].l2h + 64) % WORD, (ws[b].h2l + 64) % WORD)];
      }
    }
  }

  // ----- The alignment in the flat buffer -----

  ghost predicate InBuffer(nIf: nat, nBus: nat, i: nat, s: nat, b: nat) {
    i < nIf && s < nBus && b < BITS
  }

  /** A result word as it lies in the buffer of all search directions, interfaces and bytes. */
  ghost function WordAt(buf: seq<nat>, nIf: nat, nBus: nat, d: Search, i: nat, s: nat, b: nat): nat
    requires |buf| == nIf * nBus * BITS * 2 && InBuffer(nIf, nBus, i, s, b)
  {
    CellsAreDistinct(nIf, nBus, d, i, s, b, d, i, s, b);
    buf[Cell(nIf, nBus, d, i, s, b)]
  }

  /** The words of a byte, as the rest of the model keeps them. */
  ghost function ByteAt(buf: seq<nat>, nIf: nat, nBus: nat, i: nat, s: nat): (ws: seq<Words>)
    requires |buf| == nIf * nBus * BITS * 2 && i < nIf && s < nBus
    ensures |ws| == BITS
  {
    seq(BITS, b requires 0 <= b < BITS =>
      Words(WordAt(buf, nIf, nBus, LOW2HIGH, i, s, b), WordAt(buf, nIf, nBus, HIGH2LOW, i, s, b)))
  }

  /** Storing one word changes no other. */
  lemma StoreOne(buf: seq<nat>, nIf: nat, nBus: nat, d: Search, i: nat, s: nat, b: nat, word: nat,
                 d': Search, i': nat, s': nat, b': nat)
    requires |buf| == nIf * nBus * BITS * 2 && InBuffer(nIf, nBus, i, s, b) && InBuffer(nIf, nBus, i', s', b')
    ensures Cell(nIf, nBus, d, i, s, b) < |buf|
    ensures WordAt(buf[Cell(nIf, nBus, d, i, s, b) := word], nIf, nBus, d', i', s', b') ==
              if d' == d && i' == i && s' == s && b' == b then word else WordAt(buf, nIf, nBus, d', i', s', b')
  {
    hide Cell;
    CellsAreDistinct(nIf, nBus, d, i, s, b, d', i', s', b');
    CellsAreDistinct(nIf, nBus, d', i', s', b', d, i, s, b);
  }

  method AddToWord(buf: array<nat>, nIf: nat, nBus: nat, d: Search, i: nat, s: nat, b: nat, add: nat)
    requires buf.Length == nIf * nBus * BITS * 2 && InBuffer(nIf, nBus, i, s, b)
    modifies buf
    ensures forall d': Search, i': nat, s': nat, b': nat :: InBuffer(nIf, nBus, i', s', b') ==>
              WordAt(buf[..], nIf, nBus, d', i', s', b') ==
                if d' == d && i' == i && s' == s && b' == b
                then (WordAt(old(buf[..]), nIf, nBus, d, i, s, b) + add) % WORD
                else WordAt(old(buf[..]), nIf, nBus, d', i', s', b')
  {
    CellsAreDistinct(nIf, nBus, d, i, s, b, d, i, s, b);
    var cell := Cell(nIf, nBus, d, i, s, b);
    hide Cell;
    var word := (buf[cell] + add) % WORD;
    buf[cell] := word;
    assert buf[..] == old(buf[..])[cell := word];
    forall d': Search, i': nat, s': nat, b': nat | InBuffer(nIf, nBus, i', s', b')
      ensures WordAt(buf[..], nIf, nBus, d', i', s', b') ==
                if d' == d && i' == i && s' == s && b' == b then word
                else WordAt(old(buf[..]), nIf, nBus, d', i', s', b')
    {
      StoreOne(old(buf[..]), nIf, nBus, d, i, s, b, word, d', i', s', b');
    }
  }

  /** The alignment of one byte in place: exactly its low bits move, in both search directions. */
  method AlignInBuffer(buf: array<nat>, nIf: nat, nBus: nat, i: nat, s: nat, states: seq<BitState>)
    requires buf.Length == nIf * nBus * BITS * 2 && i < nIf && s < nBus && |states| == BITS
    modifies buf
    ensures forall d': Search, i': nat, s': nat, b': nat :: InBuffer(nIf, nBus, i', s', b') ==>
              WordAt(buf[..], nIf, nBus, d', i', s', b') ==
                if i' == i && s' == s && states[b'].BIT_LOW_UI?
                then (WordAt(old(buf[..]), nIf, nBus, d', i', s', b') + 64) % WORD
                else WordAt(old(buf[..]), nIf, nBus, d', i', s', b')
  {
    hide WordAt;
    for b := 0 to BITS
      invariant forall d': Search, i': nat, s': nat, b': nat :: InBuffer(nIf, nBus, i', s', b') ==>
                  WordAt(buf[..], nIf, nBus, d', i', s', b') ==
                    if i' == i && s' == s && b' < b && states[b'].BIT_LOW_UI?
                    then (WordAt(old(buf[..]), nIf, nBus, d', i', s', b') + 64) % WORD
                    else WordAt(old(buf[..]), nIf, nBus, d', i', s', b')
    {
      if states[b].BIT_LOW_UI? {
        AddToWord(buf, nIf, nBus, LOW2HIGH, i, s, b, 64);
        AddToWord(buf, nIf, nBus, HIGH2LOW, i, s, b, 64);
      }
    }
  }

  /** So the byte is aligned and every other byte of every interface keeps its words. */
  lemma BufferIsAligned(buf0: seq<nat>, buf: seq<nat>, nIf: nat, nBus: nat, i: nat, s: nat, states: seq<BitState>,
                        i': nat, s': nat)
    requires |buf0| == |buf| == nIf * nBus * BITS * 2 && i < nIf && s < nBus && |states| == BITS
    requires forall d': Search, i': nat, s': nat, b': nat :: InBuffer(nIf, nBus, i', s', b') ==>
               WordAt(buf, nIf, nBus, d', i', s', b') ==
                 if i' == i && s' == s && states[b'].BIT_LOW_UI?
                 then (WordAt(buf0, nIf, nBus, d', i', s', b') + 64) % WORD
                 else WordAt(buf0, nIf, nBus, d', i', s', b')
    requires i' < nIf && s' < nBus
    ensures ByteAt(buf, nIf, nBus, i', s') ==
              if i' == i && s' == s then Aligned(ByteAt(buf0, nIf, nBus, i, s), states)
              else ByteAt(buf0, nIf, nBus, i', s')
  {
    hide WordAt;
  }

  /** The final status is one of the six defined values, never a mixture of flags. */
  lemma FinalStatusIsDefined(dir: Direction, ws: seq<Words>, ml: seq<nat>, mh: seq<nat>)
    requires |ws| == |ml| == |mh|
    ensures var st := FinalStatus(dir, ws, ml, mh);
            IsHomogeneous(st) || st == BYTE_SPLIT_OUT_MIX
    ensures dir.OPER_READ? ==> FinalStatus(dir, ws, ml, mh) == Phase1Status(dir, ws)
  {
  }

  // ----- All bytes of an interface -----

  /** The bits' edges that give the centres, ready for the last pass. */
  ghost predicate Prepared(info: ByteInfo, centers: seq<nat>) {
    && |info.states| == |info.l2h| == |info.h2l| == |centers| == BITS
    && forall b :: 0 <= b < BITS ==> centers[b] == (info.l2h[b] + info.h2l[b]) / 2
  }

  /** What is known about a byte before the last pass. */
  ghost predicate Found(dir: Direction, ws0: seq<Words>, ml: seq<nat>, mh: seq<nat>, ws: seq<Words>, info: ByteInfo)
    requires |ws0| == |ml| == |mh|
  {
    if dir.OPER_READ? || Phase1Status(dir, ws0) == 0 then ws == ws0
    else
      && ws == AfterMiddle(ws0, ml, mh)
      && Prepared(info, Centers(ws0, ml, mh))
      && forall b :: 0 <= b < BITS ==> info.states[b] == StateOf(ws0[b])
  }

  ghost predicate NeedsAlignment(ws: seq<Words>, ml: seq<nat>, mh: seq<nat>)
    requires |ws| == |ml| == |mh|
  {
    && FinalStatus(OPER_WRITE, ws, ml, mh) == BYTE_SPLIT_OUT_MIX
    && exists b :: 0 <= b < |ws| && StateOf(ws[b]) == BIT_LOW_UI
  }

  /** The byte has a low bit that must move up. */
  ghost predicate LowBitToMove(info: ByteInfo, centers: seq<nat>, st0: bv8) {
    !IsHomogeneous(st0) && Spread(centers) > 31 && BIT_LOW_UI in info.states
  }

  lemma BeforeLastPass(dir: Direction, ws0: seq<Words>, ml: seq<nat>, mh: seq<nat>, ws: seq<Words>, info: ByteInfo)
    requires |ws0| == |ml| == |mh| == BITS
    requires Found(dir, ws0, ml, mh, ws, info)
    ensures var st := Phase1Status(dir, ws0);
            var centers := Centers(ws0, ml, mh);
            && (!IsHomogeneous(st) ==> Prepared(info, centers))
            && (LowBitToMove(info, centers, st) <==> dir.OPER_WRITE? && NeedsAlignment(ws0, ml, mh))
  {
  }

  /** The effect of the last pass on a byte. */
  ghost predicate Resolved(info: ByteInfo, centers: seq<nat>, st0: bv8, ws0: seq<Words>, st: bv8, ws: seq<Words>) {
    if IsHomogeneous(st0) then ws == ws0 && st == st0
    else if Spread(centers) <= 31 then ws == ws0 && st == BYTE_HOMOGENEOUS_SPLIT_IN
    else |ws0| == |info.states| && ws == Aligned(ws0, info.states) && st == BYTE_SPLIT_OUT_MIX
  }

  lemma AfterLastPass(dir: Direction, ws0: seq<Words>, ml: seq<nat>, mh: seq<nat>, ws1: seq<Words>, info: ByteInfo,
                      st: bv8, ws: seq<Words>)
    requires |ws0| == |ml| == |mh| == BITS
    requires Found(dir, ws0, ml, mh, ws1, info)
    requires Resolved(info, Centers(ws0, ml, mh), Phase1Status(dir, ws0), ws1, st, ws)
    ensures st == FinalStatus(dir, ws0, ml, mh) && ws == FinalWords(dir, ws0, ml, mh)
  {
  }

  ghost predicate DescribedShape(ws: seq<Words>, info: ByteInfo) {
    |ws| == |info.states| == |info.l2h| == |info.h2l| == BITS
  }

  lemma DescribesShape(dir: Direction, ws: seq<Words>, info: ByteInfo)
    requires Describes(dir, ws, info) && |ws| == BITS
    ensures DescribedShape(ws, info) && info.status == Phase1Status(dir, ws)
  {
  }

  lemma StoredShape(d: Search, raw: seq<nat>, ws0: seq<Words>, info0: ByteInfo, ws: seq<Words>, info: ByteInfo)
    requires MiddleStored(d, raw, ws0, info0, ws, info) && |ws0| == BITS
    ensures DescribedShape(ws, info)
  {
  }

  lemma UndefinedFound(dir: Direction, ws: seq<Words>, ml: seq<nat>, mh: seq<nat>, info: ByteInfo)
    requires |ws| == |ml| == |mh| && Phase1Status(dir, ws) == 0
    ensures Found(dir, ws, ml, mh, ws, info)
  {
  }

  lemma DefinedMeansLocked(dir: Direction, ws: seq<Words>)
    requires Phase1Status(dir, ws) != 0
    ensures AllBitsLocked(ws)
  {
  }

  lemma MiddleSearched(ws0: seq<Words>, ml: seq<nat>, mh: seq<nat>, info0: ByteInfo,
                       ws1: seq<Words>, info1: ByteInfo, ws2: seq<Words>, info2: ByteInfo)
    requires |ws0| == |ml| == |mh| == BITS
    requires Describes(OPER_WRITE, ws0, info0) && Phase1Status(OPER_WRITE, ws0) != 0
    requires MiddleStored(LOW2HIGH, ml, ws0, info0, ws1, info1)
    requires MiddleStored(HIGH2LOW, mh, ws1, info1, ws2, info2)
    ensures Found(OPER_WRITE, ws0, ml, mh, ws2, info2)
  {
    hide Phase1Status, MiddleWord, ClassOf, AllBitsLocked;
    DefinedMeansLocked(OPER_WRITE, ws0);
    assert ws2 == AfterMiddle(ws0, ml, mh);
  }

  lemma NoMiddleNeeded(dir: Direction, ws: seq<Words>, ml: seq<nat>, mh: seq<nat>, info: ByteInfo)
    requires |ws| == |ml| == |mh| == BITS
    requires Describes(dir, ws, info) && (dir.OPER_WRITE? ==> !HasSplit(ws))
    ensures Found(dir, ws, ml, mh, ws, info)
  {
  }

  lemma NothingToAlign(ws: seq<Words>, states: seq<BitState>)
    requires |ws| == |states| && BIT_LOW_UI !in states
    ensures Aligned(ws, states) == ws
  {
  }

  /** Some byte needs alignment, and the middle search, which sets the result pointers, does not run. */
  ghost predicate MeetsUnsetPointer(dir: Direction, active: seq<bool>, results: seq<seq<Words>>,
                                    ml: seq<seq<nat>>, mh: seq<seq<nat>>)
    requires |active| == |results| == |ml| == |mh|
    requires forall s :: 0 <= s < |active| ==> |results[s]| == |ml[s]| == |mh[s]|
  {
    && dir.OPER_WRITE?
    && (forall s :: 0 <= s < |active| && active[s] ==> !HasSplit(results[s]))
    && (exists s :: 0 <= s < |active| && active[s] && NeedsAlignment(results[s], ml[s], mh[s]))
  }

  class Engine {
    const active: seq<bool>
    const results: array<seq<Words>>
    var byteStatus: seq<bv8>

    ghost predicate Valid()
      reads this, results
    {
      && |active| == results.Length == |byteStatus|
      && forall s :: 0 <= s < results.Length ==> |results[s]| == BITS
    }

    constructor (active: seq<bool>, results: array<seq<Words>>, byteStatus: seq<bv8>)
      requires |active| == results.Length == |byteStatus|
      requires forall s :: 0 <= s < results.Length ==> |results[s]| == BITS
      ensures Valid() && this.active == active && this.results == results && this.byteStatus == byteStatus
    {
      this.active, this.results, this.byteStatus := active, results, byteStatus;
    }

    /** Phase 1 for every active byte. */
    method Classify(dir: Direction) returns (infos: seq<ByteInfo>, splitActive: bool)
      requires Valid()
      modifies this`byteStatus
      ensures Valid() && |infos| == |active|
      ensures forall s :: 0 <= s < |active| && active[s] ==>
                Describes(dir, results[s], infos[s]) && byteStatus[s] == infos[s].status
      ensures forall s :: 0 <= s < |active| && !active[s] ==> byteStatus[s] == old(byteStatus[s])
      ensures splitActive <==> dir.OPER_WRITE? && exists s :: 0 <= s < |active| && active[s] && HasSplit(results[s])
    {
      hide Describes, HasSplit;
      infos := seq(|active|, _ => ByteInfo(0, [], [], []));
      splitActive := false;
      for s := 0 to |active|
        invariant Valid() && |infos| == |active|
        invariant forall j :: 0 <= j < s && active[j] ==>
                    Describes(dir, results[j], infos[j]) && byteStatus[j] == infos[j].status
        invariant forall j :: 0 <= j < |active| && (!active[j] || s <= j) ==> byteStatus[j] == old(byteStatus[j])
        invariant splitActive <==> dir.OPER_WRITE? && exists j :: 0 <= j < s && active[j] && HasSplit(results[j])
      {
        if active[s] {
          var info, split := ClassifyByte(dir, results[s]);
          infos := infos[s := info];
          byteStatus := byteStatus[s := info.status];
          splitActive := splitActive || split;
        }
      }
    }

    /** Phase 2: the middle search of one direction, for the defined bytes with wrapped-around bits. */
    method SearchMiddle(d: Search, raw: seq<seq<nat>>, infos0: seq<ByteInfo>) returns (infos: seq<ByteInfo>)
      requires Valid() && |raw| == |infos0| == |active|
      requires forall s :: 0 <= s < |active| && active[s] ==>
                 |infos0[s].states| == |infos0[s].l2h| == |infos0[s].h2l| == |raw[s]| == BITS
      modifies results
      ensures Valid() && |infos| == |active|
      ensures forall s :: 0 <= s < |active| ==>
                if active[s] && byteStatus[s] != BYTE_NOT_DEFINED
                then MiddleStored(d, raw[s], old(results[s]), infos0[s], results[s], infos[s])
                else results[s] == old(results[s]) && infos[s] == infos0[s]
    {
      hide MiddleStored;
      infos := infos0;
      for s := 0 to |active|
        invariant Valid() && |infos| == |active|
        invariant forall j :: 0 <= j < s ==>
                    if active[j] && byteStatus[j] != BYTE_NOT_DEFINED
                    then MiddleStored(d, raw[j], old(results[j]), infos0[j], results[j], infos[j])
                    else results[j] == old(results[j]) && infos[j] == infos0[j]
        invariant forall j :: s <= j < |active| ==> results[j] == old(results[j]) && infos[j] == infos0[j]
      {
        if active[s] && byteStatus[s] != BYTE_NOT_DEFINED {
          var ws, info := StoreMiddle(d, raw[s], results[s], infos[s]);
          results[s], infos := ws, infos[s := info];
        }
      }
    }

    /** The last pass: mixed bytes are resolved, and aligned when their centres lie too far apart. */
    method Resolve(ran: bool, infos: seq<ByteInfo>, ghost centers: seq<seq<nat>>) returns (fault: bool)
      requires Valid() && |infos| == |centers| == |active|
      requires forall s :: 0 <= s < |active| && active[s] && !IsHomogeneous(byteStatus[s]) ==>
                 Prepared(infos[s], centers[s])
      modifies results, this`byteStatus
      ensures !fault ==> Valid()
      ensures !fault ==> forall s :: 0 <= s < |active| ==>
                if active[s]
                then Resolved(infos[s], centers[s], old(byteStatus[s]), old(results[s]), byteStatus[s], results[s])
                else results[s] == old(results[s]) && byteStatus[s] == old(byteStatus[s])
      ensures fault <==> !ran && exists s :: 0 <= s < |active| && active[s]
                                             && LowBitToMove(infos[s], centers[s], old(byteStatus[s]))
    {
      hide Spread, Aligned;
      for s := 0 to |active|
        invariant Valid()
        invariant forall j :: s <= j < |active| ==> results[j] == old(results[j]) && byteStatus[j] == old(byteStatus[j])
        invariant forall j :: 0 <= j < s ==>
                    if active[j]
                    then Resolved(infos[j], centers[j], old(byteStatus[j]), old(results[j]), byteStatus[j], results[j])
                    else results[j] == old(results[j]) && byteStatus[j] == old(byteStatus[j])
        invariant forall j :: 0 <= j < s && active[j] && LowBitToMove(infos[j], centers[j], old(byteStatus[j])) ==> ran
      {
        if active[s] && !IsHomogeneous(byteStatus[s]) {
          var spread := CenterSpread(infos[s], centers[s]);
          if spread <= 31 {
            byteStatus := byteStatus[s := BYTE_HOMOGENEOUS_SPLIT_IN];
          }
          if spread >= 32 {
            byteStatus := byteStatus[s := BYTE_SPLIT_OUT_MIX];
            if !ran && BIT_LOW_UI in infos[s].states {
              return true;
            }
            var ws := AlignByte(results[s], infos[s].states);
            if !ran {
              NothingToAlign(results[s], infos[s].states);
            }
            results[s] := ws;
          }
        }
      }
      return false;
    }

    /**
      The whole wrapper on the searched results of one interface. Every active byte ends with
      the status and the words that its own results decide; inactive ones are untouched. The
      result pointers are only set by the middle search, so the alignment goes through a null
      pointer exactly when a byte with a low bit must be aligned although no active byte showed
      a wrapped-around bit.
    */
    method Run(dir: Direction, ml: seq<seq<nat>>, mh: seq<seq<nat>>) returns (fault: bool)
      requires Valid() && |ml| == |mh| == |active|
      requires forall s :: 0 <= s < |active| ==> |ml[s]| == |mh[s]| == BITS
      modifies results, this`byteStatus
      ensures !fault ==> Valid()
      ensures !fault ==> forall s :: 0 <= s < |active| && active[s] ==>
                && byteStatus[s] == FinalStatus(dir, old(results[s]), ml[s], mh[s])
                && results[s] == FinalWords(dir, old(results[s]), ml[s], mh[s])
      ensures !fault ==> forall s :: 0 <= s < |active| && !active[s] ==>
                results[s] == old(results[s]) && byteStatus[s] == old(byteStatus[s])
      ensures fault <==> MeetsUnsetPointer(dir, active, old(results[..]), ml, mh)
    {
      hide Describes, HasSplit, MiddleStored, Phase1Status, FinalStatus, FinalWords, Resolved, LowBitToMove;
      hide Prepared, Found, NeedsAlignment, IsHomogeneous;
      ghost var before := results[..];
      var infos, splitActive := Classify(dir);
      ghost var first := infos;
      forall s | 0 <= s < |active| && active[s]
        ensures DescribedShape(results[s], infos[s]) && byteStatus[s] == Phase1Status(dir, results[s])
      {
        DescribesShape(dir, results[s], infos[s]);
      }
      if splitActive {
        infos := SearchMiddle(LOW2HIGH, ml, infos);
        ghost var second, between := infos, results[..];
        forall s | 0 <= s < |active| && active[s]
          ensures DescribedShape(results[s], infos[s])
        {
          if byteStatus[s] != BYTE_NOT_DEFINED {
            StoredShape(LOW2HIGH, ml[s], old(results[s]), first[s], results[s], infos[s]);
          }
        }
        infos := SearchMiddle(HIGH2LOW, mh, infos);
        forall s | 0 <= s < |active| && active[s]
          ensures Found(dir, old(results[s]), ml[s], mh[s], results[s], infos[s])
        {
          if byteStatus[s] != BYTE_NOT_DEFINED {
            MiddleSearched(old(results[s]), ml[s], mh[s], first[s], between[s], second[s], results[s], infos[s]);
          } else {
            UndefinedFound(dir, results[s], ml[s], mh[s], infos[s]);
          }
        }
      } else {
        forall s | 0 <= s < |active| && active[s]
          ensures Found(dir, old(results[s]), ml[s], mh[s], results[s], infos[s])
        {
          NoMiddleNeeded(dir, results[s], ml[s], mh[s], infos[s]);
        }
      }
      ghost var centers := seq(|active|, s requires 0 <= s < |active| =>
        if active[s] then Centers(before[s], ml[s], mh[s]) else []);
      forall s | 0 <= s < |active| && active[s]
        ensures !IsHomogeneous(byteStatus[s]) ==> Prepared(infos[s], centers[s])
        ensures LowBitToMove(infos[s], centers[s], byteStatus[s]) <==>
                  dir.OPER_WRITE? && NeedsAlignment(before[s], ml[s], mh[s])
      {
        BeforeLastPass(dir, before[s], ml[s], mh[s], results[s], infos[s]);
      }
      ghost var stored := results[..];
      ghost var statuses := byteStatus;
      fault := Resolve(splitActive, infos, centers);
      if !fault {
        forall s | 0 <= s < |active| && active[s]
          ensures byteStatus[s] == FinalStatus(dir, before[s], ml[s], mh[s])
          ensures results[s] == FinalWords(dir, before[s], ml[s], mh[s])
        {
          AfterLastPass(dir, before[s], ml[s], mh[s], stored[s], infos[s], byteStatus[s], results[s]);
        }
      }
    }
  }

  /** Adding 64 moves a tap below 192 up by 64 and keeps the lock bit. */
  lemma Up64KeepsLock(word: nat)
    requires word < WORD && Tap(word) < 192
    ensures Tap((word + 64) % WORD) == Tap(word) + 64
    ensures Locked((word + 64) % WORD) <==> Locked(word)
  {
  }

  /**
    Alignment moves whole windows: in a mixed byte both edges of every low bit go up by 64, so
    the window keeps its width and its lock bits, and every other bit keeps its words.
  */
  lemma AlignmentKeepsWindows(ws: seq<Words>, ml: seq<nat>, mh: seq<nat>, b: nat)
    requires |ws| == |ml| == |mh| && b < |ws|
    requires FinalStatus(OPER_WRITE, ws, ml, mh) == BYTE_SPLIT_OUT_MIX
    requires ws[b].l2h < WORD && ws[b].h2l < WORD && Tap(ws[b].l2h) < 192 && Tap(ws[b].h2l) < 192
    ensures var w := FinalWords(OPER_WRITE, ws, ml, mh)[b];
            match StateOf(ws[b])
            case BIT_LOW_UI =>
              && Tap(w.l2h) == Tap(ws[b].l2h) + 64 && Tap(w.h2l) == Tap(ws[b].h2l) + 64
              && Tap(w.h2l) + Tap(ws[b].l2h) == Tap(w.l2h) + Tap(ws[b].h2l)
              && (BitLocked(w) <==> BitLocked(ws[b]))
            case BIT_SPLIT_OUT => w == Words(MiddleWord(LOW2HIGH, ml[b]), MiddleWord(HIGH2LOW, mh[b]))
            case _ => w == ws[b]
  {
    hide Phase1Status, Spread, Tap, Locked;
    Up64KeepsLock(ws[b].l2h);
    Up64KeepsLock(ws[b].h2l);
  }

  /** Low and high bits 32 taps apart must be aligned although nothing is wrapped around. */
  lemma AlignmentWithoutMiddleSearch(ws: seq<Words>, ml: seq<nat>, mh: seq<nat>, i: nat, j: nat)
    requires |ws| == |ml| == |mh| && AllBitsLocked(ws)
    requires forall b :: 0 <= b < |ws| ==> ClassOf(ws[b]) == Low || ClassOf(ws[b]) == High
    requires i < |ws| && j < |ws| && ClassOf(ws[i]) == Low && ClassOf(ws[j]) == High
    requires Centers(ws, ml, mh)[i] + 32 <= Centers(ws, ml, mh)[j]
    ensures !HasSplit(ws) && NeedsAlignment(ws, ml, mh)
  {
  }

  /** Then the byte keeps its high bits' words, and its low bits' words go up by 64. */
  lemma AlignedWithoutMiddleSearch(ws: seq<Words>, ml: seq<nat>, mh: seq<nat>, i: nat, j: nat)
    requires |ws| == |ml| == |mh| && AllBitsLocked(ws)
    requires forall b :: 0 <= b < |ws| ==> ClassOf(ws[b]) == Low || ClassOf(ws[b]) == High
    requires i < |ws| && j < |ws| && ClassOf(ws[i]) == Low && ClassOf(ws[j]) == High
    requires Centers(ws, ml, mh)[i] + 32 <= Centers(ws, ml, mh)[j]
    ensures |FinalWords(OPER_WRITE, ws, ml, mh)| == |ws|
    ensures forall b :: 0 <= b < |ws| ==>
              FinalWords(OPER_WRITE, ws, ml, mh)[b] == if ClassOf(ws[b]) == Low then Up64(ws[b]) else ws[b]
  {
    hide AllBitsLocked, Centers, Up64, ClassOf;
    AlignmentWithoutMiddleSearch(ws, ml, mh, i, j);
  }

  /** Such a byte exists: one bit locked at tap 5, seven at tap 50. */
  lemma AlignmentWithoutMiddleSearchExample(ws: seq<Words>, ml: seq<nat>, mh: seq<nat>)
    requires |ws| == |ml| == |mh| == BITS
    requires ws[0] == Words(TIP_ENG_LOCK + 5, TIP_ENG_LOCK + 5)
    requires forall b :: 0 < b < BITS ==> ws[b] == Words(TIP_ENG_LOCK + 50, TIP_ENG_LOCK + 50)
    ensures !HasSplit(ws) && NeedsAlignment(ws, ml, mh)
  {
    hide HasSplit, NeedsAlignment;
    assert ClassOf(Words(TIP_ENG_LOCK + 5, TIP_ENG_LOCK + 5)) == Low;
    assert ClassOf(Words(TIP_ENG_LOCK + 50, TIP_ENG_LOCK + 50)) == High;
    AlignmentWithoutMiddleSearch(ws, ml, mh, 0, 1);
  }

  // ----- What the wrapper does, in terms of the raw words -----

  /** A missing lock in the middle search is stored as a locked tap 64. */
  lemma MissingMiddle()
    ensures Tap(0x200_0040) == 64 && Locked(0x200_0040)
  {
  }

  lemma WrappedByteIsDefined(ws: seq<Words>, b: nat)
    requires b < |ws| && AllBitsLocked(ws) && ClassOf(ws[b]) == SplitOut
    ensures Phase1Status(OPER_WRITE, ws) != 0
  {
  }

  lemma MiddleWords(l: nat, h: nat)
    requires l < WORD && h < WORD && Tap(h) < 192
    ensures var w := Words(MiddleWord(LOW2HIGH, l), MiddleWord(HIGH2LOW, h));
            && Locked(w.l2h) && Tap(w.l2h) == (if Locked(l) then Tap(l) else 64)
            && Locked(w.h2l) && Tap(w.h2l) == (if Locked(h) then Tap(h) + 64 else 64)
  {
    MissingMiddle();
    Up64KeepsLock(h);
    hide Tap, Locked;
  }

  /**
    A wrapped-around bit of a fully locked byte ends with the words of the middle search: the one from
    low to high as it was read, the one from high to low 64 taps further, both still locked; without a
    lock either becomes a locked tap 64. The alignment never moves such a bit.
  */
  lemma WrappedBitIsSearchedAgain(ws: seq<Words>, ml: seq<nat>, mh: seq<nat>, b: nat)
    requires |ws| == |ml| == |mh| && b < |ws| && AllBitsLocked(ws)
    requires Tap(ws[b].l2h) + 32 < Tap(ws[b].h2l)
    requires ml[b] < WORD && mh[b] < WORD && Tap(mh[b]) < 192
    ensures |FinalWords(OPER_WRITE, ws, ml, mh)| == |ws|
    ensures var w := FinalWords(OPER_WRITE, ws, ml, mh)[b];
            && Locked(w.l2h) && Tap(w.l2h) == (if Locked(ml[b]) then Tap(ml[b]) else 64)
            && Locked(w.h2l) && Tap(w.h2l) == (if Locked(mh[b]) then Tap(mh[b]) + 64 else 64)
  {
    WrappedByteIsDefined(ws, b);
    MiddleWords(ml[b], mh[b]);
    hide Tap, Locked, Phase1Status, FinalStatus, MiddleWord, AllBitsLocked;
    assert ClassOf(ws[b]) == SplitOut && StateOf(ws[b]) == BIT_SPLIT_OUT;
  }

  /** A byte with a word that is not locked ends undefined, with its words as they were, in both directions. */
  lemma UnlockedByteStays(dir: Direction, ws: seq<Words>, ml: seq<nat>, mh: seq<nat>, b: nat)
    requires |ws| == |ml| == |mh| && b < |ws| && !(Locked(ws[b].l2h) && Locked(ws[b].h2l))
    ensures FinalStatus(dir, ws, ml, mh) == 0 && FinalWords(dir, ws, ml, mh) == ws
  {
    hide Locked;
    assert !BitLocked(ws[b]);
  }

  /** A fully locked byte that was read ends with the flag of a low byte, with its words as they were. */
  lemma ReadByteStays(ws: seq<Words>, ml: seq<nat>, mh: seq<nat>)
    requires |ws| == |ml| == |mh| && ws != []
    requires forall b :: 0 <= b < |ws| ==> Locked(ws[b].l2h) && Locked(ws[b].h2l)
    ensures FinalStatus(OPER_READ, ws, ml, mh) == 0x1 && FinalWords(OPER_READ, ws, ml, mh) == ws
  {
    hide Locked;
  }

  /** The edges of every locked bit of a byte belong to one class. */
  ghost predicate AllOfClass(ws: seq<Words>, c: Class) {
    ws != [] && AllBitsLocked(ws) && forall b :: 0 <= b < |ws| ==> ClassOf(ws[b]) == c
  }

  /** A byte of one class ends with the flag of that class, and only wrapped-around bits are searched again. */
  lemma HomogeneousByte(ws: seq<Words>, ml: seq<nat>, mh: seq<nat>, c: Class)
    requires |ws| == |ml| == |mh| && AllOfClass(ws, c) && c != Inverted
    ensures FinalStatus(OPER_WRITE, ws, ml, mh) ==
              match c case Low => 0x1 case High => 0x2 case SplitIn => 0x4 case _ => 0x8
    ensures FinalWords(OPER_WRITE, ws, ml, mh) == AfterMiddle(ws, ml, mh)
    ensures c != SplitOut ==> FinalWords(OPER_WRITE, ws, ml, mh) == ws
  {
    hide BitLocked, ClassOf, Spread;
    assert ClassOf(ws[0]) == c;
    assert forall c' :: SomeBit(ws, c') <==> c' == c;
  }

  /** The centre of a bit in numbers: between its two taps, or those of the middle search; 32 for inverted taps. */
  lemma CentersInNumbers(ws: seq<Words>, ml: seq<nat>, mh: seq<nat>, b: nat)
    requires |ws| == |ml| == |mh| && b < |ws| && ml[b] < WORD && mh[b] < WORD && Tap(mh[b]) < 192
    ensures var (l, h, c) := (Tap(ws[b].l2h), Tap(ws[b].h2l), Centers(ws, ml, mh)[b]);
            if l + 32 < h then Locked(ml[b]) && Locked(mh[b]) ==>
              2 * c <= Tap(ml[b]) + Tap(mh[b]) + 64 <= 2 * c + 1
            else if l >= 32 && h <= 31 then c == 32
            else 2 * c <= l + h <= 2 * c + 1
  {
    MiddleWords(ml[b], mh[b]);
    hide Tap, Locked, MiddleWord;
  }

  /** Two centres lie 32 taps or more apart; a centre counts as at most 64 for the smaller one. */
  ghost predicate FarApart(centers: seq<nat>) {
    || (exists i, j :: 0 <= i < |centers| && 0 <= j < |centers| && centers[j] + 32 <= centers[i])
    || (exists i :: 0 <= i < |centers| && 96 <= centers[i])
  }

  lemma SpreadMeans(centers: seq<nat>)
    requires centers != []
    ensures Spread(centers) > 31 <==> FarApart(centers)
  {
    var hi :| 0 <= hi < |centers| && centers[hi] == MaxOf(centers);
    if MinOf(centers) != 64 {
      var lo :| 0 <= lo < |centers| && centers[lo] == MinOf(centers);
    }
  }

  lemma TwoFlags(ws: seq<Words>, i: nat, j: nat)
    requires i < |ws| && j < |ws| && AllBitsLocked(ws)
    requires ClassOf(ws[i]) != Inverted && ClassOf(ws[j]) != Inverted && ClassOf(ws[i]) != ClassOf(ws[j])
    ensures !IsHomogeneous(Phase1Status(OPER_WRITE, ws))
  {
    hide BitLocked, ClassOf;
    assert SomeBit(ws, ClassOf(ws[i])) && SomeBit(ws, ClassOf(ws[j]));
  }

  /** A byte with bits of two classes is a mixture exactly when two of its centres lie too far apart. */
  lemma MixedByte(ws: seq<Words>, ml: seq<nat>, mh: seq<nat>, i: nat, j: nat)
    requires |ws| == |ml| == |mh| && AllBitsLocked(ws) && i < |ws| && j < |ws|
    requires ClassOf(ws[i]) != Inverted && ClassOf(ws[j]) != Inverted && ClassOf(ws[i]) != ClassOf(ws[j])
    ensures FinalStatus(OPER_WRITE, ws, ml, mh) == if FarApart(Centers(ws, ml, mh)) then 0x10 else 0x4
  {
    hide BitLocked, ClassOf, Spread, Centers, FarApart;
    SpreadMeans(Centers(ws, ml, mh));
    TwoFlags(ws, i, j);
  }

  /** The buffer holds direction after direction, in it interface after interface, byte after byte, bit after bit. */
  lemma BufferIsConsecutive(nIf: nat, nBus: nat, d: Search, i: nat, s: nat, b: nat)
    ensures Cell(nIf, nBus, LOW2HIGH, 0, 0, 0) == 0
    ensures Cell(nIf, nBus, d, i, s, b + 1) == Cell(nIf, nBus, d, i, s, b) + 1
    ensures Cell(nIf, nBus, d, i, s + 1, b) == Cell(nIf, nBus, d, i, s, b) + 8
    ensures Cell(nIf, nBus, d, i + 1, 0, 0) == Cell(nIf, nBus, d, i, nBus, 0)
    ensures Cell(nIf, nBus, HIGH2LOW, 0, 0, 0) == Cell(nIf, nBus, LOW2HIGH, nIf, 0, 0)
  {
    assert (i + 1) * nBus * BITS == i * nBus * BITS + nBus * BITS;
  }
}
