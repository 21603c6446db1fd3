/**
  The circular pass-interval finder used for data-mask tuning.

  A vector of per-tap verdicts is read modulo its size. Starting at the right marker the
  finder looks for the run of passing taps at the marker, or else for the nearest one to
  its left, and reports its two ends.
*/
module PassInterval {

  datatype Verdict = PASS | FAIL

  const ADLL_TAPS_PER_PERIOD: nat := 64

  /** The verdict at tap k when the first n taps are repeated for ever. */
  predicate Passes(v: seq<Verdict>, n: nat, k: nat)
    requires 0 < n <= |v|
  {
    v[k % n] == PASS
  }

  lemma BelowOne(n: nat, d: int)
    requires 0 < n + n * d && n * d < n
    ensures d == 0
  {
  }

  lemma SameRemainder(n: nat, q: nat, r: nat)
    requires r < n
    ensures (n * q + r) % n == r
  {
    var x := n * q + r;
    var d := x / n - q;
    assert n * d == r - x % n;
    BelowOne(n, d);
  }

  lemma OneTurnOn(v: seq<Verdict>, n: nat, l: nat)
    requires 0 < n <= |v|
    ensures Passes(v, n, l + n) <==> Passes(v, n, l)
  {
    assert l == n * (l / n) + l % n;
    SameRemainder(n, l / n + 1, l % n);
    assert l + n == n * (l / n + 1) + l % n;
  }

  /** A tap passes exactly when its verdict says so, and the verdicts repeat after n taps. */
  lemma VerdictsRepeat(v: seq<Verdict>, n: nat, k: nat)
    requires 0 < n <= |v|
    ensures k < n ==> (Passes(v, n, k) <==> v[k] == PASS)
    ensures Passes(v, n, k + n) <==> Passes(v, n, k)
  {
    OneTurnOn(v, n, k);
  }

  ghost predicate AllAre(v: seq<Verdict>, lo: nat, hi: nat, x: Verdict)
    requires hi < |v|
  {
    forall k :: lo <= k <= hi ==> v[k] == x
  }

  /** All taps from lo to hi pass, both neighbours fail, and the run does not go all the way round. */
  ghost predicate IsMaximalRun(v: seq<Verdict>, n: nat, lo: nat, hi: nat)
    requires 0 < n <= |v|
  {
    && 0 < lo <= hi && hi - lo + 1 < n
    && (forall k: nat :: lo <= k <= hi ==> Passes(v, n, k))
    && !Passes(v, n, lo - 1)
    && !Passes(v, n, hi + 1)
  }

  /** The run at the marker or, when the marker tap fails, the nearest one to its left. */
  ghost predicate IsRunAtMarker(v: seq<Verdict>, n: nat, marker: nat, lo: nat, hi: nat)
    requires 0 < n <= |v|
  {
    && lo <= marker
    && if Passes(v, n, marker) then marker <= hi
       else hi < marker && forall k: nat :: hi < k <= marker ==> !Passes(v, n, k)
  }

  /**
    When a mixed vector with left end point l has a run to report: a marker up to the right end
    point needs a failing tap directly followed by a passing one between l and the marker; a
    marker in the repeated part needs a failing tap from it to the end of the repetition.
  */
  ghost predicate IsFindable(v: seq<Verdict>, n: nat, l: nat, marker: nat)
    requires 0 < n <= |v|
  {
    if marker < l + n then exists i: nat :: l <= i < marker && !Passes(v, n, i) && Passes(v, n, i + 1)
    else && (exists k: nat :: marker <= k < l + 2 * n && !Passes(v, n, k))
         && (exists k: nat :: Passes(v, n, k))
  }

  // ----- The two searches -----

  ghost predicate IsRightEnd(v: seq<Verdict>, n: nat, marker: nat, right: nat)
    requires 0 < n <= |v|
  {
    && Passes(v, n, right) && !Passes(v, n, right + 1)
    && if Passes(v, n, marker)
       then marker <= right && forall k: nat :: marker <= k <= right ==> Passes(v, n, k)
       else right < marker && forall k: nat :: right < k <= marker ==> !Passes(v, n, k)
  }

  ghost predicate NoRightEnd(v: seq<Verdict>, n: nat, l: nat, r: nat, marker: nat)
    requires 0 < n <= |v|
  {
    if Passes(v, n, marker)
    then forall k: nat :: marker <= k <= (if marker > r then r + n else marker + n - 1) ==> Passes(v, n, k)
    else forall k: nat :: (if marker > r then marker - n + 1 else l) <= k <= marker ==> !Passes(v, n, k)
  }

  ghost predicate IsLeftEnd(v: seq<Verdict>, n: nat, left: nat, right: nat)
    requires 0 < n <= |v|
  {
    && 0 < left <= right && right - left + 1 < n
    && !Passes(v, n, left - 1)
    && forall k: nat :: left <= k <= right ==> Passes(v, n, k)
  }

  ghost predicate NoLeftEnd(v: seq<Verdict>, n: nat, l: nat, r: nat, right: nat)
    requires 0 < n <= |v|
  {
    forall k: nat :: (if right > r then right - n + 1 else l) <= k <= right ==> Passes(v, n, k)
  }

  ghost predicate IsMixed(v: seq<Verdict>, lo: nat, hi: nat)
    requires hi < |v|
  {
    !AllAre(v, lo, hi, FAIL) && !AllAre(v, lo, hi, PASS)
  }

  lemma TwoEndsMakeARun(v: seq<Verdict>, n: nat, marker: nat, left: nat, right: nat)
    requires 0 < n <= |v|
    requires IsRightEnd(v, n, marker, right) && IsLeftEnd(v, n, left, right)
    ensures IsMaximalRun(v, n, left, right) && IsRunAtMarker(v, n, marker, left, right)
  {
  }

  /** The marker determines the run. */
  lemma RunAtMarkerIsUnique(v: seq<Verdict>, n: nat, marker: nat, lo: nat, hi: nat, lo': nat, hi': nat)
    requires 0 < n <= |v|
    requires IsMaximalRun(v, n, lo, hi) && IsRunAtMarker(v, n, marker, lo, hi)
    requires IsMaximalRun(v, n, lo', hi') && IsRunAtMarker(v, n, marker, lo', hi')
    ensures lo == lo' && hi == hi'
  {
    hide Passes;
    assert Passes(v, n, hi) && Passes(v, n, hi') && hi == hi';
    assert lo < lo' ==> lo <= lo' - 1 <= hi;
    assert lo' < lo ==> lo' <= lo - 1 <= hi;
  }

  /** Every tap occurs among any n consecutive ones. */
  lemma FullTurn(v: seq<Verdict>, n: nat, from: nat, j: nat) returns (k: nat)
    requires 0 < n <= |v|
    ensures from <= k < from + n && (Passes(v, n, k) <==> Passes(v, n, j))
  {
    var r, jr := from % n, j % n;
    k := if jr >= r then from + (jr - r) else from + (jr - r + n);
    assert from == n * (from / n) + r;
    SameRemainder(n, if jr >= r then from / n else from / n + 1, jr);
    assert k == n * (if jr >= r then from / n else from / n + 1) + jr;
  }

  lemma NothingOnTheRight(v: seq<Verdict>, n: nat, l: nat, marker: nat)
    requires 1 < n <= |v| && l <= marker < l + 2 * n
    requires NoRightEnd(v, n, l, l + n - 1, marker)
    ensures !IsFindable(v, n, l, marker)
  {
    hide Passes;
    if Passes(v, n, marker) && marker < l + n {
      forall i: nat
        ensures Passes(v, n, i)
      {
        var k := FullTurn(v, n, marker, i);
      }
    } else if !Passes(v, n, marker) && marker >= l + n {
      forall i: nat
        ensures !Passes(v, n, i)
      {
        var k := FullTurn(v, n, marker - n + 1, i);
      }
    }
  }

  lemma NothingOnTheLeft(v: seq<Verdict>, n: nat, l: nat, marker: nat, right: nat)
    requires 1 < n <= |v| && l <= marker < l + 2 * n && l <= right < l + 2 * n
    requires IsRightEnd(v, n, marker, right) && NoLeftEnd(v, n, l, l + n - 1, right)
    ensures !IsFindable(v, n, l, marker)
  {
    OneTurnOn(v, n, l);
    hide Passes;
    if right >= l + n {
      forall i: nat
        ensures Passes(v, n, i)
      {
        var k := FullTurn(v, n, right - n + 1, i);
      }
    }
  }

  lemma FoundIsFindable(v: seq<Verdict>, n: nat, l: nat, marker: nat, left: nat, right: nat)
    requires 1 < n <= |v| && l <= marker < l + 2 * n && right + 1 < l + 2 * n && l < left
    requires IsRightEnd(v, n, marker, right) && IsLeftEnd(v, n, left, right)
    ensures IsFindable(v, n, l, marker)
  {
    hide Passes;
    TwoEndsMakeARun(v, n, marker, left, right);
    if marker < l + n {
      assert !Passes(v, n, left - 1) && Passes(v, n, left - 1 + 1);
    } else {
      assert !Passes(v, n, if Passes(v, n, marker) then right + 1 else marker);
    }
  }

  class Interval {
    var vector: seq<Verdict>
    var lendpnt: nat
    var rendpnt: nat
    var size: nat
    var lmarker: nat
    var rmarker: nat
    var passLendpnt: nat
    var passRendpnt: nat

    constructor ()
      ensures vector == []
    {
      vector := [];
    }

    /** A usable interval: its ends lie in the vector, and the doubled range fits the 8-bit fields. */
    ghost predicate Valid()
      reads this
    {
      && lendpnt < rendpnt < |vector|
      && size == rendpnt - lendpnt + 1
      && lendpnt <= lmarker <= rendpnt
      && lmarker <= rmarker <= rendpnt + size <= 255
    }

    /** Parameters are accepted exactly when the markers are in order and in range. */
    method Init(vec: seq<Verdict>, l: nat, r: nat, lm: nat, rm: nat) returns (ok: bool)
      requires l <= 255 && r <= 255 && lm <= 255 && rm <= 255
      modifies this
      ensures ok <==> l < r && l <= lm <= r && lm <= rm <= r + (r - l + 1) % 256
      ensures ok ==> vector == vec && lendpnt == l && rendpnt == r && lmarker == lm && rmarker == rm
      ensures ok ==> size == (r - l + 1) % 256
      ensures ok && r < |vec| && r + size <= 255 && !(l == 0 && r == 255) ==> Valid()
    {
      vector := vec;
      if l >= r {
        return false;
      }
      lendpnt, rendpnt, size := l, r, (r - l + 1) % 256;
      if lm < l || lm > r {
        return false;
      }
      lmarker := lm;
      if rm < lm || rm > rendpnt + size {
        return false;
      }
      rmarker := rm;
      ok := true;
    }

    /** Counts the verdicts between the end points. */
    method CountVerdicts() returns (fcnt: nat, pcnt: nat)
      requires Valid()
      ensures fcnt + pcnt == size
      ensures pcnt == 0 <==> AllAre(vector, lendpnt, rendpnt, FAIL)
      ensures fcnt == 0 <==> AllAre(vector, lendpnt, rendpnt, PASS)
    {
      fcnt, pcnt := 0, 0;
      var curr := lendpnt;
      while curr <= rendpnt
        invariant lendpnt <= curr <= rendpnt + 1
        invariant fcnt + pcnt == curr - lendpnt
        invariant pcnt == 0 <==> forall k :: lendpnt <= k < curr ==> vector[k] == FAIL
        invariant fcnt == 0 <==> forall k :: lendpnt <= k < curr ==> vector[k] == PASS
      {
        if vector[curr] == PASS {
          pcnt := pcnt + 1;
        } else {
          fcnt := fcnt + 1;
        }
        curr := curr + 1;
      }
    }

    /** The right end of the run, searched from the right marker. */
    method FindRightEnd() returns (ok: bool, right: nat)
      requires Valid()
      ensures ok ==> lendpnt <= right < rendpnt + size && Passes(vector, size, right)
      ensures ok ==> IsRightEnd(vector, size, rmarker, right)
      ensures !ok ==> NoRightEnd(vector, size, lendpnt, rendpnt, rmarker)
    {
      hide Passes;
      right := 0;
      var curr: int := rmarker;
      if Passes(vector, size, curr) {
        var lmt := if rmarker > rendpnt then rendpnt + size else rmarker + size - 1;
        while curr <= lmt && Passes(vector, size, curr)
          invariant rmarker <= curr <= lmt + 1
          invariant forall k: nat :: rmarker <= k < curr ==> Passes(vector, size, k)
        {
          curr := curr + 1;
        }
        if curr > lmt {
          return false, 0;
        }
        right := curr - 1;
      } else {
        var lmt := if rmarker > rendpnt then rmarker - size + 1 else lendpnt;
        while curr >= lmt && !Passes(vector, size, curr)
          invariant lmt - 1 <= curr <= rmarker
          invariant forall k: nat :: curr < k <= rmarker ==> !Passes(vector, size, k)
        {
          curr := curr - 1;
        }
        if curr < lmt {
          return false, 0;
        }
        right := curr;
      }
      ok := true;
    }

    /** The left end of the run that ends at `right`. */
    method FindLeftEnd(right: nat) returns (ok: bool, left: nat)
      requires Valid() && lendpnt <= right < rendpnt + size && Passes(vector, size, right)
      ensures ok ==> lendpnt < left && IsLeftEnd(vector, size, left, right)
      ensures !ok ==> NoLeftEnd(vector, size, lendpnt, rendpnt, right)
    {
      hide Passes;
      left := 0;
      var curr: int := right;
      var lmt := if right > rendpnt then right - size + 1 else lendpnt;
      while curr >= lmt && Passes(vector, size, curr)
        invariant lmt - 1 <= curr <= right
        invariant curr == right ==> Passes(vector, size, right)
        invariant forall k: nat :: curr < k <= right ==> Passes(vector, size, k)
      {
        curr := curr - 1;
      }
      if curr < lmt {
        return false, 0;
      }
      return true, curr + 1;
    }

    /**
      The reported run is a maximal circular run at the marker, and on a mixed vector the finder
      succeeds exactly when a run is findable from the marker.
    */
    method Proc() returns (ok: bool)
      requires Valid()
      modifies this`passLendpnt, this`passRendpnt
      ensures AllAre(vector, lendpnt, rendpnt, FAIL) ==> !ok
      ensures AllAre(vector, lendpnt, rendpnt, PASS) ==> ok && passLendpnt == lendpnt && passRendpnt == rendpnt
      ensures IsMixed(vector, lendpnt, rendpnt) && ok ==>
                && IsMaximalRun(vector, size, passLendpnt, passRendpnt)
                && IsRunAtMarker(vector, size, rmarker, passLendpnt, passRendpnt)
                && passRendpnt < rendpnt + size
      ensures IsMixed(vector, lendpnt, rendpnt) ==> (ok <==> IsFindable(vector, size, lendpnt, rmarker))
      ensures !ok ==> unchanged(this)
    {
      hide Passes, IsRightEnd, NoRightEnd, IsLeftEnd, NoLeftEnd, IsFindable, IsMaximalRun, IsRunAtMarker;
      var fcnt, pcnt := CountVerdicts();
      if fcnt == size {
        return false;
      }
      if pcnt == size {
        passLendpnt, passRendpnt := lendpnt, rendpnt;
        return true;
      }
      var found, right := FindRightEnd();
      if !found {
        NothingOnTheRight(vector, size, lendpnt, rmarker);
        return false;
      }
      var found', left := FindLeftEnd(right);
      if !found' {
        NothingOnTheLeft(vector, size, lendpnt, rmarker, right);
        return false;
      }
      TwoEndsMakeARun(vector, size, rmarker, left, right);
      FoundIsFindable(vector, size, lendpnt, rmarker, left, right);
      passLendpnt, passRendpnt := left, right;
      return true;
    }
  }

  /**
    The distances from a byte's valid window to the data mask's pass interval. They are
    computed exactly when the limits are in order and a partial run is findable, and then
    they span exactly that maximal run. The "no fail found" exit is taken for all-pass
    vectors only, since a partial run never covers the whole vector.
  */
  method DmToDqDiff(hiLmt: nat, loLmt: nat, vwVector: seq<Verdict>)
    returns (ok: bool, hiDiff: int, loDiff: int, noFailFound: bool)
    requires hiLmt <= 255 && loLmt <= 255 && |vwVector| >= ADLL_TAPS_PER_PERIOD
    ensures ok <==> && loLmt <= 63 && loLmt <= hiLmt <= 127
                    && IsMixed(vwVector, 0, 63)
                    && IsFindable(vwVector, 64, 0, hiLmt)
    ensures ok ==> && 0 < loLmt - loDiff <= hiLmt + hiDiff
                   && IsMaximalRun(vwVector, 64, loLmt - loDiff, hiLmt + hiDiff)
                   && IsRunAtMarker(vwVector, 64, hiLmt, loLmt - loDiff, hiLmt + hiDiff)
    ensures noFailFound <==> loLmt <= 63 && loLmt <= hiLmt <= 127 && AllAre(vwVector, 0, 63, PASS)
  {
    hide IsFindable, IsRunAtMarker, Passes;
    ok, hiDiff, loDiff, noFailFound := false, 0, 0, false;
    var intrvl := new Interval();
    var accepted := intrvl.Init(vwVector, 0, ADLL_TAPS_PER_PERIOD - 1, loLmt, hiLmt);
    if !accepted {
      return;
    }
    var found := intrvl.Proc();
    if !found {
      return;
    }
    if intrvl.passRendpnt == intrvl.rendpnt && intrvl.passLendpnt == intrvl.lendpnt {
      noFailFound := true;
      return;
    }
    hiDiff := intrvl.passRendpnt - hiLmt;
    loDiff := loLmt - intrvl.passLendpnt;
    ok := true;
  }
}
