/** Properties of the two extrapolation sweeps: which levels and cells they
    may change, the value a filled cell receives, how fills propagate along
    a column, the wrapped neighbour of the first iteration, and what follows
    for the 32 pressure levels the interpolation script uses. */
module ExtrapolationProperties {
  import opened LapseRates
  import opened Extrapolation

  /** The target pressure levels (hPa) of the interpolation script. */
  const ReferenceLevels: seq<real> := [
    10.0, 20.0, 30.0, 50.0, 70.0, 100.0, 125.0, 150.0, 175.0, 200.0, 225.0,
    250.0, 300.0, 350.0, 400.0, 450.0, 500.0, 550.0, 600.0, 650.0, 700.0,
    750.0, 775.0, 800.0, 825.0, 850.0, 875.0, 900.0, 925.0, 950.0, 975.0, 1000.0]

  // ---------------------------------------------------------------------
  // Iterations in closed form

  /** Iteration i of the top-down loop writes level i, from level i - 1, or
      from the last level when i == 0, and only when level i has a missing
      cell and lies above 50 hPa. */
  lemma TopDownStepAt(g: Grid, w: nat, levels: seq<real>, heights: seq<real>, i: nat)
    requires Fits(g, w, levels, heights) && i < |levels|
    ensures var above := if i == 0 then |levels| - 1 else i - 1;
      TopDownStep(g, w, levels, heights, i) ==
        if HasMissing(g[i]) && levels[i] > Split
        then g[i := FillRow(g[i], g[above], TopDownLapse(levels[i]), heights[above] - heights[i])]
        else g
  {
  }

  /** Iteration j of the bottom-up loop writes level r = n - 1 - j, from
      level r + 1, or from level 0 when j == 0, and only when level r has a
      missing cell and lies below 50 hPa. */
  lemma BottomUpStepAt(g: Grid, w: nat, levels: seq<real>, heights: seq<real>, j: nat)
    requires Fits(g, w, levels, heights) && j < |levels|
    ensures var r := |levels| - 1 - j;
      var below := if j == 0 then 0 else r + 1;
      BottomUpStep(g, w, levels, heights, j) ==
        if HasMissing(g[r]) && levels[r] < Split
        then g[r := FillRow(g[r], g[below], BottomUpLapse(levels[r]), heights[below] - heights[r])]
        else g
  {
  }

  // ---------------------------------------------------------------------
  // Top-down sweep

  /** After k iterations of the top-down loop: the levels not yet visited
      are unchanged; a level at or below 50 hPa, or with no missing cell,
      is unchanged; every present cell keeps its value. */
  lemma {:induction false} TopDownSweepFrame(g: Grid, w: nat, levels: seq<real>, heights: seq<real>, k: nat)
    requires Fits(g, w, levels, heights) && k <= |levels|
    ensures forall r :: k <= r < |levels| ==> TopDownSweep(g, w, levels, heights, k)[r] == g[r]
    ensures forall r :: 0 <= r < |levels| && !(levels[r] > Split && HasMissing(g[r])) ==>
      TopDownSweep(g, w, levels, heights, k)[r] == g[r]
    ensures forall r, c :: 0 <= r < |levels| && 0 <= c < w && g[r][c].Some? ==>
      TopDownSweep(g, w, levels, heights, k)[r][c] == g[r][c]
  {
    if k > 0 {
      TopDownSweepFrame(g, w, levels, heights, k - 1);
      var s: Grid := TopDownSweep(g, w, levels, heights, k - 1);
      assert s[k - 1] == g[k - 1];
      assert TopDownSweep(g, w, levels, heights, k) == TopDownStep(s, w, levels, heights, k - 1);
    }
  }

  /** Iterations after the k-th never touch the levels already visited. */
  lemma {:induction false} TopDownSettled(g: Grid, w: nat, levels: seq<real>, heights: seq<real>, k: nat, m: nat)
    requires Fits(g, w, levels, heights) && k <= m <= |levels|
    ensures forall r :: 0 <= r < k ==>
      TopDownSweep(g, w, levels, heights, m)[r] == TopDownSweep(g, w, levels, heights, k)[r]
  {
    if m > k {
      TopDownSettled(g, w, levels, heights, k, m - 1);
      var s: Grid := TopDownSweep(g, w, levels, heights, m - 1);
      forall r | 0 <= r < k
        ensures TopDownSweep(g, w, levels, heights, m)[r] == s[r]
      {
        TopDownStepAt(s, w, levels, heights, m - 1);
      }
    }
  }

  /** A missing cell of a level above 50 hPa (other than the first) ends up
      as the same cell of the next lower-pressure level, as that level ends
      up after the sweep, plus lapse x (height above - height here); it stays
      missing when that cell is missing. Fills therefore propagate downward. */
  lemma TopDownRecurrence(g: Grid, w: nat, levels: seq<real>, heights: seq<real>, i: nat, c: nat)
    requires Fits(g, w, levels, heights) && 1 <= i < |levels| && c < w
    requires g[i][c].None? && levels[i] > Split
    ensures var t := TopDownSweep(g, w, levels, heights, |levels|);
      (t[i - 1][c].None? ==> t[i][c].None?) &&
      (t[i - 1][c].Some? ==>
        t[i][c] == Some(t[i - 1][c].value + TopDownLapse(levels[i]) * (heights[i - 1] - heights[i])))
  {
    var n := |levels|;
    var s: Grid := TopDownSweep(g, w, levels, heights, i);
    var s1: Grid := TopDownSweep(g, w, levels, heights, i + 1);
    var t: Grid := TopDownSweep(g, w, levels, heights, n);
    var lapse, dz := TopDownLapse(levels[i]), heights[i - 1] - heights[i];
    assert s[i] == g[i] by {
      TopDownSweepFrame(g, w, levels, heights, i);
    }
    assert HasMissing(s[i]) by {
      assert s[i][c].None?;
    }
    assert s1[i] == FillRow(s[i], s[i - 1], lapse, dz) by {
      TopDownStepAt(s, w, levels, heights, i);
    }
    assert t[i] == s1[i] by {
      TopDownSettled(g, w, levels, heights, i + 1, n);
    }
    assert t[i - 1] == s[i - 1] by {
      TopDownSettled(g, w, levels, heights, i, n);
    }
    assert t[i][c] == FillCell(None, t[i - 1][c], lapse, dz);
  }

  /** The first iteration reads its neighbour at position -1, the last
      level: a missing cell of the lowest-pressure level, when that level
      lies above 50 hPa, is filled from the highest-pressure level as it
      was on entry. */
  lemma TopDownWrap(g: Grid, w: nat, levels: seq<real>, heights: seq<real>, c: nat)
    requires Fits(g, w, levels, heights) && 1 <= |levels| && c < w
    requires g[0][c].None? && levels[0] > Split
    ensures var t := TopDownSweep(g, w, levels, heights, |levels|);
      var last := |levels| - 1;
      (g[last][c].None? ==> t[0][c].None?) &&
      (g[last][c].Some? ==>
        t[0][c] == Some(g[last][c].value + TopDownLapse(levels[0]) * (heights[last] - heights[0])))
  {
    var last := |levels| - 1;
    var s1: Grid := TopDownSweep(g, w, levels, heights, 1);
    var t: Grid := TopDownSweep(g, w, levels, heights, |levels|);
    var lapse, dz := TopDownLapse(levels[0]), heights[last] - heights[0];
    assert HasMissing(g[0]) by {
      assert g[0][c].None?;
    }
    assert s1[0] == FillRow(g[0], g[last], lapse, dz) by {
      assert TopDownSweep(g, w, levels, heights, 0) == g;
      TopDownStepAt(g, w, levels, heights, 0);
    }
    assert t[0] == s1[0] by {
      TopDownSettled(g, w, levels, heights, 1, |levels|);
    }
    assert t[0][c] == FillCell(None, g[last][c], lapse, dz);
  }

  /** A present cell at level i0 fills the same cell on every higher-
      pressure level i, provided all levels after i0 lie above 50 hPa. */
  lemma {:induction false} TopDownPropagates(g: Grid, w: nat, levels: seq<real>, heights: seq<real>, i0: nat, c: nat, i: nat)
    requires Fits(g, w, levels, heights) && i0 <= i < |levels| && c < w
    requires g[i0][c].Some?
    requires forall k :: i0 < k < |levels| ==> levels[k] > Split
    ensures TopDownSweep(g, w, levels, heights, |levels|)[i][c].Some?
    decreases i
  {
    TopDownSweepFrame(g, w, levels, heights, |levels|);
    if i > i0 {
      TopDownPropagates(g, w, levels, heights, i0, c, i - 1);
      if g[i][c].None? {
        TopDownRecurrence(g, w, levels, heights, i, c);
      }
    }
  }

  // ---------------------------------------------------------------------
  // Bottom-up sweep

  /** After k iterations of the bottom-up loop: the levels not yet visited
      (rows below n - k) are unchanged; a level at or above 50 hPa, or with
      no missing cell, is unchanged; every present cell keeps its value. */
  lemma {:induction false} BottomUpSweepFrame(g: Grid, w: nat, levels: seq<real>, heights: seq<real>, k: nat)
    requires Fits(g, w, levels, heights) && k <= |levels|
    ensures forall r :: 0 <= r < |levels| - k ==> BottomUpSweep(g, w, levels, heights, k)[r] == g[r]
    ensures forall r :: 0 <= r < |levels| && !(levels[r] < Split && HasMissing(g[r])) ==>
      BottomUpSweep(g, w, levels, heights, k)[r] == g[r]
    ensures forall r, c :: 0 <= r < |levels| && 0 <= c < w && g[r][c].Some? ==>
      BottomUpSweep(g, w, levels, heights, k)[r][c] == g[r][c]
  {
    if k > 0 {
      BottomUpSweepFrame(g, w, levels, heights, k - 1);
      var s: Grid := BottomUpSweep(g, w, levels, heights, k - 1);
      assert s[|levels| - k] == g[|levels| - k];
      assert BottomUpSweep(g, w, levels, heights, k) == BottomUpStep(s, w, levels, heights, k - 1);
    }
  }

  /** Iterations after the k-th never touch the levels already visited. */
  lemma {:induction false} BottomUpSettled(g: Grid, w: nat, levels: seq<real>, heights: seq<real>, k: nat, m: nat)
    requires Fits(g, w, levels, heights) && k <= m <= |levels|
    ensures forall r :: |levels| - k <= r < |levels| ==>
      BottomUpSweep(g, w, levels, heights, m)[r] == BottomUpSweep(g, w, levels, heights, k)[r]
  {
    if m > k {
      BottomUpSettled(g, w, levels, heights, k, m - 1);
      var s: Grid := BottomUpSweep(g, w, levels, heights, m - 1);
      forall r | |levels| - k <= r < |levels|
        ensures BottomUpSweep(g, w, levels, heights, m)[r] == s[r]
      {
        BottomUpStepAt(s, w, levels, heights, m - 1);
      }
    }
  }

  /** A missing cell of a level below 50 hPa (other than the highest-pressure
      one) ends up as the same cell of the next higher-pressure level, as
      that level ends up after the sweep, plus lapse x (height below - height
      here); it stays missing when that cell is missing. Fills therefore
      propagate upward. */
  lemma BottomUpRecurrence(g: Grid, w: nat, levels: seq<real>, heights: seq<real>, r: nat, c: nat)
    requires Fits(g, w, levels, heights) && r + 1 < |levels| && c < w
    requires g[r][c].None? && levels[r] < Split
    ensures var b := BottomUpSweep(g, w, levels, heights, |levels|);
      (b[r + 1][c].None? ==> b[r][c].None?) &&
      (b[r + 1][c].Some? ==>
        b[r][c] == Some(b[r + 1][c].value + BottomUpLapse(levels[r]) * (heights[r + 1] - heights[r])))
  {
    var n := |levels|;
    var j := n - 1 - r;
    var s: Grid := BottomUpSweep(g, w, levels, heights, j);
    var s1: Grid := BottomUpSweep(g, w, levels, heights, j + 1);
    var b: Grid := BottomUpSweep(g, w, levels, heights, n);
    var lapse, dz := BottomUpLapse(levels[r]), heights[r + 1] - heights[r];
    assert s[r] == g[r] by {
      BottomUpSweepFrame(g, w, levels, heights, j);
    }
    assert HasMissing(s[r]) by {
      assert s[r][c].None?;
    }
    assert s1[r] == FillRow(s[r], s[r + 1], lapse, dz) by {
      BottomUpStepAt(s, w, levels, heights, j);
    }
    assert b[r] == s1[r] by {
      BottomUpSettled(g, w, levels, heights, j + 1, n);
    }
    assert b[r + 1] == s[r + 1] by {
      BottomUpSettled(g, w, levels, heights, j, n);
    }
    assert b[r][c] == FillCell(None, b[r + 1][c], lapse, dz);
  }

  /** The first iteration reads its neighbour at position -1 of the
      descending list, the lowest-pressure level: a missing cell of the
      highest-pressure level, when that level lies below 50 hPa, is filled
      from the lowest-pressure level as it was on entry. */
  lemma BottomUpWrap(g: Grid, w: nat, levels: seq<real>, heights: seq<real>, c: nat)
    requires Fits(g, w, levels, heights) && 1 <= |levels| && c < w
    requires g[|levels| - 1][c].None? && levels[|levels| - 1] < Split
    ensures var b := BottomUpSweep(g, w, levels, heights, |levels|);
      var last := |levels| - 1;
      (g[0][c].None? ==> b[last][c].None?) &&
      (g[0][c].Some? ==>
        b[last][c] == Some(g[0][c].value + BottomUpLapse(levels[last]) * (heights[0] - heights[last])))
  {
    var last := |levels| - 1;
    var s1: Grid := BottomUpSweep(g, w, levels, heights, 1);
    var b: Grid := BottomUpSweep(g, w, levels, heights, |levels|);
    var lapse, dz := BottomUpLapse(levels[last]), heights[0] - heights[last];
    assert HasMissing(g[last]) by {
      assert g[last][c].None?;
    }
    assert s1[last] == FillRow(g[last], g[0], lapse, dz) by {
      assert BottomUpSweep(g, w, levels, heights, 0) == g;
      BottomUpStepAt(g, w, levels, heights, 0);
    }
    assert b[last] == s1[last] by {
      BottomUpSettled(g, w, levels, heights, 1, |levels|);
    }
    assert b[last][c] == FillCell(None, g[0][c], lapse, dz);
  }

  /** A present cell at level i0 fills the same cell on every lower-pressure
      level i, provided all levels before i0 lie below 50 hPa. */
  lemma {:induction false} BottomUpPropagates(g: Grid, w: nat, levels: seq<real>, heights: seq<real>, i0: nat, c: nat, i: nat)
    requires Fits(g, w, levels, heights) && i <= i0 < |levels| && c < w
    requires g[i0][c].Some?
    requires forall k :: 0 <= k < i0 ==> levels[k] < Split
    ensures BottomUpSweep(g, w, levels, heights, |levels|)[i][c].Some?
    decreases i0 - i
  {
    BottomUpSweepFrame(g, w, levels, heights, |levels|);
    if i < i0 {
      BottomUpPropagates(g, w, levels, heights, i0, c, i + 1);
      if g[i][c].None? {
        BottomUpRecurrence(g, w, levels, heights, i, c);
      }
    }
  }

  // ---------------------------------------------------------------------
  // The whole call

  /** Each level is written by at most one sweep: levels above 50 hPa by the
      top-down one, levels below by the bottom-up one. A level at exactly
      50 hPa, or with no missing cell, comes out unchanged, and so does
      every present cell. */
  lemma ExtrapolatedFrame(g: Grid, w: nat, levels: seq<real>, heights: seq<real>)
    requires Fits(g, w, levels, heights)
    ensures var t := TopDownSweep(g, w, levels, heights, |levels|);
      var e := Extrapolated(g, w, levels, heights);
      (forall r :: 0 <= r < |levels| && levels[r] > Split ==> e[r] == t[r]) &&
      (forall r :: 0 <= r < |levels| && levels[r] < Split ==> t[r] == g[r]) &&
      (forall r :: 0 <= r < |levels| && (levels[r] == Split || !HasMissing(g[r])) ==> e[r] == g[r]) &&
      (forall r, c :: 0 <= r < |levels| && 0 <= c < w && g[r][c].Some? ==> e[r][c] == g[r][c])
  {
    var t := TopDownSweep(g, w, levels, heights, |levels|);
    TopDownSweepFrame(g, w, levels, heights, |levels|);
    BottomUpSweepFrame(t, w, levels, heights, |levels|);
  }

  /** A field with no missing cell comes back unchanged. */
  lemma ExtrapolatedFixesComplete(g: Grid, w: nat, levels: seq<real>, heights: seq<real>)
    requires Fits(g, w, levels, heights)
    requires forall r, c :: 0 <= r < |levels| && 0 <= c < w ==> g[r][c].Some?
    ensures Extrapolated(g, w, levels, heights) == g
  {
    var e := Extrapolated(g, w, levels, heights);
    forall r | 0 <= r < |levels|
      ensures !HasMissing(g[r])
    {
    }
    ExtrapolatedFrame(g, w, levels, heights);
  }

  /** A column whose cell at the 50 hPa level is present is complete after
      both sweeps: the top-down sweep fills every level below it, the
      bottom-up sweep every level above it. */
  lemma ColumnComplete(g: Grid, w: nat, levels: seq<real>, heights: seq<real>, k: nat, c: nat)
    requires Fits(g, w, levels, heights) && StrictlyAscending(levels)
    requires k < |levels| && c < w
    requires levels[k] == Split && g[k][c].Some?
    ensures forall i :: 0 <= i < |levels| ==> Extrapolated(g, w, levels, heights)[i][c].Some?
  {
    var n := |levels|;
    var t: Grid := TopDownSweep(g, w, levels, heights, n);
    forall i | k <= i < n
      ensures t[i][c].Some?
    {
      TopDownPropagates(g, w, levels, heights, k, c, i);
    }
    forall i | 0 <= i <= k
      ensures BottomUpSweep(t, w, levels, heights, n)[i][c].Some?
    {
      BottomUpPropagates(t, w, levels, heights, k, c, i);
    }
    BottomUpSweepFrame(t, w, levels, heights, n);
  }

  /** When the lowest pressure is at or below 50 hPa and the highest at or
      above it, the first iteration of each loop is gated off, so the
      wrapped neighbour is never read. */
  lemma WrapUnused(g: Grid, w: nat, levels: seq<real>, heights: seq<real>)
    requires Fits(g, w, levels, heights) && 1 <= |levels|
    requires levels[0] <= Split <= levels[|levels| - 1]
    ensures TopDownStep(g, w, levels, heights, 0) == g
    ensures BottomUpStep(g, w, levels, heights, 0) == g
  {
  }

  // ---------------------------------------------------------------------
  // The reference levels

  /** The reference levels are ascending, 32 of them, with 50 hPa fourth. */
  lemma ReferenceLevelsShape()
    ensures StrictlyAscending(ReferenceLevels)
    ensures |ReferenceLevels| == 32 && ReferenceLevels[3] == Split
  {
  }

  /** With the reference levels neither loop uses its wrapped neighbour:
      10 hPa is not above 50 hPa and 1000 hPa is not below it. */
  lemma ReferenceWrapUnused(g: Grid, w: nat, heights: seq<real>)
    requires |heights| == 32 && Shaped(g, 32, w)
    ensures Fits(g, w, ReferenceLevels, heights)
    ensures TopDownStep(g, w, ReferenceLevels, heights, 0) == g
    ensures BottomUpStep(g, w, ReferenceLevels, heights, 0) == g
  {
  }

  /** With the reference levels, every column whose 50 hPa cell is present
      comes out with no missing cell. */
  lemma ReferenceColumnComplete(g: Grid, w: nat, heights: seq<real>, c: nat)
    requires |heights| == 32 && Shaped(g, 32, w) && c < w
    requires g[3][c].Some?
    ensures Fits(g, w, ReferenceLevels, heights)
    ensures forall i :: 0 <= i < 32 ==> Extrapolated(g, w, ReferenceLevels, heights)[i][c].Some?
  {
    ReferenceLevelsShape();
    ColumnComplete(g, w, ReferenceLevels, heights, 3, c);
  }
}
