/** Vertical temperature extrapolation on pressure levels.

    A temperature field is a table of levels x cells (a cell being one
    horizontal position and time); a cell is either present or missing.
    `ExtTemperature` fills missing cells in place with two ordered sweeps:
    top-down over the levels above 50 hPa (gaps under the terrain), then
    bottom-up over the levels below 50 hPa (gaps above the model top).

    The functions below are the value-level specification: one function per
    loop iteration (`TopDownStep`, `BottomUpStep`) and the fold of the first
    k iterations of each loop (`TopDownSweep`, `BottomUpSweep`). They name
    levels by position; the methods work on an `array2`, look levels up by
    value as the loops do, and are proved to compute that fold. */
module Extrapolation {
  import opened LapseRates

  datatype Option<T> = None | Some(value: T)

  type Row = seq<Option<real>>
  type Grid = seq<Row>

  /** Pressure (hPa) that separates the two sweeps; a level at exactly this
      pressure is filled by neither. */
  const Split: real := 50.0

  predicate StrictlyAscending(levels: seq<real>)
  {
    forall i, j :: 0 <= i < j < |levels| ==> levels[i] < levels[j]
  }

  /** `g` has one row per level, each row of width `w`. */
  predicate Shaped(g: Grid, n: nat, w: nat)
  {
    |g| == n && forall i :: 0 <= i < n ==> |g[i]| == w
  }

  /** The field has one row per level and there is one standard height per
      level. */
  predicate Fits(g: Grid, w: nat, levels: seq<real>, heights: seq<real>)
  {
    |heights| == |levels| && Shaped(g, |levels|, w)
  }

  /** `np.isnan(row).any()`. */
  predicate HasMissing(row: Row)
  {
    exists c :: 0 <= c < |row| && row[c].None?
  }

  /** Python's indexing of a sequence of length n: a negative index counts
      from the end, so the position reached is k modulo n. */
  function PyIndex(k: int, n: nat): (r: nat)
    requires -(n as int) <= k < n
    ensures r < n && r == k % n
  {
    if k < 0 then n + k else k
  }

  /** Position j of `s[::-1]`, the sequence in reverse order. Of an
      ascending sequence it is the descending one: every element still to
      come in the reversed order (earlier in `s`) is smaller. */
  function ReversedAt(s: seq<real>, j: nat): (r: real)
    requires j < |s|
    ensures r in s
    ensures StrictlyAscending(s) ==> forall k :: 0 <= k < |s| - 1 - j ==> s[k] < r
  {
    s[|s| - 1 - j]
  }

  /** Of an ascending axis, `[::-1]` lists the levels in descending order. */
  lemma ReversedAtDescending(s: seq<real>, j: nat)
    requires StrictlyAscending(s) && j + 1 < |s|
    ensures ReversedAt(s, j + 1) < ReversedAt(s, j)
  {
  }

  /** Selection of a level by value on the level axis (`sel(level=p)`),
      on an axis without repeated pressures: the position holding p, here
      the first one. */
  function RowOf(axis: seq<real>, p: real): (k: nat)
    requires p in axis
    ensures k < |axis| && axis[k] == p
    ensures forall j :: 0 <= j < k ==> axis[j] != p
  {
    if axis[0] == p then 0 else 1 + RowOf(axis[1..], p)
  }

  /** On an ascending axis, selecting the level at position k by its value
      finds position k again. */
  lemma RowOfAscending(levels: seq<real>, k: nat)
    requires StrictlyAscending(levels) && k < |levels|
    ensures RowOf(levels, levels[k]) == k
  {
  }

  /** One cell of a level being filled: a present value is kept; a missing
      one becomes the seed (the same cell on the neighbour level) plus
      lapse x dz, and stays missing when the seed is missing too. */
  function FillCell(cur: Option<real>, seed: Option<real>, lapse: real, dz: real): (r: Option<real>)
    ensures cur.Some? ==> r == cur
    ensures cur.None? ==> (r.Some? <==> seed.Some?)
    ensures cur.None? && seed.Some? ==> r.value == seed.value + lapse * dz
  {
    match cur
    case Some(_) => cur
    case None =>
      match seed
      case None => None
      case Some(s) => Some(s + lapse * dz)
  }

  function FillRow(cur: Row, seed: Row, lapse: real, dz: real): Row
    requires |seed| == |cur|
  {
    seq(|cur|, c requires 0 <= c < |cur| => FillCell(cur[c], seed[c], lapse, dz))
  }

  /** The guarded block shared by both loops: when `gate` holds and level
      `row` has a missing cell, that level is refilled from level `seedRow`;
      otherwise the field is unchanged. */
  function Filled(g: Grid, row: nat, seedRow: nat, gate: bool, lapse: real, dz: real): (r: Grid)
    requires row < |g| && seedRow < |g| && |g[seedRow]| == |g[row]|
    ensures |r| == |g| && forall i :: 0 <= i < |g| ==> |r[i]| == |g[i]|
    ensures forall i :: 0 <= i < |g| && i != row ==> r[i] == g[i]
    ensures forall c :: 0 <= c < |g[row]| && g[row][c].Some? ==> r[row][c] == g[row][c]
    ensures r != g ==> gate && HasMissing(g[row])
  {
    if HasMissing(g[row]) && gate then g[row := FillRow(g[row], g[seedRow], lapse, dz)] else g
  }

  /** Iteration i of the top-down loop, on an ascending axis: level i is
      refilled from position i - 1, which is the last level when i == 0. */
  function TopDownStep(g: Grid, w: nat, levels: seq<real>, heights: seq<real>, i: nat): (r: Grid)
    requires Fits(g, w, levels, heights) && i < |levels|
    ensures Shaped(r, |levels|, w)
    ensures forall k :: 0 <= k < |levels| && k != i ==> r[k] == g[k]
    ensures forall k, c :: 0 <= k < |levels| && 0 <= c < w && g[k][c].Some? ==> r[k][c] == g[k][c]
    ensures r != g ==> HasMissing(g[i]) && levels[i] > Split
  {
    var above := PyIndex(i - 1, |levels|);
    Filled(g, i, above, levels[i] > Split, TopDownLapse(levels[i]), heights[above] - heights[i])
  }

  /** Iteration j of the bottom-up loop, on an ascending axis: position j of
      the descending list is level n - 1 - j, refilled from the level visited
      at j - 1, which is the lowest pressure when j == 0. */
  function BottomUpStep(g: Grid, w: nat, levels: seq<real>, heights: seq<real>, j: nat): (r: Grid)
    requires Fits(g, w, levels, heights) && j < |levels|
    ensures Shaped(r, |levels|, w)
    ensures forall k :: 0 <= k < |levels| && k != |levels| - 1 - j ==> r[k] == g[k]
    ensures forall k, c :: 0 <= k < |levels| && 0 <= c < w && g[k][c].Some? ==> r[k][c] == g[k][c]
    ensures r != g ==> HasMissing(g[|levels| - 1 - j]) && levels[|levels| - 1 - j] < Split
  {
    var row := |levels| - 1 - j;
    var below := |levels| - 1 - PyIndex(j - 1, |levels|);
    Filled(g, row, below, levels[row] < Split, BottomUpLapse(levels[row]), heights[below] - heights[row])
  }

  /** The field after the first k iterations of the top-down loop. */
  function TopDownSweep(g: Grid, w: nat, levels: seq<real>, heights: seq<real>, k: nat): (r: Grid)
    requires Fits(g, w, levels, heights) && k <= |levels|
    ensures Shaped(r, |levels|, w)
  {
    if k == 0 then g
    else TopDownStep(TopDownSweep(g, w, levels, heights, k - 1), w, levels, heights, k - 1)
  }

  /** The field after the first k iterations of the bottom-up loop. */
  function BottomUpSweep(g: Grid, w: nat, levels: seq<real>, heights: seq<real>, k: nat): (r: Grid)
    requires Fits(g, w, levels, heights) && k <= |levels|
    ensures Shaped(r, |levels|, w)
  {
    if k == 0 then g
    else BottomUpStep(BottomUpSweep(g, w, levels, heights, k - 1), w, levels, heights, k - 1)
  }

  /** The field `ext_temperature` returns: both loops run to completion. */
  function Extrapolated(g: Grid, w: nat, levels: seq<real>, heights: seq<real>): (r: Grid)
    requires Fits(g, w, levels, heights)
    ensures Shaped(r, |levels|, w)
  {
    var top := TopDownSweep(g, w, levels, heights, |levels|);
    BottomUpSweep(top, w, levels, heights, |levels|)
  }

  /** The contents of the field, level by level. */
  ghost function Cells(t: array2<Option<real>>): (g: Grid)
    reads t
    ensures Shaped(g, t.Length0, t.Length1)
  {
    seq(t.Length0, i requires 0 <= i < t.Length0 reads t =>
      seq(t.Length1, c requires 0 <= c < t.Length1 reads t => t[i, c]))
  }

  /** `np.isnan(t_p.values).any()` for level `row`. */
  predicate LevelHasMissing(t: array2<Option<real>>, row: nat)
    requires row < t.Length0
    reads t
    ensures LevelHasMissing(t, row) <==> HasMissing(Cells(t)[row])
  {
    var b := exists c | 0 <= c < t.Length1 :: t[row, c].None?;
    assert b <==> HasMissing(Cells(t)[row]) by {
      if b {
        var c :| 0 <= c < t.Length1 && t[row, c].None?;
        assert Cells(t)[row][c].None?;
      }
    }
    b
  }

  /** The guarded block of either loop (`if np.isnan(t_p.values).any() and
      gate:` ... `t.loc[dict(level=lev)] = ...`). Every cell of level `row`
      is filled from the same cell of level `seedRow`, all cells at once, so
      a cell reads its seed as it was before the assignment. */
  method FillLevel(t: array2<Option<real>>, row: nat, seedRow: nat, gate: bool, lapse: real, dz: real)
    requires row < t.Length0 && seedRow < t.Length0
    modifies t
    ensures Cells(t) == Filled(old(Cells(t)), row, seedRow, gate, lapse, dz)
  {
    if LevelHasMissing(t, row) && gate {
      ghost var before := Cells(t);
      forall c | 0 <= c < t.Length1 {
        t[row, c] := FillCell(t[row, c], t[seedRow, c], lapse, dz);
      }
      ghost var want := before[row := FillRow(before[row], before[seedRow], lapse, dz)];
      forall i | 0 <= i < t.Length0
        ensures Cells(t)[i] == want[i]
      {
        assert |Cells(t)[i]| == |want[i]|;
        forall c | 0 <= c < t.Length1
          ensures Cells(t)[i][c] == want[i][c]
        {
        }
      }
    }
  }

  /** Body of the top-down loop for `lev = plevs_sorted[i]`: the level is
      selected by value, its neighbour `plevs_sorted[i - 1]` by position.
      Sorting the ascending axis changes nothing, so `plevs_sorted` is
      `plevs`. */
  method TopDownIteration(t: array2<Option<real>>, plevs: seq<real>, heights: seq<real>, i: nat)
    requires t.Length0 == |plevs| == |heights| && i < |plevs|
    requires StrictlyAscending(plevs)
    modifies t
    ensures Cells(t) == TopDownStep(old(Cells(t)), t.Length1, plevs, heights, i)
  {
    var lev := plevs[i];
    var row := RowOf(plevs, lev);
    RowOfAscending(plevs, i);
    var above := PyIndex(i - 1, |plevs|);
    FillLevel(t, row, above, lev > Split, TopDownLapse(lev), heights[above] - heights[row]);
  }

  /** The top-down loop of `ext_temperature`: levels in ascending pressure. */
  method TopDownFill(t: array2<Option<real>>, plevs: seq<real>, heights: seq<real>)
    requires t.Length0 == |plevs| == |heights|
    requires StrictlyAscending(plevs)
    modifies t
    ensures Cells(t) == TopDownSweep(old(Cells(t)), t.Length1, plevs, heights, |plevs|)
  {
    ghost var g0 := Cells(t);
    for i := 0 to |plevs|
      invariant Cells(t) == TopDownSweep(g0, t.Length1, plevs, heights, i)
    {
      TopDownIteration(t, plevs, heights, i);
    }
  }

  /** Body of the bottom-up loop for `lev = bottom_top[j]`, where
      `bottom_top` is the axis in descending order: the level and its
      neighbour `bottom_top[j - 1]` are both selected by value. */
  method BottomUpIteration(t: array2<Option<real>>, plevs: seq<real>, heights: seq<real>, j: nat)
    requires t.Length0 == |plevs| == |heights| && j < |plevs|
    requires StrictlyAscending(plevs)
    modifies t
    ensures Cells(t) == BottomUpStep(old(Cells(t)), t.Length1, plevs, heights, j)
  {
    var n := |plevs|;
    var lev := ReversedAt(plevs, j);
    var levBelow := ReversedAt(plevs, PyIndex(j - 1, n));
    var row := RowOf(plevs, lev);
    var below := RowOf(plevs, levBelow);
    RowOfAscending(plevs, n - 1 - j);
    RowOfAscending(plevs, n - 1 - PyIndex(j - 1, n));
    FillLevel(t, row, below, lev < Split, BottomUpLapse(lev), heights[below] - heights[row]);
  }

  /** The bottom-up loop of `ext_temperature`: levels in descending pressure. */
  method BottomUpFill(t: array2<Option<real>>, plevs: seq<real>, heights: seq<real>)
    requires t.Length0 == |plevs| == |heights|
    requires StrictlyAscending(plevs)
    modifies t
    ensures Cells(t) == BottomUpSweep(old(Cells(t)), t.Length1, plevs, heights, |plevs|)
  {
    ghost var g0 := Cells(t);
    for j := 0 to |plevs|
      invariant Cells(t) == BottomUpSweep(g0, t.Length1, plevs, heights, j)
    {
      BottomUpIteration(t, plevs, heights, j);
    }
  }

  /** `ext_temperature`: fills the missing cells of the field `t` in place.
      Row i of `t` is the level at pressure `plevs[i]`, whose standard-
      atmosphere height is `heights[i]`. */
  method ExtTemperature(t: array2<Option<real>>, plevs: seq<real>, heights: seq<real>)
    requires t.Length0 == |plevs| == |heights|
    requires StrictlyAscending(plevs)
    modifies t
    ensures Cells(t) == Extrapolated(old(Cells(t)), t.Length1, plevs, heights)
  {
    TopDownFill(t, plevs, heights);
    BottomUpFill(t, plevs, heights);
  }
}
