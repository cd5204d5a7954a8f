# Vertical temperature extrapolation on pressure levels (Dafny model)

This project models `ext_temperature` from the MPAS-A post-processing script
`post_proc/py/interpolations/to_Lorenz.py`. The script first interpolates
temperature from the model's hybrid levels onto fixed pressure levels.
Cells then stay missing where a level lies under the terrain or above the
top of the model data. `ext_temperature` fills them in place with two
ordered sweeps over the levels:

- the top-down sweep visits the levels in ascending pressure and fills only
  levels above 50 hPa (gaps under the terrain);
- the bottom-up sweep visits them in descending pressure and fills only
  levels below 50 hPa (gaps above the model top).

A missing cell takes the same cell of the previously visited level, plus a
lapse rate times the difference in standard-atmosphere height. The lapse
rate depends on the pressure of the level being filled. Present cells are
kept.

Files:

- `lapse_rates.dfy` (module `LapseRates`): the two lapse-rate selectors, a
  band-table form of each, and their agreement.
- `extrapolation.dfy` (module `Extrapolation`): the value-level
  specification and the imperative model. A field is a grid of levels x
  cells of `Option<real>`; a cell is one horizontal position and time.
  `TopDownStep` and `BottomUpStep` are one loop iteration each, naming
  levels by position on the ascending axis; `TopDownSweep` and
  `BottomUpSweep` are the first k iterations of a loop; `Extrapolated` is
  the whole call. `ExtTemperature` works in place on an `array2` through
  `TopDownFill` and `BottomUpFill` (the loops), `TopDownIteration` and
  `BottomUpIteration` (their bodies, which look levels up as the source
  does) and `FillLevel` (the guarded block both loops share, specified by
  `Filled`), and is proved to compute `Extrapolated`.
- `extrapolation_properties.dfy` (module `ExtrapolationProperties`): what
  the sweeps may change, the value each filled cell receives, how fills
  propagate along a column, the wrapped neighbour, and the reference levels.

Two points of the source are kept as written:

- Level order. The top-down sweep reads its neighbour by position
  (`isel(level=i-1)`). The bottom-up sweep reads it by value
  (`sel(level=lev_below)`). The model keeps both lookups: `PyIndex` for
  positions and `RowOf` for values. They agree only when the field's level
  axis is the ascending list of pressures. The script passes that list to
  the interpolation (to_Lorenz.py:180-183, 212), so `ExtTemperature`
  requires `StrictlyAscending(plevs)`. Under it, `np.sort(plevs)` is
  `plevs`, and `RowOfAscending` shows the by-value lookup lands on the
  expected position. The iteration methods do the lookups as written and
  are proved equal to the positional step functions.
- The wrap at the first iteration. At i = 0 the index i - 1 is -1, which
  Python reads as the last element. `PyIndex` models this. `TopDownWrap` and
  `BottomUpWrap` state what it does when the gate lets the first level
  through. `ReferenceWrapUnused` shows that with the script's 32 levels
  (10 to 1000 hPa) neither gate holds at i = 0, so no wrapped value is used.

Three consequences of the code as written:

- The first level of each sweep has no physical neighbour. The code reads
  index -1, which wraps to the other end of the axis, and so does the
  model.
- The lapse rate depends on the pressure of the level being filled, not
  its neighbour's. With levels 100, 500 and 1000 hPa, the top-down sweep
  first fills 100 hPa from the wrapped 1000 hPa level, when the 100 hPa
  level has a missing cell (`TopDownWrap`).
- The code does not guarantee a field with no missing cells. A cell stays
  missing when its seed is missing (`TopDownRecurrence`,
  `BottomUpRecurrence`). `ColumnComplete` gives a sufficient condition:
  the column's cell at exactly 50 hPa is present.

Inputs that the model takes as parameters: the standard-atmosphere height
of each level (`heights`, computed by metpy's `pressure_to_height_std` at
to_Lorenz.py:214) and the target pressures (`plevs`). Heights are in km and
lapse rates in degrees per km, so `lapse * dz` is a temperature difference.

## Model

| member | source | states |
|---|---|---|
| `LapseRates.TopDownLapse` | post_proc/py/interpolations/to_Lorenz.py:75-84 | the top-down lapse rate lies between -1 and 6.5 |
| `LapseRates.TopDownLapseIsTable` | post_proc/py/interpolations/to_Lorenz.py:77-84 | for every pressure, the if/elif chain equals the band table: 6.5 at or above 226.32 hPa, 0 strictly between 54.74 and 226.32 hPa, -1 otherwise |
| `LapseRates.TopDownLapseMonotone` | post_proc/py/interpolations/to_Lorenz.py:77-84 | a higher pressure never gets a smaller top-down lapse rate |
| `LapseRates.BottomUpLapse` | post_proc/py/interpolations/to_Lorenz.py:119-123 | the bottom-up lapse rate lies between -2.8 and 0 |
| `LapseRates.BottomUpLapseIsTable` | post_proc/py/interpolations/to_Lorenz.py:120-123 | for every pressure, the if/else equals the band table: -2.8 at or above 8.68 hPa, 0 otherwise |
| `LapseRates.BottomUpLapseAntitone` | post_proc/py/interpolations/to_Lorenz.py:120-123 | a higher pressure never gets a larger bottom-up lapse rate |
| `Extrapolation.PyIndex` | post_proc/py/interpolations/to_Lorenz.py:99 | the Python index i - 1 reaches position (i - 1) mod n, a valid position; -1 is the last level |
| `Extrapolation.ReversedAt` | post_proc/py/interpolations/to_Lorenz.py:112-116 | position j of `plevs_sorted[::-1]` is a level of the axis, and on an ascending axis it is larger than every level still to come in the reversed order |
| `Extrapolation.ReversedAtDescending` | post_proc/py/interpolations/to_Lorenz.py:112-115 | on an ascending axis, each position of `plevs_sorted[::-1]` holds a smaller pressure than the one before it, so the bottom-up loop visits pressures in descending order |
| `Extrapolation.RowOf` | post_proc/py/interpolations/to_Lorenz.py:73 | selecting a level by value, on an axis without repeated pressures, gives the position holding that value (the first one, and no earlier position holds it) |
| `Extrapolation.FillCell` | post_proc/py/interpolations/to_Lorenz.py:93-108 | one cell of `dummy.where(dummy != -99999, extp_temp)`: a present cell is kept; a missing one becomes present exactly when its seed is, with value seed + lapse x dz |
| `Extrapolation.Filled` | post_proc/py/interpolations/to_Lorenz.py:90-108 | the guarded block on values: only level `row` may change, its present cells are kept, and the field changes only when the gate holds and that level has a missing cell |
| `Extrapolation.TopDownStep` | post_proc/py/interpolations/to_Lorenz.py:72-108 | one top-down iteration i: the field keeps its shape, no level other than i changes, every present cell is kept, and anything changes only when level i has a missing cell and lies above 50 hPa |
| `Extrapolation.BottomUpStep` | post_proc/py/interpolations/to_Lorenz.py:115-143 | one bottom-up iteration j: the field keeps its shape, no level other than n - 1 - j changes, every present cell is kept, and anything changes only when that level has a missing cell and lies below 50 hPa |
| `Extrapolation.TopDownSweep` | post_proc/py/interpolations/to_Lorenz.py:68-108 | the field after the first k top-down iterations keeps one row of width w per level; what it changes is stated by `TopDownSweepFrame`, `TopDownSettled` and `TopDownRecurrence` |
| `Extrapolation.BottomUpSweep` | post_proc/py/interpolations/to_Lorenz.py:112-143 | the field after the first k bottom-up iterations keeps one row of width w per level; what it changes is stated by `BottomUpSweepFrame`, `BottomUpSettled` and `BottomUpRecurrence` |
| `Extrapolation.Extrapolated` | post_proc/py/interpolations/to_Lorenz.py:50-144 | the returned field, both sweeps in order, keeps the shape of the input; its content is stated by `ExtrapolatedFrame`, `ExtrapolatedFixesComplete` and `ColumnComplete` |
| `Extrapolation.LevelHasMissing` | post_proc/py/interpolations/to_Lorenz.py:90 | true exactly when the level has a missing cell |
| `Extrapolation.FillLevel` | post_proc/py/interpolations/to_Lorenz.py:90-108 | the guarded block of either loop. When the gate holds and level `row` has a missing cell, only that level changes: each of its cells becomes FillCell of its old value and the old seed cell, so a present cell is kept, a missing one gets seed + lapse x dz, and one whose seed is missing stays missing. Otherwise nothing changes. |
| `Extrapolation.RowOfAscending` | post_proc/py/interpolations/to_Lorenz.py:73 | on an ascending level list, selecting the level at position k by value finds position k |
| `Extrapolation.TopDownIteration` | post_proc/py/interpolations/to_Lorenz.py:72-108 | one pass of the top-down loop body, with `sel` by value and `isel(level=i-1)` by position, changes the field exactly as TopDownStep: level i refilled from position (i - 1) mod n when the gate holds |
| `Extrapolation.BottomUpIteration` | post_proc/py/interpolations/to_Lorenz.py:112-143 | one pass of the bottom-up loop body, with both levels selected by value from the reversed axis, changes the field exactly as BottomUpStep: level n - 1 - j refilled from the level visited before it |
| `Extrapolation.TopDownFill` | post_proc/py/interpolations/to_Lorenz.py:68-108 | the top-down loop leaves the field equal to the fold of all its iterations, TopDownSweep(old field, n) |
| `Extrapolation.BottomUpFill` | post_proc/py/interpolations/to_Lorenz.py:112-143 | the bottom-up loop leaves the field equal to BottomUpSweep(old field, n) |
| `Extrapolation.ExtTemperature` | post_proc/py/interpolations/to_Lorenz.py:50-144 | on an ascending level axis, the field afterwards is Extrapolated(old field): the top-down sweep, then the bottom-up sweep |
| `ExtrapolationProperties.TopDownStepAt` | post_proc/py/interpolations/to_Lorenz.py:69-108 | iteration i writes level i only when it has a missing cell and its pressure is above 50 hPa. It fills from level i - 1, or from the last level when i = 0, with the lapse rate of level i and dz = height(neighbour) - height(level i). Otherwise the field is unchanged. |
| `ExtrapolationProperties.BottomUpStepAt` | post_proc/py/interpolations/to_Lorenz.py:112-143 | iteration j writes level r = n - 1 - j only when it has a missing cell and its pressure is below 50 hPa. It fills from level r + 1, or from level 0 when j = 0. Otherwise the field is unchanged. |
| `ExtrapolationProperties.TopDownSweepFrame` | post_proc/py/interpolations/to_Lorenz.py:90-108 | after any number of top-down iterations: unvisited levels are unchanged, levels at or below 50 hPa or without a missing cell are unchanged, and every present cell keeps its value |
| `ExtrapolationProperties.TopDownSettled` | post_proc/py/interpolations/to_Lorenz.py:96-99 | later top-down iterations never change a level already visited, so a neighbour is read in its final state |
| `ExtrapolationProperties.TopDownRecurrence` | post_proc/py/interpolations/to_Lorenz.py:96-105 | a missing cell of level i >= 1 above 50 hPa ends up as the final value of the same cell at level i - 1 plus TopDownLapse(p_i) x (h_(i-1) - h_i). It stays missing when that cell is missing. |
| `ExtrapolationProperties.TopDownWrap` | post_proc/py/interpolations/to_Lorenz.py:99 | when the lowest pressure is above 50 hPa, its missing cells are filled from the last, highest-pressure level as it was on entry |
| `ExtrapolationProperties.TopDownPropagates` | post_proc/py/interpolations/to_Lorenz.py:96-108 | a present cell at level i0 makes the same cell present on every later level after the top-down sweep, if all those levels are above 50 hPa |
| `ExtrapolationProperties.BottomUpSweepFrame` | post_proc/py/interpolations/to_Lorenz.py:125-143 | after any number of bottom-up iterations: unvisited levels are unchanged, levels at or above 50 hPa or without a missing cell are unchanged, and every present cell keeps its value |
| `ExtrapolationProperties.BottomUpSettled` | post_proc/py/interpolations/to_Lorenz.py:115-117 | later bottom-up iterations never change a level already visited |
| `ExtrapolationProperties.BottomUpRecurrence` | post_proc/py/interpolations/to_Lorenz.py:131-140 | a missing cell of level r < n - 1 below 50 hPa ends up as the final value of the same cell at level r + 1 plus BottomUpLapse(p_r) x (h_(r+1) - h_r). It stays missing when that cell is missing. |
| `ExtrapolationProperties.BottomUpWrap` | post_proc/py/interpolations/to_Lorenz.py:116 | when the highest pressure is below 50 hPa, its missing cells are filled from level 0, the lowest pressure, as it was on entry |
| `ExtrapolationProperties.BottomUpPropagates` | post_proc/py/interpolations/to_Lorenz.py:131-143 | a present cell at level i0 makes the same cell present on every earlier level after the bottom-up sweep, if all those levels are below 50 hPa |
| `ExtrapolationProperties.ExtrapolatedFrame` | post_proc/py/interpolations/to_Lorenz.py:90-143 | levels above 50 hPa are changed only by the top-down sweep and levels below only by the bottom-up sweep. A level at exactly 50 hPa, or with no missing cell, is unchanged. Every present cell keeps its value. |
| `ExtrapolationProperties.ExtrapolatedFixesComplete` | post_proc/py/interpolations/to_Lorenz.py:90-125 | a field with no missing cell comes back unchanged |
| `ExtrapolationProperties.ColumnComplete` | post_proc/py/interpolations/to_Lorenz.py:68-143 | on an ascending level axis, if a column's cell at the 50 hPa level is present, the whole column is present after both sweeps |
| `ExtrapolationProperties.WrapUnused` | post_proc/py/interpolations/to_Lorenz.py:90-125 | when the lowest pressure is at most 50 hPa and the highest at least 50 hPa, the first iteration of each sweep is the identity, so the wrapped neighbour is never read |
| `ExtrapolationProperties.ReferenceLevelsShape` | post_proc/py/interpolations/to_Lorenz.py:180-183 | the 32 reference levels are strictly ascending, and 50 hPa is the fourth |
| `ExtrapolationProperties.ReferenceWrapUnused` | post_proc/py/interpolations/to_Lorenz.py:180-183 | with the reference levels, iteration 0 of each sweep changes nothing |
| `ExtrapolationProperties.ReferenceColumnComplete` | post_proc/py/interpolations/to_Lorenz.py:180-183 | with the reference levels, a column whose 50 hPa cell is present has no missing cell after `ext_temperature` |

## Left out

- `main` in to_Lorenz.py: opening the NetCDF file, wrf `interplevel`, metpy unit handling, `temperature_from_potential_temperature`, and the repeated cubic `interpolate_na` on u. These are library calls and floating-point numerics.
- `pressure_to_height_std` (to_Lorenz.py:214): the ICAO standard-atmosphere formula lives in metpy. The height of each level is an input.
- `get_times_nml` (to_Lorenz.py:147-161): a thin wrapper over `strptime` and `pandas.date_range`.
- The progress prints (to_Lorenz.py:91, 126) and metpy's `dequantify` unit stripping (to_Lorenz.py:66, 103): neither changes any value.
- `dequantify` at to_Lorenz.py:66 may return a new object, so the caller's field might not be modified. The model fills the array it is given, in place, which is what the returned field holds.
- The -99999 sentinel (to_Lorenz.py:93-95) is replaced by `Option`. In the source, a stored temperature of exactly -99999 would also be taken as missing and overwritten. The model has no such collision.
- IEEE floating point: values are `real`. NaN is modelled only as "missing stays missing".
- A level axis not in ascending order, or `plevs` differing from the axis: `ExtTemperature` requires the ascending list the script passes. For other inputs the by-position and by-value lookups of the two sweeps disagree.
- Horizontal and time dimensions are flattened into one cell index. Each cell is filled independently of its neighbours at the same level.
- validate/validate_INMET.py: a module-level script made of environment lookup, argument parsing, CSV reading, pandas resampling and seaborn plotting. It has no logic beyond unit conversions.
