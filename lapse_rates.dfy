/** Standard-atmosphere lapse rates (degrees per km) used by the vertical
    temperature extrapolation, keyed on the pressure (hPa) of the level
    being filled. */
module LapseRates {

  /** Lapse rate of the top-down sweep (filling levels under the terrain):
      6.5 in the troposphere, isothermal in the tropopause layer, -1 above. */
  function TopDownLapse(p: real): (r: real)
    ensures -1.0 <= r <= 6.5
  {
    if p >= 226.32 then 6.5
    else if p < 226.32 && p > 54.74 then 0.0
    else -1.0
  }

  /** Lapse rate of the bottom-up sweep (filling levels above the model top):
      -2.8 down to 8.68 hPa, isothermal above. */
  function BottomUpLapse(p: real): (r: real)
    ensures -2.8 <= r <= 0.0
  {
    if p >= 8.68 then -2.8 else 0.0
  }

  /** One row of a lapse-rate table: pressures at or above `floor` (strictly
      above when `inclusive` is false) take `rate`. */
  datatype Band = Band(floor: real, inclusive: bool, rate: real)

  predicate Admits(b: Band, p: real)
  {
    if b.inclusive then p >= b.floor else p > b.floor
  }

  /** Table lookup: the first band, in order of decreasing floor, that admits
      `p` gives the rate; a pressure below every band takes `aloft`. */
  function TableRate(bands: seq<Band>, aloft: real, p: real): real
  {
    if bands == [] then aloft
    else if Admits(bands[0], p) then bands[0].rate
    else TableRate(bands[1..], aloft, p)
  }

  const TopDownBands: seq<Band> := [Band(226.32, true, 6.5), Band(54.74, false, 0.0)]
  const TopDownAloft: real := -1.0
  const BottomUpBands: seq<Band> := [Band(8.68, true, -2.8)]
  const BottomUpAloft: real := 0.0

  /** The if/elif chain of the top-down sweep is the three-band table. */
  lemma TopDownLapseIsTable(p: real)
    ensures TopDownLapse(p) == TableRate(TopDownBands, TopDownAloft, p)
  {
    assert TopDownBands[1..] == [Band(54.74, false, 0.0)];
    assert TopDownBands[1..][1..] == [];
    assert TableRate(TopDownBands[1..][1..], TopDownAloft, p) == TopDownAloft;
  }

  /** The if/else of the bottom-up sweep is the two-band table. */
  lemma BottomUpLapseIsTable(p: real)
    ensures BottomUpLapse(p) == TableRate(BottomUpBands, BottomUpAloft, p)
  {
  }

  /** Higher pressure (lower altitude) never gets a smaller top-down lapse rate. */
  lemma TopDownLapseMonotone(p: real, q: real)
    requires p <= q
    ensures TopDownLapse(p) <= TopDownLapse(q)
  {
  }

  /** Higher pressure never gets a larger bottom-up lapse rate: the warming
      with height (-2.8) applies from 8.68 hPa downward only. */
  lemma BottomUpLapseAntitone(p: real, q: real)
    requires p <= q
    ensures BottomUpLapse(p) >= BottomUpLapse(q)
  {
  }
}
