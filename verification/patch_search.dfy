/** `_optimise_zenith_delay`: the greedy search over pairs of minimum pressure
    levels inside one patch, keeping the delays whose corrected interferogram has
    the smallest standard deviation. */
module PatchSearch {
  import opened Wrappers
  import opened Errors
  import opened Grids
  import opened Sequences
  import opened Levels
  import opened Atmosphere
  import opened Greedy

  /** One output pixel: master and slave zenith wet and dry delays and the minimum
      pressure level used on each date (None stands for NaN). */
  datatype Pixel = Pixel(mwet: real, mdry: real, swet: real, sdry: real, mlevel: Option<real>, slevel: Option<real>)

  /** The slices of every input that one patch sees. */
  datatype Patch = Patch(elevation: Grid<real>, ifg: Grid<real>, mrain: Grid<real>, srain: Grid<real>,
                         mcolumns: Grid<Column>, scolumns: Grid<Column>, mlevels: seq<real>, slevels: seq<real>)
  {
    /** All slices share the DEM patch's shape; both models have the same number of levels. */
    predicate Valid()
    {
      && SameShape(ifg, elevation) && SameShape(mrain, elevation) && SameShape(srain, elevation)
      && SameShape(mcolumns, elevation) && SameShape(scolumns, elevation)
      && |slevels| == |mlevels|
    }

    /** `pmpressure[0, 0, :]`, none when the patch is empty. */
    function MasterLevelList(): seq<real>
    {
      if |mcolumns| > 0 && |mcolumns[0]| > 0 then mlevels else []
    }

    /** `pmwr.sum() == 0`. */
    predicate NoMasterRain()
    {
      Sum(mrain) == 0.0
    }

    /** `pswr.sum() == 0`. */
    predicate NoSlaveRain()
    {
      Sum(srain) == 0.0
    }
  }

  /** The output patch of a set of delays: one pixel per cell of the patch. */
  function PixelGrid(shape: Grid<real>, md: Delays, sd: Delays, ml: Option<real>, sl: Option<real>): (r: Grid<Pixel>)
    requires SameShape(md.wet, shape) && SameShape(md.dry, shape)
    requires SameShape(sd.wet, shape) && SameShape(sd.dry, shape)
    ensures SameShape(r, shape)
    ensures forall i, j :: 0 <= i < |shape| && 0 <= j < |shape[i]| ==>
      r[i][j] == Pixel(md.wet[i][j], md.dry[i][j], sd.wet[i][j], sd.dry[i][j], ml, sl)
  {
    seq(|shape|, i requires 0 <= i < |shape| =>
      seq(|shape[i]|, j requires 0 <= j < |shape[i]| =>
        Pixel(md.wet[i][j], md.dry[i][j], sd.wet[i][j], sd.dry[i][j], ml, sl)))
  }

  /** The pure weather-model correction: zenith delays of the models as given,
      minimum levels NaN. */
  function PureOutput(phys: Physics, pt: Patch): (r: Grid<Pixel>)
    requires pt.Valid()
    ensures SameShape(r, pt.elevation)
    ensures forall i, j :: 0 <= i < |pt.elevation| && 0 <= j < |pt.elevation[i]| ==>
      var mz := phys.zenith(pt.mcolumns[i][j], pt.mlevels, pt.elevation[i][j]);
      var sz := phys.zenith(pt.scolumns[i][j], pt.slevels, pt.elevation[i][j]);
      r[i][j] == Pixel(mz.0, mz.1, sz.0, sz.1, None, None)
  {
    var md := ZenithFields(phys, pt.mlevels, pt.mcolumns, pt.elevation);
    var sd := ZenithFields(phys, pt.slevels, pt.scolumns, pt.elevation);
    PixelGrid(pt.elevation, md, sd, None, None)
  }

  /** The level indices tried on one date: only the first when that date has no
      rain, otherwise every level from the top of the column down to `min_plevel`. */
  function LevelRange(noRain: bool, idx: nat): (r: seq<nat>)
    ensures |r| > 0
    ensures forall k :: 0 <= k < |r| ==> r[k] <= idx
    ensures noRain ==> r == [0]
    ensures !noRain ==> |r| == idx + 1 && forall k :: 0 <= k < |r| ==> r[k] == k
  {
    if noRain then [0] else Range(idx + 1)
  }

  /** The trials in the order of the two nested loops: master index outer. */
  function Trials(pt: Patch, idx: nat): seq<(nat, nat)>
  {
    Pairs(LevelRange(pt.NoMasterRain(), idx), LevelRange(pt.NoSlaveRain(), idx))
  }

  /** Every trial names level indices of both models. */
  predicate InLevels(pt: Patch, trials: seq<(nat, nat)>)
  {
    forall k :: 0 <= k < |trials| ==> trials[k].0 < |pt.mlevels| && trials[k].1 < |pt.slevels|
  }

  lemma TrialsInLevels(pt: Patch, idx: nat)
    requires pt.Valid() && idx < |pt.mlevels|
    ensures InLevels(pt, Trials(pt, idx))
  {
    var mR, sR := LevelRange(pt.NoMasterRain(), idx), LevelRange(pt.NoSlaveRain(), idx);
    forall k | 0 <= k < |Trials(pt, idx)|
      ensures Trials(pt, idx)[k].0 < |pt.mlevels| && Trials(pt, idx)[k].1 < |pt.slevels|
    {
      PairsAt(mR, sR, k);
    }
  }

  /** The columns of one date for a trial: humidity reset to the original and,
      when the date has rain, rainfall injected above level `a`. */
  function TrialColumns(phys: Physics, columns: Grid<Column>, levels: seq<real>, rain: Grid<real>,
                        noRain: bool, a: nat): (r: Grid<Column>)
    requires SameShape(columns, rain) && a < |levels|
    ensures SameShape(r, columns)
    ensures noRain ==> r == columns
    ensures !noRain ==> forall i, j :: 0 <= i < |columns| && 0 <= j < |columns[i]| ==>
      r[i][j].temperature == columns[i][j].temperature &&
      r[i][j].geopotential == columns[i][j].geopotential &&
      r[i][j].humidity == phys.inject(columns[i][j], levels, rain[i][j], levels[a])
  {
    if noRain then columns else InjectRainfall(phys, levels, columns, rain, levels[a])
  }

  /** The master delays of trial level `a`: every pixel's zenith delays from its
      trial column; a dry date keeps the model as given, whatever `a`. */
  function MasterDelays(phys: Physics, pt: Patch, a: nat): (d: Delays)
    requires pt.Valid() && a < |pt.mlevels|
    ensures SameShape(d.wet, pt.elevation) && SameShape(d.dry, pt.elevation)
    ensures forall i, j :: 0 <= i < |pt.elevation| && 0 <= j < |pt.elevation[i]| ==>
      var z := phys.zenith(TrialColumns(phys, pt.mcolumns, pt.mlevels, pt.mrain, pt.NoMasterRain(), a)[i][j],
                           pt.mlevels, pt.elevation[i][j]);
      d.wet[i][j] == z.0 && d.dry[i][j] == z.1
    ensures pt.NoMasterRain() ==> d == ZenithFields(phys, pt.mlevels, pt.mcolumns, pt.elevation)
  {
    var cols := TrialColumns(phys, pt.mcolumns, pt.mlevels, pt.mrain, pt.NoMasterRain(), a);
    SameShapeTransitive(cols, pt.mcolumns, pt.elevation);
    ZenithFields(phys, pt.mlevels, cols, pt.elevation)
  }

  /** The slave delays of trial level `b`, as `MasterDelays` for the slave date. */
  function SlaveDelays(phys: Physics, pt: Patch, b: nat): (d: Delays)
    requires pt.Valid() && b < |pt.slevels|
    ensures SameShape(d.wet, pt.elevation) && SameShape(d.dry, pt.elevation)
    ensures forall i, j :: 0 <= i < |pt.elevation| && 0 <= j < |pt.elevation[i]| ==>
      var z := phys.zenith(TrialColumns(phys, pt.scolumns, pt.slevels, pt.srain, pt.NoSlaveRain(), b)[i][j],
                           pt.slevels, pt.elevation[i][j]);
      d.wet[i][j] == z.0 && d.dry[i][j] == z.1
    ensures pt.NoSlaveRain() ==> d == ZenithFields(phys, pt.slevels, pt.scolumns, pt.elevation)
  {
    var cols := TrialColumns(phys, pt.scolumns, pt.slevels, pt.srain, pt.NoSlaveRain(), b);
    SameShapeTransitive(cols, pt.scolumns, pt.elevation);
    ZenithFields(phys, pt.slevels, cols, pt.elevation)
  }

  /** The interferogram corrected with trial (a, b): at every pixel the observed
      value minus the master's slant delay plus the slave's. */
  function TrialCorrected(phys: Physics, pt: Patch, look: real, a: nat, b: nat): (r: Grid<real>)
    requires pt.Valid() && a < |pt.mlevels| && b < |pt.slevels|
    ensures SameShape(r, pt.ifg)
    ensures forall i, j :: 0 <= i < |pt.ifg| && 0 <= j < |pt.ifg[i]| ==>
      var md, sd := MasterDelays(phys, pt, a), SlaveDelays(phys, pt, b);
      r[i][j] == pt.ifg[i][j] - ((phys.slant(md.wet[i][j], look) + phys.slant(md.dry[i][j], look))
                               - (phys.slant(sd.wet[i][j], look) + phys.slant(sd.dry[i][j], look)))
  {
    var md, sd := MasterDelays(phys, pt, a), SlaveDelays(phys, pt, b);
    SameShapeTransitive(md.wet, pt.elevation, pt.ifg);
    SameShapeTransitive(md.dry, pt.elevation, pt.ifg);
    SameShapeTransitive(sd.wet, pt.elevation, pt.ifg);
    SameShapeTransitive(sd.dry, pt.elevation, pt.ifg);
    Corrected(phys, pt.ifg, md, sd, look)
  }

  /** Standard deviation of the interferogram corrected with trial (a, b). The
      humidity is reset before every trial, so the score depends on (a, b) alone,
      and a dry date's level index does not change it. */
  function TrialScore(phys: Physics, pt: Patch, look: real, a: nat, b: nat): (r: Option<real>)
    requires pt.Valid() && a < |pt.mlevels| && b < |pt.slevels|
    ensures r == phys.std(TrialCorrected(phys, pt, look, a, b))
    ensures pt.NoMasterRain() ==> r == phys.std(TrialCorrected(phys, pt, look, 0, b))
    ensures pt.NoSlaveRain() ==> r == phys.std(TrialCorrected(phys, pt, look, a, 0))
  {
    phys.std(TrialCorrected(phys, pt, look, a, b))
  }

  /** The minimum level stored for a date: NaN without rain, else the level tried. */
  function LevelUsed(levels: seq<real>, noRain: bool, a: nat): (r: Option<real>)
    requires a < |levels|
    ensures r.Some? <==> !noRain
    ensures r.Some? ==> r.value == levels[a]
  {
    if noRain then None else Some(levels[a])
  }

  /** The output patch stored when trial (a, b) is accepted. */
  function TrialOutput(phys: Physics, pt: Patch, a: nat, b: nat): (r: Grid<Pixel>)
    requires pt.Valid() && a < |pt.mlevels| && b < |pt.slevels|
    ensures SameShape(r, pt.elevation)
  {
    PixelGrid(pt.elevation, MasterDelays(phys, pt, a), SlaveDelays(phys, pt, b),
              LevelUsed(pt.mlevels, pt.NoMasterRain(), a), LevelUsed(pt.slevels, pt.NoSlaveRain(), b))
  }

  /** The score of a trial, as a function of its two level indices. */
  function ScoreFn(phys: Physics, pt: Patch, look: real): ((nat, nat)) -> Option<real>
  {
    (t: (nat, nat)) => if pt.Valid() && t.0 < |pt.mlevels| && t.1 < |pt.slevels| then TrialScore(phys, pt, look, t.0, t.1) else None
  }

  /** The output patch of a trial, as a function of its two level indices. */
  function OutputFn(phys: Physics, pt: Patch): ((nat, nat)) -> Grid<Pixel>
  {
    (t: (nat, nat)) => if pt.Valid() && t.0 < |pt.mlevels| && t.1 < |pt.slevels| then TrialOutput(phys, pt, t.0, t.1) else []
  }

  /** The output of the search over the trials of `idx`: the pure correction when
      no trial has a finite score, else the first best trial. */
  function SearchOutput(phys: Physics, pt: Patch, look: real, idx: nat): (r: Grid<Pixel>)
    requires pt.Valid() && idx < |pt.mlevels|
    ensures SameShape(r, pt.elevation)
    ensures || r == PureOutput(phys, pt)
            || exists k :: 0 <= k < |Trials(pt, idx)| &&
                 Trials(pt, idx)[k].0 <= idx && Trials(pt, idx)[k].1 <= idx &&
                 r == TrialOutput(phys, pt, Trials(pt, idx)[k].0, Trials(pt, idx)[k].1)
  {
    TrialsInLevels(pt, idx);
    PureOrTrialOutput(phys, pt, look, idx);
    SearchResult(Trials(pt, idx), ScoreFn(phys, pt, look), OutputFn(phys, pt), PureOutput(phys, pt))
  }

  /** The search keeps the pure correction or the output of one trial. */
  lemma PureOrTrialOutput(phys: Physics, pt: Patch, look: real, idx: nat)
    requires pt.Valid() && idx < |pt.mlevels|
    ensures var r := SearchResult(Trials(pt, idx), ScoreFn(phys, pt, look), OutputFn(phys, pt), PureOutput(phys, pt));
            || r == PureOutput(phys, pt)
            || exists k :: 0 <= k < |Trials(pt, idx)| &&
                 Trials(pt, idx)[k].0 <= idx && Trials(pt, idx)[k].1 <= idx &&
                 r == TrialOutput(phys, pt, Trials(pt, idx)[k].0, Trials(pt, idx)[k].1)
  {
    var trials, output := Trials(pt, idx), OutputFn(phys, pt);
    var r := SearchResult(trials, ScoreFn(phys, pt, look), output, PureOutput(phys, pt));
    if r != PureOutput(phys, pt) {
      var k :| 0 <= k < |trials| && r == output(trials[k]);
      TrialOutputAt(phys, pt, idx, k);
    }
  }

  /** When every trial's corrected interferogram has a NaN deviation, the patch
      keeps the pure correction with NaN levels. */
  lemma SearchAllNaNIsPure(phys: Physics, pt: Patch, look: real, idx: nat)
    requires pt.Valid() && idx < |pt.mlevels|
    requires forall j :: 0 <= j < |Trials(pt, idx)| ==> ScoreFn(phys, pt, look)(Trials(pt, idx)[j]).None?
    ensures SearchOutput(phys, pt, look, idx) == PureOutput(phys, pt)
  {
    SearchAllNaN(Trials(pt, idx), ScoreFn(phys, pt, look), OutputFn(phys, pt), PureOutput(phys, pt));
  }

  /** Trial `k` tries levels no deeper than `idx`, and its output is the trial's. */
  lemma TrialOutputAt(phys: Physics, pt: Patch, idx: nat, k: nat)
    requires pt.Valid() && idx < |pt.mlevels| && k < |Trials(pt, idx)|
    ensures var t := Trials(pt, idx)[k];
      && t.0 <= idx && t.1 <= idx
      && OutputFn(phys, pt)(t) == TrialOutput(phys, pt, t.0, t.1)
  {
    var mR, sR := LevelRange(pt.NoMasterRain(), idx), LevelRange(pt.NoSlaveRain(), idx);
    PairsAt(mR, sR, k);
  }

  /** Otherwise the patch keeps the delays and levels of the first trial with the
      smallest deviation. */
  lemma SearchKeepsFirstBest(phys: Physics, pt: Patch, look: real, idx: nat, k: nat)
    requires pt.Valid() && idx < |pt.mlevels|
    requires FirstBest(Trials(pt, idx), ScoreFn(phys, pt, look), k)
    ensures var t := Trials(pt, idx)[k];
      && t.0 <= idx && t.1 <= idx
      && SearchOutput(phys, pt, look, idx) == TrialOutput(phys, pt, t.0, t.1)
  {
    SearchFirstBest(Trials(pt, idx), ScoreFn(phys, pt, look), OutputFn(phys, pt), PureOutput(phys, pt), k);
    TrialOutputAt(phys, pt, idx, k);
  }

  /** Without rain on either date the only trial is the top level of both columns,
      which injects nothing: the patch keeps the pure correction whatever the
      deviation. */
  lemma DrySearchIsPure(phys: Physics, pt: Patch, look: real, idx: nat)
    requires pt.Valid() && idx < |pt.mlevels|
    requires pt.NoMasterRain() && pt.NoSlaveRain()
    ensures SearchOutput(phys, pt, look, idx) == PureOutput(phys, pt)
  {
    var output := OutputFn(phys, pt);
    forall k | 0 <= k < |Trials(pt, idx)|
      ensures output(Trials(pt, idx)[k]) == PureOutput(phys, pt)
    {
      PairsAt([0], [0], k);
      assert TrialOutput(phys, pt, 0, 0) == PureOutput(phys, pt);
    }
    SearchSameOutput(Trials(pt, idx), ScoreFn(phys, pt, look), output, PureOutput(phys, pt));
  }

  /** The levels stored in an output patch: NaN on a date without rain, otherwise
      NaN or one of the levels from the top of the column down to `min_plevel`. */
  ghost predicate LevelsWithin(pt: Patch, idx: nat, r: Grid<Pixel>)
    requires pt.Valid() && idx < |pt.mlevels|
  {
    forall i, j :: 0 <= i < |r| && 0 <= j < |r[i]| ==>
      && (pt.NoMasterRain() ==> r[i][j].mlevel.None?)
      && (pt.NoSlaveRain() ==> r[i][j].slevel.None?)
      && (r[i][j].mlevel.Some? ==> r[i][j].mlevel.value in pt.mlevels[..idx + 1])
      && (r[i][j].slevel.Some? ==> r[i][j].slevel.value in pt.slevels[..idx + 1])
  }

  lemma TrialLevelsWithin(phys: Physics, pt: Patch, idx: nat, k: nat)
    requires pt.Valid() && idx < |pt.mlevels| && k < |Trials(pt, idx)|
    ensures LevelsWithin(pt, idx, OutputFn(phys, pt)(Trials(pt, idx)[k]))
  {
    TrialOutputAt(phys, pt, idx, k);
    var t := Trials(pt, idx)[k];
    assert pt.mlevels[t.0] == pt.mlevels[..idx + 1][t.0];
    assert pt.slevels[t.1] == pt.slevels[..idx + 1][t.1];
  }

  /** The patch's stored levels are NaN on a dry date and never deeper than
      `min_plevel`. */
  lemma SearchLevelsWithin(phys: Physics, pt: Patch, look: real, idx: nat)
    requires pt.Valid() && idx < |pt.mlevels|
    ensures LevelsWithin(pt, idx, SearchOutput(phys, pt, look, idx))
  {
    var trials, output := Trials(pt, idx), OutputFn(phys, pt);
    forall k | 0 <= k < |trials|
      ensures LevelsWithin(pt, idx, output(trials[k]))
    {
      TrialLevelsWithin(phys, pt, idx, k);
    }
  }

  /** `_optimise_zenith_delay`: LevelNotFound when `min_plevel` is not a level of
      the master patch; otherwise the delays and levels of the first trial with the
      smallest finite standard deviation, or the pure correction with NaN levels
      when every trial's deviation is NaN. */
  method OptimiseZenithDelay(phys: Physics, pt: Patch, minLevel: real, look: real)
    returns (r: Result<Grid<Pixel>, Error>)
    requires pt.Valid()
    ensures r.Failure? <==> minLevel !in pt.MasterLevelList()
    ensures r.Failure? ==> r.error == LevelNotFound
    ensures r.Success? ==> SameShape(r.value, pt.elevation)
    ensures r.Success? ==>
      var idx := FindLevel(pt.MasterLevelList(), minLevel).value;
      idx < |pt.mlevels| && r.value == SearchOutput(phys, pt, look, idx)
  {
    var found := FindLevel(pt.MasterLevelList(), minLevel);
    if found.Failure? {
      return Failure(LevelNotFound);
    }
    var idx := found.value;
    var mR := LevelRange(pt.NoMasterRain(), idx);
    var sR := LevelRange(pt.NoSlaveRain(), idx);
    var out := Scan(mR, sR, ScoreFn(phys, pt, look), OutputFn(phys, pt), PureOutput(phys, pt));
    assert out == SearchOutput(phys, pt, look, idx);
    return Success(out);
  }
}
