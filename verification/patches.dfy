/** `patches_era_delay`: the scene is cut into overlapping windows; a window with
    no rain on either date gets the pure weather-model correction, any other window
    the greedy level search of `_optimise_zenith_delay`, and each window's result is
    written back into output arrays that start as zeros. */
module Patches {
  import opened Wrappers
  import opened Errors
  import opened Grids
  import opened Sequences
  import opened Levels
  import opened Atmosphere
  import opened Windows
  import opened Tiling
  import opened PatchSearch

  /** The inputs of `patches_era_delay`: DEM, interferogram, both weather models
      and both rainfall radars. */
  datatype Scene = Scene(dem: GeoGrid, ifg: Grid<real>, mrain: Grid<real>, srain: Grid<real>,
                         mmodel: WeatherModel, smodel: WeatherModel)
  {
    function Rows(): nat { |dem.lats| }

    function Cols(): nat { |dem.lons| }

    /** What the function asks of its callers: every field on the DEM's grid. */
    predicate Valid()
    {
      && dem.Valid()
      && HasShape(ifg, Rows(), Cols()) && HasShape(mrain, Rows(), Cols()) && HasShape(srain, Rows(), Cols())
      && HasShape(mmodel.columns, Rows(), Cols()) && HasShape(smodel.columns, Rows(), Cols())
    }

    /** `nplevels`: the number of master levels, which is also the depth of the
        slave model's windows. */
    function LevelCount(): nat { |mmodel.levels| }
  }

  /** The arguments `view_as_windows` accepts: a patch between 2 pixels (so that
      the step is at least 1) and the grid size on both axes, a window depth of at
      least one level, and a slave model at least that deep. Anything else raises
      ValueError. */
  predicate Configured(s: Scene, ph: nat, pw: nat)
  {
    && ValidPatch(s.Rows(), ph) && ValidPatch(s.Cols(), pw)
    && s.LevelCount() > 0 && |s.smodel.levels| >= s.LevelCount()
  }

  function TilesOf(s: Scene, ph: nat, pw: nat): Tiles
  {
    Tiles(s.Rows(), s.Cols(), ph, pw)
  }

  /** The first `n` levels of a column, as the window depth `nplevels` cuts it. */
  function Truncate(c: Column, n: nat): (r: Column)
    ensures |r.temperature| == Min(n, |c.temperature|) && r.temperature <= c.temperature
    ensures |r.humidity| == Min(n, |c.humidity|) && r.humidity <= c.humidity
    ensures |r.geopotential| == Min(n, |c.geopotential|) && r.geopotential <= c.geopotential
  {
    Column(c.temperature[..Min(n, |c.temperature|)], c.humidity[..Min(n, |c.humidity|)],
           c.geopotential[..Min(n, |c.geopotential|)])
  }

  function Min(a: nat, b: nat): nat { if a <= b then a else b }

  /** Window `w` is one of the windows of the scene. */
  predicate InWindows(t: Tiles, w: (nat, nat))
  {
    t.Valid() && w.0 < WindowCount(t.rows, t.ph) && w.1 < WindowCount(t.cols, t.pw)
  }

  /** The slices of every input that window `w` sees: `pdem[y, x]`, `pifg[y, x]`,
      the radars, and the models' windows `[y, x, 0]`, the slave's cut to the
      master's number of levels. */
  function PatchAt(s: Scene, ph: nat, pw: nat, w: (nat, nat)): (pt: Patch)
    requires s.Valid() && Configured(s, ph, pw) && InWindows(TilesOf(s, ph, pw), w)
    ensures pt.Valid() && HasShape(pt.elevation, ph, pw)
    ensures pt.mlevels == s.mmodel.levels
    ensures pt.MasterLevelList() == s.mmodel.levels
    ensures pt.slevels == s.smodel.levels[..s.LevelCount()]
    ensures Origin(w.0, ph) + ph <= s.Rows() && Origin(w.1, pw) + pw <= s.Cols()
    ensures forall i, j :: 0 <= i < ph && 0 <= j < pw ==>
      var y, x := Origin(w.0, ph) + i, Origin(w.1, pw) + j;
      && pt.elevation[i][j] == s.dem.data[y][x]
      && pt.ifg[i][j] == s.ifg[y][x]
      && pt.mrain[i][j] == s.mrain[y][x]
      && pt.srain[i][j] == s.srain[y][x]
      && pt.mcolumns[i][j] == s.mmodel.columns[y][x]
      && pt.scolumns[i][j] == Truncate(s.smodel.columns[y][x], s.LevelCount())
  {
    var rows, cols, n := s.Rows(), s.Cols(), s.LevelCount();
    var r0, c0 := Origin(w.0, ph), Origin(w.1, pw);
    WindowInBounds(rows, ph, w.0);
    WindowInBounds(cols, pw, w.1);
    var scols := Window(s.smodel.columns, rows, cols, r0, c0, ph, pw);
    Patch(Window(s.dem.data, rows, cols, r0, c0, ph, pw),
          Window(s.ifg, rows, cols, r0, c0, ph, pw),
          Window(s.mrain, rows, cols, r0, c0, ph, pw),
          Window(s.srain, rows, cols, r0, c0, ph, pw),
          Window(s.mmodel.columns, rows, cols, r0, c0, ph, pw),
          Map(scols, (c: Column) => Truncate(c, n)),
          s.mmodel.levels, s.smodel.levels[..n])
  }

  /** `pmwr[y, x].sum() == 0 and pswr[y, x].sum() == 0`. */
  predicate Dry(pt: Patch)
  {
    pt.NoMasterRain() && pt.NoSlaveRain()
  }

  /** What one window produces: the pure correction for a dry window; otherwise
      the search, which raises LevelNotFound when `min_plevel` is not a level. */
  function PatchOutcome(phys: Physics, pt: Patch, minLevel: real, look: real): (r: Result<Grid<Pixel>, Error>)
    requires pt.Valid()
    ensures r.Success? ==> SameShape(r.value, pt.elevation)
    ensures Dry(pt) ==> r == Success(PureOutput(phys, pt))
    ensures !Dry(pt) && minLevel !in pt.MasterLevelList() ==> r == Failure(LevelNotFound)
    ensures !Dry(pt) && minLevel in pt.MasterLevelList() ==>
      var idx := FindLevel(pt.MasterLevelList(), minLevel).value;
      idx < |pt.mlevels| && r == Success(SearchOutput(phys, pt, look, idx))
  {
    if Dry(pt) then Success(PureOutput(phys, pt))
    else
      match FindLevel(pt.MasterLevelList(), minLevel)
      case Failure(e) => Failure(e)
      case Success(idx) => Success(SearchOutput(phys, pt, look, idx))
  }

  /** The outcome of every window of the scene, as a function of the window. */
  function OutcomeFn(phys: Physics, s: Scene, ph: nat, pw: nat, minLevel: real, look: real)
    : ((nat, nat)) -> Result<Grid<Pixel>, Error>
  {
    (w: (nat, nat)) =>
      if s.Valid() && Configured(s, ph, pw) && InWindows(TilesOf(s, ph, pw), w)
      then PatchOutcome(phys, PatchAt(s, ph, pw, w), minLevel, look)
      else Failure(InvalidPatch)
  }

  /** The output arrays before any window is written: all zeros, levels included. */
  const ZeroPixel := Pixel(0.0, 0.0, 0.0, 0.0, Some(0.0), Some(0.0))

  lemma OutcomeShaped(phys: Physics, s: Scene, ph: nat, pw: nat, minLevel: real, look: real)
    ensures Shaped(TilesOf(s, ph, pw), OutcomeFn(phys, s, ph, pw, minLevel, look))
  {
    var t, outcome := TilesOf(s, ph, pw), OutcomeFn(phys, s, ph, pw, minLevel, look);
    forall w: (nat, nat) | outcome(w).Success?
      ensures HasShape(outcome(w).value, t.ph, t.pw)
    {
      var pt := PatchAt(s, ph, pw, w);
      assert SameShape(outcome(w).value, pt.elevation);
    }
  }

  /** The window walk over the scene, from all-zero outputs. */
  function Walk(phys: Physics, s: Scene, ph: nat, pw: nat, minLevel: real, look: real): (r: Result<Grid<Pixel>, Error>)
    requires s.Valid() && Configured(s, ph, pw)
    ensures r.Success? ==> HasShape(r.value, s.Rows(), s.Cols())
  {
    var t := TilesOf(s, ph, pw);
    OutcomeShaped(phys, s, ph, pw, minLevel, look);
    Run(t, Fill(s.Rows(), s.Cols(), ZeroPixel), OutcomeFn(phys, s, ph, pw, minLevel, look), |t.WindowList()|)
  }

  /** `patches_era_delay`: InvalidPatch when `view_as_windows` rejects the patch size
      or the level depth; otherwise the window walk from all-zero outputs. */
  method PatchesEraDelay(phys: Physics, s: Scene, minLevel: real, ph: nat, pw: nat, look: real)
    returns (r: Result<Grid<Pixel>, Error>)
    requires s.Valid()
    ensures !Configured(s, ph, pw) <==> r == Failure(InvalidPatch)
    ensures Configured(s, ph, pw) ==> r == Walk(phys, s, ph, pw, minLevel, look)
  {
    if !Configured(s, ph, pw) {
      return Failure(InvalidPatch);
    }
    var t := TilesOf(s, ph, pw);
    var outcome := OutcomeFn(phys, s, ph, pw, minLevel, look);
    OutcomeShaped(phys, s, ph, pw, minLevel, look);
    r := AssembleWindows(t, Fill(s.Rows(), s.Cols(), ZeroPixel), outcome);
    NeverInvalid(phys, s, ph, pw, minLevel, look);
  }

  /** Once the arguments are accepted, no window raises InvalidPatch. */
  lemma NeverInvalid(phys: Physics, s: Scene, ph: nat, pw: nat, minLevel: real, look: real)
    requires s.Valid() && Configured(s, ph, pw)
    ensures Walk(phys, s, ph, pw, minLevel, look) != Failure(InvalidPatch)
  {
    var t, outcome := TilesOf(s, ph, pw), OutcomeFn(phys, s, ph, pw, minLevel, look);
    var init := Fill(s.Rows(), s.Cols(), ZeroPixel);
    OutcomeShaped(phys, s, ph, pw, minLevel, look);
    RunFailsIff(t, init, outcome, |t.WindowList()|);
    var run := Run(t, init, outcome, |t.WindowList()|);
    if run.Failure? {
      var k :| 0 <= k < |t.WindowList()| && outcome(t.WindowList()[k]) == run;
      WindowListed(t, k);
    }
  }

  /** Every listed window is a window of the scene. */
  lemma WindowListed(t: Tiles, k: nat)
    requires t.Valid() && k < |t.WindowList()|
    ensures InWindows(t, t.WindowList()[k])
  {
    PairsAt(Range(WindowCount(t.rows, t.ph)), Range(WindowCount(t.cols, t.pw)), k);
  }

  /** One window processed: a dry window never fails; a rainy one fails, with
      LevelNotFound, exactly when `min_plevel` is not a master level. */
  lemma PatchOutcomeFails(phys: Physics, pt: Patch, minLevel: real, look: real)
    requires pt.Valid()
    ensures PatchOutcome(phys, pt, minLevel, look).Failure? <==>
      !Dry(pt) && minLevel !in pt.MasterLevelList()
    ensures PatchOutcome(phys, pt, minLevel, look).Failure? ==>
      PatchOutcome(phys, pt, minLevel, look).error == LevelNotFound
  {
  }

  /** The dry-window shortcut gives what the search would have given: with no rain
      on either date the search keeps the pure correction too. The shortcut only
      skips the level lookup, and with it the LevelNotFound error. */
  lemma DryShortcutAgrees(phys: Physics, pt: Patch, minLevel: real, look: real)
    requires pt.Valid() && Dry(pt) && minLevel in pt.MasterLevelList()
    ensures var idx := FindLevel(pt.MasterLevelList(), minLevel).value;
      && idx < |pt.mlevels|
      && PatchOutcome(phys, pt, minLevel, look) == Success(SearchOutput(phys, pt, look, idx))
  {
    var idx := FindLevel(pt.MasterLevelList(), minLevel).value;
    DrySearchIsPure(phys, pt, look, idx);
  }

  /** Some window of the scene has rain on at least one date. */
  ghost predicate SomeRain(s: Scene, ph: nat, pw: nat)
    requires s.Valid() && Configured(s, ph, pw)
  {
    exists w: (nat, nat) :: InWindows(TilesOf(s, ph, pw), w) && !Dry(PatchAt(s, ph, pw, w))
  }

  /** The window at `w` is listed at index `w.0 * columns-of-windows + w.1`. */
  lemma WindowIndex(t: Tiles, w: (nat, nat)) returns (k: nat)
    requires InWindows(t, w)
    ensures k < |t.WindowList()| && t.WindowList()[k] == w
  {
    var cy, cx := WindowCount(t.rows, t.ph), WindowCount(t.cols, t.pw);
    k := w.0 * cx + w.1;
    PairsIndexAt(Range(cy), Range(cx), w.0, w.1, k);
  }

  /** Once the arguments are accepted, the walk fails exactly when some window has
      rain and `min_plevel` is not a level of the master model, and then with
      LevelNotFound: a scene without rain never looks the level up. */
  lemma WalkFailsIff(phys: Physics, s: Scene, ph: nat, pw: nat, minLevel: real, look: real)
    requires s.Valid() && Configured(s, ph, pw)
    ensures Walk(phys, s, ph, pw, minLevel, look).Failure? <==>
      SomeRain(s, ph, pw) && minLevel !in s.mmodel.levels
    ensures Walk(phys, s, ph, pw, minLevel, look).Failure? ==>
      Walk(phys, s, ph, pw, minLevel, look).error == LevelNotFound
  {
    var t, outcome := TilesOf(s, ph, pw), OutcomeFn(phys, s, ph, pw, minLevel, look);
    var init := Fill(s.Rows(), s.Cols(), ZeroPixel);
    OutcomeShaped(phys, s, ph, pw, minLevel, look);
    var ws := t.WindowList();
    RunFailsIff(t, init, outcome, |ws|);
    var run := Run(t, init, outcome, |ws|);
    if run.Failure? {
      var k :| 0 <= k < |ws| && outcome(ws[k]) == run;
      WindowListed(t, k);
      PatchOutcomeFails(phys, PatchAt(s, ph, pw, ws[k]), minLevel, look);
    }
    if SomeRain(s, ph, pw) && minLevel !in s.mmodel.levels {
      var w :| InWindows(t, w) && !Dry(PatchAt(s, ph, pw, w));
      var k := WindowIndex(t, w);
      PatchOutcomeFails(phys, PatchAt(s, ph, pw, w), minLevel, look);
    }
  }

  /** A walk that succeeds succeeded on every window. */
  lemma WalkAllSucceed(phys: Physics, s: Scene, ph: nat, pw: nat, minLevel: real, look: real)
    requires s.Valid() && Configured(s, ph, pw)
    requires Walk(phys, s, ph, pw, minLevel, look).Success?
    ensures Shaped(TilesOf(s, ph, pw), OutcomeFn(phys, s, ph, pw, minLevel, look))
    ensures var t := TilesOf(s, ph, pw);
      forall k :: 0 <= k < |t.WindowList()| ==> OutcomeFn(phys, s, ph, pw, minLevel, look)(t.WindowList()[k]).Success?
  {
    var t, outcome := TilesOf(s, ph, pw), OutcomeFn(phys, s, ph, pw, minLevel, look);
    OutcomeShaped(phys, s, ph, pw, minLevel, look);
    RunFailsIff(t, Fill(s.Rows(), s.Cols(), ZeroPixel), outcome, |t.WindowList()|);
  }

  /** A pixel inside the covered extent on both axes holds what its owner window
      (the last window covering it) produced, at the pixel's place in that window. */
  lemma WalkCoveredPixel(phys: Physics, s: Scene, ph: nat, pw: nat, minLevel: real, look: real, i: nat, j: nat)
    returns (w: (nat, nat), v: Grid<Pixel>)
    requires s.Valid() && Configured(s, ph, pw)
    requires Walk(phys, s, ph, pw, minLevel, look).Success?
    requires i < CoveredExtent(s.Rows(), ph) && j < CoveredExtent(s.Cols(), pw)
    ensures w == OwnerWindow(TilesOf(s, ph, pw), i, j) && InWindows(TilesOf(s, ph, pw), w)
    ensures Contains(w.0, ph, i) && Contains(w.1, pw, j) && HasShape(v, ph, pw)
    ensures PatchOutcome(phys, PatchAt(s, ph, pw, w), minLevel, look) == Success(v)
    ensures var t := TilesOf(s, ph, pw);
      Walk(phys, s, ph, pw, minLevel, look).value[i][j] == v[i - Origin(w.0, t.ph)][j - Origin(w.1, t.pw)]
  {
    OutcomeShaped(phys, s, ph, pw, minLevel, look);
    w, v := TiledPixel(TilesOf(s, ph, pw), Fill(s.Rows(), s.Cols(), ZeroPixel), OutcomeFn(phys, s, ph, pw, minLevel, look), i, j);
  }

  /** Any other pixel keeps the initial zeros: with a patch that does not fit the
      grid, the last rows or columns are never written. */
  lemma WalkUncoveredPixel(phys: Physics, s: Scene, ph: nat, pw: nat, minLevel: real, look: real, i: nat, j: nat)
    requires s.Valid() && Configured(s, ph, pw)
    requires i < s.Rows() && j < s.Cols()
    requires i >= CoveredExtent(s.Rows(), ph) || j >= CoveredExtent(s.Cols(), pw)
    ensures Walk(phys, s, ph, pw, minLevel, look).Success? ==>
      Walk(phys, s, ph, pw, minLevel, look).value[i][j] == ZeroPixel
  {
    if Walk(phys, s, ph, pw, minLevel, look).Success? {
      var t, outcome := TilesOf(s, ph, pw), OutcomeFn(phys, s, ph, pw, minLevel, look);
      WalkAllSucceed(phys, s, ph, pw, minLevel, look);
      TiledUncovered(t, Fill(s.Rows(), s.Cols(), ZeroPixel), outcome, i, j);
    }
  }
}
