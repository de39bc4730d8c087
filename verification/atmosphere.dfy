/** The weather-model side of the corrections: per-pixel zenith delays, rainfall
    injection, slant projection and the corrected interferogram. The physics itself
    (interpolation, refractivity, trapezoidal integration, the injection rule,
    the cosine projection and the standard deviation) is a parameter. */
module Atmosphere {
  import opened Wrappers
  import opened Errors
  import opened Grids

  /** One weather-model column: per pressure level, temperature, relative humidity
      and geopotential height. */
  datatype Column = Column(temperature: seq<real>, humidity: seq<real>, geopotential: seq<real>)

  /** A scalar field (here: elevation in metres) on a lon/lat grid. */
  datatype GeoGrid = GeoGrid(lons: seq<real>, lats: seq<real>, data: Grid<real>)
  {
    predicate Valid()
    {
      HasShape(data, |lats|, |lons|)
    }
  }

  /** A weather model for one date. The pressure levels (hPa) are the same in every
      column, so they are stored once. */
  datatype WeatherModel = WeatherModel(lats: seq<real>, lons: seq<real>, levels: seq<real>, columns: Grid<Column>)
  {
    predicate Valid()
    {
      HasShape(columns, |lats|, |lons|)
    }

    /** `pressure[0, 0, :]`: the levels of the first column, none when the grid is empty. */
    function LevelList(): seq<real>
    {
      if |columns| > 0 && |columns[0]| > 0 then levels else []
    }
  }

  /** The floating-point collaborators, taken as given functions.
      - zenith: (column, levels, surface elevation) -> (wet, dry) one-way zenith delay in cm
      - inject: (column, levels, rain rate, threshold level) -> humidity after rainfall injection
      - slant: (zenith delay, look angle) -> slant delay
      - std: standard deviation of a field, None when it is NaN */
  datatype Physics = Physics(
    zenith: (Column, seq<real>, real) -> (real, real),
    inject: (Column, seq<real>, real, real) -> seq<real>,
    slant: (real, real) -> real,
    std: Grid<real> -> Option<real>)

  datatype Delays = Delays(wet: Grid<real>, dry: Grid<real>, total: Grid<real>)

  /** The per-pixel loop of `_calculate_zenith_delay_jit`: every pixel's delays come
      from its own column and elevation; the total is the sum of wet and dry. */
  function ZenithFields(phys: Physics, levels: seq<real>, columns: Grid<Column>, elevation: Grid<real>): (d: Delays)
    requires SameShape(columns, elevation)
    ensures SameShape(d.wet, elevation) && SameShape(d.dry, elevation) && SameShape(d.total, elevation)
    ensures forall i, j :: 0 <= i < |elevation| && 0 <= j < |elevation[i]| ==>
      d.wet[i][j] == phys.zenith(columns[i][j], levels, elevation[i][j]).0 &&
      d.dry[i][j] == phys.zenith(columns[i][j], levels, elevation[i][j]).1
    ensures forall i, j :: 0 <= i < |elevation| && 0 <= j < |elevation[i]| ==>
      d.total[i][j] == d.dry[i][j] + d.wet[i][j]
  {
    var pixel := Zip(columns, elevation, (c: Column, e: real) => phys.zenith(c, levels, e));
    var wet := Map(pixel, (z: (real, real)) => z.0);
    var dry := Map(pixel, (z: (real, real)) => z.1);
    Delays(wet, dry, Add(dry, wet))
  }

  /** The model and the DEM have the same number of latitudes and of longitudes. */
  predicate Matches(model: WeatherModel, dem: GeoGrid)
  {
    |dem.lats| == |model.lats| && |dem.lons| == |model.lons|
  }

  /** `calculate_era_zenith_delay`: refuses a model whose grid size differs from the DEM's. */
  function CalculateEraZenithDelay(phys: Physics, model: WeatherModel, dem: GeoGrid): (r: Result<Delays, Error>)
    requires model.Valid() && dem.Valid()
    ensures r.Failure? <==> !Matches(model, dem)
    ensures r.Failure? ==> r.error == GridMismatch
    ensures r.Success? ==>
      SameShape(r.value.wet, dem.data) && SameShape(r.value.dry, dem.data) && SameShape(r.value.total, dem.data)
    ensures r.Success? ==> forall i, j :: 0 <= i < |dem.data| && 0 <= j < |dem.data[i]| ==>
      r.value.wet[i][j] == phys.zenith(model.columns[i][j], model.levels, dem.data[i][j]).0 &&
      r.value.dry[i][j] == phys.zenith(model.columns[i][j], model.levels, dem.data[i][j]).1 &&
      r.value.total[i][j] == r.value.wet[i][j] + r.value.dry[i][j]
  {
    if |dem.lats| != |model.lats| || |dem.lons| != |model.lons| then
      Failure(GridMismatch)
    else
      HasShapeSame(model.columns, dem.data, |dem.lats|, |dem.lons|);
      Success(ZenithFields(phys, model.levels, model.columns, dem.data))
  }

  /** `add_rainfall` applied pixel by pixel: only the humidity of each column changes. */
  function InjectRainfall(phys: Physics, levels: seq<real>, columns: Grid<Column>, rain: Grid<real>, threshold: real): (r: Grid<Column>)
    requires SameShape(columns, rain)
    ensures SameShape(r, columns)
    ensures forall i, j :: 0 <= i < |columns| && 0 <= j < |columns[i]| ==>
      r[i][j].temperature == columns[i][j].temperature &&
      r[i][j].geopotential == columns[i][j].geopotential &&
      r[i][j].humidity == phys.inject(columns[i][j], levels, rain[i][j], threshold)
  {
    Zip(columns, rain, (c: Column, rate: real) => c.(humidity := phys.inject(c, levels, rate, threshold)))
  }

  /** A whole model with rainfall injected above `threshold`: grid, coordinates and
      levels are untouched. */
  function InjectModel(phys: Physics, model: WeatherModel, rain: Grid<real>, threshold: real): (m: WeatherModel)
    requires model.Valid() && SameShape(model.columns, rain)
    ensures m.Valid()
    ensures m.lats == model.lats && m.lons == model.lons && m.levels == model.levels
    ensures m.LevelList() == model.LevelList()
    ensures SameShape(m.columns, rain)
    ensures forall i, j :: 0 <= i < |model.columns| && 0 <= j < |model.columns[i]| ==>
      m.columns[i][j].temperature == model.columns[i][j].temperature &&
      m.columns[i][j].geopotential == model.columns[i][j].geopotential &&
      m.columns[i][j].humidity == phys.inject(model.columns[i][j], model.levels, rain[i][j], threshold)
  {
    var cols := InjectRainfall(phys, model.levels, model.columns, rain, threshold);
    SameShapeTransitive(cols, model.columns, model.columns);
    SameShapeTransitive(cols, model.columns, rain);
    model.(columns := cols)
  }

  /** `zenith2slant` applied to every pixel. */
  function Slant(phys: Physics, g: Grid<real>, look: real): (r: Grid<real>)
    ensures SameShape(r, g)
    ensures forall i, j :: 0 <= i < |g| && 0 <= j < |g[i]| ==> r[i][j] == phys.slant(g[i][j], look)
  {
    Map(g, (z: real) => phys.slant(z, look))
  }

  /** `calc_ifg_delay`: the interferometric delay, master minus slave at every pixel. */
  function CalcIfgDelay(master: Grid<real>, slave: Grid<real>): (r: Grid<real>)
    requires SameShape(master, slave)
    ensures SameShape(r, master)
    ensures forall i, j :: 0 <= i < |master| && 0 <= j < |master[i]| ==> r[i][j] == master[i][j] - slave[i][j]
  {
    Zip(master, slave, (m: real, s: real) => m - s)
  }

  /** Swapping the dates negates the interferometric delay at every pixel. */
  lemma CalcIfgDelaySwap(master: Grid<real>, slave: Grid<real>)
    requires SameShape(master, slave)
    ensures CalcIfgDelay(slave, master) == Negate(CalcIfgDelay(master, slave))
  {
    var a, b := CalcIfgDelay(slave, master), Negate(CalcIfgDelay(master, slave));
    SameShapeTransitive(a, slave, master);
    SameShapeTransitive(a, master, b);
    GridExtensionality(a, b);
  }

  /** Adding the slave delay back to the interferometric delay restores the master delay. */
  lemma CalcIfgDelayRestoresMaster(master: Grid<real>, slave: Grid<real>)
    requires SameShape(master, slave)
    ensures Add(CalcIfgDelay(master, slave), slave) == master
  {
    var d := CalcIfgDelay(master, slave);
    SameShapeTransitive(d, master, slave);
    var a := Add(d, slave);
    SameShapeTransitive(a, d, master);
    GridExtensionality(a, master);
  }

  /** Total slant delay of one date: slant(wet) + slant(dry). */
  function SlantTotal(phys: Physics, d: Delays, look: real): (r: Grid<real>)
    requires SameShape(d.wet, d.dry)
    ensures SameShape(r, d.wet)
  {
    var w, y := Slant(phys, d.wet, look), Slant(phys, d.dry, look);
    SameShapeTransitive(w, d.wet, d.dry);
    SameShapeTransitive(w, d.dry, y);
    Add(w, y)
  }

  /** The interferogram after removing the simulated interferometric slant delay. */
  function Corrected(phys: Physics, ifg: Grid<real>, master: Delays, slave: Delays, look: real): (r: Grid<real>)
    requires SameShape(master.wet, ifg) && SameShape(master.dry, ifg)
    requires SameShape(slave.wet, ifg) && SameShape(slave.dry, ifg)
    ensures SameShape(r, ifg)
    ensures forall i, j :: 0 <= i < |ifg| && 0 <= j < |ifg[i]| ==>
      r[i][j] == ifg[i][j] - ((phys.slant(master.wet[i][j], look) + phys.slant(master.dry[i][j], look))
                            - (phys.slant(slave.wet[i][j], look) + phys.slant(slave.dry[i][j], look)))
  {
    SameShapeTransitive(master.wet, ifg, master.dry);
    SameShapeTransitive(slave.wet, ifg, slave.dry);
    var mt, st := SlantTotal(phys, master, look), SlantTotal(phys, slave, look);
    SameShapeTransitive(mt, master.wet, ifg);
    SameShapeTransitive(st, slave.wet, ifg);
    SameShapeTransitive(mt, ifg, st);
    var d := CalcIfgDelay(mt, st);
    SameShapeTransitive(ifg, mt, d);
    Zip(ifg, d, (o: real, s: real) => o - s)
  }

  /** Swapping the dates and negating the interferogram negates the corrected field. */
  lemma CorrectedSwap(phys: Physics, ifg: Grid<real>, master: Delays, slave: Delays, look: real)
    requires SameShape(master.wet, ifg) && SameShape(master.dry, ifg)
    requires SameShape(slave.wet, ifg) && SameShape(slave.dry, ifg)
    ensures SameShape(slave.wet, Negate(ifg)) && SameShape(slave.dry, Negate(ifg))
    ensures SameShape(master.wet, Negate(ifg)) && SameShape(master.dry, Negate(ifg))
    ensures Corrected(phys, Negate(ifg), slave, master, look) == Negate(Corrected(phys, ifg, master, slave, look))
  {
    var n := Negate(ifg);
    SameShapeTransitive(master.wet, ifg, n);
    SameShapeTransitive(master.dry, ifg, n);
    SameShapeTransitive(slave.wet, ifg, n);
    SameShapeTransitive(slave.dry, ifg, n);
    var a, b := Corrected(phys, n, slave, master, look), Negate(Corrected(phys, ifg, master, slave, look));
    SameShapeTransitive(a, n, ifg);
    SameShapeTransitive(b, Corrected(phys, ifg, master, slave, look), ifg);
    SameShapeTransitive(a, ifg, b);
    GridExtensionality(a, b);
  }
}
