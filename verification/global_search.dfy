/** `optim_era_delay`: the brute-force search over every pair of minimum pressure
    levels for the whole interferogram. */
module GlobalSearch {
  import opened Wrappers
  import opened Errors
  import opened Grids
  import opened Sequences
  import opened Levels
  import opened Atmosphere

  /** The record `_optim_era_delay` returns: the two levels tried and the
      standard deviation of the corrected interferogram. */
  datatype CandidateResult = CandidateResult(masterP: real, slaveP: real, std: Option<real>)

  /** What the search needs of its inputs: well-formed grids, an interferogram on the
      DEM's grid and each rainfall field on its model's grid. */
  predicate Inputs(dem: GeoGrid, ifg: Grid<real>, mmodel: WeatherModel, smodel: WeatherModel,
                   mrain: Grid<real>, srain: Grid<real>)
  {
    && dem.Valid() && mmodel.Valid() && smodel.Valid()
    && SameShape(ifg, dem.data)
    && SameShape(mmodel.columns, mrain)
    && SameShape(smodel.columns, srain)
  }

  /** `_optim_era_delay`: inject rainfall into both models at the given levels,
      compute their zenith delays, project to slant, correct the interferogram and
      report its standard deviation. */
  function EvaluateCandidate(phys: Physics, dem: GeoGrid, ifg: Grid<real>,
                             mmodel: WeatherModel, smodel: WeatherModel,
                             mrain: Grid<real>, srain: Grid<real>,
                             masterP: real, slaveP: real, look: real): (r: Result<CandidateResult, Error>)
    requires Inputs(dem, ifg, mmodel, smodel, mrain, srain)
    ensures r.Success? <==> Matches(mmodel, dem) && Matches(smodel, dem)
    ensures r.Failure? ==> r.error == GridMismatch
    ensures r.Success? ==> r.value.masterP == masterP && r.value.slaveP == slaveP
  {
    var minj := InjectModel(phys, mmodel, mrain, masterP);
    var sinj := InjectModel(phys, smodel, srain, slaveP);
    var mz := CalculateEraZenithDelay(phys, minj, dem);
    var sz := CalculateEraZenithDelay(phys, sinj, dem);
    if mz.Failure? then Failure(mz.error)
    else if sz.Failure? then Failure(sz.error)
    else
      var md, sd := mz.value, sz.value;
      SameShapeTransitive(md.wet, dem.data, ifg);
      SameShapeTransitive(md.dry, dem.data, ifg);
      SameShapeTransitive(sd.wet, dem.data, ifg);
      SameShapeTransitive(sd.dry, dem.data, ifg);
      Success(CandidateResult(masterP, slaveP, phys.std(Corrected(phys, ifg, md, sd, look))))
  }

  /** `Pool.starmap`: every result in input order, or the first failure; no partial
      results. */
  function Gather<T>(rs: seq<Result<T, Error>>): (r: Result<seq<T>, Error>)
    ensures r.Success? <==> forall k :: 0 <= k < |rs| ==> rs[k].Success?
    ensures r.Success? ==> |r.value| == |rs|
    ensures r.Failure? ==> exists k :: 0 <= k < |rs| && rs[k] == Failure(r.error)
    decreases |rs|
  {
    if |rs| == 0 then Success([])
    else
      match rs[0]
      case Failure(e) => Failure(e)
      case Success(v) =>
        match Gather(rs[1..])
        case Failure(e) => Failure(e)
        case Success(vs) => Success([v] + vs)
  }

  /** `Gather` keeps every result in its place. */
  lemma {:induction false} GatherIndex<T>(rs: seq<Result<T, Error>>, vs: seq<T>, k: nat)
    requires Gather(rs) == Success(vs)
    requires k < |rs|
    ensures k < |vs| && rs[k] == Success(vs[k])
    decreases |rs|
  {
    var tail := Gather(rs[1..]);
    assert tail.Success? && vs == [rs[0].value] + tail.value;
    if k > 0 {
      GatherIndex(rs[1..], tail.value, k - 1);
    }
  }

  /** The chunk size `Pool.starmap` picks when none is given: the tasks are split
      into chunks of ⌈tasks / (4 × workers)⌉, the least size that makes at most
      four chunks per worker. */
  function PoolChunkSize(tasks: nat, workers: nat): (c: nat)
    requires workers > 0
    ensures c * (4 * workers) >= tasks
    ensures tasks > 0 ==> c > 0 && (c - 1) * (4 * workers) < tasks
    ensures tasks == 0 ==> c == 0
    ensures 0 < tasks <= 4 * workers ==> c == 1
    ensures tasks > 4 * workers ==> c > 1
  {
    CeilDiv(tasks, 4 * workers)
  }

  /** ⌈tasks / d⌉, as `divmod` and a round-up of a non-zero remainder compute it. */
  function CeilDiv(tasks: nat, d: nat): (c: nat)
    requires d > 0
    ensures c * d >= tasks
    ensures tasks > 0 ==> c > 0 && (c - 1) * d < tasks
    ensures tasks == 0 ==> c == 0
    ensures 0 < tasks <= d ==> c == 1
    ensures tasks > d ==> c > 1
  {
    var q, extra := tasks / d, tasks % d;
    DivMod(tasks, d);
    if extra != 0 then
      assert (q + 1) * d == q * d + d;
      assert q > 0 ==> q * d >= d by { if q > 0 { MulMonotone(1, q, d); } }
      q + 1
    else
      assert q > 0 ==> (q - 1) * d == q * d - d;
      assert q == 0 ==> q * d == 0;
      assert q > 1 ==> q * d > d by { if q > 1 { MulMonotone(2, q, d); } }
      assert q > 0 ==> q * d >= d by { if q > 0 { MulMonotone(1, q, d); } }
      q
  }

  /** The first task of the chunk that holds task `k`: chunks are consecutive
      runs of `chunk` tasks from the start, so `k` sits `k % chunk` places in. */
  function ChunkStart(k: nat, chunk: nat): (s: nat)
    ensures s <= k
    ensures chunk > 0 ==> k - s == k % chunk < chunk
    ensures chunk == 0 ==> s == k
    ensures k < chunk ==> s == 0
  {
    if chunk == 0 then k else k - k % chunk
  }

  /** A model after `add_rainfall` at each threshold in turn, every call changing
      the same object. */
  function InjectAll(phys: Physics, model: WeatherModel, rain: Grid<real>, thresholds: seq<real>): (m: WeatherModel)
    requires model.Valid() && SameShape(model.columns, rain)
    ensures m.Valid() && SameShape(m.columns, rain)
    ensures m.lats == model.lats && m.lons == model.lons && m.levels == model.levels
    ensures |thresholds| == 0 ==> m == model
    ensures |thresholds| > 0 ==>
      m == InjectModel(phys, InjectAll(phys, model, rain, thresholds[..|thresholds| - 1]), rain, thresholds[|thresholds| - 1])
    decreases |thresholds|
  {
    if |thresholds| == 0 then model
    else
      var prev := InjectAll(phys, model, rain, thresholds[..|thresholds| - 1]);
      InjectModel(phys, prev, rain, thresholds[|thresholds| - 1])
  }

  /** The master levels of `rs`, in order. */
  function MasterLevels(rs: seq<CandidateResult>): (ls: seq<real>)
    ensures |ls| == |rs| && forall i :: 0 <= i < |rs| ==> ls[i] == rs[i].masterP
  {
    seq(|rs|, i requires 0 <= i < |rs| => rs[i].masterP)
  }

  /** The slave levels of `rs`, in order. */
  function SlaveLevels(rs: seq<CandidateResult>): (ls: seq<real>)
    ensures |ls| == |rs| && forall i :: 0 <= i < |rs| ==> ls[i] == rs[i].slaveP
  {
    seq(|rs|, i requires 0 <= i < |rs| => rs[i].slaveP)
  }

  /** The first components of `ps`, in order. */
  function Firsts(ps: seq<(real, real)>): (ls: seq<real>)
    ensures |ls| == |ps| && forall i :: 0 <= i < |ps| ==> ls[i] == ps[i].0
  {
    seq(|ps|, i requires 0 <= i < |ps| => ps[i].0)
  }

  /** The second components of `ps`, in order. */
  function Seconds(ps: seq<(real, real)>): (ls: seq<real>)
    ensures |ls| == |ps| && forall i :: 0 <= i < |ps| ==> ls[i] == ps[i].1
  {
    seq(|ps|, i requires 0 <= i < |ps| => ps[i].1)
  }

  /** Task `k` as a worker runs it. The worker unpickles one copy of the models per
      chunk, and `add_rainfall` changes that copy in place with no reset, so task
      `k` sees the injections of the tasks before it in its chunk and then adds its
      own. */
  function EvaluateInChunk(phys: Physics, dem: GeoGrid, ifg: Grid<real>,
                           mmodel: WeatherModel, smodel: WeatherModel,
                           mrain: Grid<real>, srain: Grid<real>,
                           candidates: seq<(real, real)>, chunk: nat, k: nat, look: real)
    : (r: Result<CandidateResult, Error>)
    requires Inputs(dem, ifg, mmodel, smodel, mrain, srain)
    requires k < |candidates|
    ensures r.Success? <==> Matches(mmodel, dem) && Matches(smodel, dem)
    ensures r.Failure? ==> r.error == GridMismatch
    ensures r.Success? ==> r.value.masterP == candidates[k].0 && r.value.slaveP == candidates[k].1
  {
    var earlier := candidates[ChunkStart(k, chunk)..k];
    var m := InjectAll(phys, mmodel, mrain, Firsts(earlier));
    var s := InjectAll(phys, smodel, srain, Seconds(earlier));
    EvaluateCandidate(phys, dem, ifg, m, s, mrain, srain, candidates[k].0, candidates[k].1, look)
  }

  function Evaluations(phys: Physics, dem: GeoGrid, ifg: Grid<real>,
                       mmodel: WeatherModel, smodel: WeatherModel,
                       mrain: Grid<real>, srain: Grid<real>,
                       candidates: seq<(real, real)>, chunk: nat, look: real): (rs: seq<Result<CandidateResult, Error>>)
    requires Inputs(dem, ifg, mmodel, smodel, mrain, srain)
    ensures |rs| == |candidates|
    ensures forall k :: 0 <= k < |rs| && rs[k].Success? ==>
      rs[k].value.masterP == candidates[k].0 && rs[k].value.slaveP == candidates[k].1
  {
    seq(|candidates|, k requires 0 <= k < |candidates| =>
      EvaluateInChunk(phys, dem, ifg, mmodel, smodel, mrain, srain, candidates, chunk, k, look))
  }

  /** `rs` lists one record per pair of `ps` × `ps`, in the order of `Pairs`
      (master level varying slowest), each carrying its own two levels. */
  ghost predicate ProductOrder(rs: seq<CandidateResult>, ps: seq<real>)
  {
    && |rs| == |Pairs(ps, ps)|
    && forall k :: 0 <= k < |rs| ==>
         rs[k].masterP == Pairs(ps, ps)[k].0 && rs[k].slaveP == Pairs(ps, ps)[k].1
  }

  lemma GatherKeepsPairs(evals: seq<Result<CandidateResult, Error>>, candidates: seq<(real, real)>,
                         rs: seq<CandidateResult>)
    requires |evals| == |candidates|
    requires forall k :: 0 <= k < |evals| && evals[k].Success? ==>
      evals[k].value.masterP == candidates[k].0 && evals[k].value.slaveP == candidates[k].1
    requires Gather(evals) == Success(rs)
    ensures |rs| == |candidates|
    ensures forall k :: 0 <= k < |rs| ==> rs[k].masterP == candidates[k].0 && rs[k].slaveP == candidates[k].1
  {
    forall k | 0 <= k < |rs|
      ensures rs[k].masterP == candidates[k].0 && rs[k].slaveP == candidates[k].1
    {
      GatherIndex(evals, rs, k);
    }
  }

  /** Records carrying the levels of `candidates` carry them slice by slice. */
  lemma LevelsOfSlice(rs: seq<CandidateResult>, candidates: seq<(real, real)>, a: nat, b: nat)
    requires |rs| == |candidates| && a <= b <= |rs|
    requires forall k :: 0 <= k < |rs| ==> rs[k].masterP == candidates[k].0 && rs[k].slaveP == candidates[k].1
    ensures Firsts(candidates[a..b]) == MasterLevels(rs[a..b])
    ensures Seconds(candidates[a..b]) == SlaveLevels(rs[a..b])
  {
    assert forall j :: 0 <= j < b - a ==> Firsts(candidates[a..b])[j] == MasterLevels(rs[a..b])[j];
    assert forall j :: 0 <= j < b - a ==> Seconds(candidates[a..b])[j] == SlaveLevels(rs[a..b])[j];
  }

  /** Every candidate of `ps` × `ps`, evaluated in chunks of `chunk` tasks and
      gathered as the worker pool does. */
  function EvaluateAll(phys: Physics, dem: GeoGrid, ifg: Grid<real>,
                       mmodel: WeatherModel, smodel: WeatherModel,
                       mrain: Grid<real>, srain: Grid<real>,
                       ps: seq<real>, chunk: nat, look: real): (r: Result<seq<CandidateResult>, Error>)
    requires Inputs(dem, ifg, mmodel, smodel, mrain, srain)
    requires |ps| > 0
    ensures r.Failure? ==> r.error == GridMismatch
    ensures r.Success? <==> Matches(mmodel, dem) && Matches(smodel, dem)
    ensures r.Success? ==> ProductOrder(r.value, ps)
  {
    var candidates := Pairs(ps, ps);
    var rs := Evaluations(phys, dem, ifg, mmodel, smodel, mrain, srain, candidates, chunk, look);
    PairsLength(ps, ps);
    assert |rs| > 0;
    var r := Gather(rs);
    if r.Success? then
      GatherKeepsPairs(rs, candidates, r.value);
      r
    else r
  }

  /** `optim_era_delay` on a pool of `workers` processes: LevelNotFound when
      `min_plevel` is not a level of the master model; otherwise the records of
      every pair of levels from the top of the column down to `min_plevel`. */
  function OptimEraDelay(phys: Physics, dem: GeoGrid, ifg: Grid<real>,
                         mmodel: WeatherModel, smodel: WeatherModel,
                         mrain: Grid<real>, srain: Grid<real>,
                         minLevel: real, look: real, workers: nat): (r: Result<seq<CandidateResult>, Error>)
    requires Inputs(dem, ifg, mmodel, smodel, mrain, srain)
    requires workers > 0
    ensures r.Failure? ==> r.error == LevelNotFound || r.error == GridMismatch
    ensures r == Failure(LevelNotFound) <==> minLevel !in mmodel.LevelList()
    ensures r == Failure(GridMismatch) <==>
      minLevel in mmodel.LevelList() && !(Matches(mmodel, dem) && Matches(smodel, dem))
    ensures r.Success? ==>
      (minLevel in mmodel.LevelList() &&
       ProductOrder(r.value, mmodel.LevelList()[..FindLevel(mmodel.LevelList(), minLevel).value + 1]))
  {
    match FindLevel(mmodel.LevelList(), minLevel)
    case Failure(e) => Failure(e)
    case Success(idx) =>
      var ps := mmodel.LevelList()[..idx + 1];
      EvaluateAll(phys, dem, ifg, mmodel, smodel, mrain, srain, ps, PoolChunkSize(|Pairs(ps, ps)|, workers), look)
  }

  /** Each record `EvaluateAll` gathers is the evaluation of its own pair of levels
      on the models into which the earlier records of its chunk have injected
      rainfall, in order. */
  lemma EvaluateAllRecords(phys: Physics, dem: GeoGrid, ifg: Grid<real>,
                           mmodel: WeatherModel, smodel: WeatherModel,
                           mrain: Grid<real>, srain: Grid<real>,
                           ps: seq<real>, chunk: nat, look: real, rs: seq<CandidateResult>, k: nat)
    requires Inputs(dem, ifg, mmodel, smodel, mrain, srain)
    requires |ps| > 0
    requires EvaluateAll(phys, dem, ifg, mmodel, smodel, mrain, srain, ps, chunk, look) == Success(rs)
    requires k < |rs|
    ensures var earlier := rs[ChunkStart(k, chunk)..k];
            EvaluateCandidate(phys, dem, ifg,
                              InjectAll(phys, mmodel, mrain, MasterLevels(earlier)),
                              InjectAll(phys, smodel, srain, SlaveLevels(earlier)),
                              mrain, srain, rs[k].masterP, rs[k].slaveP, look)
              == Success(rs[k])
  {
    var candidates := Pairs(ps, ps);
    var evals := Evaluations(phys, dem, ifg, mmodel, smodel, mrain, srain, candidates, chunk, look);
    GatherIndex(evals, rs, k);
    LevelsOfSlice(rs, candidates, ChunkStart(k, chunk), k);
  }

  /** Each record of `optim_era_delay` is what `_optim_era_delay` returns for the
      two levels it carries, run on the pool's chunk of tasks: the models it sees
      carry the injections of the earlier records of its chunk. The pool neither
      drops, reorders nor alters results. */
  lemma OptimEraDelayRecords(phys: Physics, dem: GeoGrid, ifg: Grid<real>,
                             mmodel: WeatherModel, smodel: WeatherModel,
                             mrain: Grid<real>, srain: Grid<real>,
                             minLevel: real, look: real, workers: nat, rs: seq<CandidateResult>, k: nat)
    requires Inputs(dem, ifg, mmodel, smodel, mrain, srain)
    requires workers > 0
    requires OptimEraDelay(phys, dem, ifg, mmodel, smodel, mrain, srain, minLevel, look, workers) == Success(rs)
    requires k < |rs|
    ensures var earlier := rs[ChunkStart(k, PoolChunkSize(|rs|, workers))..k];
            EvaluateCandidate(phys, dem, ifg,
                              InjectAll(phys, mmodel, mrain, MasterLevels(earlier)),
                              InjectAll(phys, smodel, srain, SlaveLevels(earlier)),
                              mrain, srain, rs[k].masterP, rs[k].slaveP, look)
              == Success(rs[k])
  {
    var idx := FindLevel(mmodel.LevelList(), minLevel).value;
    var ps := mmodel.LevelList()[..idx + 1];
    EvaluateAllRecords(phys, dem, ifg, mmodel, smodel, mrain, srain, ps, PoolChunkSize(|Pairs(ps, ps)|, workers), look, rs, k);
  }

  /** With at most four candidates per worker every chunk holds one task, so every
      record is the evaluation of its two levels on the models as given. */
  lemma {:induction false} OptimEraDelayFreshRecords(phys: Physics, dem: GeoGrid, ifg: Grid<real>,
                                  mmodel: WeatherModel, smodel: WeatherModel,
                                  mrain: Grid<real>, srain: Grid<real>,
                                  minLevel: real, look: real, workers: nat, rs: seq<CandidateResult>, k: nat)
    requires Inputs(dem, ifg, mmodel, smodel, mrain, srain)
    requires workers > 0
    requires OptimEraDelay(phys, dem, ifg, mmodel, smodel, mrain, srain, minLevel, look, workers) == Success(rs)
    requires k < |rs| <= 4 * workers
    ensures EvaluateCandidate(phys, dem, ifg, mmodel, smodel, mrain, srain, rs[k].masterP, rs[k].slaveP, look)
              == Success(rs[k])
  {
    OptimEraDelayRecords(phys, dem, ifg, mmodel, smodel, mrain, srain, minLevel, look, workers, rs, k);
    var earlier := rs[ChunkStart(k, PoolChunkSize(|rs|, workers))..k];
    assert |earlier| == 0;
    assert InjectAll(phys, mmodel, mrain, MasterLevels(earlier)) == mmodel;
    assert InjectAll(phys, smodel, srain, SlaveLevels(earlier)) == smodel;
  }

  /** With more than four candidates per worker the first chunk holds at least two
      tasks, so the second record is evaluated on models that already carry the
      first record's injection: its score is not that of its own levels alone. */
  lemma {:induction false} OptimEraDelaySecondRecord(phys: Physics, dem: GeoGrid, ifg: Grid<real>,
                                  mmodel: WeatherModel, smodel: WeatherModel,
                                  mrain: Grid<real>, srain: Grid<real>,
                                  minLevel: real, look: real, workers: nat, rs: seq<CandidateResult>)
    requires Inputs(dem, ifg, mmodel, smodel, mrain, srain)
    requires workers > 0
    requires OptimEraDelay(phys, dem, ifg, mmodel, smodel, mrain, srain, minLevel, look, workers) == Success(rs)
    requires |rs| > 4 * workers
    ensures InjectModel.requires(phys, mmodel, mrain, rs[0].masterP)
    ensures InjectModel.requires(phys, smodel, srain, rs[0].slaveP)
    ensures EvaluateCandidate(phys, dem, ifg,
                              InjectModel(phys, mmodel, mrain, rs[0].masterP),
                              InjectModel(phys, smodel, srain, rs[0].slaveP),
                              mrain, srain, rs[1].masterP, rs[1].slaveP, look)
              == Success(rs[1])
  {
    OptimEraDelayRecords(phys, dem, ifg, mmodel, smodel, mrain, srain, minLevel, look, workers, rs, 1);
    var c := PoolChunkSize(|rs|, workers);
    assert ChunkStart(1, c) == 0;
    var earlier := rs[0..1];
    InjectOne(phys, mmodel, mrain, MasterLevels(earlier));
    InjectOne(phys, smodel, srain, SlaveLevels(earlier));
  }

  /** Injecting a one-element list of thresholds is one `add_rainfall`. */
  lemma InjectOne(phys: Physics, model: WeatherModel, rain: Grid<real>, thresholds: seq<real>)
    requires model.Valid() && SameShape(model.columns, rain) && |thresholds| == 1
    ensures InjectAll(phys, model, rain, thresholds) == InjectModel(phys, model, rain, thresholds[0])
  {
    assert thresholds[..0] == [];
  }

  /** A worked case: levels 1000/800/600 hPa and `min_plevel` 600 give nine
      candidates; 550 hPa is not a level and raises LevelNotFound. */
  lemma ThreeLevelScenario(phys: Physics, dem: GeoGrid, ifg: Grid<real>,
                           mmodel: WeatherModel, smodel: WeatherModel,
                           mrain: Grid<real>, srain: Grid<real>, look: real, workers: nat)
    requires Inputs(dem, ifg, mmodel, smodel, mrain, srain)
    requires workers > 0
    requires Matches(mmodel, dem) && Matches(smodel, dem)
    requires |mmodel.columns| > 0 && |mmodel.columns[0]| > 0
    requires mmodel.levels == [1000.0, 800.0, 600.0]
    ensures OptimEraDelay(phys, dem, ifg, mmodel, smodel, mrain, srain, 600.0, look, workers).Success?
    ensures |OptimEraDelay(phys, dem, ifg, mmodel, smodel, mrain, srain, 600.0, look, workers).value| == 9
    ensures OptimEraDelay(phys, dem, ifg, mmodel, smodel, mrain, srain, 550.0, look, workers) == Failure(LevelNotFound)
  {
    var levels := mmodel.LevelList();
    assert levels[2] == 600.0;
    assert FindLevel(levels, 600.0).value == 2;
    assert levels[..3] == levels;
    PairsLength(levels, levels);
  }

  /** A standard deviation does not change when every value is negated. */
  ghost predicate StdIgnoresSign(phys: Physics)
  {
    forall g :: phys.std(Negate(g)) == phys.std(g)
  }

  /** Swapping the dates (and negating the interferogram) scores the swapped pair the same. */
  lemma EvaluateCandidateSwap(phys: Physics, dem: GeoGrid, ifg: Grid<real>,
                              mmodel: WeatherModel, smodel: WeatherModel,
                              mrain: Grid<real>, srain: Grid<real>,
                              masterP: real, slaveP: real, look: real)
    requires Inputs(dem, ifg, mmodel, smodel, mrain, srain)
    requires StdIgnoresSign(phys)
    ensures Inputs(dem, Negate(ifg), smodel, mmodel, srain, mrain)
    ensures var a := EvaluateCandidate(phys, dem, ifg, mmodel, smodel, mrain, srain, masterP, slaveP, look);
            var b := EvaluateCandidate(phys, dem, Negate(ifg), smodel, mmodel, srain, mrain, slaveP, masterP, look);
            (a.Success? <==> b.Success?) &&
            (a.Success? ==> b.value == CandidateResult(slaveP, masterP, a.value.std))
  {
    SameShapeTransitive(Negate(ifg), ifg, dem.data);
    var a := EvaluateCandidate(phys, dem, ifg, mmodel, smodel, mrain, srain, masterP, slaveP, look);
    if a.Success? {
      var md := CalculateEraZenithDelay(phys, InjectModel(phys, mmodel, mrain, masterP), dem).value;
      var sd := CalculateEraZenithDelay(phys, InjectModel(phys, smodel, srain, slaveP), dem).value;
      SameShapeTransitive(md.wet, dem.data, ifg);
      SameShapeTransitive(md.dry, dem.data, ifg);
      SameShapeTransitive(sd.wet, dem.data, ifg);
      SameShapeTransitive(sd.dry, dem.data, ifg);
      CorrectedSwap(phys, ifg, md, sd, look);
      assert phys.std(Negate(Corrected(phys, ifg, md, sd, look))) == phys.std(Corrected(phys, ifg, md, sd, look));
    }
  }

  /** A record of the swapped search whose levels are those of a record of the
      original search, exchanged, has the same standard deviation. */
  lemma SwapRecordAt(phys: Physics, dem: GeoGrid, ifg: Grid<real>,
                     mmodel: WeatherModel, smodel: WeatherModel,
                     mrain: Grid<real>, srain: Grid<real>,
                     minLevel: real, look: real, workers: nat,
                     ra: seq<CandidateResult>, rb: seq<CandidateResult>, ka: nat, kb: nat)
    requires Inputs(dem, ifg, mmodel, smodel, mrain, srain)
    requires Inputs(dem, Negate(ifg), smodel, mmodel, srain, mrain)
    requires StdIgnoresSign(phys) && workers > 0
    requires OptimEraDelay(phys, dem, ifg, mmodel, smodel, mrain, srain, minLevel, look, workers) == Success(ra)
    requires OptimEraDelay(phys, dem, Negate(ifg), smodel, mmodel, srain, mrain, minLevel, look, workers) == Success(rb)
    requires ka < |ra| <= 4 * workers && kb < |rb| <= 4 * workers
    requires rb[kb].masterP == ra[ka].slaveP && rb[kb].slaveP == ra[ka].masterP
    ensures rb[kb] == CandidateResult(ra[ka].slaveP, ra[ka].masterP, ra[ka].std)
  {
    OptimEraDelayFreshRecords(phys, dem, ifg, mmodel, smodel, mrain, srain, minLevel, look, workers, ra, ka);
    OptimEraDelayFreshRecords(phys, dem, Negate(ifg), smodel, mmodel, srain, mrain, minLevel, look, workers, rb, kb);
    EvaluateCandidateSwap(phys, dem, ifg, mmodel, smodel, mrain, srain, ra[ka].masterP, ra[ka].slaveP, look);
  }

  /** The record at pair (i, j) of a search over `ps` × `ps`: position
      `i * |ps| + j`, carrying `ps[i]` for the master and `ps[j]` for the slave. */
  lemma RecordAt(rs: seq<CandidateResult>, ps: seq<real>, i: nat, j: nat)
    requires ProductOrder(rs, ps) && i < |ps| && j < |ps|
    ensures i * |ps| + j < |rs| && rs[i * |ps| + j].masterP == ps[i] && rs[i * |ps| + j].slaveP == ps[j]
  {
    PairsIndex(ps, ps, i, j);
  }

  /** Date symmetry: with the same level list on both dates, the search with
      the dates swapped (and the interferogram negated) succeeds exactly when the
      original does, with as many records. */
  lemma OptimEraDelaySwapSucceeds(phys: Physics, dem: GeoGrid, ifg: Grid<real>,
                                  mmodel: WeatherModel, smodel: WeatherModel,
                                  mrain: Grid<real>, srain: Grid<real>,
                                  minLevel: real, look: real, workers: nat)
    requires Inputs(dem, ifg, mmodel, smodel, mrain, srain)
    requires workers > 0
    requires mmodel.LevelList() == smodel.LevelList()
    ensures Inputs(dem, Negate(ifg), smodel, mmodel, srain, mrain)
    ensures var a := OptimEraDelay(phys, dem, ifg, mmodel, smodel, mrain, srain, minLevel, look, workers);
            var b := OptimEraDelay(phys, dem, Negate(ifg), smodel, mmodel, srain, mrain, minLevel, look, workers);
            && (a.Success? <==> b.Success?)
            && (a.Success? ==> |a.value| == |b.value|)
  {
    SameShapeTransitive(Negate(ifg), ifg, dem.data);
  }
}
