/** The greedy minimum search shared by `_optimise_zenith_delay`: scan the trials
    in order and keep the first one whose score is a number strictly below the
    best seen so far. Scores are `Option<real>`: None is NaN, which never compares
    below anything, and the initial "best" (+infinity) is also None. */
module Greedy {
  import opened Wrappers
  import opened Sequences

  /** The trial the scan ends up keeping over scores `s`. */
  function Best(s: seq<Option<real>>): (r: Option<nat>)
    ensures r.Some? ==> r.value < |s| && s[r.value].Some?
    decreases |s|
  {
    if |s| == 0 then None
    else
      var prev := Best(s[..|s| - 1]);
      var last := s[|s| - 1];
      if last.Some? && (prev.None? || last.value < s[prev.value].value) then Some(|s| - 1)
      else prev
  }

  /** `k` holds the smallest score, and no earlier trial has it. */
  ghost predicate IsFirstMin(s: seq<Option<real>>, k: nat)
  {
    && k < |s| && s[k].Some?
    && (forall j :: 0 <= j < |s| && s[j].Some? ==> s[k].value <= s[j].value)
    && (forall j :: 0 <= j < k && s[j].Some? ==> s[k].value < s[j].value)
  }

  /** There is at most one first minimum. */
  lemma FirstMinUnique(s: seq<Option<real>>, k1: nat, k2: nat)
    requires IsFirstMin(s, k1) && IsFirstMin(s, k2)
    ensures k1 == k2
  {
  }

  /** The scan keeps the first minimal score, and keeps nothing exactly when
      every score is NaN. */
  lemma {:induction false} BestIsFirstMin(s: seq<Option<real>>)
    ensures Best(s).None? <==> forall j :: 0 <= j < |s| ==> s[j].None?
    ensures Best(s).Some? ==> IsFirstMin(s, Best(s).value)
    decreases |s|
  {
    if |s| > 0 {
      var front := s[..|s| - 1];
      BestIsFirstMin(front);
      assert forall j :: 0 <= j < |front| ==> front[j] == s[j];
    }
  }

  /** The output that goes with a kept trial; `pure` when none is kept. */
  function KeptOutput<T>(trials: seq<(nat, nat)>, output: ((nat, nat)) -> T, pure: T, kept: Option<nat>): T
    requires kept.Some? ==> kept.value < |trials|
  {
    match kept
    case None => pure
    case Some(k) => output(trials[k])
  }

  /** What the search over `trials` returns: the output of the trial the scan
      keeps, so either `pure` or the output of one of the trials. */
  function SearchResult<T>(trials: seq<(nat, nat)>, score: ((nat, nat)) -> Option<real>,
                           output: ((nat, nat)) -> T, pure: T): (r: T)
    ensures r == pure || exists k :: 0 <= k < |trials| && r == output(trials[k])
  {
    KeptOutput(trials, output, pure, Best(Tabulate(trials, score)))
  }

  /** The search returns `pure` when every trial scores NaN. */
  lemma SearchAllNaN<T>(trials: seq<(nat, nat)>, score: ((nat, nat)) -> Option<real>,
                        output: ((nat, nat)) -> T, pure: T)
    requires forall j :: 0 <= j < |trials| ==> score(trials[j]).None?
    ensures SearchResult(trials, score, output, pure) == pure
  {
    var s := Tabulate(trials, score);
    forall j | 0 <= j < |s|
      ensures s[j].None?
    {
      TabulateAt(trials, score, j);
    }
    BestIsFirstMin(s);
  }

  /** Trial `k` has a finite score, no trial scores lower and no earlier trial
      scores as low. */
  ghost predicate FirstBest(trials: seq<(nat, nat)>, score: ((nat, nat)) -> Option<real>, k: nat)
  {
    && k < |trials| && score(trials[k]).Some?
    && (forall j :: 0 <= j < |trials| && score(trials[j]).Some? ==> score(trials[k]).value <= score(trials[j]).value)
    && (forall j :: 0 <= j < k && score(trials[j]).Some? ==> score(trials[k]).value < score(trials[j]).value)
  }

  /** The scores in trial order have their first minimum where the trials have
      their first best trial. */
  lemma {:induction false} FirstBestIsFirstMin(trials: seq<(nat, nat)>, score: ((nat, nat)) -> Option<real>, k: nat)
    ensures FirstBest(trials, score, k) <==> IsFirstMin(Tabulate(trials, score), k)
  {
    var s := Tabulate(trials, score);
    forall j | 0 <= j < |s|
      ensures s[j] == score(trials[j])
    {
      TabulateAt(trials, score, j);
    }
  }

  /** When some trial has a finite score, the search returns the output of the
      first trial with the smallest score. */
  lemma SearchFirstBest<T>(trials: seq<(nat, nat)>, score: ((nat, nat)) -> Option<real>,
                           output: ((nat, nat)) -> T, pure: T, k: nat)
    requires FirstBest(trials, score, k)
    ensures SearchResult(trials, score, output, pure) == output(trials[k])
  {
    var s := Tabulate(trials, score);
    FirstBestIsFirstMin(trials, score, k);
    BestIsFirstMin(s);
    FirstMinUnique(s, k, Best(s).value);
  }

  /** Some trial is the first best one as soon as one trial has a finite score. */
  lemma FirstBestExists(trials: seq<(nat, nat)>, score: ((nat, nat)) -> Option<real>, j: nat)
    requires j < |trials| && score(trials[j]).Some?
    ensures exists k :: FirstBest(trials, score, k)
  {
    var s := Tabulate(trials, score);
    TabulateAt(trials, score, j);
    BestIsFirstMin(s);
    FirstBestIsFirstMin(trials, score, Best(s).value);
  }

  /** When every trial would store `pure`, the search returns `pure`. */
  lemma SearchSameOutput<T>(trials: seq<(nat, nat)>, score: ((nat, nat)) -> Option<real>,
                            output: ((nat, nat)) -> T, pure: T)
    requires forall k :: 0 <= k < |trials| ==> output(trials[k]) == pure
    ensures SearchResult(trials, score, output, pure) == pure
  {
  }

  /** One step of the scan: trial `k` is kept exactly when its score is a number
      below the score kept so far. */
  lemma BestStep(s: seq<Option<real>>, k: nat, kept: Option<nat>, best: Option<real>)
    requires k < |s|
    requires kept == Best(s[..k])
    requires best == (if kept.Some? then s[kept.value] else None)
    ensures var accept := s[k].Some? && (best.None? || s[k].value < best.value);
            var next := if accept then Some(k) else kept;
            && next == Best(s[..k + 1])
            && (if accept then s[k] else best) == (if next.Some? then s[next.value] else None)
  {
    var prefix := s[..k + 1];
    assert prefix[..k] == s[..k];
    if kept.Some? {
      assert prefix[kept.value] == s[kept.value];
    }
  }

  /** The scan state after the first `k` trials: `kept` is the trial kept so far,
      `best` its score and `out` its output. */
  ghost predicate Scanned<T>(trials: seq<(nat, nat)>, score: ((nat, nat)) -> Option<real>,
                             output: ((nat, nat)) -> T, pure: T,
                             k: nat, kept: Option<nat>, best: Option<real>, out: T)
    requires k <= |trials|
  {
    var s := Tabulate(trials, score);
    && kept == Best(s[..k])
    && best == (if kept.Some? then s[kept.value] else None)
    && out == KeptOutput(trials, output, pure, kept)
  }

  /** Trial `k` of the scan, accepted or not. */
  method Step<T>(ghost trials: seq<(nat, nat)>, score: ((nat, nat)) -> Option<real>,
                 output: ((nat, nat)) -> T, ghost pure: T, t: (nat, nat), ghost k: nat,
                 ghost kept0: Option<nat>, best0: Option<real>, out0: T)
    returns (best: Option<real>, out: T, ghost kept: Option<nat>)
    requires k < |trials| && trials[k] == t
    requires Scanned(trials, score, output, pure, k, kept0, best0, out0)
    ensures Scanned(trials, score, output, pure, k + 1, kept, best, out)
    ensures best == best0 || (best.Some? && (best0.None? || best.value < best0.value))
  {
    TabulateAt(trials, score, k);
    BestStep(Tabulate(trials, score), k, kept0, best0);
    best, out, kept := best0, out0, kept0;
    var trialScore := score(t);
    if trialScore.Some? && (best.None? || trialScore.value < best.value) {
      best := trialScore;
      out := output(t);
      kept := Some(k);
    }
  }

  /** The inner loop: the trials of master level `mR[a]`, one slave level at a
      time. */
  method ScanRow<T>(ghost trials: seq<(nat, nat)>, mR: seq<nat>, sR: seq<nat>,
                    score: ((nat, nat)) -> Option<real>, output: ((nat, nat)) -> T, ghost pure: T,
                    a: nat, ghost k0: nat, ghost kept0: Option<nat>, best0: Option<real>, out0: T)
    returns (best: Option<real>, out: T, ghost kept: Option<nat>)
    requires trials == Pairs(mR, sR) && a < |mR|
    requires k0 == a * |sR| && k0 + |sR| <= |trials|
    requires Scanned(trials, score, output, pure, k0, kept0, best0, out0)
    ensures Scanned(trials, score, output, pure, k0 + |sR|, kept, best, out)
  {
    best, out, kept := best0, out0, kept0;
    ghost var k := k0;
    var b := 0;
    while b < |sR|
      invariant b <= |sR|
      invariant k == k0 + b && k <= |trials|
      invariant Scanned(trials, score, output, pure, k, kept, best, out)
    {
      PairsIndexAt(mR, sR, a, b, k);
      best, out, kept := Step(trials, score, output, pure, (mR[a], sR[b]), k, kept, best, out);
      k := k + 1;
      b := b + 1;
    }
  }

  /** The two nested loops over master levels `mR` and slave levels `sR`, the
      master index outer, starting from `pure` with nothing kept. */
  method Scan<T>(mR: seq<nat>, sR: seq<nat>, score: ((nat, nat)) -> Option<real>,
                 output: ((nat, nat)) -> T, pure: T) returns (out: T)
    ensures out == SearchResult(Pairs(mR, sR), score, output, pure)
  {
    ghost var trials := Pairs(mR, sR);
    PairsLength(mR, sR);
    var best: Option<real> := None;
    out := pure;
    ghost var kept: Option<nat> := None;
    ghost var k: nat := 0;
    var a := 0;
    while a < |mR|
      invariant a <= |mR|
      invariant k == a * |sR| && k <= |trials|
      invariant Scanned(trials, score, output, pure, k, kept, best, out)
    {
      MulMonotone(a + 1, |mR|, |sR|);
      assert (a + 1) * |sR| == k + |sR|;
      best, out, kept := ScanRow(trials, mR, sR, score, output, pure, a, k, kept, best, out);
      k := k + |sR|;
      a := a + 1;
    }
    assert Tabulate(trials, score)[..k] == Tabulate(trials, score);
  }
}
