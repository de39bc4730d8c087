/** The window walk of `patches_era_delay`: the output arrays start from an initial
    value, the windows are visited in row-major order (`np.ndindex`), and each
    window's result is written through that window's view of the output, so a
    later window overwrites what an earlier one wrote where they overlap. The walk
    stops at the first window whose processing raises. */
module Tiling {
  import opened Wrappers
  import opened Errors
  import opened Grids
  import opened Sequences
  import opened Windows
  import opened Assembly

  /** A `rows` × `cols` field cut into windows of `ph` × `pw` pixels, consecutive
      windows half a patch apart. */
  datatype Tiles = Tiles(rows: nat, cols: nat, ph: nat, pw: nat)
  {
    predicate Valid()
    {
      ValidPatch(rows, ph) && ValidPatch(cols, pw)
    }

    /** The windows (y, x) in the order `np.ndindex` visits them. */
    function WindowList(): seq<(nat, nat)>
      requires Valid()
    {
      Pairs(Range(WindowCount(rows, ph)), Range(WindowCount(cols, pw)))
    }

    /** The write-back of `patch` through the view of window `w`. */
    function Place<T>(w: (nat, nat), patch: Grid<T>): Placement<T>
    {
      Placement(Origin(w.0, ph), Origin(w.1, pw), ph, pw, patch)
    }
  }

  /** Every result a window produces has the window's size. */
  ghost predicate Shaped<T>(t: Tiles, outcome: ((nat, nat)) -> Result<Grid<T>, Error>)
  {
    forall w: (nat, nat) :: outcome(w).Success? ==> HasShape(outcome(w).value, t.ph, t.pw)
  }

  /** Window `k` lies inside the field. */
  lemma {:induction false} WindowFits<T>(t: Tiles, k: nat, patch: Grid<T>)
    requires t.Valid() && k < |t.WindowList()| && HasShape(patch, t.ph, t.pw)
    ensures t.Place(t.WindowList()[k], patch).Fits(t.rows, t.cols)
  {
    var cy, cx := WindowCount(t.rows, t.ph), WindowCount(t.cols, t.pw);
    PairsAt(Range(cy), Range(cx), k);
    WindowInBounds(t.rows, t.ph, k / cx);
    WindowInBounds(t.cols, t.pw, k % cx);
  }

  /** The outcome of the walk after the first `n` windows: the first failure, or
      the output with the first `n` results written in order. */
  function Run<T>(t: Tiles, init: Grid<T>, outcome: ((nat, nat)) -> Result<Grid<T>, Error>, n: nat)
    : (r: Result<Grid<T>, Error>)
    requires t.Valid() && HasShape(init, t.rows, t.cols) && Shaped(t, outcome)
    requires n <= |t.WindowList()|
    ensures r.Success? ==> HasShape(r.value, t.rows, t.cols)
    decreases n
  {
    if n == 0 then Success(init)
    else
      match Run(t, init, outcome, n - 1)
      case Failure(e) => Failure(e)
      case Success(g) =>
        var w := t.WindowList()[n - 1];
        match outcome(w)
        case Failure(e) => Failure(e)
        case Success(p) =>
          WindowFits(t, n - 1, p);
          Success(Paste(g, t.rows, t.cols, t.Place(w, p)))
  }

  /** Once a window has failed, the walk's outcome no longer changes. */
  lemma {:induction false} RunStaysFailed<T>(t: Tiles, init: Grid<T>, outcome: ((nat, nat)) -> Result<Grid<T>, Error>,
                                            n: nat, m: nat)
    requires t.Valid() && HasShape(init, t.rows, t.cols) && Shaped(t, outcome)
    requires n <= m <= |t.WindowList()|
    requires Run(t, init, outcome, n).Failure?
    ensures Run(t, init, outcome, m) == Run(t, init, outcome, n)
    decreases m
  {
    if m > n {
      RunStaysFailed(t, init, outcome, n, m - 1);
    }
  }

  /** The walk fails exactly when some window fails, and then with the error of
      the first window that fails. */
  lemma {:induction false} RunFailsIff<T>(t: Tiles, init: Grid<T>, outcome: ((nat, nat)) -> Result<Grid<T>, Error>, n: nat)
    requires t.Valid() && HasShape(init, t.rows, t.cols) && Shaped(t, outcome)
    requires n <= |t.WindowList()|
    ensures Run(t, init, outcome, n).Failure? <==>
      exists k :: 0 <= k < n && outcome(t.WindowList()[k]).Failure?
    ensures Run(t, init, outcome, n).Failure? ==>
      exists k :: 0 <= k < n && outcome(t.WindowList()[k]) == Run(t, init, outcome, n)
        && forall m :: 0 <= m < k ==> outcome(t.WindowList()[m]).Success?
    decreases n
  {
    if n > 0 {
      RunFailsIff(t, init, outcome, n - 1);
    }
  }

  /** The write-backs of the first `n` windows, all of which succeeded. */
  function Placements<T>(t: Tiles, outcome: ((nat, nat)) -> Result<Grid<T>, Error>, n: nat): (ps: seq<Placement<T>>)
    requires t.Valid() && Shaped(t, outcome) && n <= |t.WindowList()|
    requires forall k :: 0 <= k < n ==> outcome(t.WindowList()[k]).Success?
    ensures |ps| == n && AllFit(ps, t.rows, t.cols)
  {
    var ws := t.WindowList();
    var ps := seq(n, k requires 0 <= k < n => t.Place(ws[k], outcome(ws[k]).value));
    assert AllFit(ps, t.rows, t.cols) by {
      forall k | 0 <= k < n
        ensures ps[k].Fits(t.rows, t.cols)
      {
        WindowFits(t, k, outcome(ws[k]).value);
      }
    }
    ps
  }

  /** When no window fails, the walk writes every window's result in order. */
  lemma {:induction false} RunAssembles<T>(t: Tiles, init: Grid<T>, outcome: ((nat, nat)) -> Result<Grid<T>, Error>, n: nat)
    requires t.Valid() && HasShape(init, t.rows, t.cols) && Shaped(t, outcome)
    requires n <= |t.WindowList()|
    requires forall k :: 0 <= k < n ==> outcome(t.WindowList()[k]).Success?
    ensures Run(t, init, outcome, n) == Success(Assemble(init, t.rows, t.cols, Placements(t, outcome, n)))
    decreases n
  {
    if n > 0 {
      RunAssembles(t, init, outcome, n - 1);
      assert Placements(t, outcome, n)[..n - 1] == Placements(t, outcome, n - 1);
    }
  }

  /** A window after (oy, ox) in row-major order is on a later row, or on the
      same row further right. */
  lemma RowMajorAfter(q: nat, r: nat, oy: nat, ox: nat, c: nat)
    requires r < c && ox < c && q * c + r > oy * c + ox
    ensures q > oy || (q == oy && r > ox)
  {
    MulStrict(q, oy, c);
  }

  /** The window a pixel belongs to in the output: the last one covering it on
      each axis. */
  function OwnerWindow(t: Tiles, i: nat, j: nat): (nat, nat)
    requires t.Valid()
  {
    (Owner(t.rows, t.ph, i), Owner(t.cols, t.pw, j))
  }

  /** The owner window of a covered pixel is among the windows, covers the pixel,
      and is the last window in the walk that does. */
  lemma {:induction false} OwnerWindowIsLast(t: Tiles, i: nat, j: nat) returns (k: nat)
    requires t.Valid() && i < CoveredExtent(t.rows, t.ph) && j < CoveredExtent(t.cols, t.pw)
    ensures k < |t.WindowList()| && t.WindowList()[k] == OwnerWindow(t, i, j)
    ensures Contains(OwnerWindow(t, i, j).0, t.ph, i) && Contains(OwnerWindow(t, i, j).1, t.pw, j)
    ensures forall m :: k < m < |t.WindowList()| ==>
      var w := t.WindowList()[m];
      !(Contains(w.0, t.ph, i) && Contains(w.1, t.pw, j))
  {
    var ws := t.WindowList();
    var cy, cx := WindowCount(t.rows, t.ph), WindowCount(t.cols, t.pw);
    var oy, ox := Owner(t.rows, t.ph, i), Owner(t.cols, t.pw, j);
    OwnerIsLastWindow(t.rows, t.ph, i);
    OwnerIsLastWindow(t.cols, t.pw, j);
    k := oy * cx + ox;
    PairsIndexAt(Range(cy), Range(cx), oy, ox, k);
    forall m | k < m < |ws|
      ensures !(Contains(ws[m].0, t.ph, i) && Contains(ws[m].1, t.pw, j))
    {
      PairsAt(Range(cy), Range(cx), m);
      DivMod(m, cx);
      RowMajorAfter(m / cx, m % cx, oy, ox, cx);
    }
  }

  /** A pixel inside the covered extent on both axes holds the result of its owner
      window. */
  lemma {:induction false} TiledCovered<T>(t: Tiles, init: Grid<T>, outcome: ((nat, nat)) -> Result<Grid<T>, Error>,
                                           i: nat, j: nat)
    requires t.Valid() && HasShape(init, t.rows, t.cols) && Shaped(t, outcome)
    requires forall k :: 0 <= k < |t.WindowList()| ==> outcome(t.WindowList()[k]).Success?
    requires i < CoveredExtent(t.rows, t.ph) && j < CoveredExtent(t.cols, t.pw)
    ensures var w := OwnerWindow(t, i, j);
      && Contains(w.0, t.ph, i) && Contains(w.1, t.pw, j)
      && outcome(w).Success? && Run(t, init, outcome, |t.WindowList()|).Success?
      && Run(t, init, outcome, |t.WindowList()|).value[i][j]
         == outcome(w).value[i - Origin(w.0, t.ph)][j - Origin(w.1, t.pw)]
  {
    var n := |t.WindowList()|;
    var k := OwnerWindowIsLast(t, i, j);
    RunAssembles(t, init, outcome, n);
    var ps := Placements(t, outcome, n);
    assert forall m :: k < m < n ==> !ps[m].Covers(i, j);
    AssembleLastWriter(init, t.rows, t.cols, ps, i, j, k);
  }

  /** The same for a walk known to succeed, naming the owner window `w` and its
      result `v`. */
  lemma TiledPixel<T>(t: Tiles, init: Grid<T>, outcome: ((nat, nat)) -> Result<Grid<T>, Error>, i: nat, j: nat)
    returns (w: (nat, nat), v: Grid<T>)
    requires t.Valid() && HasShape(init, t.rows, t.cols) && Shaped(t, outcome)
    requires Run(t, init, outcome, |t.WindowList()|).Success?
    requires i < CoveredExtent(t.rows, t.ph) && j < CoveredExtent(t.cols, t.pw)
    ensures w == OwnerWindow(t, i, j) && w.0 < WindowCount(t.rows, t.ph) && w.1 < WindowCount(t.cols, t.pw)
    ensures Contains(w.0, t.ph, i) && Contains(w.1, t.pw, j)
    ensures outcome(w) == Success(v) && HasShape(v, t.ph, t.pw)
    ensures Run(t, init, outcome, |t.WindowList()|).value[i][j] == v[i - Origin(w.0, t.ph)][j - Origin(w.1, t.pw)]
  {
    RunFailsIff(t, init, outcome, |t.WindowList()|);
    OwnerIsLastWindow(t.rows, t.ph, i);
    OwnerIsLastWindow(t.cols, t.pw, j);
    TiledCovered(t, init, outcome, i, j);
    w := OwnerWindow(t, i, j);
    v := outcome(w).value;
  }

  /** A pixel outside the covered extent on either axis keeps its initial value. */
  lemma {:induction false} TiledUncovered<T>(t: Tiles, init: Grid<T>, outcome: ((nat, nat)) -> Result<Grid<T>, Error>,
                                             i: nat, j: nat)
    requires t.Valid() && HasShape(init, t.rows, t.cols) && Shaped(t, outcome)
    requires forall k :: 0 <= k < |t.WindowList()| ==> outcome(t.WindowList()[k]).Success?
    requires i < t.rows && j < t.cols
    requires i >= CoveredExtent(t.rows, t.ph) || j >= CoveredExtent(t.cols, t.pw)
    ensures Run(t, init, outcome, |t.WindowList()|).Success?
    ensures Run(t, init, outcome, |t.WindowList()|).value[i][j] == init[i][j]
  {
    var ws := t.WindowList();
    var n := |ws|;
    var cy, cx := WindowCount(t.rows, t.ph), WindowCount(t.cols, t.pw);
    RunAssembles(t, init, outcome, n);
    var ps := Placements(t, outcome, n);
    if i >= CoveredExtent(t.rows, t.ph) {
      CoverageIff(t.rows, t.ph, i);
    } else {
      CoverageIff(t.cols, t.pw, j);
    }
    forall m | 0 <= m < n
      ensures !ps[m].Covers(i, j)
    {
      PairsAt(Range(cy), Range(cx), m);
      if i >= CoveredExtent(t.rows, t.ph) {
        assert !Contains(ws[m].0, t.ph, i);
      } else {
        assert !Contains(ws[m].1, t.pw, j);
      }
    }
    AssembleUntouched(init, t.rows, t.cols, ps, i, j);
  }

  /** One window of the walk. */
  lemma RunStep<T>(t: Tiles, init: Grid<T>, outcome: ((nat, nat)) -> Result<Grid<T>, Error>, k: nat, g: Grid<T>)
    requires t.Valid() && HasShape(init, t.rows, t.cols) && Shaped(t, outcome)
    requires k < |t.WindowList()| && Run(t, init, outcome, k) == Success(g)
    ensures var res := outcome(t.WindowList()[k]);
      && (res.Failure? ==> Run(t, init, outcome, k + 1) == Failure(res.error))
      && (res.Success? ==>
            && t.Place(t.WindowList()[k], res.value).Fits(t.rows, t.cols)
            && Run(t, init, outcome, k + 1) == Success(Paste(g, t.rows, t.cols, t.Place(t.WindowList()[k], res.value))))
  {
    var res := outcome(t.WindowList()[k]);
    if res.Success? {
      WindowFits(t, k, res.value);
    }
  }

  /** The two nested loops over the windows, writing each window's result through
      its view and stopping at the first failure. */
  method AssembleWindows<T>(t: Tiles, init: Grid<T>, outcome: ((nat, nat)) -> Result<Grid<T>, Error>)
    returns (r: Result<Grid<T>, Error>)
    requires t.Valid() && HasShape(init, t.rows, t.cols) && Shaped(t, outcome)
    ensures r == Run(t, init, outcome, |t.WindowList()|)
  {
    var cy, cx := WindowCount(t.rows, t.ph), WindowCount(t.cols, t.pw);
    ghost var ws := t.WindowList();
    PairsLength(Range(cy), Range(cx));
    var g := init;
    ghost var k: nat := 0;
    var y := 0;
    while y < cy
      invariant y <= cy && k == y * cx && k <= |ws|
      invariant Run(t, init, outcome, k) == Success(g)
    {
      MulMonotone(y + 1, cy, cx);
      assert (y + 1) * cx == y * cx + cx;
      var x := 0;
      while x < cx
        invariant x <= cx && k == y * cx + x && k <= |ws|
        invariant Run(t, init, outcome, k) == Success(g)
      {
        PairsIndexAt(Range(cy), Range(cx), y, x, k);
        var res := outcome((y, x));
        RunStep(t, init, outcome, k, g);
        if res.Failure? {
          RunStaysFailed(t, init, outcome, k + 1, |ws|);
          return Failure(res.error);
        }
        g := Paste(g, t.rows, t.cols, t.Place((y, x), res.value));
        k := k + 1;
        x := x + 1;
      }
      y := y + 1;
    }
    return Success(g);
  }
}
