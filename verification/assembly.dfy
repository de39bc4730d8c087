/** Writing patch results back through the window views of the output arrays:
    each assignment `pm...[y, x, :, :] = ...` overwrites one rectangle, and later
    windows overwrite the overlap of earlier ones. */
module Assembly {
  import opened Grids

  /** One write-back: `patch` (of `h` rows and `w` columns) stored at (r0, c0). */
  datatype Placement<T> = Placement(r0: nat, c0: nat, h: nat, w: nat, patch: Grid<T>)
  {
    /** The rectangle fits inside a `rows` × `cols` grid and the patch has its size. */
    predicate Fits(rows: nat, cols: nat)
    {
      HasShape(patch, h, w) && r0 + h <= rows && c0 + w <= cols
    }

    predicate Covers(i: nat, j: nat)
    {
      r0 <= i < r0 + h && c0 <= j < c0 + w
    }
  }

  predicate AllFit<T>(ps: seq<Placement<T>>, rows: nat, cols: nat)
  {
    forall k :: 0 <= k < |ps| ==> ps[k].Fits(rows, cols)
  }

  /** Store one patch: the covered rectangle takes the patch's values, every other
      cell keeps its value. */
  function Paste<T>(g: Grid<T>, rows: nat, cols: nat, pl: Placement<T>): (r: Grid<T>)
    requires HasShape(g, rows, cols) && pl.Fits(rows, cols)
    ensures HasShape(r, rows, cols)
    ensures forall i, j :: 0 <= i < rows && 0 <= j < cols && pl.Covers(i, j) ==>
      r[i][j] == pl.patch[i - pl.r0][j - pl.c0]
    ensures forall i, j :: 0 <= i < rows && 0 <= j < cols && !pl.Covers(i, j) ==> r[i][j] == g[i][j]
  {
    seq(rows, i requires 0 <= i < rows =>
      seq(cols, j requires 0 <= j < cols =>
        if pl.Covers(i, j) then pl.patch[i - pl.r0][j - pl.c0] else g[i][j]))
  }

  /** The placements written one after the other, in order. */
  function Assemble<T>(g: Grid<T>, rows: nat, cols: nat, ps: seq<Placement<T>>): (r: Grid<T>)
    requires HasShape(g, rows, cols) && AllFit(ps, rows, cols)
    ensures HasShape(r, rows, cols)
    decreases |ps|
  {
    if |ps| == 0 then g
    else Paste(Assemble(g, rows, cols, ps[..|ps| - 1]), rows, cols, ps[|ps| - 1])
  }

  /** A cell is left with the value of the last placement covering it. */
  lemma {:induction false} AssembleLastWriter<T>(g: Grid<T>, rows: nat, cols: nat, ps: seq<Placement<T>>,
                                                 i: nat, j: nat, k: nat)
    requires HasShape(g, rows, cols) && AllFit(ps, rows, cols)
    requires i < rows && j < cols
    requires k < |ps| && ps[k].Covers(i, j)
    requires forall m :: k < m < |ps| ==> !ps[m].Covers(i, j)
    ensures Assemble(g, rows, cols, ps)[i][j] == ps[k].patch[i - ps[k].r0][j - ps[k].c0]
    decreases |ps|
  {
    var last := |ps| - 1;
    if k < last {
      var front := ps[..last];
      assert AllFit(front, rows, cols) by {
        forall m | 0 <= m < |front| ensures front[m].Fits(rows, cols) { assert front[m] == ps[m]; }
      }
      AssembleLastWriter(g, rows, cols, front, i, j, k);
      assert front[k] == ps[k];
    }
  }

  /** A cell no placement covers keeps its initial value. */
  lemma {:induction false} AssembleUntouched<T>(g: Grid<T>, rows: nat, cols: nat, ps: seq<Placement<T>>,
                                                i: nat, j: nat)
    requires HasShape(g, rows, cols) && AllFit(ps, rows, cols)
    requires i < rows && j < cols
    requires forall m :: 0 <= m < |ps| ==> !ps[m].Covers(i, j)
    ensures Assemble(g, rows, cols, ps)[i][j] == g[i][j]
    decreases |ps|
  {
    if |ps| > 0 {
      var front := ps[..|ps| - 1];
      assert AllFit(front, rows, cols) by {
        forall m | 0 <= m < |front| ensures front[m].Fits(rows, cols) { assert front[m] == ps[m]; }
      }
      assert forall m :: 0 <= m < |front| ==> front[m] == ps[m];
      AssembleUntouched(g, rows, cols, front, i, j);
    }
  }
}
