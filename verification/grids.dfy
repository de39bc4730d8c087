/** Two-dimensional fields on the latitude/longitude grid, stored row by row. */
module Grids {

  type Grid<T> = seq<seq<T>>

  /** `g` has `rows` rows of `cols` values each. */
  predicate HasShape<T>(g: Grid<T>, rows: nat, cols: nat)
  {
    |g| == rows && forall i :: 0 <= i < rows ==> |g[i]| == cols
  }

  /** `a` and `b` have the same number of rows and, row by row, the same length. */
  predicate SameShape<A, B>(a: Grid<A>, b: Grid<B>)
  {
    |a| == |b| && forall i :: 0 <= i < |a| ==> |a[i]| == |b[i]|
  }

  function Fill<T>(rows: nat, cols: nat, v: T): (g: Grid<T>)
    ensures HasShape(g, rows, cols)
    ensures forall i, j :: 0 <= i < rows && 0 <= j < cols ==> g[i][j] == v
  {
    seq(rows, _ => seq(cols, _ => v))
  }

  /** Applies `f` to every value. */
  function Map<A, B>(g: Grid<A>, f: A -> B): (r: Grid<B>)
    ensures SameShape(r, g)
    ensures forall i, j :: 0 <= i < |g| && 0 <= j < |g[i]| ==> r[i][j] == f(g[i][j])
  {
    seq(|g|, i requires 0 <= i < |g| => seq(|g[i]|, j requires 0 <= j < |g[i]| => f(g[i][j])))
  }

  /** Combines two fields of the same shape value by value. */
  function Zip<A, B, C>(a: Grid<A>, b: Grid<B>, f: (A, B) -> C): (r: Grid<C>)
    requires SameShape(a, b)
    ensures SameShape(r, a)
    ensures forall i, j :: 0 <= i < |a| && 0 <= j < |a[i]| ==> r[i][j] == f(a[i][j], b[i][j])
  {
    seq(|a|, i requires 0 <= i < |a| => seq(|a[i]|, j requires 0 <= j < |a[i]| => f(a[i][j], b[i][j])))
  }

  /** The sub-field of height `h` and width `w` whose top-left value is `g[r0][c0]`. */
  function Window<T>(g: Grid<T>, rows: nat, cols: nat, r0: nat, c0: nat, h: nat, w: nat): (sub: Grid<T>)
    requires HasShape(g, rows, cols) && r0 + h <= rows && c0 + w <= cols
    ensures HasShape(sub, h, w)
    ensures forall i, j :: 0 <= i < h && 0 <= j < w ==> sub[i][j] == g[r0 + i][c0 + j]
  {
    seq(h, i requires 0 <= i < h => seq(w, j requires 0 <= j < w => g[r0 + i][c0 + j]))
  }

  function Add(a: Grid<real>, b: Grid<real>): (r: Grid<real>)
    requires SameShape(a, b)
    ensures SameShape(r, a)
    ensures forall i, j :: 0 <= i < |a| && 0 <= j < |a[i]| ==> r[i][j] == a[i][j] + b[i][j]
  {
    Zip(a, b, (x: real, y: real) => x + y)
  }

  function Negate(a: Grid<real>): (r: Grid<real>)
    ensures SameShape(r, a)
    ensures forall i, j :: 0 <= i < |a| && 0 <= j < |a[i]| ==> r[i][j] == -a[i][j]
  {
    Map(a, (x: real) => -x)
  }

  /** Two fields of the same shape that agree everywhere are equal. */
  lemma GridExtensionality<T>(a: Grid<T>, b: Grid<T>)
    requires SameShape(a, b)
    requires forall i, j :: 0 <= i < |a| && 0 <= j < |a[i]| ==> a[i][j] == b[i][j]
    ensures a == b
  {
    forall i | 0 <= i < |a|
      ensures a[i] == b[i]
    {
      assert |a[i]| == |b[i]|;
    }
  }

  lemma SameShapeTransitive<A, B, C>(a: Grid<A>, b: Grid<B>, c: Grid<C>)
    requires SameShape(a, b) && SameShape(b, c)
    ensures SameShape(a, c)
  {
  }

  lemma HasShapeSame<A, B>(a: Grid<A>, b: Grid<B>, rows: nat, cols: nat)
    requires HasShape(a, rows, cols) && HasShape(b, rows, cols)
    ensures SameShape(a, b)
  {
  }

  /** The sum of one row, as NumPy's `sum` computes it on exact reals. */
  function RowSum(row: seq<real>): real
  {
    if |row| == 0 then 0.0 else row[0] + RowSum(row[1..])
  }

  /** The sum of every value of the field. */
  function Sum(g: Grid<real>): real
  {
    if |g| == 0 then 0.0 else RowSum(g[0]) + Sum(g[1..])
  }

  predicate NonNegative(g: Grid<real>)
  {
    forall i, j :: 0 <= i < |g| && 0 <= j < |g[i]| ==> g[i][j] >= 0.0
  }

  predicate AllZero(g: Grid<real>)
  {
    forall i, j :: 0 <= i < |g| && 0 <= j < |g[i]| ==> g[i][j] == 0.0
  }

  lemma {:induction false} RowSumZeroIff(row: seq<real>)
    requires forall j :: 0 <= j < |row| ==> row[j] >= 0.0
    ensures RowSum(row) >= 0.0
    ensures RowSum(row) == 0.0 <==> forall j :: 0 <= j < |row| ==> row[j] == 0.0
  {
    if |row| > 0 {
      RowSumZeroIff(row[1..]);
      if RowSum(row) == 0.0 {
        forall j | 0 <= j < |row|
          ensures row[j] == 0.0
        {
          if j > 0 {
            assert row[j] == row[1..][j - 1];
          }
        }
      }
    }
  }

  /** A field of non-negative rates sums to zero exactly when it is zero everywhere:
      the "no rainfall" test on a sum is a test that no pixel has rain. */
  lemma {:induction false} SumZeroIff(g: Grid<real>)
    requires NonNegative(g)
    ensures Sum(g) >= 0.0
    ensures Sum(g) == 0.0 <==> AllZero(g)
  {
    if |g| > 0 {
      assert NonNegative(g[1..]) by {
        forall i, j | 0 <= i < |g[1..]| && 0 <= j < |g[1..][i]|
          ensures g[1..][i][j] >= 0.0
        {
          assert g[1..][i] == g[i + 1];
        }
      }
      RowSumZeroIff(g[0]);
      SumZeroIff(g[1..]);
      if Sum(g) == 0.0 {
        forall i, j | 0 <= i < |g| && 0 <= j < |g[i]|
          ensures g[i][j] == 0.0
        {
          if i > 0 {
            assert g[i] == g[1..][i - 1];
          }
        }
      }
      if AllZero(g) {
        assert AllZero(g[1..]) by {
          forall i, j | 0 <= i < |g[1..]| && 0 <= j < |g[1..][i]|
            ensures g[1..][i][j] == 0.0
          {
            assert g[1..][i] == g[i + 1];
          }
        }
      }
    }
  }
}
