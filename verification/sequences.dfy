/** Index ranges and the Cartesian product in row-major ("master-major") order,
    as `itertools.product` and `np.ndindex` produce it. */
module Sequences {

  /** 0, 1, ..., n - 1, as Python's `range(n)`. */
  function Range(n: nat): (r: seq<nat>)
    ensures |r| == n
    ensures forall i :: 0 <= i < n ==> r[i] == i
  {
    seq(n, i => i)
  }

  /** The pairs (a, y) for every y of `ys`, in order. */
  function Row<A, B>(a: A, ys: seq<B>): seq<(A, B)>
  {
    seq(|ys|, j requires 0 <= j < |ys| => (a, ys[j]))
  }

  /** All pairs of `xs` × `ys`: the first component varies slowest. */
  function Pairs<A, B>(xs: seq<A>, ys: seq<B>): seq<(A, B)>
    decreases |xs|
  {
    if |xs| == 0 then [] else Row(xs[0], ys) + Pairs(xs[1..], ys)
  }

  /** Multiplying by a natural number preserves order. */
  lemma {:induction false} MulMonotone(a: nat, b: nat, c: nat)
    requires a <= b
    ensures a * c <= b * c
  {
    if a < b {
      MulMonotone(a, b - 1, c);
      assert b * c == (b - 1) * c + c;
    }
  }

  lemma {:induction false} PairsLength<A, B>(xs: seq<A>, ys: seq<B>)
    ensures |Pairs(xs, ys)| == |xs| * |ys|
  {
    if |xs| > 0 {
      PairsLength(xs[1..], ys);
      assert |xs| * |ys| == |ys| + (|xs| - 1) * |ys|;
    }
  }

  /** The pair (xs[i], ys[j]) sits at position i * |ys| + j. */
  lemma {:induction false} PairsIndex<A, B>(xs: seq<A>, ys: seq<B>, i: nat, j: nat)
    requires i < |xs| && j < |ys|
    ensures i * |ys| + j < |Pairs(xs, ys)|
    ensures Pairs(xs, ys)[i * |ys| + j] == (xs[i], ys[j])
  {
    var n := |ys|;
    PairsLength(xs, ys);
    MulMonotone(i + 1, |xs|, n);
    assert (i + 1) * n == i * n + n;
    var row, rest := Row(xs[0], ys), Pairs(xs[1..], ys);
    assert Pairs(xs, ys) == row + rest;
    if i == 0 {
      assert Pairs(xs, ys)[j] == row[j];
    } else {
      PairsIndex(xs[1..], ys, i - 1, j);
      assert i * n + j == n + ((i - 1) * n + j);
      assert Pairs(xs, ys)[i * n + j] == rest[(i - 1) * n + j];
      assert xs[1..][i - 1] == xs[i];
    }
  }

  lemma {:induction false} PairsIndexAt<A, B>(xs: seq<A>, ys: seq<B>, i: nat, j: nat, k: nat)
    requires i < |xs| && j < |ys| && k == i * |ys| + j
    ensures k < |Pairs(xs, ys)| && Pairs(xs, ys)[k] == (xs[i], ys[j])
  {
    PairsIndex(xs, ys, i, j);
  }

  /** Euclidean division of a natural number by a positive one. */
  lemma DivMod(k: nat, n: nat)
    requires n > 0
    ensures k == (k / n) * n + k % n
    ensures 0 <= k % n < n
  {
  }

  /** A position of the product lies in one of its |xs| rows of |ys| pairs. */
  lemma {:induction false} PairsRowBound<A, B>(xs: seq<A>, ys: seq<B>, k: nat)
    requires k < |Pairs(xs, ys)|
    ensures |ys| > 0 && k / |ys| < |xs|
  {
    PairsLength(xs, ys);
    if |ys| > 0 {
      DivMod(k, |ys|);
      if k / |ys| >= |xs| {
        MulMonotone(|xs|, k / |ys|, |ys|);
      }
    }
  }

  /** Every position k of the product holds (xs[k / |ys|], ys[k % |ys|]). */
  lemma {:induction false} PairsAt<A, B>(xs: seq<A>, ys: seq<B>, k: nat)
    requires k < |Pairs(xs, ys)|
    ensures |ys| > 0 && k / |ys| < |xs|
    ensures Pairs(xs, ys)[k] == (xs[k / |ys|], ys[k % |ys|])
  {
    PairsRowBound(xs, ys, k);
    var n := |ys|;
    DivMod(k, n);
    PairsIndexAt(xs, ys, k / n, k % n, k);
  }

  /** `[f(x) for x in xs]`. */
  function Tabulate<A, B>(xs: seq<A>, f: A -> B): (ys: seq<B>)
    ensures |ys| == |xs|
    decreases |xs|
  {
    if |xs| == 0 then [] else Tabulate(xs[..|xs| - 1], f) + [f(xs[|xs| - 1])]
  }

  lemma {:induction false} TabulateAt<A, B>(xs: seq<A>, f: A -> B, k: nat)
    requires k < |xs|
    ensures Tabulate(xs, f)[k] == f(xs[k])
    decreases |xs|
  {
    var front := xs[..|xs| - 1];
    if k < |front| {
      TabulateAt(front, f, k);
      assert front[k] == xs[k];
    }
  }
}
