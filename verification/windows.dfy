/** The overlapping patch windows of `patches_era_delay`, one axis at a time:
    `view_as_windows` with window length `p` and step `p / 2`. */
module Windows {
  import opened Sequences

  /** `int(patch_size / 2)`: consecutive windows overlap by half a patch. */
  function Stride(p: nat): nat
  {
    p / 2
  }

  /** `view_as_windows` accepts a window no longer than the axis and a step of at
      least one, i.e. a patch length between 2 and the axis length. */
  predicate ValidPatch(n: nat, p: nat)
  {
    2 <= p <= n
  }

  /** Number of windows along an axis of length `n`: `(n - p) // step + 1`. */
  function WindowCount(n: nat, p: nat): (c: nat)
    requires ValidPatch(n, p)
    ensures c >= 1
  {
    (n - p) / Stride(p) + 1
  }

  /** First pixel of window `k`. */
  function Origin(k: nat, p: nat): nat
  {
    k * Stride(p)
  }

  /** Window `k` covers pixel `x`. */
  predicate Contains(k: nat, p: nat, x: nat)
  {
    Origin(k, p) <= x < Origin(k, p) + p
  }

  /** One past the last pixel of the last window. */
  function CoveredExtent(n: nat, p: nat): (e: nat)
    requires ValidPatch(n, p)
    ensures e <= n
    ensures e == n - (n - p) % Stride(p)
  {
    var s := Stride(p);
    DivMod(n - p, s);
    (WindowCount(n, p) - 1) * s + p
  }

  /** Every window lies inside the axis. */
  lemma WindowInBounds(n: nat, p: nat, k: nat)
    requires ValidPatch(n, p) && k < WindowCount(n, p)
    ensures Origin(k, p) + p <= n
  {
    var s := Stride(p);
    DivMod(n - p, s);
    MulMonotone(k, (n - p) / s, s);
  }

  /** The last window covering `x`: the highest window that starts at or before it. */
  function Owner(n: nat, p: nat, x: nat): nat
    requires ValidPatch(n, p)
  {
    var k := x / Stride(p);
    if k < WindowCount(n, p) then k else WindowCount(n, p) - 1
  }

  /** A pixel short of the covered extent is covered by `Owner`, and no later
      window covers it: written in window order, `Owner`'s value is the one that
      stays. */
  lemma {:induction false} OwnerIsLastWindow(n: nat, p: nat, x: nat)
    requires ValidPatch(n, p) && x < CoveredExtent(n, p)
    ensures Owner(n, p, x) < WindowCount(n, p)
    ensures Contains(Owner(n, p, x), p, x)
    ensures forall k :: Owner(n, p, x) < k < WindowCount(n, p) ==> !Contains(k, p, x)
  {
    var s, c := Stride(p), WindowCount(n, p);
    var o := Owner(n, p, x);
    DivMod(x, s);
    if x / s < c {
      assert o * s + s == (o + 1) * s;
    } else {
      MulMonotone(c, x / s, s);
      assert o * s + s == c * s;
    }
    forall k | o < k < c
      ensures !Contains(k, p, x)
    {
      MulMonotone(x / s + 1, k, s);
      assert (x / s + 1) * s == (x / s) * s + s;
    }
  }

  /** A pixel of the axis is covered by some window exactly when it lies before
      the covered extent. */
  lemma {:induction false} CoverageIff(n: nat, p: nat, x: nat)
    requires ValidPatch(n, p) && x < n
    ensures (exists k: nat :: k < WindowCount(n, p) && Contains(k, p, x)) <==> x < CoveredExtent(n, p)
  {
    if x < CoveredExtent(n, p) {
      OwnerIsLastWindow(n, p, x);
    } else {
      forall k: nat | k < WindowCount(n, p)
        ensures !Contains(k, p, x)
      {
        var s := Stride(p);
        MulMonotone(k, WindowCount(n, p) - 1, s);
      }
    }
  }

  /** The windows cover the whole axis exactly when the step divides the length
      left over after the first window. */
  lemma FullCoverageIff(n: nat, p: nat)
    requires ValidPatch(n, p)
    ensures CoveredExtent(n, p) == n <==> (n - p) % Stride(p) == 0
  {
  }

  /** An even patch length whose half divides the axis length covers the axis.
      This is the only case in which the documented requirement that the patch
      size divide the grid guarantees coverage (`DividingEvenPatchCovers`); an
      odd patch may divide the axis and still leave a gap (`OddPatchLeavesGap`). */
  lemma {:induction false} EvenPatchCoversAxis(n: nat, p: nat)
    requires ValidPatch(n, p) && p % 2 == 0 && n % Stride(p) == 0
    ensures CoveredExtent(n, p) == n
  {
    var s := Stride(p);
    DivMod(n, s);
    assert p == 2 * s;
    assert n - p == (n / s - 2) * s;
    DivModUnique(n - p, s, n / s - 2, 0);
  }

  /** A patch that divides the axis, as the docstring of `patches_era_delay` asks,
      covers the axis when its length is even. */
  lemma {:induction false} DividingEvenPatchCovers(n: nat, p: nat)
    requires ValidPatch(n, p) && p % 2 == 0 && n % p == 0
    ensures CoveredExtent(n, p) == n
  {
    var s := Stride(p);
    DivMod(n, p);
    assert p == 2 * s;
    assert n == (2 * (n / p)) * s;
    DivModUnique(n, s, 2 * (n / p), 0);
    EvenPatchCoversAxis(n, p);
  }

  /** Divisibility is not what decides coverage: an odd patch of five covers an
      axis of nine, which it does not divide, with windows at 0, 2 and 4. */
  lemma OddPatchCoversNine()
    ensures ValidPatch(9, 5) && 9 % 5 != 0
    ensures WindowCount(9, 5) == 3 && CoveredExtent(9, 5) == 9
  {
  }

  /** Euclidean division is unique: `m == q * s + r` with `r < s` fixes quotient
      and remainder. */
  lemma {:induction false} DivModUnique(m: nat, s: nat, q: nat, r: nat)
    requires s > 0 && r < s && m == q * s + r
    ensures m / s == q && m % s == r
  {
    DivMod(m, s);
    MulStrict(q, m / s, s);
    MulStrict(m / s, q, s);
  }

  /** A smaller factor leaves room for at least one more `s`. */
  lemma MulStrict(a: nat, b: nat, s: nat)
    ensures a < b ==> a * s + s <= b * s
  {
    if a < b {
      MulMonotone(a + 1, b, s);
      assert (a + 1) * s == a * s + s;
    }
  }

  /** An odd patch can divide the axis and still leave its last pixels uncovered:
      five divides ten, but windows of five with step two reach only pixel 8,
      because (10 - 5) mod 2 is not zero. */
  lemma OddPatchLeavesGap()
    ensures ValidPatch(10, 5) && WindowCount(10, 5) == 3 && CoveredExtent(10, 5) == 9
    ensures !exists k: nat :: k < WindowCount(10, 5) && Contains(k, 5, 9)
  {
    CoverageIff(10, 5, 9);
  }
}
