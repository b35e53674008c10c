/** The index arithmetic of src/mathutils.c: the binary search `bracket`,
    `get_min_max`, the corner indices of an n-dimensional linear
    interpolation and `enclosing_indices`. Floats are modelled as reals;
    the interpolation weights are left out. */
module MathUtils {
  import opened Common

  // ---- bracket ----

  /** i is a bracket of value in xs: the lower end of a pair of neighbours
      xs[i], xs[i + 1], where the first and last pair stand for everything
      below and above. */
  predicate Brackets(xs: seq<real>, value: real, i: int)
  {
    && 0 <= i <= |xs| - 2
    && (i == 0 || xs[i] <= value)
    && (i == |xs| - 2 || value < xs[i + 1])
  }

  predicate Ascending(xs: seq<real>)
  {
    forall i, j | 0 <= i <= j < |xs| :: xs[i] <= xs[j]
  }

  /** bracket: binary search over xs (nr = |xs|) for the index below
      value. */
  method Bracket(value: real, xs: seq<real>) returns (iLower: int)
    ensures |xs| >= 2 ==> Brackets(xs, value, iLower)
    ensures |xs| < 2 ==> iLower == 0
  {
    var iLo := 0;
    var iHi := |xs| - 1;
    while iHi > iLo + 1
      invariant |xs| >= 2 ==> 0 <= iLo < iHi <= |xs| - 1
      invariant |xs| < 2 ==> iLo == 0 && iHi == |xs| - 1
      invariant iLo == 0 || xs[iLo] <= value
      invariant iHi == |xs| - 1 || value < xs[iHi]
      decreases iHi - iLo
    {
      var i := (iHi + iLo) / 2;
      if xs[i] > value {
        iHi := i;
      } else {
        iLo := i;
      }
    }
    iLower := iLo;
  }

  /** On an ascending array only one index brackets a value. */
  lemma BracketUnique(xs: seq<real>, value: real, i: int, j: int)
    requires Ascending(xs) && Brackets(xs, value, i) && Brackets(xs, value, j)
    ensures i == j
  {
  }

  /** Inside the range of an ascending array the bracket encloses the value. */
  lemma BracketEncloses(xs: seq<real>, value: real, i: int)
    requires Ascending(xs) && Brackets(xs, value, i)
    requires xs[0] <= value < xs[|xs| - 1]
    ensures xs[i] <= value < xs[i + 1]
  {
  }

  /** Outside the inner points the bracket clamps to the first or last pair. */
  lemma BracketClamps(xs: seq<real>, value: real, i: int)
    requires Ascending(xs) && Brackets(xs, value, i)
    ensures value < xs[1] ==> i == 0
    ensures xs[|xs| - 2] <= value ==> i == |xs| - 2
  {
  }

  /** The bracket of a larger value is not lower. */
  lemma BracketMonotone(xs: seq<real>, a: real, b: real, i: int, j: int)
    requires Ascending(xs) && a <= b && Brackets(xs, a, i) && Brackets(xs, b, j)
    ensures i <= j
  {
  }

  // ---- enclosing_indices ----

  /** enclosing_indices: the bracket of xmin and one past the bracket of
      xmax. */
  method EnclosingIndices(xs: seq<real>, xmin: real, xmax: real) returns (iLower: int, iHigher: int)
    ensures |xs| >= 2 ==> Brackets(xs, xmin, iLower) && Brackets(xs, xmax, iHigher - 1)
    ensures |xs| < 2 ==> iLower == 0 && iHigher == 1
  {
    iLower := Bracket(xmin, xs);
    iHigher := Bracket(xmax, xs);
    iHigher := iHigher + 1;
  }

  /** On an ascending array the indices span at least one interval, and
      inside its range they enclose [xmin, xmax]. */
  lemma EnclosingSpan(xs: seq<real>, xmin: real, xmax: real, iLower: int, iHigher: int)
    requires Ascending(xs) && xmin <= xmax
    requires Brackets(xs, xmin, iLower) && Brackets(xs, xmax, iHigher - 1)
    ensures iLower < iHigher <= |xs| - 1
    ensures xs[0] <= xmin && xmax < xs[|xs| - 1] ==> xs[iLower] <= xmin && xmax < xs[iHigher]
  {
    BracketMonotone(xs, xmin, xmax, iLower, iHigher - 1);
  }

  // ---- get_min_max ----

  /** get_min_max over the nv = |v| elements of v. */
  method GetMinMax(v: seq<real>) returns (vmin: real, vmax: real)
    requires |v| >= 1
    ensures forall i | 0 <= i < |v| :: vmin <= v[i] <= vmax
    ensures vmin in v && vmax in v
  {
    vmin, vmax := v[0], v[0];
    var i := 1;
    while i < |v|
      invariant 1 <= i <= |v|
      invariant forall k | 0 <= k < i :: vmin <= v[k] <= vmax
      invariant vmin in v[..i] && vmax in v[..i]
    {
      vmin := if v[i] < vmin then v[i] else vmin;
      vmax := if v[i] > vmax then v[i] else vmax;
      i := i + 1;
    }
    assert v[..i] == v;
  }

  // ---- ndim_lin_interp_get_idx_wght, the index part ----

  /** Bit k of j. */
  function Bit(j: nat, k: nat): (b: nat)
    ensures b == 0 || b == 1
  {
    if k == 0 then j % 2 else Bit(j / 2, k - 1)
  }

  /** The flat index of corner j of the interpolation cell: along each of
      the first n dimensions the cell's index, plus one where bit k of j is
      set, times that dimension's stride. */
  function Corner(ivec: seq<int>, shift: seq<int>, n: nat, j: nat): int
    requires n <= |ivec| && n <= |shift|
  {
    if n == 0 then 0
    else Corner(ivec, shift, n - 1, j) + ivec[n - 1] * shift[n - 1] + (if Bit(j, n - 1) == 1 then shift[n - 1] else 0)
  }

  lemma {:induction false} BitBelow(j: nat, i: nat)
    requires j < Pow2(i)
    ensures Bit(j, i) == 0
  {
    if i > 0 {
      BitBelow(j / 2, i - 1);
    }
  }

  lemma {:induction false} BitOfUpperHalf(j: nat, i: nat)
    requires j < Pow2(i)
    ensures Bit(j + Pow2(i), i) == 1
  {
    if i > 0 {
      assert (j + Pow2(i)) / 2 == j / 2 + Pow2(i - 1);
      BitOfUpperHalf(j / 2, i - 1);
    }
  }

  lemma {:induction false} LowBitsOfUpperHalf(j: nat, i: nat, k: nat)
    requires j < Pow2(i) && k < i
    ensures Bit(j + Pow2(i), k) == Bit(j, k)
  {
    if k > 0 {
      assert (j + Pow2(i)) / 2 == j / 2 + Pow2(i - 1);
      LowBitsOfUpperHalf(j / 2, i - 1, k - 1);
    }
  }

  /** Corners whose low n bits agree have the same index. */
  lemma {:induction false} CornerOfLowBits(ivec: seq<int>, shift: seq<int>, n: nat, j: nat, j': nat)
    requires n <= |ivec| && n <= |shift|
    requires forall k | 0 <= k < n :: Bit(j, k) == Bit(j', k)
    ensures Corner(ivec, shift, n, j) == Corner(ivec, shift, n, j')
  {
    if n > 0 {
      CornerOfLowBits(ivec, shift, n - 1, j, j');
    }
  }

  /** Adding dimension i: the lower half of the corners moves by the cell
      index, the upper half copies the lower half one stride further. */
  lemma CornerStep(ivec: seq<int>, shift: seq<int>, i: nat, j: nat)
    requires i < |ivec| && i < |shift| && j < Pow2(i)
    ensures Corner(ivec, shift, i + 1, j) == Corner(ivec, shift, i, j) + ivec[i] * shift[i]
    ensures Corner(ivec, shift, i + 1, j + Pow2(i)) == Corner(ivec, shift, i, j) + ivec[i] * shift[i] + shift[i]
  {
    BitBelow(j, i);
    BitOfUpperHalf(j, i);
    forall k | 0 <= k < i
      ensures Bit(j + Pow2(i), k) == Bit(j, k)
    {
      LowBitsOfUpperHalf(j, i, k);
    }
    CornerOfLowBits(ivec, shift, i, j + Pow2(i), j);
  }

  /** The expansion fills the first 2^ndim elements of ivecExp with the
      corner indices, doubling the filled part once per dimension; the
      elements after them are left alone. */
  method NdimIndices(ndim: nat, ivec: seq<int>, shift: seq<int>, ivecExp: array<int>)
    requires ndim <= |ivec| && ndim <= |shift| && Pow2(ndim) <= ivecExp.Length
    modifies ivecExp
    ensures forall j | 0 <= j < Pow2(ndim) :: ivecExp[j] == Corner(ivec, shift, ndim, j)
    ensures forall j | Pow2(ndim) <= j < ivecExp.Length :: ivecExp[j] == old(ivecExp[j])
  {
    ivecExp[0] := 0;
    var i := 0;
    while i < ndim
      invariant i <= ndim && Pow2(i) <= Pow2(ndim)
      invariant forall j | 0 <= j < Pow2(i) :: ivecExp[j] == Corner(ivec, shift, i, j)
      invariant forall j | Pow2(i) <= j < ivecExp.Length :: ivecExp[j] == old(ivecExp[j])
    {
      PowMonotone(i + 1, ndim);
      ExpandDimension(i, ivec, shift, ivecExp);
      i := i + 1;
    }
  }

  /** One pass of the outer loop, for dimension i. */
  method ExpandDimension(i: nat, ivec: seq<int>, shift: seq<int>, ivecExp: array<int>)
    requires i < |ivec| && i < |shift| && Pow2(i + 1) <= ivecExp.Length
    requires forall j | 0 <= j < Pow2(i) :: ivecExp[j] == Corner(ivec, shift, i, j)
    modifies ivecExp
    ensures forall j | 0 <= j < Pow2(i + 1) :: ivecExp[j] == Corner(ivec, shift, i + 1, j)
    ensures forall j | Pow2(i + 1) <= j < ivecExp.Length :: ivecExp[j] == old(ivecExp[j])
  {
    var n := Pow2(i);
    var ishift := ivec[i] * shift[i];
    var j := 0;
    while j < n
      invariant j <= n
      invariant forall jj | 0 <= jj < j :: ivecExp[jj] == Corner(ivec, shift, i + 1, jj)
      invariant forall jj | n <= jj < n + j :: ivecExp[jj] == Corner(ivec, shift, i + 1, jj)
      invariant forall jj | j <= jj < n :: ivecExp[jj] == Corner(ivec, shift, i, jj)
      invariant forall jj | n + j <= jj < ivecExp.Length :: ivecExp[jj] == old(ivecExp[jj])
    {
      CornerStep(ivec, shift, i, j);
      ivecExp[j] := ivecExp[j] + ishift;
      ivecExp[j + n] := ivecExp[j] + shift[i];
      j := j + 1;
    }
  }

  lemma {:induction false} PowMonotone(a: nat, b: nat)
    requires a <= b
    ensures Pow2(a) <= Pow2(b)
    decreases b - a
  {
    if a < b {
      PowMonotone(a + 1, b);
    }
  }
}
