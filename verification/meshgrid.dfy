/**
  The sweep grid of an equilibration: numpy's `meshgrid` with its default
  'xy' indexing, each output array flattened in C order, and the flattened
  arrays zipped into tuples.

  With 'xy' indexing the output arrays of an n-axis meshgrid (n >= 2) have
  the shape (N1, N0, N2, ..., N(n-1)): the first two extents are exchanged.
  The flattened grid therefore lets axis 1 vary slowest, then axis 0, then
  axes 2, 3, ... with the last axis fastest.  An independent description of
  the same sequence is the ordinary row-major Cartesian product of the axes
  with the first two exchanged, each tuple exchanged back (`XyProduct`).
 */
module MeshGrid {
  import opened Radix

  /** Extent of every axis. */
  function Lens<T>(axes: seq<seq<T>>): (lens: seq<nat>)
    ensures |lens| == |axes|
    ensures forall j :: 0 <= j < |axes| ==> lens[j] == |axes[j]|
  {
    seq(|axes|, j requires 0 <= j < |axes| => |axes[j]|)
  }

  /** The tuple that takes coordinate `m[p]` from axis `p`. */
  function Pick<T>(axes: seq<seq<T>>, m: seq<nat>): (t: seq<T>)
    requires InBounds(Lens(axes), m)
    ensures |t| == |axes|
    ensures forall p :: 0 <= p < |axes| ==> t[p] == axes[p][m[p]]
  {
    seq(|axes|, p requires 0 <= p < |axes| => axes[p][m[p]])
  }

  /** Exchanges the first two elements of a sequence that has at least two. */
  function Swap01<T>(xs: seq<T>): (r: seq<T>)
    ensures |r| == |xs|
  {
    if |xs| >= 2 then [xs[1], xs[0]] + xs[2..] else xs
  }

  /** Dimension of the 'xy' output shape that carries axis `j` of an `n`-axis meshgrid. */
  function MeshPos(n: nat, j: nat): nat
  {
    if n >= 2 && j < 2 then 1 - j else j
  }

  lemma Swap01At<T>(xs: seq<T>, j: nat)
    requires j < |xs|
    ensures MeshPos(|xs|, j) < |xs|
    ensures Swap01(xs)[MeshPos(|xs|, j)] == xs[j]
    ensures xs[MeshPos(|xs|, j)] == Swap01(xs)[j]
  {
  }

  lemma Swap01Involutive<T>(xs: seq<T>)
    ensures Swap01(Swap01(xs)) == xs
  {
    if |xs| >= 2 {
      assert Swap01(Swap01(xs))[2..] == xs[2..];
    }
  }

  lemma Swap01Suffix<T>(xs: seq<T>, i: nat)
    requires 2 <= i <= |xs|
    ensures Swap01(xs)[i..] == xs[i..]
  {
    forall p | 0 <= p < |xs| - i
      ensures Swap01(xs)[i..][p] == xs[i..][p]
    {
    }
  }

  lemma LensSwap01<T>(axes: seq<seq<T>>)
    ensures Lens(Swap01(axes)) == Swap01(Lens(axes))
  {
  }

  lemma ProdSwap01(s: seq<nat>)
    ensures Prod(Swap01(s)) == Prod(s)
  {
    if |s| >= 2 {
      assert s == [s[0], s[1]] + s[2..];
      ProdConcat([s[0], s[1]], s[2..]);
      ProdConcat([s[1], s[0]], s[2..]);
      assert [s[1], s[0]][..1] == [s[1]];
      assert [s[0], s[1]][..1] == [s[0]];
    }
  }

  lemma PositiveSwap01(s: seq<nat>)
    ensures Positive(Swap01(s)) <==> Positive(s)
  {
    ProdSwap01(s);
    ProdPositive(s);
    ProdPositive(Swap01(s));
  }

  // ---------------------------------------------------------------------
  // The grid as `equilibrate` builds it (source/equilibration.py): meshgrid,
  // flatten, zip.

  /** Shape of every output array of an 'xy' meshgrid over `axes`. */
  function MeshShape<T>(axes: seq<seq<T>>): seq<nat>
  {
    Swap01(Lens(axes))
  }

  /**
    Output array `j` of the meshgrid, flattened in C order: the cell at
    offset `k` holds the element of axis `j` at the coordinate of `k` along
    the dimension that carries axis `j`.
   */
  function MeshColumn<T>(axes: seq<seq<T>>, j: nat): (col: seq<T>)
    requires j < |axes|
    ensures |col| == Prod(MeshShape(axes))
  {
    var shape := MeshShape(axes);
    ProdPositive(shape);
    if !Positive(shape) then []
    else
      Swap01At(Lens(axes), j);
      seq(Prod(shape), k requires 0 <= k < Prod(shape) =>
            axes[j][Decode(shape, k)[MeshPos(|axes|, j)]])
  }

  /** Length of the shortest sequence: where Python's `zip` stops. */
  function MinLen<T>(cols: seq<seq<T>>): (r: nat)
    requires |cols| > 0
    ensures forall j :: 0 <= j < |cols| ==> r <= |cols[j]|
    ensures exists j :: 0 <= j < |cols| && r == |cols[j]|
  {
    if |cols| == 1 then |cols[0]|
    else
      var rest := MinLen(cols[1..]);
      if |cols[0]| <= rest then |cols[0]| else rest
  }

  /** Python's `zip(*cols)`: tuples of same-position elements; no sequences, no tuples. */
  function Zip<T>(cols: seq<seq<T>>): (r: seq<seq<T>>)
    ensures |cols| == 0 ==> |r| == 0
    ensures forall j :: 0 <= j < |cols| ==> |r| <= |cols[j]|
    ensures |cols| > 0 ==> exists j :: 0 <= j < |cols| && |r| == |cols[j]|
    ensures forall k, j :: 0 <= k < |r| && 0 <= j < |cols| ==> |r[k]| == |cols| && r[k][j] == cols[j][k]
  {
    if |cols| == 0 then []
    else
      seq(MinLen(cols), k requires 0 <= k < MinLen(cols) =>
        seq(|cols|, j requires 0 <= j < |cols| => cols[j][k]))
  }

  /** `zip(*[m.flatten() for m in np.meshgrid(*axes)])`. */
  function Grid<T>(axes: seq<seq<T>>): seq<seq<T>>
  {
    Zip(seq(|axes|, j requires 0 <= j < |axes| => MeshColumn(axes, j)))
  }

  // ---------------------------------------------------------------------
  // The reference: a row-major Cartesian product.

  /** Every tuple of `ts` extended by every element of `ys`, tuples of `ts` outermost. */
  function Extend<T>(ts: seq<seq<T>>, ys: seq<T>): (r: seq<seq<T>>)
    ensures |r| == |ts| * |ys|
  {
    if |ts| == 0 then []
    else
      var rest := Extend(ts[1..], ys);
      assert |rest| + |ys| == |ts| * |ys| by {
        assert |ts| * |ys| == (|ts| - 1) * |ys| + |ys|;
      }
      seq(|ys|, i requires 0 <= i < |ys| => ts[0] + [ys[i]]) + rest
  }

  /** Cartesian product of `ls` in row-major order: the first factor varies slowest. */
  function Cart<T>(ls: seq<seq<T>>): (r: seq<seq<T>>)
    ensures |r| == Prod(Lens(ls))
  {
    if |ls| == 0 then [[]]
    else
      var n := |ls| - 1;
      assert Lens(ls)[..n] == Lens(ls[..n]);
      Extend(Cart(ls[..n]), ls[n])
  }

  /** The sweep grid described independently of meshgrid. */
  function XyProduct<T>(axes: seq<seq<T>>): seq<seq<T>>
  {
    if |axes| == 0 then []
    else
      var c := Cart(Swap01(axes));
      seq(|c|, i requires 0 <= i < |c| => Swap01(c[i]))
  }

  lemma {:induction false} ExtendAt<T>(ts: seq<seq<T>>, ys: seq<T>, k: nat)
    requires k < |ts| * |ys|
    ensures |ys| > 0 && k / |ys| < |ts|
    ensures Extend(ts, ys)[k] == ts[k / |ys|] + [ys[k % |ys|]]
  {
    MulPositive(|ts|, |ys|, k);
    if k < |ys| {
      DivModUnique(k, |ys|, 0, k);
    } else {
      ExtendTail(ts, ys, k);
      ExtendAt(ts[1..], ys, k - |ys|);
      DivStep(k, |ys|);
      assert ts[1..][(k - |ys|) / |ys|] == ts[k / |ys|];
    }
  }

  /** Past the first block of `|ys|` tuples, `Extend` continues with the rest of `ts`. */
  lemma ExtendTail<T>(ts: seq<seq<T>>, ys: seq<T>, k: nat)
    requires 0 < |ts| && |ys| <= k < |ts| * |ys|
    ensures k - |ys| < (|ts| - 1) * |ys|
    ensures Extend(ts, ys)[k] == Extend(ts[1..], ys)[k - |ys|]
  {
    assert |ts| * |ys| == (|ts| - 1) * |ys| + |ys|;
  }

  lemma CartSnoc<T>(ls: seq<seq<T>>, k: nat)
    requires |ls| > 0 && k < |Cart(ls)|
    ensures |ls[|ls| - 1]| > 0
    ensures k / |ls[|ls| - 1]| < |Cart(ls[..|ls| - 1])|
    ensures Cart(ls)[k] == Cart(ls[..|ls| - 1])[k / |ls[|ls| - 1]|] + [ls[|ls| - 1][k % |ls[|ls| - 1]|]]
  {
    var n := |ls| - 1;
    ExtendAt(Cart(ls[..n]), ls[n], k);
  }

  /** Tuple `k` of the product takes from every factor the coordinate that `k` decodes to. */
  lemma {:induction false} CartAt<T>(ls: seq<seq<T>>, k: nat)
    requires k < |Cart(ls)|
    ensures Positive(Lens(ls))
    ensures Cart(ls)[k] == Pick(ls, Decode(Lens(ls), k))
    decreases |ls|
  {
    ProdPositive(Lens(ls));
    if |ls| > 0 {
      var n := |ls| - 1;
      CartSnoc(ls, k);
      CartAt(ls[..n], k / |ls[n]|);
      PickDecodeSnoc(ls, k);
    } else {
      assert Cart(ls) == [[]];
      var t := Pick(ls, Decode(Lens(ls), k));
      assert |t| == 0;
      assert t == [];
    }
  }

  /** The tuple a decoded offset picks, split into its last coordinate and the rest. */
  lemma PickDecodeSnoc<T>(ls: seq<seq<T>>, k: nat)
    requires |ls| > 0 && Positive(Lens(ls))
    ensures Positive(Lens(ls[..|ls| - 1])) && |ls[|ls| - 1]| > 0
    ensures Pick(ls, Decode(Lens(ls), k)) ==
            Pick(ls[..|ls| - 1], Decode(Lens(ls[..|ls| - 1]), k / |ls[|ls| - 1]|)) + [ls[|ls| - 1][k % |ls[|ls| - 1]|]]
  {
    var n := |ls| - 1;
    assert Lens(ls)[..n] == Lens(ls[..n]);
    var d := Decode(Lens(ls), k);
    assert d[..n] == Decode(Lens(ls[..n]), k / |ls[n]|) && d[n] == k % |ls[n]|;
    PickSnoc(ls, d);
  }

  lemma PickSnoc<T>(ls: seq<seq<T>>, d: seq<nat>)
    requires |ls| > 0 && InBounds(Lens(ls), d)
    ensures InBounds(Lens(ls[..|ls| - 1]), d[..|ls| - 1])
    ensures Pick(ls, d) == Pick(ls[..|ls| - 1], d[..|ls| - 1]) + [ls[|ls| - 1][d[|ls| - 1]]]
  {
  }

  // ---------------------------------------------------------------------
  // Properties of the sweep grid.

  lemma GridColumns<T>(axes: seq<seq<T>>)
    requires |axes| > 0
    ensures |Grid(axes)| == Prod(MeshShape(axes))
    ensures forall k, j :: 0 <= k < |Grid(axes)| && 0 <= j < |axes| ==>
              |Grid(axes)[k]| == |axes| && Grid(axes)[k][j] == MeshColumn(axes, j)[k]
  {
    var cols := seq(|axes|, j requires 0 <= j < |axes| => MeshColumn(axes, j));
    var w :| 0 <= w < |cols| && MinLen(cols) == |cols[w]|;
  }

  /**
    The number of grid points is the product of the number of values of
    every axis; with no axes there are none.
   */
  lemma GridSize<T>(axes: seq<seq<T>>)
    ensures |Grid(axes)| == if |axes| == 0 then 0 else Prod(Lens(axes))
  {
    if |axes| > 0 {
      GridColumns(axes);
      ProdSwap01(Lens(axes));
    }
  }

  /** Point `k` of the grid, coordinate by coordinate. */
  lemma GridAt<T>(axes: seq<seq<T>>, k: nat, j: nat)
    requires k < |Grid(axes)| && j < |axes|
    ensures Positive(MeshShape(axes))
    ensures |Grid(axes)[k]| == |axes|
    ensures MeshPos(|axes|, j) < |axes|
    ensures Grid(axes)[k][j] == axes[j][Decode(MeshShape(axes), k)[MeshPos(|axes|, j)]]
  {
    GridColumns(axes);
    ProdPositive(MeshShape(axes));
    Swap01At(Lens(axes), j);
  }

  /** Both descriptions have the same number of points. */
  lemma XyProductSize<T>(axes: seq<seq<T>>)
    ensures |XyProduct(axes)| == |Grid(axes)|
  {
    if |axes| > 0 {
      LensSwap01(axes);
      GridSize(axes);
      ProdSwap01(Lens(axes));
    }
  }

  /** Point `k` of the meshgrid construction is point `k` of the reference. */
  lemma GridPointIsXy<T>(axes: seq<seq<T>>, k: nat)
    requires |axes| > 0 && k < |Grid(axes)|
    ensures k < |XyProduct(axes)| && Grid(axes)[k] == XyProduct(axes)[k]
  {
    XyProductSize(axes);
    var sw := Swap01(axes);
    LensSwap01(axes);
    CartAt(sw, k);
    GridColumns(axes);
    forall j | 0 <= j < |axes|
      ensures Grid(axes)[k][j] == XyProduct(axes)[k][j]
    {
      GridAt(axes, k, j);
      Swap01At(Cart(sw)[k], j);
      Swap01At(axes, j);
    }
  }

  /**
    The meshgrid construction enumerates exactly the row-major product of
    the axes with the first two exchanged, each tuple exchanged back.
   */
  lemma GridIsXyProduct<T>(axes: seq<seq<T>>)
    ensures Grid(axes) == XyProduct(axes)
  {
    XyProductSize(axes);
    if |axes| > 0 {
      forall k | 0 <= k < |Grid(axes)|
        ensures Grid(axes)[k] == XyProduct(axes)[k]
      {
        GridPointIsXy(axes, k);
      }
    }
  }
}

module MeshGridOrder {
  import opened Radix
  import opened MeshGrid

  /** How many consecutive grid points keep the coordinate of axis `j` fixed. */
  function Stride(lens: seq<nat>, j: nat): nat
    requires j < |lens|
  {
    Prod(Swap01(lens)[MeshPos(|lens|, j) + 1..])
  }

  /** Coordinate `j` of grid point `k` is `k` divided by the stride of axis `j`, modulo its extent. */
  lemma GridStride<T>(axes: seq<seq<T>>, k: nat, j: nat)
    requires k < |Grid(axes)| && j < |axes|
    ensures |Grid(axes)[k]| == |axes|
    ensures Stride(Lens(axes), j) > 0 && |axes[j]| > 0
    ensures Grid(axes)[k][j] == axes[j][k / Stride(Lens(axes), j) % |axes[j]|]
  {
    GridAt(axes, k, j);
    Swap01At(Lens(axes), j);
    DecodeCoordinate(MeshShape(axes), k, MeshPos(|axes|, j));
  }

  lemma StrideValues(lens: seq<nat>)
    requires |lens| >= 2
    ensures Stride(lens, 1) == lens[0] * Prod(lens[2..])
    ensures Stride(lens, 0) == Prod(lens[2..])
  {
    assert Swap01(lens)[1..] == [lens[0]] + lens[2..];
    ProdCons(lens[0], lens[2..]);
    Swap01Suffix(lens, 2);
  }

  lemma StrideFast(lens: seq<nat>, j: nat)
    requires 2 <= j < |lens|
    ensures Stride(lens, j) == Prod(lens[j + 1..])
  {
    Swap01Suffix(lens, j + 1);
  }

  /**
    The two slow axes of an n-axis grid, n >= 2: axis 1 varies slowest,
    then axis 0; every later axis varies faster (see `FastAxis`).
   */
  lemma SlowAxes<T>(axes: seq<seq<T>>, k: nat)
    requires |axes| >= 2 && k < |Grid(axes)|
    ensures |Grid(axes)[k]| == |axes|
    ensures |axes[0]| > 0 && |axes[1]| > 0 && Prod(Lens(axes)[2..]) > 0
    ensures Grid(axes)[k][1] == axes[1][k / (|axes[0]| * Prod(Lens(axes)[2..])) % |axes[1]|]
    ensures Grid(axes)[k][0] == axes[0][k / Prod(Lens(axes)[2..]) % |axes[0]|]
  {
    StrideValues(Lens(axes));
    GridStride(axes, k, 0);
    GridStride(axes, k, 1);
  }

  /**
    Axes 2, 3, ... vary faster than axes 0 and 1, in registration order:
    the stride of axis `j` is the product of the extents after it, so the
    last axis varies fastest.
   */
  lemma FastAxis<T>(axes: seq<seq<T>>, k: nat, j: nat)
    requires 2 <= j < |axes| && k < |Grid(axes)|
    ensures |Grid(axes)[k]| == |axes|
    ensures Prod(Lens(axes)[j + 1..]) > 0 && |axes[j]| > 0
    ensures Grid(axes)[k][j] == axes[j][k / Prod(Lens(axes)[j + 1..]) % |axes[j]|]
  {
    GridStride(axes, k, j);
    StrideFast(Lens(axes), j);
  }

  /** A single axis is swept in the order its values are given. */
  lemma SingleAxisOrder<T>(xs: seq<T>)
    ensures Grid([xs]) == seq(|xs|, i requires 0 <= i < |xs| => [xs[i]])
  {
    var g := Grid([xs]);
    GridSize([xs]);
    assert Prod(Lens([xs])) == |xs|;
    forall i | 0 <= i < |xs|
      ensures g[i] == [xs[i]]
    {
      GridStride([xs], i, 0);
      assert Stride(Lens([xs]), 0) == 1;
      DivModUnique(i, |xs|, 0, i);
    }
  }

  /** With no axes `zip` has nothing to zip: the grid is empty. */
  lemma NoAxes<T>(axes: seq<seq<T>>)
    requires |axes| == 0
    ensures Grid(axes) == []
  {
  }

  /** The strides of a grid of two axes with two values each. */
  lemma TwoByTwoStrides<T>(axes: seq<seq<T>>)
    requires |axes| == 2 && |axes[0]| == 2 && |axes[1]| == 2
    ensures |Grid(axes)| == 4
    ensures Stride(Lens(axes), 0) == 1 && Stride(Lens(axes), 1) == 2
  {
    var lens := Lens(axes);
    GridSize(axes);
    StrideValues(lens);
    assert lens[2..] == [] && lens[..1] == [2] && lens[..1][..0] == [];
  }

  /** A grid of two axes with two values each: axis 0 varies fastest, axis 1 slowest. */
  lemma TwoByTwo<T>(axes: seq<seq<T>>)
    requires |axes| == 2 && |axes[0]| == 2 && |axes[1]| == 2
    ensures Grid(axes) == [[axes[0][0], axes[1][0]], [axes[0][1], axes[1][0]],
                           [axes[0][0], axes[1][1]], [axes[0][1], axes[1][1]]]
  {
    var g := Grid(axes);
    TwoByTwoStrides(axes);
    assert g[0] == [axes[0][0], axes[1][0]] by {
      GridStride(axes, 0, 0);
      GridStride(axes, 0, 1);
    }
    assert g[1] == [axes[0][1], axes[1][0]] by {
      GridStride(axes, 1, 0);
      GridStride(axes, 1, 1);
    }
    assert g[2] == [axes[0][0], axes[1][1]] by {
      GridStride(axes, 2, 0);
      GridStride(axes, 2, 1);
    }
    assert g[3] == [axes[0][1], axes[1][1]] by {
      GridStride(axes, 3, 0);
      GridStride(axes, 3, 1);
    }
  }

  /** Two axes A and B: A varies fastest, B slowest. */
  lemma TwoAxisExample<T>(a1: T, a2: T, b1: T, b2: T)
    ensures Grid([[a1, a2], [b1, b2]]) == [[a1, b1], [a2, b1], [a1, b2], [a2, b2]]
  {
    TwoByTwo([[a1, a2], [b1, b2]]);
  }

  // ---------------------------------------------------------------------
  // Every combination of axis values occurs at exactly one grid position.

  /** The axis coordinates of grid point `k`. */
  function PointIndex<T>(axes: seq<seq<T>>, k: nat): (idx: seq<nat>)
    requires k < |Grid(axes)|
    ensures InBounds(Lens(axes), idx)
  {
    GridColumns(axes);
    ProdPositive(MeshShape(axes));
    var m := Decode(MeshShape(axes), k);
    forall j | 0 <= j < |axes|
      ensures Swap01(m)[j] < |axes[j]|
    {
      Swap01At(m, j);
      Swap01At(Lens(axes), j);
    }
    Swap01(m)
  }

  /** The grid position of the point whose axis coordinates are `idx`. */
  function PointPosition<T>(axes: seq<seq<T>>, idx: seq<nat>): nat
    requires InBounds(Lens(axes), idx)
  {
    Flat(MeshShape(axes), Swap01(idx))
  }

  lemma SwapInBounds(lens: seq<nat>, idx: seq<nat>)
    requires InBounds(lens, idx)
    ensures InBounds(Swap01(lens), Swap01(idx))
  {
    forall p | 0 <= p < |lens|
      ensures Swap01(idx)[p] < Swap01(lens)[p]
    {
      Swap01At(idx, p);
      Swap01At(lens, p);
    }
  }

  /** Grid point `k` takes from every axis the value at its coordinate. */
  lemma GridPoint<T>(axes: seq<seq<T>>, k: nat)
    requires k < |Grid(axes)|
    ensures Grid(axes)[k] == Pick(axes, PointIndex(axes, k))
  {
    var idx := PointIndex(axes, k);
    GridColumns(axes);
    forall j | 0 <= j < |axes|
      ensures Grid(axes)[k][j] == axes[j][idx[j]]
    {
      GridAt(axes, k, j);
      Swap01At(Decode(MeshShape(axes), k), j);
    }
  }

  /**
    Every in-bounds combination of axis coordinates occurs in the grid, at
    the position whose coordinates are exactly that combination.
   */
  lemma EveryCombinationOnce<T>(axes: seq<seq<T>>, idx: seq<nat>)
    requires |axes| > 0 && InBounds(Lens(axes), idx)
    ensures PointPosition(axes, idx) < |Grid(axes)|
    ensures PointIndex(axes, PointPosition(axes, idx)) == idx
    ensures Grid(axes)[PointPosition(axes, idx)] == Pick(axes, idx)
  {
    var shape := MeshShape(axes);
    GridColumns(axes);
    SwapInBounds(Lens(axes), idx);
    FlatBound(shape, Swap01(idx));
    ProdPositive(shape);
    DecodeFlat(shape, Swap01(idx));
    Swap01Involutive(idx);
    GridPoint(axes, PointPosition(axes, idx));
  }

  /** Distinct grid positions carry distinct coordinate combinations. */
  lemma PositionOfPoint<T>(axes: seq<seq<T>>, k: nat)
    requires k < |Grid(axes)|
    ensures PointPosition(axes, PointIndex(axes, k)) == k
  {
    var shape := MeshShape(axes);
    GridColumns(axes);
    ProdPositive(shape);
    Swap01Involutive(Decode(shape, k));
    FlatDecode(shape, k);
  }
}
