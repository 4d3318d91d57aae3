/** What the forward and backward passes compute, cell by cell.

    Element values are integers: the pooling logic only compares and adds
    them. */
module PoolingSpec {
  import opened Geometry
  import opened ArgMax

  /** Well-formed flat buffers for geometry `g`. */
  predicate InputShaped(g: Geometry, input: seq<int>) {
    g.Fits() && |input| == g.Numel()
  }

  predicate OutputShaped(g: Geometry, output: seq<int>, indices: seq<int>) {
    g.Fits() && |output| == g.OutNumel() && |indices| == 2 * g.OutNumel()
  }

  predicate IsCell(g: Geometry, k: int, i: int, j: int)
    requires g.Fits()
  {
    0 <= k < g.nslices && 0 <= i < g.OHeight() && 0 <= j < g.OWidth()
  }

  // ---------------------------------------------------------------------------
  // Forward pass

  /** The window of output cell (k, i, j), in the order the scan visits it:
      element `y * kW + x` is input element (k, i*dH + y, j*dW + x). */
  function Window(input: seq<int>, g: Geometry, k: nat, i: nat, j: nat): (w: seq<int>)
    requires InputShaped(g, input) && IsCell(g, k, i, j)
    ensures |w| == g.kH * g.kW
  {
    seq(g.kH * g.kW, t requires 0 <= t < g.kH * g.kW =>
      RowMajorSplit(t, g.kH, g.kW);
      WindowAddrInBounds(g, k, i, j, t / g.kW, t % g.kW);
      input[g.WindowAddr(k, i, j, t / g.kW, t % g.kW)])
  }

  lemma WindowAt(input: seq<int>, g: Geometry, k: nat, i: nat, j: nat, y: nat, x: nat)
    requires InputShaped(g, input) && IsCell(g, k, i, j) && y < g.kH && x < g.kW
    ensures 0 <= y * g.kW + x < g.kH * g.kW &&
            0 <= g.WindowAddr(k, i, j, y, x) < |input| &&
            Window(input, g, k, i, j)[y * g.kW + x] == input[g.WindowAddr(k, i, j, y, x)]
  {
    var t := y * g.kW + x;
    RadixBound(y, x, g.kH, g.kW);
    DivModRowMajor(y, x, g.kW);
    assert t / g.kW == y && t % g.kW == x;
    WindowAddrInBounds(g, k, i, j, y, x);
    assert Window(input, g, k, i, j)[t] == input[g.WindowAddr(k, i, j, t / g.kW, t % g.kW)];
  }

  /** Scan position of the value the forward pass keeps for cell (k, i, j). */
  function CellArgMax(input: seq<int>, g: Geometry, k: nat, i: nat, j: nat): (t: nat)
    requires InputShaped(g, input) && IsCell(g, k, i, j)
    ensures IsFirstArgMax(Window(input, g, k, i, j), t)
  {
    var w := Window(input, g, k, i, j);
    FirstArgMaxIsFirst(w);
    FirstArgMax(w)
  }

  /** Value of output cell (k, i, j): the largest element of its window. */
  function CellMax(input: seq<int>, g: Geometry, k: nat, i: nat, j: nat): (m: int)
    requires InputShaped(g, input) && IsCell(g, k, i, j)
    ensures m in Window(input, g, k, i, j)
    ensures forall v :: v in Window(input, g, k, i, j) ==> v <= m
  {
    var w := Window(input, g, k, i, j);
    var t := CellArgMax(input, g, k, i, j);
    assert forall v :: v in w ==> exists u :: 0 <= u < |w| && w[u] == v;
    w[t]
  }

  /** The 1-based row offset stored in plane 0 of the indices. */
  function RowOffset(input: seq<int>, g: Geometry, k: nat, i: nat, j: nat): (r: int)
    requires InputShaped(g, input) && IsCell(g, k, i, j)
    ensures 1 <= r <= g.kH
    // window row r - 1 holds the kept scan position
    ensures (r - 1) * g.kW <= CellArgMax(input, g, k, i, j) < r * g.kW
  {
    var t := CellArgMax(input, g, k, i, j);
    RowMajorSplit(t, g.kH, g.kW);
    assert (t / g.kW + 1) * g.kW == (t / g.kW) * g.kW + g.kW;
    t / g.kW + 1
  }

  /** The 1-based column offset stored in plane 1 of the indices. */
  function ColOffset(input: seq<int>, g: Geometry, k: nat, i: nat, j: nat): (c: int)
    requires InputShaped(g, input) && IsCell(g, k, i, j)
    ensures 1 <= c <= g.kW
    // the two offsets decode back to the kept scan position
    ensures (RowOffset(input, g, k, i, j) - 1) * g.kW + (c - 1) == CellArgMax(input, g, k, i, j)
  {
    var t := CellArgMax(input, g, k, i, j);
    RowMajorSplit(t, g.kH, g.kW);
    t % g.kW + 1
  }

  /** The recorded offsets lie inside the kernel, point at the window's
      maximum, and every window element before them in row-major order is
      strictly smaller: the first occurrence wins a tie. */
  lemma RecordedOffsetIsFirstMax(input: seq<int>, g: Geometry, k: nat, i: nat, j: nat)
    requires InputShaped(g, input) && IsCell(g, k, i, j)
    ensures 1 <= RowOffset(input, g, k, i, j) <= g.kH
    ensures 1 <= ColOffset(input, g, k, i, j) <= g.kW
    ensures var y0, x0 := RowOffset(input, g, k, i, j) - 1, ColOffset(input, g, k, i, j) - 1;
            0 <= g.WindowAddr(k, i, j, y0, x0) < |input| &&
            input[g.WindowAddr(k, i, j, y0, x0)] == CellMax(input, g, k, i, j)
    ensures forall y, x :: 0 <= y < g.kH && 0 <= x < g.kW ==>
              0 <= g.WindowAddr(k, i, j, y, x) < |input| &&
              input[g.WindowAddr(k, i, j, y, x)] <= CellMax(input, g, k, i, j)
    ensures forall y, x ::
              0 <= y < g.kH && 0 <= x < g.kW &&
              (y < RowOffset(input, g, k, i, j) - 1 ||
               (y == RowOffset(input, g, k, i, j) - 1 && x < ColOffset(input, g, k, i, j) - 1)) ==>
              0 <= g.WindowAddr(k, i, j, y, x) < |input| &&
              input[g.WindowAddr(k, i, j, y, x)] < CellMax(input, g, k, i, j)
  {
    var w := Window(input, g, k, i, j);
    var t := CellArgMax(input, g, k, i, j);
    var m := CellMax(input, g, k, i, j);
    assert m == w[t];
    var y0, x0 := t / g.kW, t % g.kW;
    assert RowOffset(input, g, k, i, j) == y0 + 1 && ColOffset(input, g, k, i, j) == x0 + 1;
    RowMajorSplit(t, g.kH, g.kW);
    WindowAt(input, g, k, i, j, y0, x0);
    forall y, x | 0 <= y < g.kH && 0 <= x < g.kW
      ensures 0 <= g.WindowAddr(k, i, j, y, x) < |input|
      ensures input[g.WindowAddr(k, i, j, y, x)] <= m
      ensures (y < y0 || (y == y0 && x < x0)) ==> input[g.WindowAddr(k, i, j, y, x)] < m
    {
      WindowAt(input, g, k, i, j, y, x);
      if y < y0 || (y == y0 && x < x0) {
        WindowBefore(y, x, y0, x0, g.kW);
      }
    }
  }

  /** Row-major order of window positions is the order of their scan positions. */
  lemma WindowBefore(y: nat, x: nat, y0: nat, x0: nat, n: Pos)
    requires x < n && x0 < n
    requires y < y0 || (y == y0 && x < x0)
    ensures y * n + x < y0 * n + x0
  {
    if y < y0 {
      RadixBound(y, x, y0, n);
    }
  }

  /** Cell (k, i, j) of the output and index buffers holds what the forward pass computes for it. */
  ghost predicate ForwardCell(g: Geometry, input: seq<int>, output: seq<int>, indices: seq<int>, k: nat, i: nat, j: nat)
    requires InputShaped(g, input) && OutputShaped(g, output, indices) && IsCell(g, k, i, j)
  {
    CellAddrInRange(g, k, i, j);
    output[g.CellAddr(k, i, j)] == CellMax(input, g, k, i, j) &&
    indices[g.CellAddr(k, i, j)] == RowOffset(input, g, k, i, j) &&
    indices[g.ColAddr(k, i, j)] == ColOffset(input, g, k, i, j)
  }

  /** The buffers a complete forward pass over `input` leaves behind. */
  ghost predicate ForwardResult(g: Geometry, input: seq<int>, output: seq<int>, indices: seq<int>)
    requires InputShaped(g, input)
  {
    OutputShaped(g, output, indices) &&
    forall k: nat, i: nat, j: nat :: IsCell(g, k, i, j) ==> ForwardCell(g, input, output, indices, k, i, j)
  }

  // ---------------------------------------------------------------------------
  // Backward pass

  /** Absolute input row that the indices route cell (k, i, j) to. */
  function TargetRow(g: Geometry, indices: seq<int>, k: nat, i: nat, j: nat): int
    requires g.Fits() && |indices| == 2 * g.OutNumel() && IsCell(g, k, i, j)
  {
    CellAddrInRange(g, k, i, j);
    indices[g.CellAddr(k, i, j)] - 1 + i * g.dH
  }

  /** Absolute input column that the indices route cell (k, i, j) to. */
  function TargetCol(g: Geometry, indices: seq<int>, k: nat, i: nat, j: nat): int
    requires g.Fits() && |indices| == 2 * g.OutNumel() && IsCell(g, k, i, j)
  {
    CellAddrInRange(g, k, i, j);
    indices[g.ColAddr(k, i, j)] - 1 + j * g.dW
  }

  /** Both offsets of cell (k, i, j) lie within the kernel. */
  ghost predicate OffsetsInKernel(g: Geometry, indices: seq<int>, k: nat, i: nat, j: nat)
    requires g.Fits() && |indices| == 2 * g.OutNumel() && IsCell(g, k, i, j)
  {
    CellAddrInRange(g, k, i, j);
    1 <= indices[g.CellAddr(k, i, j)] <= g.kH && 1 <= indices[g.ColAddr(k, i, j)] <= g.kW
  }

  /** Every stored offset lies within the kernel: what the backward pass relies on. */
  ghost predicate OffsetsInRange(g: Geometry, indices: seq<int>)
    requires g.Fits() && |indices| == 2 * g.OutNumel()
  {
    forall k: nat, i: nat, j: nat :: IsCell(g, k, i, j) ==> OffsetsInKernel(g, indices, k, i, j)
  }

  /** Every cell whose offsets lie within the kernel routes its gradient to an
      element of its own window, which lies inside the input plane. */
  lemma TargetInBounds(g: Geometry, indices: seq<int>, k: nat, i: nat, j: nat)
    requires g.Fits() && |indices| == 2 * g.OutNumel() && IsCell(g, k, i, j)
    requires OffsetsInKernel(g, indices, k, i, j)
    ensures i * g.dH <= TargetRow(g, indices, k, i, j) < i * g.dH + g.kH
    ensures j * g.dW <= TargetCol(g, indices, k, i, j) < j * g.dW + g.kW
    ensures 0 <= TargetRow(g, indices, k, i, j) < g.iheight
    ensures 0 <= TargetCol(g, indices, k, i, j) < g.iwidth
  {
    CellAddrInRange(g, k, i, j);
    var y, x := indices[g.CellAddr(k, i, j)] - 1, indices[g.ColAddr(k, i, j)] - 1;
    WindowAddrInBounds(g, k, i, j, y, x);
  }

  /** Flat address that the indices route cell (k, i, j) to: always inside plane k. */
  function TargetAddr(g: Geometry, indices: seq<int>, k: nat, i: nat, j: nat): (p: int)
    requires g.Fits() && |indices| == 2 * g.OutNumel() && IsCell(g, k, i, j)
    requires OffsetsInKernel(g, indices, k, i, j)
    ensures 0 <= p < g.Numel()
    ensures k * g.iwidth * g.iheight <= p < k * g.iwidth * g.iheight + g.iwidth * g.iheight
  {
    TargetInBounds(g, indices, k, i, j);
    AddrInRange(g, k, TargetRow(g, indices, k, i, j), TargetCol(g, indices, k, i, j));
    g.Addr(k, TargetRow(g, indices, k, i, j), TargetCol(g, indices, k, i, j))
  }

  /** Cell (k, i, j) of an output-shaped buffer. */
  function OutAt(g: Geometry, v: seq<int>, k: nat, i: nat, j: nat): int
    requires g.Fits() && |v| == g.OutNumel() && IsCell(g, k, i, j)
  {
    CellAddrInRange(g, k, i, j);
    v[g.CellAddr(k, i, j)]
  }

  /** Gradient that cells (k, i, 0 .. j-1) route to input element (k, r, s). */
  function RowRouted(g: Geometry, gradOutput: seq<int>, indices: seq<int>, k: nat, r: int, s: int, i: nat, j: nat): int
    requires OutputShaped(g, gradOutput, indices)
    requires k < g.nslices && i < g.OHeight() && j <= g.OWidth()
  {
    if j == 0 then 0
    else
      RowRouted(g, gradOutput, indices, k, r, s, i, j - 1) +
      if TargetRow(g, indices, k, i, j - 1) == r && TargetCol(g, indices, k, i, j - 1) == s
      then OutAt(g, gradOutput, k, i, j - 1) else 0
  }

  /** Gradient that the cells of output rows 0 .. n-1 of plane k route to
      input element (k, r, s): the sum, with repetitions, over every cell whose
      recorded maximum sits at (r, s). */
  function Routed(g: Geometry, gradOutput: seq<int>, indices: seq<int>, k: nat, r: int, s: int, n: nat): int
    requires OutputShaped(g, gradOutput, indices)
    requires k < g.nslices && n <= g.OHeight()
  {
    if n == 0 then 0
    else Routed(g, gradOutput, indices, k, r, s, n - 1) + RowRouted(g, gradOutput, indices, k, r, s, n - 1, g.OWidth())
  }

  /** Element (k, r, s) of an input-shaped buffer. */
  function ElementAt(g: Geometry, v: seq<int>, k: nat, r: nat, s: nat): int
    requires |v| == g.Numel() && k < g.nslices && r < g.iheight && s < g.iwidth
  {
    AddrInRange(g, k, r, s);
    v[g.Addr(k, r, s)]
  }

  /** Element (k, r, s) of the input gradient holds all the gradient routed to it. */
  ghost predicate BackwardElem(g: Geometry, gradOutput: seq<int>, indices: seq<int>, gradInput: seq<int>, k: nat, r: nat, s: nat)
    requires OutputShaped(g, gradOutput, indices) && |gradInput| == g.Numel()
    requires k < g.nslices && r < g.iheight && s < g.iwidth
  {
    ElementAt(g, gradInput, k, r, s) == Routed(g, gradOutput, indices, k, r, s, g.OHeight())
  }

  /** The input gradient a complete backward pass leaves behind. */
  ghost predicate BackwardResult(g: Geometry, gradOutput: seq<int>, indices: seq<int>, gradInput: seq<int>)
    requires OutputShaped(g, gradOutput, indices)
  {
    |gradInput| == g.Numel() &&
    forall k: nat, r: nat, s: nat :: k < g.nslices && r < g.iheight && s < g.iwidth ==>
      BackwardElem(g, gradOutput, indices, gradInput, k, r, s)
  }

  /** Sum of the output gradient over cells (k, i, 0 .. j-1). */
  function RowGradSum(g: Geometry, gradOutput: seq<int>, k: nat, i: nat, j: nat): int
    requires g.Fits() && |gradOutput| == g.OutNumel()
    requires k < g.nslices && i < g.OHeight() && j <= g.OWidth()
  {
    if j == 0 then 0
    else
      RowGradSum(g, gradOutput, k, i, j - 1) + OutAt(g, gradOutput, k, i, j - 1)
  }

  /** Sum of the output gradient over the cells of output rows 0 .. n-1 of plane k. */
  function GradSum(g: Geometry, gradOutput: seq<int>, k: nat, n: nat): int
    requires g.Fits() && |gradOutput| == g.OutNumel()
    requires k < g.nslices && n <= g.OHeight()
  {
    if n == 0 then 0
    else GradSum(g, gradOutput, k, n - 1) + RowGradSum(g, gradOutput, k, n - 1, g.OWidth())
  }

  /** Plane k of a buffer made of `count` planes of `n` elements each. */
  function Plane(v: seq<int>, k: nat, count: nat, n: nat): (p: seq<int>)
    requires k < count && |v| == count * n
    ensures |p| == n
  {
    MulMono(k + 1, count, n);
    v[k * n .. k * n + n]
  }

  /** Plane k of an input-shaped buffer. */
  function InPlane(g: Geometry, v: seq<int>, k: nat): (p: seq<int>)
    requires |v| == g.Numel() && k < g.nslices
    ensures |p| == g.iwidth * g.iheight
  {
    MulAssoc(g.nslices, g.iwidth, g.iheight);
    Plane(v, k, g.nslices, g.iwidth * g.iheight)
  }

  /** Plane k of an output-shaped buffer. */
  function OutPlane(g: Geometry, v: seq<int>, k: nat): (p: seq<int>)
    requires g.Fits() && |v| == g.OutNumel() && k < g.nslices
    ensures |p| == g.OWidth() * g.OHeight()
  {
    MulAssoc(g.nslices, g.OWidth(), g.OHeight());
    Plane(v, k, g.nslices, g.OWidth() * g.OHeight())
  }

  /** Plane q of the index buffer: row offsets of plane q for q < nslices,
      column offsets of plane q - nslices otherwise. */
  function OffsetPlane(g: Geometry, indices: seq<int>, q: nat): (p: seq<int>)
    requires g.Fits() && |indices| == 2 * g.OutNumel() && q < 2 * g.nslices
    ensures |p| == g.OWidth() * g.OHeight()
  {
    MulAssoc(2 * g.nslices, g.OWidth(), g.OHeight());
    assert 2 * g.OutNumel() == 2 * g.nslices * g.OWidth() * g.OHeight();
    Plane(indices, q, 2 * g.nslices, g.OWidth() * g.OHeight())
  }

  /** Element `q` of the buffer, seen through its plane. */
  lemma PlaneAt(v: seq<int>, k: nat, count: nat, n: nat, q: int)
    requires k < count && |v| == count * n && k * n <= q < k * n + n
    ensures 0 <= q < |v| && Plane(v, k, count, n)[q - k * n] == v[q]
  {
    MulStep(k, count, n);
  }

  /** Sum of a sequence. */
  function Sum(s: seq<int>): int {
    if |s| == 0 then 0 else Sum(s[..|s| - 1]) + s[|s| - 1]
  }

  lemma SumAppend(s: seq<int>, v: int)
    ensures Sum(s + [v]) == Sum(s) + v
  {
    assert (s + [v])[..|s|] == s;
  }

  lemma {:induction false} SumZeros(s: seq<int>)
    requires forall q :: 0 <= q < |s| ==> s[q] == 0
    ensures Sum(s) == 0
  {
    if |s| > 0 {
      SumZeros(s[..|s| - 1]);
    }
  }

  /** A plane of an all-zero buffer sums to zero. */
  lemma PlaneZeros(v: seq<int>, k: nat, count: nat, n: nat)
    requires k < count && |v| == count * n
    requires forall q :: 0 <= q < |v| ==> v[q] == 0
    ensures Sum(Plane(v, k, count, n)) == 0
  {
    MulStep(k, count, n);
    SumZeros(Plane(v, k, count, n));
  }

  /** Adding `v` to one element adds `v` to the sum. */
  lemma {:induction false} SumAddAt(s: seq<int>, p: nat, v: int)
    requires p < |s|
    ensures Sum(s[p := s[p] + v]) == Sum(s) + v
  {
    var s' := s[p := s[p] + v];
    if p < |s| - 1 {
      assert s'[..|s| - 1] == s[..|s| - 1][p := s[p] + v];
      SumAddAt(s[..|s| - 1], p, v);
    } else {
      assert s'[..|s| - 1] == s[..|s| - 1];
    }
  }

  /** Adding `v` at a position inside a slice adds `v` to the slice's sum. */
  lemma SliceAddAt(s0: seq<int>, s1: seq<int>, lo: nat, hi: nat, p: int, v: int)
    requires lo <= p < hi <= |s0| && s1 == s0[p := s0[p] + v]
    ensures Sum(s1[lo..hi]) == Sum(s0[lo..hi]) + v
  {
    assert s1[lo..hi] == s0[lo..hi][p - lo := s0[p] + v];
    SumAddAt(s0[lo..hi], p - lo, v);
  }

  /** Adding `d` to an element of plane k adds `d` to that plane's sum and
      leaves every other plane as it was. */
  lemma PlaneAddAt(v0: seq<int>, v1: seq<int>, count: nat, n: nat, k: nat, p: int, d: int)
    requires k < count && |v0| == count * n
    requires k * n <= p < k * n + n && p < |v0| && v1 == v0[p := v0[p] + d]
    ensures Sum(Plane(v1, k, count, n)) == Sum(Plane(v0, k, count, n)) + d
    ensures forall k' :: 0 <= k' < count && k' != k ==> Plane(v1, k', count, n) == Plane(v0, k', count, n)
  {
    MulStep(k, count, n);
    var lo := k * n;
    SliceAddAt(v0, v1, lo, lo + n, p, d);
    forall k' | 0 <= k' < count && k' != k
      ensures Plane(v1, k', count, n) == Plane(v0, k', count, n)
    {
      var lo' := k' * n;
      if k' < k {
        MulStep(k', k, n);
      } else {
        MulStep(k, k', n);
      }
      MulStep(k', count, n);
      assert v1[lo'..lo' + n] == v0[lo'..lo' + n];
    }
  }

  /** A sum over a slice splits at any point in between. */
  lemma {:induction false} SumSplit(s: seq<int>, a: nat, b: nat, c: nat)
    requires a <= b <= c <= |s|
    ensures Sum(s[a..c]) == Sum(s[a..b]) + Sum(s[b..c])
  {
    if c == b {
      assert s[a..c] == s[a..b];
    } else {
      SumSplit(s, a, b, c - 1);
      assert s[a..c][..c - 1 - a] == s[a..c - 1];
      assert s[b..c][..c - 1 - b] == s[b..c - 1];
    }
  }

  /** The cell-by-cell sum along output row i is the sum of that row's slice. */
  lemma {:induction false} RowGradSumIsSlice(g: Geometry, go: seq<int>, k: nat, i: nat, j: nat)
    requires g.Fits() && |go| == g.OutNumel() && k < g.nslices && i < g.OHeight() && j <= g.OWidth()
    ensures var b := k * (g.OWidth() * g.OHeight()) + i * g.OWidth();
            0 <= b <= b + j <= |go| && RowGradSum(g, go, k, i, j) == Sum(go[b .. b + j])
  {
    var b := k * (g.OWidth() * g.OHeight()) + i * g.OWidth();
    MulAssoc(k, g.OWidth(), g.OHeight());
    CellAddrInRange(g, k, i, 0);
    if j > 0 {
      RowGradSumIsSlice(g, go, k, i, j - 1);
      CellAddrInRange(g, k, i, j - 1);
      assert go[b .. b + j][..j - 1] == go[b .. b + j - 1];
    }
  }

  /** The cell-by-cell sum over output rows 0 .. n-1 is the sum of their slice. */
  lemma {:induction false} GradSumIsSlice(g: Geometry, go: seq<int>, k: nat, n: nat)
    requires g.Fits() && |go| == g.OutNumel() && k < g.nslices && n <= g.OHeight()
    ensures var b := k * (g.OWidth() * g.OHeight());
            0 <= b <= b + n * g.OWidth() <= |go| && GradSum(g, go, k, n) == Sum(go[b .. b + n * g.OWidth()])
  {
    var b := k * (g.OWidth() * g.OHeight());
    if n == 0 {
      MulAssoc(k, g.OWidth(), g.OHeight());
      CellAddrInRange(g, k, 0, 0);
    } else {
      GradSumIsSlice(g, go, k, n - 1);
      RowGradSumIsSlice(g, go, k, n - 1, g.OWidth());
      assert (n - 1) * g.OWidth() + g.OWidth() == n * g.OWidth();
      SumSplit(go, b, b + (n - 1) * g.OWidth(), b + n * g.OWidth());
    }
  }

  /** The gradient sum over every cell of plane k is the sum of that plane. */
  lemma GradSumIsPlaneSum(g: Geometry, go: seq<int>, k: nat)
    requires g.Fits() && |go| == g.OutNumel() && k < g.nslices
    ensures GradSum(g, go, k, g.OHeight()) == Sum(OutPlane(g, go, k))
  {
    MulAssoc(g.nslices, g.OWidth(), g.OHeight());
    GradSumIsSlice(g, go, k, g.OHeight());
    assert g.OHeight() * g.OWidth() == g.OWidth() * g.OHeight();
  }
}
