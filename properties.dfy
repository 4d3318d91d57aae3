/** Properties that relate the passes to each other and to the shape law. */
module PoolingProperties {
  import opened Geometry
  import opened PoolingSpec

  /** `OutSize` is the number of window positions: the only count whose last
      window still fits and whose next one would not. */
  lemma OutSizeCounts(n: int, k: Pos, d: Pos, r: int)
    requires k <= n && 1 <= r
    requires (r - 1) * d + k <= n < r * d + k
    ensures r == OutSize(n, k, d)
  {
    var q := OutSize(n, k, d);
    OutSizeFits(n, k, d);
    if r < q {
      MulMono(r, q - 1, d);
    } else if q < r {
      MulMono(q, r - 1, d);
    }
  }

  // ---------------------------------------------------------------------------
  // Forward, then backward

  /** Indices written by a forward pass satisfy what the backward pass needs. */
  lemma ForwardOffsetsInRange(g: Geometry, input: seq<int>, output: seq<int>, indices: seq<int>)
    requires InputShaped(g, input) && ForwardResult(g, input, output, indices)
    ensures OffsetsInRange(g, indices)
  {
    forall k: nat, i: nat, j: nat | IsCell(g, k, i, j)
      ensures OffsetsInKernel(g, indices, k, i, j)
    {
      assert ForwardCell(g, input, output, indices, k, i, j);
      RecordedOffsetIsFirstMax(input, g, k, i, j);
    }
  }

  /** After a forward pass, the backward pass routes the gradient of every
      cell to an input element of the cell's window that holds the cell's
      output value. */
  lemma TargetHitsMax(g: Geometry, input: seq<int>, output: seq<int>, indices: seq<int>, k: nat, i: nat, j: nat)
    requires InputShaped(g, input) && ForwardResult(g, input, output, indices) && IsCell(g, k, i, j)
    ensures OffsetsInKernel(g, indices, k, i, j)
    ensures i * g.dH <= TargetRow(g, indices, k, i, j) < i * g.dH + g.kH
    ensures j * g.dW <= TargetCol(g, indices, k, i, j) < j * g.dW + g.kW
    ensures input[TargetAddr(g, indices, k, i, j)] == OutAt(g, output, k, i, j)
  {
    assert ForwardCell(g, input, output, indices, k, i, j);
    RecordedOffsetIsFirstMax(input, g, k, i, j);
    TargetInBounds(g, indices, k, i, j);
    var y0, x0 := RowOffset(input, g, k, i, j) - 1, ColOffset(input, g, k, i, j) - 1;
    WindowAddrInBounds(g, k, i, j, y0, x0);
  }

  // ---------------------------------------------------------------------------
  // Accumulation

  /** Cell (k, i, j) routes its gradient to input element (k, r, s). */
  predicate Targets(g: Geometry, indices: seq<int>, k: nat, i: nat, j: nat, r: int, s: int)
    requires g.Fits() && |indices| == 2 * g.OutNumel() && IsCell(g, k, i, j)
  {
    TargetRow(g, indices, k, i, j) == r && TargetCol(g, indices, k, i, j) == s
  }

  lemma {:induction false} RowRoutedUntargeted(g: Geometry, go: seq<int>, idx: seq<int>, k: nat, r: int, s: int, i: nat, j: nat)
    requires OutputShaped(g, go, idx) && k < g.nslices && i < g.OHeight() && j <= g.OWidth()
    requires forall j' :: 0 <= j' < j ==> !Targets(g, idx, k, i, j', r, s)
    ensures RowRouted(g, go, idx, k, r, s, i, j) == 0
  {
    if j > 0 {
      assert !Targets(g, idx, k, i, j - 1, r, s);
      RowRoutedUntargeted(g, go, idx, k, r, s, i, j - 1);
    }
  }

  /** An input element that no cell targets receives no gradient. */
  lemma {:induction false} RoutedUntargeted(g: Geometry, go: seq<int>, idx: seq<int>, k: nat, r: int, s: int, n: nat)
    requires OutputShaped(g, go, idx) && k < g.nslices && n <= g.OHeight()
    requires forall i, j :: 0 <= i < n && 0 <= j < g.OWidth() ==> !Targets(g, idx, k, i, j, r, s)
    ensures Routed(g, go, idx, k, r, s, n) == 0
  {
    if n > 0 {
      RoutedUntargeted(g, go, idx, k, r, s, n - 1);
      RowRoutedUntargeted(g, go, idx, k, r, s, n - 1, g.OWidth());
    }
  }

  /** When the stride is at least the kernel in both axes, windows do not
      overlap: no input element is the target of two different cells. */
  lemma TargetsDisjoint(g: Geometry, idx: seq<int>, k: nat, i: nat, j: nat, i': nat, j': nat, r: int, s: int)
    requires g.Fits() && |idx| == 2 * g.OutNumel() && IsCell(g, k, i, j) && IsCell(g, k, i', j')
    requires g.kH <= g.dH && g.kW <= g.dW
    requires OffsetsInKernel(g, idx, k, i, j) && OffsetsInKernel(g, idx, k, i', j')
    requires Targets(g, idx, k, i, j, r, s) && Targets(g, idx, k, i', j', r, s)
    ensures i == i' && j == j'
  {
    TargetInBounds(g, idx, k, i, j);
    TargetInBounds(g, idx, k, i', j');
    if i < i' {
      MulStep(i, i', g.dH);
    } else if i' < i {
      MulStep(i', i, g.dH);
    }
    if j < j' {
      MulStep(j, j', g.dW);
    } else if j' < j {
      MulStep(j', j, g.dW);
    }
  }

  // ---------------------------------------------------------------------------
  // Channel independence

  /** Input element (k, r, s) lies in plane k of the input. */
  lemma ElementInPlane(g: Geometry, v: seq<int>, k: nat, r: nat, s: nat)
    requires |v| == g.Numel() && k < g.nslices && r < g.iheight && s < g.iwidth
    ensures k * (g.iwidth * g.iheight) <= g.Addr(k, r, s) < k * (g.iwidth * g.iheight) + g.iwidth * g.iheight
    ensures ElementAt(g, v, k, r, s) == InPlane(g, v, k)[g.Addr(k, r, s) - k * (g.iwidth * g.iheight)]
  {
    AddrInRange(g, k, r, s);
    MulAssoc(k, g.iwidth, g.iheight);
    MulAssoc(g.nslices, g.iwidth, g.iheight);
    PlaneAt(v, k, g.nslices, g.iwidth * g.iheight, g.Addr(k, r, s));
  }

  /** Output cell (k, i, j) lies in plane k of the output, and its offsets in
      planes k and nslices + k of the indices. */
  lemma CellInPlane(g: Geometry, out: seq<int>, idx: seq<int>, k: nat, i: nat, j: nat)
    requires OutputShaped(g, out, idx) && IsCell(g, k, i, j)
    ensures var n := g.OWidth() * g.OHeight();
            |out| == g.nslices * n && |idx| == 2 * g.nslices * n &&
            k * n <= g.CellAddr(k, i, j) < k * n + n &&
            (k + g.nslices) * n <= g.ColAddr(k, i, j) < (k + g.nslices) * n + n
  {
    var ow, oh := g.OWidth(), g.OHeight();
    RadixBound(i, j, oh, ow);
    MulAssoc(k, ow, oh);
    MulAssoc(k + g.nslices, ow, oh);
    MulAssoc(g.nslices, ow, oh);
    assert oh * ow == ow * oh;
  }

  /** The forward result for a cell of plane k depends only on plane k of the input. */
  lemma WindowChannelLocal(g: Geometry, in1: seq<int>, in2: seq<int>, k: nat, i: nat, j: nat)
    requires InputShaped(g, in1) && InputShaped(g, in2) && IsCell(g, k, i, j)
    requires InPlane(g, in1, k) == InPlane(g, in2, k)
    ensures Window(in1, g, k, i, j) == Window(in2, g, k, i, j)
    ensures CellMax(in1, g, k, i, j) == CellMax(in2, g, k, i, j)
    ensures RowOffset(in1, g, k, i, j) == RowOffset(in2, g, k, i, j)
    ensures ColOffset(in1, g, k, i, j) == ColOffset(in2, g, k, i, j)
  {
    var w1, w2 := Window(in1, g, k, i, j), Window(in2, g, k, i, j);
    forall t | 0 <= t < g.kH * g.kW
      ensures w1[t] == w2[t]
    {
      WindowElementLocal(g, in1, in2, k, i, j, t);
    }
  }

  lemma WindowElementLocal(g: Geometry, in1: seq<int>, in2: seq<int>, k: nat, i: nat, j: nat, t: nat)
    requires InputShaped(g, in1) && InputShaped(g, in2) && IsCell(g, k, i, j) && t < g.kH * g.kW
    requires InPlane(g, in1, k) == InPlane(g, in2, k)
    ensures Window(in1, g, k, i, j)[t] == Window(in2, g, k, i, j)[t]
  {
    RowMajorSplit(t, g.kH, g.kW);
    var y, x := t / g.kW, t % g.kW;
    WindowAt(in1, g, k, i, j, y, x);
    WindowAt(in2, g, k, i, j, y, x);
    WindowAddrInBounds(g, k, i, j, y, x);
    ElementInPlane(g, in1, k, i * g.dH + y, j * g.dW + x);
    ElementInPlane(g, in2, k, i * g.dH + y, j * g.dW + x);
  }

  /** The gradient routed within plane k depends only on plane k of the
      output gradient and planes k and nslices + k of the indices. */
  lemma {:induction false} RoutedChannelLocal(g: Geometry, go1: seq<int>, idx1: seq<int>, go2: seq<int>, idx2: seq<int>,
                                              k: nat, r: int, s: int, n: nat)
    requires OutputShaped(g, go1, idx1) && OutputShaped(g, go2, idx2) && k < g.nslices && n <= g.OHeight()
    requires OutPlane(g, go1, k) == OutPlane(g, go2, k)
    requires OffsetPlane(g, idx1, k) == OffsetPlane(g, idx2, k)
    requires OffsetPlane(g, idx1, k + g.nslices) == OffsetPlane(g, idx2, k + g.nslices)
    ensures Routed(g, go1, idx1, k, r, s, n) == Routed(g, go2, idx2, k, r, s, n)
  {
    if n > 0 {
      RoutedChannelLocal(g, go1, idx1, go2, idx2, k, r, s, n - 1);
      RowRoutedChannelLocal(g, go1, idx1, go2, idx2, k, r, s, n - 1, g.OWidth());
    }
  }

  lemma {:induction false} RowRoutedChannelLocal(g: Geometry, go1: seq<int>, idx1: seq<int>, go2: seq<int>, idx2: seq<int>,
                                                 k: nat, r: int, s: int, i: nat, j: nat)
    requires OutputShaped(g, go1, idx1) && OutputShaped(g, go2, idx2)
    requires k < g.nslices && i < g.OHeight() && j <= g.OWidth()
    requires OutPlane(g, go1, k) == OutPlane(g, go2, k)
    requires OffsetPlane(g, idx1, k) == OffsetPlane(g, idx2, k)
    requires OffsetPlane(g, idx1, k + g.nslices) == OffsetPlane(g, idx2, k + g.nslices)
    ensures RowRouted(g, go1, idx1, k, r, s, i, j) == RowRouted(g, go2, idx2, k, r, s, i, j)
  {
    if j > 0 {
      RowRoutedChannelLocal(g, go1, idx1, go2, idx2, k, r, s, i, j - 1);
      var m := g.OWidth() * g.OHeight();
      CellInPlane(g, go1, idx1, k, i, j - 1);
      var c, c' := g.CellAddr(k, i, j - 1), g.ColAddr(k, i, j - 1);
      PlaneAt(go1, k, g.nslices, m, c);
      PlaneAt(go2, k, g.nslices, m, c);
      PlaneAt(idx1, k, 2 * g.nslices, m, c);
      PlaneAt(idx2, k, 2 * g.nslices, m, c);
      PlaneAt(idx1, k + g.nslices, 2 * g.nslices, m, c');
      PlaneAt(idx2, k + g.nslices, 2 * g.nslices, m, c');
    }
  }
}
