/** How far each pass has got.

    Both passes visit output cells in the same order: plane by plane, row by
    row, column by column. The forward part describes the output and index
    buffers once every cell before (k, i, j) has been pooled.

    The backward pass visits the cells of plane 0 row by row, then those of plane 1,
    and so on, adding each cell's gradient to the input element its recorded
    maximum came from. `RowsDone` describes the input gradient at the start of
    an output row, `CellsDone` inside one; the lemmas carry the description
    from one visited cell to the next. */
module Progress {
  import opened Geometry
  import opened PoolingSpec
  import opened PoolingProperties

  // ---------------------------------------------------------------------------
  // Forward pass

  /** Cell (k', i', j') comes before cell (k, i, j) in the order the passes visit cells. */
  predicate LexBefore(k': int, i': int, j': int, k: int, i: int, j: int) {
    k' < k || (k' == k && (i' < i || (i' == i && j' < j)))
  }

  /** Every cell visited before (k, i, j) holds its pooled value and offsets. */
  ghost predicate PooledBefore(g: Geometry, input: seq<int>, output: seq<int>, indices: seq<int>, k: nat, i: nat, j: nat)
    requires InputShaped(g, input) && OutputShaped(g, output, indices)
  {
    forall k': nat, i': nat, j': nat :: IsCell(g, k', i', j') && LexBefore(k', i', j', k, i, j) ==>
      ForwardCell(g, input, output, indices, k', i', j')
  }

  /** Pooling cell (k, i, j): writing its maximum and its two offsets
      disturbs no cell pooled earlier. */
  lemma PoolStep(g: Geometry, input: seq<int>, out0: seq<int>, ind0: seq<int>, out1: seq<int>, ind1: seq<int>,
                 k: nat, i: nat, j: nat, p: int, q: int)
    requires InputShaped(g, input) && OutputShaped(g, out0, ind0) && IsCell(g, k, i, j)
    requires PooledBefore(g, input, out0, ind0, k, i, j)
    requires p == g.CellAddr(k, i, j) && q == g.ColAddr(k, i, j)
    requires 0 <= p < |out0| && 0 <= q < |ind0|
    requires out1 == out0[p := CellMax(input, g, k, i, j)]
    requires ind1 == ind0[p := RowOffset(input, g, k, i, j)][q := ColOffset(input, g, k, i, j)]
    ensures OutputShaped(g, out1, ind1)
    ensures PooledBefore(g, input, out1, ind1, k, i, j + 1)
  {
    CellAddrInRange(g, k, i, j);
    forall k': nat, i': nat, j': nat | IsCell(g, k', i', j') && LexBefore(k', i', j', k, i, j + 1)
      ensures ForwardCell(g, input, out1, ind1, k', i', j')
    {
      CellAddrInRange(g, k', i', j');
      if (k', i', j') != (k, i, j) {
        if g.CellAddr(k', i', j') == g.CellAddr(k, i, j) {
          CellAddrInjective(g, k', i', j', k, i, j);
        }
        assert ForwardCell(g, input, out0, ind0, k', i', j');
      }
    }
  }

  /** `v1` equals `v0` everywhere outside the slices [a, a + n) and [b, b + n). */
  ghost predicate SameOutside(v0: seq<int>, v1: seq<int>, a: int, b: int, n: int) {
    |v0| == |v1| &&
    forall q :: 0 <= q < |v0| && !(a <= q < a + n) && !(b <= q < b + n) ==> v0[q] == v1[q]
  }

  /** From (out0, ind0) to (out1, ind1) only output plane k and index planes
      k and nslices + k have changed. */
  ghost predicate OnlyPlaneWritten(g: Geometry, out0: seq<int>, ind0: seq<int>, out1: seq<int>, ind1: seq<int>, k: nat)
    requires g.Fits()
  {
    var n := g.OWidth() * g.OHeight();
    SameOutside(out0, out1, k * n, k * n, n) && SameOutside(ind0, ind1, k * n, (k + g.nslices) * n, n)
  }

  /** The three writes for cell (k, i, j) stay inside plane k's slices. */
  lemma PoolStepFrame(g: Geometry, out00: seq<int>, ind00: seq<int>, out0: seq<int>, ind0: seq<int>,
                      out1: seq<int>, ind1: seq<int>, k: nat, i: nat, j: nat, p: int, q: int, v: int, r: int, c: int)
    requires OutputShaped(g, out0, ind0) && IsCell(g, k, i, j)
    requires OnlyPlaneWritten(g, out00, ind00, out0, ind0, k)
    requires p == g.CellAddr(k, i, j) && q == g.ColAddr(k, i, j)
    requires 0 <= p < |out0| && 0 <= q < |ind0|
    requires out1 == out0[p := v] && ind1 == ind0[p := r][q := c]
    ensures OnlyPlaneWritten(g, out00, ind00, out1, ind1, k)
  {
    CellInPlane(g, out0, ind0, k, i, j);
  }

  /** Moving to the next output row. */
  lemma PoolRowEnd(g: Geometry, input: seq<int>, output: seq<int>, indices: seq<int>, k: nat, i: nat)
    requires InputShaped(g, input) && OutputShaped(g, output, indices)
    requires PooledBefore(g, input, output, indices, k, i, g.OWidth())
    ensures PooledBefore(g, input, output, indices, k, i + 1, 0)
  {
  }

  /** Moving to the next plane. */
  lemma PoolPlaneEnd(g: Geometry, input: seq<int>, output: seq<int>, indices: seq<int>, k: nat)
    requires InputShaped(g, input) && OutputShaped(g, output, indices)
    requires PooledBefore(g, input, output, indices, k, g.OHeight(), 0)
    ensures PooledBefore(g, input, output, indices, k + 1, 0, 0)
  {
  }

  /** After the last plane every cell is pooled. */
  lemma PoolEnd(g: Geometry, input: seq<int>, output: seq<int>, indices: seq<int>)
    requires InputShaped(g, input) && OutputShaped(g, output, indices)
    requires PooledBefore(g, input, output, indices, g.nslices, 0, 0)
    ensures ForwardResult(g, input, output, indices)
  {
  }

  // ---------------------------------------------------------------------------
  // Backward pass

  /** Planes before k hold all their routed gradient, plane k the gradient of
      output rows 0 .. i-1, and later planes are still zero; each plane's sum
      is the sum of the output gradient visited so far in that plane. */
  ghost predicate RowsDone(g: Geometry, go: seq<int>, idx: seq<int>, gi: seq<int>, k: nat, i: nat)
    requires OutputShaped(g, go, idx) && |gi| == g.Numel()
    requires k <= g.nslices && i <= g.OHeight()
  {
    (forall k': nat, r: nat, s: nat :: k' < g.nslices && r < g.iheight && s < g.iwidth ==>
       ElementAt(g, gi, k', r, s) ==
         if k' < k then Routed(g, go, idx, k', r, s, g.OHeight())
         else if k' == k then Routed(g, go, idx, k', r, s, i)
         else 0) &&
    (forall k' :: 0 <= k' < g.nslices ==>
       Sum(Plane(gi, k', g.nslices, g.iwidth * g.iheight)) ==
         if k' < k then GradSum(g, go, k', g.OHeight())
         else if k' == k then GradSum(g, go, k', i)
         else 0)
  }

  /** As `RowsDone`, with cells (k, i, 0 .. j-1) of the current row visited too. */
  ghost predicate CellsDone(g: Geometry, go: seq<int>, idx: seq<int>, gi: seq<int>, k: nat, i: nat, j: nat)
    requires OutputShaped(g, go, idx) && |gi| == g.Numel()
    requires k < g.nslices && i < g.OHeight() && j <= g.OWidth()
  {
    (forall k': nat, r: nat, s: nat :: k' < g.nslices && r < g.iheight && s < g.iwidth ==>
       ElementAt(g, gi, k', r, s) ==
         if k' < k then Routed(g, go, idx, k', r, s, g.OHeight())
         else if k' == k then Routed(g, go, idx, k', r, s, i) + RowRouted(g, go, idx, k', r, s, i, j)
         else 0) &&
    (forall k' :: 0 <= k' < g.nslices ==>
       Sum(Plane(gi, k', g.nslices, g.iwidth * g.iheight)) ==
         if k' < k then GradSum(g, go, k', g.OHeight())
         else if k' == k then GradSum(g, go, k', i) + RowGradSum(g, go, k', i, j)
         else 0)
  }

  /** A zero-filled input gradient is the state before any cell is visited. */
  lemma ScatterBegin(g: Geometry, go: seq<int>, idx: seq<int>, gi: seq<int>)
    requires OutputShaped(g, go, idx) && |gi| == g.Numel()
    requires forall q :: 0 <= q < |gi| ==> gi[q] == 0
    ensures RowsDone(g, go, idx, gi, 0, 0)
  {
    forall k': nat, r: nat, s: nat | k' < g.nslices && r < g.iheight && s < g.iwidth
      ensures ElementAt(g, gi, k', r, s) == 0
    {
      AddrInRange(g, k', r, s);
    }
    MulAssoc(g.nslices, g.iwidth, g.iheight);
    forall k' | 0 <= k' < g.nslices
      ensures Sum(Plane(gi, k', g.nslices, g.iwidth * g.iheight)) == 0
    {
      PlaneZeros(gi, k', g.nslices, g.iwidth * g.iheight);
    }
  }

  /** Starting an output row. */
  lemma RowBegin(g: Geometry, go: seq<int>, idx: seq<int>, gi: seq<int>, k: nat, i: nat)
    requires OutputShaped(g, go, idx) && |gi| == g.Numel()
    requires k < g.nslices && i < g.OHeight()
    requires RowsDone(g, go, idx, gi, k, i)
    ensures CellsDone(g, go, idx, gi, k, i, 0)
  {
  }

  /** Finishing an output row. */
  lemma RowEnd(g: Geometry, go: seq<int>, idx: seq<int>, gi: seq<int>, k: nat, i: nat)
    requires OutputShaped(g, go, idx) && |gi| == g.Numel()
    requires k < g.nslices && i < g.OHeight()
    requires CellsDone(g, go, idx, gi, k, i, g.OWidth())
    ensures RowsDone(g, go, idx, gi, k, i + 1)
  {
  }

  /** Finishing a plane. */
  lemma PlaneEnd(g: Geometry, go: seq<int>, idx: seq<int>, gi: seq<int>, k: nat)
    requires OutputShaped(g, go, idx) && |gi| == g.Numel()
    requires k < g.nslices
    requires RowsDone(g, go, idx, gi, k, g.OHeight())
    ensures RowsDone(g, go, idx, gi, k + 1, 0)
  {
  }

  /** After the last plane, the input gradient is the backward result and
      each of its planes sums to the same plane of the output gradient. */
  lemma ScatterEnd(g: Geometry, go: seq<int>, idx: seq<int>, gi: seq<int>)
    requires OutputShaped(g, go, idx) && |gi| == g.Numel()
    requires RowsDone(g, go, idx, gi, g.nslices, 0)
    ensures BackwardResult(g, go, idx, gi)
    ensures forall k :: 0 <= k < g.nslices ==> Sum(InPlane(g, gi, k)) == Sum(OutPlane(g, go, k))
  {
    forall k | 0 <= k < g.nslices
      ensures Sum(InPlane(g, gi, k)) == Sum(OutPlane(g, go, k))
    {
      GradSumIsPlaneSum(g, go, k);
    }
  }

  /** Visiting cell (k, i, j): adding its gradient at its target extends the
      description by that one cell. */
  lemma ScatterStep(g: Geometry, go: seq<int>, idx: seq<int>, gi0: seq<int>, gi1: seq<int>, k: nat, i: nat, j: nat,
                    p: int, v: int)
    requires OutputShaped(g, go, idx) && OffsetsInRange(g, idx) && IsCell(g, k, i, j)
    requires |gi0| == g.Numel()
    requires CellsDone(g, go, idx, gi0, k, i, j)
    requires p == TargetAddr(g, idx, k, i, j) && v == OutAt(g, go, k, i, j)
    requires 0 <= p < |gi0| && gi1 == gi0[p := gi0[p] + v]
    ensures CellsDone(g, go, idx, gi1, k, i, j + 1)
  {
    TargetInBounds(g, idx, k, i, j);
    var tr, tc := TargetRow(g, idx, k, i, j), TargetCol(g, idx, k, i, j);
    forall k': nat, r: nat, s: nat | k' < g.nslices && r < g.iheight && s < g.iwidth
      ensures ElementAt(g, gi1, k', r, s) ==
                if k' < k then Routed(g, go, idx, k', r, s, g.OHeight())
                else if k' == k then Routed(g, go, idx, k', r, s, i) + RowRouted(g, go, idx, k', r, s, i, j + 1)
                else 0
    {
      AddrInRange(g, k', r, s);
      if g.Addr(k', r, s) == p {
        AddrInjective(g, k', r, s, k, tr, tc);
        assert ElementAt(g, gi1, k', r, s) == ElementAt(g, gi0, k', r, s) + v;
        assert RowRouted(g, go, idx, k, r, s, i, j + 1) == RowRouted(g, go, idx, k, r, s, i, j) + v;
      } else {
        assert ElementAt(g, gi1, k', r, s) == ElementAt(g, gi0, k', r, s);
        if k' == k {
          assert RowRouted(g, go, idx, k, r, s, i, j + 1) == RowRouted(g, go, idx, k, r, s, i, j);
        }
      }
    }
    var n := g.iwidth * g.iheight;
    MulAssoc(k, g.iwidth, g.iheight);
    MulAssoc(g.nslices, g.iwidth, g.iheight);
    PlaneAddAt(gi0, gi1, g.nslices, n, k, p, v);
  }
}
