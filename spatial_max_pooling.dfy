/** The max-pooling module object and its two passes.

    The host object carries the kernel extent (kW, kH), the stride (dW, dH)
    and three buffers: `output` and `indices`, filled by the forward pass, and
    `gradInput`, filled by the backward pass. Buffers are flat, contiguous and
    row-major. Reshaping a buffer (resize3d, resize4d, resizeAs) is modelled as
    allocating a fresh array of the new size. */
module SpatialMaxPooling {
  import opened Geometry
  import opened ArgMax
  import opened PoolingSpec
  import opened Progress

  /** Argument errors the forward pass raises before touching any buffer. */
  datatype ArgError = NotThreeD | ImageSmallerThanKernel

  datatype Outcome = Success | Failure(error: ArgError)

  /** Number of elements of a tensor of the given size. */
  function Product(size: seq<nat>): nat {
    if |size| == 0 then 1 else size[0] * Product(size[1..])
  }

  lemma ProductOfThree(size: seq<nat>)
    requires |size| == 3
    ensures Product(size) == size[0] * size[2] * size[1]
  {
    assert size[1..][1..] == size[2..];
    assert size[2..][1..] == [];
    assert Product(size[2..]) == size[2];
    assert Product(size[1..]) == size[1] * size[2];
  }

  /** Visiting row `y`, column `x` of the window of cell (k, i, j) extends the
      scan state by the element found there. */
  lemma ScanVisit(input: seq<int>, g: Geometry, k: nat, i: nat, j: nat, y: nat, x: nat,
                  tcntr: int, maxval: int, maxindex: int)
    requires InputShaped(g, input) && IsCell(g, k, i, j) && y < g.kH && x < g.kW
    requires tcntr == y * g.kW + x && Scanned(Window(input, g, k, i, j), tcntr, maxval, maxindex)
    ensures 0 <= g.WindowAddr(k, i, j, y, x) < |input|
    ensures var w, val := Window(input, g, k, i, j), input[g.WindowAddr(k, i, j, y, x)];
            (maxindex < 0 || val > maxval ==> Scanned(w, tcntr + 1, val, tcntr)) &&
            (!(maxindex < 0 || val > maxval) ==> Scanned(w, tcntr + 1, maxval, maxindex))
  {
    WindowAt(input, g, k, i, j, y, x);
    ScanStep(Window(input, g, k, i, j), tcntr, maxval, maxindex);
  }

  /** The local-max scan over the window of cell (k, i, j), visiting rows `y`
      and columns `x` in row-major order and counting visited elements in
      `tcntr`. A negative `maxindex` stands for the initial `maxval` of minus
      infinity: any element beats it. */
  method ScanWindow(input: array<int>, g: Geometry, k: nat, i: nat, j: nat) returns (maxval: int, maxindex: int)
    requires InputShaped(g, input[..]) && IsCell(g, k, i, j)
    ensures maxindex == CellArgMax(input[..], g, k, i, j)
    ensures maxval == CellMax(input[..], g, k, i, j)
  {
    ghost var w := Window(input[..], g, k, i, j);
    var ip := k * g.iwidth * g.iheight + i * g.iwidth * g.dH + j * g.dW;
    maxindex := -1;
    maxval := 0;
    var tcntr := 0;
    var y := 0;
    while y < g.kH
      invariant 0 <= y <= g.kH
      invariant tcntr == y * g.kW
      invariant Scanned(w, tcntr, maxval, maxindex)
    {
      ghost var base := tcntr;
      var x := 0;
      while x < g.kW
        invariant 0 <= x <= g.kW
        invariant tcntr == base + x
        invariant Scanned(w, tcntr, maxval, maxindex)
      {
        assert ip + y * g.iwidth + x == g.WindowAddr(k, i, j, y, x);
        ScanVisit(input[..], g, k, i, j, y, x, tcntr, maxval, maxindex);
        var val := input[ip + y * g.iwidth + x];
        if maxindex < 0 || val > maxval {
          maxval := val;
          maxindex := tcntr;
        }
        tcntr := tcntr + 1;
        x := x + 1;
      }
      assert tcntr == (y + 1) * g.kW;
      y := y + 1;
    }
    assert 0 < tcntr == |w| by {
      MulMono(1, g.kH, g.kW);
    }
    ScanDone(w, maxval, maxindex);
  }

  /** One iteration of the column loop of the forward pass: scan the window
      of cell (k, i, j), then store its maximum and the maximum's 1-based
      row and column offsets. Only plane k's slices are written. */
  method PoolCell(input: array<int>, g: Geometry, out: array<int>, ind: array<int>, k: nat, i: nat, j: nat,
                  ghost out00: seq<int>, ghost ind00: seq<int>)
    requires InputShaped(g, input[..]) && OutputShaped(g, out[..], ind[..]) && IsCell(g, k, i, j)
    requires input != out && input != ind && out != ind
    requires PooledBefore(g, input[..], out[..], ind[..], k, i, j)
    requires OnlyPlaneWritten(g, out00, ind00, out[..], ind[..], k)
    modifies out, ind
    ensures PooledBefore(g, input[..], out[..], ind[..], k, i, j + 1)
    ensures OnlyPlaneWritten(g, out00, ind00, out[..], ind[..], k)
  {
    var nslices, owidth, oheight := g.nslices, g.OWidth(), g.OHeight();
    var maxval, maxindex := ScanWindow(input, g, k, i, j);
    var row, col := maxindex / g.kW + 1, maxindex % g.kW + 1;
    ghost var inp, out0, ind0 := input[..], out[..], ind[..];
    assert row == RowOffset(inp, g, k, i, j) && col == ColOffset(inp, g, k, i, j);
    var op := k * owidth * oheight + i * owidth + j;
    var cp := (k + nslices) * owidth * oheight + i * owidth + j;
    assert op == g.CellAddr(k, i, j) && cp == g.ColAddr(k, i, j) &&
           0 <= op < out.Length && 0 <= cp < ind.Length by {
      CellAddrInRange(g, k, i, j);
    }
    out[op] := maxval;
    ind[op] := row;
    ind[cp] := col;
    assert input[..] == inp;
    assert out[..] == out0[op := maxval];
    assert ind[..] == ind0[op := row][cp := col];
    PoolStep(g, inp, out0, ind0, out[..], ind[..], k, i, j, op, cp);
    PoolStepFrame(g, out00, ind00, out0, ind0, out[..], ind[..], k, i, j, op, cp, maxval, row, col);
  }

  /** One iteration of the parallel plane loop of the forward pass: pool every
      cell of plane `k`, row by row. */
  method PoolPlane(input: array<int>, g: Geometry, out: array<int>, ind: array<int>, k: nat)
    requires InputShaped(g, input[..]) && OutputShaped(g, out[..], ind[..]) && k < g.nslices
    requires input != out && input != ind && out != ind
    requires PooledBefore(g, input[..], out[..], ind[..], k, 0, 0)
    modifies out, ind
    ensures PooledBefore(g, input[..], out[..], ind[..], k + 1, 0, 0)
    ensures OnlyPlaneWritten(g, old(out[..]), old(ind[..]), out[..], ind[..], k)
  {
    ghost var out00, ind00 := out[..], ind[..];
    var owidth, oheight := g.OWidth(), g.OHeight();
    var i := 0;
    while i < oheight
      invariant 0 <= i <= oheight
      invariant PooledBefore(g, input[..], out[..], ind[..], k, i, 0)
      invariant OnlyPlaneWritten(g, out00, ind00, out[..], ind[..], k)
    {
      var j := 0;
      while j < owidth
        invariant 0 <= j <= owidth
        invariant PooledBefore(g, input[..], out[..], ind[..], k, i, j)
        invariant OnlyPlaneWritten(g, out00, ind00, out[..], ind[..], k)
      {
        PoolCell(input, g, out, ind, k, i, j, out00, ind00);
        j := j + 1;
      }
      PoolRowEnd(g, input[..], out[..], ind[..], k, i);
      i := i + 1;
    }
    PoolPlaneEnd(g, input[..], out[..], ind[..], k);
  }

  /** One iteration of the plane loop of the backward pass: add the gradient
      of every cell of plane `k`, row by row, at the input element its
      recorded offsets name. The output extents come from the caller, who
      reads them off the output gradient's size. */
  method ScatterPlane(g: Geometry, gradOutput: array<int>, ind: array<int>, gi: array<int>, k: nat,
                      oheight: nat, owidth: nat)
    requires OutputShaped(g, gradOutput[..], ind[..]) && OffsetsInRange(g, ind[..])
    requires oheight == g.OHeight() && owidth == g.OWidth()
    requires gi.Length == g.Numel() && k < g.nslices
    requires gi != gradOutput && gi != ind
    requires RowsDone(g, gradOutput[..], ind[..], gi[..], k, 0)
    modifies gi
    ensures RowsDone(g, gradOutput[..], ind[..], gi[..], k + 1, 0)
  {
    ghost var go, idx := gradOutput[..], ind[..];
    var ochannels, iheight, iwidth := g.nslices, g.iheight, g.iwidth;
    var i := 0;
    while i < oheight
      invariant 0 <= i <= oheight
      invariant RowsDone(g, go, idx, gi[..], k, i)
    {
      RowBegin(g, go, idx, gi[..], k, i);
      var j := 0;
      while j < owidth
        invariant 0 <= j <= owidth
        invariant CellsDone(g, go, idx, gi[..], k, i, j)
      {
        var op := k * owidth * oheight + i * owidth + j;
        var cp := (k + ochannels) * owidth * oheight + i * owidth + j;
        assert op == g.CellAddr(k, i, j) && cp == g.ColAddr(k, i, j) &&
               0 <= op < gradOutput.Length && 0 <= cp < ind.Length by {
          CellAddrInRange(g, k, i, j);
        }
        var maxi := ind[op] - 1 + i * g.dH;
        var maxj := ind[cp] - 1 + j * g.dW;
        ghost var gi0 := gi[..];
        var p := k * iwidth * iheight + maxi * iwidth + maxj;
        assert p == TargetAddr(g, idx, k, i, j) && 0 <= p < gi.Length;
        gi[p] := gi[p] + gradOutput[op];
        ScatterStep(g, go, idx, gi0, gi[..], k, i, j, p, gradOutput[op]);
        j := j + 1;
      }
      RowEnd(g, go, idx, gi[..], k, i);
      i := i + 1;
    }
    PlaneEnd(g, go, idx, gi[..], k);
  }

  class SpatialMaxPooling {
    const kW: Pos
    const kH: Pos
    const dW: Pos
    const dH: Pos
    var output: array<int>
    var indices: array<int>
    var gradInput: array<int>

    constructor (kW: Pos, kH: Pos, dW: Pos, dH: Pos)
      ensures this.kW == kW && this.kH == kH && this.dW == dW && this.dH == dH
      ensures output.Length == 0 && indices.Length == 0 && gradInput.Length == 0
    {
      this.kW, this.kH, this.dW, this.dH := kW, kH, dW, dH;
      output := new int[0];
      indices := new int[0];
      gradInput := new int[0];
    }

    /** The pooling problem for an input of size (nslices, iheight, iwidth). */
    function Geom(size: seq<nat>): Geometry
      requires |size| == 3
    {
      Geometry(size[0], size[1], size[2], kH, kW, dH, dW)
    }

    /** Forward pass: pool every window of `input`, a contiguous tensor of
        size `size`, into `output` and record where each maximum was found in
        `indices`. */
    method UpdateOutput(input: array<int>, size: seq<nat>) returns (outcome: Outcome)
      requires input.Length == Product(size)
      modifies this
      ensures |size| != 3 ==> outcome == Failure(NotThreeD)
      ensures |size| == 3 && (size[2] < kW || size[1] < kH) ==> outcome == Failure(ImageSmallerThanKernel)
      ensures |size| == 3 && kW <= size[2] && kH <= size[1] ==> outcome == Success
      ensures outcome.Failure? ==> output == old(output) && indices == old(indices)
      ensures outcome.Success? ==>
                fresh(output) && fresh(indices) &&
                InputShaped(Geom(size), input[..]) &&
                ForwardResult(Geom(size), input[..], output[..], indices[..])
      ensures gradInput == old(gradInput)
    {
      if |size| != 3 {
        return Failure(NotThreeD);
      }
      if !(size[2] >= kW && size[1] >= kH) {
        return Failure(ImageSmallerThanKernel);
      }

      var nslices, iheight, iwidth := size[0], size[1], size[2];
      var oheight := (iheight - kH) / dH + 1;
      var owidth := (iwidth - kW) / dW + 1;
      var g := Geom(size);
      assert g == Geometry(nslices, iheight, iwidth, kH, kW, dH, dW);
      assert oheight == g.OHeight() && owidth == g.OWidth();
      assert input.Length == g.Numel() by {
        ProductOfThree(size);
      }

      var osize := nslices * owidth * oheight;
      assert osize == g.OutNumel();
      OutNumelPlanes(g);
      var out := new int[osize];
      var ind := new int[2 * osize];

      var k := 0;
      while k < nslices
        invariant 0 <= k <= nslices
        invariant unchanged(this)
        invariant PooledBefore(g, input[..], out[..], ind[..], k, 0, 0)
      {
        PoolPlane(input, g, out, ind, k);
        k := k + 1;
      }
      PoolEnd(g, input[..], out[..], ind[..]);
      output, indices := out, ind;
      return Success;
    }

    /** Backward pass: route every output gradient back to the input element
        its window's maximum came from, adding when windows share a maximum.
        `indices` must hold offsets that lie inside the kernel, as any forward
        pass over an input of size `inputSize` leaves them. */
    method UpdateGradInput(inputSize: seq<nat>, gradOutput: array<int>, gradOutputSize: seq<nat>)
      requires |inputSize| == 3 && kW <= inputSize[2] && kH <= inputSize[1]
      requires gradOutputSize == [inputSize[0], Geom(inputSize).OHeight(), Geom(inputSize).OWidth()]
      requires OutputShaped(Geom(inputSize), gradOutput[..], indices[..])
      requires OffsetsInRange(Geom(inputSize), indices[..])
      modifies this
      ensures output == old(output) && indices == old(indices)
      ensures fresh(gradInput)
      ensures BackwardResult(Geom(inputSize), gradOutput[..], indices[..], gradInput[..])
      // per plane, the input gradient adds up to the output gradient
      ensures forall k :: 0 <= k < inputSize[0] ==>
                Sum(InPlane(Geom(inputSize), gradInput[..], k)) == Sum(OutPlane(Geom(inputSize), gradOutput[..], k))
    {
      var ichannels, iheight, iwidth := inputSize[0], inputSize[1], inputSize[2];
      var oheight, owidth := gradOutputSize[1], gradOutputSize[2];
      var g := Geom(inputSize);
      assert g == Geometry(ichannels, iheight, iwidth, kH, kW, dH, dW);
      ghost var go, idx := gradOutput[..], indices[..];
      var ind := indices;
      var gi := new int[ichannels * iwidth * iheight](_ => 0);
      ScatterBegin(g, go, idx, gi[..]);

      var k := 0;
      while k < ichannels
        invariant 0 <= k <= ichannels
        invariant unchanged(this)
        invariant RowsDone(g, go, idx, gi[..], k, 0)
      {
        ScatterPlane(g, gradOutput, ind, gi, k, oheight, owidth);
        k := k + 1;
      }
      ScatterEnd(g, go, idx, gi[..]);
      gradInput := gi;
    }
  }
}
