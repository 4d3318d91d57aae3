# Spatial max pooling, modelled in Dafny

This project models the two passes of the Torch `nn` spatial max-pooling module
in `generic/SpatialMaxPooling.c`.

- **Forward pass** (`updateOutput`):
  - It checks that the input is a 3-D tensor (nslices × iheight × iwidth) and that the kH × kW kernel fits in it.
  - It sizes the output as nslices × ((iheight − kH)/dH + 1) × ((iwidth − kW)/dW + 1).
  - For every output cell it scans the window in row-major order, keeping a running maximum that is replaced only by a strictly larger element.
  - It writes the maximum to `output`, and the window's 1-based row and column offsets to planes 0 and 1 of `indices`, a (2, nslices, oheight, owidth) buffer.
- **Backward pass** (`updateGradInput`):
  - It zeroes a `gradInput` buffer shaped like the input.
  - For every output cell it turns the stored offsets into absolute input coordinates.
  - It adds the cell's output gradient there.

Buffers are flat, contiguous, row-major `array<int>`s. Every address is formed exactly as the C code forms it.

The modules are:

- `Geometry` (`geometry.dfy`): the size formula, the address arithmetic, and the in-bounds and injectivity laws of every address the code forms.
- `ArgMax` (`argmax.dfy`): the strict-improvement scan as a function (`FirstArgMax`), its declarative meaning "first position of the maximum", and the state of the scan loop after a prefix (`Scanned`).
- `PoolingSpec` (`pooling_spec.dfy`):
  - what a cell's window is, and what the forward pass stores per cell;
  - where the backward pass routes a cell's gradient;
  - how much gradient each input element receives (`Routed`, a sum with repetitions over the cells that target it);
  - plane views and sums of the flat buffers.
- `Progress` (`progress.dfy`): the state of each pass after a prefix of cells (the loop invariants), with one lemma per loop transition.
- `PoolingProperties` (`properties.dfy`): properties that join the passes (a forward pass supplies what the backward pass needs, and a gradient lands on the maximum it came from), accumulation, non-overlap, and channel independence.
- `SpatialMaxPooling` (`spatial_max_pooling.dfy`):
  - the module object: a class with the kernel and stride as constants and `output`, `indices` and `gradInput` as array fields;
  - its two passes as methods with the source's loops;
  - the body of each pass's plane loop (`PoolPlane`, `ScatterPlane`), the body of the forward column loop (`PoolCell`) and the window scan (`ScanWindow`) as separate methods.

## Model

| member | source | states |
|---|---|---|
| Geometry.OutSize | generic/SpatialMaxPooling.c:22-23 | an image at least as large as the kernel has at least one window position |
| Geometry.OutSizeFits | generic/SpatialMaxPooling.c:22-23 | the last window ends inside the image, and one more window would not |
| Geometry.Geometry.Addr | generic/SpatialMaxPooling.c:124-138 | the flat row-major address of element (k, r, s) of an input-shaped buffer, as the backward pass forms it from the plane pointer, the target row and the target column |
| Geometry.Geometry.WindowAddr | generic/SpatialMaxPooling.c:44-66 | the flat address the forward scan reads for window element (y, x) of cell (k, i, j), built from the plane pointer, the window's corner and the row and column inside the window |
| Geometry.Geometry.CellAddr | generic/SpatialMaxPooling.c:45-56 | the flat address of output cell (k, i, j), which is also the slot of its row offset in the indices |
| Geometry.Geometry.ColAddr | generic/SpatialMaxPooling.c:47-57 | the flat address of the column offset of cell (k, i, j), in index plane nslices + k |
| Geometry.WindowAddrInBounds | generic/SpatialMaxPooling.c:54-66 | every element the scan reads is input element (k, i·dH+y, j·dW+x) with i·dH+y < iheight and j·dW+x < iwidth, and its address is inside the input buffer |
| Geometry.AddrInRange | generic/SpatialMaxPooling.c:44-44 | the address of input element (k, r, s) lies inside the buffer and inside plane k's slice |
| Geometry.AddrInjective | generic/SpatialMaxPooling.c:125-138 | distinct input elements have distinct addresses |
| Geometry.CellAddrInRange | generic/SpatialMaxPooling.c:45-57 | a cell's output slot and row-offset slot lie inside the first nslices·oheight·owidth elements; its column-offset slot is exactly that many further on, inside a buffer twice as large |
| Geometry.CellAddrInjective | generic/SpatialMaxPooling.c:55-57 | distinct output cells have distinct addresses, so no cell's write overwrites another's |
| ArgMax.FirstArgMax | generic/SpatialMaxPooling.c:60-73 | the scan's final candidate position is a position of the window |
| ArgMax.FirstArgMaxStep | generic/SpatialMaxPooling.c:67-71 | one more scanned element moves the candidate only if that element is strictly greater than the current maximum |
| ArgMax.FirstArgMaxIsFirst | generic/SpatialMaxPooling.c:60-73 | the scan's candidate holds the maximum, and every earlier position holds a strictly smaller value |
| ArgMax.FirstArgMaxUnique | generic/SpatialMaxPooling.c:67-71 | any first position of the maximum is the scan's candidate: the tie-breaking rule admits exactly one answer |
| ArgMax.Scanned | generic/SpatialMaxPooling.c:60-73 | the scan state after n elements: no candidate before the first element; afterwards a candidate below n that holds the kept value, which is at least every visited element and strictly greater than every element before the candidate |
| ArgMax.ScanStep | generic/SpatialMaxPooling.c:66-71 | visiting one more element, with the candidate replaced only when there is none yet or the element is strictly greater, keeps the candidate the first position of the maximum of the visited prefix |
| ArgMax.ScanDone | generic/SpatialMaxPooling.c:60-73 | once every element is visited, the candidate is `FirstArgMax`'s answer and the kept value is the one there |
| PoolingSpec.Window | generic/SpatialMaxPooling.c:54-66 | a cell's window has kH·kW elements |
| PoolingSpec.WindowAt | generic/SpatialMaxPooling.c:64-66 | window element y·kW+x is the input element the scan reads at row y, column x, so the window lists its elements in the order the scan visits them |
| PoolingSpec.CellArgMax | generic/SpatialMaxPooling.c:60-73 | the scan position kept for a cell is the first position of its window's maximum |
| PoolingSpec.CellMax | generic/SpatialMaxPooling.c:60-76 | the output value of a cell is an element of its window and is at least every element of its window |
| PoolingSpec.RowOffset | generic/SpatialMaxPooling.c:79-79 | the stored row offset lies in 1 .. kH and names the window row holding the kept scan position |
| PoolingSpec.ColOffset | generic/SpatialMaxPooling.c:80-80 | the stored column offset lies in 1 .. kW, and together with the row offset it decodes back to the kept scan position |
| PoolingSpec.RecordedOffsetIsFirstMax | generic/SpatialMaxPooling.c:76-80 | the stored offsets satisfy 1 ≤ row ≤ kH and 1 ≤ column ≤ kW; the input element they name equals the output; every window element before it in row-major order is strictly smaller |
| PoolingSpec.TargetRow | generic/SpatialMaxPooling.c:134-134 | the absolute input row the backward pass sends cell (k, i, j)'s gradient to: its stored 1-based row offset, made 0-based, from the window's first row i·dH |
| PoolingSpec.TargetCol | generic/SpatialMaxPooling.c:135-135 | the absolute input column: the stored 1-based column offset, made 0-based, from the window's first column j·dW |
| PoolingSpec.TargetInBounds | generic/SpatialMaxPooling.c:134-135 | with offsets inside the kernel, the absolute target (maxi, maxj) lies in the cell's window and inside the input plane |
| PoolingSpec.TargetAddr | generic/SpatialMaxPooling.c:125-138 | the address the backward pass adds to lies inside the input-gradient buffer and inside plane k's slice |
| PoolingSpec.Routed | generic/SpatialMaxPooling.c:105-138 | the gradient that output rows 0 .. n-1 of plane k add to input element (k, r, s): the sum, repetitions included, of the gradients of every cell whose offsets name that element |
| PoolingSpec.PlaneAddAt | generic/SpatialMaxPooling.c:138-138 | adding d to an element of plane k raises that plane's sum by d and leaves every other plane unchanged |
| PoolingSpec.PlaneZeros | generic/SpatialMaxPooling.c:104-105 | every plane of the zeroed gradient sums to 0 |
| PoolingSpec.GradSumIsPlaneSum | generic/SpatialMaxPooling.c:124-138 | adding the output gradient cell by cell in the loop order gives the sum of that gradient plane |
| Progress.PoolStep | generic/SpatialMaxPooling.c:76-80 | writing a cell's maximum and its two offsets keeps every earlier cell's values and adds this cell to the pooled prefix |
| Progress.PoolStepFrame | generic/SpatialMaxPooling.c:44-80 | the three writes for cell (k, i, j) stay inside output plane k and index planes k and nslices + k, so everything else stays as it was |
| Progress.PoolEnd | generic/SpatialMaxPooling.c:42-83 | once every plane has been visited, every cell holds its window maximum and its offsets |
| Progress.ScatterBegin | generic/SpatialMaxPooling.c:104-105 | a zeroed gradient buffer is the state before any cell is visited |
| Progress.ScatterStep | generic/SpatialMaxPooling.c:131-139 | one scatter-add extends the invariant by exactly one cell, both for every element and for every plane sum |
| Progress.ScatterEnd | generic/SpatialMaxPooling.c:120-141 | once every plane has been visited, each element holds the gradient routed to it, and each input-gradient plane sums to the same output-gradient plane |
| PoolingProperties.OutSizeCounts | generic/SpatialMaxPooling.c:22-23 | any count whose last window fits and whose next would not is `OutSize`, so the formula counts window positions |
| PoolingProperties.ForwardOffsetsInRange | generic/SpatialMaxPooling.c:79-80 | indices written by a forward pass are all inside the kernel, which is what the backward pass needs |
| PoolingProperties.TargetHitsMax | generic/SpatialMaxPooling.c:134-138 | after a forward pass, each cell's gradient goes to an element of its own window that holds the cell's output value |
| PoolingProperties.RoutedUntargeted | generic/SpatialMaxPooling.c:105-138 | an input element that no cell targets receives zero gradient |
| PoolingProperties.TargetsDisjoint | generic/SpatialMaxPooling.c:134-138 | when the stride is at least the kernel in both axes, no input element is the target of two different cells |
| PoolingProperties.ElementInPlane | generic/SpatialMaxPooling.c:44-44 | input element (k, r, s) is an element of plane k's slice |
| PoolingProperties.CellInPlane | generic/SpatialMaxPooling.c:45-47 | a cell's output slot lies in output plane k, and its offset slots lie in index planes k and nslices + k |
| PoolingProperties.WindowChannelLocal | generic/SpatialMaxPooling.c:42-66 | a cell's window, maximum and offsets depend only on plane k of the input |
| PoolingProperties.RoutedChannelLocal | generic/SpatialMaxPooling.c:122-138 | the gradient routed within plane k depends only on plane k of the output gradient and on index planes k and nslices + k |
| SpatialMaxPooling.ProductOfThree | generic/SpatialMaxPooling.c:19-21 | a 3-D tensor has nslices·iwidth·iheight elements |
| SpatialMaxPooling.ScanVisit | generic/SpatialMaxPooling.c:65-71 | reading row y, column x of a cell's window reads an element inside the input, and the scan step over it extends the scan state by one position |
| SpatialMaxPooling.ScanWindow | generic/SpatialMaxPooling.c:59-73 | the scan loop ends with the window's maximum and the first scan position holding it |
| SpatialMaxPooling.PoolCell | generic/SpatialMaxPooling.c:53-80 | computing cell (k, i, j), given every earlier cell pooled, adds it to the pooled prefix with its window maximum and offsets, and changes nothing outside output plane k and index planes k and nslices + k |
| SpatialMaxPooling.PoolPlane | generic/SpatialMaxPooling.c:42-83 | pooling plane k, given every earlier plane pooled, leaves every cell of planes 0 .. k holding its window maximum and offsets, and changes nothing outside output plane k and index planes k and nslices + k |
| SpatialMaxPooling.ScatterPlane | generic/SpatialMaxPooling.c:122-141 | scattering plane k, given every earlier plane scattered, leaves planes 0 .. k holding their routed gradient and summing to their output-gradient planes, and later planes zero |
| SpatialMaxPooling.SpatialMaxPooling.constructor | generic/SpatialMaxPooling.c:8-13 | the object holds the given kernel and stride, and empty buffers |
| SpatialMaxPooling.SpatialMaxPooling.UpdateOutput | generic/SpatialMaxPooling.c:5-89 | rejects a non-3-D input, then an image smaller than the kernel, touching no buffer; otherwise installs fresh, correctly shaped output and indices holding every cell's maximum and offsets; `gradInput` is untouched |
| SpatialMaxPooling.SpatialMaxPooling.UpdateGradInput | generic/SpatialMaxPooling.c:91-147 | installs a fresh input gradient whose every element is the sum of the gradients of the cells targeting it (zero if none); each of its planes sums to the matching output-gradient plane; `output` and `indices` are untouched |

## Left out

- Lua glue is not modelled: fetching arguments and fields from the Lua stack, argument-error reporting, and the registration table and `init` (lines 7-13, 93-98, 149-160). The kernel and stride are the object's constants, and the argument checks are the `Outcome` result of `UpdateOutput`.
- The OpenMP pragma on the forward plane loop (line 41) is not modelled: `PoolPlane`, the loop's body, runs for one plane after another, and no interleaving of two planes' iterations is represented. What the model does state is why the planes are independent. A call for plane k changes nothing outside output plane k and index planes k and nslices + k (`PoolPlane`'s last ensures). What it writes there depends only on input plane k (`WindowChannelLocal`).
- Memory management is not modelled: `newContiguous` and `free` (lines 26, 86, 101, 144) are dropped, and the input and output gradient are taken to be contiguous row-major arrays already. `resize3d`, `resize4d` and `resizeAs` (lines 29, 32, 104) become the allocation of a fresh array of the new size, stored into the object's field.
- Element values are mathematical integers, not floating-point `real`. NaN and infinity are therefore not modelled.
- The `-THInf` starting maximum (line 61) is modelled by a negative `maxindex` meaning "no candidate yet", and any element beats no candidate. For integer data this is exactly the source's behaviour. In floating point, a window made only of −∞ or NaN values would leave `maxindex` at −1 and store offsets that do not point into the window; that case is outside this integer model.
- Kernel extents and strides are the positive type `Pos`. The code never checks them, and a zero stride would divide by zero at lines 22-23.
- C's `int` and `long` widths (lines 22-23, 108-113, 134-135) are not modelled: sizes and addresses are unbounded integers. Their overflow for very large tensors is not represented.
- SpatialMaxPooling.SpatialMaxPooling.UpdateGradInput: requires a `gradOutput` whose size list is (nslices, oheight, owidth) for the input size, and `indices` whose offsets lie inside the kernel, because the code trusts both unchecked (lines 112-113, 134-135). The loops take their extents from that size list, as the code does. `PoolingProperties.ForwardOffsetsInRange` shows that a matching forward pass provides in-kernel offsets; foreign indices that the code would follow out of bounds are not modelled.
- SpatialMaxPooling.SpatialMaxPooling.UpdateOutput: the input is a flat array with a separate size list. Non-contiguous strides of a Torch tensor are not represented, and the size must multiply out to the array's length.
