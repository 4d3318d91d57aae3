/** Shapes and flat row-major addresses of the max-pooling operator.

    A volume of `nslices` planes, each `iheight` rows of `iwidth` columns, is
    stored as one contiguous block; every address below is the one the C code
    computes as an offset into a raw buffer, written the way the code writes it. */
module Geometry {

  /** A kernel extent or a stride. The code never checks these; every size
      formula divides by a stride and scans a kernel, so they must be positive. */
  type Pos = n: int | 0 < n witness 1

  /** Number of window positions along one axis: `(n - k) / d + 1`. The operands
      are never negative here, so C's truncating division agrees with Dafny's. */
  function OutSize(n: int, k: Pos, d: Pos): (r: int)
    requires k <= n
    ensures 1 <= r
  {
    (n - k) / d + 1
  }

  /** The last window ends inside the image, and one more would not. */
  lemma OutSizeFits(n: int, k: Pos, d: Pos)
    requires k <= n
    ensures (OutSize(n, k, d) - 1) * d + k <= n < OutSize(n, k, d) * d + k
  {
    var q := (n - k) / d;
    assert q * d <= n - k < q * d + d;
    assert (q + 1) * d == q * d + d;
  }

  /** The pooling problem: input shape, kernel extent and stride. */
  datatype Geometry = Geometry(nslices: nat, iheight: nat, iwidth: nat,
                               kH: Pos, kW: Pos, dH: Pos, dW: Pos)
  {
    /** The kernel fits the image in both axes. */
    predicate Fits() {
      kW <= iwidth && kH <= iheight
    }

    function OHeight(): int
      requires Fits()
    {
      OutSize(iheight, kH, dH)
    }

    function OWidth(): int
      requires Fits()
    {
      OutSize(iwidth, kW, dW)
    }

    /** Elements of the input (and of the input gradient). */
    function Numel(): int {
      nslices * iwidth * iheight
    }

    /** Elements of the output (and of the output gradient): one plane of indices. */
    function OutNumel(): int
      requires Fits()
    {
      nslices * OWidth() * OHeight()
    }

    /** Address of element (k, r, s) of an input-shaped volume. */
    function Addr(k: int, r: int, s: int): int {
      k * iwidth * iheight + r * iwidth + s
    }

    /** Address of element (y, x) of the window of output cell (i, j) in plane k. */
    function WindowAddr(k: int, i: int, j: int, y: int, x: int): int {
      k * iwidth * iheight + i * iwidth * dH + j * dW + y * iwidth + x
    }

    /** Address of output cell (k, i, j); also its row offset in plane 0 of the indices. */
    function CellAddr(k: int, i: int, j: int): int
      requires Fits()
    {
      k * OWidth() * OHeight() + i * OWidth() + j
    }

    /** Address of the column offset of cell (k, i, j) in plane 1 of the indices. */
    function ColAddr(k: int, i: int, j: int): int
      requires Fits()
    {
      (k + nslices) * OWidth() * OHeight() + i * OWidth() + j
    }
  }

  // ---------------------------------------------------------------------------
  // Mixed-radix arithmetic

  lemma MulMono(a: int, b: int, n: nat)
    requires a <= b
    ensures a * n <= b * n
  {
    assert b * n - a * n == (b - a) * n;
  }

  lemma MulAssoc(a: int, b: int, c: int)
    ensures a * b * c == a * (b * c)
  {
  }

  /** Blocks of `n` at block numbers a < b do not overlap. */
  lemma MulStep(a: int, b: int, n: nat)
    requires a < b
    ensures a * n + n <= b * n
  {
    MulMono(a + 1, b, n);
    assert (a + 1) * n == a * n + n;
  }

  /** A digit below the radix keeps `a * n + b` below the next multiple. */
  lemma RadixBound(a: nat, b: nat, m: nat, n: nat)
    requires a < m && b < n
    ensures a * n + b < m * n
  {
    MulMono(a + 1, m, n);
  }

  /** Mixed-radix digits are unique. */
  lemma RadixUnique(a: nat, b: nat, a': nat, b': nat, n: nat)
    requires b < n && b' < n
    requires a * n + b == a' * n + b'
    ensures a == a' && b == b'
  {
    if a < a' {
      MulMono(a + 1, a', n);
    } else if a' < a {
      MulMono(a' + 1, a, n);
    }
  }

  /** Division by the row length recovers the row and column of a row-major offset. */
  lemma DivModRowMajor(y: nat, x: nat, n: Pos)
    requires x < n
    ensures (y * n + x) / n == y && (y * n + x) % n == x
  {
    var t := y * n + x;
    RadixUnique(t / n, t % n, y, x, n);
  }

  /** A row-major offset below `m * n` splits into a row below `m` and a column below `n`. */
  lemma RowMajorSplit(t: nat, m: nat, n: Pos)
    requires t < m * n
    ensures 0 <= t / n < m && 0 <= t % n < n && (t / n) * n + t % n == t
  {
    if m <= t / n {
      MulMono(m, t / n, n);
    }
  }

  /** A three-digit row-major address `a*n*m + b*n + c` with digits below
      (l, m, n) lies in block `a` of size `n*m`, inside `l` such blocks. */
  lemma Radix3Bound(a: nat, b: nat, c: nat, l: nat, m: nat, n: nat)
    requires a < l && b < m && c < n
    ensures 0 <= b * n + c < n * m
    ensures 0 <= a * n * m <= a * n * m + b * n + c < a * n * m + n * m
    ensures a * n * m + b * n + c < l * n * m
  {
    RadixBound(b, c, m, n);
    assert m * n == n * m;
    MulAssoc(a, n, m);
    MulAssoc(l, n, m);
    MulMono(0, a, n * m);
    RadixBound(a, b * n + c, l, n * m);
  }

  /** Three-digit row-major addresses are unique. */
  lemma Radix3Unique(a: nat, b: nat, c: nat, a': nat, b': nat, c': nat, m: nat, n: nat)
    requires b < m && c < n && b' < m && c' < n
    requires a * n * m + b * n + c == a' * n * m + b' * n + c'
    ensures a == a' && b == b' && c == c'
  {
    RadixBound(b, c, m, n);
    RadixBound(b', c', m, n);
    assert m * n == n * m;
    MulAssoc(a, n, m);
    MulAssoc(a', n, m);
    RadixUnique(a, b * n + c, a', b' * n + c', n * m);
    RadixUnique(b, c, b', c', n);
  }

  // ---------------------------------------------------------------------------
  // Shapes and addresses

  /** Every element of an input-shaped volume lies inside the buffer. */
  lemma AddrInRange(g: Geometry, k: nat, r: nat, s: nat)
    requires k < g.nslices && r < g.iheight && s < g.iwidth
    ensures 0 <= g.Addr(k, r, s) < g.Numel()
    ensures k * g.iwidth * g.iheight <= g.Addr(k, r, s) < k * g.iwidth * g.iheight + g.iwidth * g.iheight
  {
    Radix3Bound(k, r, s, g.nslices, g.iheight, g.iwidth);
  }

  /** Distinct elements of an input-shaped volume have distinct addresses. */
  lemma AddrInjective(g: Geometry, k: nat, r: nat, s: nat, k': nat, r': nat, s': nat)
    requires k < g.nslices && r < g.iheight && s < g.iwidth
    requires k' < g.nslices && r' < g.iheight && s' < g.iwidth
    requires g.Addr(k, r, s) == g.Addr(k', r', s')
    ensures k == k' && r == r' && s == s'
  {
    Radix3Unique(k, r, s, k', r', s', g.iheight, g.iwidth);
  }

  /** Reads stay in bounds: element (y, x) of the window of cell (i, j) is input
      element (k, i*dH + y, j*dW + x), and that element exists. */
  lemma WindowAddrInBounds(g: Geometry, k: nat, i: nat, j: nat, y: nat, x: nat)
    requires g.Fits()
    requires k < g.nslices && i < g.OHeight() && j < g.OWidth() && y < g.kH && x < g.kW
    ensures i * g.dH + y < g.iheight && j * g.dW + x < g.iwidth
    ensures g.WindowAddr(k, i, j, y, x) == g.Addr(k, i * g.dH + y, j * g.dW + x)
    ensures 0 <= g.WindowAddr(k, i, j, y, x) < g.Numel()
  {
    OutSizeFits(g.iheight, g.kH, g.dH);
    OutSizeFits(g.iwidth, g.kW, g.dW);
    MulMono(i, g.OHeight() - 1, g.dH);
    MulMono(j, g.OWidth() - 1, g.dW);
    assert (i * g.dH + y) * g.iwidth == i * g.iwidth * g.dH + y * g.iwidth;
    AddrInRange(g, k, i * g.dH + y, j * g.dW + x);
  }

  /** Shape law of the index buffer: plane 0 (row offsets) and plane 1 (column
      offsets) of cell (k, i, j) are two distinct slots of a buffer of
      2 * nslices * oheight * owidth elements, one in each half. */
  lemma CellAddrInRange(g: Geometry, k: nat, i: nat, j: nat)
    requires g.Fits()
    requires k < g.nslices && i < g.OHeight() && j < g.OWidth()
    ensures 0 <= g.CellAddr(k, i, j) < g.OutNumel()
    ensures g.ColAddr(k, i, j) == g.OutNumel() + g.CellAddr(k, i, j)
    ensures g.ColAddr(k, i, j) < 2 * g.OutNumel()
  {
    var ow, oh := g.OWidth(), g.OHeight();
    Radix3Bound(k, i, j, g.nslices, oh, ow);
    assert (k + g.nslices) * ow == k * ow + g.nslices * ow;
    assert (k * ow + g.nslices * ow) * oh == k * ow * oh + g.nslices * ow * oh;
  }

  /** The output volume holds `nslices` planes of `oheight * owidth` cells. */
  lemma OutNumelPlanes(g: Geometry)
    requires g.Fits()
    ensures 0 <= g.OWidth() * g.OHeight() && g.OutNumel() == g.nslices * (g.OWidth() * g.OHeight())
    ensures 0 <= g.OutNumel()
  {
    MulMono(0, g.OWidth(), g.OHeight());
    MulMono(0, g.nslices, g.OWidth() * g.OHeight());
  }

  /** Distinct output cells have distinct addresses. */
  lemma CellAddrInjective(g: Geometry, k: nat, i: nat, j: nat, k': nat, i': nat, j': nat)
    requires g.Fits()
    requires k < g.nslices && i < g.OHeight() && j < g.OWidth()
    requires k' < g.nslices && i' < g.OHeight() && j' < g.OWidth()
    requires g.CellAddr(k, i, j) == g.CellAddr(k', i', j')
    ensures k == k' && i == i' && j == j'
  {
    Radix3Unique(k, i, j, k', i', j', g.OHeight(), g.OWidth());
  }
}
