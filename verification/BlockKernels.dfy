/**
  The floating-point kernels: FP4, FP2 and ternary. Arithmetic is a parameter about which nothing is
  assumed, so an equation between two results means the same operations in the same order, rounding included.
 */
module BlockKernels {
  import opened Arith
  import opened Bits
  import opened Matrix

  datatype Floats<!F> = Floats(zero: F, add: (F, F) -> F, sub: (F, F) -> F, mul: (F, F) -> F, lit: real -> F)

  const FP4_GRID: seq<real> :=
    [0.0, 0.25, 1.0, 1.5, 2.0, 3.0, 4.0, 6.0, 0.0, -0.25, -1.0, -1.5, -2.0, -3.0, -4.0, -6.0]

  const FP2_GRID: seq<real> := [0.0, 1.0, 0.0, -1.0]

  function Nibble(b: bv8, high: bool): (c: nat)
    ensures c < 16
  {
    var lo := if high then 4 else 0;
    BitValue(b, lo) + 2 * BitValue(b, lo + 1) + 4 * BitValue(b, lo + 2) + 8 * BitValue(b, lo + 3)
  }

  function Crumb(b: bv8, k: nat): (c: nat)
    requires k < 4
    ensures c < 4
  {
    BitValue(b, 2 * k) + 2 * BitValue(b, 2 * k + 1)
  }

  /** Codes per byte `p` is 2 (FP4) or 4 (FP2). */
  predicate Packing(p: nat) {
    p == 2 || p == 4
  }

  /** The grid value of field `k` of a code byte. */
  function GridValue(p: nat, b: bv8, k: nat): real
    requires Packing(p) && k < p
  {
    if p == 2 then FP4_GRID[Nibble(b, k == 1)] else FP2_GRID[Crumb(b, k)]
  }

  /** Blocks and rows hold whole bytes, and the code and scale vectors reach the last row. */
  predicate BlockShape<F>(m: NdaMatrix<F>, p: nat) {
    && Packing(p)
    && m.blockSize > 0
    && m.blockSize % p == 0
    && m.cols % p == 0
    && |m.packedCodes| >= DivCeil(m.rows * m.cols, p)
    && |m.qScales| >= m.rows * (m.cols / m.blockSize)
  }

  function Blocks<F>(m: NdaMatrix<F>): nat
    requires m.blockSize > 0
  {
    m.cols / m.blockSize
  }

  function BlockStart<F>(m: NdaMatrix<F>, block: nat): nat {
    block * m.blockSize
  }

  /** The columns the blocks cover: all of them when the block size divides the row. */
  function Covered<F>(m: NdaMatrix<F>): nat
    requires m.blockSize > 0
  {
    BlockStart(m, Blocks(m))
  }

  function Element<F>(m: NdaMatrix<F>, row: nat, col: nat): nat {
    row * m.cols + col
  }

  /**
    A matrix that validates has the shape the kernels need, with every column in a block, exactly when blocks
    hold whole bytes, tile the rows and have their scales; only a positive `n_blocks` makes `validate` look at these.
   */
  lemma ValidatedBlockShapeIff<F>(m: NdaMatrix<F>)
    requires m.version == NDA_VERSION_FP4 || m.version == NDA_VERSION_FP2
    requires Validate(m, true) == []
    ensures BlockShape(m, CodesPerByte(m.version)) && Covered(m) == m.cols
            <==> && m.blockSize % CodesPerByte(m.version) == 0 && m.cols % m.blockSize == 0
                 && (m.nBlocks > 0 || |m.qScales| >= m.rows * (m.cols / m.blockSize))
  {
    hide DivCeil, Validate;
    var p := CodesPerByte(m.version);
    ValidateIff(m, true);
    DivModDef(m.cols, m.blockSize);
    if m.blockSize % p == 0 && m.cols % m.blockSize == 0 {
      DivModDef(m.blockSize, p);
      MulAssoc(m.cols / m.blockSize, m.blockSize / p, p);
      DivModUnique(m.cols, (m.cols / m.blockSize) * (m.blockSize / p), p, 0);
    }
  }

  /** Validated FP4 matrices that fail it: blocks of half a byte, a column in no block, and no scales. */
  lemma ValidatedBadBlocks<F>(scale: F)
    ensures var halves := NdaMatrix(1, 2, scale, NDA_VERSION_FP4, [], [], 1, 1, [0, 0], [0]);
            var uncovered := NdaMatrix(1, 3, scale, NDA_VERSION_FP4, [], [], 2, 1, [0], [0, 0]);
            var unscaled := NdaMatrix(1, 2, scale, NDA_VERSION_FP4, [], [], 2, 0, [], [0]);
            && Validate(halves, true) == [] && Validate(uncovered, true) == [] && Validate(unscaled, true) == []
            && halves.blockSize / 2 == 0 && !BlockShape(halves, 2)
            && Covered(uncovered) < uncovered.cols
            && Blocks(unscaled) > |unscaled.qScales|
  {
  }

  // ----- every index is in bounds and names the element it should

  lemma CoveredInRow<F>(m: NdaMatrix<F>)
    requires m.blockSize > 0
    ensures Covered(m) <= m.cols
  {
    DivModDef(m.cols, m.blockSize);
  }

  lemma InBlock<F>(m: NdaMatrix<F>, block: nat, r: nat)
    requires m.blockSize > 0 && block < Blocks(m) && r < m.blockSize
    ensures BlockStart(m, block) + r < Covered(m)
    ensures (BlockStart(m, block) + r) / m.blockSize == block
    ensures BlockStart(m, block + 1) == BlockStart(m, block) + m.blockSize <= Covered(m)
  {
    InGroup(block, Blocks(m), m.blockSize, r);
    MulStep(block, m.blockSize);
    DivModUnique(block * m.blockSize + r, block, m.blockSize, r);
  }

  lemma BlockOfColumn<F>(m: NdaMatrix<F>, col: nat)
    requires m.blockSize > 0 && col < Covered(m)
    ensures col / m.blockSize < Blocks(m)
  {
    DivBelow(col, Blocks(m), m.blockSize);
  }

  lemma CodeInBounds<F>(m: NdaMatrix<F>, p: nat, row: nat, col: nat)
    requires BlockShape(m, p) && row < m.rows && col < m.cols
    ensures Element(m, row, col) / p < |m.packedCodes|
  {
    InGroup(row, m.rows, m.cols, col);
  }

  lemma ScaleInBounds<F>(m: NdaMatrix<F>, p: nat, row: nat, block: nat)
    requires BlockShape(m, p) && row < m.rows && block < Blocks(m)
    ensures row * Blocks(m) + block < |m.qScales|
  {
    hide DivCeil;
    InGroup(row, m.rows, Blocks(m), block);
  }

  lemma Aligned(k: nat, n: nat, p: nat)
    requires p > 0 && n % p == 0
    ensures (k * n) % p == 0
  {
    DivModDef(n, p);
    MulAssoc(k, n / p, p);
    DivModUnique(k * n, k * (n / p), p, 0);
  }

  lemma SumAligned(a: nat, b: nat, p: nat)
    requires Packing(p) && a % p == 0 && b % p == 0
    ensures (a + b) % p == 0
  {
  }

  /** The byte the kernel reads for field `k` of byte `b` of a block is the element's own. */
  lemma ByteOfElement<F>(m: NdaMatrix<F>, p: nat, row: nat, block: nat, b: nat, k: nat)
    requires BlockShape(m, p) && k < p
    ensures var start := BlockStart(m, block);
            var i := Element(m, row, start + p * b + k);
            i / p == Element(m, row, start) / p + b && i % p == k
  {
    hide DivCeil;
    Aligned(row, m.cols, p);
    Aligned(block, m.blockSize, p);
    SumAligned(row * m.cols, block * m.blockSize, p);
    FieldOf(p, row * m.cols + block * m.blockSize, b, k);
  }

  lemma FieldOf(p: nat, e: nat, b: nat, k: nat)
    requires Packing(p) && k < p && e % p == 0
    ensures (e + p * b + k) / p == e / p + b && (e + p * b + k) % p == k
  {
    if p == 2 {
      assert (e + 2 * b + k) / 2 == e / 2 + b;
    } else {
      assert (e + 4 * b + k) / 4 == e / 4 + b;
    }
  }

  // ----- the naive sum

  /** Scale of a block: its byte times the matrix scale. */
  function BlockScale<F>(f: Floats<F>, m: NdaMatrix<F>, p: nat, row: nat, block: nat): F
    requires BlockShape(m, p) && row < m.rows && block < Blocks(m)
  {
    ScaleInBounds(m, p, row, block);
    f.mul(f.lit(m.qScales[row * Blocks(m) + block] as int as real), m.scale)
  }

  /** The weight code of one element, decoded on its own. */
  function ElementValue<F>(m: NdaMatrix<F>, p: nat, row: nat, col: nat): real
    requires BlockShape(m, p) && row < m.rows && col < m.cols
  {
    CodeInBounds(m, p, row, col);
    GridValue(p, m.packedCodes[Element(m, row, col) / p], Element(m, row, col) % p)
  }

  function BlockOf<F>(m: NdaMatrix<F>, col: nat): nat
    requires m.blockSize > 0
  {
    col / m.blockSize
  }

  lemma TermBounds<F>(m: NdaMatrix<F>, p: nat, col: nat)
    requires BlockShape(m, p) && col < Covered(m)
    ensures m.blockSize > 0 && col < m.cols && BlockOf(m, col) < Blocks(m)
  {
    hide Blocks, BlockStart, DivCeil;
    CoveredInRow(m);
    BlockOfColumn(m, col);
  }

  /** One product of the naive sum, decoded on its own. */
  function Term<F>(f: Floats<F>, m: NdaMatrix<F>, p: nat, row: nat, x: seq<F>, col: nat): F
    requires BlockShape(m, p) && row < m.rows && |x| == m.cols && col < Covered(m)
  {
    hide Blocks, BlockStart, ElementValue, BlockScale, DivCeil, BlockShape, Covered, BlockOf;
    TermBounds(m, p, col);
    f.mul(f.mul(x[col], f.lit(ElementValue(m, p, row, col))), BlockScale(f, m, p, row, BlockOf(m, col)))
  }

  /** The naive left-to-right sum over the first `n` columns. */
  function BlockSum<F>(f: Floats<F>, m: NdaMatrix<F>, p: nat, row: nat, x: seq<F>, n: nat): F
    requires BlockShape(m, p) && row < m.rows && |x| == m.cols && n <= Covered(m)
  {
    if n == 0 then f.zero
    else f.add(BlockSum(f, m, p, row, x, n - 1), Term(f, m, p, row, x, n - 1))
  }

  /** What the kernel adds for field `k` of byte `b` of a block. */
  function KernelTerm<F>(f: Floats<F>, p: nat, xi: F, codes: bv8, k: nat, scale: F): F
    requires Packing(p) && k < p
  {
    f.mul(f.mul(xi, f.lit(GridValue(p, codes, k))), scale)
  }

  lemma KernelStep<F>(f: Floats<F>, m: NdaMatrix<F>, p: nat, row: nat, x: seq<F>, block: nat, b: nat, k: nat)
    requires BlockShape(m, p) && row < m.rows && |x| == m.cols
    requires block < Blocks(m) && p * b + k < m.blockSize && k < p
    ensures var start := BlockStart(m, block);
            var col := start + p * b + k;
            && col < m.cols && col < Covered(m) && Element(m, row, start) / p + b < |m.packedCodes|
            && BlockSum(f, m, p, row, x, col + 1)
               == f.add(BlockSum(f, m, p, row, x, col),
                        KernelTerm(f, p, x[col], m.packedCodes[Element(m, row, start) / p + b], k,
                                   BlockScale(f, m, p, row, block)))
  {
    hide GridValue, BlockScale, Blocks, BlockStart, Element, DivCeil;
    CoveredInRow(m);
    InBlock(m, block, p * b + k);
    CodeInBounds(m, p, row, BlockStart(m, block) + p * b + k);
    ByteOfElement(m, p, row, block, b, k);
  }

  lemma SumZero<F>(f: Floats<F>, m: NdaMatrix<F>, p: nat, row: nat, x: seq<F>)
    requires BlockShape(m, p) && row < m.rows && |x| == m.cols
    ensures BlockStart(m, 0) == 0 <= Covered(m) && BlockSum(f, m, p, row, x, 0) == f.zero
  {
    hide DivCeil, Term;
  }

  // ----- the same sum, said of the codes the bytes spell

  /** Two four-bit codes to the byte, low first. */
  predicate SpellsNibbles(bytes: seq<bv8>, c: seq<nat>) {
    && |c| == 2 * |bytes|
    && (forall j :: 0 <= j < |c| ==> c[j] < 16)
    && forall i :: 0 <= i < |bytes| ==> bytes[i] as int == c[2 * i] + 16 * c[2 * i + 1]
  }

  /** Four two-bit codes to the byte, lowest first. */
  predicate SpellsCrumbs(bytes: seq<bv8>, c: seq<nat>) {
    && |c| == 4 * |bytes|
    && (forall j :: 0 <= j < |c| ==> c[j] < 4)
    && forall i :: 0 <= i < |bytes| ==>
         bytes[i] as int == c[4 * i] + 4 * c[4 * i + 1] + 16 * c[4 * i + 2] + 64 * c[4 * i + 3]
  }

  function CodeTerm<F>(f: Floats<F>, xj: F, weight: real, scale: bv8, matrixScale: F): F {
    f.mul(f.mul(xj, f.lit(weight)), f.mul(f.lit(scale as int as real), matrixScale))
  }

  /** One code for every field of every code byte, each on the grid. */
  ghost predicate OnGrid<F>(m: NdaMatrix<F>, p: nat, grid: seq<real>, c: seq<nat>) {
    |c| == p * |m.packedCodes| && forall j :: 0 <= j < |c| ==> c[j] < |grid|
  }

  /** The left-to-right sum of `x[j] * grid[code of j] * (scale of j's block * matrix scale)` over a row. */
  ghost function CodeSum<F>(f: Floats<F>, m: NdaMatrix<F>, p: nat, row: nat, x: seq<F>, grid: seq<real>, c: seq<nat>, n: nat): F
    requires BlockShape(m, p) && m.blockSize > 0 && row < m.rows && OnGrid(m, p, grid, c)
    requires |x| == m.cols && n <= m.cols / m.blockSize * m.blockSize
  {
    if n == 0 then f.zero
    else
      hide BlockShape, DivCeil, CodeTerm, ScaleIndex, Element;
      CodeSumBounds(m, p, row, n - 1);
      f.add(CodeSum(f, m, p, row, x, grid, c, n - 1),
            CodeTerm(f, x[n - 1], grid[c[Element(m, row, n - 1)]], m.qScales[ScaleIndex(m, row, n - 1)], m.scale))
  }

  function ScaleIndex<F>(m: NdaMatrix<F>, row: nat, col: nat): nat
    requires m.blockSize > 0
  {
    row * (m.cols / m.blockSize) + col / m.blockSize
  }

  lemma CodeSumBounds<F>(m: NdaMatrix<F>, p: nat, row: nat, col: nat)
    requires BlockShape(m, p) && row < m.rows && col < m.cols / m.blockSize * m.blockSize
    ensures col < m.cols && Element(m, row, col) < p * |m.packedCodes| && ScaleIndex(m, row, col) < |m.qScales|
  {
    assert col < Covered(m);
    hide BlockShape, DivCeil, Covered, Blocks, BlockStart, Element, BlockOf;
    TermBounds(m, p, col);
    ScaleInBounds(m, p, row, BlockOf(m, col));
    ScaleIndexIs(m, row, col);
    CodeInBounds(m, p, row, col);
    PackingPositive(m, p);
    QuotientBelow(Element(m, row, col), p, |m.packedCodes|);
  }

  lemma ScaleIndexIs<F>(m: NdaMatrix<F>, row: nat, col: nat)
    requires m.blockSize > 0
    ensures ScaleIndex(m, row, col) == row * Blocks(m) + BlockOf(m, col)
  {
  }

  lemma PackingPositive<F>(m: NdaMatrix<F>, p: nat)
    requires BlockShape(m, p)
    ensures p > 0 && m.blockSize > 0
  {
    hide DivCeil;
  }

  lemma QuotientBelow(e: nat, p: nat, n: nat)
    requires p > 0 && e / p < n
    ensures e < p * n
  {
    DivModDef(e, p);
    MulMono(e / p + 1, n, p);
  }

  /** The sum spelled out: one product per column, code `e` and scale `k` at their flat positions, from the left. */
  lemma CodeSumAdds<F>(f: Floats<F>, m: NdaMatrix<F>, p: nat, row: nat, x: seq<F>, grid: seq<real>, c: seq<nat>, j: nat,
                       e: nat, k: nat)
    requires BlockShape(m, p) && m.blockSize > 0 && row < m.rows && OnGrid(m, p, grid, c)
    requires |x| == m.cols && j < m.cols / m.blockSize * m.blockSize
    requires e == row * m.cols + j && k == row * (m.cols / m.blockSize) + j / m.blockSize
    requires j < m.cols && e < |c| && k < |m.qScales|
    ensures CodeSum(f, m, p, row, x, grid, c, j + 1)
         == f.add(CodeSum(f, m, p, row, x, grid, c, j),
                  f.mul(f.mul(x[j], f.lit(grid[c[e]])), f.mul(f.lit(m.qScales[k] as int as real), m.scale)))
  {
    hide BlockShape, DivCeil;
    CodeSumBounds(m, p, row, j);
  }

  lemma SameDigits(a: nat, aRest: nat, b: nat, bRest: nat, w: nat)
    requires a < w && b < w && aRest * w + a == bRest * w + b
    ensures a == b && aRest == bRest
  {
    DivModUnique(aRest * w + a, aRest, w, a);
    DivModUnique(bRest * w + b, bRest, w, b);
  }

  lemma NibbleIsCode(b: bv8, lo: nat, hi: nat)
    requires lo < 16 && hi < 16 && b as int == lo + 16 * hi
    ensures Nibble(b, false) == lo && Nibble(b, true) == hi
  {
    ByteValue(b);
    hide BitValue;
    SameDigits(Nibble(b, false), Nibble(b, true), lo, hi, 16);
  }

  lemma CrumbIsCode(b: bv8, c0: nat, c1: nat, c2: nat, c3: nat)
    requires c0 < 4 && c1 < 4 && c2 < 4 && c3 < 4 && b as int == c0 + 4 * c1 + 16 * c2 + 64 * c3
    ensures Crumb(b, 0) == c0 && Crumb(b, 1) == c1 && Crumb(b, 2) == c2 && Crumb(b, 3) == c3
  {
    ByteValue(b);
    hide BitValue;
    var d0, d1, d2, d3 := Crumb(b, 0), Crumb(b, 1), Crumb(b, 2), Crumb(b, 3);
    SameDigits(d0, d1 + 4 * (d2 + 4 * d3), c0, c1 + 4 * (c2 + 4 * c3), 4);
    SameDigits(d1, d2 + 4 * d3, c1, c2 + 4 * c3, 4);
    SameDigits(d2, d3, c2, c3, 4);
  }

  lemma NibbleValue(bytes: seq<bv8>, c: seq<nat>, e: nat)
    requires SpellsNibbles(bytes, c) && e < |c|
    ensures e / 2 < |bytes|
    ensures GridValue(2, bytes[e / 2], e % 2)
         == [0.0, 0.25, 1.0, 1.5, 2.0, 3.0, 4.0, 6.0, 0.0, -0.25, -1.0, -1.5, -2.0, -3.0, -4.0, -6.0][c[e]]
  {
    hide Nibble;
    var i := e / 2;
    NibbleIsCode(bytes[i], c[2 * i], c[2 * i + 1]);
    assert e == 2 * i || e == 2 * i + 1;
  }

  lemma CrumbValue(bytes: seq<bv8>, c: seq<nat>, e: nat)
    requires SpellsCrumbs(bytes, c) && e < |c|
    ensures e / 4 < |bytes|
    ensures GridValue(4, bytes[e / 4], e % 4) == [0.0, 1.0, 0.0, -1.0][c[e]]
  {
    hide Crumb;
    var i := e / 4;
    CrumbIsCode(bytes[i], c[4 * i], c[4 * i + 1], c[4 * i + 2], c[4 * i + 3]);
    assert e == 4 * i || e == 4 * i + 1 || e == 4 * i + 2 || e == 4 * i + 3;
  }

  /** The sum over decoded bytes is the sum over the codes they spell. */
  lemma {:induction false} BlockSumIsCodeSum<F>(f: Floats<F>, m: NdaMatrix<F>, p: nat, row: nat, x: seq<F>, grid: seq<real>, c: seq<nat>, n: nat)
    requires BlockShape(m, p) && row < m.rows && |x| == m.cols && n <= m.cols / m.blockSize * m.blockSize
    requires OnGrid(m, p, grid, c)
    requires forall e :: 0 <= e < |c| ==> e / p < |m.packedCodes| && GridValue(p, m.packedCodes[e / p], e % p) == grid[c[e]]
    ensures n <= Covered(m) && BlockSum(f, m, p, row, x, n) == CodeSum(f, m, p, row, x, grid, c, n)
  {
    hide GridValue, DivCeil;
    if n > 0 {
      BlockSumIsCodeSum(f, m, p, row, x, grid, c, n - 1);
      CodeSumBounds(m, p, row, n - 1);
    }
  }

  /** FP4 rows: low code first, on the sixteen-value grid. */
  lemma Fp4Sum<F>(f: Floats<F>, m: NdaMatrix<F>, row: nat, x: seq<F>, c: seq<nat>)
    requires BlockShape(m, 2) && row < m.rows && |x| == m.cols && SpellsNibbles(m.packedCodes, c)
    ensures BlockSum(f, m, 2, row, x, Covered(m))
         == CodeSum(f, m, 2, row, x, [0.0, 0.25, 1.0, 1.5, 2.0, 3.0, 4.0, 6.0, 0.0, -0.25, -1.0, -1.5, -2.0, -3.0, -4.0, -6.0],
                    c, m.cols / m.blockSize * m.blockSize)
  {
    hide GridValue, DivCeil, BlockSum, CodeSum;
    var grid := [0.0, 0.25, 1.0, 1.5, 2.0, 3.0, 4.0, 6.0, 0.0, -0.25, -1.0, -1.5, -2.0, -3.0, -4.0, -6.0];
    forall e | 0 <= e < |c|
      ensures e / 2 < |m.packedCodes| && GridValue(2, m.packedCodes[e / 2], e % 2) == grid[c[e]]
    {
      NibbleValue(m.packedCodes, c, e);
    }
    BlockSumIsCodeSum(f, m, 2, row, x, grid, c, m.cols / m.blockSize * m.blockSize);
  }

  /** FP2 rows: lowest code first, on the four-value grid. */
  lemma Fp2Sum<F>(f: Floats<F>, m: NdaMatrix<F>, row: nat, x: seq<F>, c: seq<nat>)
    requires BlockShape(m, 4) && row < m.rows && |x| == m.cols && SpellsCrumbs(m.packedCodes, c)
    ensures BlockSum(f, m, 4, row, x, Covered(m))
         == CodeSum(f, m, 4, row, x, [0.0, 1.0, 0.0, -1.0],
                    c, m.cols / m.blockSize * m.blockSize)
  {
    hide GridValue, DivCeil, BlockSum, CodeSum;
    var grid := [0.0, 1.0, 0.0, -1.0];
    forall e | 0 <= e < |c|
      ensures e / 4 < |m.packedCodes| && GridValue(4, m.packedCodes[e / 4], e % 4) == grid[c[e]]
    {
      CrumbValue(m.packedCodes, c, e);
    }
    BlockSumIsCodeSum(f, m, 4, row, x, grid, c, m.cols / m.blockSize * m.blockSize);
  }

  // ----- the kernels

  /** One row of `nda_gemv_fp4`: the blockwise sum over whole blocks is the naive one. */
  method Fp4Row<F>(f: Floats<F>, m: NdaMatrix<F>, x: seq<F>, row: nat) returns (acc: F)
    requires BlockShape(m, 2) && row < m.rows && |x| == m.cols
    ensures acc == BlockSum(f, m, 2, row, x, Covered(m))
  {
    hide BlockScale, BlockSum, GridValue, KernelTerm, Blocks, BlockStart, Element, DivCeil;
    acc := f.zero;
    SumZero(f, m, 2, row, x);
    for block := 0 to Blocks(m)
      invariant BlockStart(m, block) <= Covered(m)
      invariant acc == BlockSum(f, m, 2, row, x, BlockStart(m, block))
    {
      var scale := BlockScale(f, m, 2, row, block);
      var start := BlockStart(m, block);
      var startByte := Element(m, row, start) / 2;
      InBlock(m, block, 0);
      for pair := 0 to m.blockSize / 2
        invariant start + 2 * pair <= Covered(m)
        invariant acc == BlockSum(f, m, 2, row, x, start + 2 * pair)
      {
        KernelStep(f, m, 2, row, x, block, pair, 0);
        KernelStep(f, m, 2, row, x, block, pair, 1);
        var col0 := start + 2 * pair;
        var codes := m.packedCodes[startByte + pair];
        acc := f.add(acc, KernelTerm(f, 2, x[col0], codes, 0, scale));
        acc := f.add(acc, KernelTerm(f, 2, x[col0 + 1], codes, 1, scale));
      }
    }
  }

  /** One row of `nda_gemv_fp2`: four codes to the byte. */
  method Fp2Row<F>(f: Floats<F>, m: NdaMatrix<F>, x: seq<F>, row: nat) returns (acc: F)
    requires BlockShape(m, 4) && row < m.rows && |x| == m.cols
    ensures acc == BlockSum(f, m, 4, row, x, Covered(m))
  {
    hide BlockScale, BlockSum, GridValue, KernelTerm, Blocks, BlockStart, Element, DivCeil;
    acc := f.zero;
    SumZero(f, m, 4, row, x);
    for block := 0 to Blocks(m)
      invariant BlockStart(m, block) <= Covered(m)
      invariant acc == BlockSum(f, m, 4, row, x, BlockStart(m, block))
    {
      var scale := BlockScale(f, m, 4, row, block);
      var start := BlockStart(m, block);
      var startByte := Element(m, row, start) / 4;
      InBlock(m, block, 0);
      for quad := 0 to m.blockSize / 4
        invariant start + 4 * quad <= Covered(m)
        invariant acc == BlockSum(f, m, 4, row, x, start + 4 * quad)
      {
        KernelStep(f, m, 4, row, x, block, quad, 0);
        KernelStep(f, m, 4, row, x, block, quad, 1);
        KernelStep(f, m, 4, row, x, block, quad, 2);
        KernelStep(f, m, 4, row, x, block, quad, 3);
        var col0 := start + 4 * quad;
        var codes := m.packedCodes[startByte + quad];
        acc := f.add(acc, KernelTerm(f, 4, x[col0], codes, 0, scale));
        acc := f.add(acc, KernelTerm(f, 4, x[col0 + 1], codes, 1, scale));
        acc := f.add(acc, KernelTerm(f, 4, x[col0 + 2], codes, 2, scale));
        acc := f.add(acc, KernelTerm(f, 4, x[col0 + 3], codes, 3, scale));
      }
    }
  }
}
