/** The packed weight matrix shared by every NDA kernel, over an arbitrary scalar type. */
module Matrix {

  const NDA_V1_TERN: nat := 1
  const NDA_V2_QUAD: nat := 2
  const NDA_VERSION_FP4: nat := 3
  const NDA_VERSION_FP2: nat := 4

  datatype NdaMatrix<F> = NdaMatrix(
    rows: nat,
    cols: nat,
    scale: F,
    version: nat,
    sign: seq<bv8>,
    extra: seq<bv8>,
    blockSize: nat,
    nBlocks: nat,
    qScales: seq<bv8>,
    packedCodes: seq<bv8>)

  datatype MatrixError =
    | ZeroDimension
    | SignSize(expected: nat, got: nat)
    | ExtraSize(expected: nat, got: nat)
    | BlockSizeZero
    | PackedCodesSize(expected: nat, got: nat)
    | QScalesSize(expected: nat, got: nat)
    | UnknownVersion
    | InvalidScale

  /** `n.div_ceil(d)`. */
  function DivCeil(n: nat, d: nat): (q: nat)
    requires d > 0
    ensures d * q >= n
    ensures q > 0 ==> d * (q - 1) < n
  {
    (n + d - 1) / d
  }

  function ErrorIf(bad: bool, e: MatrixError): seq<MatrixError> {
    if bad then [e] else []
  }

  function BitmapErrors<F>(m: NdaMatrix<F>): seq<MatrixError> {
    var expected := DivCeil(m.rows * m.cols, 8);
    ErrorIf(|m.sign| != expected, SignSize(expected, |m.sign|))
    + ErrorIf(|m.extra| != expected, ExtraSize(expected, |m.extra|))
  }

  /** Elements packed in one byte of codes. */
  function CodesPerByte(version: nat): (n: nat)
    ensures n in {2, 4}
  {
    if version == NDA_VERSION_FP4 then 2 else 4
  }

  function BlockErrors<F>(m: NdaMatrix<F>): seq<MatrixError> {
    var expected := DivCeil(m.rows * m.cols, CodesPerByte(m.version));
    ErrorIf(m.blockSize == 0, BlockSizeZero)
    + ErrorIf(|m.packedCodes| != expected, PackedCodesSize(expected, |m.packedCodes|))
    + (if m.nBlocks > 0 && m.blockSize > 0 then
         var scales := m.rows * (m.cols / m.blockSize);
         ErrorIf(|m.qScales| != scales, QScalesSize(scales, |m.qScales|))
       else [])
  }

  /** `NdaMatrix::validate`; whether the scale is finite is a fact about the scalar type. */
  function Validate<F>(m: NdaMatrix<F>, scaleFinite: bool): seq<MatrixError> {
    ErrorIf(m.rows == 0 || m.cols == 0, ZeroDimension)
    + (if m.version == NDA_V1_TERN || m.version == NDA_V2_QUAD then BitmapErrors(m)
       else if m.version == NDA_VERSION_FP4 || m.version == NDA_VERSION_FP2 then BlockErrors(m)
       else [UnknownVersion])
    + ErrorIf(!scaleFinite, InvalidScale)
  }

  /** No error is reported exactly when the dimensions, the version, the vector lengths and the scale are right. */
  lemma ValidateIff<F>(m: NdaMatrix<F>, scaleFinite: bool)
    ensures Validate(m, scaleFinite) == [] <==>
            && m.rows > 0 && m.cols > 0 && scaleFinite
            && 1 <= m.version <= 4
            && (m.version <= 2 ==> |m.sign| == |m.extra| == DivCeil(m.rows * m.cols, 8))
            && (m.version == 3 ==> |m.packedCodes| == DivCeil(m.rows * m.cols, 2))
            && (m.version == 4 ==> |m.packedCodes| == DivCeil(m.rows * m.cols, 4))
            && (m.version >= 3 ==> m.blockSize > 0)
            && (m.version >= 3 && m.nBlocks > 0 && m.blockSize > 0 ==>
                  |m.qScales| == m.rows * (m.cols / m.blockSize))
  {
    hide DivCeil;
    var n := |Validate(m, scaleFinite)|;
    assert n == 0 <==> Validate(m, scaleFinite) == [];
  }

  lemma InErrorIf(bad: bool, e: MatrixError, x: MatrixError)
    ensures x in ErrorIf(bad, e) <==> bad && x == e
  {
  }

  /** Which bitmap errors are reported, with the expected and the actual size. */
  lemma BitmapReports<F>(m: NdaMatrix<F>, x: MatrixError)
    ensures x in BitmapErrors(m) <==>
            var n := DivCeil(m.rows * m.cols, 8);
            (x == SignSize(n, |m.sign|) && |m.sign| != n) || (x == ExtraSize(n, |m.extra|) && |m.extra| != n)
  {
    hide DivCeil, ErrorIf;
    var n := DivCeil(m.rows * m.cols, 8);
    InErrorIf(|m.sign| != n, SignSize(n, |m.sign|), x);
    InErrorIf(|m.extra| != n, ExtraSize(n, |m.extra|), x);
  }

  /** Which block errors are reported. */
  lemma BlockReports<F>(m: NdaMatrix<F>, x: MatrixError)
    ensures x in BlockErrors(m) <==>
            var n := DivCeil(m.rows * m.cols, if m.version == 3 then 2 else 4);
            || (x == BlockSizeZero && m.blockSize == 0)
            || (x == PackedCodesSize(n, |m.packedCodes|) && |m.packedCodes| != n)
            || (m.nBlocks > 0 && m.blockSize > 0 && x == QScalesSize(m.rows * (m.cols / m.blockSize), |m.qScales|)
                && |m.qScales| != m.rows * (m.cols / m.blockSize))
  {
    hide DivCeil, ErrorIf;
    var n := DivCeil(m.rows * m.cols, CodesPerByte(m.version));
    InErrorIf(m.blockSize == 0, BlockSizeZero, x);
    InErrorIf(|m.packedCodes| != n, PackedCodesSize(n, |m.packedCodes|), x);
    if m.nBlocks > 0 && m.blockSize > 0 {
      var k := m.rows * (m.cols / m.blockSize);
      InErrorIf(|m.qScales| != k, QScalesSize(k, |m.qScales|), x);
    }
  }

  /** Which errors `validate` reports at all. */
  lemma ValidateReports<F>(m: NdaMatrix<F>, scaleFinite: bool, x: MatrixError)
    ensures x in Validate(m, scaleFinite) <==>
            || (x == ZeroDimension && (m.rows == 0 || m.cols == 0))
            || (x == InvalidScale && !scaleFinite)
            || (x == UnknownVersion && (m.version == 0 || m.version > 4))
            || (m.version in {1, 2} && x in BitmapErrors(m))
            || (m.version in {3, 4} && x in BlockErrors(m))
  {
    hide ErrorIf, BitmapErrors, BlockErrors;
    InErrorIf(m.rows == 0 || m.cols == 0, ZeroDimension, x);
    InErrorIf(!scaleFinite, InvalidScale, x);
  }
}
