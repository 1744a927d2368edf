/**
  dep/zlib/crc32.c, lines 344-425: the CRC of a concatenation by repeated squaring of GF(2)
  matrices. A matrix is the list of its columns; it stands for running n zero bits when
  multiplying by it does just that.
*/
module CrcCombine {
  import opened Crc

  const GF2_DIM := 32

  function MatTimes(mat: seq<bv32>, vec: bv32): bv32
    decreases |mat|
  {
    if mat == [] then 0 else Xor(Pick(vec, mat[0]), MatTimes(mat[1..], Half(vec)))
  }

  /** x if the lowest bit of v is set. */
  function Pick(v: bv32, x: bv32): bv32 {
    if v & 1 == 1 then x else 0
  }

  /** The matrix runs n zero bits. */
  ghost predicate Runs(mat: seq<bv32>, n: nat) {
    |mat| == GF2_DIM && forall v :: MatTimes(mat, v) == Zeros(v, n)
  }

  // ----- multiplying -----

  lemma ZeroVector(mat: seq<bv32>)
    ensures MatTimes(mat, 0) == 0
    decreases |mat|
  {
    if mat != [] {
      HalfZero();
      ZeroVector(mat[1..]);
      XorZero(0);
      assert Pick(0, mat[0]) == 0;
    }
  }

  lemma HalfZero()
    ensures Half(0) == 0
  {
  }

  /** The product is the sum so far, and the columns from k on times what is left of the vector. */
  ghost predicate Summing(mat: seq<bv32>, vec0: bv32, sum: bv32, vec: bv32, k: int) {
    && 0 <= k <= GF2_DIM == |mat| && Fits(vec, 32 - k)
    && Xor(sum, MatTimes(mat[k..], vec)) == MatTimes(mat, vec0)
  }

  lemma SummingStart(mat: seq<bv32>, vec0: bv32)
    requires |mat| == GF2_DIM
    ensures Summing(mat, vec0, 0, vec0, 0)
  {
    hide Xor, MatTimes, Fits;
    assert mat[0..] == mat;
    XorZero(MatTimes(mat, vec0));
    AllFits(vec0);
  }

  lemma MatNext(mat: seq<bv32>, vec: bv32)
    requires mat != []
    ensures MatTimes(mat, vec) == Xor(Pick(vec, mat[0]), MatTimes(mat[1..], Half(vec)))
  {
  }

  lemma SummingStep(mat: seq<bv32>, vec0: bv32, sum: bv32, vec: bv32, k: int)
    requires Summing(mat, vec0, sum, vec, k) && vec != 0
    ensures k < |mat| && Summing(mat, vec0, Xor(sum, Pick(vec, mat[k])), Half(vec), k + 1)
  {
    hide Xor, Half, Fits, Pick, MatTimes;
    NothingLeft(vec, 32 - k);
    MatNext(mat[k..], vec);
    assert mat[k..][1..] == mat[k + 1..];
    XorAssoc(sum, Pick(vec, mat[k]), MatTimes(mat[k + 1..], Half(vec)));
    TopHalf(vec, 32 - k);
  }

  lemma SummingEnd(mat: seq<bv32>, vec0: bv32, sum: bv32, k: int)
    requires Summing(mat, vec0, sum, 0, k)
    ensures sum == MatTimes(mat, vec0)
  {
    hide MatTimes, Fits;
    ZeroVector(mat[k..]);
    XorZero(sum);
  }

  /** gf2_matrix_times. */
  method GF2MatrixTimes(mat: array<bv32>, vec0: bv32) returns (sum: bv32)
    requires mat.Length == GF2_DIM
    ensures sum == MatTimes(mat[..], vec0)
  {
    hide Xor, Half, Pick, Summing, MatTimes;
    SummingStart(mat[..], vec0);
    sum := 0;
    var vec, k := vec0, 0;
    while vec != 0
      invariant 0 <= k <= GF2_DIM && Summing(mat[..], vec0, sum, vec, k)
      decreases GF2_DIM - k
    {
      SummingStep(mat[..], vec0, sum, vec, k);
      PickXor(sum, vec, mat[k]);
      if vec & 1 == 1 { sum := Xor(sum, mat[k]); }
      vec := Half(vec);
      k := k + 1;
    }
    SummingEnd(mat[..], vec0, sum, k);
  }

  lemma PickXor(sum: bv32, vec: bv32, x: bv32)
    ensures Xor(sum, Pick(vec, x)) == if vec & 1 == 1 then Xor(sum, x) else sum
  {
    XorZero(sum);
  }

  /** Running more zero bits over every column runs them over every product. */
  lemma {:induction false} Through(mat: seq<bv32>, sq: seq<bv32>, n: nat, v: bv32)
    requires |mat| == |sq| && forall i :: 0 <= i < |mat| ==> sq[i] == Zeros(mat[i], n)
    ensures MatTimes(sq, v) == Zeros(MatTimes(mat, v), n)
    decreases |mat|
  {
    hide Xor, Half, Zeros;
    ZerosOfZero(n);
    if mat != [] {
      Through(mat[1..], sq[1..], n, Half(v));
      ZerosXor(Pick(v, mat[0]), MatTimes(mat[1..], Half(v)), n);
    }
  }

  /** gf2_matrix_square: the square runs twice as many zero bits. */
  method GF2MatrixSquare(square: array<bv32>, mat: array<bv32>, ghost n: nat)
    requires square != mat && square.Length == mat.Length == GF2_DIM && Runs(mat[..], n)
    modifies square
    ensures Runs(square[..], 2 * n)
  {
    hide Zeros, MatTimes;
    for i := 0 to GF2_DIM
      invariant forall k :: 0 <= k < i ==> square[k] == Zeros(mat[k], n)
    {
      square[i] := GF2MatrixTimes(mat, mat[i]);
    }
    forall v ensures MatTimes(square[..], v) == Zeros(v, 2 * n) {
      Through(mat[..], square[..], n, v);
      ZerosAdd(v, n, n);
    }
  }

  // ----- the operator for one zero bit -----

  /** A word is its lowest bit and the rest. */
  lemma Parts(w: bv32)
    ensures Xor(Pick(w, 1), Double(Half(w))) == w
  {
    WordParts(w);
    LowBit(w);
    assert Pick(w, 1) == w & 1;
  }

  lemma WordParts(w: bv32)
    ensures (w & 1) ^ ((w >> 1) << 1) == w
  {
  }

  lemma LowBit(w: bv32)
    ensures w & 1 == 0 || w & 1 == 1
  {
  }

  /** Rows 1 << j, 1 << (j + 1), ...: multiplying by them shifts by j. */
  ghost predicate Powers(mat: seq<bv32>, j: nat) {
    forall i :: 0 <= i < |mat| ==> mat[i] == Up(1, j + i)
  }

  lemma {:induction false} PowersTimes(mat: seq<bv32>, j: nat, w: bv32)
    requires Powers(mat, j) && |mat| <= 32 && Fits(w, |mat|)
    ensures MatTimes(mat, w) == Up(w, j)
    decreases |mat|
  {
    hide Xor, Half, Fits, Pick, Double, Up, MatTimes;
    NothingLeft(w, |mat|);
    if mat == [] {
      UpZero(j);
      ZeroVector(mat);
    } else {
      TopHalf(w, |mat|);
      PowersTimes(mat[1..], j + 1, Half(w));
      MatNext(mat, w);
      PickUp(w, j);
      UpDouble(Half(w), j);
      UpXor(Pick(w, 1), Double(Half(w)), j);
      Parts(w);
    }
  }

  lemma PickUp(w: bv32, j: nat)
    ensures Pick(w, Up(1, j)) == Up(Pick(w, 1), j)
  {
    UpZero(j);
  }

  /** The polynomial and 1, 2, 4, ...: one bit of the shift register. */
  lemma OneBitMatrix(mat: seq<bv32>)
    requires |mat| == GF2_DIM && mat[0] == POLY && Powers(mat[1..], 0)
    ensures Runs(mat, 1)
  {
    hide Xor, Half, Fits, Pick, MatTimes, Powers, Low;
    forall v ensures MatTimes(mat, v) == Zeros(v, 1) {
      MatNext(mat, v);
      AllFits(v);
      TopHalf(v, 32);
      PowersTimes(mat[1..], 0, Half(v));
      LowPick(v);
      XorComm(Half(v), Low(v));
      assert Zeros(v, 1) == Zeros(Bit(v), 0);
    }
  }

  lemma LowPick(v: bv32)
    ensures Low(v) == Pick(v, POLY)
  {
  }

  // ----- crc32_combine_ -----

  /** The matrix for one zero bit. */
  method OneBit(odd: array<bv32>)
    requires odd.Length == GF2_DIM
    modifies odd
    ensures Runs(odd[..], 1)
  {
    hide Up, Double, Runs;
    odd[0] := POLY;
    UpNone(1);
    var row: bv32 := 1;
    for n := 1 to GF2_DIM
      invariant odd[0] == POLY && row == Up(1, n - 1)
      invariant forall i :: 0 <= i < n - 1 ==> odd[i + 1] == Up(1, i)
    {
      UpNext(1, n - 1);
      odd[n] := row;
      row := Double(row);
    }
    forall i | 0 <= i < |odd[1..]| ensures odd[1..][i] == Up(1, 0 + i) {
      assert odd[1..][i] == odd[i + 1];
    }
    OneBitMatrix(odd[..]);
  }

  /** What crc32_combine_ computes. */
  function Combine(crc1: bv32, crc2: bv32, len2: int): bv32 {
    if len2 <= 0 then crc1 else Xor(Zeros(crc1, 8 * len2), crc2)
  }

  /** One bit of the length: the operator for q zero bits is applied if the bit is set. */
  lemma ForThisBit(c: bv32, q: nat, len: nat)
    ensures Zeros(if len % 2 == 1 then Zeros(c, q) else c, 2 * q * (len / 2)) == Zeros(c, q * len)
  {
    var h := len / 2;
    if len % 2 == 1 {
      ZerosAdd(c, q, 2 * q * h);
      OddTimes(q, h);
    } else {
      EvenTimes(q, h);
    }
  }

  lemma OddTimes(q: int, h: int)
    ensures q + 2 * q * h == q * (2 * h + 1)
  {
  }

  lemma EvenTimes(q: int, h: int)
    ensures 2 * q * h == q * (2 * h)
  {
  }

  /** The zero bits still to be run, when the operator at hand runs n and its square is for the lowest bit of len. */
  function Span(n: nat, len: nat): nat {
    2 * n * len
  }

  lemma NoSpan(n: nat)
    ensures Span(n, 0) == 0
  {
  }

  lemma FirstSpan(len: nat)
    ensures Span(4, len) == 8 * len
  {
  }

  /** One step of the loop of crc32_combine_: square, apply if the bit is set, and drop the bit. */
  method ApplyBit(square: array<bv32>, mat: array<bv32>, crc: bv32, len: nat, ghost n: nat)
    returns (crc': bv32, len': nat)
    requires square != mat && square.Length == mat.Length == GF2_DIM && Runs(mat[..], n)
    modifies square
    ensures Runs(square[..], 2 * n) && len' == len / 2
    ensures Zeros(crc', Span(2 * n, len')) == Zeros(crc, Span(n, len))
  {
    hide Zeros, MatTimes;
    GF2MatrixSquare(square, mat, n);
    ForThisBit(crc, 2 * n, len);
    crc' := crc;
    if len % 2 == 1 { crc' := GF2MatrixTimes(square, crc); }
    len' := len / 2;
  }

  /** crc32_combine_: the even and the odd matrix take turns, each the square of the other. */
  method Crc32Combine(crc1: bv32, crc2: bv32, len2: int) returns (crc: bv32)
    ensures crc == Combine(crc1, crc2, len2)
  {
    hide Zeros, MatTimes, Runs, Span;
    if len2 <= 0 { return crc1; }
    var even, odd := new bv32[GF2_DIM], new bv32[GF2_DIM];
    OneBit(odd);
    GF2MatrixSquare(even, odd, 1);
    GF2MatrixSquare(odd, even, 2);
    crc := crc1;
    var len: nat := len2;
    ghost var n: nat := 4;
    FirstSpan(len);
    while true
      invariant len > 0 && Runs(odd[..], n) && Zeros(crc, Span(n, len)) == Zeros(crc1, 8 * len2)
      decreases len
    {
      crc, len := ApplyBit(even, odd, crc, len, n);
      if len == 0 {
        NoSpan(2 * n);
        break;
      }
      crc, len := ApplyBit(odd, even, crc, len, 2 * n);
      n := 4 * n;
      if len == 0 {
        NoSpan(n);
        break;
      }
    }
    NoZeros(crc);
    return Xor(crc, crc2);
  }

  /** crc32_combine_ of the CRCs of two byte strings and the length of the second is the CRC of both together. */
  lemma CombineCorrect(a: seq<bv8>, b: seq<bv8>)
    ensures Combine(Crc32(0, a), Crc32(0, b), |b|) == Crc32(0, a + b)
  {
    hide Zeros, Register, Xor;
    if b == [] {
      assert a + b == a;
    } else {
      CrcConcat(a, b);
    }
  }
}
