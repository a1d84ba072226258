/** The GF(2) matrix machinery of mitm_cracker.c (lines 63-185), in the style of
    zlib's `crc32_combine`: a 32x32 bit matrix is 32 rows of bv32, row i being
    the image of the register bit i; multiplying a vector XORs the rows of its
    set bits. Squaring matrices that stand for zero bits doubles the number of
    zero bits they stand for, which is how the shift by a run of zero bytes is
    built. */
module Gf2 {
  import opened Iteration
  import opened Crc

  // ---------------------------------------------------------------------------
  // Vectors, unit vectors and the matrix-vector product.

  /** Shift one bit position towards the high end (`row <<= 1`). */
  function ShiftUp(x: bv32): bv32 { x << 1 }

  /** Shift one bit position towards the low end (`vec >>= 1`). */
  function Half(x: bv32): bv32 { x >> 1 }

  /** The vector with only bit j set (j < 32). */
  function Unit(j: nat): bv32 { Iterate(j, ShiftUp, 1) }

  /** The row when the low bit of v is set, nothing otherwise. */
  function Pick(v: bv32, row: bv32): bv32 { if v & 1 == 1 then row else 0 }

  /** The product of the rows m with v: row i is XORed in when bit i of v is
      set (`gf2_matrix_times`). */
  function Times(m: seq<bv32>, v: bv32): bv32
    decreases |m|
  {
    if m == [] then 0 else Xor(Pick(v, m[0]), Times(m[1..], Half(v)))
  }

  /** Rows m, standing for bit positions s onwards, are the images of those
      unit vectors after k zero bits. */
  ghost predicate RepresentsFrom(m: seq<bv32>, s: nat, k: nat)
  {
    s + |m| == 32 && forall j :: 0 <= j < |m| ==> m[j] == ZeroBits(k, Unit(s + j))
  }

  /** The 32 rows m are the matrix of k zero bits. */
  ghost predicate Represents(m: seq<bv32>, k: nat)
  {
    |m| == 32 && forall j {:trigger ZeroBits(k, Unit(j))} :: 0 <= j < 32 ==> m[j] == ZeroBits(k, Unit(j))
  }

  // ---------------------------------------------------------------------------
  // Bit facts, one goal each.

  lemma XorZero()
    ensures forall a :: Xor(a, 0) == a && Xor(0, a) == a
  {
  }

  lemma ShiftUpLinear(a: bv32, b: bv32)
    ensures ShiftUp(a ^ b) == ShiftUp(a) ^ ShiftUp(b)
  {
  }

  lemma ShiftUpAdditive()
    ensures forall a, b :: ShiftUp(Xor(a, b)) == Xor(ShiftUp(a), ShiftUp(b))
  {
    forall a, b ensures ShiftUp(Xor(a, b)) == Xor(ShiftUp(a), ShiftUp(b)) {
      ShiftUpLinear(a, b);
    }
  }

  /** v is its low bit plus the rest shifted back up. */
  lemma SplitLow(v: bv32)
    ensures v == Xor(v & 1, ShiftUp(Half(v)))
  {
  }

  lemma LowBitCases(v: bv32)
    ensures v & 1 == 1 || v & 1 == 0
  {
  }

  lemma HalfLinear(a: bv32, b: bv32)
    ensures Half(Xor(a, b)) == Xor(Half(a), Half(b))
  {
  }

  lemma PickLinear(a: bv32, b: bv32, row: bv32)
    ensures Pick(Xor(a, b), row) == Xor(Pick(a, row), Pick(b, row))
  {
    LowBitOfXor(a, b);
    LowBitCases(a);
    LowBitCases(b);
    XorSelf();
    if a & 1 == 1 {
      if b & 1 == 1 {
        assert Xor(a, b) & 1 == 0;
      } else {
        assert Xor(a, b) & 1 == 1;
      }
    } else {
      if b & 1 == 1 {
        assert Xor(a, b) & 1 == 1;
      } else {
        assert Xor(a, b) & 1 == 0;
      }
    }
  }


  lemma LowBitOfXor(a: bv32, b: bv32)
    ensures Xor(a, b) & 1 == (a & 1) ^ (b & 1)
  {
  }

  lemma HalfZero()
    ensures Half(0) == 0
  {
  }

  lemma ShiftUpZero()
    ensures ShiftUp(0) == 0
  {
  }

  lemma ShiftBitZero()
    ensures ShiftBit(0) == 0
  {
  }

  lemma ByteOfHalves(x: bv32)
    ensures Half(Half(Half(Half(Half(Half(Half(Half(x)))))))) == x >> 8
  {
  }

  lemma ByteOfShiftUps(x: bv32)
    ensures ShiftUp(ShiftUp(ShiftUp(ShiftUp(ShiftUp(ShiftUp(ShiftUp(ShiftUp(x)))))))) == x << 8
  {
  }

  lemma FourBytesDown(x: bv32)
    ensures (((x >> 8) >> 8) >> 8) >> 8 == 0
  {
  }

  lemma FourBytesUp(x: bv32)
    ensures (((x << 8) << 8) << 8) << 8 == 0
  {
  }

  // ---------------------------------------------------------------------------
  // Generic facts about iterating.

  /** A fixed point stays fixed. */
  lemma {:induction false} IterateFixed<T>(k: nat, f: T -> T, c: T)
    requires f(c) == c
    ensures Iterate(k, f, c) == c
    decreases k
  {
    if k > 0 {
      IterateFixed(k - 1, f, c);
    }
  }

  lemma Iterate8<T>(f: T -> T, c: T)
    ensures Iterate(8, f, c) == f(f(f(f(f(f(f(f(c))))))))
  {
    assert Iterate(8, f, c) == Iterate(7, f, f(c));
    assert Iterate(7, f, f(c)) == Iterate(6, f, f(f(c)));
  }

  /** Four steps of 8 are 32 steps. */
  lemma Iterate32<T>(f: T -> T, c: T)
    ensures Iterate(32, f, c) == Iterate(8, f, Iterate(8, f, Iterate(8, f, Iterate(8, f, c))))
  {
    IterateAdd(8, 24, f, c);
    IterateAdd(8, 16, f, Iterate(8, f, c));
    IterateAdd(8, 8, f, Iterate(8, f, Iterate(8, f, c)));
  }

  /** Thirty-two halvings leave nothing. */
  lemma HalfAll(v: bv32)
    ensures Iterate(32, Half, v) == 0
  {
    Iterate32(Half, v);
    forall x ensures Iterate(8, Half, x) == x >> 8 {
      Iterate8(Half, x);
      ByteOfHalves(x);
    }
    FourBytesDown(v);
  }

  /** Thirty-two shifts up leave nothing. */
  lemma ShiftUpAll(v: bv32)
    ensures Iterate(32, ShiftUp, v) == 0
  {
    Iterate32(ShiftUp, v);
    forall x ensures Iterate(8, ShiftUp, x) == x << 8 {
      Iterate8(ShiftUp, x);
      ByteOfShiftUps(x);
    }
    FourBytesUp(v);
  }

  lemma ZeroBitsOfZero(k: nat)
    ensures ZeroBits(k, 0) == 0
  {
    ShiftBitZero();
    IterateFixed(k, ShiftBit, 0);
  }

  lemma IterateZeroShiftUp(s: nat)
    ensures Iterate(s, ShiftUp, 0) == 0
  {
    ShiftUpZero();
    IterateFixed(s, ShiftUp, 0);
  }

  /** The low bit of w, carried up s positions, is unit s or nothing. */
  lemma LowBitUp(w: bv32, s: nat)
    ensures Iterate(s, ShiftUp, w & 1) == if w & 1 == 1 then Unit(s) else 0
  {
    LowBitCases(w);
    if w & 1 == 0 {
      IterateZeroShiftUp(s);
    }
  }

  /** k zero bits on the low bit of w carried up s positions pick row s. */
  lemma PickUp(w: bv32, s: nat, k: nat)
    ensures ZeroBits(k, Iterate(s, ShiftUp, w & 1)) == Pick(w, ZeroBits(k, Unit(s)))
  {
    LowBitUp(w, s);
    if w & 1 != 1 {
      ZeroBitsOfZero(k);
    }
  }

  /** Carrying w up s positions splits into its low bit and the rest. */
  lemma UpSplit(w: bv32, s: nat)
    ensures Iterate(s, ShiftUp, w) == Xor(Iterate(s, ShiftUp, w & 1), Iterate(s + 1, ShiftUp, Half(w)))
  {
    SplitLow(w);
    ShiftUpAdditive();
    IterateAdditive(s, ShiftUp, Xor, w & 1, ShiftUp(Half(w)));
  }

  /** One row of the product: the head row is picked by the low bit, the
      rest of the vector goes to the remaining rows. */
  lemma TimesHead(w: bv32, s: nat, k: nat)
    ensures ZeroBits(k, Iterate(s, ShiftUp, w))
         == Xor(Pick(w, ZeroBits(k, Unit(s))), ZeroBits(k, Iterate(s + 1, ShiftUp, Half(w))))
  {
    UpSplit(w, s);
    ZeroBitsLinear(k, Iterate(s, ShiftUp, w & 1), Iterate(s + 1, ShiftUp, Half(w)));
    PickUp(w, s, k);
  }

  /** The product of rows for bit positions s onwards with w is k zero bits
      applied to w carried up s positions: bits of w past the last row are
      dropped on both sides. */
  lemma {:induction false} TimesFrom(m: seq<bv32>, s: nat, k: nat, w: bv32)
    requires RepresentsFrom(m, s, k)
    ensures Times(m, w) == ZeroBits(k, Iterate(s, ShiftUp, w))
    decreases |m|
  {
    if m == [] {
      ShiftUpAll(w);
      ZeroBitsOfZero(k);
    } else {
      var rest := m[1..];
      assert RepresentsFrom(rest, s + 1, k) by {
        forall j | 0 <= j < |rest| ensures rest[j] == ZeroBits(k, Unit(s + 1 + j)) {
          assert rest[j] == m[j + 1];
        }
      }
      TimesFrom(rest, s + 1, k, Half(w));
      assert m[0] == ZeroBits(k, Unit(s + 0));
      TimesHead(w, s, k);
    }
  }

  /** The product with a matrix of k zero bits is k zero bits. */
  lemma TimesRepresents(m: seq<bv32>, k: nat, v: bv32)
    requires Represents(m, k)
    ensures Times(m, v) == ZeroBits(k, v)
  {
    assert RepresentsFrom(m, 0, k);
    TimesFrom(m, 0, k, v);
  }

  /** `gf2_matrix_times` is linear over XOR, whatever the rows. */
  lemma {:induction false} TimesLinear(m: seq<bv32>, a: bv32, b: bv32)
    ensures Times(m, Xor(a, b)) == Xor(Times(m, a), Times(m, b))
    decreases |m|
  {
    if m != [] {
      TimesLinear(m[1..], Half(a), Half(b));
      HalfLinear(a, b);
      PickLinear(a, b, m[0]);
      XorAssoc();
      XorComm();
    }
  }

  /** Nothing times any matrix is nothing, so the product may stop as soon
      as the vector runs out of set bits. */
  lemma {:induction false} TimesOfZero(m: seq<bv32>)
    ensures Times(m, 0) == 0
    decreases |m|
  {
    if m != [] {
      TimesOfZero(m[1..]);
      HalfZero();
    }
  }

  // ---------------------------------------------------------------------------
  // Unit vectors and the two starting matrices.

  lemma ShiftOnceBits(j: bv32)
    requires j < 31
    ensures ((1 as bv32) << j) << 1 == (1 as bv32) << (j + 1)
  {
  }

  lemma ShiftOnce(j: nat)
    requires j < 31
    ensures ((1 as bv32) << j) << 1 == (1 as bv32) << (j + 1)
  {
    ShiftOnceBits(j as bv32);
  }

  /** Unit j is `1 << j`. */
  lemma {:induction false} UnitIsShift(j: nat)
    requires j < 32
    ensures Unit(j) == (1 as bv32) << j
    decreases j
  {
    if j > 0 {
      UnitIsShift(j - 1);
      IterateSnoc(j - 1, ShiftUp, 1);
      ShiftOnce(j - 1);
    }
  }

  lemma ShiftBitOfOne()
    ensures ShiftBit(1) == POLY
  {
  }

  lemma ShiftBitOfShiftBits(j: bv32)
    requires 1 <= j < 32
    ensures ShiftBit((1 as bv32) << j) == (1 as bv32) << (j - 1)
  {
  }

  lemma ShiftBitOfShift(j: nat)
    requires 1 <= j < 32
    ensures ShiftBit((1 as bv32) << j) == (1 as bv32) << (j - 1)
  {
    ShiftBitOfShiftBits(j as bv32);
  }

  /** One zero bit moves unit j down to unit j - 1, and unit 0 onto the
      polynomial: the rows of the `odd` matrix. */
  lemma OneZeroBitOfUnit(j: nat)
    requires j < 32
    ensures ZeroBits(1, Unit(j)) == if j == 0 then POLY else Unit(j - 1)
  {
    assert ZeroBits(1, Unit(j)) == ShiftBit(Unit(j));
    UnitIsShift(j);
    if j == 0 {
      ShiftBitOfOne();
    } else {
      ShiftBitOfShift(j);
      UnitIsShift(j - 1);
    }
  }

  /** `row <<= 1` walks from one unit vector to the next. */
  lemma UnitUp(j: nat)
    ensures Unit(j) << 1 == Unit(j + 1)
  {
    IterateSnoc(j, ShiftUp, 1);
  }

  /** The rows of the identity matrix stand for no zero bits. */
  lemma ZeroBitsNone(c: bv32)
    ensures ZeroBits(0, c) == c
  {
  }

  /** The rows c[i] = a * b[i] stand for x + y zero bits when a stands for x
      and b for y: a product of two matrices, and a square when a == b. */
  lemma ComposeRepresents(a: seq<bv32>, x: nat, b: seq<bv32>, y: nat, c: seq<bv32>)
    requires Represents(a, x) && Represents(b, y)
    requires |c| == 32 && forall i :: 0 <= i < 32 ==> c[i] == Times(a, b[i])
    ensures Represents(c, x + y)
  {
    forall i | 0 <= i < 32 ensures c[i] == ZeroBits(x + y, Unit(i)) {
      assert b[i] == ZeroBits(y, Unit(i));
      TimesRepresents(a, x, b[i]);
      IterateAdd(y, x, ShiftBit, Unit(i));
    }
  }

  // ---------------------------------------------------------------------------
  // The C routines over arrays.

  /** One step of the product loop. */
  lemma TimesStep(m: seq<bv32>, i: nat, v: bv32, sum: bv32)
    requires i < |m|
    ensures Xor(sum, Times(m[i..], v))
         == Xor(if v & 1 == 1 then Xor(sum, m[i]) else sum, Times(m[i + 1..], Half(v)))
  {
    assert m[i..][1..] == m[i + 1..];
    XorAssoc();
    XorZero();
  }

  /** `gf2_matrix_times`: XOR the rows of the set bits of vec, stopping once
      no set bit is left. */
  method MatTimes(mat: array<bv32>, vec: bv32) returns (sum: bv32)
    requires mat.Length == 32
    ensures sum == Times(mat[..], vec)
  {
    sum := 0;
    var v := vec;
    var i := 0;
    XorZero();
    assert mat[0..] == mat[..];
    while v != 0
      invariant 0 <= i <= 32
      invariant v == Iterate(i, Half, vec)
      invariant Xor(sum, Times(mat[i..], v)) == Times(mat[..], vec)
      decreases 32 - i
    {
      if i == 32 {
        HalfAll(vec);
      }
      TimesStep(mat[..], i, v, sum);
      if v & 1 == 1 {
        sum := Xor(sum, mat[i]);
      }
      IterateSnoc(i, Half, vec);
      v := v >> 1;
      i := i + 1;
    }
    TimesOfZero(mat[i..]);
  }

  /** `gf2_matrix_square`: square[n] is mat times its own row n. */
  method MatSquare(square: array<bv32>, mat: array<bv32>)
    requires square.Length == 32 && mat.Length == 32 && square != mat
    modifies square
    ensures forall n :: 0 <= n < 32 ==> square[n] == Times(mat[..], mat[n])
  {
    for n := 0 to 32
      invariant forall j :: 0 <= j < n ==> square[j] == Times(mat[..], mat[j])
    {
      square[n] := MatTimes(mat, mat[n]);
    }
  }

  /** Row j of the `odd` matrix as the C code fills it: the polynomial in
      row 0, unit j - 1 in the others. */
  function OddRow(j: nat): bv32
  {
    if j == 0 then POLY else Unit(j - 1)
  }

  /** The `odd` matrix is the matrix of one zero bit. */
  lemma OddRepresents(m: seq<bv32>)
    requires |m| == 32 && forall j :: 0 <= j < 32 ==> m[j] == OddRow(j)
    ensures Represents(m, 1)
  {
    forall j | 0 <= j < 32 ensures m[j] == ZeroBits(1, Unit(j)) {
      OneZeroBitOfUnit(j);
    }
  }

  /** `row <<= 1` moves from one row of the `odd` matrix to the next. */
  lemma OddRowUp(n: nat)
    requires n >= 1
    ensures OddRow(n) << 1 == OddRow(n + 1)
  {
    UnitUp(n - 1);
  }

  /** The initial `odd` matrix: the polynomial in row 0 and `row <<= 1`
      walking unit vectors through the other rows. */
  method InitOdd(odd: array<bv32>)
    requires odd.Length == 32
    modifies odd
    ensures forall j :: 0 <= j < 32 ==> odd[j] == OddRow(j)
    ensures Represents(odd[..], 1)
  {
    odd[0] := POLY;
    var row: bv32 := 1;
    for n := 1 to 32
      invariant row == OddRow(n)
      invariant forall j :: 0 <= j < n ==> odd[j] == OddRow(j)
    {
      odd[n] := row;
      OddRowUp(n);
      row := row << 1;
    }
    OddRepresents(odd[..]);
  }

  /** rowMatrix[i] := mat * rowMatrix[i] for every row, through the scratch
      matrix and the copy back. */
  method ApplyRows(rowMatrix: array<bv32>, mat: array<bv32>, temp: array<bv32>)
    requires rowMatrix.Length == 32 && mat.Length == 32 && temp.Length == 32
    requires rowMatrix != mat && temp != mat && temp != rowMatrix
    modifies rowMatrix, temp
    ensures forall i :: 0 <= i < 32 ==> rowMatrix[i] == Times(mat[..], old(rowMatrix[i]))
  {
    for i := 0 to 32
      invariant forall j :: 0 <= j < i ==> temp[j] == Times(mat[..], rowMatrix[j])
      invariant rowMatrix[..] == old(rowMatrix[..])
    {
      temp[i] := MatTimes(mat, rowMatrix[i]);
    }
    for i := 0 to 32
      modifies rowMatrix
      invariant forall j :: 0 <= j < i ==> rowMatrix[j] == temp[j]
    {
      rowMatrix[i] := temp[i];
    }

  }

  /** The bookkeeping of the square-and-multiply loop: halving n moves its
      low bit's weight into the accumulated count. */
  lemma Halve(acc: nat, p: nat, n: nat)
    ensures acc + 2 * p * n == (acc + if n % 2 == 1 then 2 * p else 0) + 4 * p * (n / 2)
  {
    var q, r := n / 2, n % 2;
    assert n == 2 * q + r;
    assert 2 * p * n == 4 * p * q + 2 * p * r;
  }

  /** The identity matrix, row n being `1UL << n`. */
  method InitIdentity(rowMatrix: array<bv32>)
    requires rowMatrix.Length == 32
    modifies rowMatrix
    ensures Represents(rowMatrix[..], 0)
  {
    for n := 0 to 32
      invariant forall j :: 0 <= j < n ==> rowMatrix[j] == (1 as bv32) << j
      invariant forall j :: 0 <= j < n ==> rowMatrix[j] == Unit(j)
    {
      rowMatrix[n] := (1 as bv32) << n;
      UnitIsShift(n);
    }
  }

  /** A square of a matrix of k zero bits is the matrix of 2k zero bits. */
  lemma SquareRepresents(square: seq<bv32>, mat: seq<bv32>, k: nat)
    requires Represents(mat, k)
    requires |square| == 32 && forall n :: 0 <= n < 32 ==> square[n] == Times(mat, mat[n])
    ensures Represents(square, 2 * k)
  {
    ComposeRepresents(mat, k, mat, k, square);
  }

  /** The `odd` matrix of one zero bit squared twice: four zero bits in
      `odd`, two in `even`. */
  method InitPowers(odd: array<bv32>, even: array<bv32>)
    requires odd.Length == 32 && even.Length == 32 && odd != even
    modifies odd, even
    ensures Represents(odd[..], 4)
  {
    InitOdd(odd);
    MatSquare(even, odd);
    SquareRepresents(even[..], odd[..], 1);
    MatSquare(odd, even);
    SquareRepresents(odd[..], even[..], 2);
  }

  /** `gf2_matrix_square` on a matrix of k zero bits. */
  method SquareInto(square: array<bv32>, mat: array<bv32>, ghost k: nat)
    requires square.Length == 32 && mat.Length == 32 && square != mat
    requires Represents(mat[..], k)
    modifies square
    ensures Represents(square[..], 2 * k) && mat[..] == old(mat[..])
  {
    MatSquare(square, mat);
    SquareRepresents(square[..], mat[..], k);
  }

  /** The multiply step of `precompute_shift_matrix`: the accumulated matrix
      of acc zero bits times a matrix of e zero bits. */
  method MultiplyInto(rowMatrix: array<bv32>, mat: array<bv32>, temp: array<bv32>, ghost acc: nat, ghost e: nat)
    requires rowMatrix.Length == 32 && mat.Length == 32 && temp.Length == 32
    requires rowMatrix != mat && temp != mat && temp != rowMatrix
    requires Represents(rowMatrix[..], acc) && Represents(mat[..], e)
    modifies rowMatrix, temp
    ensures Represents(rowMatrix[..], acc + e) && mat[..] == old(mat[..])
  {
    ghost var before := rowMatrix[..];
    ApplyRows(rowMatrix, mat, temp);
    ComposeRepresents(mat[..], e, before, acc, rowMatrix[..]);
  }

  /** One half of the do-while body of `precompute_shift_matrix` (the two
      halves differ only in which of odd/even is squared into the other):
      square src into dst, multiply the accumulated matrix by dst when the
      low bit of n is set, and halve n. With src standing for q zero bits, the
      bits still owed, 2q per unit of n, are carried over unchanged. */
  method HalfRound(dst: array<bv32>, src: array<bv32>, rowMatrix: array<bv32>, temp: array<bv32>,
                   n: int, ghost acc: nat, ghost q: nat)
    returns (n': int, ghost acc': nat)
    requires dst.Length == 32 && src.Length == 32 && rowMatrix.Length == 32 && temp.Length == 32
    requires dst != src && dst != rowMatrix && dst != temp && src != rowMatrix && src != temp && rowMatrix != temp
    requires n > 0 && Represents(src[..], q) && Represents(rowMatrix[..], acc)
    modifies dst, rowMatrix, temp
    ensures n' == n / 2 && n' >= 0 && src[..] == old(src[..])
    ensures Represents(dst[..], 2 * q) && Represents(rowMatrix[..], acc')
    ensures acc' + 4 * q * n' == acc + 2 * q * n
  {
    SquareInto(dst, src, q);
    Halve(acc, q, n);
    acc' := acc;
    if n % 2 == 1 {
      MultiplyInto(rowMatrix, dst, temp, acc, 2 * q);
      acc' := acc + 2 * q;
    }
    n' := n / 2;
  }

  /** `precompute_shift_matrix`: the matrix of len2 zero bytes, by the same
      square-and-multiply walk over the bits of len2 as `crc32_combine_zlib`,
      accumulated into rowMatrix instead of into a register. A non-positive
      len2 leaves the identity. */
  method PrecomputeShiftMatrix(rowMatrix: array<bv32>, len2: int)
    requires rowMatrix.Length == 32
    modifies rowMatrix
    ensures Represents(rowMatrix[..], if len2 <= 0 then 0 else 8 * len2)
  {
    var odd := new bv32[32];
    var even := new bv32[32];
    InitPowers(odd, even);
    InitIdentity(rowMatrix);
    if len2 <= 0 {
      return;
    }
    // The C code builds the four-bit `odd` matrix a second time.
    InitPowers(odd, even);
    var temp := new bv32[32];
    var n := len2;
    ghost var acc: nat := 0;
    ghost var p: nat := 4;
    while n != 0
      invariant n >= 0
      invariant Represents(odd[..], p) && Represents(rowMatrix[..], acc)
      invariant acc + 2 * p * n == 8 * len2
      decreases n
    {
      n, acc := HalfRound(even, odd, rowMatrix, temp, n, acc, p);
      if n == 0 {
        break;
      }
      n, acc := HalfRound(odd, even, rowMatrix, temp, n, acc, 2 * p);
      p := 4 * p;
    }
  }

  /** The identity left for a non-positive length is the matrix of `1UL << n`
      rows. */
  lemma IdentityRows(m: seq<bv32>)
    requires Represents(m, 0)
    ensures forall n :: 0 <= n < 32 ==> m[n] == (1 as bv32) << n
  {
    forall n | 0 <= n < 32 ensures m[n] == (1 as bv32) << n {
      assert m[n] == ZeroBits(0, Unit(n));
      UnitIsShift(n);
    }
  }

  // ---------------------------------------------------------------------------
  // Combining two CRCs.

  /** What `crc32_combine_zlib` computes: crc1 pushed through len2 zero bytes
      and XORed with crc2, or crc1 alone when len2 is not positive. */
  function Combined(crc1: bv32, crc2: bv32, len2: int): bv32
  {
    if len2 <= 0 then crc1 else Xor(ZeroBytes(len2, crc1), crc2)
  }

  /** One half of the do-while body of `crc32_combine_zlib`: square src into
      dst, push the register through dst when the low bit of n is set, and
      halve n. */
  method CombineHalf(dst: array<bv32>, src: array<bv32>, n: int, c: bv32,
                     ghost acc: nat, ghost q: nat, ghost c0: bv32)
    returns (n': int, c': bv32, ghost acc': nat)
    requires dst.Length == 32 && src.Length == 32 && dst != src
    requires n > 0 && Represents(src[..], q) && c == ZeroBits(acc, c0)
    modifies dst
    ensures n' == n / 2 && n' >= 0 && src[..] == old(src[..])
    ensures Represents(dst[..], 2 * q) && c' == ZeroBits(acc', c0)
    ensures acc' + 4 * q * n' == acc + 2 * q * n
  {
    SquareInto(dst, src, q);
    Halve(acc, q, n);
    c', acc' := c, acc;
    if n % 2 == 1 {
      c' := MatTimes(dst, c);
      TimesRepresents(dst[..], 2 * q, c);
      IterateAdd(acc, 2 * q, ShiftBit, c0);
      acc' := acc + 2 * q;
    }
    n' := n / 2;
  }

  /** `crc32_combine_zlib`: the CRC of H ++ L from crc1 = CRC(H),
      crc2 = CRC(L) and len2 = |L|, by squaring the zero-bit matrices. */
  method Combine(crc1: bv32, crc2: bv32, len2: int) returns (r: bv32)
    ensures r == Combined(crc1, crc2, len2)
  {
    if len2 <= 0 {
      return crc1;
    }
    var odd := new bv32[32];
    var even := new bv32[32];
    InitPowers(odd, even);
    var n := len2;
    var c := crc1;
    ghost var acc: nat := 0;
    ghost var p: nat := 4;
    while n != 0
      invariant n >= 0
      invariant Represents(odd[..], p) && c == ZeroBits(acc, crc1)
      invariant acc + 2 * p * n == 8 * len2
      decreases n
    {
      n, c, acc := CombineHalf(even, odd, n, c, acc, p, crc1);
      if n == 0 {
        break;
      }
      n, c, acc := CombineHalf(odd, even, n, c, acc, 2 * p, crc1);
      p := 4 * p;
    }
    ZeroBytesAreBits(len2, crc1);
    r := Xor(c, crc2);
  }

  /** Combining the CRCs of two strings gives the CRC of their concatenation,
      the empty second string included. */
  lemma CombinedConcat(h: seq<bv8>, l: seq<bv8>)
    ensures Combined(Crc32(h), Crc32(l), |l|) == Crc32(h + l)
  {
    if l == [] {
      assert h + l == h;
    } else {
      CrcConcat(h, l);
      XorComm();
    }
  }

  /** `mitm_calculate_required_L`: the CRC the low part must have for the
      whole string to reach target, given the CRC of the high part. */
  method RequiredL(target: bv32, crcH: bv32, lenL: nat) returns (r: bv32)
    ensures r == Xor(target, ZeroBytes(lenL, crcH))
  {
    var shifted := Combine(crcH, 0, lenL);
    XorZero();
    r := Xor(target, shifted);
  }

  /** `mitm_calculate_required_L_fast`: the same through the matrix of eight
      zero bytes computed once. */
  method RequiredLFast(shift: array<bv32>, target: bv32, crcH: bv32) returns (r: bv32)
    requires shift.Length == 32 && Represents(shift[..], 64)
    ensures r == Xor(target, ZeroBytes(8, crcH))
  {
    var shifted := MatTimes(shift, crcH);
    TimesRepresents(shift[..], 64, crcH);
    ZeroBytesAreBits(8, crcH);
    r := Xor(target, shifted);
  }

  /** The required low CRC computed from the whole and the high part is the
      CRC of the low part. */
  lemma RequiredLInverts(h: seq<bv8>, l: seq<bv8>)
    ensures Xor(Crc32(h + l), ZeroBytes(|l|, Crc32(h))) == Crc32(l)
  {
    CrcConcat(h, l);
    XorSelf();
  }

  /** H ++ L reaches target exactly when the CRC of L is the required low
      CRC: the meet-in-the-middle lookup neither misses nor invents a match. */
  lemma MatchIff(h: seq<bv8>, l: seq<bv8>, target: bv32)
    ensures Crc32(h + l) == target <==> Crc32(l) == Xor(target, ZeroBytes(|l|, Crc32(h)))
  {
    var z := ZeroBytes(|l|, Crc32(h));
    RequiredLInverts(h, l);
    CrcConcat(h, l);
    XorCancel(Crc32(l), z);
    XorCancel(target, z);
  }

  lemma XorCancel(a: bv32, b: bv32)
    ensures Xor(Xor(a, b), b) == a
  {
  }
}
