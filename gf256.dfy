/** Arithmetic in GF(2^8) with primitive polynomial x^8 + x^4 + x^3 + x^2 + 1 (0x11D),
    the field over which ISO/IEC 18004 computes its Reed-Solomon codes. */
module GaloisField {

  /** Multiplication by the generator 2: shift left and, when bit 7 was set,
      reduce by the primitive polynomial (XOR with 0x11D, whose bit 8 cancels
      the bit shifted out). Written without a branch; XtimeAsWritten relates it
      to the form the table-filling loop uses. */
  function Xtime(x: bv8): bv8
  {
    (x << 1) ^ ((0 - (x >> 7)) & 0x1D)
  }

  lemma XtimeAsWritten(x: bv8)
    ensures Xtime(x) as bv16 == (x as bv16 << 1) ^ (if x & 0x80 != 0 then 0x11D else 0)
  {
  }

  /** Addition in the field: bitwise XOR. */
  function Add(a: bv8, b: bv8): bv8
  {
    a ^ b
  }

  /** XOR is associative and commutative, 0 is its identity and every
      element is its own negative. */
  lemma AddLaws(a: bv8, b: bv8, c: bv8)
    ensures Add(Add(a, b), c) == Add(a, Add(b, c))
    ensures Add(a, b) == Add(b, a)
    ensures Add(a, 0) == a && Add(0, a) == a
    ensures Add(a, a) == 0
  {
  }

  lemma AddShuffle(p: bv8, q: bv8, r: bv8, s: bv8)
    ensures Add(Add(p, q), Add(r, s)) == Add(Add(p, r), Add(q, s))
  {
    AddLaws(p, q, Add(r, s));
    AddLaws(q, r, s);
    AddLaws(r, q, s);
    AddLaws(p, r, Add(q, s));
  }

  /** 2^i in the field. */
  function Pow2(i: nat): bv8
  {
    if i == 0 then 1 else Xtime(Pow2(i - 1))
  }

  /** Carry-less "shift and add" product reduced modulo 0x11D: the XOR of
      a * x^i over the bits i of b, taken from the low bit up (`k` bits remain).
      An independent definition of field multiplication, used as the
      reference for GfMul. */
  function MulShiftAdd(a: bv8, b: bv8, k: nat): bv8
    decreases k
  {
    if k == 0 then 0
    else (if b & 1 != 0 then a else 0) ^ MulShiftAdd(Xtime(a), b >> 1, k - 1)
  }

  function MulRef(a: bv8, b: bv8): bv8
  {
    MulShiftAdd(a, b, 8)
  }

  lemma XtimeLinear(a: bv8, b: bv8)
    ensures Xtime(Add(a, b)) == Add(Xtime(a), Xtime(b))
  {
  }

  lemma XtimeInjective(a: bv8, b: bv8)
    ensures Xtime(a) == Xtime(b) ==> a == b
  {
  }

  /** The term bit 0 of b contributes to a product with a. */
  function LowTerm(a: bv8, b: bv8): bv8
  {
    if b & 1 != 0 then a else 0
  }

  lemma XtimeLowTerm(a: bv8, b: bv8)
    ensures Xtime(LowTerm(a, b)) == LowTerm(Xtime(a), b)
  {
    assert Xtime(0) == 0;
  }

  lemma MulShiftAddUnfold(a: bv8, b: bv8, k: nat)
    requires k > 0
    ensures MulShiftAdd(a, b, k) == Add(LowTerm(a, b), MulShiftAdd(Xtime(a), b >> 1, k - 1))
  {
  }

  lemma {:induction false} MulShiftAddXtime(a: bv8, b: bv8, k: nat)
    ensures MulShiftAdd(Xtime(a), b, k) == Xtime(MulShiftAdd(a, b, k))
    decreases k
  {
    if k > 0 {
      MulShiftAddUnfold(a, b, k);
      MulShiftAddUnfold(Xtime(a), b, k);
      MulShiftAddXtime(Xtime(a), b >> 1, k - 1);
      XtimeLinear(LowTerm(a, b), MulShiftAdd(Xtime(a), b >> 1, k - 1));
      XtimeLowTerm(a, b);
    }
  }

  lemma MulRefXtime(a: bv8, b: bv8)
    ensures MulRef(Xtime(a), b) == Xtime(MulRef(a, b))
  {
    MulShiftAddXtime(a, b, 8);
  }

  lemma MulRefOne(b: bv8)
    ensures MulRef(1, b) == b
  {
    MulOneFrom0(b);
  }

  // MulOneFrom<j>: the bits j..7 of b, processed by the shift-and-add loop
  // starting from 2^j, give back exactly those bits of b.

  lemma MulOneFrom7(b: bv8)
    ensures MulShiftAdd(0x80, b >> 7, 1) == b & 0x80
  {
    MulShiftAddUnfold(0x80, b >> 7, 1);
    assert MulShiftAdd(Xtime(0x80), b >> 7 >> 1, 0) == 0;
  }

  lemma MulOneFrom6(b: bv8)
    ensures MulShiftAdd(0x40, b >> 6, 2) == b & 0xC0
  {
    MulShiftAddUnfold(0x40, b >> 6, 2);
    assert Xtime(0x40) == 0x80 && b >> 6 >> 1 == b >> 7;
    MulOneFrom7(b);
    assert Add(LowTerm(0x40, b >> 6), b & 0x80) == b & 0xC0;
  }

  lemma MulOneFrom5(b: bv8)
    ensures MulShiftAdd(0x20, b >> 5, 3) == b & 0xE0
  {
    MulShiftAddUnfold(0x20, b >> 5, 3);
    assert Xtime(0x20) == 0x40 && b >> 5 >> 1 == b >> 6;
    MulOneFrom6(b);
    assert Add(LowTerm(0x20, b >> 5), b & 0xC0) == b & 0xE0;
  }

  lemma MulOneFrom4(b: bv8)
    ensures MulShiftAdd(0x10, b >> 4, 4) == b & 0xF0
  {
    MulShiftAddUnfold(0x10, b >> 4, 4);
    assert Xtime(0x10) == 0x20 && b >> 4 >> 1 == b >> 5;
    MulOneFrom5(b);
    assert Add(LowTerm(0x10, b >> 4), b & 0xE0) == b & 0xF0;
  }

  lemma MulOneFrom3(b: bv8)
    ensures MulShiftAdd(0x08, b >> 3, 5) == b & 0xF8
  {
    MulShiftAddUnfold(0x08, b >> 3, 5);
    assert Xtime(0x08) == 0x10 && b >> 3 >> 1 == b >> 4;
    MulOneFrom4(b);
    assert Add(LowTerm(0x08, b >> 3), b & 0xF0) == b & 0xF8;
  }

  lemma MulOneFrom2(b: bv8)
    ensures MulShiftAdd(0x04, b >> 2, 6) == b & 0xFC
  {
    MulShiftAddUnfold(0x04, b >> 2, 6);
    assert Xtime(0x04) == 0x08 && b >> 2 >> 1 == b >> 3;
    MulOneFrom3(b);
    assert Add(LowTerm(0x04, b >> 2), b & 0xF8) == b & 0xFC;
  }

  lemma MulOneFrom1(b: bv8)
    ensures MulShiftAdd(0x02, b >> 1, 7) == b & 0xFE
  {
    MulShiftAddUnfold(0x02, b >> 1, 7);
    assert Xtime(0x02) == 0x04 && b >> 1 >> 1 == b >> 2;
    MulOneFrom2(b);
    assert Add(LowTerm(0x02, b >> 1), b & 0xFC) == b & 0xFE;
  }

  lemma MulOneFrom0(b: bv8)
    ensures MulShiftAdd(0x01, b, 8) == b & 0xFF
  {
    MulShiftAddUnfold(0x01, b, 8);
    assert Xtime(0x01) == 0x02 && b >> 1 == b >> 1;
    MulOneFrom1(b);
    assert Add(LowTerm(0x01, b), b & 0xFE) == b & 0xFF;
  }

  lemma {:induction false} Pow2Nonzero(i: nat)
    ensures Pow2(i) != 0
  {
    if i > 0 {
      Pow2Nonzero(i - 1);
    }
  }

  /** None of y, 2y, 4y, ... (k values) is 1. */
  function NoOneWithin(y: bv8, k: nat): bool
    decreases k
  {
    k == 0 || (y != 1 && NoOneWithin(Xtime(y), k - 1))
  }

  lemma {:induction false} NoOneWithinPowers(i: nat, k: nat)
    requires NoOneWithin(Pow2(i), k)
    decreases k
    ensures forall j :: i <= j < i + k ==> Pow2(j) != 1
  {
    if k > 0 {
      NoOneWithinPowers(i + 1, k - 1);
    }
  }

  /** 2 has order exactly 255: 2^d != 1 for 0 < d < 255 ... */
  lemma OrderAtLeast255()
    ensures forall d :: 0 < d < 255 ==> Pow2(d) != 1
  {
    assert NoOneWithin(207, 9);
    assert NoOneWithin(11, 17);
    assert NoOneWithin(244, 25);
    assert NoOneWithin(138, 33);
    assert NoOneWithin(249, 41);
    assert NoOneWithin(83, 49);
    assert NoOneWithin(7, 57);
    assert NoOneWithin(174, 65);
    assert NoOneWithin(98, 73);
    assert NoOneWithin(241, 81);
    assert NoOneWithin(63, 89);
    assert NoOneWithin(183, 97);
    assert NoOneWithin(85, 105);
    assert NoOneWithin(42, 113);
    assert NoOneWithin(218, 121);
    assert NoOneWithin(102, 129);
    assert NoOneWithin(199, 137);
    assert NoOneWithin(103, 145);
    assert NoOneWithin(68, 153);
    assert NoOneWithin(113, 161);
    assert NoOneWithin(177, 169);
    assert NoOneWithin(120, 177);
    assert NoOneWithin(94, 185);
    assert NoOneWithin(222, 193);
    assert NoOneWithin(80, 201);
    assert NoOneWithin(159, 209);
    assert NoOneWithin(148, 217);
    assert NoOneWithin(96, 225);
    assert NoOneWithin(234, 233);
    assert NoOneWithin(19, 241);
    assert NoOneWithin(64, 249);
    NoOneWithinPowers(1, 254);
  }

  /** ... and 2^255 == 1. */
  lemma OrderDivides255()
    ensures Pow2(255) == 1
  {
    assert Pow2(8) == 29;
    assert Pow2(16) == 76;
    assert Pow2(24) == 143;
    assert Pow2(32) == 157;
    assert Pow2(40) == 106;
    assert Pow2(48) == 70;
    assert Pow2(56) == 93;
    assert Pow2(64) == 95;
    assert Pow2(72) == 101;
    assert Pow2(80) == 253;
    assert Pow2(88) == 254;
    assert Pow2(96) == 217;
    assert Pow2(104) == 13;
    assert Pow2(112) == 129;
    assert Pow2(120) == 59;
    assert Pow2(128) == 133;
    assert Pow2(136) == 79;
    assert Pow2(144) == 168;
    assert Pow2(152) == 73;
    assert Pow2(160) == 230;
    assert Pow2(168) == 252;
    assert Pow2(176) == 227;
    assert Pow2(184) == 149;
    assert Pow2(192) == 130;
    assert Pow2(200) == 28;
    assert Pow2(208) == 81;
    assert Pow2(216) == 195;
    assert Pow2(224) == 18;
    assert Pow2(232) == 247;
    assert Pow2(240) == 44;
    assert Pow2(248) == 27;
  }

  lemma {:induction false} Pow2Period(i: nat)
    ensures Pow2(i + 255) == Pow2(i)
  {
    if i == 0 {
      OrderDivides255();
    } else {
      Pow2Period(i - 1);
    }
  }

  lemma {:induction false} Pow2Injective(i: nat, j: nat)
    requires i < 255 && j < 255 && Pow2(i) == Pow2(j)
    ensures i == j
  {
    if i < j {
      Pow2Shift(i, j);
      OrderAtLeast255();
    } else if j < i {
      Pow2Shift(j, i);
      OrderAtLeast255();
    }
  }

  lemma {:induction false} Pow2Shift(i: nat, j: nat)
    requires i <= j && Pow2(i) == Pow2(j)
    ensures Pow2(j - i) == 1
  {
    if i > 0 {
      XtimeInjective(Pow2(i - 1), Pow2(j - 1));
      Pow2Shift(i - 1, j - 1);
    }
  }

  lemma {:induction false} MulShiftAddZeroLeft(b: bv8, k: nat)
    ensures MulShiftAdd(0, b, k) == 0
    decreases k
  {
    if k > 0 {
      MulShiftAddUnfold(0, b, k);
      assert Xtime(0) == 0;
      MulShiftAddZeroLeft(b >> 1, k - 1);
    }
  }

  lemma {:induction false} MulShiftAddZeroRight(a: bv8, k: nat)
    ensures MulShiftAdd(a, 0, k) == 0
    decreases k
  {
    if k > 0 {
      MulShiftAddUnfold(a, 0, k);
      MulShiftAddZeroRight(Xtime(a), k - 1);
    }
  }

  /** 2^i * 2^j == 2^(i+j) under the reference multiplication. */
  lemma {:induction false} MulRefPow2(i: nat, j: nat)
    ensures MulRef(Pow2(i), Pow2(j)) == Pow2(i + j)
  {
    if i == 0 {
      MulRefOne(Pow2(j));
    } else {
      MulRefPow2(i - 1, j);
      MulRefXtime(Pow2(i - 1), Pow2(j));
    }
  }

  /** The powers 2^0 .. 2^(k-1), as numbers. */
  ghost function PowersBelow(k: nat): set<int>
  {
    set i | 0 <= i < k :: Pow2(i) as int
  }

  lemma {:induction false} PowersBelowCard(k: nat)
    requires k <= 255
    ensures |PowersBelow(k)| == k
  {
    if k > 0 {
      PowersBelowCard(k - 1);
      assert PowersBelow(k) == PowersBelow(k - 1) + {Pow2(k - 1) as int};
      if Pow2(k - 1) as int in PowersBelow(k - 1) {
        var i :| 0 <= i < k - 1 && Pow2(i) as int == Pow2(k - 1) as int;
        Pow2Injective(i, k - 1);
      }
    }
  }

  /** The numbers lo .. hi-1. */
  ghost function Range(lo: int, hi: int): (r: set<int>)
    ensures |r| == if lo <= hi then hi - lo else 0
    ensures forall v :: v in r <==> lo <= v < hi
    decreases hi - lo
  {
    if lo >= hi then {} else Range(lo, hi - 1) + {hi - 1}
  }

  lemma PowersAreNonzeroBytes()
    ensures PowersBelow(255) <= Range(1, 256)
  {
    forall y | y in PowersBelow(255)
      ensures y in Range(1, 256)
    {
      var i :| 0 <= i < 255 && Pow2(i) as int == y;
      Pow2Nonzero(i);
    }
  }

  lemma SubsetOfSameSize(a: set<int>, b: set<int>)
    requires a <= b && |a| == |b|
    ensures a == b
  {
    assert |b - a| == 0;
  }

  /** Every nonzero byte value is a power of 2 below 255. */
  lemma Pow2Surjective(y: int)
    requires 0 < y < 256
    ensures exists i :: 0 <= i < 255 && Pow2(i) as int == y
  {
    PowersCoverBytes();
    assert y in Range(1, 256);
  }

  lemma PowersCoverBytes()
    ensures PowersBelow(255) == Range(1, 256)
  {
    PowersBelowCard(255);
    PowersAreNonzeroBytes();
    SubsetOfSameSize(PowersBelow(255), Range(1, 256));
  }

  lemma SameByte(a: bv8, b: bv8)
    requires a as int == b as int
    ensures a == b
  {
    assert a == (a as int) as bv8;
  }


  // ---------------------------------------------------------------------
  // The EXP and LOG tables and gfMul

  /** The 512-entry exponent table: EXP[i] == 2^(i mod 255). The upper part
      repeats the lower one, so a sum of two logarithms needs no reduction. */
  function ExpTable(): (t: seq<bv8>)
    ensures |t| == 512
  {
    seq(512, i requires 0 <= i < 512 =>
      if i < 255 then Pow2(i) else if i < 510 then Pow2(i - 255) else Pow2(i - 510))
  }

  /** The discrete logarithm to base 2 of a nonzero byte value: the unique
      exponent below 255 whose power is y. LOG[0] is never written by the
      filling loop and keeps the initial 0. */
  function LogOf(y: int): (l: int)
    requires 0 <= y < 256
    ensures 0 <= l < 255
    ensures y != 0 ==> Pow2(l) as int == y
  {
    if y == 0 then 0
    else
      Pow2Surjective(y);
      Pow2InjectiveAll();
      var i :| 0 <= i < 255 && Pow2(i) as int == y;
      i
  }

  lemma Pow2InjectiveAll()
    ensures forall i: nat, j: nat :: i < 255 && j < 255 && Pow2(i) as int == Pow2(j) as int ==> i == j
  {
    forall i: nat, j: nat | i < 255 && j < 255 && Pow2(i) as int == Pow2(j) as int
      ensures i == j
    {
      SameByte(Pow2(i), Pow2(j));
      Pow2Injective(i, j);
    }
  }

  /** The logarithm of a field element. */
  function Log(x: bv8): (l: int)
    ensures 0 <= l < 255
    ensures x != 0 ==> Pow2(l) == x
  {
    var l := LogOf(x as int);
    if x == 0 then l
    else
      SameByte(Pow2(l), x);
      l
  }

  /** The finished LOG table. */
  function LogTable(): (t: seq<int>)
    ensures |t| == 256
  {
    seq(256, y requires 0 <= y < 256 => LogOf(y))
  }

  /** LOG inverts EXP on the exponents 0..254. */
  lemma LogOfPower(i: nat)
    requires i < 255
    ensures Log(Pow2(i)) == i
  {
    Pow2Nonzero(i);
    Pow2Injective(i, Log(Pow2(i)));
  }

  /** Every entry of EXP is the power of 2 of its index. */
  lemma ExpIsPower(i: nat)
    requires i < 512
    ensures ExpTable()[i] == Pow2(i)
  {
    if i >= 255 {
      Pow2Period(i - 255);
    }
    if i >= 510 {
      Pow2Period(i - 510);
    }
  }

  /** The update of x in the filling loop: double, reducing by 0x11D when
      bit 7 was set. */
  function NextPower(x: bv16): bv16
  {
    (x << 1) ^ (if x & 128 != 0 then 0x11D else 0)
  }

  /** One step of the filling loop keeps x == 2^i and below 256. */
  lemma FillStep(x: bv16, i: nat)
    requires x < 256 && x as bv8 == Pow2(i)
    ensures x as int == Pow2(i) as int
    ensures NextPower(x) < 256 && NextPower(x) as bv8 == Pow2(i + 1)
  {
    XtimeAsWritten(Pow2(i));
  }

  /** EXP after the first i writes: entries below 255 are powers of 2 and
      each later entry copies the one 255 places before. */
  ghost predicate ExpFilled(t: seq<bv8>, i: nat)
  {
    |t| == 512 && i <= 512 &&
    (forall j :: 0 <= j < i && j < 255 ==> t[j] == Pow2(j)) &&
    (forall j :: 255 <= j < i ==> t[j] == t[j - 255])
  }

  lemma ExpFillStep(t: seq<bv8>, i: nat, x: bv8)
    requires ExpFilled(t, i) && i < 255 && x == Pow2(i)
    ensures ExpFilled(t[i := x], i + 1)
  {
  }

  lemma ExpMirrorStep(t: seq<bv8>, i: nat)
    requires ExpFilled(t, i) && 255 <= i < 512
    ensures ExpFilled(t[i := t[i - 255]], i + 1)
  {
  }

  /** The completed table is EXP. */
  lemma ExpFilledComplete(t: seq<bv8>)
    requires ExpFilled(t, 512)
    ensures t == ExpTable()
  {
    forall j | 0 <= j < 512
      ensures t[j] == ExpTable()[j]
    {
      if j >= 510 {
        assert t[j] == t[j - 255] == t[j - 510];
      } else if j >= 255 {
        assert t[j] == t[j - 255];
      }
    }
  }

  /** The second half of EXP repeats the first. */
  lemma ExpRepeats(i: nat)
    requires 255 <= i < 512
    ensures ExpTable()[i] == ExpTable()[i - 255]
  {
  }

  /** EXP inverts LOG on every nonzero element. */
  lemma ExpOfLog(x: bv8)
    requires x != 0
    ensures ExpTable()[Log(x)] == x
  {
    ExpIsPower(Log(x));
  }

  /** gfMul: the product of two field elements through the log tables. */
  function GfMul(a: bv8, b: bv8): (r: bv8)
    ensures r == 0 <==> a == 0 || b == 0
  {
    if a == 0 || b == 0 then 0
    else
      var s := Log(a) + Log(b);
      ExpIsPower(s);
      Pow2Nonzero(s);
      ExpTable()[s]
  }

  /** gfMul is multiplication in GF(2^8) modulo 0x11D. */
  lemma GfMulIsProduct(a: bv8, b: bv8)
    ensures GfMul(a, b) == MulRef(a, b)
  {
    if a == 0 {
      MulShiftAddZeroLeft(b, 8);
    } else if b == 0 {
      MulShiftAddZeroRight(a, 8);
    } else {
      var la, lb := Log(a), Log(b);
      ExpIsPower(la + lb);
      MulRefPow2(la, lb);
    }
  }

  lemma GfMulCommutative(a: bv8, b: bv8)
    ensures GfMul(a, b) == GfMul(b, a)
  {
  }

  /** 1 is the multiplicative identity. */
  lemma GfMulOne(v: bv8)
    ensures GfMul(1, v) == v && GfMul(v, 1) == v
  {
    GfMulIsProduct(1, v);
    MulRefOne(v);
  }

  /** k-fold multiplication by 2. */
  function XtimeN(x: bv8, k: nat): bv8
    decreases k
  {
    if k == 0 then x else Xtime(XtimeN(x, k - 1))
  }

  lemma {:induction false} XtimeNLinear(u: bv8, v: bv8, k: nat)
    ensures XtimeN(Add(u, v), k) == Add(XtimeN(u, k), XtimeN(v, k))
    decreases k
  {
    if k > 0 {
      XtimeNLinear(u, v, k - 1);
      XtimeLinear(XtimeN(u, k - 1), XtimeN(v, k - 1));
    }
  }

  lemma {:induction false} XtimeNZero(k: nat)
    ensures XtimeN(0, k) == 0
    decreases k
  {
    if k > 0 {
      XtimeNZero(k - 1);
      assert Xtime(0) == 0;
    }
  }

  lemma {:induction false} XtimeNPow2(j: nat, k: nat)
    ensures XtimeN(Pow2(j), k) == Pow2(j + k)
    decreases k
  {
    if k > 0 {
      XtimeNPow2(j, k - 1);
    }
  }

  /** Exponents add under gfMul, with no bound on them. */
  lemma GfMulPow2(i: nat, j: nat)
    ensures GfMul(Pow2(i), Pow2(j)) == Pow2(i + j)
  {
    GfMulIsProduct(Pow2(i), Pow2(j));
    MulRefPow2(i, j);
  }

  /** Multiplying by 2^k is k doublings. */
  lemma GfMulByPower(k: nat, x: bv8)
    ensures GfMul(Pow2(k), x) == XtimeN(x, k)
  {
    Pow2Nonzero(k);
    if x == 0 {
      XtimeNZero(k);
    } else {
      var l := Log(x);
      GfMulPow2(k, l);
      XtimeNPow2(l, k);
      assert l + k == k + l;
    }
  }

  /** gfMul distributes over field addition (XOR). */
  lemma GfMulDistributes(a1: bv8, a2: bv8, b: bv8)
    ensures GfMul(b, Add(a1, a2)) == Add(GfMul(b, a1), GfMul(b, a2))
    ensures GfMul(Add(a1, a2), b) == Add(GfMul(a1, b), GfMul(a2, b))
  {
    if b != 0 {
      var l := Log(b);
      GfMulByPower(l, Add(a1, a2));
      GfMulByPower(l, a1);
      GfMulByPower(l, a2);
      XtimeNLinear(a1, a2, l);
    }
    GfMulCommutative(Add(a1, a2), b);
    GfMulCommutative(a1, b);
    GfMulCommutative(a2, b);
  }

  lemma GfMulAssociative(a: bv8, b: bv8, c: bv8)
    ensures GfMul(GfMul(a, b), c) == GfMul(a, GfMul(b, c))
  {
    if a != 0 && b != 0 && c != 0 {
      var la, lb, lc := Log(a), Log(b), Log(c);
      GfMulPow2(la, lb);
      GfMulPow2(lb, lc);
      assert GfMul(a, b) == Pow2(la + lb);
      assert GfMul(b, c) == Pow2(lb + lc);
      GfMulPow2(la + lb, lc);
      GfMulPow2(la, lb + lc);
      assert la + lb + lc == la + (lb + lc);
    }
  }

  /** LOG after the writes LOG[2^j] := j for j < i: the entries whose
      logarithm is below i are set, every other entry is still 0. */
  ghost predicate LogFilled(t: seq<int>, i: nat)
  {
    |t| == 256 &&
    forall y :: 0 <= y < 256 ==> t[y] == if y != 0 && LogOf(y) < i then LogOf(y) else 0
  }

  lemma LogFillStep(t: seq<int>, i: nat)
    requires i < 255 && LogFilled(t, i)
    ensures LogFilled(t[Pow2(i) as int := i], i + 1)
  {
    forall y | 0 <= y < 256
      ensures t[Pow2(i) as int := i][y] == if y != 0 && LogOf(y) < i + 1 then LogOf(y) else 0
    {
      LogFillEntry(t, i, y);
    }
  }

  lemma LogFillEntry(t: seq<int>, i: nat, y: int)
    requires i < 255 && LogFilled(t, i) && 0 <= y < 256
    ensures t[Pow2(i) as int := i][y] == if y != 0 && LogOf(y) < i + 1 then LogOf(y) else 0
  {
    var p := Pow2(i);
    Pow2Nonzero(i);
    Pow2InjectiveAll();
    if y == p as int {
      assert Pow2(LogOf(y)) as int == Pow2(i) as int;
    } else {
      assert y != 0 ==> LogOf(y) != i;
    }
  }

  lemma LogFilledComplete(t: seq<int>)
    requires LogFilled(t, 255)
    ensures t == LogTable()
  {
  }

  /** Builds EXP and LOG as the module initialiser does: the first loop
      (FillPowers) writes EXP[i] := 2^i and LOG[2^i] := i for i < 255, the
      second (MirrorExp) copies EXP[i - 255] into EXP[i] for the upper half. */
  method BuildTables() returns (exp: array<bv8>, log: array<int>)
    ensures fresh(exp) && fresh(log)
    ensures exp[..] == ExpTable() && log[..] == LogTable()
  {
    exp := new bv8[512](_ => 0);
    log := new int[256](_ => 0);
    FillPowers(exp, log);
    MirrorExp(exp);
  }

  method FillPowers(exp: array<bv8>, log: array<int>)
    requires exp.Length == 512 && log.Length == 256
    requires forall y :: 0 <= y < 256 ==> log[y] == 0
    modifies exp, log
    ensures ExpFilled(exp[..], 255) && log[..] == LogTable()
  {
    var x: bv16 := 1;
    var i := 0;
    assert LogFilled(log[..], 0);
    while i < 255
      invariant 0 <= i <= 255
      invariant x < 256 && x as bv8 == Pow2(i)
      invariant ExpFilled(exp[..], i)
      invariant LogFilled(log[..], i)
    {
      FillStep(x, i);
      ghost var e, l := exp[..], log[..];
      ExpFillStep(e, i, x as bv8);
      LogFillStep(l, i);
      exp[i] := x as bv8;
      log[x as int] := i;
      assert exp[..] == e[i := x as bv8];
      assert log[..] == l[Pow2(i) as int := i];
      x := NextPower(x);
      i := i + 1;
    }
    LogFilledComplete(log[..]);
  }

  method MirrorExp(exp: array<bv8>)
    requires ExpFilled(exp[..], 255)
    modifies exp
    ensures exp[..] == ExpTable()
  {
    var i := 255;
    while i < 512
      invariant 255 <= i <= 512
      invariant ExpFilled(exp[..], i)
    {
      ghost var e := exp[..];
      ExpMirrorStep(e, i);
      exp[i] := exp[i - 255];
      assert exp[..] == e[i := e[i - 255]];
      i := i + 1;
    }
    ExpFilledComplete(exp[..]);
  }
}
