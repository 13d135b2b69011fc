/** Polynomials over GF(2^8) as coefficient sequences, highest degree first
    (index 0 is the leading coefficient), as the encoder stores them. */
module Polynomial {
  import opened GaloisField

  // ---------------------------------------------------------------------
  // polyMul

  /** The coefficient at index k of the product, counting only the rows
      i' < i of the schoolbook multiplication: the XOR of a[i'] * b[k - i']. */
  function ConvUpTo(a: seq<bv8>, b: seq<bv8>, i: nat, k: int): bv8
    requires i <= |a|
  {
    if i == 0 then 0 else Add(ConvUpTo(a, b, i - 1, k), RowTerm(a, b, i - 1, k))
  }

  /** Row i's contribution a[i] * b[k - i] to coefficient k (0 off the row). */
  function RowTerm(a: seq<bv8>, b: seq<bv8>, i: nat, k: int): bv8
    requires i < |a|
  {
    if i <= k < i + |b| then GfMul(a[i], b[k - i]) else 0
  }

  /** The product of two polynomials: |a| + |b| - 1 coefficients. */
  function Product(a: seq<bv8>, b: seq<bv8>): (r: seq<bv8>)
    requires |a| + |b| >= 1
    ensures |r| == |a| + |b| - 1
  {
    seq(|a| + |b| - 1, k requires 0 <= k < |a| + |b| - 1 => ConvUpTo(a, b, |a|, k))
  }

  /** polyMul: convolution into a zero-filled array, XOR-accumulating
      gfMul(a[i], b[j]) into r[i + j]. (Both inputs empty would ask for an
      array of length -1, which the source rejects; no caller does it.) */
  method PolyMul(a: seq<bv8>, b: seq<bv8>) returns (r: seq<bv8>)
    requires |a| + |b| >= 1
    ensures r == Product(a, b)
  {
    var out := new bv8[|a| + |b| - 1](_ => 0);
    for i := 0 to |a|
      invariant RowsDone(out[..], a, b, i)
    {
      RowStart(out[..], a, b, i);
      for j := 0 to |b|
        invariant RowPartlyDone(out[..], a, b, i, j)
      {
        RowStep(out[..], a, b, i, j);
        out[i + j] := Add(out[i + j], GfMul(a[i], b[j]));
      }
      RowEnd(out[..], a, b, i);
    }
    r := out[..];
  }

  /** The accumulator after the first i rows of the multiplication. */
  ghost predicate RowsDone(s: seq<bv8>, a: seq<bv8>, b: seq<bv8>, i: nat)
    requires i <= |a|
  {
    |s| == |a| + |b| - 1 && forall k :: 0 <= k < |s| ==> s[k] == ConvUpTo(a, b, i, k)
  }

  /** The accumulator after the first i rows and the first j terms of row i. */
  ghost predicate RowPartlyDone(s: seq<bv8>, a: seq<bv8>, b: seq<bv8>, i: nat, j: nat)
    requires i < |a|
  {
    |s| == |a| + |b| - 1 &&
    forall k :: 0 <= k < |s| ==> s[k] == Add(ConvUpTo(a, b, i, k), if k < i + j then RowTerm(a, b, i, k) else 0)
  }

  lemma RowStart(s: seq<bv8>, a: seq<bv8>, b: seq<bv8>, i: nat)
    requires i < |a| && RowsDone(s, a, b, i)
    ensures RowPartlyDone(s, a, b, i, 0)
  {
  }

  lemma RowStep(s: seq<bv8>, a: seq<bv8>, b: seq<bv8>, i: nat, j: nat)
    requires i < |a| && j < |b| && RowPartlyDone(s, a, b, i, j)
    ensures i + j < |s|
    ensures RowPartlyDone(s[i + j := Add(s[i + j], GfMul(a[i], b[j]))], a, b, i, j + 1)
  {
    var t := s[i + j := Add(s[i + j], GfMul(a[i], b[j]))];
    forall k | 0 <= k < |t|
      ensures t[k] == Add(ConvUpTo(a, b, i, k), if k < i + j + 1 then RowTerm(a, b, i, k) else 0)
    {
      if k == i + j {
        assert RowTerm(a, b, i, k) == GfMul(a[i], b[j]);
      }
    }
  }

  lemma RowEnd(s: seq<bv8>, a: seq<bv8>, b: seq<bv8>, i: nat)
    requires i < |a| && RowPartlyDone(s, a, b, i, |b|)
    ensures RowsDone(s, a, b, i + 1)
  {
  }

  /** Only row 0 reaches index 0, so the leading coefficient of a product
      is the product of the leading coefficients. */
  lemma {:induction false} ConvUpToFirst(a: seq<bv8>, b: seq<bv8>, i: nat)
    requires 1 <= i <= |a| && |b| >= 1
    ensures ConvUpTo(a, b, i, 0) == GfMul(a[0], b[0])
  {
    if i > 1 {
      ConvUpToFirst(a, b, i - 1);
    }
  }

  lemma ProductLeading(a: seq<bv8>, b: seq<bv8>)
    requires |a| >= 1 && |b| >= 1
    ensures Product(a, b)[0] == GfMul(a[0], b[0])
  {
    ConvUpToFirst(a, b, |a|);
  }

  // ---------------------------------------------------------------------
  // Evaluation: the algebra the Reed-Solomon property rests on

  /** The value of p at x by Horner's rule (p[0] is the leading coefficient). */
  function Eval(p: seq<bv8>, x: bv8): bv8
  {
    if |p| == 0 then 0 else Add(GfMul(Eval(p[..|p| - 1], x), x), p[|p| - 1])
  }

  /** x^n in the field. */
  function XPow(x: bv8, n: nat): bv8
  {
    if n == 0 then 1 else GfMul(XPow(x, n - 1), x)
  }

  function Zeros(n: nat): (z: seq<bv8>)
    ensures |z| == n && forall k :: 0 <= k < n ==> z[k] == 0
  {
    seq(n, _ => 0)
  }

  /** Coefficient-wise sum of two polynomials of the same length. */
  function AddPoly(p: seq<bv8>, q: seq<bv8>): (r: seq<bv8>)
    requires |p| == |q|
    ensures |r| == |p|
  {
    seq(|p|, k requires 0 <= k < |p| => Add(p[k], q[k]))
  }

  /** Every coefficient multiplied by c (as gfMul(p[k], c)). */
  function Scale(p: seq<bv8>, c: bv8): (r: seq<bv8>)
    ensures |r| == |p|
  {
    seq(|p|, k requires 0 <= k < |p| => GfMul(p[k], c))
  }

  lemma {:induction false} EvalZeros(n: nat, x: bv8)
    ensures Eval(Zeros(n), x) == 0
  {
    if n > 0 {
      assert Zeros(n)[..n - 1] == Zeros(n - 1);
      EvalZeros(n - 1, x);
      AddLaws(0, 0, 0);
    }
  }

  /** Evaluating a concatenation: p's value is shifted up by |q| places. */
  lemma {:induction false} EvalAppend(p: seq<bv8>, q: seq<bv8>, x: bv8)
    ensures Eval(p + q, x) == Add(GfMul(Eval(p, x), XPow(x, |q|)), Eval(q, x))
    decreases |q|
  {
    var e := Eval(p, x);
    if |q| == 0 {
      assert p + q == p;
      GfMulOne(e);
      AddLaws(e, 0, 0);
    } else {
      var q', c := q[..|q| - 1], q[|q| - 1];
      assert (p + q)[..|p + q| - 1] == p + q';
      assert (p + q)[|p + q| - 1] == c;
      EvalAppend(p, q', x);
      var xp, f := XPow(x, |q'|), Eval(q', x);
      GfMulDistributes(GfMul(e, xp), f, x);
      GfMulAssociative(e, xp, x);
      AddLaws(GfMul(e, XPow(x, |q|)), GfMul(f, x), c);
    }
  }

  lemma {:induction false} EvalAddPoly(p: seq<bv8>, q: seq<bv8>, x: bv8)
    requires |p| == |q|
    ensures Eval(AddPoly(p, q), x) == Add(Eval(p, x), Eval(q, x))
    decreases |p|
  {
    if |p| > 0 {
      var n := |p|;
      assert AddPoly(p, q)[..n - 1] == AddPoly(p[..n - 1], q[..n - 1]);
      EvalAddPoly(p[..n - 1], q[..n - 1], x);
      var ep, eq := Eval(p[..n - 1], x), Eval(q[..n - 1], x);
      GfMulDistributes(ep, eq, x);
      AddShuffle(GfMul(ep, x), GfMul(eq, x), p[n - 1], q[n - 1]);
    }
  }

  lemma {:induction false} EvalScale(p: seq<bv8>, c: bv8, x: bv8)
    ensures Eval(Scale(p, c), x) == GfMul(Eval(p, x), c)
    decreases |p|
  {
    if |p| > 0 {
      var n := |p|;
      assert Scale(p, c)[..n - 1] == Scale(p[..n - 1], c);
      EvalScale(p[..n - 1], c, x);
      var e := Eval(p[..n - 1], x);
      GfMulDistributes(GfMul(e, x), p[n - 1], c);
      GfMulAssociative(e, c, x);
      GfMulAssociative(e, x, c);
      GfMulCommutative(c, x);
    }
  }

  /** A polynomial with a leading zero has the same value. */
  lemma EvalLeadingZero(p: seq<bv8>, x: bv8)
    ensures Eval([0] + p, x) == Eval(p, x)
  {
    EvalAppend([0], p, x);
    assert [0][..0] == [];
    AddLaws(Eval(p, x), 0, 0);
  }

  // ---------------------------------------------------------------------
  // generatorPoly

  /** The generator polynomial of degree n: (x + 2^0)(x + 2^1)...(x + 2^(n-1)),
      the running product multiplied by [1, EXP[i]] for i < n. */
  function Generator(n: nat): (g: seq<bv8>)
    requires n <= 512
    ensures |g| == n + 1 && g[0] == 1
  {
    if n == 0 then [1]
    else
      var prev := Generator(n - 1);
      ProductLeading(prev, [1, ExpTable()[n - 1]]);
      GfMulOne(1);
      Product(prev, [1, ExpTable()[n - 1]])
  }

  /** generatorPoly: g := [1], then g := polyMul(g, [1, EXP[i]]) for i < n. */
  method GeneratorPoly(n: nat) returns (g: seq<bv8>)
    requires n <= 512
    ensures g == Generator(n)
  {
    g := [1];
    for i := 0 to n
      invariant g == Generator(i)
    {
      g := PolyMul(g, [1, ExpTable()[i]]);
    }
  }

  /** Multiplying by the linear factor (x + c): the coefficients of p shifted
      up one place plus c times p. */
  lemma {:induction false} ConvLinear(p: seq<bv8>, c: bv8, i: nat, k: int)
    requires i <= |p| && 0 <= k
    ensures ConvUpTo(p, [1, c], i, k) ==
            Add(if k < i then p[k] else 0, if 1 <= k <= i then GfMul(p[k - 1], c) else 0)
  {
    if i == 0 {
      AddLaws(0, 0, 0);
    } else {
      ConvLinear(p, c, i - 1, k);
      var t := RowTerm(p, [1, c], i - 1, k);
      GfMulOne(p[i - 1]);
      var u := if k < i - 1 then p[k] else 0;
      var v := if 1 <= k <= i - 1 then GfMul(p[k - 1], c) else 0;
      if k == i - 1 {
        assert t == p[k];
        AddLaws(0, p[k], 0);
        AddLaws(0, 0, 0);
      } else if k == i {
        assert t == GfMul(p[k - 1], c);
        AddLaws(0, 0, t);
      } else {
        assert t == 0;
        AddLaws(Add(u, v), 0, 0);
      }
    }
  }

  lemma ProductByLinear(p: seq<bv8>, c: bv8)
    requires |p| >= 1
    ensures Product(p, [1, c]) == AddPoly(p + [0], [0] + Scale(p, c))
  {
    forall k | 0 <= k < |p| + 1
      ensures Product(p, [1, c])[k] == AddPoly(p + [0], [0] + Scale(p, c))[k]
    {
      ConvLinear(p, c, |p|, k);
    }
  }

  /** The value of p * (x + c) is the value of p times (x + c). */
  lemma EvalByLinear(p: seq<bv8>, c: bv8, x: bv8)
    requires |p| >= 1
    ensures Eval(Product(p, [1, c]), x) == GfMul(Eval(p, x), Add(x, c))
  {
    var e := Eval(p, x);
    ProductByLinear(p, c);
    EvalAddPoly(p + [0], [0] + Scale(p, c), x);
    assert (p + [0])[..|p|] == p;
    AddLaws(GfMul(e, x), 0, 0);
    EvalLeadingZero(Scale(p, c), x);
    EvalScale(p, c, x);
    GfMulDistributes(x, c, e);
  }

  /** 2^0 .. 2^(n-1) are roots of the generator polynomial. */
  lemma {:induction false} GeneratorRoots(n: nat, i: nat)
    requires i < n <= 512
    ensures Eval(Generator(n), Pow2(i)) == 0
  {
    var x := Pow2(i);
    var c := ExpTable()[n - 1];
    ExpIsPower(n - 1);
    EvalByLinear(Generator(n - 1), c, x);
    if i == n - 1 {
      AddLaws(x, x, x);
    } else {
      GeneratorRoots(n - 1, i);
    }
  }

  // ---------------------------------------------------------------------
  // polyMod

  /** Array.prototype.slice(start) on a sequence: a negative start counts
      back from the end (and stops at 0). */
  function SliceFrom(s: seq<bv8>, start: int): seq<bv8>
    requires start <= |s|
  {
    if start >= 0 then s[start..] else if |s| + start >= 0 then s[|s| + start..] else s
  }

  /** p and q take the same value at every root of gen. */
  ghost predicate SameAtRoots(p: seq<bv8>, q: seq<bv8>, gen: seq<bv8>)
  {
    forall x: bv8 :: Eval(gen, x) == 0 ==> Eval(p, x) == Eval(q, x)
  }

  /** polyMod with the multiplier captured before the inner loop: the
      remainder of data divided by the monic polynomial gen. For each leading
      position i whose coefficient c is nonzero, c * gen is XORed in at i,
      which clears position i and keeps the value at every root of gen. */
  method PolyMod(data: seq<bv8>, gen: seq<bv8>) returns (r: seq<bv8>)
    requires |gen| >= 1
    ensures |data| >= |gen| - 1 ==> |r| == |gen| - 1
    ensures |data| < |gen| - 1 ==> r == SliceFrom(data, |data| - |gen| + 1)
    ensures gen[0] == 1 && |data| >= |gen| - 1 ==> SameAtRoots(r, data, gen)
  {
    var out := new bv8[|data|](k requires 0 <= k < |data| => data[k]);
    assert out[..] == data;
    var i := 0;
    while i < |data| - |gen| + 1
      invariant 0 <= i <= |data|
      invariant |data| >= |gen| - 1 ==> i <= |data| - |gen| + 1
      invariant |data| < |gen| - 1 ==> out[..] == data
      invariant Reduced(out[..], data, gen, i)
    {
      if out[i] != 0 {
        var c := out[i];
        ghost var before := out[..];
        for j := 0 to |gen|
          invariant StepPartial(out[..], before, gen, i, j, c)
        {
          StepPartialNext(out[..], before, gen, i, j, c);
          out[i + j] := Add(out[i + j], GfMul(gen[j], c));
        }
        ReduceStep(before, out[..], data, gen, i, c);
      }
      i := i + 1;
    }
    r := SliceFrom(out[..], |data| - |gen| + 1);
    if gen[0] == 1 && |data| >= |gen| - 1 {
      ReducedRemainder(out[..], data, gen);
    }
  }

  /** The state of polyMod's buffer after the first i division steps: the
      same length as data, and, for a monic gen, zero below i and equal to
      data at every root of gen. */
  ghost predicate Reduced(s: seq<bv8>, data: seq<bv8>, gen: seq<bv8>, i: nat)
    requires |gen| >= 1
  {
    |s| == |data| &&
    (gen[0] == 1 ==> (forall k :: 0 <= k < i && k < |s| ==> s[k] == 0) && SameAtRoots(s, data, gen))
  }

  /** The buffer after the first j updates of division step i with multiplier c. */
  ghost predicate StepPartial(s: seq<bv8>, s0: seq<bv8>, gen: seq<bv8>, i: nat, j: nat, c: bv8)
  {
    |s| == |s0| && i + |gen| <= |s0| && j <= |gen| &&
    forall k :: 0 <= k < |s| ==> s[k] == if i <= k < i + j then Add(s0[k], GfMul(gen[k - i], c)) else s0[k]
  }

  lemma StepPartialNext(s: seq<bv8>, s0: seq<bv8>, gen: seq<bv8>, i: nat, j: nat, c: bv8)
    requires StepPartial(s, s0, gen, i, j, c) && j < |gen|
    ensures i + j < |s|
    ensures StepPartial(s[i + j := Add(s[i + j], GfMul(gen[j], c))], s0, gen, i, j + 1, c)
  {
  }

  /** c * gen placed at position i of a buffer of length len. */
  function Shifted(gen: seq<bv8>, c: bv8, i: nat, len: nat): (t: seq<bv8>)
    requires i + |gen| <= len
    ensures |t| == len
  {
    Zeros(i) + Scale(gen, c) + Zeros(len - i - |gen|)
  }

  /** A multiple of gen vanishes wherever gen does. */
  lemma EvalShifted(gen: seq<bv8>, c: bv8, i: nat, len: nat, x: bv8)
    requires i + |gen| <= len && Eval(gen, x) == 0
    ensures Eval(Shifted(gen, c, i, len), x) == 0
  {
    var m := len - i - |gen|;
    EvalAppend(Zeros(i) + Scale(gen, c), Zeros(m), x);
    EvalZeros(m, x);
    EvalAppend(Zeros(i), Scale(gen, c), x);
    EvalZeros(i, x);
    EvalScale(gen, c, x);
    AddLaws(0, 0, 0);
  }

  lemma ReduceStep(s0: seq<bv8>, s: seq<bv8>, data: seq<bv8>, gen: seq<bv8>, i: nat, c: bv8)
    requires |gen| >= 1 && Reduced(s0, data, gen, i)
    requires i + |gen| <= |s0| && c == s0[i]
    requires StepPartial(s, s0, gen, i, |gen|, c)
    ensures Reduced(s, data, gen, i + 1)
  {
    if gen[0] == 1 {
      var t := Shifted(gen, c, i, |s0|);
      forall k | 0 <= k < |s|
        ensures s[k] == AddPoly(s0, t)[k]
      {
        if i <= k < i + |gen| {
          assert t[k] == Scale(gen, c)[k - i];
        } else {
          AddLaws(s0[k], 0, 0);
        }
      }
      assert s == AddPoly(s0, t);
      GfMulOne(c);
      AddLaws(c, c, c);
      forall x: bv8 | Eval(gen, x) == 0
        ensures Eval(s, x) == Eval(data, x)
      {
        EvalAddPoly(s0, t, x);
        EvalShifted(gen, c, i, |s0|, x);
        AddLaws(Eval(s0, x), 0, 0);
      }
    }
  }

  /** Once the leading |data| - |gen| + 1 positions are cleared, the rest of
      the buffer is the remainder. */
  lemma ReducedRemainder(s: seq<bv8>, data: seq<bv8>, gen: seq<bv8>)
    requires |gen| >= 1 && gen[0] == 1 && |data| >= |gen| - 1
    requires Reduced(s, data, gen, |data| - |gen| + 1)
    ensures SameAtRoots(s[|data| - |gen| + 1..], data, gen)
  {
    var l := |data| - |gen| + 1;
    assert s == Zeros(l) + s[l..];
    forall x: bv8 | Eval(gen, x) == 0
      ensures Eval(s[l..], x) == Eval(data, x)
    {
      EvalAppend(Zeros(l), s[l..], x);
      EvalZeros(l, x);
      AddLaws(Eval(s[l..], x), 0, 0);
    }
  }

  /** polyMod as written: the inner loop re-reads out[i] for every j. The
      update at j == 0 clears out[i] (gen[0] == 1), so every later update
      adds gfMul(gen[j], 0) == 0 and changes nothing: the "remainder" is just
      the last |gen| - 1 entries of data. */
  method PolyModAsWritten(data: seq<bv8>, gen: seq<bv8>) returns (r: seq<bv8>)
    requires |gen| >= 1
    ensures |data| >= |gen| - 1 ==> |r| == |gen| - 1
    ensures |data| < |gen| - 1 ==> r == SliceFrom(data, |data| - |gen| + 1)
    ensures gen[0] == 1 && |data| >= |gen| - 1 ==> r == data[|data| - |gen| + 1..]
  {
    var out := new bv8[|data|](k requires 0 <= k < |data| => data[k]);
    assert out[..] == data;
    var i := 0;
    while i < |data| - |gen| + 1
      invariant 0 <= i <= |data|
      invariant |data| >= |gen| - 1 ==> i <= |data| - |gen| + 1
      invariant |data| < |gen| - 1 ==> out[..] == data
      invariant ClearedBelow(out[..], data, gen, i)
    {
      if out[i] != 0 {
        ghost var before := out[..];
        for j := 0 to |gen|
          invariant AsWrittenPartial(out[..], before, gen, i, j)
        {
          AsWrittenNext(out[..], before, gen, i, j);
          out[i + j] := Add(out[i + j], GfMul(gen[j], out[i]));
        }
      }
      i := i + 1;
    }
    r := SliceFrom(out[..], |data| - |gen| + 1);
  }

  /** For a monic gen: the first i entries are zero, the others still data's. */
  ghost predicate ClearedBelow(s: seq<bv8>, data: seq<bv8>, gen: seq<bv8>, i: nat)
    requires |gen| >= 1
  {
    |s| == |data| && (gen[0] == 1 ==> forall k :: 0 <= k < |s| ==> s[k] == if k < i then 0 else data[k])
  }

  /** For a monic gen, after j updates of step i only out[i] has changed, to 0. */
  ghost predicate AsWrittenPartial(s: seq<bv8>, s0: seq<bv8>, gen: seq<bv8>, i: nat, j: nat)
  {
    |s| == |s0| && i + |gen| <= |s0| && j <= |gen| &&
    (|gen| >= 1 && gen[0] == 1 ==> forall k :: 0 <= k < |s| ==> s[k] == if k == i && j > 0 then 0 else s0[k])
  }

  lemma AsWrittenNext(s: seq<bv8>, s0: seq<bv8>, gen: seq<bv8>, i: nat, j: nat)
    requires AsWrittenPartial(s, s0, gen, i, j) && j < |gen|
    ensures i + j < |s| && i < |s|
    ensures AsWrittenPartial(s[i + j := Add(s[i + j], GfMul(gen[j], s[i]))], s0, gen, i, j + 1)
  {
    if gen[0] == 1 {
      if j == 0 {
        GfMulOne(s[i]);
        AddLaws(s[i], s[i], s[i]);
      } else {
        AddLaws(s[i + j], 0, 0);
      }
    }
  }

  /** x^n == 1 at x == 1. */
  lemma {:induction false} XPowOne(n: nat)
    ensures XPow(1, n) == 1
  {
    if n > 0 {
      XPowOne(n - 1);
      GfMulOne(1);
    }
  }

  /** With polyMod as written, the one-byte block [1] padded with n zeros
      gets the n zero bytes as its error correction; the resulting codeword
      [1, 0, ..., 0] does not vanish at 2^0, a root of the generator, so it
      is not a Reed-Solomon codeword. */
  lemma AsWrittenRemainderNotCodeword(n: nat)
    requires 1 <= n <= 512
    ensures ([1] + Zeros(n))[|[1] + Zeros(n)| - |Generator(n)| + 1..] == Zeros(n)
    ensures Eval(Generator(n), Pow2(0)) == 0
    ensures Eval([1] + Zeros(n), Pow2(0)) != 0
  {
    GeneratorRoots(n, 0);
    EvalAppend([1], Zeros(n), 1);
    EvalZeros(n, 1);
    XPowOne(n);
    assert [1][..0] == [];
    GfMulOne(1);
    AddLaws(1, 0, 0);
  }

  /** The Reed-Solomon property: a remainder of block * x^n modulo the
      generator of degree n, appended to the block, gives a codeword that
      vanishes at 2^0 .. 2^(n-1). */
  lemma RemainderMakesCodeword(block: seq<bv8>, n: nat, ec: seq<bv8>)
    requires n <= 512 && |ec| == n
    requires SameAtRoots(ec, block + Zeros(n), Generator(n))
    ensures forall i :: 0 <= i < n ==> Eval(block + ec, Pow2(i)) == 0
  {
    forall i | 0 <= i < n
      ensures Eval(block + ec, Pow2(i)) == 0
    {
      var x := Pow2(i);
      GeneratorRoots(n, i);
      EvalAppend(block, ec, x);
      EvalAppend(block, Zeros(n), x);
      EvalZeros(n, x);
      var y := GfMul(Eval(block, x), XPow(x, n));
      AddLaws(y, y, 0);
    }
  }
}
