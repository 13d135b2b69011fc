/** addErrorCorrection: the data codewords are split into blocks, each block
    gets its Reed-Solomon error correction codewords, and the data and error
    correction codewords are interleaved column by column. */
module ErrorCorrection {
  import opened Versions
  import opened GaloisField
  import opened Polynomial
  import Bitstream

  type byte = Bitstream.byte

  // ---------------------------------------------------------------------
  // Blocks

  function Max(a: int, b: int): int { if a < b then b else a }

  /** Array.prototype.slice(lo, hi) for 0 <= lo <= hi: both ends clamped to
      the length. */
  function SliceClamp<T>(s: seq<T>, lo: nat, hi: nat): (r: seq<T>)
    requires lo <= hi
    ensures |r| == Min(hi, |s|) - Min(lo, |s|)
    ensures hi <= |s| ==> r == s[lo..hi]
  {
    s[Min(lo, |s|)..Min(hi, |s|)]
  }

  /** count consecutive blocks of dataPerBlock codewords starting at offset. */
  function Split<T>(data: seq<T>, offset: nat, count: nat, dataPerBlock: nat): (r: seq<seq<T>>)
    ensures |r| == count
    decreases count
  {
    if count == 0 then []
    else [SliceClamp(data, offset, offset + dataPerBlock)] + Split(data, offset + dataPerBlock, count - 1, dataPerBlock)
  }

  /** The offset after count blocks of d codewords: processBlocks adds d
      per block. */
  function Span(count: nat, d: nat): nat
  {
    if count == 0 then 0 else Span(count - 1, d) + d
  }

  lemma {:induction false} SpanIsProduct(count: nat, d: nat)
    ensures Span(count, d) == count * d
  {
    if count > 0 {
      SpanIsProduct(count - 1, d);
      MulStep(count - 1, d);
    }
  }

  function NumBlocks(info: VersionInfo): nat
  {
    info.blocks1 + info.blocks2
  }

  /** The blocks processBlocks cuts: blocks1 blocks of dataPerBlock1
      codewords, then blocks2 blocks of dataPerBlock2. */
  function Blocks(data: seq<byte>, info: VersionInfo): (r: seq<seq<byte>>)
    ensures |r| == NumBlocks(info)
  {
    Split(data, 0, info.blocks1, info.dataPerBlock1)
      + Split(data, Span(info.blocks1, info.dataPerBlock1), info.blocks2, info.dataPerBlock2)
  }

  /** The blocks one after the other. */
  function Flatten<T>(bs: seq<seq<T>>): seq<T>
  {
    if bs == [] then [] else Flatten(bs[..|bs| - 1]) + bs[|bs| - 1]
  }

  // ---------------------------------------------------------------------
  // Interleaving

  /** Entry i of every block that has one, in block order. */
  function Column<T>(bs: seq<seq<T>>, i: nat): seq<T>
  {
    if bs == [] then []
    else
      var last := bs[|bs| - 1];
      Column(bs[..|bs| - 1], i) + (if i < |last| then [last[i]] else [])
  }

  /** Columns 0 to m - 1 one after the other. */
  function Interleave<T>(bs: seq<seq<T>>, m: nat): seq<T>
  {
    if m == 0 then [] else Interleave(bs, m - 1) + Column(bs, m - 1)
  }

  /** The first m entries of every block, block after block. */
  function Take<T>(bs: seq<seq<T>>, m: nat): seq<T>
  {
    if bs == [] then []
    else
      var last := bs[|bs| - 1];
      Take(bs[..|bs| - 1], m) + last[..Min(m, |last|)]
  }

  // ---------------------------------------------------------------------
  // Codewords as field elements

  function ToGf(s: seq<byte>): (r: seq<bv8>)
    ensures |r| == |s|
  {
    seq(|s|, i requires 0 <= i < |s| => (s[i] as int) as bv8)
  }

  function FromGf(s: seq<bv8>): (r: seq<byte>)
    ensures |r| == |s|
  {
    seq(|s|, i requires 0 <= i < |s| => (s[i] as int) as byte)
  }

  lemma ToGfFromGf(s: seq<bv8>)
    ensures ToGf(FromGf(s)) == s
  {
    forall i | 0 <= i < |s|
      ensures ToGf(FromGf(s))[i] == s[i]
    {
      SameByte(ToGf(FromGf(s))[i], s[i]);
    }
  }

  lemma ToGfAppend(a: seq<byte>, b: seq<byte>)
    ensures ToGf(a + b) == ToGf(a) + ToGf(b)
  {
  }

  /** ec is the Reed-Solomon remainder of block: n bytes that agree with
      block followed by n zeros at every root of the generator. */
  ghost predicate RemainderOf(block: seq<byte>, ec: seq<bv8>, n: nat)
  {
    n <= 512 && |ec| == n && SameAtRoots(ec, ToGf(block) + Zeros(n), Generator(n))
  }

  /** c vanishes at 2^0, ..., 2^(n - 1), the roots of the generator. */
  ghost predicate IsCodeword(c: seq<bv8>, n: nat)
  {
    forall i :: 0 <= i < n ==> Eval(c, Pow2(i)) == 0
  }

  // ---------------------------------------------------------------------
  // addErrorCorrection

  /** Every ecBlocks[k] is the remainder of blocks[k]. */
  ghost predicate AllRemainders(blocks: seq<seq<byte>>, ecBlocks: seq<seq<bv8>>, n: nat)
  {
    |ecBlocks| == |blocks| &&
    forall k :: 0 <= k < |blocks| ==> RemainderOf(blocks[k], ecBlocks[k], n)
  }

  lemma AllRemaindersSnoc(blocks: seq<seq<byte>>, ecBlocks: seq<seq<bv8>>, n: nat,
                          block: seq<byte>, ec: seq<bv8>)
    requires AllRemainders(blocks, ecBlocks, n) && RemainderOf(block, ec, n)
    ensures AllRemainders(blocks + [block], ecBlocks + [ec], n)
  {
  }

  /** The remainder of one block, padded with n zeros, by the generator. */
  method BlockRemainder(block: seq<byte>, gen: seq<bv8>, n: nat) returns (ec: seq<bv8>)
    requires n <= 512 && gen == Generator(n)
    ensures RemainderOf(block, ec, n)
  {
    var padded := ToGf(block) + Zeros(n);
    ec := PolyMod(padded, gen);
  }

  /** processBlocks: cuts count blocks of dataPerBlock codewords from offset
      on and computes the remainder of each, padded with n zeros, by gen. */
  method ProcessBlocks(data: seq<byte>, gen: seq<bv8>, n: nat,
                       blocks: seq<seq<byte>>, ecBlocks: seq<seq<bv8>>, offset: nat,
                       count: nat, dataPerBlock: nat)
    returns (blocks': seq<seq<byte>>, ecBlocks': seq<seq<bv8>>, offset': nat)
    requires n <= 512 && gen == Generator(n)
    requires AllRemainders(blocks, ecBlocks, n)
    ensures blocks' == blocks + Split(data, offset, count, dataPerBlock)
    ensures offset' == offset + Span(count, dataPerBlock)
    ensures AllRemainders(blocks', ecBlocks', n)
  {
    blocks', ecBlocks', offset' := blocks, ecBlocks, offset;
    for i := 0 to count
      invariant blocks' + Split(data, offset', count - i, dataPerBlock)
        == blocks + Split(data, offset, count, dataPerBlock)
      invariant offset' == offset + Span(i, dataPerBlock)
      invariant AllRemainders(blocks', ecBlocks', n)
    {
      var block := SliceClamp(data, offset', offset' + dataPerBlock);
      SplitStep(data, blocks', offset', count - i, dataPerBlock);
      offset' := offset' + dataPerBlock;
      var ec := BlockRemainder(block, gen, n);
      AllRemaindersSnoc(blocks', ecBlocks', n, block, ec);
      blocks' := blocks' + [block];
      ecBlocks' := ecBlocks' + [ec];
    }
  }

  /** The data interleaving loop: for each column i below m, entry i of
      every block that has one. */
  method InterleaveData(result: seq<byte>, blocks: seq<seq<byte>>, m: nat) returns (r: seq<byte>)
    ensures r == result + Interleave(blocks, m)
  {
    r := result;
    for i := 0 to m
      invariant r == result + Interleave(blocks, i)
    {
      ghost var before := r;
      for b := 0 to |blocks|
        invariant r == before + Column(blocks[..b], i)
      {
        ColumnSnoc(blocks, b, i);
        if i < |blocks[b]| {
          r := r + [blocks[b][i]];
        }
      }
      assert blocks[..|blocks|] == blocks;
      Bitstream.Assoc(result, Interleave(blocks, i), Column(blocks, i));
    }
  }

  /** The error correction interleaving loop: for each i below n, byte i of
      every block's error correction. */
  method InterleaveEc(result: seq<byte>, ecBlocks: seq<seq<byte>>, n: nat) returns (r: seq<byte>)
    requires forall k :: 0 <= k < |ecBlocks| ==> |ecBlocks[k]| == n
    ensures r == result + Interleave(ecBlocks, n)
  {
    r := result;
    for i := 0 to n
      invariant r == result + Interleave(ecBlocks, i)
    {
      ghost var before := r;
      for b := 0 to |ecBlocks|
        invariant r == before + Column(ecBlocks[..b], i)
      {
        ColumnSnoc(ecBlocks, b, i);
        r := r + [ecBlocks[b][i]];
      }
      assert ecBlocks[..|ecBlocks|] == ecBlocks;
      Bitstream.Assoc(result, Interleave(ecBlocks, i), Column(ecBlocks, i));
    }
  }

  /** addErrorCorrection, with the corrected polyMod: returns the
      interleaved codewords and, as ecBytes, the error correction of each
      block in block order. */
  method AddErrorCorrection(data: seq<byte>, info: VersionInfo)
    returns (result: seq<byte>, ecBytes: seq<seq<byte>>)
    requires info.ecPerBlock <= 512
    ensures result == Interleave(Blocks(data, info), Max(info.dataPerBlock1, info.dataPerBlock2))
                      + Interleave(ecBytes, info.ecPerBlock)
    ensures |ecBytes| == NumBlocks(info)
    ensures forall j :: 0 <= j < |ecBytes| ==>
      |ecBytes[j]| == info.ecPerBlock &&
      IsCodeword(ToGf(Blocks(data, info)[j]) + ToGf(ecBytes[j]), info.ecPerBlock)
  {
    var n := info.ecPerBlock;
    var gen := GeneratorPoly(n);
    var blocks, ecBlocks, offset := ProcessBlocks(data, gen, n, [], [], 0, info.blocks1, info.dataPerBlock1);
    blocks, ecBlocks, offset := ProcessBlocks(data, gen, n, blocks, ecBlocks, offset, info.blocks2, info.dataPerBlock2);
    assert blocks == Blocks(data, info);
    ecBytes := FromGfAll(ecBlocks);
    CodewordsOfRemainders(blocks, ecBlocks, ecBytes, n);
    ghost var dataPart := Interleave(blocks, Max(info.dataPerBlock1, info.dataPerBlock2));
    result := InterleaveData([], blocks, Max(info.dataPerBlock1, info.dataPerBlock2));
    assert result == dataPart by {
      assert [] + dataPart == dataPart;
    }
    result := InterleaveEc(result, ecBytes, n);
  }

  /** The error correction bytes of every block as codewords. */
  method FromGfAll(ecBlocks: seq<seq<bv8>>) returns (ecBytes: seq<seq<byte>>)
    ensures |ecBytes| == |ecBlocks|
    ensures forall k :: 0 <= k < |ecBlocks| ==> ecBytes[k] == FromGf(ecBlocks[k])
  {
    ecBytes := seq(|ecBlocks|, k requires 0 <= k < |ecBlocks| => FromGf(ecBlocks[k]));
  }

  lemma CodewordsOfRemainders(blocks: seq<seq<byte>>, ecBlocks: seq<seq<bv8>>,
                              ecBytes: seq<seq<byte>>, n: nat)
    requires AllRemainders(blocks, ecBlocks, n)
    requires |ecBytes| == |ecBlocks|
    requires forall k :: 0 <= k < |ecBlocks| ==> ecBytes[k] == FromGf(ecBlocks[k])
    ensures forall j :: 0 <= j < |ecBytes| ==>
      |ecBytes[j]| == n && IsCodeword(ToGf(blocks[j]) + ToGf(ecBytes[j]), n)
  {
    forall j | 0 <= j < |ecBytes|
      ensures |ecBytes[j]| == n && IsCodeword(ToGf(blocks[j]) + ToGf(ecBytes[j]), n)
    {
      assert RemainderOf(blocks[j], ecBlocks[j], n);
      ToGfFromGf(ecBlocks[j]);
      RemainderMakesCodeword(ToGf(blocks[j]), n, ecBlocks[j]);
    }
  }

  // ---------------------------------------------------------------------
  // addErrorCorrection as written

  /** n zero codewords. */
  function ZeroBytes(n: nat): (z: seq<byte>)
    ensures |z| == n && forall k :: 0 <= k < n ==> z[k] == 0
  {
    seq(n, _ => 0)
  }

  /** The remainder of one block as the program computes it: polyMod as
      written hands back the n padding zeros whatever the block. */
  method BlockRemainderAsWritten(block: seq<byte>, gen: seq<bv8>, n: nat) returns (ec: seq<bv8>)
    requires n <= 512 && gen == Generator(n)
    ensures ec == Zeros(n)
  {
    var padded := ToGf(block) + Zeros(n);
    ec := PolyModAsWritten(padded, gen);
    assert padded[|padded| - |gen| + 1..] == Zeros(n);
  }

  /** Every ecBlocks[k] is n zeros. */
  ghost predicate AllZeros(blocks: seq<seq<byte>>, ecBlocks: seq<seq<bv8>>, n: nat)
  {
    |ecBlocks| == |blocks| && forall k :: 0 <= k < |ecBlocks| ==> ecBlocks[k] == Zeros(n)
  }

  /** processBlocks as the program runs it, with polyMod as written: the
      same blocks as ProcessBlocks, each with n zero bytes of error
      correction. */
  method ProcessBlocksAsWritten(data: seq<byte>, gen: seq<bv8>, n: nat,
                                blocks: seq<seq<byte>>, ecBlocks: seq<seq<bv8>>, offset: nat,
                                count: nat, dataPerBlock: nat)
    returns (blocks': seq<seq<byte>>, ecBlocks': seq<seq<bv8>>, offset': nat)
    requires n <= 512 && gen == Generator(n)
    requires AllZeros(blocks, ecBlocks, n)
    ensures blocks' == blocks + Split(data, offset, count, dataPerBlock)
    ensures offset' == offset + Span(count, dataPerBlock)
    ensures AllZeros(blocks', ecBlocks', n)
  {
    blocks', ecBlocks', offset' := blocks, ecBlocks, offset;
    for i := 0 to count
      invariant blocks' + Split(data, offset', count - i, dataPerBlock)
        == blocks + Split(data, offset, count, dataPerBlock)
      invariant offset' == offset + Span(i, dataPerBlock)
      invariant AllZeros(blocks', ecBlocks', n)
    {
      var block := SliceClamp(data, offset', offset' + dataPerBlock);
      SplitStep(data, blocks', offset', count - i, dataPerBlock);
      offset' := offset' + dataPerBlock;
      var ec := BlockRemainderAsWritten(block, gen, n);
      blocks' := blocks' + [block];
      ecBlocks' := ecBlocks' + [ec];
    }
  }

  /** addErrorCorrection as the program runs it: the data part is the same
      interleaving of the blocks as AddErrorCorrection's, and the error
      correction part is NumBlocks(info) * ecPerBlock zero bytes. */
  method AddErrorCorrectionAsWritten(data: seq<byte>, info: VersionInfo) returns (result: seq<byte>)
    requires info.ecPerBlock <= 512
    ensures result == Interleave(Blocks(data, info), Max(info.dataPerBlock1, info.dataPerBlock2))
                      + ZeroBytes(NumBlocks(info) * info.ecPerBlock)
  {
    var n := info.ecPerBlock;
    var gen := GeneratorPoly(n);
    var blocks, ecBlocks, offset := ProcessBlocksAsWritten(data, gen, n, [], [], 0, info.blocks1, info.dataPerBlock1);
    blocks, ecBlocks, offset := ProcessBlocksAsWritten(data, gen, n, blocks, ecBlocks, offset, info.blocks2, info.dataPerBlock2);
    assert blocks == Blocks(data, info);
    var ecBytes := FromGfAll(ecBlocks);
    forall k | 0 <= k < |ecBytes|
      ensures ecBytes[k] == ZeroBytes(n)
    {
      assert ecBytes[k] == FromGf(Zeros(n));
    }
    ghost var dataPart := Interleave(blocks, Max(info.dataPerBlock1, info.dataPerBlock2));
    result := InterleaveData([], blocks, Max(info.dataPerBlock1, info.dataPerBlock2));
    assert result == dataPart by {
      assert [] + dataPart == dataPart;
    }
    result := InterleaveEc(result, ecBytes, n);
    InterleaveZeros(ecBytes, n, n);
    SpanIsProduct(n, |ecBytes|);
  }

  /** Interleaving blocks of n zeros gives only zeros. */
  lemma {:induction false} InterleaveZeros(bs: seq<seq<byte>>, n: nat, m: nat)
    requires m <= n
    requires forall k :: 0 <= k < |bs| ==> bs[k] == ZeroBytes(n)
    ensures Interleave(bs, m) == ZeroBytes(Span(m, |bs|))
    decreases m
  {
    if m > 0 {
      var k := m - 1;
      InterleaveZeros(bs, n, k);
      ColumnZeros(bs, n, k);
      InterleaveUnfold(bs, k, m);
      assert ZeroBytes(Span(k, |bs|)) + ZeroBytes(|bs|) == ZeroBytes(Span(m, |bs|));
    }
  }

  lemma {:induction false} ColumnZeros(bs: seq<seq<byte>>, n: nat, i: nat)
    requires i < n
    requires forall k :: 0 <= k < |bs| ==> bs[k] == ZeroBytes(n)
    ensures Column(bs, i) == ZeroBytes(|bs|)
    decreases |bs|
  {
    if bs != [] {
      var front := bs[..|bs| - 1];
      ColumnZeros(front, n, i);
      assert ZeroBytes(|front|) + [0] == ZeroBytes(|bs|);
    }
  }

  /** A block whose codewords do not add up to 0 (its value at 2^0 = 1)
      followed by n >= 1 zero bytes is not a Reed-Solomon codeword: the
      program's error correction is wrong for every such block. */
  lemma ZeroEcNotCodeword(block: seq<byte>, n: nat)
    requires n >= 1 && Eval(ToGf(block), Pow2(0)) != 0
    ensures !IsCodeword(ToGf(block) + ToGf(ZeroBytes(n)), n)
  {
    var p := ToGf(block);
    var e := Eval(p, 1);
    assert ToGf(ZeroBytes(n)) == Zeros(n);
    EvalAppend(p, Zeros(n), 1);
    EvalZeros(n, 1);
    XPowOne(n);
    GfMulOne(e);
    AddLaws(e, 0, 0);
    assert Eval(p + Zeros(n), Pow2(0)) != 0;
  }

  lemma ColumnSnoc<T>(bs: seq<seq<T>>, b: nat, i: nat)
    requires b < |bs|
    ensures Column(bs[..b + 1], i) == Column(bs[..b], i) + (if i < |bs[b]| then [bs[b][i]] else [])
  {
    assert bs[..b + 1][..b] == bs[..b];
  }

  lemma SplitStep<T>(data: seq<T>, done: seq<seq<T>>, offset: nat, count: nat, dataPerBlock: nat)
    requires count > 0
    ensures done + Split(data, offset, count, dataPerBlock)
      == (done + [SliceClamp(data, offset, offset + dataPerBlock)])
         + Split(data, offset + dataPerBlock, count - 1, dataPerBlock)
  {
    Bitstream.Assoc(done, [SliceClamp(data, offset, offset + dataPerBlock)],
          Split(data, offset + dataPerBlock, count - 1, dataPerBlock));
  }

  lemma MulStep(i: nat, d: nat)
    ensures (i + 1) * d == i * d + d
  {
  }

  // ---------------------------------------------------------------------
  // The blocks partition the data

  lemma {:induction false} FlattenAppend<T>(a: seq<seq<T>>, b: seq<seq<T>>)
    ensures Flatten(a + b) == Flatten(a) + Flatten(b)
    decreases |b|
  {
    if b == [] {
      assert a + b == a;
    } else {
      var front := b[..|b| - 1];
      assert (a + b)[..|a + b| - 1] == a + front;
      FlattenAppend(a, front);
    }
  }

  lemma {:induction false} FlattenSplit<T>(data: seq<T>, offset: nat, count: nat, d: nat)
    requires offset + Span(count, d) <= |data|
    ensures Flatten(Split(data, offset, count, d)) == data[offset..offset + Span(count, d)]
    decreases count
  {
    if count > 0 {
      var end := offset + Span(count, d);
      var mid := offset + d;
      SpanFront(count, d);
      var first := data[offset..mid];
      var count' := count - 1;
      var rest := Split(data, mid, count', d);
      assert Split(data, offset, count, d) == [first] + rest;
      FlattenSplit(data, mid, count', d);
      FlattenAppend([first], rest);
      assert Flatten([first]) == first by {
        assert [first][..0] == [];
      }
      SliceConcat(data, offset, mid, end);
    }
  }

  /** Span counted from the first block. */
  lemma {:induction false} SpanFront(count: nat, d: nat)
    requires count > 0
    ensures Span(count, d) == d + Span(count - 1, d)
  {
    if count > 1 {
      var c := count - 1;
      SpanFront(c, d);
    }
  }

  lemma {:induction false} SplitLengths<T>(data: seq<T>, offset: nat, count: nat, d: nat)
    requires offset + Span(count, d) <= |data|
    ensures forall k :: 0 <= k < count ==> |Split(data, offset, count, d)[k]| == d
    decreases count
  {
    if count > 0 {
      var offset', count' := offset + d, count - 1;
      SpanFront(count, d);
      SplitLengths(data, offset', count', d);
    }
  }

  /** With exactly Capacity(info) data codewords, the blocks are the data cut
      in order, blocks1 of dataPerBlock1 codewords and then blocks2 of
      dataPerBlock2. */
  lemma BlocksPartition(data: seq<byte>, info: VersionInfo)
    requires |data| == Capacity(info)
    ensures Flatten(Blocks(data, info)) == data
    ensures forall j :: 0 <= j < NumBlocks(info) ==>
      |Blocks(data, info)[j]| == if j < info.blocks1 then info.dataPerBlock1 else info.dataPerBlock2
  {
    var b1, d1, b2, d2 := info.blocks1, info.dataPerBlock1, info.blocks2, info.dataPerBlock2;
    var first := Split(data, 0, b1, d1);
    var second := Split(data, Span(b1, d1), b2, d2);
    SpanIsProduct(b1, d1);
    SpanIsProduct(b2, d2);
    FlattenAppend(first, second);
    FlattenSplit(data, 0, b1, d1);
    FlattenSplit(data, Span(b1, d1), b2, d2);
    SliceConcat(data, 0, Span(b1, d1), |data|);
    assert data[0..|data|] == data;
    SplitLengths(data, 0, b1, d1);
    SplitLengths(data, Span(b1, d1), b2, d2);
  }

  // ---------------------------------------------------------------------
  // Interleaving is a permutation

  lemma {:induction false} TakeStep<T>(bs: seq<seq<T>>, m: nat, m': nat)
    requires m' == m + 1
    ensures multiset(Take(bs, m')) == multiset(Take(bs, m)) + multiset(Column(bs, m))
    decreases |bs|
  {
    if bs != [] {
      var front := bs[..|bs| - 1];
      var last := bs[|bs| - 1];
      var cell := if m < |last| then [last[m]] else [];
      TakeStep(front, m, m');
      assert last[..Min(m', |last|)] == last[..Min(m, |last|)] + cell;
      MultisetStep(Take(front, m'), Take(front, m), Column(front, m),
                   last[..Min(m', |last|)], last[..Min(m, |last|)], cell);
    }
  }

  lemma MultisetStep<T>(big: seq<T>, small: seq<T>, col: seq<T>, x': seq<T>, x: seq<T>, cell: seq<T>)
    requires multiset(big) == multiset(small) + multiset(col)
    requires x' == x + cell
    ensures multiset(big + x') == multiset(small + x) + multiset(col + cell)
  {
  }

  lemma {:induction false} TakeZero<T>(bs: seq<seq<T>>)
    ensures Take(bs, 0) == []
    decreases |bs|
  {
    if bs != [] {
      var front := bs[..|bs| - 1];
      TakeZero(front);
    }
  }

  lemma {:induction false} InterleaveTake<T>(bs: seq<seq<T>>, m: nat)
    ensures multiset(Interleave(bs, m)) == multiset(Take(bs, m))
    decreases m
  {
    if m == 0 {
      TakeZero(bs);
    } else {
      var k := m - 1;
      InterleaveTake(bs, k);
      InterleaveUnfold(bs, k, m);
      TakeStep(bs, k, m);
    }
  }

  lemma InterleaveUnfold<T>(bs: seq<seq<T>>, k: nat, m: nat)
    requires m == k + 1
    ensures Interleave(bs, m) == Interleave(bs, k) + Column(bs, k)
  {
  }

  /** Cutting blocks no longer than m leaves them whole. */
  lemma {:induction false} TakeAll<T>(bs: seq<seq<T>>, m: nat)
    requires forall k :: 0 <= k < |bs| ==> |bs[k]| <= m
    ensures Take(bs, m) == Flatten(bs)
    decreases |bs|
  {
    if bs != [] {
      var front := bs[..|bs| - 1];
      var last := bs[|bs| - 1];
      TakeAll(front, m);
      assert last[..|last|] == last;
    }
  }

  /** Interleaving blocks no longer than m, column by column, only reorders
      their entries. */
  lemma InterleavePermutation<T>(bs: seq<seq<T>>, m: nat)
    requires forall k :: 0 <= k < |bs| ==> |bs[k]| <= m
    ensures multiset(Interleave(bs, m)) == multiset(Flatten(bs))
  {
    InterleaveTake(bs, m);
    TakeAll(bs, m);
  }

  // ---------------------------------------------------------------------
  // Full columns

  /** Where entry i of block j lands when w blocks are interleaved column
      by column: i * w + j, by SpanIsProduct. */
  function Position(i: nat, w: nat, j: nat): nat
  {
    Span(i, w) + j
  }

  lemma PositionIsProduct(i: nat, w: nat, j: nat)
    ensures Position(i, w, j) == i * w + j
  {
    SpanIsProduct(i, w);
  }

  /** Entry i of block j sits at Position(i, |bs|, j) of s, for every column
      i below m. */
  ghost predicate ColumnsAt<T>(s: seq<T>, bs: seq<seq<T>>, m: nat)
  {
    forall i, j :: 0 <= i < m && 0 <= j < |bs| ==>
      Position(i, |bs|, j) < |s| && i < |bs[j]| && s[Position(i, |bs|, j)] == bs[j][i]
  }

  lemma {:induction false} ColumnFull<T>(bs: seq<seq<T>>, i: nat)
    requires forall k :: 0 <= k < |bs| ==> i < |bs[k]|
    ensures |Column(bs, i)| == |bs|
    ensures forall j :: 0 <= j < |bs| ==> Column(bs, i)[j] == bs[j][i]
    decreases |bs|
  {
    if bs != [] {
      var front := bs[..|bs| - 1];
      ColumnFull(front, i);
    }
  }

  /** While every block has at least m entries, column i of the interleaving
      holds entry i of each block in block order. */
  lemma {:induction false} InterleaveFull<T>(bs: seq<seq<T>>, m: nat)
    requires forall k :: 0 <= k < |bs| ==> m <= |bs[k]|
    ensures |Interleave(bs, m)| == Span(m, |bs|)
    ensures ColumnsAt(Interleave(bs, m), bs, m)
    decreases m
  {
    if m > 0 {
      var k := m - 1;
      InterleaveFull(bs, k);
      ColumnFull(bs, k);
      var prev, col := Interleave(bs, k), Column(bs, k);
      InterleaveUnfold(bs, k, m);
      AppendColumn(bs, prev, col, k, m);
    }
  }

  /** Appending column k to the first k full columns gives k + 1 full columns. */
  lemma AppendColumn<T>(bs: seq<seq<T>>, prev: seq<T>, col: seq<T>, k: nat, m: nat)
    requires m == k + 1
    requires forall b :: 0 <= b < |bs| ==> m <= |bs[b]|
    requires |prev| == Span(k, |bs|) && ColumnsAt(prev, bs, k)
    requires |col| == |bs|
    requires forall j :: 0 <= j < |bs| ==> col[j] == bs[j][k]
    ensures |prev + col| == Span(m, |bs|)
    ensures ColumnsAt(prev + col, bs, m)
  {
    var w := |bs|;
    forall i, j | 0 <= i < m && 0 <= j < w
      ensures Position(i, w, j) < |prev + col| && i < |bs[j]| && (prev + col)[Position(i, w, j)] == bs[j][i]
    {
      var p := Position(i, w, j);
      if i < k {
        PositionBelow(i, j, w, k);
        assert (prev + col)[p] == prev[p];
      } else {
        assert p == |prev| + j;
        assert (prev + col)[p] == col[j];
      }
    }
  }

  lemma MulMono(a: nat, b: nat, c: nat)
    requires a <= b
    ensures a * c <= b * c
  {
  }

  lemma {:induction false} PositionBelow(i: nat, j: nat, w: nat, k: nat)
    requires i < k && j < w
    ensures Position(i, w, j) < Span(k, w)
    decreases k
  {
    var k' := k - 1;
    if i < k' {
      PositionBelow(i, j, w, k');
    }
  }

  lemma {:induction false} InterleavePrefix<T>(bs: seq<seq<T>>, m: nat, m': nat)
    requires m <= m'
    ensures Interleave(bs, m) <= Interleave(bs, m')
    decreases m' - m
  {
    if m < m' {
      var k := m' - 1;
      InterleavePrefix(bs, m, k);
    }
  }

  // ---------------------------------------------------------------------
  // The layout of the result

  /** The columns every block fills: all dataPerBlock1 of them when there
      is no second group, otherwise the shorter of the two block lengths. */
  function FullColumns(info: VersionInfo): (lo: nat)
    ensures lo <= Max(info.dataPerBlock1, info.dataPerBlock2)
  {
    if info.blocks2 == 0 then info.dataPerBlock1 else Min(info.dataPerBlock1, info.dataPerBlock2)
  }

  /** Entry d1 of each block from b1 on (the longer blocks of the second
      group) sits at Span(d1, |bs|) + (j - b1) of s: the column after the
      full ones holds only those entries, in block order. */
  ghost predicate LastColumnAt<T>(s: seq<T>, bs: seq<seq<T>>, b1: nat, d1: nat)
  {
    forall j :: b1 <= j < |bs| ==>
      Span(d1, |bs|) + (j - b1) < |s| && d1 < |bs[j]| && s[Span(d1, |bs|) + (j - b1)] == bs[j][d1]
  }

  /** With Capacity(info) data codewords: the result has the length the
      table promises, its data part is a permutation of the data, the first
      FullColumns(info) columns hold codeword i of each block in block order,
      when the second group's blocks are one codeword longer their last
      codewords follow in block order, and the error correction part holds
      byte i of block j at offset i * (blocks1 + blocks2) + j. */
  lemma ResultLayout(data: seq<byte>, info: VersionInfo, ecBytes: seq<seq<byte>>)
    requires |data| == Capacity(info)
    requires |ecBytes| == NumBlocks(info)
    requires forall j :: 0 <= j < |ecBytes| ==> |ecBytes[j]| == info.ecPerBlock
    ensures var result := Interleave(Blocks(data, info), Max(info.dataPerBlock1, info.dataPerBlock2))
                          + Interleave(ecBytes, info.ecPerBlock);
      && |result| == EmittedCodewords(info)
      && multiset(result[..|data|]) == multiset(data)
      && ColumnsAt(result, Blocks(data, info), FullColumns(info))
      && (info.blocks2 > 0 && info.dataPerBlock2 == info.dataPerBlock1 + 1 ==>
            LastColumnAt(result, Blocks(data, info), info.blocks1, info.dataPerBlock1))
      && ColumnsAt(result[|data|..], ecBytes, info.ecPerBlock)
  {
    var blocks := Blocks(data, info);
    var dataPart := Interleave(blocks, Max(info.dataPerBlock1, info.dataPerBlock2));
    var ecPart := Interleave(ecBytes, info.ecPerBlock);
    DataLayout(data, info, blocks, dataPart);
    InterleaveFull(ecBytes, info.ecPerBlock);
    ConcatLayout(dataPart, ecPart, blocks, FullColumns(info));
    if info.blocks2 > 0 && info.dataPerBlock2 == info.dataPerBlock1 + 1 {
      PrefixLastColumn(dataPart, dataPart + ecPart, blocks, info.blocks1, info.dataPerBlock1);
    }
    assert |ecPart| == EmittedCodewords(info) - Capacity(info) by {
      SpanIsProduct(info.ecPerBlock, NumBlocks(info));
      EcLength(info);
    }
  }

  lemma DataLayout(data: seq<byte>, info: VersionInfo, blocks: seq<seq<byte>>, dataPart: seq<byte>)
    requires |data| == Capacity(info)
    requires blocks == Blocks(data, info)
    requires dataPart == Interleave(blocks, Max(info.dataPerBlock1, info.dataPerBlock2))
    ensures |dataPart| == |data| && multiset(dataPart) == multiset(data)
    ensures ColumnsAt(dataPart, blocks, FullColumns(info))
    ensures info.blocks2 > 0 && info.dataPerBlock2 == info.dataPerBlock1 + 1 ==>
      LastColumnAt(dataPart, blocks, info.blocks1, info.dataPerBlock1)
  {
    var m := Max(info.dataPerBlock1, info.dataPerBlock2);
    BlocksPartition(data, info);
    InterleavePermutation(blocks, m);
    assert |multiset(dataPart)| == |multiset(data)|;
    DataColumns(info, blocks, m, dataPart);
  }

  /** The column layout of interleaved blocks cut as the table says. */
  lemma DataColumns(info: VersionInfo, blocks: seq<seq<byte>>, m: nat, dataPart: seq<byte>)
    requires |blocks| == NumBlocks(info) && m == Max(info.dataPerBlock1, info.dataPerBlock2)
    requires forall j :: 0 <= j < |blocks| ==>
      |blocks[j]| == if j < info.blocks1 then info.dataPerBlock1 else info.dataPerBlock2
    requires dataPart == Interleave(blocks, m)
    ensures ColumnsAt(dataPart, blocks, FullColumns(info))
    ensures info.blocks2 > 0 && info.dataPerBlock2 == info.dataPerBlock1 + 1 ==>
      LastColumnAt(dataPart, blocks, info.blocks1, info.dataPerBlock1)
  {
    var lo := FullColumns(info);
    InterleaveFull(blocks, lo);
    InterleavePrefix(blocks, lo, m);
    PrefixColumns(Interleave(blocks, lo), dataPart, blocks, lo);
    if info.blocks2 > 0 && info.dataPerBlock2 == info.dataPerBlock1 + 1 {
      LastColumn(blocks, info.blocks1, info.dataPerBlock1, m);
    }
  }

  /** When blocks b1 on are one entry longer than the d1 entries of the
      others, interleaving d1 + 1 columns ends with entry d1 of each of them. */
  lemma LastColumn<T>(bs: seq<seq<T>>, b1: nat, d1: nat, m: nat)
    requires m == d1 + 1 && b1 <= |bs|
    requires forall k :: 0 <= k < b1 ==> |bs[k]| == d1
    requires forall k :: b1 <= k < |bs| ==> |bs[k]| == m
    ensures LastColumnAt(Interleave(bs, m), bs, b1, d1)
  {
    var prev, col := Interleave(bs, d1), Column(bs, d1);
    assert |prev| == Span(d1, |bs|) by {
      InterleaveFull(bs, d1);
    }
    InterleaveUnfold(bs, d1, m);
    ColumnTail(bs, b1, d1);
    forall j | b1 <= j < |bs|
      ensures Span(d1, |bs|) + (j - b1) < |prev + col| && (prev + col)[Span(d1, |bs|) + (j - b1)] == bs[j][d1]
    {
      assert (prev + col)[|prev| + (j - b1)] == col[j - b1];
    }
  }

  /** Column i of blocks whose first b1 are too short for entry i and whose
      others are long enough: entry i of each block from b1 on. */
  lemma {:induction false} ColumnTail<T>(bs: seq<seq<T>>, b1: nat, i: nat)
    requires b1 <= |bs|
    requires forall k :: 0 <= k < b1 ==> |bs[k]| <= i
    requires forall k :: b1 <= k < |bs| ==> i < |bs[k]|
    ensures |Column(bs, i)| == |bs| - b1
    ensures forall j :: b1 <= j < |bs| ==> Column(bs, i)[j - b1] == bs[j][i]
    decreases |bs|
  {
    if bs != [] {
      var front := bs[..|bs| - 1];
      if b1 == |bs| {
        ColumnTail(front, |front|, i);
      } else {
        ColumnTail(front, b1, i);
      }
    }
  }

  lemma PrefixLastColumn<T>(s: seq<T>, t: seq<T>, bs: seq<seq<T>>, b1: nat, d1: nat)
    requires s <= t && LastColumnAt(s, bs, b1, d1)
    ensures LastColumnAt(t, bs, b1, d1)
  {
    forall j | b1 <= j < |bs|
      ensures Span(d1, |bs|) + (j - b1) < |t| && d1 < |bs[j]| && t[Span(d1, |bs|) + (j - b1)] == bs[j][d1]
    {
      var p := Span(d1, |bs|) + (j - b1);
      assert p < |s| && d1 < |bs[j]| && s[p] == bs[j][d1];
      assert t[..|s|][p] == s[p];
    }
  }

  lemma PrefixColumns<T>(s: seq<T>, t: seq<T>, bs: seq<seq<T>>, m: nat)
    requires s <= t && ColumnsAt(s, bs, m)
    ensures ColumnsAt(t, bs, m)
  {
    forall i, j | 0 <= i < m && 0 <= j < |bs|
      ensures Position(i, |bs|, j) < |t| && i < |bs[j]| && t[Position(i, |bs|, j)] == bs[j][i]
    {
      var p := Position(i, |bs|, j);
      assert t[..|s|][p] == s[p];
    }
  }

  lemma ConcatLayout<T>(dataPart: seq<T>, ecPart: seq<T>, blocks: seq<seq<T>>, lo: nat)
    requires ColumnsAt(dataPart, blocks, lo)
    ensures (dataPart + ecPart)[..|dataPart|] == dataPart
    ensures (dataPart + ecPart)[|dataPart|..] == ecPart
    ensures ColumnsAt(dataPart + ecPart, blocks, lo)
  {
    PrefixColumns(dataPart, dataPart + ecPart, blocks, lo);
  }

  lemma EcLength(info: VersionInfo)
    ensures EmittedCodewords(info) - Capacity(info) == info.ecPerBlock * NumBlocks(info)
  {
  }

  lemma SliceConcat<T>(s: seq<T>, a: nat, b: nat, c: nat)
    requires a <= b <= c <= |s|
    ensures s[a..b] + s[b..c] == s[a..c]
  {
  }
}
