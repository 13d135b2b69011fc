/** generateQrSvg up to its module matrix: the choice of version, the
    function patterns, the codewords, their placement, the choice of mask
    and the format word. */
module Encoder {
  import opened Bitstream
  import opened Versions
  import opened Grid
  import opened ErrorCorrection
  import opened Placement
  import opened Masking
  import opened Penalty
  import opened FormatInfo
  import GaloisField
  import Polynomial

  // ---------------------------------------------------------------------
  // The symbol as values

  /** The function patterns of a version as a matrix value. */
  function TemplateMatrix(version: nat): (g: Matrix)
    requires 1 <= version <= 10
    ensures IsSquare(g, Side(version))
  {
    var n := Side(version);
    seq(n, r requires 0 <= r < n => seq(n, c requires 0 <= c < n => Template(version, r, c)))
  }

  /** What the rest of the encoder relies on in the function patterns t of
      a symbol of side n: the dark module, and no unset cell in column 6 or
      in the format area. */
  predicate Reserved(t: Matrix, n: nat)
  {
    && n >= 21 && n % 2 == 1 && IsSquare(t, n)
    && t[n - 8][8] == Dark
    && (forall r :: 0 <= r < n ==> t[r][6] != Unset)
    && (forall r, c :: 0 <= r < n && 0 <= c < n && InFormatArea(n, r, c) ==> t[r][c] != Unset)
  }

  /** The function patterns of every version are reserved in that sense. */
  lemma TemplateIsReserved(version: nat)
    requires 1 <= version <= 10
    ensures Reserved(TemplateMatrix(version), Side(version))
  {
    TemplateReserved(AlignmentPositions(version), Side(version));
  }

  /** The cells placeData fills on the function patterns t, in the order
      it fills them. */
  function DataCells(t: Matrix, n: nat): seq<Pos>
  {
    FreeCells(t, ZigzagOrder(n))
  }

  /** d is the matrix after placeData on the function patterns t: the k-th
      data cell holds bit k of the codewords, every other cell its function
      pattern. */
  predicate Layout(d: Matrix, t: Matrix, n: nat, codewords: seq<byte>)
  {
    var F := DataCells(t, n);
    && IsSquare(d, n) && IsSquare(t, n)
    && (forall k {:trigger F[k]} :: 0 <= k < |F| ==>
          InMatrix(d, F[k]) && d[F[k].0][F[k].1] == BitCell(Bits(codewords), k))
    && (forall r, c {:trigger d[r][c]} :: 0 <= r < n && 0 <= c < n && (r, c) !in F ==> d[r][c] == t[r][c])
  }

  /** The candidate symbol for mask k: the data matrix d masked outside the
      function patterns t, with the format word of k written over it. */
  function Final(d: Matrix, t: Matrix, n: nat, k: nat): (g: Matrix)
    requires k < 8 && IsSquare(d, n) && IsSquare(t, n)
    ensures IsSquare(g, n)
  {
    seq(n, r requires 0 <= r < n => seq(n, c requires 0 <= c < n =>
      AfterFormat(Masked(d[r][c], t[r][c], k, r, c), BitsOf(FORMAT_BITS[k], 15), n, r, c)))
  }

  /** The penalty of the candidate for mask k. */
  function MaskScore(d: Matrix, t: Matrix, n: nat, k: nat): nat
    requires k < 8 && IsSquare(d, n) && IsSquare(t, n)
  {
    Score(Final(d, t, n, k), n)
  }

  /** The penalties of the candidates for masks 0 to m - 1, in the order
      the mask loop scores them. */
  function Scores(d: Matrix, t: Matrix, n: nat, m: nat): (s: seq<nat>)
    requires m <= 8 && IsSquare(d, n) && IsSquare(t, n)
    ensures |s| == m
  {
    if m == 0 then [] else Scores(d, t, n, m - 1) + [MaskScore(d, t, n, m - 1)]
  }

  /** s[k] is the first of the lowest values of s. */
  predicate FirstMin(s: seq<nat>, k: nat)
  {
    && k < |s|
    && (forall j :: 0 <= j < |s| ==> s[k] <= s[j])
    && (forall j :: 0 <= j < k ==> s[k] < s[j])
  }

  /** k is the mask the encoder settles on: no candidate scores lower, and
      every earlier one scores higher. */
  predicate BestMask(d: Matrix, t: Matrix, n: nat, k: nat)
    requires IsSquare(d, n) && IsSquare(t, n)
  {
    FirstMin(Scores(d, t, n, 8), k)
  }

  /** result is what addErrorCorrection returns for data: the interleaved
      blocks followed by the interleaved error correction, each block with
      its error correction a Reed-Solomon codeword. */
  ghost predicate ErrorCorrected(data: seq<byte>, info: VersionInfo, result: seq<byte>)
  {
    exists ecBytes: seq<seq<byte>> ::
      && |ecBytes| == NumBlocks(info)
      && (forall j :: 0 <= j < |ecBytes| ==>
            |ecBytes[j]| == info.ecPerBlock &&
            IsCodeword(ToGf(Blocks(data, info)[j]) + ToGf(ecBytes[j]), info.ecPerBlock))
      && result == Interleave(Blocks(data, info), Max(info.dataPerBlock1, info.dataPerBlock2))
                   + Interleave(ecBytes, info.ecPerBlock)
  }

  /** result is what addErrorCorrection returns for data with polyMod as
      written: the interleaved blocks followed by NumBlocks(info) * ecPerBlock
      zero bytes. */
  ghost predicate ZeroCorrected(data: seq<byte>, info: VersionInfo, result: seq<byte>)
  {
    result == Interleave(Blocks(data, info), Max(info.dataPerBlock1, info.dataPerBlock2))
              + ZeroBytes(NumBlocks(info) * info.ecPerBlock)
  }

  /** The program's codewords carry the Reed-Solomon property only for data
      whose every block adds up to 0 (its value at 2^0): for any other data
      the zero error correction of polyMod as written is wrong. */
  lemma ZeroCorrectedOnlyIfBalanced(data: seq<byte>, info: VersionInfo, result: seq<byte>)
    requires info.ecPerBlock >= 1
    requires ZeroCorrected(data, info, result) && ErrorCorrected(data, info, result)
    ensures forall j :: 0 <= j < NumBlocks(info) ==> Polynomial.Eval(ToGf(Blocks(data, info)[j]), GaloisField.Pow2(0)) == 0
  {
    var n, blocks := info.ecPerBlock, Blocks(data, info);
    var ecBytes: seq<seq<byte>> :|
      && |ecBytes| == NumBlocks(info)
      && (forall j :: 0 <= j < |ecBytes| ==>
            |ecBytes[j]| == n && IsCodeword(ToGf(blocks[j]) + ToGf(ecBytes[j]), n))
      && result == Interleave(blocks, Max(info.dataPerBlock1, info.dataPerBlock2)) + Interleave(ecBytes, n);
    var dataPart := Interleave(blocks, Max(info.dataPerBlock1, info.dataPerBlock2));
    var ecPart := Interleave(ecBytes, n);
    var zeros := ZeroBytes(NumBlocks(info) * n);
    assert ecPart == zeros by {
      assert ecPart == (dataPart + ecPart)[|dataPart|..];
      assert zeros == (dataPart + zeros)[|dataPart|..];
    }
    InterleaveFull(ecBytes, n);
    forall j | 0 <= j < NumBlocks(info)
      ensures Polynomial.Eval(ToGf(blocks[j]), GaloisField.Pow2(0)) == 0
    {
      forall i | 0 <= i < n
        ensures ecBytes[j][i] == 0
      {
        assert ecPart[Position(i, |ecBytes|, j)] == ecBytes[j][i];
      }
      assert ecBytes[j] == ZeroBytes(n);
      if Polynomial.Eval(ToGf(blocks[j]), GaloisField.Pow2(0)) != 0 {
        ZeroEcNotCodeword(blocks[j], n);
      }
    }
  }

  // ---------------------------------------------------------------------
  // Properties of the chosen symbol

  /** At most one position is the first minimum, so at most one mask is
      the best. */
  lemma FirstMinUnique(s: seq<nat>, k: nat, k': nat)
    requires FirstMin(s, k) && FirstMin(s, k')
    ensures k == k'
  {
    assert s[k] <= s[k'] && s[k'] <= s[k];
  }

  /** The step of the mask loop: a value strictly below the first minimum
      becomes the new first minimum, any other leaves it in place. */
  lemma FirstMinSnoc(s: seq<nat>, k: nat, x: nat)
    ensures s == [] ==> FirstMin(s + [x], 0)
    ensures FirstMin(s, k) && x < s[k] ==> FirstMin(s + [x], |s|)
    ensures FirstMin(s, k) && s[k] <= x ==> FirstMin(s + [x], k)
  {
  }

  /** Entry j of the scores is the penalty of the candidate for mask j. */
  lemma {:induction false} ScoresAt(d: Matrix, t: Matrix, n: nat, m: nat, j: nat)
    requires m <= 8 && IsSquare(d, n) && IsSquare(t, n) && j < m
    ensures Scores(d, t, n, m)[j] == MaskScore(d, t, n, j)
  {
    if j < m - 1 {
      ScoresAt(d, t, n, m - 1, j);
    }
  }

  /** The data cells are exactly the cells the function patterns leave
      unset. */
  lemma DataCell(t: Matrix, n: nat, r: int, c: int)
    requires Reserved(t, n)
    requires 0 <= r < n && 0 <= c < n
    ensures (r, c) in DataCells(t, n) <==> t[r][c] == Unset
  {
    FreeMember(t, ZigzagOrder(n), (r, c));
    ZigzagMember(n, r, c);
    if c == 6 {
      assert t[r][6] != Unset;
    }
  }

  /** placeData visits every cell outside column 6 and none in it. */
  lemma ZigzagMember(n: nat, r: int, c: int)
    requires n >= 21 && n % 2 == 1 && 0 <= r < n && 0 <= c < n
    ensures (r, c) in ZigzagOrder(n) <==> c != 6
  {
    VisitMembers(n, n - 1, true, (r, c));
  }

  /** A cell of the data matrix: it is set, and where the function
      patterns are set it holds them. */
  lemma LayoutAt(d: Matrix, t: Matrix, n: nat, codewords: seq<byte>, r: int, c: int)
    requires Reserved(t, n) && Layout(d, t, n, codewords)
    requires 0 <= r < n && 0 <= c < n
    ensures t[r][c] != Unset ==> d[r][c] == t[r][c]
    ensures d[r][c] != Unset
  {
    var F := DataCells(t, n);
    DataCell(t, n, r, c);
    if (r, c) in F {
      var i :| 0 <= i < |F| && F[i] == (r, c);
      assert d[r][c] == BitCell(Bits(codewords), i);
    }
  }

  /** A cell of a candidate: the cell of the data matrix, masked, then
      overwritten where the format word goes. */
  lemma FinalAt(d: Matrix, t: Matrix, n: nat, k: nat, r: int, c: int)
    requires k < 8 && IsSquare(d, n) && IsSquare(t, n)
    requires 0 <= r < n && 0 <= c < n
    ensures Final(d, t, n, k)[r][c] == AfterFormat(Masked(d[r][c], t[r][c], k, r, c), BitsOf(FORMAT_BITS[k], 15), n, r, c)
  {
  }

  /** No cell of a candidate symbol is left unset. */
  lemma FinalFilled(d: Matrix, t: Matrix, n: nat, codewords: seq<byte>, k: nat)
    requires k < 8 && Reserved(t, n) && Layout(d, t, n, codewords)
    ensures Filled(Final(d, t, n, k))
  {
    var g := Final(d, t, n, k);
    forall r, c | 0 <= r < |g| && 0 <= c < |g[r]|
      ensures g[r][c] != Unset
    {
      LayoutAt(d, t, n, codewords, r, c);
      FinalAt(d, t, n, k, r, c);
      MaskKeeps(d[r][c], t[r][c], k, r, c);
      FormatUntouched(Masked(d[r][c], t[r][c], k, r, c), BitsOf(FORMAT_BITS[k], 15), n, r, c);
    }
  }

  /** The function patterns survive masking and the format word, apart from
      the format cells. */
  lemma FinalKeepsPatterns(d: Matrix, t: Matrix, n: nat, codewords: seq<byte>, k: nat, r: int, c: int)
    requires k < 8 && Reserved(t, n) && Layout(d, t, n, codewords)
    requires 0 <= r < n && 0 <= c < n
    requires t[r][c] != Unset && !FormatCell(n, r, c)
    ensures Final(d, t, n, k)[r][c] == t[r][c]
  {
    LayoutAt(d, t, n, codewords, r, c);
    FinalAt(d, t, n, k, r, c);
    MaskKeeps(d[r][c], t[r][c], k, r, c);
    FormatUntouched(Masked(d[r][c], t[r][c], k, r, c), BitsOf(FORMAT_BITS[k], 15), n, r, c);
  }

  /** The dark module is dark in every candidate. */
  lemma FinalDarkModule(d: Matrix, t: Matrix, n: nat, codewords: seq<byte>, k: nat)
    requires k < 8 && Reserved(t, n) && Layout(d, t, n, codewords)
    ensures Final(d, t, n, k)[n - 8][8] == Dark
  {
    var r, c := n - 8, 8;
    DarkModuleClear(n);
    FinalKeepsPatterns(d, t, n, codewords, k, r, c);
  }

  /** Data cell i of a candidate holds bit i of the codewords, inverted
      where mask k holds: XOR with the mask gives the bits back. */
  lemma FinalData(d: Matrix, t: Matrix, n: nat, codewords: seq<byte>, k: nat, i: nat)
    requires k < 8 && Reserved(t, n) && Layout(d, t, n, codewords)
    requires i < |DataCells(t, n)|
    ensures var x := DataCells(t, n)[i];
      0 <= x.0 < n && 0 <= x.1 < n &&
      Final(d, t, n, k)[x.0][x.1] ==
        if MaskBit(k, x.0, x.1) then Flip(BitCell(Bits(codewords), i)) else BitCell(Bits(codewords), i)
  {
    var F := DataCells(t, n);
    var x := F[i];
    assert InMatrix(d, x) && d[x.0][x.1] == BitCell(Bits(codewords), i);
    DataCell(t, n, x.0, x.1);
    FormatArea(n, x.0, x.1);
    FinalAt(d, t, n, k, x.0, x.1);
    FormatUntouched(Masked(d[x.0][x.1], t[x.0][x.1], k, x.0, x.1), BitsOf(FORMAT_BITS[k], 15), n, x.0, x.1);
  }

  /** The format word as a reader finds it along row 8. */
  function ReadRow(g: Matrix, n: nat): (bits: seq<bool>)
    requires IsSquare(g, n) && n >= 17
    ensures |bits| == 15
  {
    seq(15, i requires 0 <= i < 15 => g[8][HPositions(n)[i]] == Dark)
  }

  /** The format word as a reader finds it down column 8. */
  function ReadColumn(g: Matrix, n: nat): (bits: seq<bool>)
    requires IsSquare(g, n) && n >= 17
    ensures |bits| == 15
  {
    seq(15, i requires 0 <= i < 15 => g[VPositions(n)[i]][8] == Dark)
  }

  /** Both copies of the format word read back as the table entry of the
      mask, the format word of level M and the mask (FormatTableDecodes). */
  lemma FinalFormat(d: Matrix, t: Matrix, n: nat, k: nat)
    requires k < 8 && n >= 17 && IsSquare(d, n) && IsSquare(t, n)
    ensures Value(ReadRow(Final(d, t, n, k), n)) == FORMAT_BITS[k]
    ensures Value(ReadColumn(Final(d, t, n, k), n)) == FORMAT_BITS[k]
  {
    FormatBitsRead(d, t, n, k);
    FormatBitsValue(k);
  }

  lemma FormatBitsRead(d: Matrix, t: Matrix, n: nat, k: nat)
    requires k < 8 && n >= 17 && IsSquare(d, n) && IsSquare(t, n)
    ensures ReadRow(Final(d, t, n, k), n) == BitsOf(FORMAT_BITS[k], 15)
    ensures ReadColumn(Final(d, t, n, k), n) == BitsOf(FORMAT_BITS[k], 15)
  {
    var g := Final(d, t, n, k);
    var bits := BitsOf(FORMAT_BITS[k], 15);
    forall i | 0 <= i < 15
      ensures ReadRow(g, n)[i] == bits[i] && ReadColumn(g, n)[i] == bits[i]
    {
      var h, v := HPositions(n)[i], VPositions(n)[i];
      FinalAt(d, t, n, k, 8, h);
      FinalAt(d, t, n, k, v, 8);
      FormatPlaces(Masked(d[8][h], t[8][h], k, 8, h), bits, n, i);
      FormatPlaces(Masked(d[v][8], t[v][8], k, v, 8), bits, n, i);
    }
  }

  // ---------------------------------------------------------------------
  // generateQrSvg

  /** A symbol: its version, its mask and its modules. */
  datatype Symbol = Symbol(version: nat, mask: nat, modules: array2<Cell>)

  /** Two values that mirror one array are equal. */
  lemma MirrorsEqual(m: array2<Cell>, g: Matrix, h: Matrix)
    requires Mirrors(m, g) && Mirrors(m, h)
    ensures g == h
  {
    forall r | 0 <= r < |g|
      ensures g[r] == h[r]
    {
      assert forall c :: 0 <= c < |g[r]| ==> g[r][c] == m[r, c] == h[r][c];
    }
  }

  /** The module matrix of generateQrSvg for the UTF-8 bytes of the text:
      the smallest version that holds them, its function patterns, the
      codewords with error correction in zigzag order, the best of the
      eight masks and its format word; or the error of getVersion. */
  method Generate(bytes: seq<byte>) returns (r: Result<Symbol>, ghost codewords: seq<byte>, ghost d: Matrix)
    ensures GetVersion(|bytes|).Err? ==> r.Err? && r.error == GetVersion(|bytes|).error
    ensures GetVersion(|bytes|).Ok? ==>
      var choice := GetVersion(|bytes|).value;
      var t, n := TemplateMatrix(choice.version), Side(choice.version);
      && r.Ok? && r.value.version == choice.version
      && ErrorCorrected(Encoded(bytes, Capacity(choice.info)), choice.info, codewords)
      && Layout(d, t, n, codewords)
      && BestMask(d, t, n, r.value.mask)
      && fresh(r.value.modules)
      && r.value.modules.Length0 == n && r.value.modules.Length1 == n
      && Snapshot(r.value.modules) == Final(d, t, n, r.value.mask)
  {
    var chosen := GetVersion(|bytes|);
    if chosen.Err? {
      return Err(chosen.error), [], [];
    }
    var version, info := chosen.value.version, chosen.value.info;
    var withEc := Codewords(bytes, info);
    codewords := withEc;
    var mask, modules;
    mask, modules, d := BuildSymbol(version, withEc);
    r := Ok(Symbol(version, mask, modules));
  }

  /** encodeData and addErrorCorrection: the codewords of the symbol. */
  method Codewords(bytes: seq<byte>, info: VersionInfo) returns (codewords: seq<byte>)
    requires info.ecPerBlock <= 512
    ensures ErrorCorrected(Encoded(bytes, Capacity(info)), info, codewords)
  {
    var data := EncodeData(bytes, info);
    var ecBytes;
    codewords, ecBytes := AddErrorCorrection(data, info);
  }

  /** generateQrSvg as the program runs it, with polyMod as written: the
      same version, placement and mask selection as Generate, but every
      error correction codeword of the symbol is 0. */
  method GenerateAsWritten(bytes: seq<byte>) returns (r: Result<Symbol>, ghost codewords: seq<byte>, ghost d: Matrix)
    ensures GetVersion(|bytes|).Err? ==> r.Err? && r.error == GetVersion(|bytes|).error
    ensures GetVersion(|bytes|).Ok? ==>
      var choice := GetVersion(|bytes|).value;
      var info := choice.info;
      var t, n := TemplateMatrix(choice.version), Side(choice.version);
      && r.Ok? && r.value.version == choice.version
      && ZeroCorrected(Encoded(bytes, Capacity(info)), info, codewords)
      && Layout(d, t, n, codewords)
      && BestMask(d, t, n, r.value.mask)
      && fresh(r.value.modules)
      && r.value.modules.Length0 == n && r.value.modules.Length1 == n
      && Snapshot(r.value.modules) == Final(d, t, n, r.value.mask)
  {
    var chosen := GetVersion(|bytes|);
    if chosen.Err? {
      return Err(chosen.error), [], [];
    }
    var version, info := chosen.value.version, chosen.value.info;
    var withEc := CodewordsAsWritten(bytes, info);
    codewords := withEc;
    var mask, modules;
    mask, modules, d := BuildSymbol(version, withEc);
    r := Ok(Symbol(version, mask, modules));
  }

  /** encodeData and addErrorCorrection as written: the interleaved data
      blocks followed by NumBlocks(info) * ecPerBlock zero bytes. */
  method CodewordsAsWritten(bytes: seq<byte>, info: VersionInfo) returns (codewords: seq<byte>)
    requires info.ecPerBlock <= 512
    ensures ZeroCorrected(Encoded(bytes, Capacity(info)), info, codewords)
  {
    var data := EncodeData(bytes, info);
    codewords := AddErrorCorrectionAsWritten(data, info);
  }

  /** The matrix part of generateQrSvg for the codewords of a version: the
      function patterns, built twice, placeData, the mask loop and the
      winning candidate. */
  method BuildSymbol(version: nat, codewords: seq<byte>) returns (mask: nat, modules: array2<Cell>, ghost d: Matrix)
    requires 1 <= version <= 10
    ensures var t, n := TemplateMatrix(version), Side(version);
      && Layout(d, t, n, codewords)
      && BestMask(d, t, n, mask)
      && fresh(modules) && modules.Length0 == n && modules.Length1 == n
      && Snapshot(modules) == Final(d, t, n, mask)
  {
    ghost var t := TemplateMatrix(version);
    var reserved := Patterns(version);
    var matrix := Patterns(version);
    d := PlaceCodewords(matrix, t, codewords);
    mask := ChooseMask(matrix, reserved, t, d);
    modules := Candidate(matrix, reserved, mask, t, d);
  }

  /** The function patterns of a version on a fresh matrix, as the encoder
      builds them twice: once as the reserved matrix, once to take the
      data. */
  method Patterns(version: nat) returns (m: array2<Cell>)
    requires 1 <= version <= 10
    ensures fresh(m) && Mirrors(m, TemplateMatrix(version))
  {
    m := FunctionPatterns(version);
  }

  /** placeData on the function patterns t. */
  method PlaceCodewords(m: array2<Cell>, ghost t: Matrix, codewords: seq<byte>) returns (ghost d: Matrix)
    requires Mirrors(m, t)
    modifies m
    ensures Layout(d, t, m.Length0, codewords) && Mirrors(m, d)
  {
    SnapshotMirrors(m, Snapshot(m));
    MirrorsEqual(m, Snapshot(m), t);
    PlaceData(m, codewords);
    d := Snapshot(m);
    SnapshotMirrors(m, d);
    ghost var F := DataCells(t, m.Length0);
    assert F == FreeCells(old(Snapshot(m)), ZigzagOrder(m.Length0));
    forall k | 0 <= k < |F|
      ensures InMatrix(d, F[k]) && d[F[k].0][F[k].1] == BitCell(Bits(codewords), k)
    {
      assert InMatrix(old(Snapshot(m)), F[k]);
    }
  }

  /** One pass of the mask loop: applyMask and placeFormatInfo for mask k. */
  method Candidate(matrix: array2<Cell>, reserved: array2<Cell>, k: nat, ghost t: Matrix, ghost d: Matrix)
    returns (masked: array2<Cell>)
    requires k < 8 && matrix.Length0 >= 9
    requires Mirrors(matrix, d) && Mirrors(reserved, t) && reserved.Length0 == matrix.Length0
    ensures fresh(masked) && masked.Length0 == matrix.Length0 && masked.Length1 == matrix.Length0
    ensures Snapshot(masked) == Final(d, t, matrix.Length0, k)
  {
    var n := matrix.Length0;
    masked := ApplyMask(matrix, reserved, k);
    label Masked:
    PlaceFormatInfo(masked, k);
    ghost var g := Final(d, t, n, k);
    forall r, c | 0 <= r < n && 0 <= c < n
      ensures masked[r, c] == g[r][c]
    {
      assert old@Masked(masked[r, c]) == Masked(d[r][c], t[r][c], k, r, c);
    }
    SnapshotMirrors(masked, Snapshot(masked));
    MirrorsEqual(masked, Snapshot(masked), g);
  }

  /** The penalty of the candidate for mask k. */
  method CandidateScore(matrix: array2<Cell>, reserved: array2<Cell>, k: nat, ghost t: Matrix, ghost d: Matrix)
    returns (score: nat)
    requires k < 8 && matrix.Length0 >= 9
    requires Mirrors(matrix, d) && Mirrors(reserved, t) && reserved.Length0 == matrix.Length0
    ensures score == MaskScore(d, t, matrix.Length0, k)
  {
    var masked := Candidate(matrix, reserved, k, t, d);
    score := ScorePenalty(masked);
  }

  /** The mask loop: every mask is tried, and a strictly lower penalty
      replaces the best so far, which starts at none (the Infinity of the
      source). */
  method ChooseMask(matrix: array2<Cell>, reserved: array2<Cell>, ghost t: Matrix, ghost d: Matrix)
    returns (bestMask: nat)
    requires matrix.Length0 >= 9
    requires Mirrors(matrix, d) && Mirrors(reserved, t) && reserved.Length0 == matrix.Length0
    ensures BestMask(d, t, matrix.Length0, bestMask)
  {
    var n := matrix.Length0;
    bestMask := 0;
    var bestScore: Option<nat> := None;
    ghost var seen: seq<nat> := [];
    for k := 0 to 8
      invariant Tried(d, t, n, k, seen, bestMask, bestScore)
    {
      bestMask, bestScore, seen := TryMask(matrix, reserved, k, t, d, bestMask, bestScore, seen);
    }
    TriedAll(d, t, n, seen, bestMask, bestScore);
  }

  /** Once all eight masks are tried, the best so far is the best mask. */
  lemma TriedAll(d: Matrix, t: Matrix, n: nat, seen: seq<nat>, bestMask: nat, bestScore: Option<nat>)
    requires Tried(d, t, n, 8, seen, bestMask, bestScore)
    ensures BestMask(d, t, n, bestMask)
  {
  }

  /** The state of the mask loop after masks 0 to k - 1: seen holds their
      penalties, and the best so far is their first minimum, or none before
      the first. */
  ghost predicate Tried(d: Matrix, t: Matrix, n: nat, k: nat, seen: seq<nat>, bestMask: nat, bestScore: Option<nat>)
  {
    && k <= 8 && IsSquare(d, n) && IsSquare(t, n)
    && seen == Scores(d, t, n, k)
    && (bestScore.None? <==> k == 0)
    && (bestScore.Some? ==> FirstMin(seen, bestMask) && bestScore.value == seen[bestMask])
  }

  /** One pass of the mask loop: score mask k and keep it when it scores
      strictly lower than the best so far. */
  method TryMask(matrix: array2<Cell>, reserved: array2<Cell>, k: nat, ghost t: Matrix, ghost d: Matrix,
                 bestMask: nat, bestScore: Option<nat>, ghost seen: seq<nat>)
    returns (bestMask': nat, bestScore': Option<nat>, ghost seen': seq<nat>)
    requires k < 8 && matrix.Length0 >= 9
    requires Mirrors(matrix, d) && Mirrors(reserved, t) && reserved.Length0 == matrix.Length0
    requires Tried(d, t, matrix.Length0, k, seen, bestMask, bestScore)
    ensures Tried(d, t, matrix.Length0, k + 1, seen', bestMask', bestScore')
  {
    var score := CandidateScore(matrix, reserved, k, t, d);
    FirstMinSnoc(seen, bestMask, score);
    bestMask', bestScore' := bestMask, bestScore;
    if bestScore.None? || score < bestScore.value {
      bestScore' := Some(score);
      bestMask' := k;
    }
    seen' := seen + [score];
  }
}
