/** Version parameters for byte mode at error-correction level M, versions
    1 to 10, and the choice of the smallest version that holds a message. */
module Versions {

  /** One row of the version table: the codeword layout of a symbol. */
  datatype VersionInfo = VersionInfo(
    totalCodewords: nat,
    ecPerBlock: nat,
    blocks1: nat,
    dataPerBlock1: nat,
    blocks2: nat,
    dataPerBlock2: nat)

  datatype Result<T> = Ok(value: T) | Err(error: string)

  function Min(a: int, b: int): int
  {
    if a < b then a else b
  }

  /** A chosen version (1-based) and its table row. */
  datatype Choice = Choice(version: nat, info: VersionInfo)

  /** Number of data codewords of a version. */
  function Capacity(info: VersionInfo): nat
  {
    info.blocks1 * info.dataPerBlock1 + info.blocks2 * info.dataPerBlock2
  }

  /** The table of versions 1 to 10, as written; row v is version v + 1. */
  function Row(v: nat): (info: VersionInfo)
    requires v < 10
    ensures info.blocks1 >= 1 && 1 <= info.ecPerBlock <= 30 && info.dataPerBlock1 >= 1
    ensures info.blocks2 > 0 ==> info.dataPerBlock2 == info.dataPerBlock1 + 1
  {
    match v
    case 0 => VersionInfo(26, 10, 1, 16, 0, 0)
    case 1 => VersionInfo(44, 16, 1, 28, 0, 0)
    case 2 => VersionInfo(70, 26, 1, 44, 0, 0)
    case 3 => VersionInfo(100, 18, 2, 32, 0, 0)
    case 4 => VersionInfo(134, 24, 2, 43, 0, 0)
    case 5 => VersionInfo(172, 16, 4, 27, 0, 0)
    case 6 => VersionInfo(196, 18, 4, 31, 0, 0)
    case 7 => VersionInfo(242, 22, 2, 38, 2, 39)
    case 8 => VersionInfo(292, 22, 3, 36, 2, 37)
    case _ => VersionInfo(346, 28, 4, 43, 1, 44)
  }

  /** Data plus error-correction codewords the encoder emits for a version. */
  function EmittedCodewords(info: VersionInfo): (r: nat)
    ensures Capacity(info) <= r
  {
    Capacity(info) + (info.blocks1 + info.blocks2) * info.ecPerBlock
  }

  /** The capacities grow strictly with the version, from 16 to 216 codewords. */
  lemma CapacityIncreasing()
    ensures Capacity(Row(0)) == 16 && Capacity(Row(9)) == 216
    ensures forall v, w :: 0 <= v < w < 10 ==> Capacity(Row(v)) < Capacity(Row(w))
  {
    var c := seq(10, v requires 0 <= v < 10 => Capacity(Row(v)));
    assert c == [16, 28, 44, 64, 86, 108, 124, 154, 182, 216];
  }

  /** The rows of versions 1 to 9 are consistent: the data and error-correction
      codewords add up to totalCodewords. The row of version 10 is not: with
      28 error-correction codewords per block the encoder emits 356 codewords,
      while the row says 346 (the symbol holds 346). */
  lemma TotalsAsWritten()
    ensures forall v :: 0 <= v < 9 ==> EmittedCodewords(Row(v)) == Row(v).totalCodewords
    ensures EmittedCodewords(Row(9)) == 356 && Row(9).totalCodewords == 346
  {
    var e := seq(10, v requires 0 <= v < 10 => EmittedCodewords(Row(v)));
    var t := seq(10, v requires 0 <= v < 10 => Row(v).totalCodewords);
    assert e == [26, 44, 70, 100, 134, 172, 196, 242, 292, 356];
    assert t == [26, 44, 70, 100, 134, 172, 196, 242, 292, 346];
  }

  /** getVersion: the first version, in table order, whose capacity leaves
      room for the two header codewords (mode and count), or an error when
      no version of the table does. */
  function GetVersion(dataLen: nat): (r: Result<Choice>)
    ensures r.Ok? <==> dataLen <= 214
    ensures r.Ok? ==>
      1 <= r.value.version <= 10 && r.value.info == Row(r.value.version - 1) &&
      dataLen + 2 <= Capacity(r.value.info) &&
      forall v :: 0 <= v < r.value.version - 1 ==> Capacity(Row(v)) < dataLen + 2
  {
    CapacityIncreasing();
    FirstFit(dataLen, 0)
  }

  /** The scan of getVersion from table row v on. */
  function FirstFit(dataLen: nat, v: nat): (r: Result<Choice>)
    requires v <= 10
    ensures r.Ok? ==>
      v < r.value.version <= 10 && r.value.info == Row(r.value.version - 1) &&
      dataLen + 2 <= Capacity(r.value.info) &&
      forall w :: v <= w < r.value.version - 1 ==> Capacity(Row(w)) < dataLen + 2
    ensures r.Err? ==> forall w :: v <= w < 10 ==> Capacity(Row(w)) < dataLen + 2
    decreases 10 - v
  {
    if v == 10 then Err("Data too long for QR versions 1-10")
    else if dataLen + 2 <= Capacity(Row(v)) then Ok(Choice(v + 1, Row(v)))
    else FirstFit(dataLen, v + 1)
  }

  /** The side of the symbol of a version, in modules. */
  function Side(version: nat): (n: nat)
    requires 1 <= version <= 10
    ensures 21 <= n <= 57 && n % 4 == 1
    ensures (n - 17) / 4 == version
  {
    version * 4 + 17
  }
}
