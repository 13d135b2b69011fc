/** placeFormatInfo: the 15-bit format word for error-correction level M
    and a mask pattern, written twice around the finder patterns. */
module FormatInfo {
  import opened Grid
  import opened Bitstream

  /** The format words for level M and masks 0 to 7, as the encoder's
      table holds them. */
  const FORMAT_BITS: seq<nat> := [0x5412, 0x5125, 0x5E7C, 0x5B4B, 0x45F9, 0x40CE, 0x4F97, 0x4AA0]

  // ---------------------------------------------------------------------
  // The table against the BCH(15, 5) code of the standard

  /** One step of the division by the generator x^10 + x^8 + x^5 + x^4 +
      x^2 + x + 1 (0x537) over GF(2): if bit i of x is set, subtract the
      generator shifted up to bit i. */
  function Fold(x: bv16, i: nat): bv16
    requires 10 <= i <= 15
  {
    if (x >> i) & 1 == 1 then x ^ (0x537 << (i - 10)) else x
  }

  /** The remainder of the division, clearing bits i down to 10 of x. */
  function Reduce(x: bv16, i: nat): bv16
    requires i <= 15
    decreases i
  {
    if i < 10 then x else Reduce(Fold(x, i), i - 1)
  }

  /** The format word of the standard for a 5-bit data field: the data, its
      10 BCH check bits, and the fixed XOR mask 0x5412. */
  function FormatWord(data: bv16): bv16
  {
    ((data << 10) | Reduce(data << 10, 14)) ^ 0x5412
  }

  /** Level M has indicator 00, so the data field of mask k is k itself;
      every entry of the table is the BCH format word of its mask. */
  lemma FormatTableIsBch()
    ensures forall k :: 0 <= k < 8 ==> FORMAT_BITS[k] == FormatWord(k as bv16) as int
  {
    assert FormatWord(0) == 0x5412;
    assert FormatWord(1) == 0x5125;
    assert FormatWord(2) == 0x5E7C;
    assert FormatWord(3) == 0x5B4B;
    assert FormatWord(4) == 0x45F9;
    assert FormatWord(5) == 0x40CE;
    assert FormatWord(6) == 0x4F97;
    assert FormatWord(7) == 0x4AA0;
  }

  /** After step i the reduction leaves nothing at bit i or above. */
  lemma {:induction false} ReduceBelow(x: bv16, i: nat)
    requires 10 <= i <= 14 && x >> (i + 1) == 0
    ensures Reduce(x, i) >> 10 == 0
    decreases i
  {
    FoldClears(x, i);
    if i > 10 {
      ReduceBelow(Fold(x, i), i - 1);
    }
  }

  /** A step clears its bit and sets none above it. */
  lemma FoldClears(x: bv16, i: nat)
    requires 10 <= i <= 14 && x >> (i + 1) == 0
    ensures Fold(x, i) >> i == 0
  {
    if i == 10 {
    } else if i == 11 {
    } else if i == 12 {
    } else if i == 13 {
    } else {
    }
  }

  /** The code is systematic: removing the XOR mask from the word of any
      5-bit data field and dropping the 10 check bits gives the data back,
      which is how a reader recovers the level and the mask. */
  lemma FormatDecodes(data: bv16)
    requires data < 32
    ensures (FormatWord(data) ^ 0x5412) >> 10 == data
  {
    ReduceBelow(data << 10, 14);
  }

  /** Every entry of the table is the format word of level M and its mask,
      and decodes back to that mask. */
  lemma FormatTableDecodes(k: nat)
    requires k < 8
    ensures FORMAT_BITS[k] == FormatWord(k as bv16) as int
    ensures (FormatWord(k as bv16) ^ 0x5412) >> 10 == k as bv16
  {
    FormatTableIsBch();
    FormatDecodes(k as bv16);
  }

  /** The 15 bits written for mask k read back, most significant first, as
      the table entry. */
  lemma FormatBitsValue(k: nat)
    requires k < 8
    ensures Value(BitsOf(FORMAT_BITS[k], 15)) == FORMAT_BITS[k]
  {
    ValueOfBits(FORMAT_BITS[k], 15);
    assert TwoTo(15) == 32768;
    assert FORMAT_BITS[k] < 32768;
  }

  // ---------------------------------------------------------------------
  // Placement

  /** The columns of row 8 that take format bits 0 to 14. */
  function HPositions(n: int): (hs: seq<int>)
    ensures |hs| == 15
    ensures n >= 9 ==> forall i :: 0 <= i < 15 ==> 0 <= hs[i] < n
  {
    [0, 1, 2, 3, 4, 5, 7, 8, n - 7, n - 6, n - 5, n - 4, n - 3, n - 2, n - 1]
  }

  /** The rows of column 8 that take format bits 0 to 14. */
  function VPositions(n: int): (vs: seq<int>)
    ensures |vs| == 15
    ensures n >= 9 ==> forall i :: 0 <= i < 15 ==> 0 <= vs[i] < n
  {
    [n - 1, n - 2, n - 3, n - 4, n - 5, n - 6, n - 7, 8, 7, 5, 4, 3, 2, 1, 0]
  }

  function BitValue(b: bool): Cell
  {
    if b then Dark else Light
  }

  /** Cell (r, c) after the first i writes of the row loop. */
  function RowWrites(prev: Cell, bits: seq<bool>, n: int, i: nat, r: int, c: int): Cell
    requires i <= 15 && |bits| == 15
  {
    if i == 0 then prev
    else if r == 8 && c == HPositions(n)[i - 1] then BitValue(bits[i - 1])
    else RowWrites(prev, bits, n, i - 1, r, c)
  }

  /** Cell (r, c) after the first i writes of the column loop. */
  function ColumnWrites(prev: Cell, bits: seq<bool>, n: int, i: nat, r: int, c: int): Cell
    requires i <= 15 && |bits| == 15
  {
    if i == 0 then prev
    else if c == 8 && r == VPositions(n)[i - 1] then BitValue(bits[i - 1])
    else ColumnWrites(prev, bits, n, i - 1, r, c)
  }

  /** Cell (r, c) after placeFormatInfo with the bits of a format word. */
  function AfterFormat(prev: Cell, bits: seq<bool>, n: int, r: int, c: int): Cell
    requires |bits| == 15
  {
    ColumnWrites(RowWrites(prev, bits, n, 15, r, c), bits, n, 15, r, c)
  }

  /** placeFormatInfo: bit 14 of the word first, along row 8 and then
      along column 8. */
  method PlaceFormatInfo(m: array2<Cell>, k: nat)
    requires k < 8
    requires m.Length0 == m.Length1 && m.Length0 >= 9
    modifies m
    ensures forall r, c :: 0 <= r < m.Length0 && 0 <= c < m.Length1 ==>
      m[r, c] == AfterFormat(old(m[r, c]), BitsOf(FORMAT_BITS[k], 15), m.Length0, r, c)
  {
    var n := m.Length0;
    var word := FORMAT_BITS[k];
    // the loop of pushBits, from bit 14 down to bit 0
    var formatBits := PushBits([], word, 15);
    assert formatBits == BitsOf(word, 15);
    var hPositions := HPositions(n);
    for i := 0 to 15
      invariant forall r, c :: 0 <= r < n && 0 <= c < n ==>
        m[r, c] == RowWrites(old(m[r, c]), formatBits, n, i, r, c)
    {
      m[8, hPositions[i]] := BitValue(formatBits[i]);
    }
    var vPositions := VPositions(n);
    for i := 0 to 15
      invariant forall r, c :: 0 <= r < n && 0 <= c < n ==>
        m[r, c] == ColumnWrites(RowWrites(old(m[r, c]), formatBits, n, 15, r, c), formatBits, n, i, r, c)
    {
      m[vPositions[i], 8] := BitValue(formatBits[i]);
    }
  }

  /** On a symbol of side 17 or more, each format bit lands in both of its
      places: bit i at (8, HPositions(n)[i]) and at (VPositions(n)[i], 8);
      the only cell the two copies share, (8, 8), takes bit 7 from both.
      Every other cell keeps its value. */
  lemma FormatPlaces(prev: Cell, bits: seq<bool>, n: int, i: nat)
    requires n >= 17 && |bits| == 15 && i < 15
    ensures AfterFormat(prev, bits, n, 8, HPositions(n)[i]) == BitValue(bits[i])
    ensures AfterFormat(prev, bits, n, VPositions(n)[i], 8) == BitValue(bits[i])
  {
    var hs, vs := HPositions(n), VPositions(n);
    RowLast(prev, bits, n, 15, i);
    ColumnLast(RowWrites(prev, bits, n, 15, vs[i], 8), bits, n, 15, i);
    if hs[i] == 8 {
      assert i == 7;
      ColumnLast(RowWrites(prev, bits, n, 15, 8, 8), bits, n, 15, 7);
    } else {
      ColumnOutside(RowWrites(prev, bits, n, 15, 8, hs[i]), bits, n, 15, 8, hs[i]);
    }
  }

  /** Writes of the row loop past the one for bit i never return to its
      cell. */
  lemma {:induction false} RowLast(prev: Cell, bits: seq<bool>, n: int, j: nat, i: nat)
    requires n >= 17 && |bits| == 15 && i < j <= 15
    ensures RowWrites(prev, bits, n, j, 8, HPositions(n)[i]) == BitValue(bits[i])
  {
    if j - 1 != i {
      var j' := j - 1;
      RowLast(prev, bits, n, j', i);
    }
  }

  lemma {:induction false} ColumnLast(prev: Cell, bits: seq<bool>, n: int, j: nat, i: nat)
    requires n >= 17 && |bits| == 15 && i < j <= 15
    ensures ColumnWrites(prev, bits, n, j, VPositions(n)[i], 8) == BitValue(bits[i])
  {
    if j - 1 != i {
      var j' := j - 1;
      ColumnLast(prev, bits, n, j', i);
    }
  }

  /** The cells placeFormatInfo writes. */
  predicate FormatCell(n: int, r: int, c: int)
  {
    (r == 8 && c in HPositions(n)) || (c == 8 && r in VPositions(n))
  }

  /** The format bits go only into the area reserveFormatArea set aside,
      never onto a timing pattern or the dark module. */
  lemma FormatArea(n: int, r: int, c: int)
    requires n >= 17
    ensures FormatCell(n, r, c) ==> InFormatArea(n, r, c) && r != 6 && c != 6 && !(r == n - 8 && c == 8)
  {
  }

  /** placeFormatInfo leaves the dark module alone. */
  lemma DarkModuleClear(n: int)
    requires n >= 17
    ensures !FormatCell(n, n - 8, 8)
  {
    FormatArea(n, n - 8, 8);
  }

  /** Every cell placeFormatInfo does not write keeps its value, and a cell
      that was set stays set. */
  lemma FormatUntouched(prev: Cell, bits: seq<bool>, n: int, r: int, c: int)
    requires |bits| == 15
    ensures !FormatCell(n, r, c) ==> AfterFormat(prev, bits, n, r, c) == prev
    ensures prev != Unset ==> AfterFormat(prev, bits, n, r, c) != Unset
  {
    RowOutside(prev, bits, n, 15, r, c);
    ColumnOutside(RowWrites(prev, bits, n, 15, r, c), bits, n, 15, r, c);
  }

  lemma {:induction false} RowOutside(prev: Cell, bits: seq<bool>, n: int, j: nat, r: int, c: int)
    requires |bits| == 15 && j <= 15
    ensures !(r == 8 && c in HPositions(n)) ==> RowWrites(prev, bits, n, j, r, c) == prev
    ensures prev != Unset ==> RowWrites(prev, bits, n, j, r, c) != Unset
  {
    if j > 0 {
      var j' := j - 1;
      RowOutside(prev, bits, n, j', r, c);
    }
  }

  lemma {:induction false} ColumnOutside(prev: Cell, bits: seq<bool>, n: int, j: nat, r: int, c: int)
    requires |bits| == 15 && j <= 15
    ensures !(c == 8 && r in VPositions(n)) ==> ColumnWrites(prev, bits, n, j, r, c) == prev
    ensures prev != Unset ==> ColumnWrites(prev, bits, n, j, r, c) != Unset
  {
    if j > 0 {
      var j' := j - 1;
      ColumnOutside(prev, bits, n, j', r, c);
    }
  }
}
