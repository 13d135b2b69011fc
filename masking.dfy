/** applyMask: the eight mask patterns of the standard, and the masking of
    the cells outside the function patterns. */
module Masking {
  import opened Grid

  /** Mask pattern k (0 to 7) at row r, column c: true where the mask
      inverts the cell. Rows and columns are never negative, so floor
      division and remainder are Dafny's. */
  predicate MaskBit(k: nat, r: nat, c: nat)
    requires k < 8
  {
    match k
    case 0 => (r + c) % 2 == 0
    case 1 => r % 2 == 0
    case 2 => c % 3 == 0
    case 3 => (r + c) % 3 == 0
    case 4 => (r / 2 + c / 3) % 2 == 0
    case 5 => (r * c) % 2 + (r * c) % 3 == 0
    case 6 => ((r * c) % 2 + (r * c) % 3) % 2 == 0
    case _ => ((r + c) % 2 + (r * c) % 3) % 2 == 0
  }

  /** The inversion applyMask performs: dark becomes light, and anything
      else, an unset cell included, becomes dark. */
  function Flip(v: Cell): Cell
  {
    if v == Dark then Light else Dark
  }

  /** The cell at (r, c) after masking with pattern k: cells the reserved
      matrix has set are kept, the others are inverted where the mask
      holds. */
  function Masked(v: Cell, reserved: Cell, k: nat, r: nat, c: nat): Cell
    requires k < 8
  {
    if reserved != Unset then v else if MaskBit(k, r, c) then Flip(v) else v
  }

  /** applyMask: a copy of the matrix with mask k applied to every cell the
      reserved matrix leaves unset. */
  method ApplyMask(matrix: array2<Cell>, reserved: array2<Cell>, k: nat) returns (result: array2<Cell>)
    requires k < 8
    requires matrix.Length0 == matrix.Length1
    requires reserved.Length0 >= matrix.Length0 && reserved.Length1 >= matrix.Length0
    ensures fresh(result)
    ensures result.Length0 == matrix.Length0 && result.Length1 == matrix.Length0
    ensures forall r, c :: 0 <= r < result.Length0 && 0 <= c < result.Length1 ==>
      result[r, c] == Masked(matrix[r, c], reserved[r, c], k, r, c)
  {
    var n := matrix.Length0;
    result := new Cell[n, n]((r, c) reads matrix => if 0 <= r < n && 0 <= c < n then matrix[r, c] else Unset);
    for r := 0 to n
      invariant forall i, j :: 0 <= i < n && 0 <= j < n ==>
        result[i, j] == if i < r then Masked(matrix[i, j], reserved[i, j], k, i, j) else matrix[i, j]
    {
      for c := 0 to n
        invariant forall i, j :: 0 <= i < n && 0 <= j < n ==>
          result[i, j] == if i < r || (i == r && j < c) then Masked(matrix[i, j], reserved[i, j], k, i, j) else matrix[i, j]
      {
        if reserved[r, c] != Unset {
          continue;
        }
        if MaskBit(k, r, c) {
          result[r, c] := if result[r, c] == Dark then Light else Dark;
        }
      }
    }
  }

  /** Masking twice with the same pattern and reserved matrix restores
      every cell that was set, which is what lets a reader undo the mask. */
  lemma MaskTwice(v: Cell, reserved: Cell, k: nat, r: nat, c: nat)
    requires k < 8 && v != Unset
    ensures Masked(Masked(v, reserved, k, r, c), reserved, k, r, c) == v
  {
  }

  /** Masking never leaves a cell unset that was set, and changes no cell
      that the reserved matrix has set. */
  lemma MaskKeeps(v: Cell, reserved: Cell, k: nat, r: nat, c: nat)
    requires k < 8
    ensures v != Unset ==> Masked(v, reserved, k, r, c) != Unset
    ensures reserved != Unset ==> Masked(v, reserved, k, r, c) == v
  {
  }

  /** Mask k applied to a whole square matrix, as a value. */
  function MaskAll(g: Matrix, reserved: Matrix, n: nat, k: nat): (h: Matrix)
    requires k < 8 && IsSquare(g, n) && IsSquare(reserved, n)
    ensures IsSquare(h, n)
  {
    seq(n, r requires 0 <= r < n => seq(n, c requires 0 <= c < n => Masked(g[r][c], reserved[r][c], k, r, c)))
  }

  /** A matrix with no cell unset. */
  predicate Filled(g: Matrix)
  {
    forall r, c :: 0 <= r < |g| && 0 <= c < |g[r]| ==> g[r][c] != Unset
  }

  /** Unmasking: applying the same mask to a filled, masked matrix gives
      back the matrix. */
  lemma UnmaskRestores(g: Matrix, reserved: Matrix, n: nat, k: nat)
    requires k < 8 && IsSquare(g, n) && IsSquare(reserved, n) && Filled(g)
    ensures Filled(MaskAll(g, reserved, n, k))
    ensures MaskAll(MaskAll(g, reserved, n, k), reserved, n, k) == g
  {
    var h := MaskAll(MaskAll(g, reserved, n, k), reserved, n, k);
    forall r | 0 <= r < n
      ensures h[r] == g[r]
    {
      forall c | 0 <= c < n
        ensures h[r][c] == g[r][c]
      {
        MaskTwice(g[r][c], reserved[r][c], k, r, c);
      }
    }
  }
}
