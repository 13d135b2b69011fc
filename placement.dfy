/** placeData: the codewords, bit by bit, most significant first, go into
    the unset cells of the matrix in the zigzag order of the standard: column
    pairs from the right edge leftwards, alternately upwards and downwards,
    column 6 skipped; unset cells left over once the bits run out get 0. */
module Placement {
  import opened Versions
  import opened Grid
  import opened Bitstream

  /** A cell as (row, column). */
  type Pos = (int, int)

  /** The row of the i-th step of a sweep. */
  function RowOf(n: int, upward: bool, i: int): int
  {
    if upward then n - 1 - i else i
  }

  /** The sweep of the column pair (right, right - 1) from its i-th row on:
      two cells per row, the right one first. */
  function SweepFrom(n: int, right: int, upward: bool, i: int): seq<Pos>
    decreases n - i
  {
    if i >= n then []
    else [(RowOf(n, upward, i), right), (RowOf(n, upward, i), right - 1)] + SweepFrom(n, right, upward, i + 1)
  }

  /** The sweeps of the column pairs from right leftwards; a pair starting
      at the timing column 6 starts at 5 instead. */
  function Visit(n: int, right: int, upward: bool): seq<Pos>
    decreases right
  {
    if right < 1 then []
    else
      var r := if right == 6 then 5 else right;
      SweepFrom(n, r, upward, 0) + Visit(n, r - 2, !upward)
  }

  /** The order placeData visits the cells of an n x n matrix in. */
  function ZigzagOrder(n: int): seq<Pos>
  {
    Visit(n, n - 1, true)
  }

  predicate InMatrix(g: Matrix, x: Pos)
  {
    0 <= x.0 < |g| && 0 <= x.1 < |g[x.0]|
  }

  /** The cells of the list that are unset in g, each at its first
      occurrence: the cells placeData writes, in the order it writes them. */
  function FreeCells(g: Matrix, cells: seq<Pos>): seq<Pos>
  {
    if cells == [] then []
    else
      var front, x := cells[..|cells| - 1], cells[|cells| - 1];
      FreeCells(g, front) + (if InMatrix(g, x) && g[x.0][x.1] == Unset && x !in front then [x] else [])
  }

  lemma FreeSnoc(g: Matrix, cells: seq<Pos>, x: Pos)
    ensures FreeCells(g, cells + [x])
      == FreeCells(g, cells) + (if InMatrix(g, x) && g[x.0][x.1] == Unset && x !in cells then [x] else [])
  {
    assert (cells + [x])[..|cells|] == cells;
  }

  /** A cell is free exactly when the list holds it and it is unset, and no
      cell is free twice. */
  lemma {:induction false} FreeCellsMembers(g: Matrix, cells: seq<Pos>)
    ensures forall x :: x in FreeCells(g, cells) <==> x in cells && InMatrix(g, x) && g[x.0][x.1] == Unset
    ensures forall i, j :: 0 <= i < j < |FreeCells(g, cells)| ==> FreeCells(g, cells)[i] != FreeCells(g, cells)[j]
    decreases |cells|
  {
    if cells != [] {
      var front := cells[..|cells| - 1];
      FreeCellsMembers(g, front);
      assert cells == front + [cells[|cells| - 1]];
    }
  }

  lemma {:induction false} FreeMember(g: Matrix, cells: seq<Pos>, x: Pos)
    ensures x in FreeCells(g, cells) <==> x in cells && InMatrix(g, x) && g[x.0][x.1] == Unset
    decreases |cells|
  {
    if cells != [] {
      var front := cells[..|cells| - 1];
      FreeMember(g, front, x);
      assert cells == front + [cells[|cells| - 1]];
    }
  }

  /** What bit k of the stream becomes: dark for 1, light for 0, and light
      once the bits run out. */
  function BitCell(bits: seq<bool>, k: nat): Cell
  {
    if k < |bits| && bits[k] then Dark else Light
  }

  /** The bit loop of placeData: every codeword, most significant bit
      first. */
  method DataBits(data: seq<byte>) returns (bits: seq<bool>)
    ensures bits == Bits(data)
  {
    bits := [];
    for k := 0 to |data|
      invariant bits == Bits(data[..k])
    {
      assert data[..k + 1] == data[..k] + [data[k]];
      BitsSnoc(data[..k], data[k]);
      bits := PushBits(bits, data[k] as int, 8);
    }
    assert data[..|data|] == data;
  }

  /** The state of placeData after visiting the cells of visited, starting
      from the matrix g: the free cells met so far hold their bits, every
      other cell is as it was, and bitIdx counts the bits used. */
  ghost predicate Placed(m: array2<Cell>, g: Matrix, bits: seq<bool>, visited: seq<Pos>, bitIdx: int)
    reads m
  {
    var F := FreeCells(g, visited);
    && |g| == m.Length0 && (forall r :: 0 <= r < |g| ==> |g[r]| == m.Length1)
    && bitIdx == Min(|F|, |bits|)
    && (forall k {:trigger F[k]} :: 0 <= k < |F| ==> InMatrix(g, F[k]) && m[F[k].0, F[k].1] == BitCell(bits, k))
    && (forall r, c {:trigger m[r, c]} :: 0 <= r < m.Length0 && 0 <= c < m.Length1 && (r, c) !in F ==> m[r, c] == g[r][c])
  }

  /** One cell of placeData: an unset cell takes the next bit, or 0 when
      the bits have run out. */
  method PlaceCell(m: array2<Cell>, row: int, col: int, bits: seq<bool>, bitIdx: int,
                   ghost g: Matrix, ghost visited: seq<Pos>) returns (bitIdx': int)
    requires 0 <= row < m.Length0 && 0 <= col < m.Length1
    requires Placed(m, g, bits, visited, bitIdx)
    modifies m
    ensures Placed(m, g, bits, visited + [(row, col)], bitIdx')
  {
    FreeSnoc(g, visited, (row, col));
    UnsetIsFree(m, g, bits, visited, bitIdx, (row, col));
    if m[row, col] == Unset {
      bitIdx' := PlaceBit(m, row, col, bits, bitIdx, g, visited);
    } else {
      bitIdx' := bitIdx;
    }
  }

  /** An unset cell takes the next bit, or 0 once the bits have run out. */
  method PlaceBit(m: array2<Cell>, row: int, col: int, bits: seq<bool>, bitIdx: int,
                  ghost g: Matrix, ghost visited: seq<Pos>) returns (bitIdx': int)
    requires 0 <= row < m.Length0 && 0 <= col < m.Length1
    requires Placed(m, g, bits, visited, bitIdx)
    requires (row, col) !in FreeCells(g, visited)
    requires FreeCells(g, visited + [(row, col)]) == FreeCells(g, visited) + [(row, col)]
    modifies m
    ensures Placed(m, g, bits, visited + [(row, col)], bitIdx')
  {
    ghost var F := FreeCells(g, visited);
    ghost var v := BitCell(bits, |F|);
    if bitIdx < |bits| {
      m[row, col] := if bits[bitIdx] then Dark else Light;
      bitIdx' := bitIdx + 1;
    } else {
      m[row, col] := Light;
      bitIdx' := bitIdx;
    }
    ghost var F' := F + [(row, col)];
    forall k | 0 <= k < |F'|
      ensures InMatrix(g, F'[k]) && m[F'[k].0, F'[k].1] == BitCell(bits, k)
    {
      if k < |F| {
        assert F'[k] == F[k] && F[k] != (row, col);
      }
    }
    forall r, c | 0 <= r < m.Length0 && 0 <= c < m.Length1 && (r, c) !in F'
      ensures m[r, c] == g[r][c]
    {
      assert (r, c) !in F && (r, c) != (row, col);
    }
  }

  /** In the state after the cells of visited, a cell of the matrix is unset
      exactly when it was unset at the start and has not been visited. */
  lemma UnsetIsFree(m: array2<Cell>, g: Matrix, bits: seq<bool>, visited: seq<Pos>, bitIdx: int, x: Pos)
    requires 0 <= x.0 < m.Length0 && 0 <= x.1 < m.Length1
    requires Placed(m, g, bits, visited, bitIdx)
    ensures m[x.0, x.1] == Unset <==> g[x.0][x.1] == Unset && x !in visited
    ensures m[x.0, x.1] == Unset ==> x !in FreeCells(g, visited)
  {
    var F := FreeCells(g, visited);
    FreeMember(g, visited, x);
    if x in F {
      var k :| 0 <= k < |F| && F[k] == x;
      assert m[x.0, x.1] == BitCell(bits, k);
    }
  }

  /** The two cells of one row of a column pair, the right one first. */
  method PlacePair(m: array2<Cell>, row: int, right: int, bits: seq<bool>, bitIdx: int,
                   ghost g: Matrix, ghost visited: seq<Pos>) returns (bitIdx': int)
    requires 0 <= row < m.Length0 && 1 <= right < m.Length1
    requires Placed(m, g, bits, visited, bitIdx)
    modifies m
    ensures Placed(m, g, bits, visited + [(row, right), (row, right - 1)], bitIdx')
  {
    bitIdx' := PlaceCell(m, row, right, bits, bitIdx, g, visited);
    bitIdx' := PlaceCell(m, row, right - 1, bits, bitIdx', g, visited + [(row, right)]);
    assert visited + [(row, right)] + [(row, right - 1)] == visited + [(row, right), (row, right - 1)];
  }

  /** One column pair of placeData: every row, upwards or downwards. */
  method PlaceSweep(m: array2<Cell>, right: int, upward: bool, bits: seq<bool>, bitIdx: int,
                    ghost g: Matrix, ghost visited: seq<Pos>) returns (bitIdx': int)
    requires m.Length0 == m.Length1 && 1 <= right < m.Length1
    requires Placed(m, g, bits, visited, bitIdx)
    modifies m
    ensures Placed(m, g, bits, visited + SweepFrom(m.Length0, right, upward, 0), bitIdx')
  {
    var n := m.Length0;
    ghost var done := visited;
    bitIdx' := bitIdx;
    for i := 0 to n
      invariant done + SweepFrom(n, right, upward, i) == visited + SweepFrom(n, right, upward, 0)
      invariant Placed(m, g, bits, done, bitIdx')
    {
      var row := if upward then n - 1 - i else i;
      ghost var pair := [(row, right), (row, right - 1)];
      SweepStep(n, right, upward, i, i + 1, pair);
      bitIdx' := PlacePair(m, row, right, bits, bitIdx', g, done);
      Assoc(done, pair, SweepFrom(n, right, upward, i + 1));
      done := done + pair;
    }
    assert done + [] == done;
  }

  /** placeData: with F the free cells of the matrix in zigzag order, the
      k-th of them holds bit k of the codewords, or 0 past their end, and
      every other cell keeps its value. */
  method PlaceData(m: array2<Cell>, data: seq<byte>)
    requires m.Length0 == m.Length1
    modifies m
    ensures var F := FreeCells(old(Snapshot(m)), ZigzagOrder(m.Length0));
      && (forall k :: 0 <= k < |F| ==>
            InMatrix(old(Snapshot(m)), F[k]) && m[F[k].0, F[k].1] == BitCell(Bits(data), k))
      && (forall r, c {:trigger m[r, c]} :: 0 <= r < m.Length0 && 0 <= c < m.Length1 && (r, c) !in F ==> m[r, c] == old(m[r, c]))
    ensures m.Length0 >= 7 && m.Length0 % 2 == 1 ==>
      forall r, c :: 0 <= r < m.Length0 && 0 <= c < m.Length1 && (c != 6 || old(m[r, c]) != Unset) ==> m[r, c] != Unset
  {
    var n := m.Length0;
    var bits := DataBits(data);
    ghost var g := Snapshot(m);
    assert g == old(Snapshot(m));
    ghost var visited: seq<Pos> := [];
    ghost var order := ZigzagOrder(n);
    var bitIdx := 0;
    var upward := true;
    var right := n - 1;
    while right >= 1
      invariant right <= n - 1
      invariant visited + Visit(n, right, upward) == order
      invariant Placed(m, g, bits, visited, bitIdx)
      decreases right
    {
      ghost var start := right;
      if right == 6 {
        right := 5;
      }
      ghost var sweep := SweepFrom(n, right, upward, 0);
      ghost var rest := Visit(n, right - 2, !upward);
      VisitStep(n, start, upward, right, sweep, rest);
      bitIdx := PlaceSweep(m, right, upward, bits, bitIdx, g, visited);
      Assoc(visited, sweep, rest);
      visited := visited + sweep;
      upward := !upward;
      right := right - 2;
    }
    assert visited == order;
    if n >= 7 && n % 2 == 1 {
      NoneLeftUnset(m, g, bits);
    }
  }

  /** On a symbol of odd side, the cells placeData fills together with the
      cells already set leave no cell unset. */
  lemma NoneLeftUnset(m: array2<Cell>, g: Matrix, bits: seq<bool>)
    requires m.Length0 == m.Length1 >= 7 && m.Length0 % 2 == 1
    requires |g| == m.Length0 && forall r :: 0 <= r < |g| ==> |g[r]| == m.Length1
    requires var F := FreeCells(g, ZigzagOrder(m.Length0));
      && (forall k {:trigger F[k]} :: 0 <= k < |F| ==> InMatrix(g, F[k]) && m[F[k].0, F[k].1] == BitCell(bits, k))
      && (forall r, c {:trigger m[r, c]} :: 0 <= r < m.Length0 && 0 <= c < m.Length1 && (r, c) !in F ==> m[r, c] == g[r][c])
    ensures forall r, c :: 0 <= r < m.Length0 && 0 <= c < m.Length1 && (c != 6 || g[r][c] != Unset) ==> m[r, c] != Unset
  {
    var n := m.Length0;
    var F := FreeCells(g, ZigzagOrder(n));
    forall r, c | 0 <= r < n && 0 <= c < n && (c != 6 || g[r][c] != Unset)
      ensures m[r, c] != Unset
    {
      VisitMembers(n, n - 1, true, (r, c));
      FreeMember(g, ZigzagOrder(n), (r, c));
      if (r, c) in F {
        var k :| 0 <= k < |F| && F[k] == (r, c);
        assert m[r, c] == BitCell(bits, k);
      } else {
        assert m[r, c] == g[r][c];
      }
    }
  }

  lemma VisitStep(n: int, right: int, upward: bool, r: int, sweep: seq<Pos>, rest: seq<Pos>)
    requires right >= 1 && r == (if right == 6 then 5 else right)
    requires sweep == SweepFrom(n, r, upward, 0) && rest == Visit(n, r - 2, !upward)
    ensures Visit(n, right, upward) == sweep + rest
  {
  }

  lemma SweepStep(n: int, right: int, upward: bool, i: int, i': int, pair: seq<Pos>)
    requires i < n && i' == i + 1
    requires pair == [(RowOf(n, upward, i), right), (RowOf(n, upward, i), right - 1)]
    ensures SweepFrom(n, right, upward, i) == pair + SweepFrom(n, right, upward, i')
  {
  }

  /** A column a sweep can start at: the even columns from the timing
      column on, the odd columns left of it. */
  predicate PairStart(right: int)
  {
    if right >= 6 then right % 2 == 0 else right % 2 == 1
  }

  /** The cells of a sweep from its i-th step on are the two columns of the
      pair, over the rows not yet reached. */
  lemma {:induction false} SweepMembers(n: int, right: int, upward: bool, i: int, x: Pos)
    requires 0 <= i
    ensures x in SweepFrom(n, right, upward, i) <==>
      (x.1 == right || x.1 == right - 1) && (if upward then 0 <= x.0 < n - i else i <= x.0 < n)
    decreases n - i
  {
    if i < n {
      var i' := i + 1;
      SweepStep(n, right, upward, i, i', [(RowOf(n, upward, i), right), (RowOf(n, upward, i), right - 1)]);
      SweepMembers(n, right, upward, i', x);
    }
  }

  predicate Distinct(s: seq<Pos>)
  {
    forall i, j :: 0 <= i < j < |s| ==> s[i] != s[j]
  }

  lemma DistinctConcat(a: seq<Pos>, b: seq<Pos>)
    requires Distinct(a) && Distinct(b)
    requires forall x :: x in a ==> x !in b
    ensures Distinct(a + b)
  {
    forall i, j | 0 <= i < j < |a + b|
      ensures (a + b)[i] != (a + b)[j]
    {
      if i < |a| && |a| <= j {
        assert (a + b)[i] in a && (a + b)[j] in b;
      }
    }
  }

  /** A sweep meets no cell twice. */
  lemma {:induction false} SweepDistinct(n: int, right: int, upward: bool, i: int)
    requires 0 <= i
    ensures Distinct(SweepFrom(n, right, upward, i))
    decreases n - i
  {
    if i < n {
      var i' := i + 1;
      var pair := [(RowOf(n, upward, i), right), (RowOf(n, upward, i), right - 1)];
      SweepStep(n, right, upward, i, i', pair);
      SweepDistinct(n, right, upward, i');
      forall x | x in pair
        ensures x !in SweepFrom(n, right, upward, i')
      {
        SweepMembers(n, right, upward, i', x);
      }
      DistinctConcat(pair, SweepFrom(n, right, upward, i'));
    }
  }

  /** The sweeps from column right leftwards meet exactly the cells of the
      columns 0 to right other than the timing column 6. */
  lemma {:induction false} VisitMembers(n: int, right: int, upward: bool, x: Pos)
    requires PairStart(right)
    ensures x in Visit(n, right, upward) <==> 0 <= x.0 < n && 0 <= x.1 <= right && x.1 != 6
    decreases right
  {
    if right >= 1 {
      var r := if right == 6 then 5 else right;
      var sweep := SweepFrom(n, r, upward, 0);
      var rest := Visit(n, r - 2, !upward);
      VisitStep(n, right, upward, r, sweep, rest);
      PairStep(right, r);
      VisitMembers(n, r - 2, !upward, x);
      SweepMembers(n, r, upward, 0, x);
    }
  }

  /** The next pair start after right, and the columns between them. */
  lemma PairStep(right: int, r: int)
    requires PairStart(right) && right >= 1 && r == (if right == 6 then 5 else right)
    ensures PairStart(r - 2) && r >= 1
    ensures r != 6 && r - 1 != 6
  {
  }

  /** ... and meet each of them once. */
  lemma {:induction false} VisitDistinct(n: int, right: int, upward: bool)
    requires PairStart(right)
    ensures Distinct(Visit(n, right, upward))
    decreases right
  {
    if right >= 1 {
      var r := if right == 6 then 5 else right;
      var sweep := SweepFrom(n, r, upward, 0);
      var rest := Visit(n, r - 2, !upward);
      VisitStep(n, right, upward, r, sweep, rest);
      PairStep(right, r);
      VisitDistinct(n, r - 2, !upward);
      SweepDistinct(n, r, upward, 0);
      SweepBeforeRest(n, r, upward, sweep, rest);
      DistinctConcat(sweep, rest);
    }
  }

  /** A sweep shares no cell with the sweeps left of it. */
  lemma SweepBeforeRest(n: int, r: int, upward: bool, sweep: seq<Pos>, rest: seq<Pos>)
    requires PairStart(r - 2) && r != 6
    requires sweep == SweepFrom(n, r, upward, 0) && rest == Visit(n, r - 2, !upward)
    ensures forall x :: x in sweep ==> x !in rest
  {
    forall x | x in sweep
      ensures x !in rest
    {
      SweepMembers(n, r, upward, 0, x);
      VisitMembers(n, r - 2, !upward, x);
    }
  }

  /** placeData's order on a symbol of odd side n: every cell outside the
      timing column, each exactly once. */
  lemma ZigzagCovers(n: int)
    requires n >= 7 && n % 2 == 1
    ensures forall x :: x in ZigzagOrder(n) <==> 0 <= x.0 < n && 0 <= x.1 < n && x.1 != 6
    ensures Distinct(ZigzagOrder(n))
  {
    forall x
      ensures x in ZigzagOrder(n) <==> 0 <= x.0 < n && 0 <= x.1 < n && x.1 != 6
    {
      VisitMembers(n, n - 1, true, x);
    }
    VisitDistinct(n, n - 1, true);
  }
}
