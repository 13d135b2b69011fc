/** The function patterns of the symbol: the three finder patterns with
    their separators, the alignment patterns, the two timing patterns, the
    reserved format area and the dark module. Each writer is a method on the
    matrix whose postcondition gives every cell as a function of its old
    value; Template composes those functions in the order the encoder calls
    the writers. */
module Grid {
  import opened Versions

  /** A module of the matrix: not yet written (null in the encoder), light
      (0) or dark (1). */
  datatype Cell = Unset | Light | Dark

  /** A square matrix of side n whose cells are all unset. */
  method CreateMatrix(n: nat) returns (m: array2<Cell>)
    ensures fresh(m) && m.Length0 == n && m.Length1 == n
    ensures forall r, c :: 0 <= r < n && 0 <= c < n ==> m[r, c] == Unset
  {
    m := new Cell[n, n]((r, c) => Unset);
  }

  /** A matrix as a value: n rows of n cells. */
  type Matrix = seq<seq<Cell>>

  predicate IsSquare(g: Matrix, n: nat)
  {
    |g| == n && forall r :: 0 <= r < n ==> |g[r]| == n
  }

  /** The cells of an array matrix as a value. */
  ghost function Snapshot(m: array2<Cell>): (g: Matrix)
    reads m
    ensures |g| == m.Length0 && forall r :: 0 <= r < |g| ==> |g[r]| == m.Length1
    ensures forall r, c :: 0 <= r < m.Length0 && 0 <= c < m.Length1 ==> g[r][c] == m[r, c]
  {
    seq(m.Length0, r requires 0 <= r < m.Length0 reads m =>
      seq(m.Length1, c requires 0 <= c < m.Length1 reads m => m[r, c]))
  }

  // ---------------------------------------------------------------------
  // Finder patterns

  /** What the finder writer puts at offset (dr, dc) from the pattern's top
      left corner, for -1 <= dr, dc <= 7: the separator on the outer border,
      then the dark outer ring, the light ring and the dark 3x3 core. */
  function FinderCell(dr: int, dc: int): Cell
  {
    if dr == -1 || dr == 7 || dc == -1 || dc == 7 then Light
    else if dr == 0 || dr == 6 || dc == 0 || dc == 6 || (2 <= dr <= 4 && 2 <= dc <= 4) then Dark
    else Light
  }

  /** The 9x9 window a finder pattern at (top, left) covers, separator
      included. */
  predicate InFinder(top: int, left: int, r: int, c: int)
  {
    top - 1 <= r <= top + 7 && left - 1 <= c <= left + 7
  }

  function AfterFinder(prev: Cell, top: int, left: int, r: int, c: int): Cell
  {
    if InFinder(top, left, r, c) then FinderCell(r - top, c - left) else prev
  }

  function Abs(x: int): nat
  {
    if x < 0 then -x else x
  }

  /** The distance of (dr, dc) from (cr, cc) along the larger axis. */
  function Ring(dr: int, dc: int, cr: int, cc: int): nat
  {
    var a, b := Abs(dr - cr), Abs(dc - cc);
    if a < b then b else a
  }

  /** The finder pattern as concentric squares around its centre (3, 3):
      dark at distances 0, 1 and 3, light at 2 and on the separator at 4. */
  lemma FinderRings(dr: int, dc: int)
    requires -1 <= dr <= 7 && -1 <= dc <= 7
    ensures FinderCell(dr, dc) == (if Ring(dr, dc, 3, 3) in {0, 1, 3} then Dark else Light)
  {
  }

  /** placeFinderPattern: writes the 9x9 window at (row - 1, col - 1), the
      cells of it that lie inside the matrix, and nothing else. */
  method PlaceFinderPattern(m: array2<Cell>, row: int, col: int)
    requires m.Length0 == m.Length1
    modifies m
    ensures forall r, c :: 0 <= r < m.Length0 && 0 <= c < m.Length1 ==>
      m[r, c] == AfterFinder(old(m[r, c]), row, col, r, c)
  {
    var n := m.Length0;
    for dr := -1 to 8
      invariant forall r, c :: 0 <= r < n && 0 <= c < n ==>
        m[r, c] == if InFinder(row, col, r, c) && r - row < dr then FinderCell(r - row, c - col) else old(m[r, c])
    {
      for dc := -1 to 8
        invariant forall r, c :: 0 <= r < n && 0 <= c < n ==>
          m[r, c] == if InFinder(row, col, r, c) && (r - row < dr || (r - row == dr && c - col < dc))
                     then FinderCell(r - row, c - col) else old(m[r, c])
      {
        var mr, mc := row + dr, col + dc;
        if mr < 0 || mr >= n || mc < 0 || mc >= n {
          continue;
        }
        if dr == -1 || dr == 7 || dc == -1 || dc == 7 {
          m[mr, mc] := Light;
        } else if (dr == 0 || dr == 6) || (dc == 0 || dc == 6) || (dr >= 2 && dr <= 4 && dc >= 2 && dc <= 4) {
          m[mr, mc] := Dark;
        } else {
          m[mr, mc] := Light;
        }
      }
    }
  }

  // ---------------------------------------------------------------------
  // Alignment patterns

  /** The alignment pattern centre coordinates of a version. */
  function AlignmentPositions(version: nat): (ps: seq<int>)
    requires 1 <= version <= 10
    ensures version == 1 ==> ps == []
    ensures version > 1 ==> |ps| >= 2 && ps[0] == 6
  {
    match version
    case 1 => []
    case 2 => [6, 18]
    case 3 => [6, 22]
    case 4 => [6, 26]
    case 5 => [6, 30]
    case 6 => [6, 34]
    case 7 => [6, 22, 38]
    case 8 => [6, 24, 42]
    case 9 => [6, 26, 46]
    case _ => [6, 28, 50]
  }

  /** The centres of every version's list are spread as Spread demands. */
  lemma PositionsSpread(version: nat)
    requires 1 <= version <= 10
    ensures Spread(AlignmentPositions(version), Side(version))
  {
  }

  /** Even centres, ascending 12 or more apart, from 6 to n - 7: no two 5x5
      patterns touch, every pattern lies inside the matrix, and the centre
      row and column of a pattern agree with the timing patterns. */
  predicate Spread(ps: seq<int>, n: int)
  {
    && (forall i, j :: 0 <= i < j < |ps| ==> ps[i] + 12 <= ps[j])
    && (forall i :: 0 <= i < |ps| ==> 6 <= ps[i] <= n - 7 && ps[i] % 2 == 0)
    && (|ps| > 0 ==> ps[0] == 6 && ps[|ps| - 1] == n - 7)
  }

  /** A centre is skipped where its pattern would overlap a finder pattern. */
  predicate AlignmentSkipped(row: int, col: int, n: int)
  {
    (row <= 8 && col <= 8) || (row <= 8 && col >= n - 8) || (row >= n - 8 && col <= 8)
  }

  /** What the alignment writer puts at offset (dr, dc) from a centre, for
      -2 <= dr, dc <= 2. */
  function AlignmentCell(dr: int, dc: int): Cell
  {
    if dr == -2 || dr == 2 || dc == -2 || dc == 2 || (dr == 0 && dc == 0) then Dark else Light
  }

  /** The alignment pattern as concentric squares: a dark centre, a light
      ring and a dark ring. */
  lemma AlignmentRings(dr: int, dc: int)
    requires -2 <= dr <= 2 && -2 <= dc <= 2
    ensures AlignmentCell(dr, dc) == (if Ring(dr, dc, 0, 0) in {0, 2} then Dark else Light)
  {
  }

  /** The index of the first centre within two modules of x, or |ps|. */
  function CenterNear(ps: seq<int>, x: int): (k: nat)
    ensures k <= |ps|
    ensures k < |ps| ==> Abs(x - ps[k]) <= 2
    ensures forall i :: 0 <= i < k ==> Abs(x - ps[i]) > 2
  {
    if ps == [] then 0
    else if Abs(x - ps[0]) <= 2 then 0
    else 1 + CenterNear(ps[1..], x)
  }

  /** The cell (r, c) lies within two modules of a centre pair whose
      pattern is drawn. */
  predicate InAlignment(ps: seq<int>, n: int, r: int, c: int)
  {
    CenterNear(ps, r) < |ps| && CenterNear(ps, c) < |ps| &&
    !AlignmentSkipped(ps[CenterNear(ps, r)], ps[CenterNear(ps, c)], n)
  }

  function AfterAlignment(prev: Cell, ps: seq<int>, n: int, r: int, c: int): Cell
  {
    if InAlignment(ps, n, r, c)
    then AlignmentCell(r - ps[CenterNear(ps, r)], c - ps[CenterNear(ps, c)])
    else prev
  }

  /** One 5x5 pattern around (row, col): the inner loops of
      placeAlignmentPatterns. */
  method PlaceAlignmentBlock(m: array2<Cell>, row: int, col: int)
    requires 2 <= row && row + 2 < m.Length0 && 2 <= col && col + 2 < m.Length1
    modifies m
    ensures forall r, c :: 0 <= r < m.Length0 && 0 <= c < m.Length1 ==>
      m[r, c] == if Abs(r - row) <= 2 && Abs(c - col) <= 2 then AlignmentCell(r - row, c - col) else old(m[r, c])
  {
    for dr := -2 to 3
      invariant forall r, c :: 0 <= r < m.Length0 && 0 <= c < m.Length1 ==>
        m[r, c] == if Abs(r - row) <= 2 && Abs(c - col) <= 2 && r - row < dr
                   then AlignmentCell(r - row, c - col) else old(m[r, c])
    {
      for dc := -2 to 3
        invariant forall r, c :: 0 <= r < m.Length0 && 0 <= c < m.Length1 ==>
          m[r, c] == if Abs(r - row) <= 2 && Abs(c - col) <= 2 && (r - row < dr || (r - row == dr && c - col < dc))
                     then AlignmentCell(r - row, c - col) else old(m[r, c])
      {
        var v := if dr == -2 || dr == 2 || dc == -2 || dc == 2 || (dr == 0 && dc == 0) then Dark else Light;
        m[row + dr, col + dc] := v;
      }
    }
  }

  /** With centres spread apart, a coordinate near centre k finds k. */
  lemma NearCenter(ps: seq<int>, n: int, x: int, k: nat)
    requires Spread(ps, n)
    requires k < |ps| && Abs(x - ps[k]) <= 2
    ensures CenterNear(ps, x) == k
  {
  }

  /** Centre pair (i, j) comes before (i', j') in the encoder's loop order. */
  predicate Before(i: nat, j: nat, i': nat, j': nat)
  {
    i < i' || (i == i' && j < j')
  }

  /** The alignment patterns drawn for centre pairs before (i, j). */
  function AlignmentUpTo(prev: Cell, ps: seq<int>, n: int, i: nat, j: nat, r: int, c: int): Cell
  {
    if InAlignment(ps, n, r, c) && Before(CenterNear(ps, r), CenterNear(ps, c), i, j)
    then AlignmentCell(r - ps[CenterNear(ps, r)], c - ps[CenterNear(ps, c)])
    else prev
  }

  /** placeAlignmentPatterns: every centre pair of the version's list that
      does not touch a finder pattern gets its 5x5 pattern. */
  method PlaceAlignmentPatterns(m: array2<Cell>, version: nat)
    requires 1 <= version <= 10
    requires m.Length0 == Side(version) && m.Length1 == Side(version)
    modifies m
    ensures forall r, c :: 0 <= r < m.Length0 && 0 <= c < m.Length1 ==>
      m[r, c] == AfterAlignment(old(m[r, c]), AlignmentPositions(version), Side(version), r, c)
  {
    var positions := AlignmentPositions(version);
    var n := m.Length0;
    if |positions| < 2 {
      return;
    }
    PositionsSpread(version);
    var k := |positions|;
    for i := 0 to k
      invariant forall r, c :: 0 <= r < n && 0 <= c < n ==>
        m[r, c] == AlignmentUpTo(old(m[r, c]), positions, n, i, 0, r, c)
    {
      for j := 0 to k
        invariant forall r, c :: 0 <= r < n && 0 <= c < n ==>
          m[r, c] == AlignmentUpTo(old(m[r, c]), positions, n, i, j, r, c)
      {
        var row, col := positions[i], positions[j];
        if (row <= 8 && col <= 8) || (row <= 8 && col >= n - 8) || (row >= n - 8 && col <= 8) {
          forall r, c | 0 <= r < n && 0 <= c < n
            ensures m[r, c] == AlignmentUpTo(old(m[r, c]), positions, n, i, j + 1, r, c)
          {
            SkippedStep(old(m[r, c]), positions, n, i, j, r, c);
          }
          continue;
        }
        label Pre:
        PlaceAlignmentBlock(m, row, col);
        forall r, c | 0 <= r < n && 0 <= c < n
          ensures m[r, c] == AlignmentUpTo(old(m[r, c]), positions, n, i, j + 1, r, c)
        {
          DrawnStep(old(m[r, c]), old@Pre(m[r, c]), m[r, c], positions, n, i, j, r, c);
        }
      }
    }
  }

  lemma SkippedStep(prev: Cell, ps: seq<int>, n: int, i: nat, j: nat, r: int, c: int)
    requires i < |ps| && j < |ps| && AlignmentSkipped(ps[i], ps[j], n)
    ensures AlignmentUpTo(prev, ps, n, i, j + 1, r, c) == AlignmentUpTo(prev, ps, n, i, j, r, c)
  {
  }

  lemma DrawnStep(prev: Cell, mid: Cell, now: Cell, ps: seq<int>, n: int, i: nat, j: nat, r: int, c: int)
    requires Spread(ps, n)
    requires i < |ps| && j < |ps| && !AlignmentSkipped(ps[i], ps[j], n)
    requires mid == AlignmentUpTo(prev, ps, n, i, j, r, c)
    requires now == if Abs(r - ps[i]) <= 2 && Abs(c - ps[j]) <= 2 then AlignmentCell(r - ps[i], c - ps[j]) else mid
    ensures now == AlignmentUpTo(prev, ps, n, i, j + 1, r, c)
  {
    if Abs(r - ps[i]) <= 2 && Abs(c - ps[j]) <= 2 {
      DrawnInside(prev, ps, n, i, j, r, c);
    } else {
      DrawnOutside(prev, ps, n, i, j, r, c);
    }
  }

  lemma DrawnInside(prev: Cell, ps: seq<int>, n: int, i: nat, j: nat, r: int, c: int)
    requires Spread(ps, n)
    requires i < |ps| && j < |ps| && !AlignmentSkipped(ps[i], ps[j], n)
    requires Abs(r - ps[i]) <= 2 && Abs(c - ps[j]) <= 2
    ensures AlignmentUpTo(prev, ps, n, i, j + 1, r, c) == AlignmentCell(r - ps[i], c - ps[j])
  {
    NearCenter(ps, n, r, i);
    NearCenter(ps, n, c, j);
  }

  lemma DrawnOutside(prev: Cell, ps: seq<int>, n: int, i: nat, j: nat, r: int, c: int)
    requires i < |ps| && j < |ps|
    requires !(Abs(r - ps[i]) <= 2 && Abs(c - ps[j]) <= 2)
    ensures AlignmentUpTo(prev, ps, n, i, j + 1, r, c) == AlignmentUpTo(prev, ps, n, i, j, r, c)
  {
  }

  // ---------------------------------------------------------------------
  // Timing patterns

  /** The timing pattern alternates, dark on even coordinates. */
  function TimingCell(i: int): Cell
  {
    if i % 2 == 0 then Dark else Light
  }

  /** Row 6 and column 6 between the finder patterns. */
  predicate OnTiming(n: int, r: int, c: int)
  {
    (r == 6 && 8 <= c < n - 8) || (c == 6 && 8 <= r < n - 8)
  }

  function AfterTiming(prev: Cell, n: int, r: int, c: int): Cell
  {
    if prev == Unset && OnTiming(n, r, c) then TimingCell(if r == 6 then c else r) else prev
  }

  /** placeTimingPatterns: fills the unset cells of row 6 and column 6 from
      index 8 to n - 9 and leaves every other cell alone. */
  method PlaceTimingPatterns(m: array2<Cell>)
    requires m.Length0 == m.Length1
    modifies m
    ensures forall r, c :: 0 <= r < m.Length0 && 0 <= c < m.Length1 ==>
      m[r, c] == AfterTiming(old(m[r, c]), m.Length0, r, c)
  {
    var n := m.Length0;
    var i := 8;
    while i < n - 8
      invariant 8 <= i
      invariant forall r, c :: 0 <= r < n && 0 <= c < n ==>
        m[r, c] == if (r == 6 && c < i) || (c == 6 && r < i) then AfterTiming(old(m[r, c]), n, r, c) else old(m[r, c])
    {
      var v := if i % 2 == 0 then Dark else Light;
      if m[6, i] == Unset {
        m[6, i] := v;
      }
      if m[i, 6] == Unset {
        m[i, 6] := v;
      }
      i := i + 1;
    }
  }

  // ---------------------------------------------------------------------
  // Format area and dark module

  /** Row 8 and column 8 next to the three finder patterns. */
  predicate InFormatArea(n: int, r: int, c: int)
  {
    (r == 8 && (0 <= c <= 8 || n - 8 <= c <= n - 1)) || (c == 8 && (0 <= r <= 8 || n - 8 <= r <= n - 1))
  }

  function Reserve(prev: Cell, n: int, r: int, c: int): Cell
  {
    if prev == Unset && InFormatArea(n, r, c) then Light else prev
  }

  /** The dark module always sits at (n - 8, 8). */
  function AfterFormatArea(prev: Cell, n: int, r: int, c: int): Cell
  {
    if r == n - 8 && c == 8 then Dark else Reserve(prev, n, r, c)
  }

  /** reserveFormatArea: marks the unset cells of the format area light,
      then sets the dark module. */
  method ReserveFormatArea(m: array2<Cell>)
    requires m.Length0 == m.Length1 && m.Length0 >= 9
    modifies m
    ensures forall r, c :: 0 <= r < m.Length0 && 0 <= c < m.Length1 ==>
      m[r, c] == AfterFormatArea(old(m[r, c]), m.Length0, r, c)
  {
    var n := m.Length0;
    for i := 0 to 9
      invariant forall r, c :: 0 <= r < n && 0 <= c < n ==>
        m[r, c] == if (r == 8 && c < i) || (c == 8 && r < i) then Reserve(old(m[r, c]), n, r, c)
                   else old(m[r, c])
    {
      if m[8, i] == Unset {
        m[8, i] := Light;
      }
      if m[i, 8] == Unset {
        m[i, 8] := Light;
      }
    }
    for i := 0 to 8
      invariant forall r, c :: 0 <= r < n && 0 <= c < n ==>
        m[r, c] == if (r == 8 && (c <= 8 || n - 1 - c < i)) || (c == 8 && r <= 8) then Reserve(old(m[r, c]), n, r, c)
                   else old(m[r, c])
    {
      if m[8, n - 1 - i] == Unset {
        m[8, n - 1 - i] := Light;
      }
    }
    for i := 0 to 8
      invariant forall r, c :: 0 <= r < n && 0 <= c < n ==>
        m[r, c] == if (r == 8 && (c <= 8 || n - 8 <= c)) || (c == 8 && (r <= 8 || n - 1 - r < i))
                   then Reserve(old(m[r, c]), n, r, c)
                   else old(m[r, c])
    {
      if m[n - 1 - i, 8] == Unset {
        m[n - 1 - i, 8] := Light;
      }
    }
    m[n - 8, 8] := Dark;
  }

  // ---------------------------------------------------------------------
  // The function patterns together

  /** The three finder patterns of a matrix of side n. */
  function Finders(n: int, r: int, c: int): Cell
  {
    AfterFinder(AfterFinder(AfterFinder(Unset, 0, 0, r, c), 0, n - 7, r, c), n - 7, 0, r, c)
  }

  /** Every cell after the writers ran, in the encoder's order, on an empty
      matrix of side n with alignment centres ps. */
  function TemplateOf(ps: seq<int>, n: int, r: int, c: int): Cell
  {
    AfterFormatArea(AfterTiming(AfterAlignment(Finders(n, r, c), ps, n, r, c), n, r, c), n, r, c)
  }

  function Template(version: nat, r: int, c: int): Cell
    requires 1 <= version <= 10
  {
    TemplateOf(AlignmentPositions(version), Side(version), r, c)
  }

  /** The function patterns of a version on a fresh matrix: the calls the
      encoder makes both for the reserved matrix and for the data matrix. */
  method FunctionPatterns(version: nat) returns (m: array2<Cell>)
    requires 1 <= version <= 10
    ensures fresh(m) && m.Length0 == Side(version) && m.Length1 == Side(version)
    ensures forall r, c :: 0 <= r < m.Length0 && 0 <= c < m.Length1 ==> m[r, c] == Template(version, r, c)
  {
    var n := Side(version);
    m := CreateMatrix(n);
    PlaceFinderPattern(m, 0, 0);
    PlaceFinderPattern(m, 0, n - 7);
    PlaceFinderPattern(m, n - 7, 0);
    PlaceAlignmentPatterns(m, version);
    PlaceTimingPatterns(m);
    ReserveFormatArea(m);
  }

  /** A drawn alignment pattern keeps clear of the finder windows and of the
      dark module, and one crossing row 6 or column 6 is centred on it. */
  lemma AlignmentClear(ps: seq<int>, n: int, r: int, c: int)
    requires Spread(ps, n) && n >= 21
    requires InAlignment(ps, n, r, c)
    ensures !InFinder(0, 0, r, c) && !InFinder(0, n - 7, r, c) && !InFinder(n - 7, 0, r, c)
    ensures !(r == n - 8 && c == 8)
    ensures r == 6 ==> ps[CenterNear(ps, r)] == 6
    ensures c == 6 ==> ps[CenterNear(ps, c)] == 6
  {
    var i, j := CenterNear(ps, r), CenterNear(ps, c);
    var last := |ps| - 1;
    if i > 0 {
      assert ps[0] + 12 <= ps[i];
    }
    if j > 0 {
      assert ps[0] + 12 <= ps[j];
    }
    if i < last {
      assert ps[i] + 12 <= ps[last];
    }
    if j < last {
      assert ps[j] + 12 <= ps[last];
    }
  }

  /** The three finder patterns and their separators survive every later
      writer. */
  lemma FindersKept(ps: seq<int>, n: int, r: int, c: int)
    requires Spread(ps, n) && n >= 21
    requires 0 <= r < n && 0 <= c < n
    ensures InFinder(0, 0, r, c) ==> TemplateOf(ps, n, r, c) == FinderCell(r, c)
    ensures InFinder(0, n - 7, r, c) ==> TemplateOf(ps, n, r, c) == FinderCell(r, c - (n - 7))
    ensures InFinder(n - 7, 0, r, c) ==> TemplateOf(ps, n, r, c) == FinderCell(r - (n - 7), c)
  {
    if InAlignment(ps, n, r, c) {
      AlignmentClear(ps, n, r, c);
    }
  }

  /** Row 6 and column 6 alternate between the finder patterns, the
      alignment patterns they cross included. */
  lemma TimingKept(ps: seq<int>, n: int, i: int)
    requires Spread(ps, n) && n >= 21
    requires 8 <= i < n - 8
    ensures TemplateOf(ps, n, 6, i) == TimingCell(i)
    ensures TemplateOf(ps, n, i, 6) == TimingCell(i)
  {
    if InAlignment(ps, n, 6, i) {
      AlignmentClear(ps, n, 6, i);
    }
    if InAlignment(ps, n, i, 6) {
      AlignmentClear(ps, n, i, 6);
    }
  }

  /** Each drawn alignment pattern survives every later writer: the cell
      (r, c) at offset (dr, dc) from the centre pair (i, j). */
  lemma AlignmentKept(ps: seq<int>, n: int, i: nat, j: nat, dr: int, dc: int, r: int, c: int)
    requires Spread(ps, n) && n >= 21
    requires i < |ps| && j < |ps| && !AlignmentSkipped(ps[i], ps[j], n)
    requires -2 <= dr <= 2 && -2 <= dc <= 2
    requires r == ps[i] + dr && c == ps[j] + dc
    ensures TemplateOf(ps, n, r, c) == AlignmentCell(dr, dc)
  {
    NearCenter(ps, n, r, i);
    NearCenter(ps, n, c, j);
    AlignmentClear(ps, n, r, c);
    var a := AfterAlignment(Finders(n, r, c), ps, n, r, c);
    assert a == AlignmentCell(dr, dc);
    LaterWritersKeep(a, n, r, c);
  }

  /** Timing and format area writers leave a written cell alone, the dark
      module apart. */
  lemma LaterWritersKeep(x: Cell, n: int, r: int, c: int)
    requires x != Unset && !(r == n - 8 && c == 8)
    ensures AfterFormatArea(AfterTiming(x, n, r, c), n, r, c) == x
  {
  }

  /** The dark module is dark, the format area is reserved, and column 6 is
      written from top to bottom. */
  lemma TemplateReserved(ps: seq<int>, n: int)
    requires n >= 21
    ensures TemplateOf(ps, n, n - 8, 8) == Dark
    ensures forall r, c :: InFormatArea(n, r, c) ==> TemplateOf(ps, n, r, c) != Unset
    ensures forall r :: 0 <= r < n ==> TemplateOf(ps, n, r, 6) != Unset
  {
  }
}
