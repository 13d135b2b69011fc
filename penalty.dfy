/** scorePenalty: the penalty a masked symbol is judged by, from two of the
    standard's rules: runs of five or more modules of one colour in a row or
    a column, and 2 x 2 blocks of one colour. */
module Penalty {
  import opened Grid

  /** Length of the run of equal cells that ends at position i of a line. */
  function RunLen(s: seq<Cell>, i: nat): (k: nat)
    requires i < |s|
    ensures 1 <= k <= i + 1
  {
    if i > 0 && s[i] == s[i - 1] then RunLen(s, i - 1) + 1 else 1
  }

  /** Points added when a run grows to length k: 3 at five, then 1 per
      further cell. */
  function Step(k: nat): nat
  {
    if k == 5 then 3 else if k > 5 then 1 else 0
  }

  /** Rule 1 on the first j cells of a line, cell by cell. */
  function LineScore(s: seq<Cell>, j: nat): nat
    requires j <= |s|
  {
    if j == 0 then 0 else LineScore(s, j - 1) + Step(RunLen(s, j - 1))
  }

  /** Length of the run a non-empty line starts with. */
  function LeadRun(s: seq<Cell>): (k: nat)
    requires |s| > 0
    ensures 1 <= k <= |s|
    ensures forall i :: 0 <= i < k ==> s[i] == s[0]
    ensures k < |s| ==> s[k] != s[0]
    decreases |s|
  {
    if |s| == 1 || s[1] != s[0] then 1 else 1 + LeadRun(s[1..])
  }

  /** What a maximal run of length len costs under rule 1. */
  function RunScore(len: nat): nat
  {
    if len >= 5 then len - 2 else 0
  }

  /** Rule 1 as the standard states it: every maximal run of five or more
      cells costs 3, plus 1 for each cell beyond five. */
  function RunsScore(s: seq<Cell>): nat
    decreases |s|
  {
    if s == [] then 0 else RunScore(LeadRun(s)) + RunsScore(s[LeadRun(s)..])
  }

  /** The cell-by-cell count of the encoder agrees with the run-by-run rule. */
  lemma {:induction false} LineScoreRuns(s: seq<Cell>)
    ensures LineScore(s, |s|) == RunsScore(s)
    decreases |s|
  {
    if s != [] {
      var k := LeadRun(s);
      var t := s[k..];
      LeadScore(s, k, k);
      forall j | k <= j <= |s|
        ensures LineScore(s, j) == LineScore(s, k) + LineScore(t, j - k)
      {
        ShiftScore(s, k, j);
      }
      LineScoreRuns(t);
    }
  }

  /** Inside the leading run, the run ending at i has length i + 1. */
  lemma {:induction false} LeadRunLen(s: seq<Cell>, k: nat, i: nat)
    requires 0 < k <= |s| && k == LeadRun(s) && i < k
    ensures RunLen(s, i) == i + 1
  {
    if i > 0 {
      var i' := i - 1;
      LeadRunLen(s, k, i');
    }
  }

  /** Over a prefix of the leading run the count is that of a single run. */
  lemma {:induction false} LeadScore(s: seq<Cell>, k: nat, j: nat)
    requires 0 < k <= |s| && k == LeadRun(s) && j <= k
    ensures LineScore(s, j) == RunScore(j)
  {
    if j > 0 {
      var j' := j - 1;
      LeadScore(s, k, j');
      LeadRunLen(s, k, j');
    }
  }

  /** Past the leading run, runs are measured as in the rest of the line. */
  lemma {:induction false} ShiftRunLen(s: seq<Cell>, k: nat, i: nat)
    requires 0 < k <= |s| && k == LeadRun(s) && k <= i < |s|
    ensures RunLen(s, i) == RunLen(s[k..], i - k)
  {
    if i > k {
      var i' := i - 1;
      ShiftRunLen(s, k, i');
      assert s[i] == s[k..][i - k] && s[i - 1] == s[k..][i' - k];
    } else {
      assert s[k - 1] == s[0];
    }
  }

  lemma {:induction false} ShiftScore(s: seq<Cell>, k: nat, j: nat)
    requires 0 < k <= |s| && k == LeadRun(s) && k <= j <= |s|
    ensures LineScore(s, j) == LineScore(s, k) + LineScore(s[k..], j - k)
  {
    if j > k {
      var j' := j - 1;
      ShiftScore(s, k, j');
      ShiftRunLen(s, k, j');
    }
  }

  /** Column c of a square matrix, top to bottom. */
  function Col(g: Matrix, n: nat, c: nat): (s: seq<Cell>)
    requires IsSquare(g, n) && c < n
    ensures |s| == n && forall r :: 0 <= r < n ==> s[r] == g[r][c]
  {
    seq(n, r requires 0 <= r < n => g[r][c])
  }

  /** Rule 1 over the first k rows. */
  function RowsScore(g: Matrix, n: nat, k: nat): nat
    requires IsSquare(g, n) && k <= n
  {
    if k == 0 then 0 else RowsScore(g, n, k - 1) + LineScore(g[k - 1], n)
  }

  /** Rule 1 over the first k columns. */
  function ColsScore(g: Matrix, n: nat, k: nat): nat
    requires IsSquare(g, n) && k <= n
  {
    if k == 0 then 0 else ColsScore(g, n, k - 1) + LineScore(Col(g, n, k - 1), n)
  }

  /** The 2 x 2 block with top-left cell (r, c) is of one colour. */
  predicate Uniform(g: Matrix, n: nat, r: nat, c: nat)
    requires IsSquare(g, n) && r + 1 < n && c + 1 < n
  {
    var v := g[r][c];
    v == g[r][c + 1] && v == g[r + 1][c] && v == g[r + 1][c + 1]
  }

  /** Rule 2 over the blocks with top-left cell in row r and a column
      below c: 3 per uniform block. */
  function RowBlockScore(g: Matrix, n: nat, r: nat, c: nat): nat
    requires IsSquare(g, n) && r + 1 < n && c < n
  {
    if c == 0 then 0 else RowBlockScore(g, n, r, c - 1) + (if Uniform(g, n, r, c - 1) then 3 else 0)
  }

  /** Rule 2 over the blocks with top-left cell in a row below r. */
  function BlockScore(g: Matrix, n: nat, r: nat): nat
    requires IsSquare(g, n) && (r == 0 || r < n)
  {
    if r == 0 then 0 else BlockScore(g, n, r - 1) + RowBlockScore(g, n, r - 1, n - 1)
  }

  /** The penalty of a square matrix: rule 1 over rows and columns, and
      rule 2. */
  function Score(g: Matrix, n: nat): nat
    requires IsSquare(g, n)
  {
    RowsScore(g, n, n) + ColsScore(g, n, n) + BlockScore(g, n, if n == 0 then 0 else n - 1)
  }

  /** g holds the cells of the square array m. */
  ghost predicate Mirrors(m: array2<Cell>, g: Matrix)
    reads m
  {
    m.Length0 == m.Length1 && IsSquare(g, m.Length0) &&
    forall r, c :: 0 <= r < m.Length0 && 0 <= c < m.Length1 ==> m[r, c] == g[r][c]
  }

  lemma SnapshotMirrors(m: array2<Cell>, g: Matrix)
    requires m.Length0 == m.Length1 && g == Snapshot(m)
    ensures Mirrors(m, g)
  {
  }

  /** scorePenalty: the rows, then the columns, counting runs; then the
      2 x 2 blocks. */
  method ScorePenalty(m: array2<Cell>) returns (penalty: nat)
    requires m.Length0 == m.Length1
    ensures penalty == Score(Snapshot(m), m.Length0)
  {
    ghost var g := Snapshot(m);
    SnapshotMirrors(m, g);
    penalty := RowsPenalty(m, g);
    penalty := ColumnsPenalty(m, g, penalty);
    penalty := BlocksPenalty(m, g, penalty);
  }

  /** The row loops of rule 1. */
  method RowsPenalty(m: array2<Cell>, ghost g: Matrix) returns (penalty: nat)
    requires Mirrors(m, g)
    ensures penalty == RowsScore(g, m.Length0, m.Length0)
  {
    var n := m.Length0;
    penalty := 0;
    for r := 0 to n
      invariant penalty == RowsScore(g, n, r)
    {
      penalty := RowRuns(m, g, r, penalty);
    }
  }

  /** The column loops of rule 1, added to penalty. */
  method ColumnsPenalty(m: array2<Cell>, ghost g: Matrix, penalty: nat) returns (penalty': nat)
    requires Mirrors(m, g)
    ensures penalty' == penalty + ColsScore(g, m.Length0, m.Length0)
  {
    var n := m.Length0;
    penalty' := penalty;
    for c := 0 to n
      invariant penalty' == penalty + ColsScore(g, n, c)
    {
      penalty' := ColumnRuns(m, g, c, penalty');
    }
  }

  /** The loops of rule 2, added to penalty. */
  method BlocksPenalty(m: array2<Cell>, ghost g: Matrix, penalty: nat) returns (penalty': nat)
    requires Mirrors(m, g)
    ensures penalty' == penalty + BlockScore(g, m.Length0, if m.Length0 == 0 then 0 else m.Length0 - 1)
  {
    var n := m.Length0;
    penalty' := penalty;
    var r := 0;
    while r < n - 1
      invariant 0 <= r <= (if n == 0 then 0 else n - 1)
      invariant penalty' == penalty + BlockScore(g, n, r)
    {
      penalty' := RowBlocks(m, g, r, penalty');
      r := r + 1;
    }
  }

  /** Rule 1 along row r, added to penalty. */
  method RowRuns(m: array2<Cell>, ghost g: Matrix, r: nat, penalty: nat) returns (penalty': nat)
    requires m.Length0 == m.Length1 && r < m.Length0 && Mirrors(m, g)
    ensures penalty' == penalty + LineScore(g[r], m.Length0)
  {
    var n := m.Length0;
    penalty' := penalty;
    var count := 1;
    for c := 1 to n
      invariant count == RunLen(g[r], c - 1)
      invariant penalty' == penalty + LineScore(g[r], c)
    {
      if m[r, c] == m[r, c - 1] {
        count := count + 1;
        if count == 5 {
          penalty' := penalty' + 3;
        } else if count > 5 {
          penalty' := penalty' + 1;
        }
      } else {
        count := 1;
      }
    }
  }

  /** Rule 1 down column c, added to penalty. */
  method ColumnRuns(m: array2<Cell>, ghost g: Matrix, c: nat, penalty: nat) returns (penalty': nat)
    requires m.Length0 == m.Length1 && c < m.Length0 && Mirrors(m, g)
    ensures penalty' == penalty + LineScore(Col(g, m.Length0, c), m.Length0)
  {
    var n := m.Length0;
    ghost var col := Col(g, n, c);
    penalty' := penalty;
    var count := 1;
    for r := 1 to n
      invariant count == RunLen(col, r - 1)
      invariant penalty' == penalty + LineScore(col, r)
    {
      if m[r, c] == m[r - 1, c] {
        count := count + 1;
        if count == 5 {
          penalty' := penalty' + 3;
        } else if count > 5 {
          penalty' := penalty' + 1;
        }
      } else {
        count := 1;
      }
    }
  }

  /** Rule 2 along row r: 3 for each uniform block whose top-left cell is
      in the row, added to penalty. */
  method RowBlocks(m: array2<Cell>, ghost g: Matrix, r: nat, penalty: nat) returns (penalty': nat)
    requires m.Length0 == m.Length1 && r + 1 < m.Length0 && Mirrors(m, g)
    ensures penalty' == penalty + RowBlockScore(g, m.Length0, r, m.Length0 - 1)
  {
    var n := m.Length0;
    penalty' := penalty;
    var c := 0;
    while c < n - 1
      invariant 0 <= c <= n - 1
      invariant penalty' == penalty + RowBlockScore(g, n, r, c)
    {
      var v := m[r, c];
      if v == m[r, c + 1] && v == m[r + 1, c] && v == m[r + 1, c + 1] {
        penalty' := penalty' + 3;
      }
      c := c + 1;
    }
  }
}
