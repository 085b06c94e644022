/** The fixed 24 x 40 grid (index.js:71-72) and the row-major list of its
    Empty squares that object placement draws from (index.js:139-146). */
module Grid {
  import opened Entities

  const ROWS := 24
  const COLS := 40

  /** A square, as the source's {x, y} records: x is the column, y the row. */
  datatype Pos = Pos(x: int, y: int)

  predicate InBounds(x: int, y: int) {
    0 <= x < COLS && 0 <= y < ROWS
  }

  predicate Shaped(g: array2<Cell>) {
    g.Length0 == ROWS && g.Length1 == COLS
  }

  /** Row-major order: the order in which the source's nested loops visit squares. */
  predicate Before(p: Pos, q: Pos) {
    p.y < q.y || (p.y == q.y && p.x < q.x)
  }

  predicate Increasing(s: seq<Pos>) {
    forall i, j :: 0 <= i < j < |s| ==> Before(s[i], s[j])
  }

  /** The Empty squares of row r among its first n columns, left to right. */
  ghost function EmptyInRow(g: array2<Cell>, r: nat, n: nat): seq<Pos>
    reads g
    requires Shaped(g) && r < ROWS && n <= COLS
  {
    if n == 0 then []
    else EmptyInRow(g, r, n - 1) + (if g[r, n - 1].Empty? then [Pos(n - 1, r)] else [])
  }

  /** The Empty squares of the first m rows, in row-major order. */
  ghost function EmptyRows(g: array2<Cell>, m: nat): seq<Pos>
    reads g
    requires Shaped(g) && m <= ROWS
  {
    if m == 0 then [] else EmptyRows(g, m - 1) + EmptyInRow(g, m - 1, COLS)
  }

  /** Every Empty square of the grid, in row-major order. */
  ghost function EmptyCells(g: array2<Cell>): seq<Pos>
    reads g
    requires Shaped(g)
  {
    EmptyRows(g, ROWS)
  }

  /** A grid's contents as a value: ROWS rows of COLS squares. */
  predicate Sized(g: seq<seq<Cell>>) {
    |g| == ROWS && forall r :: 0 <= r < ROWS ==> |g[r]| == COLS
  }

  /** A row whose first n squares are all Empty lists n squares. */
  lemma {:induction false} FullRow(g: array2<Cell>, r: nat, n: nat)
    requires Shaped(g) && r < ROWS && n <= COLS
    requires forall c :: 0 <= c < n ==> g[r, c].Empty?
    ensures |EmptyInRow(g, r, n)| == n
  {
    if n > 0 {
      FullRow(g, r, n - 1);
    }
  }

  /** A row with an Empty square among its first n lists at least one square. */
  lemma {:induction false} RowWithEmpty(g: array2<Cell>, r: nat, n: nat, c0: nat)
    requires Shaped(g) && r < ROWS && c0 < n <= COLS && g[r, c0].Empty?
    ensures |EmptyInRow(g, r, n)| >= 1
  {
    if c0 < n - 1 {
      RowWithEmpty(g, r, n - 1, c0);
    }
  }

  /** With column c0 and row r0 all Empty, the first m rows list at least m
      squares, and COLS - 1 more once row r0 is among them. */
  lemma {:induction false} CrossRows(g: array2<Cell>, m: nat, c0: nat, r0: nat)
    requires Shaped(g) && m <= ROWS && c0 < COLS && r0 < ROWS
    requires forall r :: 0 <= r < ROWS ==> g[r, c0].Empty?
    requires forall c :: 0 <= c < COLS ==> g[r0, c].Empty?
    ensures |EmptyRows(g, m)| >= m + (if r0 < m then COLS - 1 else 0)
  {
    if m > 0 {
      CrossRows(g, m - 1, c0, r0);
      if m - 1 == r0 {
        FullRow(g, r0, COLS);
      } else {
        RowWithEmpty(g, m - 1, COLS, c0);
      }
    }
  }

  /** A grid with a fully Empty column and a fully Empty row has at least
      ROWS + COLS - 1 Empty squares. */
  lemma CrossEmpty(g: array2<Cell>, c0: nat, r0: nat)
    requires Shaped(g) && c0 < COLS && r0 < ROWS
    requires forall r :: 0 <= r < ROWS ==> g[r, c0].Empty?
    requires forall c :: 0 <= c < COLS ==> g[r0, c].Empty?
    ensures |EmptyCells(g)| >= ROWS + COLS - 1
  {
    CrossRows(g, ROWS, c0, r0);
  }

  /** Squares listed in row-major order are all different. */
  lemma IncreasingDistinct(s: seq<Pos>)
    requires Increasing(s)
    ensures forall i, j :: 0 <= i < j < |s| ==> s[i] != s[j]
  {
    forall i, j | 0 <= i < j < |s| ensures s[i] != s[j] {
      assert Before(s[i], s[j]);
    }
  }

  lemma IncreasingAppend(a: seq<Pos>, b: seq<Pos>)
    requires Increasing(a) && Increasing(b)
    requires forall i, j :: 0 <= i < |a| && 0 <= j < |b| ==> Before(a[i], b[j])
    ensures Increasing(a + b)
  {
    forall i, j | 0 <= i < j < |a + b| ensures Before((a + b)[i], (a + b)[j]) {
      if j < |a| {
      } else if i >= |a| {
        assert (a + b)[i] == b[i - |a|] && (a + b)[j] == b[j - |a|];
      } else {
        assert (a + b)[j] == b[j - |a|];
      }
    }
  }

  /** EmptyInRow lists exactly the Empty squares of the row prefix, left to right. */
  lemma {:induction false} EmptyInRowFacts(g: array2<Cell>, r: nat, n: nat)
    requires Shaped(g) && r < ROWS && n <= COLS
    ensures forall i :: 0 <= i < |EmptyInRow(g, r, n)| ==>
      EmptyInRow(g, r, n)[i].y == r && 0 <= EmptyInRow(g, r, n)[i].x < n &&
      g[r, EmptyInRow(g, r, n)[i].x].Empty?
    ensures forall c :: 0 <= c < n && g[r, c].Empty? ==> Pos(c, r) in EmptyInRow(g, r, n)
    ensures Increasing(EmptyInRow(g, r, n))
  {
    if n > 0 {
      EmptyInRowFacts(g, r, n - 1);
      var a := EmptyInRow(g, r, n - 1);
      var b: seq<Pos> := if g[r, n - 1].Empty? then [Pos(n - 1, r)] else [];
      IncreasingAppend(a, b);
      assert EmptyInRow(g, r, n) == a + b;
    }
  }

  /** EmptyRows lists exactly the Empty squares of the first m rows, in row-major order. */
  lemma {:induction false} EmptyRowsFacts(g: array2<Cell>, m: nat)
    requires Shaped(g) && m <= ROWS
    ensures forall i :: 0 <= i < |EmptyRows(g, m)| ==>
      0 <= EmptyRows(g, m)[i].y < m && 0 <= EmptyRows(g, m)[i].x < COLS &&
      g[EmptyRows(g, m)[i].y, EmptyRows(g, m)[i].x].Empty?
    ensures forall r, c :: 0 <= r < m && 0 <= c < COLS && g[r, c].Empty? ==> Pos(c, r) in EmptyRows(g, m)
    ensures Increasing(EmptyRows(g, m))
  {
    if m > 0 {
      EmptyRowsFacts(g, m - 1);
      EmptyInRowFacts(g, m - 1, COLS);
      var a := EmptyRows(g, m - 1);
      var b := EmptyInRow(g, m - 1, COLS);
      IncreasingAppend(a, b);
      assert EmptyRows(g, m) == a + b;
      forall r, c | 0 <= r < m && 0 <= c < COLS && g[r, c].Empty? ensures Pos(c, r) in a + b {
        if r < m - 1 {
          assert Pos(c, r) in a;
        } else {
          assert Pos(c, r) in b;
        }
      }
    }
  }

  /** The list of Empty squares: each is in the grid and Empty, none is listed
      twice, and none is missing. */
  lemma EmptyCellsFacts(g: array2<Cell>)
    requires Shaped(g)
    ensures forall i :: 0 <= i < |EmptyCells(g)| ==>
      InBounds(EmptyCells(g)[i].x, EmptyCells(g)[i].y) &&
      g[EmptyCells(g)[i].y, EmptyCells(g)[i].x].Empty?
    ensures forall i, j :: 0 <= i < j < |EmptyCells(g)| ==> EmptyCells(g)[i] != EmptyCells(g)[j]
    ensures forall r, c :: 0 <= r < ROWS && 0 <= c < COLS && g[r, c].Empty? ==> Pos(c, r) in EmptyCells(g)
  {
    EmptyRowsFacts(g, ROWS);
    IncreasingDistinct(EmptyCells(g));
  }

  /** 1 if square c holds k, else 0. */
  function Has(c: Cell, k: Cell): nat {
    if c == k then 1 else 0
  }

  function RowCount(row: seq<Cell>, k: Cell): nat {
    if |row| == 0 then 0 else RowCount(row[..|row| - 1], k) + Has(row[|row| - 1], k)
  }

  /** The number of squares of grid g holding k. */
  function CountIn(g: seq<seq<Cell>>, k: Cell): nat {
    if |g| == 0 then 0 else CountIn(g[..|g| - 1], k) + RowCount(g[|g| - 1], k)
  }

  /** Overwriting square i of a row with v trades one of what it held for one v. */
  lemma {:induction false} RowCountUpdate(row: seq<Cell>, i: nat, v: Cell, k: Cell)
    requires i < |row|
    ensures RowCount(row[i := v], k) + Has(row[i], k) == RowCount(row, k) + Has(v, k)
  {
    var n := |row| - 1;
    var h := row[i := v];
    if i == n {
      assert h[..n] == row[..n];
    } else {
      assert h[..n] == row[..n][i := v] && h[n] == row[n] && row[..n][i] == row[i];
      RowCountUpdate(row[..n], i, v, k);
    }
  }

  /** Overwriting square (c, r) of a grid with v trades one of what it held for one v. */
  lemma {:induction false} CountUpdate(g: seq<seq<Cell>>, r: nat, c: nat, v: Cell, k: Cell)
    requires r < |g| && c < |g[r]|
    ensures CountIn(g[r := g[r][c := v]], k) + Has(g[r][c], k) == CountIn(g, k) + Has(v, k)
  {
    var n := |g| - 1;
    var h := g[r := g[r][c := v]];
    if r == n {
      assert h[..n] == g[..n];
      RowCountUpdate(g[r], c, v, k);
    } else {
      assert h[..n] == g[..n][r := g[..n][r][c := v]] && h[n] == g[n] && g[..n][r] == g[r];
      CountUpdate(g[..n], r, c, v, k);
    }
  }

  /** A grid that differs from g0 at most at squares o and n is g0 with those two squares overwritten. */
  lemma TwoSquares(g0: seq<seq<Cell>>, g1: seq<seq<Cell>>, o: Pos, n: Pos)
    requires |g0| == ROWS && |g1| == ROWS
    requires forall r :: 0 <= r < ROWS ==> |g0[r]| == COLS && |g1[r]| == COLS
    requires InBounds(o.x, o.y) && InBounds(n.x, n.y) && o != n
    requires forall r, c :: 0 <= r < ROWS && 0 <= c < COLS && Pos(c, r) != o && Pos(c, r) != n ==>
      g1[r][c] == g0[r][c]
    ensures var u := g0[o.y := g0[o.y][o.x := g1[o.y][o.x]]];
      u[n.y][n.x] == g0[n.y][n.x] && g1 == u[n.y := u[n.y][n.x := g1[n.y][n.x]]]
  {
    var u := g0[o.y := g0[o.y][o.x := g1[o.y][o.x]]];
    var w := u[n.y := u[n.y][n.x := g1[n.y][n.x]]];
    forall r | 0 <= r < ROWS ensures w[r] == g1[r] {
      assert forall c :: 0 <= c < COLS ==> w[r][c] == g1[r][c];
    }
  }

  /** A step that changes only the square o it leaves and the square n it
      enters, neither holding k on its entity's side of the step: the grid's
      count of k plus what n held before is the old count plus what o holds
      after. */
  lemma StepCount(g0: seq<seq<Cell>>, g1: seq<seq<Cell>>, o: Pos, n: Pos, k: Cell)
    requires |g0| == ROWS && |g1| == ROWS
    requires forall r :: 0 <= r < ROWS ==> |g0[r]| == COLS && |g1[r]| == COLS
    requires InBounds(o.x, o.y) && InBounds(n.x, n.y) && o != n
    requires g0[o.y][o.x] != k && g1[n.y][n.x] != k
    requires forall r, c :: 0 <= r < ROWS && 0 <= c < COLS && Pos(c, r) != o && Pos(c, r) != n ==>
      g1[r][c] == g0[r][c]
    ensures CountIn(g1, k) + Has(g0[n.y][n.x], k) == CountIn(g0, k) + Has(g1[o.y][o.x], k)
  {
    TwoSquares(g0, g1, o, n);
    var u := g0[o.y := g0[o.y][o.x := g1[o.y][o.x]]];
    CountUpdate(g0, o.y, o.x, g1[o.y][o.x], k);
    CountUpdate(u, n.y, n.x, g1[n.y][n.x], k);
  }
}
