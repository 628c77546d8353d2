/** What `step` does to the grid, as a function of the grid before and of the
    random draws. The k-th draw taken during one call is given as
    `straight(k)`: true exactly when the uniform draw exceeded 0.08, which
    sends the grain one row down; otherwise it tries to skip two rows.

    The scan is written as a left fold in the order the source visits cells:
    rows `rows - 2` up to `0`, and in each row columns `0` to `cols - 1`. The
    fold also keeps a log of the moves it made, which the lemmas below use to
    say where grains went and which were lost off the bottom edge. */
module Settle {
  import opened Cells

  /** A grain of column `x` moved from row `from` to row `to`. A `to` equal to
      the row count is off the grid: that grain was destroyed. */
  datatype Move = Move(x: nat, from: nat, to: nat)

  /** The state of a scan in progress: the grid so far, the number of draws
      taken, and the moves made, oldest first. */
  datatype Sweep = Sweep(cells: seq<seq<bool>>, draws: nat, moves: seq<Move>)

  /** Cell (x, y) holds a grain with an empty cell directly below it; below
      the bottom row every cell reads as empty. */
  predicate Eligible(g: seq<seq<bool>>, cols: nat, rows: nat, x: nat, y: nat)
    requires Shaped(g, cols, rows)
    ensures Eligible(g, cols, rows, x, y) <==>
      x < cols && y < rows && g[y][x] && (y + 1 < rows ==> !g[y + 1][x])
  {
    At(g, cols, rows, x, y) && !At(g, cols, rows, x, y + 1)
  }

  /** The settling rule applied to one cell (x, y) of a row above the bottom. */
  function Visit(s: Sweep, cols: nat, rows: nat, straight: nat -> bool, x: nat, y: nat): (r: Sweep)
    requires Shaped(s.cells, cols, rows) && x < cols && y + 1 < rows
    ensures Shaped(r.cells, cols, rows)
  {
    var g := s.cells;
    if Eligible(g, cols, rows, x, y) then
      if straight(s.draws) then
        Sweep(Put(Put(g, cols, rows, x, y, false), cols, rows, x, y + 1, true), s.draws + 1, s.moves + [Move(x, y, y + 1)])
      else if !At(g, cols, rows, x, y + 2) then
        Sweep(Put(Put(g, cols, rows, x, y, false), cols, rows, x, y + 2, true), s.draws + 1, s.moves + [Move(x, y, y + 2)])
      else
        Sweep(g, s.draws + 1, s.moves)
    else
      s
  }

  /** What one visit can do. */
  lemma VisitEffect(s: Sweep, cols: nat, rows: nat, straight: nat -> bool, x: nat, y: nat)
    requires Shaped(s.cells, cols, rows) && x < cols && y + 1 < rows
    ensures var r := Visit(s, cols, rows, straight, x, y);
      // a cell that is not eligible takes no draw and changes nothing
      && (!Eligible(s.cells, cols, rows, x, y) ==> r == s)
      // an eligible cell takes exactly one draw
      && (Eligible(s.cells, cols, rows, x, y) ==> r.draws == s.draws + 1)
      // only column x, from row y down to row y + 2, can change
      && (forall y', c :: 0 <= y' < rows && 0 <= c < cols && (c != x || y' < y || y + 2 < y') ==>
            r.cells[y'][c] == s.cells[y'][c])
      // the bottom row is never cleared
      && RowKept(s.cells, r.cells, cols, rows, rows - 1)
      // at most one move is logged, and it goes one or two rows down in column x
      && (r.moves == s.moves || r.moves == s.moves + [Move(x, y, y + 1)] || r.moves == s.moves + [Move(x, y, y + 2)])
  {
  }

  /** What a logged move does to the cells. A visit that logs no move (a
      blocked skip included) leaves the cells alone; a logged move empties its
      source and fills its target, which was empty, unless the target is off
      the grid. So every cell that changed is the source or the target of a
      logged move: the one this visit appended. */
  lemma VisitMoves(s: Sweep, cols: nat, rows: nat, straight: nat -> bool, x: nat, y: nat)
    requires Shaped(s.cells, cols, rows) && x < cols && y + 1 < rows
    ensures var r := Visit(s, cols, rows, straight, x, y);
      && (r.moves == s.moves ==> r.cells == s.cells)
      && |s.moves| <= |r.moves| <= |s.moves| + 1 && r.moves[..|s.moves|] == s.moves
      && (|r.moves| == |s.moves| + 1 ==>
            var t := r.moves[|s.moves|].to;
            s.cells[y][x] && !r.cells[y][x] && y < t
            && (t < rows ==> !s.cells[t][x] && r.cells[t][x]))
      && (forall y', c :: 0 <= y' < rows && 0 <= c < cols && r.cells[y'][c] != s.cells[y'][c] ==>
            |r.moves| == |s.moves| + 1 && Touches(r.moves[|s.moves|], c, y'))
  {
    var r := Visit(s, cols, rows, straight, x, y);
    if |r.moves| > |s.moves| {
      assert Touches(r.moves[|s.moves|], x, y);
    }
  }

  /** Visits columns `0` to `n - 1` of row `y`, left to right. */
  function ScanRow(s: Sweep, cols: nat, rows: nat, straight: nat -> bool, y: nat, n: nat): (r: Sweep)
    requires Shaped(s.cells, cols, rows) && y + 1 < rows && n <= cols
    ensures Shaped(r.cells, cols, rows)
    decreases n
  {
    if n == 0 then s else Visit(ScanRow(s, cols, rows, straight, y, n - 1), cols, rows, straight, n - 1, y)
  }

  /** Visits the first `n` rows of the scan: rows `rows - 2` up to `rows - 1 - n`. */
  function ScanRows(s: Sweep, cols: nat, rows: nat, straight: nat -> bool, n: nat): (r: Sweep)
    requires Shaped(s.cells, cols, rows) && n < rows
    ensures Shaped(r.cells, cols, rows)
    decreases n
  {
    if n == 0 then s else ScanRow(ScanRows(s, cols, rows, straight, n - 1), cols, rows, straight, rows - 1 - n, cols)
  }

  /** One call of `step` on grid `g`: every row but the bottom one is scanned. */
  function StepSweep(g: seq<seq<bool>>, cols: nat, rows: nat, straight: nat -> bool): (r: Sweep)
    requires Shaped(g, cols, rows) && rows >= 1
    ensures Shaped(r.cells, cols, rows)
  {
    ScanRows(Sweep(g, 0, []), cols, rows, straight, rows - 1)
  }

  /** Number of logged moves whose target is off the grid. */
  function Lost(ms: seq<Move>, rows: nat): nat {
    if ms == [] then 0 else Lost(ms[..|ms| - 1], rows) + Bit(ms[|ms| - 1].to >= rows)
  }

  /** Number of logged moves of column `c` whose target is off the grid. */
  function LostIn(ms: seq<Move>, rows: nat, c: nat): nat {
    if ms == [] then 0 else LostIn(ms[..|ms| - 1], rows, c) + Bit(ms[|ms| - 1].x == c && ms[|ms| - 1].to >= rows)
  }

  lemma LostSnoc(ms: seq<Move>, m: Move, rows: nat)
    ensures Lost(ms + [m], rows) == Lost(ms, rows) + Bit(m.to >= rows)
    ensures forall c :: LostIn(ms + [m], rows, c) == LostIn(ms, rows, c) + Bit(m.x == c && m.to >= rows)
  {
    assert (ms + [m])[..|ms|] == ms;
  }

  /** Every logged move stays in its column, inside the grid's width, and goes
      one or two rows down from a row above the bottom one. */
  predicate Downward(ms: seq<Move>, cols: nat, rows: nat) {
    forall i :: 0 <= i < |ms| ==>
      ms[i].x < cols && ms[i].from + 2 <= rows && (ms[i].to == ms[i].from + 1 || ms[i].to == ms[i].from + 2)
  }

  /** No logged move starts above row `top`. */
  predicate StartsBelow(ms: seq<Move>, top: int) {
    forall i :: 0 <= i < |ms| ==> top <= ms[i].from
  }

  /** Every logged move off the grid skipped from row `rows - 2`, from a cell
      that is eligible in `g`. */
  predicate LostFromEdge(ms: seq<Move>, g: seq<seq<bool>>, cols: nat, rows: nat)
    requires Shaped(g, cols, rows)
  {
    forall i :: 0 <= i < |ms| && ms[i].to >= rows ==>
      ms[i].from + 2 == rows && Eligible(g, cols, rows, ms[i].x, ms[i].from)
  }

  /** Later moves never start below earlier ones. */
  predicate BottomUp(ms: seq<Move>) {
    forall i, j :: 0 <= i < j < |ms| ==> ms[j].from <= ms[i].from
  }

  /** No cell of row `y` between columns `lo` and `hi` is eligible to move. */
  predicate RowQuiet(g: seq<seq<bool>>, cols: nat, rows: nat, y: nat, lo: nat, hi: nat)
    requires Shaped(g, cols, rows) && y + 1 < rows && hi <= cols
  {
    forall c :: lo <= c < hi ==> (g[y][c] ==> g[y + 1][c])
  }

  /** Every occupied cell of row `y` of `g` is occupied in `h`. */
  predicate RowKept(g: seq<seq<bool>>, h: seq<seq<bool>>, cols: nat, rows: nat, y: nat)
    requires Shaped(g, cols, rows) && Shaped(h, cols, rows) && y < rows
  {
    forall c :: 0 <= c < cols && g[y][c] ==> h[y][c]
  }

  /** The count of grains plus the count of grains lost is the same in `s`
      and `r`, in the whole grid and in every column. */
  predicate Conserved(s: Sweep, r: Sweep, cols: nat, rows: nat)
    requires Shaped(s.cells, cols, rows) && Shaped(r.cells, cols, rows)
  {
    && Occupied(r.cells, cols, rows) + Lost(r.moves, rows) == Occupied(s.cells, cols, rows) + Lost(s.moves, rows)
    && forall c :: 0 <= c < cols ==>
         ColumnCount(r.cells, cols, rows, c) + LostIn(r.moves, rows, c) == ColumnCount(s.cells, cols, rows, c) + LostIn(s.moves, rows, c)
  }

  /** Every grain sits on the bottom row or on another grain. */
  predicate Settled(g: seq<seq<bool>>, cols: nat, rows: nat)
    requires Shaped(g, cols, rows)
  {
    forall y :: 0 <= y < rows - 1 ==> RowQuiet(g, cols, rows, y, 0, cols)
  }

  /** Move `m` starts or ends at cell (c, y). */
  predicate Touches(m: Move, c: nat, y: nat) {
    m.x == c && (m.from == y || m.to == y)
  }

  lemma ConservedTrans(a: Sweep, b: Sweep, c: Sweep, cols: nat, rows: nat)
    requires Shaped(a.cells, cols, rows) && Shaped(b.cells, cols, rows) && Shaped(c.cells, cols, rows)
    requires Conserved(a, b, cols, rows) && Conserved(b, c, cols, rows)
    ensures Conserved(a, c, cols, rows)
  {
  }

  // ---------------------------------------------------------------------
  // One cell

  /** A visit moves a grain within its column: the grid's count falls by one
      exactly when the grain was sent off the grid. */
  lemma VisitConserves(s: Sweep, cols: nat, rows: nat, straight: nat -> bool, x: nat, y: nat)
    requires Shaped(s.cells, cols, rows) && x < cols && y + 1 < rows
    ensures var r := Visit(s, cols, rows, straight, x, y);
      Conserved(s, r, cols, rows)
  {
    var g := s.cells;
    if At(g, cols, rows, x, y) && !At(g, cols, rows, x, y + 1) {
      if straight(s.draws) {
        MoveConserves(s, cols, rows, s.draws + 1, x, y, y + 1);
      } else if !At(g, cols, rows, x, y + 2) {
        MoveConserves(s, cols, rows, s.draws + 1, x, y, y + 2);
      }
    }
  }

  /** Moving the grain at (x, y) to the empty or off-grid row `t` below it,
      and logging the move, keeps grains plus lost grains the same. */
  lemma MoveConserves(s: Sweep, cols: nat, rows: nat, draws: nat, x: nat, y: nat, t: nat)
    requires Shaped(s.cells, cols, rows) && x < cols && y < t <= rows
    requires s.cells[y][x] && (t < rows ==> !s.cells[t][x])
    ensures var g1 := Put(s.cells, cols, rows, x, y, false);
      var r := Sweep(Put(g1, cols, rows, x, t, true), draws, s.moves + [Move(x, y, t)]);
      Conserved(s, r, cols, rows)
  {
    var g := s.cells;
    var g1 := Put(g, cols, rows, x, y, false);
    var g2 := Put(g1, cols, rows, x, t, true);
    var ms := s.moves + [Move(x, y, t)];
    OccupiedPut(g, cols, rows, x, y, false);
    OccupiedPut(g1, cols, rows, x, t, true);
    LostSnoc(s.moves, Move(x, y, t), rows);
    forall c | 0 <= c < cols
      ensures ColumnCount(g2, cols, rows, c) + LostIn(ms, rows, c) == ColumnCount(g, cols, rows, c) + LostIn(s.moves, rows, c)
    {
      ColumnCountPut(g, cols, rows, x, y, false, c, rows);
      ColumnCountPut(g1, cols, rows, x, t, true, c, rows);
    }
  }

  // ---------------------------------------------------------------------
  // One row

  /** Scanning a row prefix leaves a column `c` it has not reached untouched. */
  lemma {:induction false} ScanRowFrame(s: Sweep, cols: nat, rows: nat, straight: nat -> bool, y: nat, n: nat, c: nat)
    requires Shaped(s.cells, cols, rows) && y + 1 < rows && n <= c < cols
    ensures var r := ScanRow(s, cols, rows, straight, y, n);
      forall y' :: 0 <= y' < rows ==> r.cells[y'][c] == s.cells[y'][c]
  {
    if n > 0 {
      ScanRowFrame(s, cols, rows, straight, y, n - 1, c);
      VisitEffect(ScanRow(s, cols, rows, straight, y, n - 1), cols, rows, straight, n - 1, y);
    }
  }

  /** `m` is a move the scan of row `y` can make before column `n`, starting
      from grid `g`: from an eligible cell of `g`, one or two rows down. */
  predicate RowMove(m: Move, g: seq<seq<bool>>, cols: nat, rows: nat, y: nat, n: nat)
    requires Shaped(g, cols, rows)
  {
    m.from == y && m.x < n && (m.to == y + 1 || m.to == y + 2) && Eligible(g, cols, rows, m.x, y)
  }

  /** Scanning a row only appends to the log. */
  lemma {:induction false} ScanRowAppends(s: Sweep, cols: nat, rows: nat, straight: nat -> bool, y: nat, n: nat)
    requires Shaped(s.cells, cols, rows) && y + 1 < rows && n <= cols
    ensures var r := ScanRow(s, cols, rows, straight, y, n);
      |s.moves| <= |r.moves| && r.moves[..|s.moves|] == s.moves
  {
    if n > 0 {
      var t := ScanRow(s, cols, rows, straight, y, n - 1);
      ScanRowAppends(s, cols, rows, straight, y, n - 1);
      VisitEffect(t, cols, rows, straight, n - 1, y);
      var r := Visit(t, cols, rows, straight, n - 1, y);
      assert r.moves[..|t.moves|] == t.moves;
      assert r.moves[..|s.moves|] == t.moves[..|s.moves|];
    }
  }

  /** Every move the scan of row `y` appends starts at row `y`, in a column
      the scan reached, at a cell that was eligible when the row's scan
      began, and goes one or two rows down. */
  lemma {:induction false} ScanRowMoves(s: Sweep, cols: nat, rows: nat, straight: nat -> bool, y: nat, n: nat)
    requires Shaped(s.cells, cols, rows) && y + 1 < rows && n <= cols
    ensures var r := ScanRow(s, cols, rows, straight, y, n);
      forall i :: |s.moves| <= i < |r.moves| ==> RowMove(r.moves[i], s.cells, cols, rows, y, n)
  {
    if n > 0 {
      var t := ScanRow(s, cols, rows, straight, y, n - 1);
      var r := ScanRow(s, cols, rows, straight, y, n);
      ScanRowAppends(s, cols, rows, straight, y, n - 1);
      ScanRowMoves(s, cols, rows, straight, y, n - 1);
      ScanRowLastMove(s, cols, rows, straight, y, n);
      forall i | |s.moves| <= i < |t.moves|
        ensures RowMove(r.moves[i], s.cells, cols, rows, y, n)
      {
        assert RowMove(t.moves[i], s.cells, cols, rows, y, n - 1);
        assert r.moves[i] == r.moves[..|t.moves|][i];
      }
    }
  }

  /** The visit of column `n - 1` keeps the log so far and appends at most one
      move, from a cell that was eligible when the row's scan began. */
  lemma ScanRowLastMove(s: Sweep, cols: nat, rows: nat, straight: nat -> bool, y: nat, n: nat)
    requires Shaped(s.cells, cols, rows) && y + 1 < rows && 0 < n <= cols
    ensures var t := ScanRow(s, cols, rows, straight, y, n - 1);
      var r := ScanRow(s, cols, rows, straight, y, n);
      |t.moves| <= |r.moves| <= |t.moves| + 1 && r.moves[..|t.moves|] == t.moves
      && (|r.moves| > |t.moves| ==> RowMove(r.moves[|t.moves|], s.cells, cols, rows, y, n))
  {
    var t := ScanRow(s, cols, rows, straight, y, n - 1);
    VisitEffect(t, cols, rows, straight, n - 1, y);
    var r := Visit(t, cols, rows, straight, n - 1, y);
    assert r.moves[..|t.moves|] == t.moves;
    if |r.moves| > |t.moves| {
      ScanRowFrame(s, cols, rows, straight, y, n - 1, n - 1);
      assert t.cells[y][n - 1] == s.cells[y][n - 1] && t.cells[y + 1][n - 1] == s.cells[y + 1][n - 1];
    }
  }

  /** Scanning a row preserves the count of grains plus the count of grains
      lost, in total and column by column. */
  lemma {:induction false} ScanRowConserves(s: Sweep, cols: nat, rows: nat, straight: nat -> bool, y: nat, n: nat)
    requires Shaped(s.cells, cols, rows) && y + 1 < rows && n <= cols
    ensures var r := ScanRow(s, cols, rows, straight, y, n);
      Conserved(s, r, cols, rows)
  {
    if n > 0 {
      var t := ScanRow(s, cols, rows, straight, y, n - 1);
      ScanRowConserves(s, cols, rows, straight, y, n - 1);
      VisitConserves(t, cols, rows, straight, n - 1, y);
      ConservedTrans(s, t, Visit(t, cols, rows, straight, n - 1, y), cols, rows);
    }
  }

  /** Scanning a row never clears a bottom-row cell. */
  lemma {:induction false} ScanRowKeepsBottom(s: Sweep, cols: nat, rows: nat, straight: nat -> bool, y: nat, n: nat)
    requires Shaped(s.cells, cols, rows) && y + 1 < rows && n <= cols
    ensures var r := ScanRow(s, cols, rows, straight, y, n);
      RowKept(s.cells, r.cells, cols, rows, rows - 1)
  {
    if n > 0 {
      ScanRowKeepsBottom(s, cols, rows, straight, y, n - 1);
      VisitEffect(ScanRow(s, cols, rows, straight, y, n - 1), cols, rows, straight, n - 1, y);
    }
  }

  /** Once the scan of a row has reached column `m`, columns `m` to `n - 1`
      change nothing if none of them is eligible at that point. */
  lemma {:induction false} ScanRowIdle(s: Sweep, cols: nat, rows: nat, straight: nat -> bool, y: nat, m: nat, n: nat)
    requires Shaped(s.cells, cols, rows) && y + 1 < rows && m <= n <= cols
    requires RowQuiet(ScanRow(s, cols, rows, straight, y, m).cells, cols, rows, y, m, n)
    ensures ScanRow(s, cols, rows, straight, y, n) == ScanRow(s, cols, rows, straight, y, m)
  {
    if n > m {
      ScanRowIdle(s, cols, rows, straight, y, m, n - 1);
      VisitEffect(ScanRow(s, cols, rows, straight, y, n - 1), cols, rows, straight, n - 1, y);
    }
  }

  /** Every cell a row scan changed is the source or the target of a move the
      scan logged. */
  lemma {:induction false} ScanRowExplained(s: Sweep, cols: nat, rows: nat, straight: nat -> bool, y: nat, n: nat, row: nat, c: nat)
    requires Shaped(s.cells, cols, rows) && y + 1 < rows && n <= cols && row < rows && c < cols
    requires ScanRow(s, cols, rows, straight, y, n).cells[row][c] != s.cells[row][c]
    ensures var r := ScanRow(s, cols, rows, straight, y, n);
      exists i :: |s.moves| <= i < |r.moves| && Touches(r.moves[i], c, row)
  {
    if n > 0 {
      var t := ScanRow(s, cols, rows, straight, y, n - 1);
      var r := Visit(t, cols, rows, straight, n - 1, y);
      ScanRowAppends(s, cols, rows, straight, y, n - 1);
      VisitMoves(t, cols, rows, straight, n - 1, y);
      if t.cells[row][c] != s.cells[row][c] {
        ScanRowExplained(s, cols, rows, straight, y, n - 1, row, c);
        var i :| |s.moves| <= i < |t.moves| && Touches(t.moves[i], c, row);
        assert r.moves[i] == r.moves[..|t.moves|][i];
      } else {
        assert Touches(r.moves[|t.moves|], c, row);
      }
    }
  }

  // ---------------------------------------------------------------------
  // Several rows

  /** Once the scan has done `m` rows, the rows it does next up to the `n`-th
      change nothing if none of their cells is eligible at that point. */
  lemma {:induction false} ScanRowsIdle(s: Sweep, cols: nat, rows: nat, straight: nat -> bool, m: nat, n: nat)
    requires Shaped(s.cells, cols, rows) && m <= n < rows
    requires forall y :: rows - 1 - n <= y < rows - 1 - m ==> RowQuiet(ScanRows(s, cols, rows, straight, m).cells, cols, rows, y, 0, cols)
    ensures ScanRows(s, cols, rows, straight, n) == ScanRows(s, cols, rows, straight, m)
  {
    if n > m {
      ScanRowsIdle(s, cols, rows, straight, m, n - 1);
      var t := ScanRows(s, cols, rows, straight, m);
      ScanRowIdle(t, cols, rows, straight, rows - 1 - n, 0, cols);
    }
  }

  lemma {:induction false} ScanRowsConserves(s: Sweep, cols: nat, rows: nat, straight: nat -> bool, n: nat)
    requires Shaped(s.cells, cols, rows) && n < rows
    ensures var r := ScanRows(s, cols, rows, straight, n);
      Conserved(s, r, cols, rows)
  {
    if n > 0 {
      var t := ScanRows(s, cols, rows, straight, n - 1);
      ScanRowsConserves(s, cols, rows, straight, n - 1);
      ScanRowConserves(t, cols, rows, straight, rows - 1 - n, cols);
      ConservedTrans(s, t, ScanRow(t, cols, rows, straight, rows - 1 - n, cols), cols, rows);
    }
  }

  lemma {:induction false} ScanRowsKeepsBottom(s: Sweep, cols: nat, rows: nat, straight: nat -> bool, n: nat)
    requires Shaped(s.cells, cols, rows) && n < rows
    ensures var r := ScanRows(s, cols, rows, straight, n);
      RowKept(s.cells, r.cells, cols, rows, rows - 1)
  {
    if n > 0 {
      ScanRowsKeepsBottom(s, cols, rows, straight, n - 1);
      ScanRowKeepsBottom(ScanRows(s, cols, rows, straight, n - 1), cols, rows, straight, rows - 1 - n, cols);
    }
  }

  /** Every cell a scan of rows changed is the source or the target of a
      move the scan logged. */
  lemma {:induction false} ScanRowsExplained(s: Sweep, cols: nat, rows: nat, straight: nat -> bool, n: nat, row: nat, c: nat)
    requires Shaped(s.cells, cols, rows) && n < rows && row < rows && c < cols
    requires ScanRows(s, cols, rows, straight, n).cells[row][c] != s.cells[row][c]
    ensures var r := ScanRows(s, cols, rows, straight, n);
      exists i :: 0 <= i < |r.moves| && Touches(r.moves[i], c, row)
  {
    if n > 0 {
      var t := ScanRows(s, cols, rows, straight, n - 1);
      var y := rows - 1 - n;
      var r := ScanRow(t, cols, rows, straight, y, cols);
      ScanRowAppends(t, cols, rows, straight, y, cols);
      if t.cells[row][c] != s.cells[row][c] {
        ScanRowsExplained(s, cols, rows, straight, n - 1, row, c);
        var i :| 0 <= i < |t.moves| && Touches(t.moves[i], c, row);
        assert r.moves[i] == r.moves[..|t.moves|][i];
      } else {
        ScanRowExplained(t, cols, rows, straight, y, cols, row, c);
      }
    }
  }

  /** Starting from an empty log, after `n` rows every logged move is
      downward, the log is ordered bottom-up, and no move starts above the
      last row scanned. */
  lemma {:induction false} ScanRowsLog(s: Sweep, cols: nat, rows: nat, straight: nat -> bool, n: nat)
    requires Shaped(s.cells, cols, rows) && n < rows && s.moves == []
    ensures var ms := ScanRows(s, cols, rows, straight, n).moves;
      Downward(ms, cols, rows) && BottomUp(ms) && StartsBelow(ms, rows - 1 - n)
  {
    if n > 0 {
      var t := ScanRows(s, cols, rows, straight, n - 1);
      var y := rows - 1 - n;
      ScanRowsLog(s, cols, rows, straight, n - 1);
      ScanRowAppends(t, cols, rows, straight, y, cols);
      ScanRowMoves(t, cols, rows, straight, y, cols);
      var r := ScanRow(t, cols, rows, straight, y, cols);
      LogExtend(t.moves, r.moves, t.cells, cols, rows, y);
    }
  }

  /** Appending moves of row `y` to a log of the rows below keeps it downward
      and bottom-up. */
  lemma LogExtend(ms: seq<Move>, ns: seq<Move>, g: seq<seq<bool>>, cols: nat, rows: nat, y: nat)
    requires Shaped(g, cols, rows) && y + 2 <= rows
    requires |ms| <= |ns| && ns[..|ms|] == ms
    requires Downward(ms, cols, rows) && BottomUp(ms) && StartsBelow(ms, y + 1)
    requires forall i :: |ms| <= i < |ns| ==> RowMove(ns[i], g, cols, rows, y, cols)
    ensures Downward(ns, cols, rows) && BottomUp(ns) && StartsBelow(ns, y)
  {
    assert forall i :: 0 <= i < |ms| ==> ns[i] == ms[i] by {
      assert forall i :: 0 <= i < |ms| ==> ns[..|ms|][i] == ns[i];
    }
  }

  /** Starting from an empty log, every move off the grid skipped from a cell
      of row `rows - 2` that was eligible in the starting grid. */
  lemma {:induction false} ScanRowsLost(s: Sweep, cols: nat, rows: nat, straight: nat -> bool, n: nat)
    requires Shaped(s.cells, cols, rows) && n < rows && s.moves == []
    ensures LostFromEdge(ScanRows(s, cols, rows, straight, n).moves, s.cells, cols, rows)
  {
    if n > 0 {
      var t := ScanRows(s, cols, rows, straight, n - 1);
      var y := rows - 1 - n;
      ScanRowsLost(s, cols, rows, straight, n - 1);
      ScanRowAppends(t, cols, rows, straight, y, cols);
      ScanRowMoves(t, cols, rows, straight, y, cols);
      var r := ScanRow(t, cols, rows, straight, y, cols);
      assert forall i :: 0 <= i < |t.moves| ==> r.moves[i] == t.moves[i] by {
        assert r.moves[..|t.moves|] == t.moves;
      }
      if n == 1 {
        assert t == s;
      }
    }
  }

  // ---------------------------------------------------------------------
  // One step

  /** The grains left after `step` plus the grains it sent off the bottom
      edge equal the grains before, in the whole grid and in every column. So
      material never crosses between columns. */
  lemma StepConserves(g: seq<seq<bool>>, cols: nat, rows: nat, straight: nat -> bool)
    requires Shaped(g, cols, rows) && rows >= 1
    ensures var r := StepSweep(g, cols, rows, straight);
      Occupied(r.cells, cols, rows) + Lost(r.moves, rows) == Occupied(g, cols, rows)
      && forall c :: 0 <= c < cols ==>
           ColumnCount(r.cells, cols, rows, c) + LostIn(r.moves, rows, c) == ColumnCount(g, cols, rows, c)
  {
    ScanRowsConserves(Sweep(g, 0, []), cols, rows, straight, rows - 1);
  }

  /** `step` never adds a grain, to the grid or to any column. */
  lemma StepNeverAdds(g: seq<seq<bool>>, cols: nat, rows: nat, straight: nat -> bool)
    requires Shaped(g, cols, rows) && rows >= 1
    ensures var r := StepSweep(g, cols, rows, straight);
      Occupied(r.cells, cols, rows) <= Occupied(g, cols, rows)
      && forall c :: 0 <= c < cols ==> ColumnCount(r.cells, cols, rows, c) <= ColumnCount(g, cols, rows, c)
  {
    StepConserves(g, cols, rows, straight);
  }

  /** Every move of a step stays in its column and goes one or two rows down;
      moves happen bottom-up, so no move starts where an earlier move of the
      same step put a grain: each grain moves at most once per step. A grain
      is lost only when it skipped from row `rows - 2`, where it was eligible
      in the grid before the step. */
  lemma StepMoves(g: seq<seq<bool>>, cols: nat, rows: nat, straight: nat -> bool)
    requires Shaped(g, cols, rows) && rows >= 1
    ensures var ms := StepSweep(g, cols, rows, straight).moves;
      Downward(ms, cols, rows) && BottomUp(ms)
      && (forall i, j :: 0 <= i < j < |ms| ==> ms[j].from < ms[i].to)
      && LostFromEdge(ms, g, cols, rows)
  {
    ScanRowsLog(Sweep(g, 0, []), cols, rows, straight, rows - 1);
    ScanRowsLost(Sweep(g, 0, []), cols, rows, straight, rows - 1);
  }

  /** `step` changes no cell that is not the source or the target of one of
      its logged moves; with `StepConserves` and `VisitMoves`, it moves grains
      and destroys the ones it sends off the bottom edge, and nothing else. */
  lemma StepExplained(g: seq<seq<bool>>, cols: nat, rows: nat, straight: nat -> bool)
    requires Shaped(g, cols, rows) && rows >= 1
    ensures var r := StepSweep(g, cols, rows, straight);
      forall y, c :: 0 <= y < rows && 0 <= c < cols && r.cells[y][c] != g[y][c] ==>
        exists i :: 0 <= i < |r.moves| && Touches(r.moves[i], c, y)
  {
    var r := StepSweep(g, cols, rows, straight);
    forall y, c | 0 <= y < rows && 0 <= c < cols && r.cells[y][c] != g[y][c]
      ensures exists i :: 0 <= i < |r.moves| && Touches(r.moves[i], c, y)
    {
      ScanRowsExplained(Sweep(g, 0, []), cols, rows, straight, rows - 1, y, c);
    }
  }

  /** If no grain of row `rows - 2` is eligible, `step` loses nothing and the
      number of grains is exactly conserved. */
  lemma StepConservesAwayFromEdge(g: seq<seq<bool>>, cols: nat, rows: nat, straight: nat -> bool)
    requires Shaped(g, cols, rows) && rows >= 2
    requires RowQuiet(g, cols, rows, rows - 2, 0, cols)
    ensures Occupied(StepSweep(g, cols, rows, straight).cells, cols, rows) == Occupied(g, cols, rows)
  {
    StepConserves(g, cols, rows, straight);
    StepMoves(g, cols, rows, straight);
    NoneLost(StepSweep(g, cols, rows, straight).moves, rows);
  }

  lemma {:induction false} NoneLost(ms: seq<Move>, rows: nat)
    requires forall i :: 0 <= i < |ms| ==> ms[i].to < rows
    ensures Lost(ms, rows) == 0
  {
    if ms != [] {
      NoneLost(ms[..|ms| - 1], rows);
    }
  }

  /** `step` never clears a cell of the bottom row. */
  lemma StepKeepsBottom(g: seq<seq<bool>>, cols: nat, rows: nat, straight: nat -> bool)
    requires Shaped(g, cols, rows) && rows >= 1
    ensures RowKept(g, StepSweep(g, cols, rows, straight).cells, cols, rows, rows - 1)
  {
    ScanRowsKeepsBottom(Sweep(g, 0, []), cols, rows, straight, rows - 1);
  }

  /** On a settled grid `step` takes no draw and changes nothing. */
  lemma StepOnSettled(g: seq<seq<bool>>, cols: nat, rows: nat, straight: nat -> bool)
    requires Shaped(g, cols, rows) && rows >= 1 && Settled(g, cols, rows)
    ensures StepSweep(g, cols, rows, straight) == Sweep(g, 0, [])
  {
    ScanRowsIdle(Sweep(g, 0, []), cols, rows, straight, 0, rows - 1);
  }

  /** A grid with a single grain at (x, y) above the bottom row: the grain
      takes the first draw of the step and moves exactly once, one row down
      on a straight draw, two rows down otherwise, and it is destroyed when
      the two-row skip leaves the grid. */
  lemma {:induction false} LoneGrainStep(cols: nat, rows: nat, x: nat, y: nat, straight: nat -> bool)
    requires x < cols && y + 1 < rows
    ensures var r := StepSweep(Lone(cols, rows, x, y), cols, rows, straight);
      r.draws == 1
      && if straight(0) then
           r.cells == Lone(cols, rows, x, y + 1) && r.moves == [Move(x, y, y + 1)]
         else if y + 2 < rows then
           r.cells == Lone(cols, rows, x, y + 2) && r.moves == [Move(x, y, y + 2)]
         else
           r.cells == Blank(cols, rows) && r.moves == [Move(x, y, y + 2)]
  {
    var g := Lone(cols, rows, x, y);
    var s0 := Sweep(g, 0, []);
    var m := rows - 2 - y;
    // the rows below y hold nothing
    ScanRowsIdle(s0, cols, rows, straight, 0, m);
    // in row y, the columns left of x hold nothing
    ScanRowIdle(s0, cols, rows, straight, y, 0, x);
    assert ScanRow(s0, cols, rows, straight, y, x + 1) == Visit(s0, cols, rows, straight, x, y);
    var s1 := Visit(s0, cols, rows, straight, x, y);
    PutPut(Blank(cols, rows), cols, rows, x, y, true, false);
    PutSame(Blank(cols, rows), cols, rows, x, y);
    assert Put(g, cols, rows, x, y, false) == Blank(cols, rows);
    // the columns right of x, and the rows above y, hold nothing afterwards
    ScanRowIdle(s0, cols, rows, straight, y, x + 1, cols);
    assert ScanRows(s0, cols, rows, straight, m + 1) == s1;
    ScanRowsIdle(s0, cols, rows, straight, m + 1, rows - 1);
  }

  /** The two-row skip from row `rows - 2` destroys the grain: a lone grain
      there with a skip draw leaves an empty grid. */
  lemma SkipOffBottomDestroysGrain(cols: nat, rows: nat, x: nat, straight: nat -> bool)
    requires x < cols && rows >= 2 && !straight(0)
    ensures Occupied(Lone(cols, rows, x, rows - 2), cols, rows) == 1
    ensures Occupied(StepSweep(Lone(cols, rows, x, rows - 2), cols, rows, straight).cells, cols, rows) == 0
  {
    LoneHoldsOne(cols, rows, x, rows - 2);
    LoneGrainStep(cols, rows, x, rows - 2, straight);
    BlankIsEmpty(cols, rows);
  }

  /** A 4 x 4 grid with grains at (1, 0) and (1, 2), and two skip draws. Row 2
      is scanned first: its grain skips off the grid and is destroyed. Then
      the grain at (1, 0) is eligible, skips, and lands in the cell (1, 2) the
      first one left. One grain remains. */
  lemma TwoGrainColumn(straight: nat -> bool)
    requires !straight(0) && !straight(1)
    ensures var g := Put(Lone(4, 4, 1, 0), 4, 4, 1, 2, true);
      var r := StepSweep(g, 4, 4, straight);
      r.cells == Lone(4, 4, 1, 2) && r.draws == 2 && r.moves == [Move(1, 2, 4), Move(1, 0, 2)]
      && Occupied(g, 4, 4) == 2 && Occupied(r.cells, 4, 4) == 1
  {
    var top := Lone(4, 4, 1, 0);
    var g := Put(top, 4, 4, 1, 2, true);
    var s0 := Sweep(g, 0, []);
    // row 2: the grain at (1, 2) skips to row 4, off the grid
    ScanRowIdle(s0, 4, 4, straight, 2, 0, 1);
    PutPut(top, 4, 4, 1, 2, true, false);
    PutSame(top, 4, 4, 1, 2);
    var s1 := Sweep(top, 1, [Move(1, 2, 4)]);
    assert ScanRow(s0, 4, 4, straight, 2, 2) == s1;
    ScanRowIdle(s0, 4, 4, straight, 2, 2, 4);
    assert ScanRows(s0, 4, 4, straight, 1) == s1;
    // row 1 is empty
    ScanRowsIdle(s0, 4, 4, straight, 1, 2);
    // row 0: the grain at (1, 0) skips into the emptied cell (1, 2)
    ScanRowIdle(s1, 4, 4, straight, 0, 0, 1);
    PutPut(Blank(4, 4), 4, 4, 1, 0, true, false);
    PutSame(Blank(4, 4), 4, 4, 1, 0);
    var s2 := Sweep(Lone(4, 4, 1, 2), 2, [Move(1, 2, 4), Move(1, 0, 2)]);
    assert ScanRow(s1, 4, 4, straight, 0, 2) == s2;
    ScanRowIdle(s1, 4, 4, straight, 0, 2, 4);
    assert ScanRows(s0, 4, 4, straight, 3) == s2;
    // counts
    LoneHoldsOne(4, 4, 1, 0);
    LoneHoldsOne(4, 4, 1, 2);
    OccupiedPut(top, 4, 4, 1, 2, true);
  }
}
