/** The occupancy of a sand grid as a value: `g[y][x]` is cell (x, y), row 0 is
    the top and row `rows - 1` the bottom. The class `Sandfall.Grid` stores
    such a value; the step and fill specifications compute on it. */
module Cells {

  /** `g` has `rows` rows of `cols` cells each. */
  predicate Shaped(g: seq<seq<bool>>, cols: nat, rows: nat) {
    |g| == rows && forall y :: 0 <= y < rows ==> |g[y]| == cols
  }

  /** The grid `Grid::new(cols, rows)` builds: every cell empty. */
  function Blank(cols: nat, rows: nat): (g: seq<seq<bool>>)
    ensures Shaped(g, cols, rows)
    ensures forall y, x :: 0 <= y < rows && 0 <= x < cols ==> !g[y][x]
  {
    seq(rows, _ => seq(cols, _ => false))
  }

  /** Reading a cell as `get` does: off-grid coordinates read as empty. */
  function At(g: seq<seq<bool>>, cols: nat, rows: nat, x: nat, y: nat): (b: bool)
    requires Shaped(g, cols, rows)
    ensures x >= cols || y >= rows ==> !b
    ensures x < cols && y < rows ==> b == g[y][x]
  {
    if x < cols && y < rows then g[y][x] else false
  }

  /** Writing a cell as `set` does: off-grid writes are ignored, on-grid
      writes replace that one cell whatever it held. */
  function Put(g: seq<seq<bool>>, cols: nat, rows: nat, x: nat, y: nat, v: bool): (r: seq<seq<bool>>)
    requires Shaped(g, cols, rows)
    ensures Shaped(r, cols, rows)
    ensures forall y', x' :: 0 <= y' < rows && 0 <= x' < cols ==>
      r[y'][x'] == if y' == y && x' == x then v else g[y'][x']
  {
    if x < cols && y < rows then g[y := g[y][x := v]] else g
  }

  /** The grid holding exactly one grain, at (x, y). */
  function Lone(cols: nat, rows: nat, x: nat, y: nat): (g: seq<seq<bool>>)
    requires x < cols && y < rows
    ensures Shaped(g, cols, rows)
    ensures forall y', x' :: 0 <= y' < rows && 0 <= x' < cols ==> (g[y'][x'] <==> y' == y && x' == x)
  {
    Put(Blank(cols, rows), cols, rows, x, y, true)
  }

  function Bit(b: bool): nat {
    if b then 1 else 0
  }

  /** Number of occupied cells of column `c` among the top `n` rows. */
  function ColumnCountTo(g: seq<seq<bool>>, cols: nat, rows: nat, c: nat, n: nat): nat
    requires Shaped(g, cols, rows) && c < cols && n <= rows
  {
    if n == 0 then 0 else ColumnCountTo(g, cols, rows, c, n - 1) + Bit(g[n - 1][c])
  }

  /** Number of occupied cells of column `c`. */
  function ColumnCount(g: seq<seq<bool>>, cols: nat, rows: nat, c: nat): nat
    requires Shaped(g, cols, rows) && c < cols
  {
    ColumnCountTo(g, cols, rows, c, rows)
  }

  /** Number of occupied cells in the leftmost `m` columns. */
  function OccupiedTo(g: seq<seq<bool>>, cols: nat, rows: nat, m: nat): nat
    requires Shaped(g, cols, rows) && m <= cols
  {
    if m == 0 then 0 else OccupiedTo(g, cols, rows, m - 1) + ColumnCount(g, cols, rows, m - 1)
  }

  /** Number of occupied cells of the whole grid. */
  function Occupied(g: seq<seq<bool>>, cols: nat, rows: nat): nat
    requires Shaped(g, cols, rows)
  {
    OccupiedTo(g, cols, rows, cols)
  }

  /** Every cell occupied in `g` is occupied in `h`. */
  predicate Covers(g: seq<seq<bool>>, h: seq<seq<bool>>, cols: nat, rows: nat)
    requires Shaped(g, cols, rows) && Shaped(h, cols, rows)
  {
    forall y, x :: 0 <= y < rows && 0 <= x < cols ==> (g[y][x] ==> h[y][x])
  }

  /** `get` after `set`: the written cell reads back the written value, and
      every other coordinate reads as before; an off-grid write changes nothing. */
  lemma GetAfterSet(g: seq<seq<bool>>, cols: nat, rows: nat, x: nat, y: nat, v: bool, x': nat, y': nat)
    requires Shaped(g, cols, rows)
    ensures At(Put(g, cols, rows, x, y, v), cols, rows, x', y') ==
      if x' == x && y' == y && x < cols && y < rows then v else At(g, cols, rows, x', y')
    ensures !(x < cols && y < rows) ==> Put(g, cols, rows, x, y, v) == g
  {
  }

  /** Writing back the value a cell already holds restores the grid. */
  lemma PutSame(g: seq<seq<bool>>, cols: nat, rows: nat, x: nat, y: nat)
    requires Shaped(g, cols, rows) && x < cols && y < rows
    ensures Put(g, cols, rows, x, y, g[y][x]) == g
  {
    assert g[y][x := g[y][x]] == g[y];
  }

  /** A second write to the same cell overrides the first. */
  lemma PutPut(g: seq<seq<bool>>, cols: nat, rows: nat, x: nat, y: nat, v: bool, w: bool)
    requires Shaped(g, cols, rows)
    ensures Put(Put(g, cols, rows, x, y, v), cols, rows, x, y, w) == Put(g, cols, rows, x, y, w)
  {
    if x < cols && y < rows {
      assert g[y][x := v][x := w] == g[y][x := w];
    }
  }

  /** A write changes the count of its own column by the difference of the
      new and the old value, and leaves every other column's count alone. */
  lemma {:induction false} ColumnCountPut(g: seq<seq<bool>>, cols: nat, rows: nat, x: nat, y: nat, v: bool, c: nat, n: nat)
    requires Shaped(g, cols, rows) && c < cols && n <= rows
    ensures ColumnCountTo(Put(g, cols, rows, x, y, v), cols, rows, c, n) as int ==
      ColumnCountTo(g, cols, rows, c, n) as int + (if c == x && y < n then Bit(v) as int - Bit(g[y][x]) as int else 0)
  {
    if n > 0 {
      ColumnCountPut(g, cols, rows, x, y, v, c, n - 1);
    }
  }

  /** A write changes the number of occupied cells by the difference of the
      new and the old value of that cell; an off-grid write changes nothing. */
  lemma {:induction false} OccupiedPut(g: seq<seq<bool>>, cols: nat, rows: nat, x: nat, y: nat, v: bool)
    requires Shaped(g, cols, rows)
    ensures Occupied(Put(g, cols, rows, x, y, v), cols, rows) as int ==
      Occupied(g, cols, rows) as int + (if x < cols && y < rows then Bit(v) as int - Bit(g[y][x]) as int else 0)
  {
    OccupiedToPut(g, cols, rows, x, y, v, cols);
  }

  lemma {:induction false} OccupiedToPut(g: seq<seq<bool>>, cols: nat, rows: nat, x: nat, y: nat, v: bool, m: nat)
    requires Shaped(g, cols, rows) && m <= cols
    ensures OccupiedTo(Put(g, cols, rows, x, y, v), cols, rows, m) as int ==
      OccupiedTo(g, cols, rows, m) as int + (if x < m && y < rows then Bit(v) as int - Bit(g[y][x]) as int else 0)
  {
    if m > 0 {
      OccupiedToPut(g, cols, rows, x, y, v, m - 1);
      ColumnCountPut(g, cols, rows, x, y, v, m - 1, rows);
    }
  }

  /** A freshly built grid holds no grain. */
  lemma {:induction false} BlankIsEmpty(cols: nat, rows: nat)
    ensures Occupied(Blank(cols, rows), cols, rows) == 0
    ensures forall x, y :: !At(Blank(cols, rows), cols, rows, x, y)
  {
    BlankOccupiedTo(cols, rows, cols);
  }

  lemma {:induction false} BlankOccupiedTo(cols: nat, rows: nat, m: nat)
    requires m <= cols
    ensures OccupiedTo(Blank(cols, rows), cols, rows, m) == 0
  {
    if m > 0 {
      BlankOccupiedTo(cols, rows, m - 1);
      BlankColumnCountTo(cols, rows, m - 1, rows);
    }
  }

  lemma {:induction false} BlankColumnCountTo(cols: nat, rows: nat, c: nat, n: nat)
    requires c < cols && n <= rows
    ensures ColumnCountTo(Blank(cols, rows), cols, rows, c, n) == 0
  {
    if n > 0 {
      BlankColumnCountTo(cols, rows, c, n - 1);
    }
  }

  /** A grid holding a single grain holds exactly one. */
  lemma LoneHoldsOne(cols: nat, rows: nat, x: nat, y: nat)
    requires x < cols && y < rows
    ensures Occupied(Lone(cols, rows, x, y), cols, rows) == 1
  {
    BlankIsEmpty(cols, rows);
    OccupiedPut(Blank(cols, rows), cols, rows, x, y, true);
  }

  /** Turning cells on never lowers a count: if `h` covers `g`, every column
      of `h` and the whole of `h` hold at least as many grains as `g`. */
  lemma {:induction false} CoversCounts(g: seq<seq<bool>>, h: seq<seq<bool>>, cols: nat, rows: nat)
    requires Shaped(g, cols, rows) && Shaped(h, cols, rows) && Covers(g, h, cols, rows)
    ensures forall c :: 0 <= c < cols ==> ColumnCount(g, cols, rows, c) <= ColumnCount(h, cols, rows, c)
    ensures Occupied(g, cols, rows) <= Occupied(h, cols, rows)
  {
    forall c | 0 <= c < cols
      ensures ColumnCount(g, cols, rows, c) <= ColumnCount(h, cols, rows, c)
    {
      CoversColumnCountTo(g, h, cols, rows, c, rows);
    }
    CoversOccupiedTo(g, h, cols, rows, cols);
  }

  lemma {:induction false} CoversColumnCountTo(g: seq<seq<bool>>, h: seq<seq<bool>>, cols: nat, rows: nat, c: nat, n: nat)
    requires Shaped(g, cols, rows) && Shaped(h, cols, rows) && Covers(g, h, cols, rows)
    requires c < cols && n <= rows
    ensures ColumnCountTo(g, cols, rows, c, n) <= ColumnCountTo(h, cols, rows, c, n)
  {
    if n > 0 {
      CoversColumnCountTo(g, h, cols, rows, c, n - 1);
    }
  }

  lemma {:induction false} CoversOccupiedTo(g: seq<seq<bool>>, h: seq<seq<bool>>, cols: nat, rows: nat, m: nat)
    requires Shaped(g, cols, rows) && Shaped(h, cols, rows) && Covers(g, h, cols, rows)
    requires m <= cols
    ensures OccupiedTo(g, cols, rows, m) <= OccupiedTo(h, cols, rows, m)
  {
    if m > 0 {
      CoversOccupiedTo(g, h, cols, rows, m - 1);
      CoversColumnCountTo(g, h, cols, rows, m - 1, rows);
    }
  }
}
