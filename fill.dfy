/** What `random_fill` does to the grid, as a function of the grid before and
    of the random draws. The draw for cell (x, y) is given as `below(x, y)`:
    true exactly when the uniform draw fell below that row's probability.
    How the probabilities are computed (floating point) is not modelled. */
module Fill {
  import opened Cells

  /** Every cell above the bottom row whose draw hit is turned on; nothing is
      ever turned off, and the bottom row is not visited. */
  function Seeded(g: seq<seq<bool>>, cols: nat, rows: nat, below: (nat, nat) -> bool): (r: seq<seq<bool>>)
    requires Shaped(g, cols, rows)
    ensures Shaped(r, cols, rows)
    ensures Covers(g, r, cols, rows)
    ensures rows > 0 ==> r[rows - 1] == g[rows - 1]
    ensures forall y, x :: 0 <= y < rows && 0 <= x < cols && r[y][x] && !g[y][x] ==> y + 1 < rows && below(x, y)
    ensures forall y, x :: 0 <= y < rows - 1 && 0 <= x < cols && below(x, y) ==> r[y][x]
  {
    seq(rows, y requires 0 <= y < rows =>
      seq(cols, x requires 0 <= x < cols => g[y][x] || (y + 1 < rows && below(x, y))))
  }

  /** Filling never removes a grain: every column, and the grid as a whole,
      holds at least as many grains afterwards. */
  lemma SeededNeverRemoves(g: seq<seq<bool>>, cols: nat, rows: nat, below: (nat, nat) -> bool)
    requires Shaped(g, cols, rows)
    ensures var r := Seeded(g, cols, rows, below);
      (forall c :: 0 <= c < cols ==> ColumnCount(g, cols, rows, c) <= ColumnCount(r, cols, rows, c))
      && Occupied(g, cols, rows) <= Occupied(r, cols, rows)
  {
    CoversCounts(g, Seeded(g, cols, rows, below), cols, rows);
  }

  /** Filling a freshly built grid leaves its bottom row entirely empty. */
  lemma FreshFillBottomEmpty(cols: nat, rows: nat, below: (nat, nat) -> bool)
    requires rows > 0
    ensures Seeded(Blank(cols, rows), cols, rows, below)[rows - 1] == seq(cols, _ => false)
  {
  }
}
