/** The falling-sand grid of Rusty Sandfall and its rendering into an image.

    The grid's cells are a sequence of rows, each a sequence of booleans,
    that its methods replace cell by cell; the column and row counts are
    fixed at construction. The random draws of `random_fill` and `step` are
    passed in as functions (see modules Fill and Settle). */
module Sandfall {
  import opened Cells
  import Fill
  import Settle

  /** The two colours a pixel is painted with. */
  datatype Colour = Gold | Black

  class Grid {
    const cols: nat
    const rows: nat
    var cells: seq<seq<bool>>

    ghost predicate Valid()
      reads this
    {
      Shaped(cells, cols, rows)
    }

    /** `Grid::new(w, h)`: `h` rows of `w` empty cells. */
    constructor (w: nat, h: nat)
      ensures Valid()
      ensures cols == w && rows == h && cells == Blank(w, h)
      ensures forall x, y :: !Get(x, y)
    {
      cols, rows := w, h;
      cells := Blank(w, h);
    }

    /** `get`: off-grid coordinates read as empty. */
    function Get(x: nat, y: nat): (b: bool)
      reads this
      requires Valid()
      ensures x >= cols || y >= rows ==> !b
      ensures x < cols && y < rows ==> b == cells[y][x]
    {
      At(cells, cols, rows, x, y)
    }

    /** `set`: an on-grid write replaces that one cell, unconditionally; an
        off-grid write is ignored. */
    method Set(x: nat, y: nat, v: bool)
      requires Valid()
      modifies this
      ensures Valid()
      ensures cells == Put(old(cells), cols, rows, x, y, v)
      ensures x < cols && y < rows ==> Get(x, y) == v
      ensures forall x', y' :: x' != x || y' != y ==> Get(x', y') == old(Get(x', y'))
    {
      if x < cols && y < rows {
        cells := cells[y := cells[y][x := v]];
      }
    }

    /** `random_fill`: rows `0` to `rows - 2`, each left to right, turning on
        every cell whose draw hit; `below(x, y)` is that draw. */
    method RandomFill(below: (nat, nat) -> bool)
      requires Valid() && rows >= 1
      modifies this
      ensures Valid()
      ensures cells == Fill.Seeded(old(cells), cols, rows, below)
      ensures Occupied(old(cells), cols, rows) <= Occupied(cells, cols, rows)
    {
      ghost var g0 := cells;
      var y := 0;
      while y < rows - 1
        invariant 0 <= y <= rows - 1
        invariant Valid()
        invariant forall y', x' :: 0 <= y' < rows && 0 <= x' < cols ==>
          cells[y'][x'] == (g0[y'][x'] || (y' < y && below(x', y')))
      {
        var x := 0;
        while x < cols
          invariant 0 <= x <= cols
          invariant Valid()
          invariant forall y', x' :: 0 <= y' < rows && 0 <= x' < cols ==>
            cells[y'][x'] == (g0[y'][x'] || ((y' < y || (y' == y && x' < x)) && below(x', y')))
        {
          if below(x, y) {
            Set(x, y, true);
          }
          x := x + 1;
        }
        y := y + 1;
      }
      ghost var r := Fill.Seeded(g0, cols, rows, below);
      assert forall y' :: 0 <= y' < rows ==> cells[y'] == r[y'];
      Fill.SeededNeverRemoves(g0, cols, rows, below);
    }

    /** `step`: rows `rows - 2` up to `0`, each left to right; an occupied cell
        above an empty one takes the next draw `straight(k)` and falls one
        row, or else skips two rows if that cell reads as empty. */
    method Step(straight: nat -> bool)
      requires Valid() && rows >= 1
      modifies this
      ensures Valid()
      ensures cells == Settle.StepSweep(old(cells), cols, rows, straight).cells
    {
      ghost var s0 := Settle.Sweep(cells, 0, []);
      ghost var s := s0;
      var k := 0;
      var y := rows - 1;
      while y > 0
        invariant 0 <= y <= rows - 1
        invariant Valid()
        invariant s == Settle.ScanRows(s0, cols, rows, straight, rows - 1 - y)
        invariant s.cells == cells && s.draws == k
      {
        y := y - 1;
        ghost var sr := s;
        var x := 0;
        while x < cols
          invariant 0 <= x <= cols
          invariant Valid()
          invariant s == Settle.ScanRow(sr, cols, rows, straight, y, x)
          invariant s.cells == cells && s.draws == k
        {
          ghost var next := Settle.Visit(s, cols, rows, straight, x, y);
          if Get(x, y) && !Get(x, y + 1) {
            var fall := straight(k);
            k := k + 1;
            if fall {
              Set(x, y, false);
              Set(x, y + 1, true);
            } else if !Get(x, y + 2) {
              Set(x, y, false);
              Set(x, y + 2, true);
            }
          }
          assert cells == next.cells && k == next.draws;
          s := next;
          x := x + 1;
        }
      }
    }

    /** `draw`: paints pixel (x, y) gold when cell (x, y) is occupied and
        black otherwise; the grid itself is not changed, nor are pixels of a
        larger image outside the grid. */
    method Draw(img: array2<Colour>)
      requires Valid()
      requires cols <= img.Length0 && rows <= img.Length1
      modifies img
      ensures forall x, y :: 0 <= x < cols && 0 <= y < rows ==> (img[x, y] == Gold <==> Get(x, y))
      ensures forall x, y :: 0 <= x < img.Length0 && 0 <= y < img.Length1 && (cols <= x || rows <= y) ==>
        img[x, y] == old(img[x, y])
      ensures unchanged(this)
    {
      var y := 0;
      while y < rows
        invariant 0 <= y <= rows
        invariant forall x', y' :: 0 <= x' < cols && 0 <= y' < y ==> (img[x', y'] == Gold <==> Get(x', y'))
        invariant forall x', y' :: 0 <= x' < img.Length0 && 0 <= y' < img.Length1 && (cols <= x' || y <= y') ==>
          img[x', y'] == old(img[x', y'])
      {
        var x := 0;
        while x < cols
          invariant 0 <= x <= cols
          invariant forall x', y' :: 0 <= x' < cols && 0 <= y' < y ==> (img[x', y'] == Gold <==> Get(x', y'))
          invariant forall x' :: 0 <= x' < x ==> (img[x', y] == Gold <==> Get(x', y))
          invariant forall x', y' :: 0 <= x' < img.Length0 && 0 <= y' < img.Length1 && (cols <= x' || y < y' || (y' == y && x <= x')) ==>
            img[x', y'] == old(img[x', y'])
        {
          var colour;
          if Get(x, y) {
            colour := Gold;
          } else {
            colour := Black;
          }
          img[x, y] := colour;
          x := x + 1;
        }
        y := y + 1;
      }
    }
  }
}
