// The ocean variant of Conway's game of life: rocks (1) never change, fish (2)
// and shrimp (3) survive or are born by counting their own kind among the up to
// eight neighbouring cells, and every other value is cleared to empty (0).

module LifeGame {

  const Empty := 0
  const Rock := 1
  const Fish := 2
  const Shrimp := 3

  function Max(a: int, b: int): int { if a < b then b else a }
  function Min(a: int, b: int): int { if a < b then a else b }

  /** Every row of `g` has `w` cells. */
  predicate Rect(g: seq<seq<int>>, w: nat) {
    forall y :: 0 <= y < |g| ==> |g[y]| == w
  }

  /** Cells `lo <= nx < hi` of `row` holding `kind`, skipping column `skip`. */
  function CountRow(row: seq<int>, skip: int, lo: int, hi: int, kind: int): nat
    requires 0 <= lo <= hi <= |row|
    decreases hi - lo
  {
    if lo == hi then 0
    else CountRow(row, skip, lo, hi - 1, kind) + (if hi - 1 != skip && row[hi - 1] == kind then 1 else 0)
  }

  /** Cells of rows `ylo <= ny < yhi`, columns `xlo <= nx < xhi`, holding `kind`, without cell (y, x). */
  function CountRows(g: seq<seq<int>>, w: nat, y: int, x: int, ylo: int, yhi: int, xlo: int, xhi: int, kind: int): nat
    requires Rect(g, w) && 0 <= ylo <= yhi <= |g| && 0 <= xlo <= xhi <= w
    decreases yhi - ylo
  {
    if ylo == yhi then 0 else
      var skip := if yhi - 1 == y then x else -1;
      CountRows(g, w, y, x, ylo, yhi - 1, xlo, xhi, kind) + CountRow(g[yhi - 1], skip, xlo, xhi, kind)
  }

  /** The neighbours of (y, x) holding `kind`: the window of rows y-1..y+1 and columns x-1..x+1 clipped to the grid, less the cell itself. */
  function Neighbours(g: seq<seq<int>>, w: nat, y: int, x: int, kind: int): nat
    requires Rect(g, w) && 0 <= y < |g| && 0 <= x < w
  {
    CountRows(g, w, y, x, Max(0, y - 1), Min(|g|, y + 2), Max(0, x - 1), Min(w, x + 2), kind)
  }

  /** The rule for one cell that is not a rock, from its fish and shrimp neighbour counts. */
  function NextCell(cell: int, fishN: nat, shrimpN: nat): (r: int)
    ensures 0 <= r <= 3
    ensures r == Rock ==> cell == Rock
  {
    match cell
    case 1 => Rock
    case 2 => if fishN == 2 || fishN == 3 then Fish else Empty
    case 3 => if shrimpN == 2 || shrimpN == 3 then Shrimp else Empty
    case 0 => if fishN == 3 then Fish else if shrimpN == 3 then Shrimp else Empty
    case _ => Empty
  }

  /** The next value of cell (y, x), read from the previous generation `g` only. */
  function NextAt(g: seq<seq<int>>, w: nat, y: int, x: int): int
    requires Rect(g, w) && 0 <= y < |g| && 0 <= x < w
  {
    if g[y][x] == Rock then Rock
    else NextCell(g[y][x], Neighbours(g, w, y, x, Fish), Neighbours(g, w, y, x, Shrimp))
  }

  /** The next generation of the whole grid. */
  function NextGrid(g: seq<seq<int>>, w: nat): (r: seq<seq<int>>)
    requires Rect(g, w)
    ensures |r| == |g| && Rect(r, w)
  {
    seq(|g|, y requires 0 <= y < |g| => seq(w, x requires 0 <= x < w => NextAt(g, w, y, x)))
  }

  // ---------------------------------------------------------------- rules

  /** Rocks stay, fish and shrimp survive on two or three of their kind, fish are born on three fish before shrimp on three shrimp, anything else clears. */
  lemma NextRules(g: seq<seq<int>>, w: nat, y: int, x: int)
    requires Rect(g, w) && 0 <= y < |g| && 0 <= x < w
    ensures var r, fishN, shrimpN := NextGrid(g, w)[y][x], Neighbours(g, w, y, x, Fish), Neighbours(g, w, y, x, Shrimp);
      && (g[y][x] == Rock <==> r == Rock)
      && (g[y][x] == Fish ==> (r == Fish <==> fishN == 2 || fishN == 3) && (r != Fish ==> r == Empty))
      && (g[y][x] == Shrimp ==> (r == Shrimp <==> shrimpN == 2 || shrimpN == 3) && (r != Shrimp ==> r == Empty))
      && (g[y][x] == Empty ==> r == (if fishN == 3 then Fish else if shrimpN == 3 then Shrimp else Empty))
      && (g[y][x] !in {Empty, Rock, Fish, Shrimp} ==> r == Empty)
  {
  }

  /** Every cell of the next generation is empty, a rock, a fish or a shrimp. */
  lemma NextInRange(g: seq<seq<int>>, w: nat)
    requires Rect(g, w)
    ensures forall y, x :: 0 <= y < |g| && 0 <= x < w ==> 0 <= NextGrid(g, w)[y][x] <= 3
  {
  }

  // ---------------------------------------------------------------- counting

  /** A row count is at most the width of its range, one less when the skipped column lies inside. */
  lemma {:induction false} RowBound(row: seq<int>, skip: int, lo: int, hi: int)
    requires 0 <= lo <= hi <= |row|
    ensures CountRow(row, skip, lo, hi, Fish) + CountRow(row, skip, lo, hi, Shrimp)
      <= (hi - lo) - (if lo <= skip < hi then 1 else 0)
  {
    if lo < hi {
      RowBound(row, skip, lo, hi - 1);
    }
  }

  /** Window counts are bounded by the window's cells; the row of the centre loses the centre. */
  lemma {:induction false} RowsBound(g: seq<seq<int>>, w: nat, y: int, x: int, ylo: int, yhi: int, xlo: int, xhi: int)
    requires Rect(g, w) && 0 <= ylo <= yhi <= |g| && 0 <= xlo <= xhi <= w
    ensures CountRows(g, w, y, x, ylo, yhi, xlo, xhi, Fish) + CountRows(g, w, y, x, ylo, yhi, xlo, xhi, Shrimp)
      <= (yhi - ylo) * (xhi - xlo) - (if ylo <= y < yhi && xlo <= x < xhi then 1 else 0)
  {
    if ylo < yhi {
      RowsBound(g, w, y, x, ylo, yhi - 1, xlo, xhi);
      RowBound(g[yhi - 1], if yhi - 1 == y then x else -1, xlo, xhi);
      assert (yhi - ylo) * (xhi - xlo) == (yhi - 1 - ylo) * (xhi - xlo) + (xhi - xlo);
    }
  }

  /** A cell has at most eight fish and shrimp neighbours together. */
  lemma NeighboursAtMostEight(g: seq<seq<int>>, w: nat, y: int, x: int)
    requires Rect(g, w) && 0 <= y < |g| && 0 <= x < w
    ensures Neighbours(g, w, y, x, Fish) + Neighbours(g, w, y, x, Shrimp) <= 8
  {
    var ylo, yhi, xlo, xhi := Max(0, y - 1), Min(|g|, y + 2), Max(0, x - 1), Min(w, x + 2);
    RowsBound(g, w, y, x, ylo, yhi, xlo, xhi);
    assert yhi - ylo <= 3 && xhi - xlo <= 3;
    assert (yhi - ylo) * (xhi - xlo) <= 9;
  }

  /** Two grids that agree on the window of (y, x), except maybe on (y, x) itself. */
  ghost predicate SameAround(g: seq<seq<int>>, h: seq<seq<int>>, w: nat, y: int, x: int)
    requires Rect(g, w) && Rect(h, w) && |g| == |h|
  {
    forall ny, nx :: 0 <= ny < |g| && 0 <= nx < w && y - 1 <= ny <= y + 1 && x - 1 <= nx <= x + 1 && (ny != y || nx != x)
      ==> g[ny][nx] == h[ny][nx]
  }

  lemma {:induction false} RowLocal(row: seq<int>, row': seq<int>, skip: int, lo: int, hi: int, kind: int)
    requires 0 <= lo <= hi <= |row| == |row'|
    requires forall nx :: lo <= nx < hi && nx != skip ==> row[nx] == row'[nx]
    ensures CountRow(row, skip, lo, hi, kind) == CountRow(row', skip, lo, hi, kind)
  {
    if lo < hi {
      RowLocal(row, row', skip, lo, hi - 1, kind);
    }
  }

  lemma {:induction false} RowsLocal(g: seq<seq<int>>, h: seq<seq<int>>, w: nat, y: int, x: int,
                                     ylo: int, yhi: int, xlo: int, xhi: int, kind: int)
    requires Rect(g, w) && Rect(h, w) && |g| == |h| && 0 <= ylo <= yhi <= |g| && 0 <= xlo <= xhi <= w
    requires forall ny, nx :: ylo <= ny < yhi && xlo <= nx < xhi && (ny != y || nx != x) ==> g[ny][nx] == h[ny][nx]
    ensures CountRows(g, w, y, x, ylo, yhi, xlo, xhi, kind) == CountRows(h, w, y, x, ylo, yhi, xlo, xhi, kind)
  {
    if ylo < yhi {
      RowsLocal(g, h, w, y, x, ylo, yhi - 1, xlo, xhi, kind);
      RowLocal(g[yhi - 1], h[yhi - 1], if yhi - 1 == y then x else -1, xlo, xhi, kind);
    }
  }

  /** The neighbour counts of (y, x) depend on its eight surrounding cells only, not on the cell itself. */
  lemma NeighboursLocal(g: seq<seq<int>>, h: seq<seq<int>>, w: nat, y: int, x: int, kind: int)
    requires Rect(g, w) && Rect(h, w) && |g| == |h| && 0 <= y < |g| && 0 <= x < w
    requires SameAround(g, h, w, y, x)
    ensures Neighbours(g, w, y, x, kind) == Neighbours(h, w, y, x, kind)
  {
    RowsLocal(g, h, w, y, x, Max(0, y - 1), Min(|g|, y + 2), Max(0, x - 1), Min(w, x + 2), kind);
  }

  /** The cell (y, x) of the next generation is fixed by its old value and its eight surrounding old cells. */
  lemma NextLocal(g: seq<seq<int>>, h: seq<seq<int>>, w: nat, y: int, x: int)
    requires Rect(g, w) && Rect(h, w) && |g| == |h| && 0 <= y < |g| && 0 <= x < w
    requires g[y][x] == h[y][x] && SameAround(g, h, w, y, x)
    ensures NextGrid(g, w)[y][x] == NextGrid(h, w)[y][x]
  {
    NeighboursLocal(g, h, w, y, x, Fish);
    NeighboursLocal(g, h, w, y, x, Shrimp);
  }

  // ---------------------------------------------------------------- the game

  /** The neighbour loops of `_step`: counts fish and shrimp around (y, x) in the snapshot `prev`. */
  method CountAround(prev: seq<seq<int>>, w: nat, y: int, x: int) returns (fishN: nat, shrimpN: nat)
    requires Rect(prev, w) && 0 <= y < |prev| && 0 <= x < w
    ensures fishN == Neighbours(prev, w, y, x, Fish) && shrimpN == Neighbours(prev, w, y, x, Shrimp)
  {
    var ylo, yhi, xlo, xhi := Max(0, y - 1), Min(|prev|, y + 2), Max(0, x - 1), Min(w, x + 2);
    fishN, shrimpN := 0, 0;
    for ny := ylo to yhi
      invariant fishN == CountRows(prev, w, y, x, ylo, ny, xlo, xhi, Fish)
      invariant shrimpN == CountRows(prev, w, y, x, ylo, ny, xlo, xhi, Shrimp)
    {
      ghost var skip := if ny == y then x else -1;
      ghost var fishRows, shrimpRows := fishN, shrimpN;
      for nx := xlo to xhi
        invariant fishN == fishRows + CountRow(prev[ny], skip, xlo, nx, Fish)
        invariant shrimpN == shrimpRows + CountRow(prev[ny], skip, xlo, nx, Shrimp)
      {
        if ny == y && nx == x {
          continue;
        }
        var neighbour := prev[ny][nx];
        if neighbour == Fish {
          fishN := fishN + 1;
        } else if neighbour == Shrimp {
          shrimpN := shrimpN + 1;
        }
      }
    }
  }

  class Game {
    const yMax: nat
    const xMax: nat
    const grid: array2<int>

    ghost predicate Valid()
      reads this
    {
      grid.Length0 == yMax && grid.Length1 == xMax
    }

    /** The current generation, row by row. */
    function Contents(): (r: seq<seq<int>>)
      requires Valid()
      reads this, grid
      ensures |r| == yMax && Rect(r, xMax)
      ensures forall y, x :: 0 <= y < yMax && 0 <= x < xMax ==> r[y][x] == grid[y, x]
    {
      seq(yMax, y reads grid requires 0 <= y < yMax => seq(xMax, x reads grid requires 0 <= x < xMax => grid[y, x]))
    }

    /** `LifeGame.__init__`: a private copy of a non-empty rectangular grid. */
    constructor (data: seq<seq<int>>)
      requires |data| >= 1 && Rect(data, |data[0]|)
      ensures Valid() && fresh(grid)
      ensures yMax == |data| && xMax == |data[0]| && Contents() == data
    {
      yMax := |data|;
      xMax := |data[0]|;
      grid := new int[|data|, |data[0]|]((y, x) requires 0 <= y < |data| && 0 <= x < |data[0]| => data[y][x]);
      new;
      assert forall y :: 0 <= y < yMax ==> Contents()[y] == data[y];
    }

    /** `_step`: every cell is rewritten once, from a snapshot of the previous generation. */
    method Step()
      requires Valid()
      modifies grid
      ensures Valid() && Contents() == NextGrid(old(Contents()), xMax)
    {
      var prevMap := Contents();
      for y := 0 to yMax
        invariant forall i, j :: 0 <= i < y && 0 <= j < xMax ==> grid[i, j] == NextAt(prevMap, xMax, i, j)
      {
        for x := 0 to xMax
          invariant forall i, j :: 0 <= i < y && 0 <= j < xMax ==> grid[i, j] == NextAt(prevMap, xMax, i, j)
          invariant forall j :: 0 <= j < x ==> grid[y, j] == NextAt(prevMap, xMax, y, j)
        {
          var cell := prevMap[y][x];
          if cell == Rock {
            grid[y, x] := Rock;
            continue;
          }
          var fishN, shrimpN := CountAround(prevMap, xMax, y, x);
          grid[y, x] := NextCell(cell, fishN, shrimpN);
        }
      }
      ghost var next := NextGrid(prevMap, xMax);
      assert forall y :: 0 <= y < yMax ==> Contents()[y] == next[y];
    }

    /** `get_next_generation`: one step, then the game's own grid, not a copy. */
    method NextGeneration() returns (r: array2<int>)
      requires Valid()
      modifies grid
      ensures Valid() && r == grid && Contents() == NextGrid(old(Contents()), xMax)
    {
      Step();
      r := grid;
    }
  }
}
