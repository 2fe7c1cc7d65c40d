/** Small boards on which the engine's behaviour is known: a still life and
    an oscillator. Each board is described by the positions that are alive. */
module Patterns {
  import opened Grids
  import opened Life

  /** The w by h board whose live cells are the positions `live` holds. */
  function Pattern(w: nat, h: nat, live: (int, int) -> bool): (g: Grid)
    ensures g.width == w && g.height == h && Consistent(g)
    ensures w > 0 && h > 0 ==> WellFormed(g)
  {
    Grid(w, h, seq(w * h, i requires 0 <= i < w * h => if live(i % w, i / w) then 1 else 0))
  }

  /** Every on-board position of a pattern is live exactly when `live`
      holds there. */
  lemma PatternAt(w: nat, h: nat, live: (int, int) -> bool)
    requires w > 0 && h > 0
    ensures forall x, y :: InGrid(w, h, x, y) ==> Cell(Pattern(w, h, live), x, y) == if live(x, y) then 1 else 0
  {
    forall x, y | InGrid(w, h, x, y)
      ensures Cell(Pattern(w, h, live), x, y) == if live(x, y) then 1 else 0
    {
      FlatInRange(w, h, x, y);
    }
  }

  /** A pattern steps to another pattern when every cell's next value is
      live exactly where the second pattern is. */
  lemma StepPattern(w: nat, h: nat, live: (int, int) -> bool, live': (int, int) -> bool)
    requires w > 0 && h > 0
    requires forall x, y :: InGrid(w, h, x, y) ==> NextCell(Pattern(w, h, live), x, y) == if live'(x, y) then 1 else 0
    ensures Step(Pattern(w, h, live)) == Pattern(w, h, live')
  {
    var g, g' := Pattern(w, h, live), Pattern(w, h, live');
    forall i | 0 <= i < w * h
      ensures Step(g).cells[i] == g'.cells[i]
    {
      FlatDecode(w, h, i);
    }
  }

  /** A 2 by 2 block of live cells, at (1, 1) to (2, 2). */
  function BlockCells(): (int, int) -> bool {
    (x: int, y: int) => 1 <= x <= 2 && 1 <= y <= 2
  }

  /** On a 4 by 4 board the block is a still life: every live cell has
      exactly 3 live neighbours and no dead cell has 3, so the board is its
      own next generation. */
  lemma BlockStillLife()
    ensures Step(Pattern(4, 4, BlockCells())) == Pattern(4, 4, BlockCells())
  {
    var live := BlockCells();
    var g := Pattern(4, 4, live);
    PatternAt(4, 4, live);
    forall x, y | InGrid(4, 4, x, y)
      ensures NextCell(g, x, y) == if live(x, y) then 1 else 0
    {
    }
    StepPattern(4, 4, live, live);
  }

  /** The blinker lying flat: (1, 2), (2, 2) and (3, 2). */
  function BlinkerRow(): (int, int) -> bool {
    (x: int, y: int) => y == 2 && 1 <= x <= 3
  }

  /** The blinker standing up: (2, 1), (2, 2) and (2, 3). */
  function BlinkerColumn(): (int, int) -> bool {
    (x: int, y: int) => x == 2 && 1 <= y <= 3
  }

  /** On a 5 by 5 board the flat blinker turns upright: the end cells die
      with one neighbour, the centre survives with two, and the cells above
      and below the centre are born with three. */
  lemma BlinkerRowToColumn()
    ensures Step(Pattern(5, 5, BlinkerRow())) == Pattern(5, 5, BlinkerColumn())
  {
    var row, column := BlinkerRow(), BlinkerColumn();
    PatternAt(5, 5, row);
    forall x, y | InGrid(5, 5, x, y)
      ensures NextCell(Pattern(5, 5, row), x, y) == if column(x, y) then 1 else 0
    {
    }
    StepPattern(5, 5, row, column);
  }

  /** ... and the upright blinker lies flat again, so the blinker has
      period 2. */
  lemma BlinkerColumnToRow()
    ensures Step(Pattern(5, 5, BlinkerColumn())) == Pattern(5, 5, BlinkerRow())
  {
    var row, column := BlinkerRow(), BlinkerColumn();
    PatternAt(5, 5, column);
    forall x, y | InGrid(5, 5, x, y)
      ensures NextCell(Pattern(5, 5, column), x, y) == if row(x, y) then 1 else 0
    {
    }
    StepPattern(5, 5, column, row);
  }
}
