/** The generation engine: Conway's rule applied to every cell of a finite,
    non-wrapping board. */
module Life {
  import opened Grids

  /** The flat indexes newGeneration reads as the neighbours of cell (x, y),
      chosen by splitting on the four edges; there is no wraparound. */
  function NeighborIndexes(w: int, h: int, x: int, y: int): (s: seq<int>)
    ensures |s| == ExpectedNeighborCount(w, h, x, y)
  {
    var cell := x + y * w;
    if x == 0 then
      if y == 0 then [cell + 1, cell + w, cell + (w + 1)]
      else if y == h - 1 then [cell + 1, cell - (w - 1), cell - w]
      else [cell + 1, cell - (w - 1), cell + w, cell - w, cell + (w + 1)]
    else if x == w - 1 then
      if y == h - 1 then [cell - 1, cell - w, cell - (w + 1)]
      else if y == 0 then [cell - 1, cell + (w - 1), cell + w]
      else [cell - 1, cell + (w - 1), cell + w, cell - w, cell - (w + 1)]
    else if y == h - 1 then [cell + 1, cell - 1, cell - (w - 1), cell - w, cell - (w + 1)]
    else if y == 0 then [cell + 1, cell - 1, cell + (w - 1), cell + w, cell + (w + 1)]
    else [cell + 1, cell - 1, cell + (w - 1), cell - (w - 1), cell + w, cell - w, cell + (w + 1), cell - (w + 1)]
  }

  /** (nx, ny) is one of the eight positions surrounding (x, y). */
  predicate IsNeighbor(x: int, y: int, nx: int, ny: int) {
    -1 <= nx - x <= 1 && -1 <= ny - y <= 1 && (nx != x || ny != y)
  }

  /** How many in-bounds Moore neighbours a position has: 3 at a corner,
      5 on the rest of an edge, 8 inside. */
  function ExpectedNeighborCount(w: int, h: int, x: int, y: int): int {
    var onColumnEdge := x == 0 || x == w - 1;
    var onRowEdge := y == 0 || y == h - 1;
    if onColumnEdge && onRowEdge then 3
    else if onColumnEdge || onRowEdge then 5
    else 8
  }

  /** The table written as offsets from (x, y): entry k of NeighborIndexes
      is the flat index of (x + dx, y + dy) for the k-th offset (dx, dy). */
  function NeighborOffsets(w: int, h: int, x: int, y: int): seq<(int, int)> {
    if x == 0 then
      if y == 0 then [(1, 0), (0, 1), (1, 1)]
      else if y == h - 1 then [(1, 0), (1, -1), (0, -1)]
      else [(1, 0), (1, -1), (0, 1), (0, -1), (1, 1)]
    else if x == w - 1 then
      if y == h - 1 then [(-1, 0), (0, -1), (-1, -1)]
      else if y == 0 then [(-1, 0), (-1, 1), (0, 1)]
      else [(-1, 0), (-1, 1), (0, 1), (0, -1), (-1, -1)]
    else if y == h - 1 then [(1, 0), (-1, 0), (1, -1), (0, -1), (-1, -1)]
    else if y == 0 then [(1, 0), (-1, 0), (-1, 1), (0, 1), (1, 1)]
    else [(1, 0), (-1, 0), (-1, 1), (1, -1), (0, 1), (0, -1), (1, 1), (-1, -1)]
  }

  /** Moving by (dx, dy) from (x, y) moves the flat index by dx + dy * w. */
  lemma FlatStep(w: int, x: int, y: int, dx: int, dy: int)
    requires -1 <= dy <= 1
    ensures Flat(w, x + dx, y + dy) == Flat(w, x, y) + dx + dy * w
  {
  }

  /** The flat indexes of the positions reached from (x, y) by the offsets. */
  function Shifted(w: int, x: int, y: int, o: seq<(int, int)>): (s: seq<int>)
    ensures |s| == |o|
  {
    seq(|o|, k requires 0 <= k < |o| => Flat(w, x + o[k].0, y + o[k].1))
  }

  /** The table is the flat form of the offsets: entry k of NeighborIndexes
      is the flat index of (x + dx, y + dy) for the k-th offset (dx, dy). */
  lemma TableIsOffsets(w: int, h: int, x: int, y: int)
    ensures NeighborIndexes(w, h, x, y) == Shifted(w, x, y, NeighborOffsets(w, h, x, y))
  {
    FlatStep(w, x, y, -1, -1); FlatStep(w, x, y, 0, -1); FlatStep(w, x, y, 1, -1);
    FlatStep(w, x, y, -1, 0); FlatStep(w, x, y, 1, 0);
    FlatStep(w, x, y, -1, 1); FlatStep(w, x, y, 0, 1); FlatStep(w, x, y, 1, 1);
  }

  /** Every offset in the table leads to an in-bounds Moore neighbour. */
  lemma OffsetsSound(w: int, h: int, x: int, y: int)
    requires w >= 2 && h >= 2 && InGrid(w, h, x, y)
    ensures OffsetsInBounds(w, h, x, y, NeighborOffsets(w, h, x, y))
  {
  }

  /** Every in-bounds Moore neighbour is reached by an offset in the table. */
  lemma OffsetsComplete(w: int, h: int, x: int, y: int)
    requires w >= 2 && h >= 2 && InGrid(w, h, x, y)
    ensures OffsetsCover(w, h, x, y, NeighborOffsets(w, h, x, y))
  {
  }

  /** No offset appears twice, and there are 3 at a corner, 5 on the rest
      of an edge and 8 inside. */
  lemma OffsetsDistinct(w: int, h: int, x: int, y: int)
    requires w >= 2 && h >= 2 && InGrid(w, h, x, y)
    ensures var o := NeighborOffsets(w, h, x, y);
      (forall j, k :: 0 <= j < k < |o| ==> o[j] != o[k]) && |o| == ExpectedNeighborCount(w, h, x, y)
  {
  }

  /** Each offset leads from (x, y) to an in-bounds Moore neighbour. */
  predicate OffsetsInBounds(w: int, h: int, x: int, y: int, o: seq<(int, int)>) {
    forall k :: 0 <= k < |o| ==>
      InGrid(w, h, x + o[k].0, y + o[k].1) && IsNeighbor(x, y, x + o[k].0, y + o[k].1)
  }

  /** Each in-bounds Moore neighbour of (x, y) is reached by an offset. */
  ghost predicate OffsetsCover(w: int, h: int, x: int, y: int, o: seq<(int, int)>) {
    forall nx, ny :: InGrid(w, h, nx, ny) && IsNeighbor(x, y, nx, ny) ==> (nx - x, ny - y) in o
  }

  /** On a board at least 2 by 2 the table picks exactly the in-bounds Moore
      neighbours of (x, y), each once: every entry is such a neighbour (so it
      lies in [0, w * h)), every such neighbour is an entry, and there are
      3, 5 or 8 of them. */
  lemma NeighborIndexesExact(w: int, h: int, x: int, y: int)
    requires w >= 2 && h >= 2 && InGrid(w, h, x, y)
    ensures var s := NeighborIndexes(w, h, x, y);
      && (forall k :: 0 <= k < |s| ==> 0 <= s[k] < w * h)
      && (forall k :: 0 <= k < |s| ==>
            InGrid(w, h, s[k] % w, s[k] / w) && IsNeighbor(x, y, s[k] % w, s[k] / w))
      && (forall nx, ny :: InGrid(w, h, nx, ny) && IsNeighbor(x, y, nx, ny) ==> Flat(w, nx, ny) in s)
      && (forall j, k :: 0 <= j < k < |s| ==> s[j] != s[k])
      && |s| == ExpectedNeighborCount(w, h, x, y)
  {
    var o := NeighborOffsets(w, h, x, y);
    TableIsOffsets(w, h, x, y);
    OffsetsSound(w, h, x, y);
    OffsetsComplete(w, h, x, y);
    OffsetsDistinct(w, h, x, y);
    ShiftedSound(w, h, x, y, o);
    ShiftedComplete(w, h, x, y, o);
    ShiftedDistinct(w, h, x, y, o);
  }

  /** Offsets to in-bounds neighbours give in-range flat indexes that decode
      to those neighbours. */
  lemma ShiftedSound(w: int, h: int, x: int, y: int, o: seq<(int, int)>)
    requires w > 0 && OffsetsInBounds(w, h, x, y, o)
    ensures var s := Shifted(w, x, y, o);
      && (forall k :: 0 <= k < |s| ==> 0 <= s[k] < w * h)
      && (forall k :: 0 <= k < |s| ==>
            InGrid(w, h, s[k] % w, s[k] / w) && IsNeighbor(x, y, s[k] % w, s[k] / w))
  {
    var s := Shifted(w, x, y, o);
    forall k | 0 <= k < |s|
      ensures 0 <= s[k] < w * h
      ensures InGrid(w, h, s[k] % w, s[k] / w) && IsNeighbor(x, y, s[k] % w, s[k] / w)
    {
      FlatInRange(w, h, x + o[k].0, y + o[k].1);
    }
  }

  /** Offsets that reach every in-bounds neighbour give a list holding every
      such neighbour's flat index. */
  lemma ShiftedComplete(w: int, h: int, x: int, y: int, o: seq<(int, int)>)
    requires OffsetsCover(w, h, x, y, o)
    ensures forall nx, ny :: InGrid(w, h, nx, ny) && IsNeighbor(x, y, nx, ny) ==> Flat(w, nx, ny) in Shifted(w, x, y, o)
  {
    var s := Shifted(w, x, y, o);
    forall nx, ny | InGrid(w, h, nx, ny) && IsNeighbor(x, y, nx, ny)
      ensures Flat(w, nx, ny) in s
    {
      var k :| 0 <= k < |o| && o[k] == (nx - x, ny - y);
      assert s[k] == Flat(w, nx, ny);
    }
  }

  /** Distinct offsets to in-bounds positions give distinct flat indexes. */
  lemma ShiftedDistinct(w: int, h: int, x: int, y: int, o: seq<(int, int)>)
    requires OffsetsInBounds(w, h, x, y, o)
    requires forall j, k :: 0 <= j < k < |o| ==> o[j] != o[k]
    ensures var s := Shifted(w, x, y, o);
      forall j, k :: 0 <= j < k < |s| ==> s[j] != s[k]
  {
    var s := Shifted(w, x, y, o);
    forall j, k | 0 <= j < k < |s|
      ensures s[j] != s[k]
    {
      FlatDistinct(w, h, x + o[j].0, y + o[j].1, x + o[k].0, y + o[k].1);
    }
  }

  /** The values at `indexes`, in order (values). */
  method Values(cells: seq<int>, indexes: seq<int>) returns (result: seq<int>)
    requires forall i :: 0 <= i < |indexes| ==> 0 <= indexes[i] < |cells|
    ensures |result| == |indexes|
    ensures forall i :: 0 <= i < |indexes| ==> result[i] == cells[indexes[i]]
  {
    result := [];
    for i := 0 to |indexes|
      invariant |result| == i
      invariant forall j :: 0 <= j < i ==> result[j] == cells[indexes[j]]
    {
      result := result + [cells[indexes[i]]];
    }
  }

  /** 1 for a live value, 0 for any other. */
  function Bit(v: int): int {
    if v == 1 then 1 else 0
  }

  /** The number of entries equal to 1. */
  function LiveCount(neighbors: seq<int>): nat {
    if neighbors == [] then 0
    else LiveCount(neighbors[..|neighbors| - 1]) + Bit(neighbors[|neighbors| - 1])
  }

  /** Extending a prefix by one entry adds that entry's bit to the count. */
  lemma LiveCountPrefix(s: seq<int>, k: int)
    requires 0 <= k < |s|
    ensures LiveCount(s[..k + 1]) == LiveCount(s[..k]) + Bit(s[k])
  {
    assert s[..k + 1][..k] == s[..k];
  }

  /** The live count of a 3-, 5- or 8-entry list, entry by entry. */
  lemma LiveCountList(s: seq<int>)
    ensures |s| == 3 ==> LiveCount(s) == Bit(s[0]) + Bit(s[1]) + Bit(s[2])
    ensures |s| == 5 ==> LiveCount(s) == Bit(s[0]) + Bit(s[1]) + Bit(s[2]) + Bit(s[3]) + Bit(s[4])
    ensures |s| == 8 ==>
              LiveCount(s) == Bit(s[0]) + Bit(s[1]) + Bit(s[2]) + Bit(s[3]) + Bit(s[4]) + Bit(s[5]) + Bit(s[6]) + Bit(s[7])
  {
    if |s| == 3 || |s| == 5 || |s| == 8 {
      assert s[..0] == [];
      LiveCountPrefix(s, 0); LiveCountPrefix(s, 1); LiveCountPrefix(s, 2);
      if |s| >= 5 {
        LiveCountPrefix(s, 3); LiveCountPrefix(s, 4);
      }
      if |s| == 8 {
        LiveCountPrefix(s, 5); LiveCountPrefix(s, 6); LiveCountPrefix(s, 7);
      }
      assert s[..|s|] == s;
    }
  }

  /** Conway's rule: a live cell survives with 2 or 3 live neighbours, a dead
      cell is born with exactly 3, every other cell is dead next. */
  function Rule(cell: int, live: int): int
    requires cell == 0 || cell == 1
  {
    if cell == 1 then
      if live < 2 || live > 3 then 0 else 1
    else
      if live == 3 then 1 else 0
  }

  /** updateCell: count the live neighbours, then apply the rule. */
  method UpdateCell(cell: int, neighbors: seq<int>) returns (next: int)
    requires cell == 0 || cell == 1
    ensures next == 0 || next == 1
    ensures cell == 1 ==> (next == 1 <==> LiveCount(neighbors) == 2 || LiveCount(neighbors) == 3)
    ensures cell == 0 ==> (next == 1 <==> LiveCount(neighbors) == 3)
    ensures next == Rule(cell, LiveCount(neighbors))
  {
    var liveNeighbors := 0;
    for i := 0 to |neighbors|
      invariant liveNeighbors == LiveCount(neighbors[..i])
    {
      LiveCountPrefix(neighbors, i);
      if neighbors[i] == 1 {
        liveNeighbors := liveNeighbors + 1;
      }
    }
    assert neighbors[..|neighbors|] == neighbors;
    if cell == 1 {
      if liveNeighbors < 2 || liveNeighbors > 3 {
        next := 0;
      } else {
        // here liveNeighbors is 2 or 3
        next := 1;
      }
    } else {
      if liveNeighbors == 3 {
        next := 1;
      } else {
        next := 0;
      }
    }
  }

  /** The cell at (x, y), or dead for a position off the board. */
  function At(g: Grid, x: int, y: int): (v: int)
    requires Consistent(g)
    ensures WellFormed(g) ==> v == 0 || v == 1
  {
    if InGrid(g.width, g.height, x, y) then Cell(g, x, y) else 0
  }

  /** The reference neighbour count: the live cells among the eight positions
      around (x, y), each off-board position counting as dead. */
  function MooreLive(g: Grid, x: int, y: int): int
    requires Consistent(g)
  {
    Bit(At(g, x - 1, y - 1)) + Bit(At(g, x, y - 1)) + Bit(At(g, x + 1, y - 1)) +
    Bit(At(g, x - 1, y)) + Bit(At(g, x + 1, y)) +
    Bit(At(g, x - 1, y + 1)) + Bit(At(g, x, y + 1)) + Bit(At(g, x + 1, y + 1))
  }

  /** The next value of cell (x, y). */
  function NextCell(g: Grid, x: int, y: int): int
    requires WellFormed(g)
  {
    Rule(At(g, x, y), MooreLive(g, x, y))
  }

  /** The reference next generation: the same dimensions, and at every flat
      index the rule applied to that position's old value and old count. */
  function Step(g: Grid): (r: Grid)
    requires WellFormed(g)
    ensures WellFormed(r) && r.width == g.width && r.height == g.height
  {
    var w, h := g.width, g.height;
    Grid(w, h, seq(w * h, i requires 0 <= i < w * h => NextCell(g, i % w, i / w)))
  }

  /** Step at one position: the cell at (x, y) of the next generation is the
      rule applied to the old cell at (x, y) and its old live neighbours. */
  lemma StepAt(g: Grid, x: int, y: int)
    requires WellFormed(g) && InGrid(g.width, g.height, x, y)
    ensures Cell(Step(g), x, y) == Rule(Cell(g, x, y), MooreLive(g, x, y))
  {
    FlatInRange(g.width, g.height, x, y);
  }

  /** The values at the table's offsets, read through At. */
  function OffsetValues(g: Grid, x: int, y: int, o: seq<(int, int)>): (vs: seq<int>)
    requires Consistent(g)
    ensures |vs| == |o|
  {
    seq(|o|, k requires 0 <= k < |o| => At(g, x + o[k].0, y + o[k].1))
  }

  /** Counting the live cells at the table's offsets gives the reference
      count: every position the table leaves out is off the board. */
  lemma OffsetsCountMoore(g: Grid, x: int, y: int)
    requires Consistent(g) && g.width >= 2 && g.height >= 2 && InGrid(g.width, g.height, x, y)
    ensures LiveCount(OffsetValues(g, x, y, NeighborOffsets(g.width, g.height, x, y))) == MooreLive(g, x, y)
  {
    var w, h := g.width, g.height;
    var vs := OffsetValues(g, x, y, NeighborOffsets(w, h, x, y));
    var l, r, u, d := At(g, x - 1, y), At(g, x + 1, y), At(g, x, y - 1), At(g, x, y + 1);
    var ul, ur, dl, dr := At(g, x - 1, y - 1), At(g, x + 1, y - 1), At(g, x - 1, y + 1), At(g, x + 1, y + 1);
    if x == 0 {
      if y == 0 {
        assert vs == [r, d, dr];
        LiveCountList(vs);
      } else if y == h - 1 {
        assert vs == [r, ur, u];
        LiveCountList(vs);
      } else {
        assert vs == [r, ur, d, u, dr];
        LiveCountList(vs);
      }
    } else if x == w - 1 {
      if y == h - 1 {
        assert vs == [l, u, ul];
        LiveCountList(vs);
      } else if y == 0 {
        assert vs == [l, dl, d];
        LiveCountList(vs);
      } else {
        assert vs == [l, dl, d, u, ul];
        LiveCountList(vs);
      }
    } else if y == h - 1 {
      assert vs == [r, l, ur, u, ul];
      LiveCountList(vs);
    } else if y == 0 {
      assert vs == [r, l, dl, d, dr];
      LiveCountList(vs);
    } else {
      assert vs == [r, l, dl, ur, d, u, dr, ul];
      LiveCountList(vs);
    }
  }

  /** The values the table reads, counted, give the reference count. */
  lemma TableCountsMoore(g: Grid, x: int, y: int, vals: seq<int>)
    requires WellFormed(g) && g.width >= 2 && g.height >= 2 && InGrid(g.width, g.height, x, y)
    requires var s := NeighborIndexes(g.width, g.height, x, y);
      |vals| == |s| && forall k :: 0 <= k < |s| ==> 0 <= s[k] < |g.cells| && vals[k] == g.cells[s[k]]
    ensures LiveCount(vals) == MooreLive(g, x, y)
  {
    var o := NeighborOffsets(g.width, g.height, x, y);
    TableIsOffsets(g.width, g.height, x, y);
    OffsetsSound(g.width, g.height, x, y);
    ShiftedValues(g, x, y, o, vals);
    OffsetsCountMoore(g, x, y);
  }

  /** Values read at the flat indexes of in-bounds offsets are the cells at
      those positions. */
  lemma ShiftedValues(g: Grid, x: int, y: int, o: seq<(int, int)>, vals: seq<int>)
    requires Consistent(g) && OffsetsInBounds(g.width, g.height, x, y, o)
    requires var s := Shifted(g.width, x, y, o);
      |vals| == |s| && forall k :: 0 <= k < |s| ==> 0 <= s[k] < |g.cells| && vals[k] == g.cells[s[k]]
    ensures vals == OffsetValues(g, x, y, o)
  {
    forall k | 0 <= k < |vals|
      ensures vals[k] == OffsetValues(g, x, y, o)[k]
    {
      FlatInRange(g.width, g.height, x + o[k].0, y + o[k].1);
    }
  }

  /** An all-dead board stays all dead: nothing is born without three live
      neighbours. */
  lemma StepEmpty(w: int, h: int)
    requires w > 0 && h > 0
    ensures Step(Empty(w, h)) == Empty(w, h)
  {
    var g := Empty(w, h);
    forall x, y | InGrid(w, h, x, y)
      ensures At(g, x, y) == 0
    {
      FlatInRange(w, h, x, y);
    }
    assert Step(g).cells == g.cells;
  }

  /** A single live cell with no live cell around it dies, and no cell is
      born: the next board is all dead. */
  lemma LoneCellDies(g: Grid, x0: int, y0: int)
    requires WellFormed(g) && InGrid(g.width, g.height, x0, y0)
    requires forall x, y :: InGrid(g.width, g.height, x, y) && Cell(g, x, y) == 1 ==> x == x0 && y == y0
    ensures Step(g) == Empty(g.width, g.height)
  {
    var w, h := g.width, g.height;
    forall i | 0 <= i < w * h
      ensures Step(g).cells[i] == 0
    {
      FlatDecode(w, h, i);
      var x, y := i % w, i / w;
      assert MooreLive(g, x, y) <= 1;
    }
    assert Step(g).cells == Empty(w, h).cells;
  }

  /** The body of newGeneration's inner loop for cell (x, y): pick the
      neighbour indexes from the table, read their values, and update the
      cell; the result is the reference next value at the cell's flat index. */
  method NextCellAt(g: Grid, x: int, y: int) returns (v: int)
    requires WellFormed(g) && g.width >= 2 && g.height >= 2 && InGrid(g.width, g.height, x, y)
    ensures 0 <= Flat(g.width, x, y) < |Step(g).cells|
    ensures v == Step(g).cells[Flat(g.width, x, y)]
    ensures v == Rule(Cell(g, x, y), MooreLive(g, x, y))
  {
    var width, height := g.width, g.height;
    var cell := x + y * width;
    FlatInRange(width, height, x, y);
    var neighborIndexes := NeighborIndexes(width, height, x, y);
    NeighborIndexesExact(width, height, x, y);
    var neighborValues := Values(g.cells, neighborIndexes);
    v := UpdateCell(g.cells[cell], neighborValues);
    TableCountsMoore(g, x, y, neighborValues);
    StepAt(g, x, y);
  }

  /** newGeneration: walk the board row by row and push, for every cell, the
      rule applied to its old value and the old values its table entries
      name. The neighbour table is only right on boards at least 2 by 2
      (see NarrowBoardTableWraps and FlatBoardTableOverruns). */
  method NewGeneration(g: Grid) returns (r: Grid)
    requires WellFormed(g) && g.width >= 2 && g.height >= 2
    ensures r == Step(g)
    ensures WellFormed(r) && r.width == g.width && r.height == g.height
    ensures |r.cells| == g.width * g.height
    ensures forall x, y :: InGrid(g.width, g.height, x, y) ==>
              Cell(r, x, y) == Rule(Cell(g, x, y), MooreLive(g, x, y))
  {
    var width, height := g.width, g.height;
    ghost var want := Step(g).cells;
    var next: seq<int> := [];
    for y := 0 to height
      invariant |next| == y * width
      invariant |next| <= |want| && next == want[..|next|]
    {
      MulLe(y + 1, height, width);
      for x := 0 to width
        invariant |next| == y * width + x
        invariant |next| <= |want| && next == want[..|next|]
      {
        var v := NextCellAt(g, x, y);
        next := next + [v];
      }
      assert y * width + width == (y + 1) * width;
    }
    assert next == want;
    r := Grid(width, height, next);
    forall x, y | InGrid(width, height, x, y)
      ensures Cell(r, x, y) == Rule(Cell(g, x, y), MooreLive(g, x, y))
    {
      StepAt(g, x, y);
    }
  }

  /** On a board one cell wide the x == 0 branch is taken for every cell:
      for the middle cell of a 1 by 3 board the table names the cell itself
      (index 1) and reads past the end (index 3). */
  lemma NarrowBoardTableWraps()
    ensures var s := NeighborIndexes(1, 3, 0, 1);
      1 == Flat(1, 0, 1) && 1 in s && 3 in s && 3 >= 1 * 3
  {
  }

  /** On a board one row high the y == 0 branch reads the row below, which
      does not exist: for (0, 0) of a 3 by 1 board the table names index 3. */
  lemma FlatBoardTableOverruns()
    ensures var s := NeighborIndexes(3, 1, 0, 0);
      3 in s && 3 >= 3 * 1
  {
  }
}
