/** The Game of Life board: a rectangular grid of 0/1 cells stored row-major
    in one flat sequence, with value semantics (an edit yields a new Grid). */
module Grids {

  /** A board of `width` columns and `height` rows; cell (x, y) is stored at
      flat index x + y * width. */
  datatype Grid = Grid(width: int, height: int, cells: seq<int>)

  /** One requested edit: set cell (x, y) to `state`. */
  datatype Patch = Patch(x: int, y: int, state: int)

  /** The cell array has exactly one entry per position. */
  predicate Consistent(g: Grid) {
    g.width >= 0 && g.height >= 0 && |g.cells| == g.width * g.height
  }

  /** A board as the engine expects it: non-empty dimensions, and every cell
      dead (0) or alive (1). */
  predicate WellFormed(g: Grid) {
    && g.width > 0 && g.height > 0
    && Consistent(g)
    && forall i :: 0 <= i < |g.cells| ==> g.cells[i] == 0 || g.cells[i] == 1
  }

  predicate InGrid(w: int, h: int, x: int, y: int) {
    0 <= x < w && 0 <= y < h
  }

  /** The row-major flat index of cell (x, y) on a board `w` cells wide. */
  function Flat(w: int, x: int, y: int): int {
    x + y * w
  }

  /** Integer division and remainder are determined by any decomposition
      a == q * w + r with 0 <= r < w. */
  lemma DivModUnique(a: int, w: int, q: int, r: int)
    requires w > 0 && 0 <= r < w && a == q * w + r
    ensures a / w == q && a % w == r
  {
    var q', r' := a / w, a % w;
    assert a == q' * w + r';
    assert (q - q') * w == r' - r;
    if q > q' {
      MulAtLeast(q - q', w);
    } else if q < q' {
      MulAtLeast(q' - q, w);
    }
  }

  lemma {:induction false} MulAtLeast(k: int, w: int)
    requires k >= 1 && w > 0
    ensures k * w >= w
  {
    if k > 1 {
      MulAtLeast(k - 1, w);
      assert k * w == (k - 1) * w + w;
    }
  }

  /** Every in-range position has an in-range flat index, and the index
      decodes back to the position: x is the remainder, y the quotient. */
  lemma FlatInRange(w: int, h: int, x: int, y: int)
    requires InGrid(w, h, x, y)
    ensures 0 <= Flat(w, x, y) < w * h
    ensures Flat(w, x, y) % w == x && Flat(w, x, y) / w == y
  {
    MulLe(y + 1, h, w);
    assert x + y * w < (y + 1) * w;
    assert 0 <= y * w by { MulNonNeg(y, w); }
    DivModUnique(Flat(w, x, y), w, y, x);
  }

  lemma MulNonNeg(a: int, b: int)
    requires a >= 0 && b >= 0
    ensures a * b >= 0
  {
  }

  lemma {:induction false} MulLe(a: int, b: int, w: int)
    requires 0 <= a <= b && w > 0
    ensures a * w <= b * w
  {
    if a < b {
      MulLe(a, b - 1, w);
      assert b * w == (b - 1) * w + w;
    }
  }

  /** Every flat index of a board is the index of exactly the position its
      remainder and quotient name. */
  lemma FlatDecode(w: int, h: int, i: int)
    requires w > 0 && h >= 0 && 0 <= i < w * h
    ensures InGrid(w, h, i % w, i / w) && Flat(w, i % w, i / w) == i
  {
    var x, y := i % w, i / w;
    assert i == y * w + x;
    if y >= h {
      MulLe(h, y, w);
      assert false;
    }
  }

  /** Two different in-range positions have different flat indexes. */
  lemma FlatDistinct(w: int, h: int, x: int, y: int, x': int, y': int)
    requires InGrid(w, h, x, y) && InGrid(w, h, x', y')
    requires x != x' || y != y'
    ensures Flat(w, x, y) != Flat(w, x', y')
  {
    FlatInRange(w, h, x, y);
    FlatInRange(w, h, x', y');
  }

  /** An all-dead board of the given size (Grid.empty). */
  function Empty(w: nat, h: nat): (g: Grid)
    ensures g.width == w && g.height == h && Consistent(g)
    ensures forall i :: 0 <= i < |g.cells| ==> g.cells[i] == 0
    ensures w > 0 && h > 0 ==> WellFormed(g)
  {
    Grid(w, h, seq(w * h, _ => 0))
  }

  /** The value at column x, row y (Grid.cell): the flat entry x + y * width,
      which on a well-formed board is dead or alive. */
  function Cell(g: Grid, x: int, y: int): (v: int)
    requires Consistent(g) && InGrid(g.width, g.height, x, y)
    ensures WellFormed(g) ==> v == 0 || v == 1
  {
    FlatInRange(g.width, g.height, x, y);
    g.cells[Flat(g.width, x, y)]
  }

  /** The flat index a patch writes to. */
  function Target(p: Patch, w: int): int {
    Flat(w, p.x, p.y)
  }

  predicate PatchesFit(ps: seq<Patch>, w: int, n: int) {
    forall k :: 0 <= k < |ps| ==> 0 <= Target(ps[k], w) < n
  }

  /** The cells after applying `ps` in order, each overwriting its target. */
  function Drawn(cells: seq<int>, w: int, ps: seq<Patch>): (r: seq<int>)
    requires PatchesFit(ps, w, |cells|)
    ensures |r| == |cells|
  {
    if ps == [] then cells
    else
      var last := ps[|ps| - 1];
      Drawn(cells, w, ps[..|ps| - 1])[Target(last, w) := last.state]
  }

  /** A cell that no patch targets keeps its value; a targeted cell holds
      the state of the last patch that targets it. */
  lemma {:induction false} DrawnAt(cells: seq<int>, w: int, ps: seq<Patch>, i: int)
    requires PatchesFit(ps, w, |cells|) && 0 <= i < |cells|
    ensures (forall k :: 0 <= k < |ps| ==> Target(ps[k], w) != i) ==>
              Drawn(cells, w, ps)[i] == cells[i]
    ensures forall k :: 0 <= k < |ps| && Target(ps[k], w) == i &&
                        (forall j :: k < j < |ps| ==> Target(ps[j], w) != i) ==>
              Drawn(cells, w, ps)[i] == ps[k].state
  {
    if ps != [] {
      var n := |ps| - 1;
      var init := ps[..n];
      assert PatchesFit(init, w, |cells|);
      DrawnAt(cells, w, init, i);
      forall k | 0 <= k < n && Target(init[k], w) == i
        ensures init[k] == ps[k]
      {
      }
    }
  }

  predicate PatchesInGrid(ps: seq<Patch>, w: int, h: int) {
    forall k :: 0 <= k < |ps| ==> InGrid(w, h, ps[k].x, ps[k].y)
  }

  lemma PatchesInGridFit(ps: seq<Patch>, w: int, h: int)
    requires PatchesInGrid(ps, w, h)
    ensures PatchesFit(ps, w, w * h)
  {
    forall k | 0 <= k < |ps| ensures 0 <= Target(ps[k], w) < w * h {
      FlatInRange(w, h, ps[k].x, ps[k].y);
    }
  }

  /** Grid.draw: copy the cells, overwrite one entry per patch in order, and
      return a new board of the same size. */
  method Draw(g: Grid, ps: seq<Patch>) returns (r: Grid)
    requires Consistent(g) && PatchesInGrid(ps, g.width, g.height)
    ensures PatchesFit(ps, g.width, |g.cells|)
    ensures r.width == g.width && r.height == g.height && Consistent(r)
    ensures r.cells == Drawn(g.cells, g.width, ps)
    ensures ps == [] ==> r.cells == g.cells
    ensures forall i :: 0 <= i < |g.cells| &&
                        (forall k :: 0 <= k < |ps| ==> Target(ps[k], g.width) != i) ==>
              r.cells[i] == g.cells[i]
    ensures forall i, k :: 0 <= i < |g.cells| && 0 <= k < |ps| && Target(ps[k], g.width) == i &&
                           (forall j :: k < j < |ps| ==> Target(ps[j], g.width) != i) ==>
              r.cells[i] == ps[k].state
  {
    PatchesInGridFit(ps, g.width, g.height);
    var n := |g.cells|;
    var copy := new int[n];
    for i := 0 to n
      invariant copy[..i] == g.cells[..i]
    {
      copy[i] := g.cells[i];
    }
    assert copy[..] == g.cells;
    for k := 0 to |ps|
      invariant PatchesFit(ps[..k], g.width, n)
      invariant copy[..] == Drawn(g.cells, g.width, ps[..k])
    {
      var p := ps[k];
      copy[Flat(g.width, p.x, p.y)] := p.state;
      assert ps[..k + 1][..k] == ps[..k];
    }
    assert ps[..|ps|] == ps;
    r := Grid(g.width, g.height, copy[..]);
    forall i | 0 <= i < n {
      DrawnAt(g.cells, g.width, ps, i);
    }
  }

  /** Drawing states that are all 0 or 1 keeps a board well formed. */
  lemma {:induction false} DrawnWellFormed(g: Grid, ps: seq<Patch>)
    requires WellFormed(g) && PatchesFit(ps, g.width, |g.cells|)
    requires forall k :: 0 <= k < |ps| ==> ps[k].state == 0 || ps[k].state == 1
    ensures WellFormed(Grid(g.width, g.height, Drawn(g.cells, g.width, ps)))
  {
    if ps != [] {
      var init := ps[..|ps| - 1];
      assert PatchesFit(init, g.width, |g.cells|);
      DrawnWellFormed(g, init);
    }
  }
}
