/** Cells, coordinates, the 3x3 neighbourhood and the invariant the whole game relies on:
    every cell that is not a mine stores the number of mines among its neighbours. */
module Board {

  /** One grid position. `neighborMines` is meaningful only when `isMine` is false. */
  datatype Cell = Cell(isMine: bool, isRevealed: bool, isFlagged: bool, neighborMines: int)

  /** A coordinate: column `x`, row `y`. */
  datatype Pos = Pos(x: int, y: int)

  /** The board as a value: rows of cells, indexed `g[y][x]` as the game indexes `board[y][x]`. */
  type Grid = seq<seq<Cell>>

  /** `g` has `h` rows of `w` cells each. */
  predicate Rect(g: Grid, w: nat, h: nat) {
    |g| == h && forall y :: 0 <= y < h ==> |g[y]| == w
  }

  predicate InBounds(w: int, h: int, p: Pos) {
    0 <= p.x < w && 0 <= p.y < h
  }

  /** `p` lies in the 3x3 block centred on `q` (the relation is symmetric). */
  predicate Near(p: Pos, q: Pos) {
    -1 <= p.x - q.x <= 1 && -1 <= p.y - q.y <= 1
  }

  /** The current contents of the board array, as a value. */
  ghost function Snap(a: array2<Cell>): (g: Grid)
    reads a
    ensures Rect(g, a.Length1, a.Length0)
    ensures forall y, x :: 0 <= y < a.Length0 && 0 <= x < a.Length1 ==> g[y][x] == a[y, x]
  {
    seq(a.Length0, y requires 0 <= y < a.Length0 reads a =>
      seq(a.Length1, x requires 0 <= x < a.Length1 reads a => a[y, x]))
  }

  /** The 3x3 block centred on (x, y), in the order the nested `dy`/`dx` loops visit it. */
  function Window(x: int, y: int): seq<Pos> {
    [Pos(x - 1, y - 1), Pos(x, y - 1), Pos(x + 1, y - 1),
     Pos(x - 1, y), Pos(x, y), Pos(x + 1, y),
     Pos(x - 1, y + 1), Pos(x, y + 1), Pos(x + 1, y + 1)]
  }

  /** The eight neighbours of (x, y): the block without its centre, in the same order. */
  function Adjacent(x: int, y: int): seq<Pos> {
    [Pos(x - 1, y - 1), Pos(x, y - 1), Pos(x + 1, y - 1),
     Pos(x - 1, y), Pos(x + 1, y),
     Pos(x - 1, y + 1), Pos(x, y + 1), Pos(x + 1, y + 1)]
  }

  /** 1 when `p` is on the board and holds a mine; off-board positions contribute nothing. */
  function MineInt(g: Grid, w: nat, h: nat, p: Pos): nat
    requires Rect(g, w, h)
  {
    if InBounds(w, h, p) && g[p.y][p.x].isMine then 1 else 0
  }

  /** The number of on-board mines among the positions `ps` (counted with repetition). */
  function MinesAmong(g: Grid, w: nat, h: nat, ps: seq<Pos>): nat
    requires Rect(g, w, h)
  {
    if ps == [] then 0 else MinesAmong(g, w, h, ps[..|ps| - 1]) + MineInt(g, w, h, ps[|ps| - 1])
  }

  /** Mines in the whole 3x3 block, centre included, counted in scan order. */
  function WindowMines(g: Grid, w: nat, h: nat, x: int, y: int): nat
    requires Rect(g, w, h)
  {
    MinesAmong(g, w, h, Window(x, y))
  }

  /** Mines among the (up to eight) neighbours of (x, y): the number a safe cell must show. */
  function AdjacentMines(g: Grid, w: nat, h: nat, x: int, y: int): nat
    requires Rect(g, w, h)
  {
    MineInt(g, w, h, Pos(x - 1, y - 1)) + MineInt(g, w, h, Pos(x, y - 1)) + MineInt(g, w, h, Pos(x + 1, y - 1)) +
    MineInt(g, w, h, Pos(x - 1, y)) + MineInt(g, w, h, Pos(x + 1, y)) +
    MineInt(g, w, h, Pos(x - 1, y + 1)) + MineInt(g, w, h, Pos(x, y + 1)) + MineInt(g, w, h, Pos(x + 1, y + 1))
  }

  /** The board invariant: every cell that is not a mine shows its neighbours' mine count. */
  predicate CountsCorrect(g: Grid, w: nat, h: nat)
    requires Rect(g, w, h)
  {
    forall y, x {:trigger AdjacentMines(g, w, h, x, y)} :: 0 <= y < h && 0 <= x < w && !g[y][x].isMine ==>
      g[y][x].neighborMines == AdjacentMines(g, w, h, x, y)
  }

  /** The positions of all mines on the board. */
  function MinePositions(g: Grid, w: nat, h: nat): set<Pos>
    requires Rect(g, w, h)
  {
    set y, x | 0 <= y < h && 0 <= x < w && g[y][x].isMine :: Pos(x, y)
  }

  /** The cell (x, y) is counted correctly. */
  predicate CountCorrectAt(g: Grid, w: nat, h: nat, x: int, y: int)
    requires Rect(g, w, h) && InBounds(w, h, Pos(x, y))
  {
    !g[y][x].isMine ==> g[y][x].neighborMines == AdjacentMines(g, w, h, x, y)
  }

  /** The two grids have the same size and the same mines. */
  predicate SameMines(g1: Grid, g2: Grid, w: nat, h: nat)
    requires Rect(g1, w, h) && Rect(g2, w, h)
  {
    forall y, x :: 0 <= y < h && 0 <= x < w ==> g1[y][x].isMine == g2[y][x].isMine
  }

  // ---------------------------------------------------------------------------------------------
  // Facts about the neighbourhood

  lemma WindowIndex(x: int, y: int, dx: int, dy: int)
    requires -1 <= dx <= 1 && -1 <= dy <= 1
    ensures Window(x, y)[3 * (dy + 1) + (dx + 1)] == Pos(x + dx, y + dy)
  {
  }

  lemma WindowMembers(x: int, y: int, p: Pos)
    ensures p in Window(x, y) <==> Near(p, Pos(x, y))
  {
    if Near(p, Pos(x, y)) {
      WindowIndex(x, y, p.x - x, p.y - y);
    }
  }

  /** The block is the neighbours with the centre put in after the first four. */
  lemma WindowSplit(x: int, y: int)
    ensures Window(x, y) == Adjacent(x, y)[..4] + [Pos(x, y)] + Adjacent(x, y)[4..]
  {
  }

  lemma AdjacentMembers(x: int, y: int, p: Pos)
    ensures p in Adjacent(x, y) <==> Near(p, Pos(x, y)) && p != Pos(x, y)
  {
    WindowMembers(x, y, p);
    WindowSplit(x, y);
  }

  lemma MinesAmongStep(g: Grid, w: nat, h: nat, ps: seq<Pos>, k: nat)
    requires Rect(g, w, h) && k < |ps|
    ensures MinesAmong(g, w, h, ps[..k + 1]) == MinesAmong(g, w, h, ps[..k]) + MineInt(g, w, h, ps[k])
  {
    assert ps[..k + 1][..k] == ps[..k];
  }

  /** The position the block scan around (x, y) visits at step `i` (0 to 8), row by row. */
  function WindowAt(x: int, y: int, i: int): Pos {
    Pos(x + i % 3 - 1, y + i / 3 - 1)
  }

  /** Mines among the first `k` positions the block scan visits. */
  function ScanMines(g: Grid, w: nat, h: nat, x: int, y: int, k: nat): nat
    requires Rect(g, w, h)
  {
    if k == 0 then 0 else ScanMines(g, w, h, x, y, k - 1) + MineInt(g, w, h, WindowAt(x, y, k - 1))
  }

  lemma WindowAtOffset(x: int, y: int, dx: int, dy: int)
    requires -1 <= dx <= 1 && -1 <= dy <= 1
    ensures WindowAt(x, y, 3 * (dy + 1) + (dx + 1)) == Pos(x + dx, y + dy)
  {
  }

  /** One step of the block scan adds the mine bit of the cell at offset (dx, dy). */
  lemma ScanMinesNext(g: Grid, w: nat, h: nat, x: int, y: int, dx: int, dy: int)
    requires Rect(g, w, h) && -1 <= dx <= 1 && -1 <= dy <= 1
    ensures ScanMines(g, w, h, x, y, 3 * (dy + 1) + (dx + 1) + 1) ==
      ScanMines(g, w, h, x, y, 3 * (dy + 1) + (dx + 1)) +
      (if InBounds(w, h, Pos(x + dx, y + dy)) && g[y + dy][x + dx].isMine then 1 else 0)
  {
    WindowAtOffset(x, y, dx, dy);
  }

  lemma WindowAtIndex(x: int, y: int, i: int)
    requires 0 <= i < 9
    ensures WindowAt(x, y, i) == Window(x, y)[i]
  {
    WindowIndex(x, y, i % 3 - 1, i / 3 - 1);
  }

  /** The block scan's running count is the count over the first `k` positions of the block. */
  lemma {:induction false} ScanMinesPrefix(g: Grid, w: nat, h: nat, x: int, y: int, k: nat)
    requires Rect(g, w, h) && k <= 9
    ensures ScanMines(g, w, h, x, y, k) == MinesAmong(g, w, h, Window(x, y)[..k])
  {
    if k > 0 {
      ScanMinesPrefix(g, w, h, x, y, k - 1);
      MinesAmongStep(g, w, h, Window(x, y), k - 1);
      WindowAtIndex(x, y, k - 1);
    }
  }

  lemma {:induction false} MinesAmongBound(g: Grid, w: nat, h: nat, ps: seq<Pos>)
    requires Rect(g, w, h)
    ensures MinesAmong(g, w, h, ps) <= |ps|
  {
    if ps != [] {
      MinesAmongBound(g, w, h, ps[..|ps| - 1]);
    }
  }

  lemma {:induction false} MinesAmongAppend(g: Grid, w: nat, h: nat, a: seq<Pos>, b: seq<Pos>)
    requires Rect(g, w, h)
    ensures MinesAmong(g, w, h, a + b) == MinesAmong(g, w, h, a) + MinesAmong(g, w, h, b)
  {
    if b == [] {
      assert a + b == a;
    } else {
      assert (a + b)[..|a + b| - 1] == a + b[..|b| - 1];
      MinesAmongAppend(g, w, h, a, b[..|b| - 1]);
    }
  }

  /** Counting the 3x3 block in scan order counts the neighbours plus the centre itself. */
  lemma WindowIsAdjacentPlusCentre(g: Grid, w: nat, h: nat, x: int, y: int)
    requires Rect(g, w, h)
    ensures WindowMines(g, w, h, x, y) == AdjacentMines(g, w, h, x, y) + MineInt(g, w, h, Pos(x, y))
  {
    var adj, c := Adjacent(x, y), Pos(x, y);
    WindowSplit(x, y);
    MinesAmongAppend(g, w, h, adj[..4] + [c], adj[4..]);
    MinesAmongAppend(g, w, h, adj[..4], [c]);
    assert [c][..0] == [];
    assert adj[..4] + adj[4..] == adj;
    MinesAmongAppend(g, w, h, adj[..4], adj[4..]);
    AdjacentIsMinesAmong(g, w, h, x, y);
  }

  /** The neighbour count is the count over the eight neighbours in scan order. */
  lemma AdjacentIsMinesAmong(g: Grid, w: nat, h: nat, x: int, y: int)
    requires Rect(g, w, h)
    ensures AdjacentMines(g, w, h, x, y) == MinesAmong(g, w, h, Adjacent(x, y))
  {
    var adj := Adjacent(x, y);
    for k := 0 to 8
      invariant MinesAmong(g, w, h, adj[..k]) ==
        (if k > 0 then MineInt(g, w, h, adj[0]) else 0) + (if k > 1 then MineInt(g, w, h, adj[1]) else 0) +
        (if k > 2 then MineInt(g, w, h, adj[2]) else 0) + (if k > 3 then MineInt(g, w, h, adj[3]) else 0) +
        (if k > 4 then MineInt(g, w, h, adj[4]) else 0) + (if k > 5 then MineInt(g, w, h, adj[5]) else 0) +
        (if k > 6 then MineInt(g, w, h, adj[6]) else 0) + (if k > 7 then MineInt(g, w, h, adj[7]) else 0)
    {
      MinesAmongStep(g, w, h, adj, k);
    }
    assert adj[..8] == adj;
  }

  /** The neighbourhood mine count is at most eight; the block count at most nine. */
  lemma NeighbourhoodBounds(g: Grid, w: nat, h: nat, x: int, y: int)
    requires Rect(g, w, h)
    ensures AdjacentMines(g, w, h, x, y) <= 8 && WindowMines(g, w, h, x, y) <= 9
  {
    WindowIsAdjacentPlusCentre(g, w, h, x, y);
  }

  /** A cell whose neighbourhood holds neither `a` nor `b` keeps its neighbour count when only
      the mines at `a` and `b` differ. */
  lemma AdjacentMinesFrame(g1: Grid, g2: Grid, w: nat, h: nat, q: Pos, a: Pos, b: Pos)
    requires Rect(g1, w, h) && Rect(g2, w, h)
    requires forall y, x :: 0 <= y < h && 0 <= x < w && Pos(x, y) != a && Pos(x, y) != b ==>
      g1[y][x].isMine == g2[y][x].isMine
    requires !Near(a, q) && !Near(b, q)
    ensures AdjacentMines(g1, w, h, q.x, q.y) == AdjacentMines(g2, w, h, q.x, q.y)
  {
    var adj := Adjacent(q.x, q.y);
    forall k | 0 <= k < 8
      ensures MineInt(g1, w, h, adj[k]) == MineInt(g2, w, h, adj[k])
    {
      assert Near(adj[k], q);
      MineIntFrame(g1, g2, w, h, adj[k], a, b);
    }
    assert adj[0] == Pos(q.x - 1, q.y - 1) && adj[1] == Pos(q.x, q.y - 1) && adj[2] == Pos(q.x + 1, q.y - 1);
    assert adj[3] == Pos(q.x - 1, q.y) && adj[4] == Pos(q.x + 1, q.y);
    assert adj[5] == Pos(q.x - 1, q.y + 1) && adj[6] == Pos(q.x, q.y + 1) && adj[7] == Pos(q.x + 1, q.y + 1);
  }

  lemma MineIntFrame(g1: Grid, g2: Grid, w: nat, h: nat, p: Pos, a: Pos, b: Pos)
    requires Rect(g1, w, h) && Rect(g2, w, h)
    requires forall y, x :: 0 <= y < h && 0 <= x < w && Pos(x, y) != a && Pos(x, y) != b ==>
      g1[y][x].isMine == g2[y][x].isMine
    requires p != a && p != b
    ensures MineInt(g1, w, h, p) == MineInt(g2, w, h, p)
  {
    if InBounds(w, h, p) {
      assert Pos(p.x, p.y) == p;
    }
  }

  /** With the same mines everywhere, every neighbour count is the same. */
  lemma SameMinesSameCounts(g1: Grid, g2: Grid, w: nat, h: nat, x: int, y: int)
    requires Rect(g1, w, h) && Rect(g2, w, h) && SameMines(g1, g2, w, h)
    ensures AdjacentMines(g1, w, h, x, y) == AdjacentMines(g2, w, h, x, y)
    ensures WindowMines(g1, w, h, x, y) == WindowMines(g2, w, h, x, y)
  {
    WindowIsAdjacentPlusCentre(g1, w, h, x, y);
    WindowIsAdjacentPlusCentre(g2, w, h, x, y);
  }

  /** A safe cell showing 0 has no mine next to it. */
  lemma ZeroCellHasSafeNeighbours(g: Grid, w: nat, h: nat, x: int, y: int, p: Pos)
    requires Rect(g, w, h) && CountsCorrect(g, w, h)
    requires InBounds(w, h, Pos(x, y)) && !g[y][x].isMine && g[y][x].neighborMines == 0
    requires InBounds(w, h, p) && Near(p, Pos(x, y))
    ensures !g[p.y][p.x].isMine
  {
    assert AdjacentMines(g, w, h, x, y) == 0;
  }

  /** A grid that differs from `g` at most at `p` is `g` with that one cell replaced. */
  lemma PointUpdate(g: Grid, g': Grid, w: nat, h: nat, p: Pos)
    requires Rect(g, w, h) && Rect(g', w, h) && InBounds(w, h, p)
    requires forall y, x :: 0 <= y < h && 0 <= x < w && Pos(x, y) != p ==> g'[y][x] == g[y][x]
    ensures g' == g[p.y := g[p.y][p.x := g'[p.y][p.x]]]
  {
    var u := g[p.y := g[p.y][p.x := g'[p.y][p.x]]];
    forall y | 0 <= y < h
      ensures g'[y] == u[y]
    {
      assert forall x :: 0 <= x < w ==> g'[y][x] == u[y][x];
    }
  }

  // ---------------------------------------------------------------------------------------------
  // Counting flags, row by row in row-major order

  /** 1 for a flagged cell, 0 otherwise. */
  function FlagInt(c: Cell): nat {
    if c.isFlagged then 1 else 0
  }

  function RowFlags(row: seq<Cell>): nat {
    if row == [] then 0 else RowFlags(row[..|row| - 1]) + FlagInt(row[|row| - 1])
  }

  function GridFlags(g: Grid): nat {
    if g == [] then 0 else GridFlags(g[..|g| - 1]) + RowFlags(g[|g| - 1])
  }

  lemma RowFlagsStep(row: seq<Cell>, k: nat)
    requires k < |row|
    ensures RowFlags(row[..k + 1]) == RowFlags(row[..k]) + FlagInt(row[k])
  {
    assert row[..k + 1][..k] == row[..k];
  }

  lemma GridFlagsStep(g: Grid, k: nat)
    requires k < |g|
    ensures GridFlags(g[..k + 1]) == GridFlags(g[..k]) + RowFlags(g[k])
  {
    assert g[..k + 1][..k] == g[..k];
  }

  lemma {:induction false} RowFlagsUpdate(row: seq<Cell>, x: nat, c: Cell)
    requires x < |row|
    ensures RowFlags(row[x := c]) + FlagInt(row[x]) == RowFlags(row) + FlagInt(c)
  {
    var n := |row| - 1;
    if x < n {
      assert row[x := c][..n] == row[..n][x := c];
      RowFlagsUpdate(row[..n], x, c);
    } else {
      assert row[x := c][..n] == row[..n];
    }
  }

  /** Replacing one cell changes a board-wide count by exactly that cell's difference. */
  lemma {:induction false} GridFlagsUpdate(g: Grid, y: nat, x: nat, c: Cell)
    requires y < |g| && x < |g[y]|
    ensures GridFlags(g[y := g[y][x := c]]) + FlagInt(g[y][x]) == GridFlags(g) + FlagInt(c)
  {
    var n := |g| - 1;
    var g' := g[y := g[y][x := c]];
    if y < n {
      assert g'[..n] == g[..n][y := g[..n][y][x := c]];
      GridFlagsUpdate(g[..n], y, x, c);
    } else {
      assert g'[..n] == g[..n];
      RowFlagsUpdate(g[y], x, c);
    }
  }

  lemma {:induction false} RowFlagsNone(row: seq<Cell>)
    requires forall x :: 0 <= x < |row| ==> FlagInt(row[x]) == 0
    ensures RowFlags(row) == 0
  {
    if row != [] {
      RowFlagsNone(row[..|row| - 1]);
    }
  }

  lemma {:induction false} GridFlagsNone(g: Grid)
    requires forall y, x :: 0 <= y < |g| && 0 <= x < |g[y]| ==> FlagInt(g[y][x]) == 0
    ensures GridFlags(g) == 0
  {
    if g != [] {
      GridFlagsNone(g[..|g| - 1]);
      RowFlagsNone(g[|g| - 1]);
    }
  }
}
