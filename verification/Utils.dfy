/** Board construction and the local patching of neighbour counts (src/utils.ts). */
module Utils {
  import opened Board

  /** `c` with its count replaced by the number of mines around (i, j) in `g`. */
  function Recounted(g: Grid, w: nat, h: nat, i: int, j: int): Cell
    requires Rect(g, w, h) && InBounds(w, h, Pos(i, j))
  {
    g[j][i].(neighborMines := AdjacentMines(g, w, h, i, j))
  }

  /** (i, j) comes before (sx, sy) in row-major scan order. */
  predicate ScannedBefore(i: int, j: int, sx: int, sy: int) {
    j < sy || (j == sy && i < sx)
  }

  /** `b` is `g` with the count of every safe cell that lies in the region and that a row-major
      scan stopped at (sx, sy) has passed recomputed; every other cell is as in `g`. The region is
      the whole board when `all` holds, the 3x3 block centred on (x, y) otherwise. */
  ghost predicate RecountedBefore(g: Grid, b: Grid, w: nat, h: nat, all: bool, x: int, y: int, sx: int, sy: int) {
    Rect(g, w, h) && Rect(b, w, h) &&
    forall j: int, i: int :: 0 <= j < h && 0 <= i < w ==>
      b[j][i] == if (all || Near(Pos(i, j), Pos(x, y))) && ScannedBefore(i, j, sx, sy) && !g[j][i].isMine
                 then Recounted(g, w, h, i, j) else g[j][i]
  }

  /** `b` is `g` with the count of every safe on-board cell of the 3x3 block centred on (x, y)
      recomputed, and nothing else changed. */
  ghost predicate RecountedAround(g: Grid, b: Grid, w: nat, h: nat, x: int, y: int) {
    Rect(g, w, h) && Rect(b, w, h) &&
    forall j: int, i: int :: 0 <= j < h && 0 <= i < w ==>
      b[j][i] == if Near(Pos(i, j), Pos(x, y)) && !g[j][i].isMine then Recounted(g, w, h, i, j) else g[j][i]
  }

  /** One scan step: the cell at the scan position is recounted if it is a safe cell of the
      region, and left alone otherwise. */
  lemma RecountStep(g: Grid, b0: Grid, b1: Grid, w: nat, h: nat, all: bool, x: int, y: int, sx: int, sy: int)
    requires Rect(g, w, h) && Rect(b0, w, h) && Rect(b1, w, h)
    requires RecountedBefore(g, b0, w, h, all, x, y, sx, sy)
    requires forall j: int, i: int :: 0 <= j < h && 0 <= i < w ==>
      b1[j][i] == if i == sx && j == sy && (all || Near(Pos(i, j), Pos(x, y))) && !g[j][i].isMine
                  then Recounted(g, w, h, i, j) else b0[j][i]
    ensures RecountedBefore(g, b1, w, h, all, x, y, sx + 1, sy)
  {
    forall j: int, i: int | 0 <= j < h && 0 <= i < w
      ensures b1[j][i] == if (all || Near(Pos(i, j), Pos(x, y))) && ScannedBefore(i, j, sx + 1, sy) && !g[j][i].isMine
                          then Recounted(g, w, h, i, j) else g[j][i]
    {
      if i == sx && j == sy {
        assert b0[j][i] == g[j][i];
      } else {
        assert b1[j][i] == b0[j][i] && ScannedBefore(i, j, sx + 1, sy) == ScannedBefore(i, j, sx, sy);
      }
    }
  }

  /** Moving the scan to the start of the next row passes no cell of the region. */
  lemma RecountNextRow(g: Grid, b: Grid, w: nat, h: nat, all: bool, x: int, y: int, sxEnd: int, sxStart: int, sy: int)
    requires Rect(g, w, h) && Rect(b, w, h)
    requires RecountedBefore(g, b, w, h, all, x, y, sxEnd, sy)
    requires all ==> w <= sxEnd && sxStart <= 0
    requires !all ==> x + 2 <= sxEnd && sxStart <= x - 1
    ensures RecountedBefore(g, b, w, h, all, x, y, sxStart, sy + 1)
  {
  }

  /** Counts the mines in the 3x3 block centred on (x, y), the centre included; positions off the
      board are skipped. For a centre that is not a mine this is its neighbours' mine count. */
  method CalculateNeighborMines(board: array2<Cell>, x: int, y: int, width: nat, height: nat)
    returns (count: nat)
    requires board.Length0 == height && board.Length1 == width
    ensures count == WindowMines(Snap(board), width, height, x, y)
    ensures count == AdjacentMines(Snap(board), width, height, x, y) + MineInt(Snap(board), width, height, Pos(x, y))
    ensures count <= 9
  {
    ghost var g: Grid := Snap(board);
    count := 0;
    for dy := -1 to 2
      invariant count == ScanMines(g, width, height, x, y, 3 * (dy + 1))
    {
      for dx := -1 to 2
        invariant count == ScanMines(g, width, height, x, y, 3 * (dy + 1) + (dx + 1))
      {
        var ny := y + dy;
        var nx := x + dx;
        ScanMinesNext(g, width, height, x, y, dx, dy);
        if ny >= 0 && ny < height && nx >= 0 && nx < width && board[ny, nx].isMine {
          count := count + 1;
        }
      }
    }
    ScanMinesPrefix(g, width, height, x, y, 9);
    assert Window(x, y)[..9] == Window(x, y);
    WindowIsAdjacentPlusCentre(g, width, height, x, y);
    NeighbourhoodBounds(g, width, height, x, y);
  }

  /** Recomputes the count of every on-board, non-mine cell of the 3x3 block centred on (x, y).
      Nothing else changes: no mine, reveal or flag bit, and no count outside the block. */
  method UpdateNeighborMines(board: array2<Cell>, x: int, y: int, width: nat, height: nat)
    requires board.Length0 == height && board.Length1 == width
    modifies board
    ensures RecountedAround(old(Snap(board)), Snap(board), width, height, x, y)
  {
    ghost var g: Grid := Snap(board);
    for dy := -1 to 2
      invariant RecountedBefore(g, Snap(board), width, height, false, x, y, x - 1, y + dy)
    {
      RecountRun(board, width, height, g, false, x, y, x - 1, x + 2, y + dy);
      RecountNextRow(g, Snap(board), width, height, false, x, y, x + 2, x - 1, y + dy);
    }
  }

  /** Recounts the safe on-board cells (fromX, row) .. (toX - 1, row), continuing a row-major scan
      of the region. */
  method RecountRun(board: array2<Cell>, width: nat, height: nat, ghost g: Grid, ghost all: bool,
                    ghost x: int, ghost y: int, fromX: int, toX: int, row: int)
    requires board.Length0 == height && board.Length1 == width && Rect(g, width, height)
    requires RecountedBefore(g, Snap(board), width, height, all, x, y, fromX, row)
    requires fromX <= toX
    requires !all ==> x - 1 <= fromX && toX <= x + 2 && y - 1 <= row <= y + 1
    modifies board
    ensures RecountedBefore(g, Snap(board), width, height, all, x, y, toX, row)
  {
    for i := fromX to toX
      invariant RecountedBefore(g, Snap(board), width, height, all, x, y, i, row)
    {
      ghost var b0 := Snap(board);
      if 0 <= row < height && 0 <= i < width && !board[row, i].isMine {
        RecountCell(board, i, row, width, height, g);
      }
      RecountStep(g, b0, Snap(board), width, height, all, x, y, i, row);
    }
  }

  /** The step shared by the recount loops: (i, j) gets its neighbours' mine count, which is the
      same in `board` as in `g` because only counts differ between the two. */
  method RecountCell(board: array2<Cell>, i: int, j: int, width: nat, height: nat, ghost g: Grid)
    requires board.Length0 == height && board.Length1 == width && Rect(g, width, height)
    requires InBounds(width, height, Pos(i, j)) && !board[j, i].isMine && board[j, i] == g[j][i]
    requires forall b: int, a: int :: 0 <= b < height && 0 <= a < width ==> board[b, a].isMine == g[b][a].isMine
    modifies board
    ensures forall b: int, a: int :: 0 <= b < height && 0 <= a < width ==>
      board[b, a] == if (a, b) == (i, j) then Recounted(g, width, height, i, j) else old(board[b, a])
  {
    var n := CalculateNeighborMines(board, i, j, width, height);
    assert SameMines(Snap(board), g, width, height);
    SameMinesSameCounts(Snap(board), g, width, height, i, j);
    board[j, i] := board[j, i].(neighborMines := n);
  }

  /** The set of positions among the first `k` draws. */
  function Drawn(draws: seq<Pos>, k: nat): set<Pos>
    requires k <= |draws|
  {
    if k == 0 then {} else Drawn(draws, k - 1) + {draws[k - 1]}
  }

  /** A fresh `height` x `width` board holding exactly `mineCount` mines, none revealed or
      flagged, with every count correct. `draws` are the successive random positions: a draw that
      hits a mine already placed is skipped, as the rejection loop does, so enough distinct draws
      are needed. */
  method GenerateBoard(width: nat, height: nat, mineCount: nat, draws: seq<Pos>)
    returns (board: array2<Cell>)
    requires forall k :: 0 <= k < |draws| ==> InBounds(width, height, draws[k])
    requires mineCount <= |Drawn(draws, |draws|)|
    ensures fresh(board)
    ensures board.Length0 == height && board.Length1 == width
    ensures forall j: int, i: int :: 0 <= j < height && 0 <= i < width ==>
      !board[j, i].isRevealed && !board[j, i].isFlagged
    ensures DrawnLayout(draws, mineCount, MinePositions(Snap(board), width, height))
    ensures |MinePositions(Snap(board), width, height)| == mineCount
    ensures CountsCorrect(Snap(board), width, height)
    ensures forall j: int, i: int :: 0 <= j < height && 0 <= i < width && board[j, i].isMine ==>
      board[j, i].neighborMines == 0
  {
    ghost var mines;
    board, mines := LayMines(width, height, mineCount, draws);
    RecountAll(board, width, height);
  }

  /** The first half of `GenerateBoard`: an empty board with the drawn mines on it. */
  method LayMines(width: nat, height: nat, mineCount: nat, draws: seq<Pos>)
    returns (board: array2<Cell>, ghost mines: set<Pos>)
    requires forall k :: 0 <= k < |draws| ==> InBounds(width, height, draws[k])
    requires mineCount <= |Drawn(draws, |draws|)|
    ensures fresh(board) && board.Length0 == height && board.Length1 == width
    ensures MinesExactly(board, mines) && MinePositions(Snap(board), width, height) == mines
    ensures DrawnLayout(draws, mineCount, mines) && |mines| == mineCount
  {
    board := new Cell[height, width]((_, _) => Cell(false, false, false, 0));
    var placedAt := PlaceMines(board, mineCount, draws);
    mines := Drawn(draws, placedAt);
    DrawnInBounds(draws, placedAt, width, height);
    MinePositionsOf(board, mines);
  }

  /** Every drawn position is on the board. */
  lemma {:induction false} DrawnInBounds(draws: seq<Pos>, k: nat, w: nat, h: nat)
    requires k <= |draws| && forall m :: 0 <= m < |draws| ==> InBounds(w, h, draws[m])
    ensures forall p :: p in Drawn(draws, k) ==> InBounds(w, h, p)
  {
    if k > 0 {
      DrawnInBounds(draws, k - 1, w, h);
    }
  }

  /** On a board holding mines exactly at the on-board set `mines`, those are its mine positions. */
  lemma MinePositionsOf(board: array2<Cell>, mines: set<Pos>)
    requires MinesExactly(board, mines)
    requires forall p :: p in mines ==> InBounds(board.Length1, board.Length0, p)
    ensures MinePositions(Snap(board), board.Length1, board.Length0) == mines
  {
    var g := Snap(board);
    forall p | p in mines
      ensures p in MinePositions(g, board.Length1, board.Length0)
    {
      assert g[p.y][p.x].isMine;
    }
  }

  /** The first `k` draws hold `mineCount` distinct positions and the first `k - 1` fewer: the
      draw loop stops as soon as the last mine is placed. */
  ghost predicate FirstDrawsFor(draws: seq<Pos>, mineCount: nat, k: nat)
    requires k <= |draws|
  {
    |Drawn(draws, k)| == mineCount && (k == 0 || |Drawn(draws, k - 1)| < mineCount)
  }

  /** The mines laid by the draws up to the one that places the last of `mineCount` mines. */
  ghost predicate DrawnLayout(draws: seq<Pos>, mineCount: nat, mines: set<Pos>)
  {
    exists k :: 0 <= k <= |draws| && FirstDrawsFor(draws, mineCount, k) && mines == Drawn(draws, k)
  }

  /** Counts the neighbours of every cell that is not a mine, scanning the board row by row. */
  method RecountAll(board: array2<Cell>, width: nat, height: nat)
    requires board.Length0 == height && board.Length1 == width
    modifies board
    ensures CountsCorrect(Snap(board), width, height)
    ensures MinePositions(Snap(board), width, height) == old(MinePositions(Snap(board), width, height))
    ensures forall j: int, i: int :: 0 <= j < height && 0 <= i < width ==>
      board[j, i].isMine == old(board[j, i].isMine) && board[j, i].isRevealed == old(board[j, i].isRevealed) &&
      board[j, i].isFlagged == old(board[j, i].isFlagged) && (old(board[j, i].isMine) ==> board[j, i] == old(board[j, i]))
  {
    ghost var g: Grid := Snap(board);
    for y := 0 to height
      invariant RecountedBefore(g, Snap(board), width, height, true, 0, 0, 0, y)
    {
      RecountRun(board, width, height, g, true, 0, 0, 0, width, y);
      RecountNextRow(g, Snap(board), width, height, true, 0, 0, width, 0, y);
    }
    RecountedAll(g, Snap(board), width, height);
  }

  /** `board` holds mines exactly at `mines`; nothing is revealed, flagged or counted. */
  ghost predicate MinesExactly(board: array2<Cell>, mines: set<Pos>)
    reads board
  {
    forall j: int, i: int :: 0 <= j < board.Length0 && 0 <= i < board.Length1 ==>
      board[j, i] == Cell(Pos(i, j) in mines, false, false, 0)
  }

  /** Puts a mine at `p` unless one is there; `added` tells whether the board gained a mine. */
  method PlaceOne(board: array2<Cell>, p: Pos, ghost mines: set<Pos>) returns (added: bool)
    requires InBounds(board.Length1, board.Length0, p) && MinesExactly(board, mines)
    modifies board
    ensures added <==> p !in mines
    ensures MinesExactly(board, mines + {p})
    ensures |mines + {p}| == |mines| + (if added then 1 else 0)
  {
    added := !board[p.y, p.x].isMine;
    if added {
      board[p.y, p.x] := board[p.y, p.x].(isMine := true);
      assert mines * {p} == {};
    } else {
      assert mines + {p} == mines;
    }
  }

  /** Marks drawn positions as mines until `mineCount` distinct ones are placed; returns how many
      draws that took. */
  method PlaceMines(board: array2<Cell>, mineCount: nat, draws: seq<Pos>) returns (k: nat)
    requires MinesExactly(board, {})
    requires forall k :: 0 <= k < |draws| ==> InBounds(board.Length1, board.Length0, draws[k])
    requires mineCount <= |Drawn(draws, |draws|)|
    modifies board
    ensures k <= |draws| && FirstDrawsFor(draws, mineCount, k)
    ensures MinesExactly(board, Drawn(draws, k))
  {
    var minesPlaced := 0;
    k := 0;
    while minesPlaced < mineCount
      invariant k <= |draws| && minesPlaced == |Drawn(draws, k)| <= mineCount
      invariant k == 0 || |Drawn(draws, k - 1)| < mineCount
      invariant MinesExactly(board, Drawn(draws, k))
      decreases |draws| - k
    {
      var added := PlaceOne(board, draws[k], Drawn(draws, k));
      if added {
        minesPlaced := minesPlaced + 1;
      }
      k := k + 1;
    }
  }

  /** After a full scan, every safe cell holds its true count and every mine is untouched. */
  lemma RecountedAll(g: Grid, b: Grid, w: nat, h: nat)
    requires Rect(g, w, h) && Rect(b, w, h)
    requires RecountedBefore(g, b, w, h, true, 0, 0, 0, h)
    ensures CountsCorrect(b, w, h)
    ensures MinePositions(b, w, h) == MinePositions(g, w, h)
    ensures forall j: int, i: int :: 0 <= j < h && 0 <= i < w ==>
      b[j][i].isMine == g[j][i].isMine && b[j][i].isRevealed == g[j][i].isRevealed &&
      b[j][i].isFlagged == g[j][i].isFlagged && (g[j][i].isMine ==> b[j][i] == g[j][i])
  {
    assert SameMines(b, g, w, h);
    forall j: int, i: int | 0 <= j < h && 0 <= i < w
      ensures AdjacentMines(b, w, h, i, j) == AdjacentMines(g, w, h, i, j)
    {
      SameMinesSameCounts(b, g, w, h, i, j);
    }
  }

  // ---------------------------------------------------------------------------------------------
  // Moving a mine away from the first click

  /** `p` is an acceptable new home for the mine under the click `c`: free of mines and not `c`. */
  predicate Accepts(g: Grid, w: nat, h: nat, c: Pos, p: Pos)
    requires Rect(g, w, h) && InBounds(w, h, p)
  {
    !g[p.y][p.x].isMine && p != c
  }

  /** Some draw from index `from` on is acceptable. */
  predicate SomeAccepted(g: Grid, w: nat, h: nat, c: Pos, draws: seq<Pos>, from: nat)
    requires Rect(g, w, h) && forall m :: 0 <= m < |draws| ==> InBounds(w, h, draws[m])
  {
    exists m :: from <= m < |draws| && Accepts(g, w, h, c, draws[m])
  }

  /** The index of the first acceptable draw from `from` on: the draw the rejection loop keeps. */
  function FirstAccepted(g: Grid, w: nat, h: nat, c: Pos, draws: seq<Pos>, from: nat): (m: nat)
    requires Rect(g, w, h) && forall m :: 0 <= m < |draws| ==> InBounds(w, h, draws[m])
    requires SomeAccepted(g, w, h, c, draws, from)
    ensures from <= m < |draws| && Accepts(g, w, h, c, draws[m])
    ensures forall m' :: from <= m' < m ==> !Accepts(g, w, h, c, draws[m'])
    decreases |draws| - from
  {
    if Accepts(g, w, h, c, draws[from]) then from
    else
      assert SomeAccepted(g, w, h, c, draws, from + 1);
      FirstAccepted(g, w, h, c, draws, from + 1)
  }

  /** `r` is `g` after the mine at `c` moved to `t` and the counts around both were recomputed:
      the mine bits differ exactly at `c` and `t`, reveal and flag bits are kept, every safe cell
      near `c` or `t` holds its count in `r`, and every other count is kept. */
  ghost predicate IsRelocation(g: Grid, r: Grid, w: nat, h: nat, c: Pos, t: Pos) {
    Rect(g, w, h) && Rect(r, w, h) &&
    forall j: int, i: int :: 0 <= j < h && 0 <= i < w ==>
      r[j][i].isMine == (if Pos(i, j) == c then false else if Pos(i, j) == t then true else g[j][i].isMine) &&
      r[j][i].isRevealed == g[j][i].isRevealed && r[j][i].isFlagged == g[j][i].isFlagged &&
      r[j][i].neighborMines == if (Near(Pos(i, j), c) || Near(Pos(i, j), t)) && !r[j][i].isMine
                               then AdjacentMines(r, w, h, i, j) else g[j][i].neighborMines
  }

  /** If the clicked cell holds a mine, moves it to the first acceptable draw (a position without a
      mine, other than the click) and recounts the neighbourhoods of both positions; otherwise
      leaves the board alone. `draws` are the successive random positions. */
  method HandleFirstClick(board: array2<Cell>, clickX: int, clickY: int, width: nat, height: nat, draws: seq<Pos>)
    requires board.Length0 == height && board.Length1 == width
    requires InBounds(width, height, Pos(clickX, clickY))
    requires forall m :: 0 <= m < |draws| ==> InBounds(width, height, draws[m])
    requires board[clickY, clickX].isMine ==> SomeAccepted(Snap(board), width, height, Pos(clickX, clickY), draws, 0)
    modifies board
    ensures !old(board[clickY, clickX].isMine) ==> unchanged(board)
    ensures old(board[clickY, clickX].isMine) ==>
      IsRelocation(old(Snap(board)), Snap(board), width, height, Pos(clickX, clickY),
                   draws[FirstAccepted(old(Snap(board)), width, height, Pos(clickX, clickY), draws, 0)])
  {
    if !board[clickY, clickX].isMine {
      return;
    }
    var newX, newY := DrawFreePosition(board, clickX, clickY, width, height, draws);
    MoveMine(board, clickX, clickY, newX, newY, width, height);
  }

  /** The rejection loop: draws until the position holds no mine and is not the click. */
  method DrawFreePosition(board: array2<Cell>, clickX: int, clickY: int, width: nat, height: nat, draws: seq<Pos>)
    returns (newX: int, newY: int)
    requires board.Length0 == height && board.Length1 == width
    requires forall m :: 0 <= m < |draws| ==> InBounds(width, height, draws[m])
    requires SomeAccepted(Snap(board), width, height, Pos(clickX, clickY), draws, 0)
    ensures Pos(newX, newY) == draws[FirstAccepted(Snap(board), width, height, Pos(clickX, clickY), draws, 0)]
  {
    ghost var first := FirstAccepted(Snap(board), width, height, Pos(clickX, clickY), draws, 0);
    var m := 0;
    newX, newY := draws[0].x, draws[0].y;
    while board[newY, newX].isMine || (newX == clickX && newY == clickY)
      invariant m <= first && Pos(newX, newY) == draws[m]
      decreases first - m
    {
      m := m + 1;
      newX, newY := draws[m].x, draws[m].y;
    }
  }

  /** Moves the mine at the click to (newX, newY) and recounts around both positions. */
  method MoveMine(board: array2<Cell>, clickX: int, clickY: int, newX: int, newY: int, width: nat, height: nat)
    requires board.Length0 == height && board.Length1 == width
    requires InBounds(width, height, Pos(clickX, clickY)) && InBounds(width, height, Pos(newX, newY))
    requires Pos(clickX, clickY) != Pos(newX, newY)
    modifies board
    ensures IsRelocation(old(Snap(board)), Snap(board), width, height, Pos(clickX, clickY), Pos(newX, newY))
  {
    ghost var g0: Grid := Snap(board);
    board[clickY, clickX] := board[clickY, clickX].(isMine := false);
    board[newY, newX] := board[newY, newX].(isMine := true);
    ghost var moved: Grid := Snap(board);
    assert forall j: int, i: int :: 0 <= j < height && 0 <= i < width ==>
      moved[j][i] == if Pos(i, j) == Pos(newX, newY) then g0[j][i].(isMine := true)
                     else if Pos(i, j) == Pos(clickX, clickY) then g0[j][i].(isMine := false) else g0[j][i];
    UpdateNeighborMines(board, clickX, clickY, width, height);
    ghost var s1 := Snap(board);
    UpdateNeighborMines(board, newX, newY, width, height);
    TwoUpdates(g0, moved, s1, Snap(board), width, height, Pos(clickX, clickY), Pos(newX, newY));
  }

  /** Recounting around `c` and then around `t`, after moving the mine from `c` to `t`, is a
      relocation. */
  lemma TwoUpdates(g: Grid, moved: Grid, s1: Grid, s2: Grid, w: nat, h: nat, c: Pos, t: Pos)
    requires Rect(g, w, h) && Rect(moved, w, h)
    requires forall j: int, i: int :: 0 <= j < h && 0 <= i < w ==>
      moved[j][i] == if Pos(i, j) == t then g[j][i].(isMine := true)
                     else if Pos(i, j) == c then g[j][i].(isMine := false) else g[j][i]
    requires c != t
    requires RecountedAround(moved, s1, w, h, c.x, c.y) && RecountedAround(s1, s2, w, h, t.x, t.y)
    ensures IsRelocation(g, s2, w, h, c, t)
  {
    forall j: int, i: int | 0 <= j < h && 0 <= i < w
      ensures AdjacentMines(moved, w, h, i, j) == AdjacentMines(s2, w, h, i, j)
      ensures AdjacentMines(s1, w, h, i, j) == AdjacentMines(s2, w, h, i, j)
    {
      assert SameMines(moved, s2, w, h);
      SameMinesSameCounts(moved, s2, w, h, i, j);
      SameMinesSameCounts(s1, s2, w, h, i, j);
    }
  }

  /** A relocation keeps every count correct. */
  lemma RelocationKeepsCounts(g: Grid, r: Grid, w: nat, h: nat, c: Pos, t: Pos)
    requires IsRelocation(g, r, w, h, c, t) && CountsCorrect(g, w, h)
    ensures CountsCorrect(r, w, h)
  {
    forall j: int, i: int | 0 <= j < h && 0 <= i < w && !r[j][i].isMine && !Near(Pos(i, j), c) && !Near(Pos(i, j), t)
      ensures r[j][i].neighborMines == AdjacentMines(r, w, h, i, j)
    {
      AdjacentMinesFrame(g, r, w, h, Pos(i, j), c, t);
      assert !g[j][i].isMine && g[j][i].neighborMines == AdjacentMines(g, w, h, i, j);
    }
  }

  /** A relocation moves exactly one mine, from `c` to `t`, so the number of mines is kept. */
  lemma RelocationMovesOneMine(g: Grid, r: Grid, w: nat, h: nat, c: Pos, t: Pos)
    requires IsRelocation(g, r, w, h, c, t)
    requires InBounds(w, h, c) && InBounds(w, h, t) && g[c.y][c.x].isMine && !g[t.y][t.x].isMine
    ensures !r[c.y][c.x].isMine && r[t.y][t.x].isMine
    ensures MinePositions(r, w, h) == MinePositions(g, w, h) - {c} + {t}
    ensures |MinePositions(r, w, h)| == |MinePositions(g, w, h)|
  {
    var before, after := MinePositions(g, w, h), MinePositions(r, w, h);
    assert c in before && t !in before;
    forall p | p in before - {c} + {t}
      ensures p in after
    {
      assert r[p.y][p.x].isMine;
    }
    assert after == before - {c} + {t};
    assert (before - {c}) * {t} == {};
  }
}
