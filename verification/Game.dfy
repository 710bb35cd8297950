/**
 * The game store: one board, the four status flags, and the player's actions
 * (reveal with flood fill, flag, reset, the win check and the mine counter).
 */
module Game {
  import opened Board
  import opened Utils

  /** Every cell that is not a mine is revealed: the winning position. */
  predicate AllSafeRevealed(g: Grid, w: nat, h: nat)
    requires Rect(g, w, h)
  {
    forall y, x :: 0 <= y < h && 0 <= x < w && !g[y][x].isMine ==> g[y][x].isRevealed
  }

  /** The positions still hidden. */
  function HiddenOf(g: Grid, w: nat, h: nat): set<Pos>
    requires Rect(g, w, h)
  {
    set y, x | 0 <= y < h && 0 <= x < w && !g[y][x].isRevealed :: Pos(x, y)
  }

  /** Each cell of `r` is the cell of `g` or that cell revealed: nothing else changed. */
  predicate OnlyReveals(g: Grid, r: Grid, w: nat, h: nat) {
    Rect(g, w, h) && Rect(r, w, h) &&
    forall y, x :: 0 <= y < h && 0 <= x < w ==> r[y][x] == g[y][x] || r[y][x] == g[y][x].(isRevealed := true)
  }

  /** Every cell revealed in `r` but hidden in `g`, except possibly `s`, is safe. */
  predicate SafeExcept(g: Grid, r: Grid, w: nat, h: nat, s: Pos) {
    Rect(g, w, h) && Rect(r, w, h) &&
    forall y, x :: 0 <= y < h && 0 <= x < w && r[y][x].isRevealed && !g[y][x].isRevealed && Pos(x, y) != s ==>
      !r[y][x].isMine
  }

  /** Every on-board cell around (x, y) is revealed or flagged. */
  predicate Settled(r: Grid, w: nat, h: nat, x: int, y: int)
    requires Rect(r, w, h)
  {
    forall j, i :: 0 <= j < h && 0 <= i < w && Near(Pos(i, j), Pos(x, y)) ==> r[j][i].isRevealed || r[j][i].isFlagged
  }

  /** The flood stops only at numbers and flags: every empty safe cell revealed since `g` is settled in `r`. */
  predicate FloodClosed(g: Grid, r: Grid, w: nat, h: nat) {
    Rect(g, w, h) && Rect(r, w, h) &&
    forall y, x ::
      (0 <= y < h && 0 <= x < w && r[y][x].isRevealed && !g[y][x].isRevealed &&
       !r[y][x].isMine && r[y][x].neighborMines == 0) ==> Settled(r, w, h, x, y)
  }

  /** The cells of the block around (x, y) that the scan has passed when it stands at offset (dy, dx) are settled. */
  predicate SettledBefore(r: Grid, w: nat, h: nat, x: int, y: int, dy: int, dx: int)
    requires Rect(r, w, h)
  {
    forall j, i :: 0 <= j < h && 0 <= i < w && Near(Pos(i, j), Pos(x, y)) && (j - y < dy || (j - y == dy && i - x < dx)) ==>
      r[j][i].isRevealed || r[j][i].isFlagged
  }

  /** The same flags and the same revealed cells, whatever happened to the mines. */
  predicate SameMarks(g: Grid, r: Grid, w: nat, h: nat) {
    Rect(g, w, h) && Rect(r, w, h) &&
    forall y, x :: 0 <= y < h && 0 <= x < w ==> r[y][x].isRevealed == g[y][x].isRevealed && r[y][x].isFlagged == g[y][x].isFlagged
  }

  /** `g` with the flag at (x, y) switched. */
  function Toggled(g: Grid, x: nat, y: nat): Grid
    requires y < |g| && x < |g[y]|
  {
    g[y := g[y][x := g[y][x].(isFlagged := !g[y][x].isFlagged)]]
  }

  /** No cell is revealed or flagged: the board of a new game. */
  predicate Untouched(g: Grid, w: nat, h: nat)
    requires Rect(g, w, h)
  {
    forall y, x :: 0 <= y < h && 0 <= x < w ==> !g[y][x].isRevealed && !g[y][x].isFlagged
  }

  /**
   * The store's invariant on a board and the status flags: the counts are right, the board
   * holds `mineCount` mines, no cell is both revealed and flagged, a won game has every safe
   * cell revealed, a game still on has no revealed mine, and before the first click nothing
   * is revealed.
   */
  predicate ValidState(g: Grid, w: nat, h: nat, mineCount: nat, over: bool, won: bool, first: bool)
    requires Rect(g, w, h)
  {
    CountsCorrect(g, w, h) && |MinePositions(g, w, h)| == mineCount &&
    (forall y, x :: 0 <= y < h && 0 <= x < w ==> !(g[y][x].isRevealed && g[y][x].isFlagged)) &&
    (won ==> AllSafeRevealed(g, w, h)) &&
    (!over ==> forall y, x :: 0 <= y < h && 0 <= x < w && g[y][x].isRevealed ==> !g[y][x].isMine) &&
    (first ==> forall y, x :: 0 <= y < h && 0 <= x < w ==> !g[y][x].isRevealed)
  }

  // ---------------------------------------------------------------------------------------------
  // Facts about the board relations

  /** Revealing cells keeps the mines, the counts, and shrinks the hidden set. */
  lemma OnlyRevealsKeeps(g: Grid, r: Grid, w: nat, h: nat)
    requires OnlyReveals(g, r, w, h)
    ensures CountsCorrect(g, w, h) ==> CountsCorrect(r, w, h)
    ensures MinePositions(r, w, h) == MinePositions(g, w, h)
    ensures HiddenOf(r, w, h) <= HiddenOf(g, w, h)
    ensures SameMines(g, r, w, h)
  {
    if CountsCorrect(g, w, h) {
      forall y, x | 0 <= y < h && 0 <= x < w && !r[y][x].isMine
        ensures r[y][x].neighborMines == AdjacentMines(r, w, h, x, y)
      {
        SameMinesSameCounts(g, r, w, h, x, y);
        assert g[y][x].neighborMines == AdjacentMines(g, w, h, x, y);
      }
    }
  }

  lemma OnlyRevealsTrans(g0: Grid, g1: Grid, g2: Grid, w: nat, h: nat)
    requires OnlyReveals(g0, g1, w, h) && OnlyReveals(g1, g2, w, h)
    ensures OnlyReveals(g0, g2, w, h)
  {
  }

  /** Safety of newly revealed cells composes along a chain of reveals, given that the second exception is safe. */
  lemma SafeExceptTrans(g0: Grid, g1: Grid, g2: Grid, w: nat, h: nat, s: Pos, t: Pos)
    requires OnlyReveals(g0, g1, w, h) && OnlyReveals(g1, g2, w, h)
    requires SafeExcept(g0, g1, w, h, s) && SafeExcept(g1, g2, w, h, t)
    requires t == s || !InBounds(w, h, t) || !g2[t.y][t.x].isMine
    ensures SafeExcept(g0, g2, w, h, s)
  {
  }

  /** Closure of the flood composes along a chain of reveals. */
  lemma FloodClosedTrans(g0: Grid, g1: Grid, g2: Grid, w: nat, h: nat)
    requires OnlyReveals(g0, g1, w, h) && OnlyReveals(g1, g2, w, h)
    requires FloodClosed(g0, g1, w, h) && FloodClosed(g1, g2, w, h)
    ensures FloodClosed(g0, g2, w, h)
  {
    forall y, x | 0 <= y < h && 0 <= x < w && g2[y][x].isRevealed && !g0[y][x].isRevealed &&
      !g2[y][x].isMine && g2[y][x].neighborMines == 0
      ensures Settled(g2, w, h, x, y)
    {
      if g1[y][x].isRevealed {
        assert Settled(g1, w, h, x, y);
      }
    }
  }

  /** The relations about newly revealed cells read only the reveal bits of their first board. */
  lemma SameMarksSwap(g0: Grid, g1: Grid, r: Grid, w: nat, h: nat, s: Pos)
    requires SameMarks(g0, g1, w, h) && Rect(r, w, h)
    ensures SafeExcept(g1, r, w, h, s) ==> SafeExcept(g0, r, w, h, s)
    ensures FloodClosed(g1, r, w, h) ==> FloodClosed(g0, r, w, h)
    ensures HiddenOf(g1, w, h) == HiddenOf(g0, w, h)
  {
    assert forall y, x :: 0 <= y < h && 0 <= x < w ==> g1[y][x].isRevealed == g0[y][x].isRevealed;
  }


  /** Flags kept and revealed cells kept revealed: what any click does to the marks. */
  predicate Grows(g: Grid, r: Grid, w: nat, h: nat) {
    Rect(g, w, h) && Rect(r, w, h) &&
    forall y, x :: 0 <= y < h && 0 <= x < w ==>
      r[y][x].isFlagged == g[y][x].isFlagged && (g[y][x].isRevealed ==> r[y][x].isRevealed)
  }

  /** The mines after the first click at `c`: a mine there moves to the first acceptable draw. */
  ghost function FirstClickMines(g: Grid, w: nat, h: nat, c: Pos, draws: seq<Pos>): set<Pos>
    requires Rect(g, w, h) && InBounds(w, h, c) && forall m :: 0 <= m < |draws| ==> InBounds(w, h, draws[m])
    requires g[c.y][c.x].isMine ==> SomeAccepted(g, w, h, c, draws, 0)
  {
    if g[c.y][c.x].isMine then MinePositions(g, w, h) - {c} + {draws[FirstAccepted(g, w, h, c, draws, 0)]}
    else MinePositions(g, w, h)
  }

  /** What the first-click preparation guarantees: the click is safe, the counts stay right,
      the marks are untouched and the number of mines is kept. */
  lemma FirstClickFacts(g0: Grid, g1: Grid, w: nat, h: nat, c: Pos, draws: seq<Pos>)
    requires Rect(g0, w, h) && Rect(g1, w, h) && InBounds(w, h, c) && CountsCorrect(g0, w, h)
    requires forall m :: 0 <= m < |draws| ==> InBounds(w, h, draws[m])
    requires g0[c.y][c.x].isMine ==> SomeAccepted(g0, w, h, c, draws, 0)
    requires g0[c.y][c.x].isMine ==> IsRelocation(g0, g1, w, h, c, draws[FirstAccepted(g0, w, h, c, draws, 0)])
    requires !g0[c.y][c.x].isMine ==> g1 == g0
    ensures !g1[c.y][c.x].isMine && CountsCorrect(g1, w, h) && SameMarks(g0, g1, w, h)
    ensures MinePositions(g1, w, h) == FirstClickMines(g0, w, h, c, draws)
    ensures |MinePositions(g1, w, h)| == |MinePositions(g0, w, h)|
    ensures forall n :: ValidState(g0, w, h, n, false, false, true) ==> ValidState(g1, w, h, n, false, false, false)
  {
    if g0[c.y][c.x].isMine {
      var t := draws[FirstAccepted(g0, w, h, c, draws, 0)];
      RelocationKeepsCounts(g0, g1, w, h, c, t);
      RelocationMovesOneMine(g0, g1, w, h, c, t);
    }
  }

  /** Revealing one hidden cell: only that cell changes, it is the exception to safety, and if it
      shows a number the flood has nothing to do. */
  lemma RevealOne(g: Grid, r: Grid, w: nat, h: nat, x: int, y: int)
    requires Rect(g, w, h) && Rect(r, w, h) && InBounds(w, h, Pos(x, y)) && !g[y][x].isRevealed
    requires r[y][x] == g[y][x].(isRevealed := true)
    requires forall j, i :: 0 <= j < h && 0 <= i < w && Pos(i, j) != Pos(x, y) ==> r[j][i] == g[j][i]
    ensures OnlyReveals(g, r, w, h) && SafeExcept(g, r, w, h, Pos(x, y))
    ensures r[y][x].neighborMines != 0 ==> FloodClosed(g, r, w, h)
    ensures HiddenOf(r, w, h) == HiddenOf(g, w, h) - {Pos(x, y)} < HiddenOf(g, w, h)
  {
    assert Pos(x, y) in HiddenOf(g, w, h);
  }

  /** Revealing a hidden, unflagged cell of a game still on keeps the invariant; a mine ends the game. */
  lemma RevealOneValid(g: Grid, r: Grid, w: nat, h: nat, n: nat, x: int, y: int)
    requires OnlyReveals(g, r, w, h) && ValidState(g, w, h, n, false, false, false)
    requires InBounds(w, h, Pos(x, y)) && !g[y][x].isFlagged
    requires forall j, i :: 0 <= j < h && 0 <= i < w && Pos(i, j) != Pos(x, y) ==> r[j][i] == g[j][i]
    ensures ValidState(r, w, h, n, r[y][x].isMine, false, false)
  {
    OnlyRevealsKeeps(g, r, w, h);
  }

  /** The flood started at (x, y) is closed once (x, y) itself is settled and the rest of the flood is closed. */
  lemma FloodClosedFrom(g0: Grid, g1: Grid, g2: Grid, w: nat, h: nat, x: int, y: int)
    requires OnlyReveals(g0, g1, w, h) && OnlyReveals(g1, g2, w, h) && InBounds(w, h, Pos(x, y))
    requires forall j, i :: 0 <= j < h && 0 <= i < w && Pos(i, j) != Pos(x, y) ==> g1[j][i] == g0[j][i]
    requires FloodClosed(g1, g2, w, h) && Settled(g2, w, h, x, y)
    ensures FloodClosed(g0, g2, w, h)
  {
  }

  /** One more cell of the block is settled once the scan has passed it. */
  lemma SettledStep(g: Grid, r: Grid, w: nat, h: nat, x: int, y: int, dy: int, dx: int)
    requires OnlyReveals(g, r, w, h) && SettledBefore(g, w, h, x, y, dy, dx)
    requires InBounds(w, h, Pos(x + dx, y + dy)) ==> r[y + dy][x + dx].isRevealed || r[y + dy][x + dx].isFlagged
    ensures SettledBefore(r, w, h, x, y, dy, dx + 1)
  {
  }

  /** The flood from (x, y) so far: only reveals, only safe cells, closed, and the block settled up
      to the scan position (dy, dx). */
  predicate FloodSoFar(g0: Grid, r: Grid, w: nat, h: nat, x: int, y: int, dy: int, dx: int) {
    OnlyReveals(g0, r, w, h) && SafeExcept(g0, r, w, h, Pos(x, y)) && FloodClosed(g0, r, w, h) &&
    SettledBefore(r, w, h, x, y, dy, dx)
  }

  /** Every on-board cell around the empty cell the flood started from is safe. */
  lemma FloodNeighbourSafe(g0: Grid, g: Grid, w: nat, h: nat, x: int, y: int, dy: int, dx: int)
    requires OnlyReveals(g0, g, w, h) && CountsCorrect(g, w, h)
    requires InBounds(w, h, Pos(x, y)) && g0[y][x].isRevealed && !g0[y][x].isMine && g0[y][x].neighborMines == 0
    requires -1 <= dy <= 1 && -1 <= dx <= 1 && InBounds(w, h, Pos(x + dx, y + dy))
    ensures !g[y + dy][x + dx].isMine
  {
    assert g[y][x] == g0[y][x];
    ZeroCellHasSafeNeighbours(g, w, h, x, y, Pos(x + dx, y + dy));
  }

  /** The scan's click on the on-board cell at offset (dy, dx) advances the flood. */
  lemma FloodStep(g0: Grid, g: Grid, r: Grid, w: nat, h: nat, x: int, y: int, dy: int, dx: int)
    requires FloodSoFar(g0, g, w, h, x, y, dy, dx) && InBounds(w, h, Pos(x + dx, y + dy))
    requires !g[y + dy][x + dx].isMine
    requires OnlyReveals(g, r, w, h) && SafeExcept(g, r, w, h, Pos(x + dx, y + dy)) && FloodClosed(g, r, w, h)
    requires r[y + dy][x + dx].isRevealed || r[y + dy][x + dx].isFlagged
    ensures FloodSoFar(g0, r, w, h, x, y, dy, dx + 1)
  {
    OnlyRevealsTrans(g0, g, r, w, h);
    SafeExceptTrans(g0, g, r, w, h, Pos(x, y), Pos(x + dx, y + dy));
    FloodClosedTrans(g0, g, r, w, h);
    SettledStep(g, r, w, h, x, y, dy, dx);
  }

  /** An offset that falls off the board is passed over. */
  lemma FloodSkip(g0: Grid, r: Grid, w: nat, h: nat, x: int, y: int, dy: int, dx: int)
    requires FloodSoFar(g0, r, w, h, x, y, dy, dx) && !InBounds(w, h, Pos(x + dx, y + dy))
    ensures FloodSoFar(g0, r, w, h, x, y, dy, dx + 1)
  {
    SettledStep(r, r, w, h, x, y, dy, dx);
  }

  /** Passing the end of a row of the block is starting the next one. */
  lemma SettledNextRow(r: Grid, w: nat, h: nat, x: int, y: int, dy: int)
    requires Rect(r, w, h) && SettledBefore(r, w, h, x, y, dy, 2)
    ensures SettledBefore(r, w, h, x, y, dy + 1, -1)
  {
  }

  /** The whole block passed: the cell is settled. */
  lemma SettledAll(r: Grid, w: nat, h: nat, x: int, y: int)
    requires Rect(r, w, h) && SettledBefore(r, w, h, x, y, 2, -1)
    ensures Settled(r, w, h, x, y)
  {
  }

  // ---------------------------------------------------------------------------------------------
  // How far the flood reaches

  /** A cell the flood opens from: hidden and unflagged before the click, and a safe cell with no
      mine around it (mines and counts are read after the click, which may have moved a mine). */
  predicate Opener(g: Grid, r: Grid, w: nat, h: nat, p: Pos)
    requires Rect(g, w, h) && Rect(r, w, h)
  {
    InBounds(w, h, p) && !g[p.y][p.x].isRevealed && !g[p.y][p.x].isFlagged &&
    !r[p.y][p.x].isMine && r[p.y][p.x].neighborMines == 0
  }

  /** A chain of on-board cells, each next to the one before, along which the flood travels:
      every cell but the last is an opener. */
  predicate FloodPath(g: Grid, r: Grid, w: nat, h: nat, path: seq<Pos>) {
    Rect(g, w, h) && Rect(r, w, h) && |path| > 0 &&
    (forall k :: 0 <= k < |path| ==> InBounds(w, h, path[k])) &&
    (forall k :: 0 <= k < |path| - 1 ==> Opener(g, r, w, h, path[k]) && Near(path[k + 1], path[k]))
  }

  /** The flood started at `s` can reach `p`. */
  ghost predicate Reached(g: Grid, r: Grid, w: nat, h: nat, s: Pos, p: Pos) {
    exists path :: FloodPath(g, r, w, h, path) && path[0] == s && path[|path| - 1] == p
  }

  /** The flood started at some cell next to `s` can reach `p`. */
  ghost predicate ReachedNear(g: Grid, r: Grid, w: nat, h: nat, s: Pos, p: Pos) {
    exists path :: FloodPath(g, r, w, h, path) && Near(path[0], s) && path[|path| - 1] == p
  }

  /** The on-board cell `p` is revealed in `r` but hidden in `g`. */
  predicate NewlyRevealed(g: Grid, r: Grid, w: nat, h: nat, p: Pos)
    requires Rect(g, w, h) && Rect(r, w, h)
  {
    InBounds(w, h, p) && r[p.y][p.x].isRevealed && !g[p.y][p.x].isRevealed
  }

  /** Every cell revealed in `r` but hidden in `g` is reached by the flood from `s`: a click
      reveals no more than its flood. */
  ghost predicate FloodBounded(g: Grid, r: Grid, w: nat, h: nat, s: Pos) {
    Rect(g, w, h) && Rect(r, w, h) &&
    forall p :: NewlyRevealed(g, r, w, h, p) ==> Reached(g, r, w, h, s, p)
  }

  /** Every cell revealed in `r` but hidden in `g` is reached by a flood started next to `s`:
      the scan around `s` reveals no more than the floods of its clicks. */
  ghost predicate AroundBounded(g: Grid, r: Grid, w: nat, h: nat, s: Pos) {
    Rect(g, w, h) && Rect(r, w, h) &&
    forall p :: NewlyRevealed(g, r, w, h, p) ==> ReachedNear(g, r, w, h, s, p)
  }

  /** The same mines and the same counts: all the flood reads of the board after the click. */
  predicate SameCounts(r1: Grid, r2: Grid, w: nat, h: nat) {
    Rect(r1, w, h) && Rect(r2, w, h) &&
    forall y, x :: 0 <= y < h && 0 <= x < w ==>
      r1[y][x].isMine == r2[y][x].isMine && r1[y][x].neighborMines == r2[y][x].neighborMines
  }

  /** `g` with the cell at (x, y) revealed. */
  function Revealed(g: Grid, x: nat, y: nat): Grid
    requires y < |g| && x < |g[y]|
  {
    g[y := g[y][x := g[y][x].(isRevealed := true)]]
  }

  /** A path of a board with more cells revealed is a path of a board with fewer, when the flags
      and the counts it reads agree. */
  lemma PathTransfer(g1: Grid, g2: Grid, r1: Grid, r2: Grid, w: nat, h: nat, path: seq<Pos>)
    requires Grows(g1, g2, w, h) && SameCounts(r1, r2, w, h) && FloodPath(g2, r1, w, h, path)
    ensures FloodPath(g1, r2, w, h, path)
  {
  }

  /** A click that reveals one cell is bounded by the flood from that cell. */
  lemma RevealOneBounded(g: Grid, r: Grid, w: nat, h: nat, s: Pos)
    requires Rect(g, w, h) && Rect(r, w, h) && InBounds(w, h, s)
    requires forall j, i :: 0 <= j < h && 0 <= i < w && Pos(i, j) != s ==> r[j][i] == g[j][i]
    ensures FloodBounded(g, r, w, h, s)
  {
    assert FloodPath(g, r, w, h, [s]);
  }

  /** A path of `g1` that starts next to the opener `s` continues a path of `g0` from `s`. */
  lemma PathFrom(g0: Grid, g1: Grid, r: Grid, w: nat, h: nat, s: Pos, path: seq<Pos>)
    requires FloodPath(g1, r, w, h, path) && Near(path[0], s)
    requires Grows(g0, g1, w, h) && InBounds(w, h, s) && Opener(g0, r, w, h, s)
    ensures FloodPath(g0, r, w, h, [s] + path) && ([s] + path)[0] == s && ([s] + path)[|path|] == path[|path| - 1]
  {
    PathTransfer(g0, g1, r, r, w, h, path);
  }

  /** Revealing the empty cell `s` and then scanning around it is bounded by the flood from `s`. */
  lemma UncoverBounded(g0: Grid, g1: Grid, r: Grid, w: nat, h: nat, s: Pos)
    requires OnlyReveals(g0, g1, w, h) && OnlyReveals(g1, r, w, h) && InBounds(w, h, s)
    requires forall j, i :: 0 <= j < h && 0 <= i < w && Pos(i, j) != s ==> g1[j][i] == g0[j][i]
    requires !g0[s.y][s.x].isRevealed && !g0[s.y][s.x].isFlagged
    requires !g0[s.y][s.x].isMine && g0[s.y][s.x].neighborMines == 0
    requires AroundBounded(g1, r, w, h, s)
    ensures FloodBounded(g0, r, w, h, s)
  {
    assert Opener(g0, r, w, h, s);
    forall p | NewlyRevealed(g0, r, w, h, p)
      ensures Reached(g0, r, w, h, s, p)
    {
      if p == s {
        assert FloodPath(g0, r, w, h, [s]);
      } else {
        assert NewlyRevealed(g1, r, w, h, p);
        var path :| FloodPath(g1, r, w, h, path) && Near(path[0], s) && path[|path| - 1] == p;
        PathFrom(g0, g1, r, w, h, s, path);
      }
    }
  }

  /** The scan's click on the neighbour `n` of `s` keeps the scan within the floods of its clicks. */
  lemma AroundStep(g0: Grid, g: Grid, r: Grid, w: nat, h: nat, s: Pos, n: Pos)
    requires OnlyReveals(g0, g, w, h) && OnlyReveals(g, r, w, h) && Near(n, s)
    requires AroundBounded(g0, g, w, h, s) && FloodBounded(g, r, w, h, n)
    ensures AroundBounded(g0, r, w, h, s)
  {
    forall p | NewlyRevealed(g0, r, w, h, p)
      ensures ReachedNear(g0, r, w, h, s, p)
    {
      if g[p.y][p.x].isRevealed {
        assert NewlyRevealed(g0, g, w, h, p);
        var path :| FloodPath(g0, g, w, h, path) && Near(path[0], s) && path[|path| - 1] == p;
        PathTransfer(g0, g0, g, r, w, h, path);
      } else {
        assert NewlyRevealed(g, r, w, h, p);
        var path :| FloodPath(g, r, w, h, path) && path[0] == n && path[|path| - 1] == p;
        PathTransfer(g0, g, r, r, w, h, path);
      }
    }
  }

  /** The bound of a click read against a board with the same marks, such as the board before the
      first click moved a mine. */
  lemma BoundedSwap(g0: Grid, g1: Grid, r: Grid, w: nat, h: nat, s: Pos)
    requires SameMarks(g0, g1, w, h) && FloodBounded(g1, r, w, h, s)
    ensures FloodBounded(g0, r, w, h, s)
  {
    forall p | NewlyRevealed(g0, r, w, h, p)
      ensures Reached(g0, r, w, h, s, p)
    {
      assert NewlyRevealed(g1, r, w, h, p);
      var path :| FloodPath(g1, r, w, h, path) && path[0] == s && path[|path| - 1] == p;
      PathTransfer(g0, g1, r, r, w, h, path);
    }
  }

  /** The flood's lower bound along a path: when its first cell is revealed and the flood is
      closed, every cell of the path is revealed or flagged. */
  lemma {:induction false} PathRevealed(g: Grid, r: Grid, w: nat, h: nat, path: seq<Pos>)
    requires OnlyReveals(g, r, w, h) && FloodClosed(g, r, w, h) && FloodPath(g, r, w, h, path)
    requires r[path[0].y][path[0].x].isRevealed
    ensures forall k :: 0 <= k < |path| ==> r[path[k].y][path[k].x].isRevealed || r[path[k].y][path[k].x].isFlagged
    decreases |path|
  {
    if |path| > 1 {
      var prefix := path[..|path| - 1];
      assert FloodPath(g, r, w, h, prefix);
      PathRevealed(g, r, w, h, prefix);
      var q := path[|path| - 2];
      assert prefix[|prefix| - 1] == q;
      assert Opener(g, r, w, h, q);
      assert r[q.y][q.x].isRevealed;
      assert Settled(r, w, h, q.x, q.y);
    }
  }

  /** A click on a number or a mine reveals that cell alone. */
  lemma NumberRevealsOne(g: Grid, r: Grid, w: nat, h: nat, s: Pos)
    requires FloodBounded(g, r, w, h, s) && InBounds(w, h, s)
    requires r[s.y][s.x].isMine || r[s.y][s.x].neighborMines != 0
    ensures forall p :: NewlyRevealed(g, r, w, h, p) ==> p == s
  {
    forall p | NewlyRevealed(g, r, w, h, p)
      ensures p == s
    {
      var path :| FloodPath(g, r, w, h, path) && path[0] == s && path[|path| - 1] == p;
      assert !Opener(g, r, w, h, s);
      assert |path| == 1;
    }
  }

  /** A cell the flood from `s` revealed in one outcome is revealed in any other outcome that
      is closed and reads the same counts. */
  lemma RevealedInBoth(g: Grid, ra: Grid, rb: Grid, w: nat, h: nat, s: Pos, p: Pos)
    requires OnlyReveals(g, ra, w, h) && OnlyReveals(g, rb, w, h) && FloodClosed(g, rb, w, h)
    requires InBounds(w, h, s) && rb[s.y][s.x].isRevealed && FloodBounded(g, ra, w, h, s)
    requires NewlyRevealed(g, ra, w, h, p) && !ra[p.y][p.x].isFlagged
    ensures rb[p.y][p.x].isRevealed
  {
    var path :| FloodPath(g, ra, w, h, path) && path[0] == s && path[|path| - 1] == p;
    PathTransfer(g, g, ra, rb, w, h, path);
    PathRevealed(g, rb, w, h, path);
  }

  /**
   * The two bounds meet: two outcomes of a click at `s` that only reveal cells, reveal `s`,
   * keep the flood closed, stay within the flood from `s` and never show a revealed flag are
   * the same board. The effect of a click is fully determined.
   */
  lemma FloodDetermined(g: Grid, r1: Grid, r2: Grid, w: nat, h: nat, s: Pos)
    requires OnlyReveals(g, r1, w, h) && OnlyReveals(g, r2, w, h) && InBounds(w, h, s)
    requires r1[s.y][s.x].isRevealed && r2[s.y][s.x].isRevealed
    requires FloodClosed(g, r1, w, h) && FloodClosed(g, r2, w, h)
    requires FloodBounded(g, r1, w, h, s) && FloodBounded(g, r2, w, h, s)
    requires forall y, x :: 0 <= y < h && 0 <= x < w ==>
      !(r1[y][x].isRevealed && r1[y][x].isFlagged) && !(r2[y][x].isRevealed && r2[y][x].isFlagged)
    ensures r1 == r2
  {
    forall y | 0 <= y < h
      ensures r1[y] == r2[y]
    {
      forall x | 0 <= x < w
        ensures r1[y][x] == r2[y][x]
      {
        if NewlyRevealed(g, r1, w, h, Pos(x, y)) {
          RevealedInBoth(g, r1, r2, w, h, s, Pos(x, y));
        } else if NewlyRevealed(g, r2, w, h, Pos(x, y)) {
          RevealedInBoth(g, r2, r1, w, h, s, Pos(x, y));
        }
      }
    }
  }

  /** Switching a flag twice restores the board. */
  lemma ToggleTwice(g: Grid, x: nat, y: nat)
    requires y < |g| && x < |g[y]|
    ensures Toggled(Toggled(g, x, y), x, y) == g
  {
    assert Toggled(Toggled(g, x, y), x, y)[y] == g[y];
  }

  /** Placing a flag lowers the flag count's complement by one; removing one raises it. */
  lemma ToggleCountsFlag(g: Grid, x: nat, y: nat)
    requires y < |g| && x < |g[y]|
    ensures GridFlags(Toggled(g, x, y)) == GridFlags(g) + (if g[y][x].isFlagged then -1 else 1)
  {
    GridFlagsUpdate(g, y, x, g[y][x].(isFlagged := !g[y][x].isFlagged));
  }

  /** Switching a flag changes neither mines nor counts. */
  lemma ToggleKeepsBoard(g: Grid, w: nat, h: nat, x: nat, y: nat)
    requires Rect(g, w, h) && InBounds(w, h, Pos(x, y))
    ensures Rect(Toggled(g, x, y), w, h)
    ensures SameMines(g, Toggled(g, x, y), w, h)
    ensures CountsCorrect(g, w, h) ==> CountsCorrect(Toggled(g, x, y), w, h)
    ensures MinePositions(Toggled(g, x, y), w, h) == MinePositions(g, w, h)
  {
    var t: Grid := Toggled(g, x, y);
    if CountsCorrect(g, w, h) {
      forall j, i | 0 <= j < h && 0 <= i < w && !t[j][i].isMine
        ensures t[j][i].neighborMines == AdjacentMines(t, w, h, i, j)
      {
        SameMinesSameCounts(g, t, w, h, i, j);
        assert g[j][i].neighborMines == AdjacentMines(g, w, h, i, j);
      }
    }
  }

  /** On a board with no flag the counter shows the full mine count. */
  lemma NoFlagsNoCount(g: Grid, w: nat, h: nat)
    requires Rect(g, w, h) && forall y, x :: 0 <= y < h && 0 <= x < w ==> !g[y][x].isFlagged
    ensures GridFlags(g) == 0
  {
    GridFlagsNone(g);
  }

  /** A freshly generated board satisfies the invariant of a game waiting for its first click. */
  lemma FreshBoardValid(b: array2<Cell>, w: nat, h: nat, n: nat)
    requires b.Length0 == h && b.Length1 == w
    requires forall j: int, i: int :: 0 <= j < h && 0 <= i < w ==> !b[j, i].isRevealed && !b[j, i].isFlagged
    requires |MinePositions(Snap(b), w, h)| == n && CountsCorrect(Snap(b), w, h)
    ensures ValidState(Snap(b), w, h, n, false, false, true) && Untouched(Snap(b), w, h)
  {
  }

  /** Every mine cell still carries the count 0 it was created with. */
  predicate MinesUncounted(g: Grid, w: nat, h: nat)
    requires Rect(g, w, h)
  {
    forall y, x :: 0 <= y < h && 0 <= x < w && g[y][x].isMine ==> g[y][x].neighborMines == 0
  }

  /** A board for a new game: `generateBoard`, with the facts the store needs about it; `g` is
      the board as a value and `mines` its mine positions. */
  method NewBoard(width: nat, height: nat, mineCount: nat, draws: seq<Pos>) returns (b: array2<Cell>, ghost g: Grid, ghost mines: set<Pos>)
    requires forall k :: 0 <= k < |draws| ==> InBounds(width, height, draws[k])
    requires mineCount <= |Drawn(draws, |draws|)|
    ensures fresh(b) && b.Length0 == height && b.Length1 == width && Snap(b) == g && Rect(g, width, height)
    ensures ValidState(g, width, height, mineCount, false, false, true) && Untouched(g, width, height)
    ensures MinePositions(g, width, height) == mines && DrawnLayout(draws, mineCount, mines)
    ensures MinesUncounted(g, width, height)
  {
    b := GenerateBoard(width, height, mineCount, draws);
    g := Snap(b);
    mines := MinePositions(g, width, height);
    FreshBoardValid(b, width, height, mineCount);
  }

  // ---------------------------------------------------------------------------------------------
  // The store

  class Game {
    const width: nat
    const height: nat
    const mineCount: nat
    var board: array2<Cell>
    var gameOver: bool
    var gameWon: bool
    var isFirstClick: bool
    var isAutoPlaying: bool

    /** The board as a value. */
    ghost function View(): (g: Grid)
      reads this, board
      requires board.Length0 == height && board.Length1 == width
      ensures Rect(g, width, height)
    {
      Snap(board)
    }

    /** The store's invariant: see `ValidState`. */
    ghost predicate Valid()
      reads this, board
    {
      board.Length0 == height && board.Length1 == width &&
      ValidState(View(), width, height, mineCount, gameOver, gameWon, isFirstClick)
    }

    ghost function Hidden(): set<Pos>
      reads this, board
      requires board.Length0 == height && board.Length1 == width
    {
      HiddenOf(View(), width, height)
    }

    /** A new game: a generated board, nothing revealed or flagged, waiting for the first click. */
    constructor(width: nat, height: nat, mineCount: nat, draws: seq<Pos>)
      requires forall k :: 0 <= k < |draws| ==> InBounds(width, height, draws[k])
      requires mineCount <= |Drawn(draws, |draws|)|
      ensures Valid() && fresh(board)
      ensures this.width == width && this.height == height && this.mineCount == mineCount
      ensures !gameOver && !gameWon && isFirstClick && !isAutoPlaying
      ensures Untouched(View(), this.width, this.height)
      ensures DrawnLayout(draws, mineCount, MinePositions(View(), width, height))
      ensures MinesUncounted(View(), width, height)
    {
      var b;
      ghost var g, mines;
      b, g, mines := NewBoard(width, height, mineCount, draws);
      this.width, this.height, this.mineCount := width, height, mineCount;
      board, gameOver, gameWon, isFirstClick, isAutoPlaying := b, false, false, true, false;
    }

    /** The mine counter: the mine count minus the number of flags on the board. */
    method RemainingMines() returns (remaining: int)
      requires Valid()
      ensures remaining == mineCount - GridFlags(View())
    {
      ghost var g := View();
      var flagged := 0;
      for y := 0 to height
        invariant flagged == GridFlags(g[..y])
      {
        for x := 0 to width
          invariant flagged == GridFlags(g[..y]) + RowFlags(g[y][..x])
        {
          RowFlagsStep(g[y], x);
          if board[y, x].isFlagged {
            flagged := flagged + 1;
          }
        }
        assert g[y][..width] == g[y];
        GridFlagsStep(g, y);
      }
      assert g[..height] == g;
      remaining := mineCount - flagged;
    }

    /** Declares the game won, and stops the automatic player, once every safe cell is revealed. */
    method CheckWinCondition()
      requires Valid()
      modifies this
      ensures Valid() && board == old(board) && gameOver == old(gameOver) && isFirstClick == old(isFirstClick)
      ensures gameWon == (old(gameWon) || AllSafeRevealed(View(), width, height))
      ensures isAutoPlaying == (old(isAutoPlaying) && !AllSafeRevealed(View(), width, height))
    {
      var allNonMinesRevealed := true;
      for y := 0 to height
        invariant allNonMinesRevealed <==>
          forall j, i :: 0 <= j < y && 0 <= i < width ==> board[j, i].isMine || board[j, i].isRevealed
      {
        for x := 0 to width
          invariant allNonMinesRevealed <==>
            (forall j, i :: 0 <= j < y && 0 <= i < width ==> board[j, i].isMine || board[j, i].isRevealed) &&
            (forall i :: 0 <= i < x ==> board[y, i].isMine || board[y, i].isRevealed)
        {
          if !board[y, x].isMine && !board[y, x].isRevealed {
            allNonMinesRevealed := false;
          }
        }
      }
      if allNonMinesRevealed {
        gameWon := true;
        isAutoPlaying := false;
      }
    }

    /** Switches the flag at (x, y), unless the game is over or won or the cell is revealed. */
    method ToggleFlag(x: nat, y: nat)
      requires Valid() && InBounds(width, height, Pos(x, y))
      modifies board
      ensures Valid()
      ensures View() == if old(!gameOver && !gameWon && !board[y, x].isRevealed) then Toggled(old(View()), x, y) else old(View())
    {
      if !gameOver && !gameWon && !board[y, x].isRevealed {
        ghost var g := View();
        board[y, x] := board[y, x].(isFlagged := !board[y, x].isFlagged);
        PointUpdate(g, View(), width, height, Pos(x, y));
        ToggleKeepsBoard(g, width, height, x, y);
      }
    }

    /**
     * A click on (x, y). Nothing happens once the game is over or won or on a flag. The first
     * click first moves a mine away from the clicked cell (`draws` are the random positions the
     * relocation draws). A mine ends the game; a hidden cell is revealed and, when no neighbour
     * is a mine, the whole block around it is clicked in turn; then the win is checked.
     */
    method RevealCell(x: int, y: int, draws: seq<Pos>)
      requires Valid() && InBounds(width, height, Pos(x, y))
      requires forall m :: 0 <= m < |draws| ==> InBounds(width, height, draws[m])
      requires isFirstClick && board[y, x].isMine ==> SomeAccepted(View(), width, height, Pos(x, y), draws, 0)
      modifies this, board
      decreases Hidden(), 1
      ensures Valid() && board == old(board) && Hidden() <= old(Hidden())
      ensures old(gameOver || gameWon || board[y, x].isFlagged) ==> unchanged(this, board)
      ensures !old(gameOver || gameWon || board[y, x].isFlagged) ==>
        !isFirstClick && board[y, x].isRevealed && (gameOver <==> board[y, x].isMine) &&
        (gameWon <==> !gameOver && AllSafeRevealed(View(), width, height)) &&
        isAutoPlaying == (old(isAutoPlaying) && !gameOver && !gameWon)
      ensures old(isFirstClick) && !old(gameOver || gameWon || board[y, x].isFlagged) ==>
        !board[y, x].isMine && MinePositions(View(), width, height) == old(FirstClickMines(View(), width, height, Pos(x, y), draws))
      ensures !old(gameOver) && !old(View())[y][x].isMine ==> View()[y][x].isRevealed || View()[y][x].isFlagged
      ensures !old(isFirstClick) ==> OnlyReveals(old(View()), View(), width, height)
      ensures Grows(old(View()), View(), width, height)
      ensures SafeExcept(old(View()), View(), width, height, Pos(x, y))
      ensures FloodClosed(old(View()), View(), width, height)
      ensures FloodBounded(old(View()), View(), width, height, Pos(x, y))
    {
      if gameOver || gameWon || board[y, x].isFlagged {
        if gameWon && !board[y, x].isMine {
          assert View()[y][x].isRevealed;
        }
        RevealOneBounded(View(), View(), width, height, Pos(x, y));
        return;
      }
      ghost var g0 := View();
      if isFirstClick {
        PrepareFirstClick(x, y, draws);
      }
      ghost var g1 := View();
      Uncover(x, y);
      SameMarksSwap(g0, g1, View(), width, height, Pos(x, y));
      BoundedSwap(g0, g1, View(), width, height, Pos(x, y));
      OnlyRevealsKeeps(g1, View(), width, height);
    }

    /** The first click's preparation: a mine under the click is moved away and the game is no
        longer waiting for its first click. */
    method PrepareFirstClick(x: int, y: int, draws: seq<Pos>)
      requires Valid() && InBounds(width, height, Pos(x, y)) && isFirstClick && !gameOver && !gameWon
      requires forall m :: 0 <= m < |draws| ==> InBounds(width, height, draws[m])
      requires board[y, x].isMine ==> SomeAccepted(View(), width, height, Pos(x, y), draws, 0)
      modifies this, board
      ensures Valid() && board == old(board) && !isFirstClick && !gameOver && !gameWon
      ensures isAutoPlaying == old(isAutoPlaying)
      ensures !board[y, x].isMine && SameMarks(old(View()), View(), width, height)
      ensures MinePositions(View(), width, height) == old(FirstClickMines(View(), width, height, Pos(x, y), draws))
    {
      ghost var g0 := View();
      HandleFirstClick(board, x, y, width, height, draws);
      isFirstClick := false;
      FirstClickFacts(g0, View(), width, height, Pos(x, y), draws);
    }

    /** The part of a click after the first-click preparation: a mine ends the game, a hidden
        cell is revealed and flooded from when empty, and the win is checked. */
    method Uncover(x: int, y: int)
      requires Valid() && InBounds(width, height, Pos(x, y))
      requires !gameOver && !gameWon && !isFirstClick && !board[y, x].isFlagged
      modifies this, board
      decreases Hidden(), 0
      ensures Valid() && board == old(board) && !isFirstClick && Hidden() <= old(Hidden())
      ensures board[y, x].isRevealed && (gameOver <==> board[y, x].isMine)
      ensures gameWon <==> !gameOver && AllSafeRevealed(View(), width, height)
      ensures isAutoPlaying == (old(isAutoPlaying) && !gameOver && !gameWon)
      ensures OnlyReveals(old(View()), View(), width, height)
      ensures SafeExcept(old(View()), View(), width, height, Pos(x, y))
      ensures FloodClosed(old(View()), View(), width, height)
      ensures FloodBounded(old(View()), View(), width, height, Pos(x, y))
      ensures old(View())[y][x].isMine || old(View())[y][x].neighborMines != 0 ==> View() == Revealed(old(View()), x, y)
    {
      ghost var g0 := View();
      var cell := board[y, x];
      if cell.isMine {
        RevealMine(x, y);
        return;
      }
      if !cell.isRevealed {
        board[y, x] := cell.(isRevealed := true);
        ghost var g1 := View();
        RevealOne(g0, g1, width, height, x, y);
        RevealOneValid(g0, g1, width, height, mineCount, x, y);
        PointUpdate(g0, g1, width, height, Pos(x, y));
        if cell.neighborMines == 0 {
          RevealAround(x, y);
          OnlyRevealsTrans(g0, g1, View(), width, height);
          SafeExceptTrans(g0, g1, View(), width, height, Pos(x, y), Pos(x, y));
          FloodClosedFrom(g0, g1, View(), width, height, x, y);
          UncoverBounded(g0, g1, View(), width, height, Pos(x, y));
        } else {
          RevealOneBounded(g0, g1, width, height, Pos(x, y));
        }
      } else {
        assert g0[y][x].(isRevealed := true) == g0[y][x];
        assert Revealed(g0, x, y)[y] == g0[y];
        RevealOneBounded(g0, g0, width, height, Pos(x, y));
      }
      CheckWinCondition();
    }

    /** A click on a mine: the mine is shown and the game is lost. */
    method RevealMine(x: int, y: int)
      requires Valid() && InBounds(width, height, Pos(x, y))
      requires !gameOver && !gameWon && !isFirstClick && !board[y, x].isFlagged && board[y, x].isMine
      modifies this, board
      ensures Valid() && board == old(board) && gameOver && !gameWon && !isFirstClick && !isAutoPlaying
      ensures board[y, x].isRevealed && Hidden() <= old(Hidden())
      ensures OnlyReveals(old(View()), View(), width, height)
      ensures SafeExcept(old(View()), View(), width, height, Pos(x, y))
      ensures FloodClosed(old(View()), View(), width, height)
      ensures View() == Revealed(old(View()), x, y) && FloodBounded(old(View()), View(), width, height, Pos(x, y))
    {
      ghost var g0 := View();
      board[y, x], gameOver, isAutoPlaying := board[y, x].(isRevealed := true), true, false;
      RevealOne(g0, View(), width, height, x, y);
      RevealOneValid(g0, View(), width, height, mineCount, x, y);
      PointUpdate(g0, View(), width, height, Pos(x, y));
      RevealOneBounded(g0, View(), width, height, Pos(x, y));
    }

    /** Clicks every on-board cell of the 3x3 block around the empty cell (x, y), row by row. */
    method RevealAround(x: int, y: int)
      requires Valid() && InBounds(width, height, Pos(x, y)) && !gameOver && !gameWon && !isFirstClick
      requires board[y, x].isRevealed && !board[y, x].isMine && board[y, x].neighborMines == 0
      modifies this, board
      decreases Hidden(), 4
      ensures Valid() && board == old(board) && !gameOver && !isFirstClick && Hidden() <= old(Hidden())
      ensures isAutoPlaying == (old(isAutoPlaying) && !gameWon)
      ensures OnlyReveals(old(View()), View(), width, height)
      ensures SafeExcept(old(View()), View(), width, height, Pos(x, y))
      ensures FloodClosed(old(View()), View(), width, height)
      ensures Settled(View(), width, height, x, y)
      ensures AroundBounded(old(View()), View(), width, height, Pos(x, y))
    {
      ghost var g0 := View();
      for dy := -1 to 2
        invariant Valid() && board == old(board) && !gameOver && !isFirstClick
        invariant isAutoPlaying == (old(isAutoPlaying) && !gameWon)
        invariant FloodSoFar(g0, View(), width, height, x, y, dy, -1)
        invariant AroundBounded(g0, View(), width, height, Pos(x, y))
      {
        for dx := -1 to 2
          invariant Valid() && board == old(board) && !gameOver && !isFirstClick
          invariant isAutoPlaying == (old(isAutoPlaying) && !gameWon)
          invariant FloodSoFar(g0, View(), width, height, x, y, dy, dx)
          invariant AroundBounded(g0, View(), width, height, Pos(x, y))
        {
          OnlyRevealsKeeps(g0, View(), width, height);
          RevealNeighbour(x, y, dy, dx, g0);
        }
        SettledNextRow(View(), width, height, x, y, dy);
      }
      SettledAll(View(), width, height, x, y);
      OnlyRevealsKeeps(g0, View(), width, height);
    }

    /** A new board for the same size and mine count, and all flags back to their initial values. */
    method ResetGame(draws: seq<Pos>)
      requires forall k :: 0 <= k < |draws| ==> InBounds(width, height, draws[k])
      requires mineCount <= |Drawn(draws, |draws|)|
      modifies this
      ensures Valid() && fresh(board)
      ensures !gameOver && !gameWon && isFirstClick && !isAutoPlaying
      ensures Untouched(View(), width, height)
      ensures DrawnLayout(draws, mineCount, MinePositions(View(), width, height))
      ensures MinesUncounted(View(), width, height)
    {
      gameOver, gameWon, isFirstClick, isAutoPlaying := false, false, true, false;
      var b;
      ghost var g, mines;
      b, g, mines := NewBoard(width, height, mineCount, draws);
      board := b;
    }

    /** One step of the scan around the empty cell (x, y): the cell at offset (dy, dx) is
        clicked when it lies on the board. */
    method RevealNeighbour(x: int, y: int, dy: int, dx: int, ghost g0: Grid)
      requires Valid() && !gameOver && !isFirstClick && -1 <= dy <= 1 && -1 <= dx <= 1
      requires InBounds(width, height, Pos(x, y)) && FloodSoFar(g0, View(), width, height, x, y, dy, dx)
      requires g0[y][x].isRevealed && !g0[y][x].isMine && g0[y][x].neighborMines == 0
      requires AroundBounded(g0, View(), width, height, Pos(x, y))
      modifies this, board
      decreases Hidden(), 3
      ensures Valid() && board == old(board) && !gameOver && !isFirstClick && Hidden() <= old(Hidden())
      ensures isAutoPlaying == (old(isAutoPlaying) && (old(gameWon) || !gameWon))
      ensures old(gameWon) ==> gameWon
      ensures FloodSoFar(g0, View(), width, height, x, y, dy, dx + 1)
      ensures AroundBounded(g0, View(), width, height, Pos(x, y))
    {
      var ny := y + dy;
      var nx := x + dx;
      if ny >= 0 && ny < height && nx >= 0 && nx < width {
        ghost var gb := View();
        FloodNeighbourSafe(g0, gb, width, height, x, y, dy, dx);
        FloodClick(nx, ny);
        FloodStep(g0, gb, View(), width, height, x, y, dy, dx);
        AroundStep(g0, gb, View(), width, height, Pos(x, y), Pos(nx, ny));
      } else {
        FloodSkip(g0, View(), width, height, x, y, dy, dx);
      }
    }

    /** The flood's click on a safe cell next to an empty one: `RevealCell` without relocation
        draws, with the part of its contract the scan relies on. */
    method FloodClick(x: int, y: int)
      requires Valid() && InBounds(width, height, Pos(x, y)) && !gameOver && !isFirstClick && !board[y, x].isMine
      modifies this, board
      decreases Hidden(), 2
      ensures Valid() && board == old(board) && !gameOver && !isFirstClick && Hidden() <= old(Hidden())
      ensures isAutoPlaying == (old(isAutoPlaying) && (old(gameWon) || !gameWon))
      ensures old(gameWon) ==> gameWon
      ensures OnlyReveals(old(View()), View(), width, height) && SafeExcept(old(View()), View(), width, height, Pos(x, y))
      ensures FloodClosed(old(View()), View(), width, height) && FloodBounded(old(View()), View(), width, height, Pos(x, y))
      ensures View()[y][x].isRevealed || View()[y][x].isFlagged
    {
      RevealCell(x, y, []);
    }
  }
}
