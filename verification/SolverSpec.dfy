/**
 * What the automatic player reads off a board, stated on the board's value.
 * The solver's methods are proved to compute these functions; the lemmas
 * here say what the functions mean for the hidden mines.
 */
module SolverSpec {
  import opened Board

  /** What the solver records about one revealed number. */
  datatype CellInfo = CellInfo(x: int, y: int, cell: Cell, unknownNeighbors: seq<Pos>, flaggedNeighbors: nat, value: int)

  predicate Distinct(ps: seq<Pos>) {
    forall i, j :: 0 <= i < j < |ps| ==> ps[i] != ps[j]
  }

  /** An on-board cell carrying a flag. */
  predicate FlaggedAt(g: Grid, w: nat, h: nat, p: Pos)
    requires Rect(g, w, h)
  {
    InBounds(w, h, p) && g[p.y][p.x].isFlagged
  }

  /** An on-board cell that is neither flagged nor revealed: the player does not know what it holds. */
  predicate UnknownAt(g: Grid, w: nat, h: nat, p: Pos)
    requires Rect(g, w, h)
  {
    InBounds(w, h, p) && !g[p.y][p.x].isFlagged && !g[p.y][p.x].isRevealed
  }

  function FlaggedAmong(g: Grid, w: nat, h: nat, ps: seq<Pos>): nat
    requires Rect(g, w, h)
  {
    if ps == [] then 0
    else FlaggedAmong(g, w, h, ps[..|ps| - 1]) + (if FlaggedAt(g, w, h, ps[|ps| - 1]) then 1 else 0)
  }

  function UnknownAmong(g: Grid, w: nat, h: nat, ps: seq<Pos>): seq<Pos>
    requires Rect(g, w, h)
  {
    if ps == [] then []
    else UnknownAmong(g, w, h, ps[..|ps| - 1]) + (if UnknownAt(g, w, h, ps[|ps| - 1]) then [ps[|ps| - 1]] else [])
  }

  /** The record the solver builds for the cell at (x, y). */
  function NeighborInfo(g: Grid, w: nat, h: nat, x: int, y: int): CellInfo
    requires Rect(g, w, h) && InBounds(w, h, Pos(x, y))
  {
    CellInfo(x, y, g[y][x], UnknownAmong(g, w, h, Adjacent(x, y)), FlaggedAmong(g, w, h, Adjacent(x, y)), g[y][x].neighborMines)
  }

  /** The unknown positions among the first `k` steps of the block scan around (x, y), the centre (step 4) skipped. */
  function ScanUnknown(g: Grid, w: nat, h: nat, x: int, y: int, k: nat): seq<Pos>
    requires Rect(g, w, h)
  {
    if k == 0 then []
    else
      var p := WindowAt(x, y, k - 1);
      ScanUnknown(g, w, h, x, y, k - 1) + (if k - 1 != 4 && UnknownAt(g, w, h, p) then [p] else [])
  }

  /** The flags among the first `k` steps of the block scan around (x, y), the centre skipped. */
  function ScanFlagged(g: Grid, w: nat, h: nat, x: int, y: int, k: nat): nat
    requires Rect(g, w, h)
  {
    if k == 0 then 0
    else ScanFlagged(g, w, h, x, y, k - 1) + (if k - 1 != 4 && FlaggedAt(g, w, h, WindowAt(x, y, k - 1)) then 1 else 0)
  }

  /** After `k` steps of the block scan around (x, y), the scan holds these running values. */
  predicate Scanned(g: Grid, w: nat, h: nat, x: int, y: int, k: nat, unknown: seq<Pos>, flagged: nat)
    requires Rect(g, w, h)
  {
    unknown == ScanUnknown(g, w, h, x, y, k) && flagged == ScanFlagged(g, w, h, x, y, k)
  }

  /** One step of the block scan: the neighbour at offset (dx, dy) joins the list or the count, or neither;
      the centre is skipped. */
  lemma ScanNext(g: Grid, w: nat, h: nat, x: int, y: int, dx: int, dy: int, unknown: seq<Pos>, flagged: nat)
    requires Rect(g, w, h) && -1 <= dx <= 1 && -1 <= dy <= 1
    requires Scanned(g, w, h, x, y, 3 * (dy + 1) + (dx + 1), unknown, flagged)
    ensures (dx, dy) == (0, 0) ==> Scanned(g, w, h, x, y, 3 * (dy + 1) + (dx + 1) + 1, unknown, flagged)
    ensures
      var p := Pos(x + dx, y + dy);
      (dx, dy) != (0, 0) ==>
        Scanned(g, w, h, x, y, 3 * (dy + 1) + (dx + 1) + 1,
          unknown + (if UnknownAt(g, w, h, p) then [p] else []), flagged + (if FlaggedAt(g, w, h, p) then 1 else 0))
  {
    WindowAtOffset(x, y, dx, dy);
  }

  /** Before step `k` of the block scan, the neighbour scan has visited this many neighbours. */
  function AdjCount(k: nat): nat {
    if k <= 4 then k else k - 1
  }

  /** Step `k` of the block scan, the centre aside, visits neighbour number `AdjCount(k)`. */
  lemma AdjacentAtStep(x: int, y: int, k: nat)
    requires k < 9 && k != 4
    ensures AdjCount(k) < 8 && Adjacent(x, y)[AdjCount(k)] == WindowAt(x, y, k) && AdjCount(k + 1) == AdjCount(k) + 1
  {
    WindowAtIndex(x, y, k);
    WindowSplit(x, y);
  }

  /** The scan's running values are the two filters over the neighbours visited so far. */
  lemma {:induction false} ScanPrefix(g: Grid, w: nat, h: nat, x: int, y: int, k: nat)
    requires Rect(g, w, h) && k <= 9
    ensures ScanUnknown(g, w, h, x, y, k) == UnknownAmong(g, w, h, Adjacent(x, y)[..AdjCount(k)])
    ensures ScanFlagged(g, w, h, x, y, k) == FlaggedAmong(g, w, h, Adjacent(x, y)[..AdjCount(k)])
  {
    if k > 0 {
      ScanPrefix(g, w, h, x, y, k - 1);
      if k - 1 != 4 {
        var a := AdjCount(k - 1);
        var ps := Adjacent(x, y)[..a + 1];
        AdjacentAtStep(x, y, k - 1);
        assert ps[..|ps| - 1] == Adjacent(x, y)[..a];
      }
    }
  }

  lemma {:induction false} UnknownAmongMembers(g: Grid, w: nat, h: nat, ps: seq<Pos>, p: Pos)
    requires Rect(g, w, h)
    ensures p in UnknownAmong(g, w, h, ps) <==> p in ps && UnknownAt(g, w, h, p)
  {
    if ps != [] {
      UnknownAmongMembers(g, w, h, ps[..|ps| - 1], p);
      assert ps == ps[..|ps| - 1] + [ps[|ps| - 1]];
    }
  }

  lemma {:induction false} UnknownAmongDistinct(g: Grid, w: nat, h: nat, ps: seq<Pos>)
    requires Rect(g, w, h) && Distinct(ps)
    ensures Distinct(UnknownAmong(g, w, h, ps))
  {
    if ps != [] {
      var init := ps[..|ps| - 1];
      UnknownAmongDistinct(g, w, h, init);
      UnknownAmongMembers(g, w, h, init, ps[|ps| - 1]);
    }
  }

  lemma AdjacentDistinct(x: int, y: int)
    ensures Distinct(Adjacent(x, y))
  {
  }

  /** A listed position counts as flagged or as unknown, never both. */
  lemma {:induction false} FlaggedUnknownBound(g: Grid, w: nat, h: nat, ps: seq<Pos>)
    requires Rect(g, w, h)
    ensures FlaggedAmong(g, w, h, ps) + |UnknownAmong(g, w, h, ps)| <= |ps|
  {
    if ps != [] {
      FlaggedUnknownBound(g, w, h, ps[..|ps| - 1]);
    }
  }

  /** A record names at most eight neighbours as flagged or unknown, together. */
  lemma NeighborInfoBound(g: Grid, w: nat, h: nat, x: int, y: int)
    requires Rect(g, w, h) && InBounds(w, h, Pos(x, y))
    ensures NeighborInfo(g, w, h, x, y).flaggedNeighbors + |NeighborInfo(g, w, h, x, y).unknownNeighbors| <= 8
  {
    FlaggedUnknownBound(g, w, h, Adjacent(x, y));
  }

  lemma {:induction false} DistinctCard(a: seq<Pos>)
    requires Distinct(a)
    ensures |set p | p in a| == |a|
  {
    if a != [] {
      var init, last := a[..|a| - 1], a[|a| - 1];
      DistinctCard(init);
      assert (set p | p in a) == (set p | p in init) + {last} by {
        assert a == init + [last];
      }
      assert last !in init;
    }
  }

  /** Two repetition-free sequences hold the same positions exactly when they are equally long and one holds the other's. */
  lemma SameMembers(a: seq<Pos>, b: seq<Pos>)
    requires Distinct(a) && Distinct(b)
    ensures (forall p :: p in a <==> p in b) <==> |a| == |b| && forall p :: p in a ==> p in b
  {
    DistinctCard(a);
    DistinctCard(b);
    var sa, sb := set p | p in a, set p | p in b;
    if forall p :: p in a <==> p in b {
      assert sa == sb;
    }
    if |a| == |b| && forall p :: p in a ==> p in b {
      assert sa <= sb;
      assert |sb - sa| == |sb| - |sa|;
      assert sb - sa == {};
      forall p | p in b ensures p in a {
        assert p in sb;
      }
    }
  }

  /** Flagged mines, revealed mines and unknown mines among `ps`: each in-bounds mine is in exactly one group. */
  function FlaggedMines(g: Grid, w: nat, h: nat, ps: seq<Pos>): nat
    requires Rect(g, w, h)
  {
    if ps == [] then 0
    else FlaggedMines(g, w, h, ps[..|ps| - 1]) + (if FlaggedAt(g, w, h, ps[|ps| - 1]) then MineInt(g, w, h, ps[|ps| - 1]) else 0)
  }

  function ShownMines(g: Grid, w: nat, h: nat, ps: seq<Pos>): nat
    requires Rect(g, w, h)
  {
    if ps == [] then 0
    else
      var p := ps[|ps| - 1];
      ShownMines(g, w, h, ps[..|ps| - 1]) + (if InBounds(w, h, p) && !g[p.y][p.x].isFlagged && g[p.y][p.x].isRevealed then MineInt(g, w, h, p) else 0)
  }

  /** The mines among `ps` are the flagged ones, the revealed ones and those still unknown. */
  lemma {:induction false} MinesSplit(g: Grid, w: nat, h: nat, ps: seq<Pos>)
    requires Rect(g, w, h)
    ensures MinesAmong(g, w, h, ps) == FlaggedMines(g, w, h, ps) + ShownMines(g, w, h, ps) + MinesAmong(g, w, h, UnknownAmong(g, w, h, ps))
    ensures FlaggedMines(g, w, h, ps) <= FlaggedAmong(g, w, h, ps)
  {
    if ps != [] {
      var init, p := ps[..|ps| - 1], ps[|ps| - 1];
      MinesSplit(g, w, h, init);
      MinesAmongAppend(g, w, h, UnknownAmong(g, w, h, init), if UnknownAt(g, w, h, p) then [p] else []);
      assert [p][..0] == [];
    }
  }

  /** Revealed cells never hold mines: the state of every game that is not lost. */
  predicate RevealedSafe(g: Grid, w: nat, h: nat)
    requires Rect(g, w, h)
  {
    forall y, x :: 0 <= y < h && 0 <= x < w && g[y][x].isRevealed ==> !g[y][x].isMine
  }

  /** Every flag sits on a mine. */
  predicate FlagsCorrect(g: Grid, w: nat, h: nat)
    requires Rect(g, w, h)
  {
    forall y, x :: 0 <= y < h && 0 <= x < w && g[y][x].isFlagged ==> g[y][x].isMine
  }

  lemma {:induction false} NoShownMines(g: Grid, w: nat, h: nat, ps: seq<Pos>)
    requires Rect(g, w, h) && RevealedSafe(g, w, h)
    ensures ShownMines(g, w, h, ps) == 0
  {
    if ps != [] {
      NoShownMines(g, w, h, ps[..|ps| - 1]);
    }
  }

  lemma {:induction false} AllFlagsMines(g: Grid, w: nat, h: nat, ps: seq<Pos>)
    requires Rect(g, w, h) && FlagsCorrect(g, w, h)
    ensures FlaggedMines(g, w, h, ps) == FlaggedAmong(g, w, h, ps)
  {
    if ps != [] {
      AllFlagsMines(g, w, h, ps[..|ps| - 1]);
    }
  }

  /** When every position counts a mine, every position is an on-board mine. */
  lemma {:induction false} FullCountAllMines(g: Grid, w: nat, h: nat, ps: seq<Pos>)
    requires Rect(g, w, h) && MinesAmong(g, w, h, ps) == |ps|
    ensures forall p :: p in ps ==> InBounds(w, h, p) && g[p.y][p.x].isMine
  {
    if ps != [] {
      MinesAmongBound(g, w, h, ps[..|ps| - 1]);
      FullCountAllMines(g, w, h, ps[..|ps| - 1]);
      assert ps == ps[..|ps| - 1] + [ps[|ps| - 1]];
    }
  }

  /** When no position counts a mine, no on-board position is a mine. */
  lemma {:induction false} ZeroCountNoMines(g: Grid, w: nat, h: nat, ps: seq<Pos>)
    requires Rect(g, w, h) && MinesAmong(g, w, h, ps) == 0
    ensures forall p :: p in ps && InBounds(w, h, p) ==> !g[p.y][p.x].isMine
  {
    if ps != [] {
      ZeroCountNoMines(g, w, h, ps[..|ps| - 1]);
      assert ps == ps[..|ps| - 1] + [ps[|ps| - 1]];
    }
  }

  /**
   * The mine accounting behind both rules: around a revealed number, the
   * unknown neighbours hold at least `value - flagged` mines, and exactly
   * that many when every flag is right.
   */
  lemma Accounting(g: Grid, w: nat, h: nat, x: int, y: int)
    requires Rect(g, w, h) && CountsCorrect(g, w, h) && RevealedSafe(g, w, h)
    requires InBounds(w, h, Pos(x, y)) && !g[y][x].isMine
    ensures var info := NeighborInfo(g, w, h, x, y);
      info.value - info.flaggedNeighbors <= MinesAmong(g, w, h, info.unknownNeighbors) <= |info.unknownNeighbors| &&
      (FlagsCorrect(g, w, h) ==> info.value - info.flaggedNeighbors == MinesAmong(g, w, h, info.unknownNeighbors))
  {
    var adj := Adjacent(x, y);
    assert g[y][x].neighborMines == AdjacentMines(g, w, h, x, y);
    AdjacentIsMinesAmong(g, w, h, x, y);
    MinesSplit(g, w, h, adj);
    NoShownMines(g, w, h, adj);
    MinesAmongBound(g, w, h, UnknownAmong(g, w, h, adj));
    if FlagsCorrect(g, w, h) {
      AllFlagsMines(g, w, h, adj);
    }
  }

  // ---------------------------------------------------------------------------------------------
  // The revealed numbers, in row-major order

  /** A revealed safe cell showing a positive number: the only cells the rules look at. */
  predicate Numbered(c: Cell) {
    c.isRevealed && !c.isMine && c.neighborMines > 0
  }

  function NumberedRow(g: Grid, w: nat, h: nat, y: int, n: nat): seq<CellInfo>
    requires Rect(g, w, h) && 0 <= y < h && n <= w
  {
    if n == 0 then []
    else NumberedRow(g, w, h, y, n - 1) + (if Numbered(g[y][n - 1]) then [NeighborInfo(g, w, h, n - 1, y)] else [])
  }

  function NumberedRows(g: Grid, w: nat, h: nat, m: nat): seq<CellInfo>
    requires Rect(g, w, h) && m <= h
  {
    if m == 0 then [] else NumberedRows(g, w, h, m - 1) + NumberedRow(g, w, h, m - 1, w)
  }

  function NumberedCells(g: Grid, w: nat, h: nat): seq<CellInfo>
    requires Rect(g, w, h)
  {
    NumberedRows(g, w, h, h)
  }

  /** The record of an on-board numbered cell. */
  predicate RecordOf(g: Grid, w: nat, h: nat, info: CellInfo)
    requires Rect(g, w, h)
  {
    InBounds(w, h, Pos(info.x, info.y)) && Numbered(g[info.y][info.x]) && info == NeighborInfo(g, w, h, info.x, info.y)
  }

  lemma {:induction false} NumberedRowMembers(g: Grid, w: nat, h: nat, y: int, n: nat)
    requires Rect(g, w, h) && 0 <= y < h && n <= w
    ensures forall info :: info in NumberedRow(g, w, h, y, n) ==> RecordOf(g, w, h, info) && info.y == y
    ensures forall x :: 0 <= x < n && Numbered(g[y][x]) ==> NeighborInfo(g, w, h, x, y) in NumberedRow(g, w, h, y, n)
  {
    if n > 0 {
      NumberedRowMembers(g, w, h, y, n - 1);
    }
  }

  lemma {:induction false} NumberedRowsMembers(g: Grid, w: nat, h: nat, m: nat)
    requires Rect(g, w, h) && m <= h
    ensures forall info :: info in NumberedRows(g, w, h, m) ==> RecordOf(g, w, h, info)
    ensures forall y, x :: 0 <= y < m && 0 <= x < w && Numbered(g[y][x]) ==> NeighborInfo(g, w, h, x, y) in NumberedRows(g, w, h, m)
  {
    if m > 0 {
      NumberedRowsMembers(g, w, h, m - 1);
      NumberedRowMembers(g, w, h, m - 1, w);
    }
  }

  /** The solver sees exactly one record per numbered cell of the board, and nothing else. */
  lemma NumberedCellsExactly(g: Grid, w: nat, h: nat)
    requires Rect(g, w, h)
    ensures forall info :: info in NumberedCells(g, w, h) ==> RecordOf(g, w, h, info)
    ensures forall y, x :: 0 <= y < h && 0 <= x < w && Numbered(g[y][x]) ==> NeighborInfo(g, w, h, x, y) in NumberedCells(g, w, h)
  {
    NumberedRowsMembers(g, w, h, h);
  }

  /** The unknown neighbours listed in any record are unknown cells of the board. */
  lemma RecordedUnknownsOnBoard(g: Grid, w: nat, h: nat)
    requires Rect(g, w, h)
    ensures forall info, p :: info in NumberedCells(g, w, h) && p in info.unknownNeighbors ==> UnknownAt(g, w, h, p)
  {
    NumberedCellsExactly(g, w, h);
    forall info, p | info in NumberedCells(g, w, h) && p in info.unknownNeighbors ensures UnknownAt(g, w, h, p) {
      UnknownAmongMembers(g, w, h, Adjacent(info.x, info.y), p);
    }
  }

  // ---------------------------------------------------------------------------------------------
  // The three rules and the positions they collect

  /** The rule that flags mines, the rule that reveals safe cells, and the rule that feeds the probabilities. */
  datatype Rule = MineRule | SafeRule | ProbRule

  /** The mines a number still has to account for once its flags are subtracted. */
  function Remaining(info: CellInfo): int {
    info.value - info.flaggedNeighbors
  }

  predicate Applies(rule: Rule, info: CellInfo) {
    match rule
    case MineRule => Remaining(info) > 0 && Remaining(info) == |info.unknownNeighbors|
    case SafeRule => info.value == info.flaggedNeighbors && |info.unknownNeighbors| > 0
    case ProbRule => Remaining(info) > 0 && |info.unknownNeighbors| > 0
  }

  /** The per-position filter each rule applies before adding a neighbour. */
  predicate Keeps(g: Grid, w: nat, h: nat, rule: Rule, p: Pos)
    requires Rect(g, w, h)
  {
    match rule
    case MineRule => InBounds(w, h, p) && !g[p.y][p.x].isFlagged
    case SafeRule => UnknownAt(g, w, h, p)
    case ProbRule => true
  }

  /** Adding `ps` one by one to an insertion-ordered set. */
  function AddNew(g: Grid, w: nat, h: nat, rule: Rule, acc: seq<Pos>, ps: seq<Pos>): seq<Pos>
    requires Rect(g, w, h)
  {
    if ps == [] then acc
    else
      var a := AddNew(g, w, h, rule, acc, ps[..|ps| - 1]);
      var p := ps[|ps| - 1];
      if Keeps(g, w, h, rule, p) && p !in a then a + [p] else a
  }

  /** The positions a rule collects from a sequence of records, in first-insertion order. */
  function Collect(g: Grid, w: nat, h: nat, rule: Rule, infos: seq<CellInfo>): seq<Pos>
    requires Rect(g, w, h)
  {
    if infos == [] then []
    else
      var acc := Collect(g, w, h, rule, infos[..|infos| - 1]);
      var info := infos[|infos| - 1];
      if Applies(rule, info) then AddNew(g, w, h, rule, acc, info.unknownNeighbors) else acc
  }

  function DefiniteMines(g: Grid, w: nat, h: nat): seq<Pos>
    requires Rect(g, w, h)
  {
    Collect(g, w, h, MineRule, NumberedCells(g, w, h))
  }

  function DefiniteSafe(g: Grid, w: nat, h: nat): seq<Pos>
    requires Rect(g, w, h)
  {
    Collect(g, w, h, SafeRule, NumberedCells(g, w, h))
  }

  function ProbKeys(g: Grid, w: nat, h: nat): seq<Pos>
    requires Rect(g, w, h)
  {
    Collect(g, w, h, ProbRule, NumberedCells(g, w, h))
  }

  lemma {:induction false} AddNewMembers(g: Grid, w: nat, h: nat, rule: Rule, acc: seq<Pos>, ps: seq<Pos>)
    requires Rect(g, w, h)
    ensures forall p :: p in AddNew(g, w, h, rule, acc, ps) <==> p in acc || (p in ps && Keeps(g, w, h, rule, p))
    ensures Distinct(acc) ==> Distinct(AddNew(g, w, h, rule, acc, ps))
  {
    if ps != [] {
      AddNewMembers(g, w, h, rule, acc, ps[..|ps| - 1]);
      assert ps == ps[..|ps| - 1] + [ps[|ps| - 1]];
    }
  }

  /** Collected positions are never repeated. */
  lemma {:induction false} CollectDistinct(g: Grid, w: nat, h: nat, rule: Rule, infos: seq<CellInfo>)
    requires Rect(g, w, h)
    ensures Distinct(Collect(g, w, h, rule, infos))
  {
    if infos != [] {
      var init := infos[..|infos| - 1];
      CollectDistinct(g, w, h, rule, init);
      AddNewMembers(g, w, h, rule, Collect(g, w, h, rule, init), infos[|infos| - 1].unknownNeighbors);
    }
  }

  /** A position is collected exactly when some record the rule applies to lists it as unknown and the filter keeps it. */
  lemma {:induction false} CollectMembers(g: Grid, w: nat, h: nat, rule: Rule, infos: seq<CellInfo>, p: Pos)
    requires Rect(g, w, h)
    ensures p in Collect(g, w, h, rule, infos) <==>
      Keeps(g, w, h, rule, p) && exists i :: 0 <= i < |infos| && Applies(rule, infos[i]) && p in infos[i].unknownNeighbors
  {
    if infos != [] {
      var init := infos[..|infos| - 1];
      CollectMembers(g, w, h, rule, init, p);
      AddNewMembers(g, w, h, rule, Collect(g, w, h, rule, init), infos[|infos| - 1].unknownNeighbors);
      if Keeps(g, w, h, rule, p) && exists i :: 0 <= i < |infos| && Applies(rule, infos[i]) && p in infos[i].unknownNeighbors {
        var i :| 0 <= i < |infos| && Applies(rule, infos[i]) && p in infos[i].unknownNeighbors;
        if i < |init| {
          assert init[i] == infos[i];
        }
      }
    }
  }

  /** Every position a rule collects is an unknown cell next to some numbered cell the rule applies to. */
  lemma CollectedFrom(g: Grid, w: nat, h: nat, rule: Rule, p: Pos)
    requires Rect(g, w, h) && p in Collect(g, w, h, rule, NumberedCells(g, w, h))
    ensures UnknownAt(g, w, h, p)
    ensures exists info :: info in NumberedCells(g, w, h) && RecordOf(g, w, h, info) && Applies(rule, info) && p in info.unknownNeighbors
  {
    var infos := NumberedCells(g, w, h);
    CollectMembers(g, w, h, rule, infos, p);
    NumberedCellsExactly(g, w, h);
    var i :| 0 <= i < |infos| && Applies(rule, infos[i]) && p in infos[i].unknownNeighbors;
    var info := infos[i];
    assert info in infos;
    assert info.unknownNeighbors == UnknownAmong(g, w, h, Adjacent(info.x, info.y));
    UnknownAmongMembers(g, w, h, Adjacent(info.x, info.y), p);
  }

  /** Soundness of the mine rule: on a board whose revealed cells are safe, every position it flags is a hidden mine. */
  lemma DefiniteMinesAreMines(g: Grid, w: nat, h: nat)
    requires Rect(g, w, h) && CountsCorrect(g, w, h) && RevealedSafe(g, w, h)
    ensures forall p :: p in DefiniteMines(g, w, h) ==> UnknownAt(g, w, h, p) && g[p.y][p.x].isMine
  {
    forall p | p in DefiniteMines(g, w, h)
      ensures UnknownAt(g, w, h, p) && g[p.y][p.x].isMine
    {
      CollectedFrom(g, w, h, MineRule, p);
      var info :| info in NumberedCells(g, w, h) && RecordOf(g, w, h, info) && Applies(MineRule, info) && p in info.unknownNeighbors;
      Accounting(g, w, h, info.x, info.y);
      FullCountAllMines(g, w, h, info.unknownNeighbors);
    }
  }

  /** Soundness of the safe rule: when in addition every flag is right, every position it reveals is a hidden safe cell. */
  lemma DefiniteSafeAreSafe(g: Grid, w: nat, h: nat)
    requires Rect(g, w, h) && CountsCorrect(g, w, h) && RevealedSafe(g, w, h) && FlagsCorrect(g, w, h)
    ensures forall p :: p in DefiniteSafe(g, w, h) ==> UnknownAt(g, w, h, p) && !g[p.y][p.x].isMine
  {
    forall p | p in DefiniteSafe(g, w, h)
      ensures UnknownAt(g, w, h, p) && !g[p.y][p.x].isMine
    {
      CollectedFrom(g, w, h, SafeRule, p);
      var info :| info in NumberedCells(g, w, h) && RecordOf(g, w, h, info) && Applies(SafeRule, info) && p in info.unknownNeighbors;
      Accounting(g, w, h, info.x, info.y);
      ZeroCountNoMines(g, w, h, info.unknownNeighbors);
    }
  }

  // ---------------------------------------------------------------------------------------------
  // Probabilities

  /** The probability one record assigns to each of its unknown neighbours. */
  function Share(info: CellInfo): real
    requires |info.unknownNeighbors| > 0
  {
    (Remaining(info) as real) / (|info.unknownNeighbors| as real)
  }

  /** How often `p` occurs in `ps`. */
  function Hits(ps: seq<Pos>, p: Pos): nat {
    if ps == [] then 0 else Hits(ps[..|ps| - 1], p) + (if ps[|ps| - 1] == p then 1 else 0)
  }

  /** `s` added once for every occurrence of `p` in `ps`. */
  function HitSum(ps: seq<Pos>, p: Pos, s: real): real {
    if ps == [] then 0.0 else HitSum(ps[..|ps| - 1], p, s) + (if ps[|ps| - 1] == p then s else 0.0)
  }

  /** The sum of the probabilities the records assign to `p`. */
  function ProbSum(infos: seq<CellInfo>, p: Pos): real {
    if infos == [] then 0.0
    else
      var info := infos[|infos| - 1];
      ProbSum(infos[..|infos| - 1], p) + (if Applies(ProbRule, info) then HitSum(info.unknownNeighbors, p, Share(info)) else 0.0)
  }

  /** How many probabilities the records assign to `p`. */
  function ProbCount(infos: seq<CellInfo>, p: Pos): nat {
    if infos == [] then 0
    else
      var info := infos[|infos| - 1];
      ProbCount(infos[..|infos| - 1], p) + (if Applies(ProbRule, info) then Hits(info.unknownNeighbors, p) else 0)
  }

  /** The average of the probabilities assigned to `p`; a count of zero divides by one. */
  function Average(infos: seq<CellInfo>, p: Pos): real {
    ProbSum(infos, p) / (if ProbCount(infos, p) > 0 then ProbCount(infos, p) as real else 1.0)
  }

  function Averages(infos: seq<CellInfo>, keys: seq<Pos>): map<Pos, real> {
    map p | p in keys :: Average(infos, p)
  }

  lemma {:induction false} HitsPositive(ps: seq<Pos>, p: Pos)
    ensures Hits(ps, p) > 0 <==> p in ps
  {
    if ps != [] {
      HitsPositive(ps[..|ps| - 1], p);
      assert ps == ps[..|ps| - 1] + [ps[|ps| - 1]];
    }
  }

  lemma {:induction false} HitSumBounds(ps: seq<Pos>, p: Pos, s: real)
    requires 0.0 < s <= 1.0
    ensures 0.0 <= HitSum(ps, p, s) <= Hits(ps, p) as real
    ensures Hits(ps, p) > 0 ==> HitSum(ps, p, s) > 0.0
  {
    if ps != [] {
      HitSumBounds(ps[..|ps| - 1], p, s);
    }
  }

  lemma ShareBounds(info: CellInfo)
    requires 0 < Remaining(info) <= |info.unknownNeighbors|
    ensures 0.0 < Share(info) <= 1.0
  {
    var r, n := Remaining(info) as real, |info.unknownNeighbors| as real;
    assert Share(info) * n == r;
  }

  /** Records whose remaining mines fit in their unknown neighbours, as on every consistent board. */
  predicate Consistent(infos: seq<CellInfo>) {
    forall i :: 0 <= i < |infos| ==> Remaining(infos[i]) <= |infos[i].unknownNeighbors|
  }

  lemma {:induction false} ProbSumBounds(infos: seq<CellInfo>, p: Pos)
    requires Consistent(infos)
    ensures 0.0 <= ProbSum(infos, p) <= ProbCount(infos, p) as real
    ensures ProbCount(infos, p) > 0 ==> ProbSum(infos, p) > 0.0
  {
    if infos != [] {
      var init, info := infos[..|infos| - 1], infos[|infos| - 1];
      assert Consistent(init) by {
        forall i | 0 <= i < |init| ensures Remaining(init[i]) <= |init[i].unknownNeighbors| {
          assert init[i] == infos[i];
        }
      }
      ProbSumBounds(init, p);
      if Applies(ProbRule, info) {
        ShareBounds(info);
        HitSumBounds(info.unknownNeighbors, p, Share(info));
      }
    }
  }

  lemma {:induction false} ProbCountPositive(infos: seq<CellInfo>, i: nat, p: Pos)
    requires i < |infos| && Applies(ProbRule, infos[i]) && p in infos[i].unknownNeighbors
    ensures ProbCount(infos, p) > 0
  {
    if i == |infos| - 1 {
      HitsPositive(infos[i].unknownNeighbors, p);
    } else {
      var init := infos[..|infos| - 1];
      assert init[i] == infos[i];
      ProbCountPositive(init, i, p);
    }
  }

  /** Every position the probability pass meets gets a positive count. */
  lemma CollectedHaveCounts(g: Grid, w: nat, h: nat, infos: seq<CellInfo>)
    requires Rect(g, w, h)
    ensures forall p :: p in Collect(g, w, h, ProbRule, infos) ==> ProbCount(infos, p) > 0
  {
    forall p | p in Collect(g, w, h, ProbRule, infos) ensures ProbCount(infos, p) > 0 {
      CollectMembers(g, w, h, ProbRule, infos, p);
      var i :| 0 <= i < |infos| && Applies(ProbRule, infos[i]) && p in infos[i].unknownNeighbors;
      ProbCountPositive(infos, i, p);
    }
  }

  /** A position the probability pass never met has no sum and no count. */
  lemma {:induction false} UnseenHasNoProbability(g: Grid, w: nat, h: nat, infos: seq<CellInfo>, p: Pos)
    requires Rect(g, w, h) && p !in Collect(g, w, h, ProbRule, infos)
    ensures ProbSum(infos, p) == 0.0 && ProbCount(infos, p) == 0
  {
    if infos != [] {
      var init, info := infos[..|infos| - 1], infos[|infos| - 1];
      if Applies(ProbRule, info) {
        AddNewMembers(g, w, h, ProbRule, Collect(g, w, h, ProbRule, init), info.unknownNeighbors);
        HitsPositive(info.unknownNeighbors, p);
        HitSumZero(info.unknownNeighbors, p, Share(info));
      }
      UnseenHasNoProbability(g, w, h, init, p);
    }
  }

  lemma {:induction false} HitSumZero(ps: seq<Pos>, p: Pos, s: real)
    requires p !in ps
    ensures HitSum(ps, p, s) == 0.0
  {
    if ps != [] {
      assert ps == ps[..|ps| - 1] + [ps[|ps| - 1]];
      HitSumZero(ps[..|ps| - 1], p, s);
    }
  }

  /** Every record of a board whose revealed cells are safe has its remaining mines among its unknown neighbours. */
  lemma NumberedCellsConsistent(g: Grid, w: nat, h: nat)
    requires Rect(g, w, h) && CountsCorrect(g, w, h) && RevealedSafe(g, w, h)
    ensures Consistent(NumberedCells(g, w, h))
  {
    var infos := NumberedCells(g, w, h);
    NumberedCellsExactly(g, w, h);
    forall i | 0 <= i < |infos| ensures Remaining(infos[i]) <= |infos[i].unknownNeighbors| {
      assert infos[i] in infos;
      Accounting(g, w, h, infos[i].x, infos[i].y);
    }
  }

  lemma AverageInRange(infos: seq<CellInfo>, p: Pos)
    requires Consistent(infos) && ProbCount(infos, p) > 0
    ensures 0.0 < Average(infos, p) <= 1.0
  {
    ProbSumBounds(infos, p);
    RatioInUnit(ProbSum(infos, p), ProbCount(infos, p) as real);
  }

  lemma RatioInUnit(a: real, b: real)
    requires 0.0 < a <= b
    ensures 0.0 < a / b <= 1.0
  {
    assert a / b * b == a;
  }

  /**
   * On a board whose revealed cells are safe, every position that gets a
   * probability gets at least one, and its average lies in (0, 1].
   */
  lemma ProbabilitiesInRange(g: Grid, w: nat, h: nat)
    requires Rect(g, w, h) && CountsCorrect(g, w, h) && RevealedSafe(g, w, h)
    ensures forall p :: p in ProbKeys(g, w, h) ==>
      UnknownAt(g, w, h, p) && ProbCount(NumberedCells(g, w, h), p) > 0 && 0.0 < Average(NumberedCells(g, w, h), p) <= 1.0
  {
    var infos := NumberedCells(g, w, h);
    NumberedCellsConsistent(g, w, h);
    forall p | p in ProbKeys(g, w, h)
      ensures UnknownAt(g, w, h, p) && ProbCount(infos, p) > 0 && 0.0 < Average(infos, p) <= 1.0
    {
      CollectedFrom(g, w, h, ProbRule, p);
      CollectMembers(g, w, h, ProbRule, infos, p);
      var i :| 0 <= i < |infos| && Applies(ProbRule, infos[i]) && p in infos[i].unknownNeighbors;
      ProbCountPositive(infos, i, p);
      AverageInRange(infos, p);
    }
  }

  // ---------------------------------------------------------------------------------------------
  // Choosing among the probabilities

  /**
   * The scan over the averages: a running minimum that starts at 1, restarts
   * the list on a strictly lower value and appends on a tie.
   */
  function Lowest(keys: seq<Pos>, avg: map<Pos, real>): (real, seq<Pos>)
    requires forall p :: p in keys ==> p in avg
  {
    if keys == [] then (1.0, [])
    else
      var (m, best) := Lowest(keys[..|keys| - 1], avg);
      var p := keys[|keys| - 1];
      if avg[p] < m then (avg[p], [p])
      else if avg[p] == m then (m, best + [p])
      else (m, best)
  }

  /**
   * The chosen value is the minimum of 1 and all averages (at most 1 and
   * every average, and either 1 or reached by a key), the chosen positions
   * are exactly the keys with that value, and something is chosen as soon
   * as some average is at most 1.
   */
  lemma {:induction false} LowestIsMinimum(keys: seq<Pos>, avg: map<Pos, real>)
    requires forall p :: p in keys ==> p in avg
    ensures var (m, best) := Lowest(keys, avg);
      m <= 1.0 &&
      (forall p :: p in keys ==> m <= avg[p]) &&
      (m == 1.0 || exists p :: p in keys && avg[p] == m) &&
      (forall p :: p in best <==> p in keys && avg[p] == m) &&
      ((exists p :: p in keys && avg[p] <= 1.0) ==> |best| > 0)
  {
    if keys != [] {
      var init := keys[..|keys| - 1];
      LowestIsMinimum(init, avg);
      assert keys == init + [keys[|keys| - 1]];
    }
  }

  // ---------------------------------------------------------------------------------------------
  // The fallback scan and the first click

  /** The first unknown cell at or after (x, y) in row-major order, if any. */
  function FirstUnknownFrom(g: Grid, w: nat, h: nat, y: nat, x: nat): seq<Pos>
    requires Rect(g, w, h) && y <= h && x <= w
    decreases h - y, w - x
  {
    if y == h then []
    else if x == w then FirstUnknownFrom(g, w, h, y + 1, 0)
    else if UnknownAt(g, w, h, Pos(x, y)) then [Pos(x, y)]
    else FirstUnknownFrom(g, w, h, y, x + 1)
  }

  function FirstUnknown(g: Grid, w: nat, h: nat): seq<Pos>
    requires Rect(g, w, h)
  {
    FirstUnknownFrom(g, w, h, 0, 0)
  }

  /** (y1, x1) comes strictly before (y2, x2) in row-major order. */
  predicate Before(y1: int, x1: int, y2: int, x2: int) {
    y1 < y2 || (y1 == y2 && x1 < x2)
  }

  lemma {:induction false} FirstUnknownFromIsFirst(g: Grid, w: nat, h: nat, y: nat, x: nat)
    requires Rect(g, w, h) && y <= h && x <= w
    decreases h - y, w - x
    ensures var r := FirstUnknownFrom(g, w, h, y, x);
      |r| <= 1 &&
      (r == [] <==> forall j, i :: 0 <= j < h && 0 <= i < w && !Before(j, i, y, x) ==> !UnknownAt(g, w, h, Pos(i, j))) &&
      (r != [] ==>
        UnknownAt(g, w, h, r[0]) && !Before(r[0].y, r[0].x, y, x) &&
        forall j, i :: 0 <= j < h && 0 <= i < w && !Before(j, i, y, x) && Before(j, i, r[0].y, r[0].x) ==> !UnknownAt(g, w, h, Pos(i, j)))
  {
    if y < h {
      if x == w {
        FirstUnknownFromIsFirst(g, w, h, y + 1, 0);
      } else if !UnknownAt(g, w, h, Pos(x, y)) {
        FirstUnknownFromIsFirst(g, w, h, y, x + 1);
      }
    }
  }

  /** The fallback finds the row-major first cell that is neither revealed nor flagged, and finds nothing only when there is none. */
  lemma FirstUnknownIsFirst(g: Grid, w: nat, h: nat)
    requires Rect(g, w, h)
    ensures var r := FirstUnknown(g, w, h);
      |r| <= 1 &&
      (r == [] <==> forall j, i :: 0 <= j < h && 0 <= i < w ==> !UnknownAt(g, w, h, Pos(i, j))) &&
      (r != [] ==>
        UnknownAt(g, w, h, r[0]) &&
        forall j, i :: 0 <= j < h && 0 <= i < w && Before(j, i, r[0].y, r[0].x) ==> !UnknownAt(g, w, h, Pos(i, j)))
  {
    FirstUnknownFromIsFirst(g, w, h, 0, 0);
  }

  /** The start of the inner band along a side of `n` cells: min(2, floor(n / 5)). */
  function InnerStart(n: nat): nat {
    if n / 5 < 2 then n / 5 else 2
  }

  /** The end (exclusive) of the inner band: max(n - 2, ceil(4n / 5)). */
  function InnerEnd(n: nat): int {
    if n - 2 > (4 * n + 4) / 5 then n - 2 else (4 * n + 4) / 5
  }

  /** The first click: a point of the inner band chosen by two draws from [0, 1). */
  function FirstClickPos(w: nat, h: nat, rx: real, ry: real): Pos {
    Pos(BandAt(w, rx), BandAt(h, ry))
  }

  /** The point of the inner band of a side of length `n` that the draw `r` picks. */
  function BandAt(n: nat, r: real): int {
    InnerStart(n) + (r * ((InnerEnd(n) - InnerStart(n)) as real)).Floor
  }

  lemma BandInside(n: nat, r: real)
    requires n > 0 && 0.0 <= r < 1.0
    ensures 0 <= InnerStart(n) <= BandAt(n, r) < InnerEnd(n) <= n
  {
    ScaledFloor(InnerEnd(n) - InnerStart(n), r);
  }

  /** A draw from [0, 1) scaled by a positive `d` floors to an index below `d`. */
  lemma ScaledFloor(d: int, r: real)
    requires d > 0 && 0.0 <= r < 1.0
    ensures 0 <= (r * (d as real)).Floor < d
  {
    var dr := d as real;
    var t := r * dr;
    PositiveProduct(1.0 - r, dr);
    assert dr - t == (1.0 - r) * dr;
    assert 0.0 <= t by {
      if r > 0.0 {
        PositiveProduct(r, dr);
      }
    }
    assert t.Floor as real <= t;
  }

  lemma PositiveProduct(a: real, b: real)
    requires 0.0 < a && 0.0 < b
    ensures 0.0 < a * b
  {
  }

  /** On a non-empty board the first click lands on the board, inside the inner band. */
  lemma FirstClickOnBoard(w: nat, h: nat, rx: real, ry: real)
    requires w > 0 && h > 0 && 0.0 <= rx < 1.0 && 0.0 <= ry < 1.0
    ensures var p := FirstClickPos(w, h, rx, ry);
      InBounds(w, h, p) && InnerStart(w) <= p.x < InnerEnd(w) && InnerStart(h) <= p.y < InnerEnd(h)
  {
    BandInside(w, rx);
    BandInside(h, ry);
  }

  // ---------------------------------------------------------------------------------------------
  // The next move

  datatype MoveKind = FlagMove | RevealMove | WaitMove

  datatype Move = Move(kind: MoveKind, positions: seq<Pos>)

  predicate NoneRevealed(g: Grid, w: nat, h: nat)
    requires Rect(g, w, h)
  {
    forall y, x :: 0 <= y < h && 0 <= x < w ==> !g[y][x].isRevealed
  }

  /**
   * The move the player makes: a first click on an untouched board, then
   * flags for the mine rule, then reveals for the safe rule, then the
   * positions of lowest average probability, and finally the first unknown cell.
   */
  function NextMove(g: Grid, w: nat, h: nat, rx: real, ry: real): Move
    requires Rect(g, w, h)
  {
    if NoneRevealed(g, w, h) then Move(RevealMove, [FirstClickPos(w, h, rx, ry)])
    else if |DefiniteMines(g, w, h)| > 0 then Move(FlagMove, DefiniteMines(g, w, h))
    else if |DefiniteSafe(g, w, h)| > 0 then Move(RevealMove, DefiniteSafe(g, w, h))
    else if |ProbKeys(g, w, h)| > 0 then
      Move(RevealMove, Lowest(ProbKeys(g, w, h), Averages(NumberedCells(g, w, h), ProbKeys(g, w, h))).1)
    else Move(RevealMove, FirstUnknown(g, w, h))
  }

  /**
   * On a started board whose revealed cells are safe, the player never waits,
   * only ever touches unknown cells, flags only mines, reveals only safe cells
   * when it acts on the safe rule with correct flags, and proposes something
   * whenever an unknown cell is left.
   */
  lemma NextMoveSound(g: Grid, w: nat, h: nat, rx: real, ry: real)
    requires Rect(g, w, h) && CountsCorrect(g, w, h) && RevealedSafe(g, w, h) && !NoneRevealed(g, w, h)
    ensures var mv := NextMove(g, w, h, rx, ry);
      mv.kind != WaitMove &&
      (forall p :: p in mv.positions ==> UnknownAt(g, w, h, p)) &&
      (mv.kind == FlagMove <==> |DefiniteMines(g, w, h)| > 0) &&
      (mv.kind == FlagMove ==> forall p :: p in mv.positions ==> g[p.y][p.x].isMine) &&
      (FlagsCorrect(g, w, h) && |DefiniteMines(g, w, h)| == 0 && |DefiniteSafe(g, w, h)| > 0 ==>
        forall p :: p in mv.positions ==> !g[p.y][p.x].isMine) &&
      (FirstUnknown(g, w, h) != [] ==> |mv.positions| > 0)
  {
    var mv := NextMove(g, w, h, rx, ry);
    DefiniteMinesAreMines(g, w, h);
    if FlagsCorrect(g, w, h) {
      DefiniteSafeAreSafe(g, w, h);
    }
    forall p | p in DefiniteSafe(g, w, h) ensures UnknownAt(g, w, h, p) {
      CollectedFrom(g, w, h, SafeRule, p);
    }
    FirstUnknownIsFirst(g, w, h);
    var keys := ProbKeys(g, w, h);
    if |DefiniteMines(g, w, h)| == 0 && |DefiniteSafe(g, w, h)| == 0 && |keys| > 0 {
      var avg := Averages(NumberedCells(g, w, h), keys);
      ProbabilitiesInRange(g, w, h);
      LowestIsMinimum(keys, avg);
    }
  }

  /** On a board with nothing revealed the player clicks once, inside the inner band. */
  lemma NextMoveFirstClick(g: Grid, w: nat, h: nat, rx: real, ry: real)
    requires Rect(g, w, h) && NoneRevealed(g, w, h) && w > 0 && h > 0 && 0.0 <= rx < 1.0 && 0.0 <= ry < 1.0
    ensures var mv := NextMove(g, w, h, rx, ry);
      mv.kind == RevealMove && |mv.positions| == 1 && InBounds(w, h, mv.positions[0]) &&
      InnerStart(w) <= mv.positions[0].x < InnerEnd(w) && InnerStart(h) <= mv.positions[0].y < InnerEnd(h)
  {
    FirstClickOnBoard(w, h, rx, ry);
  }
}
