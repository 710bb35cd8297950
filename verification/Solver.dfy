/**
 * The automatic player. A solver is built over one board and only reads it;
 * each method is proved to compute the function of the board's value that
 * specifies it.
 */
module Solver {
  import opened Board
  import opened SolverSpec

  class MinesweeperSolver {
    const board: array2<Cell>
    const width: nat
    const height: nat

    ghost predicate Valid() {
      board.Length0 == height && board.Length1 == width
    }

    /** The board as a value. */
    ghost function View(): (g: Grid)
      reads board
      requires Valid()
      ensures Rect(g, width, height)
    {
      Snap(board)
    }

    constructor(board: array2<Cell>, width: nat, height: nat)
      requires board.Length0 == height && board.Length1 == width
      ensures Valid() && this.board == board && this.width == width && this.height == height
    {
      this.board := board;
      this.width := width;
      this.height := height;
    }

    /** Scans the eight neighbours of (x, y), counting flags and listing the cells neither flagged nor revealed. */
    method GetNeighborInfo(x: int, y: int) returns (info: CellInfo)
      requires Valid() && InBounds(width, height, Pos(x, y))
      ensures info == NeighborInfo(View(), width, height, x, y)
      ensures info.flaggedNeighbors + |info.unknownNeighbors| <= 8
    {
      ghost var g := View();
      var cell := board[y, x];
      var unknownNeighbors: seq<Pos> := [];
      var flaggedNeighbors := 0;
      for dy := -1 to 2
        invariant Scanned(g, width, height, x, y, 3 * (dy + 1), unknownNeighbors, flaggedNeighbors)
      {
        for dx := -1 to 2
          invariant Scanned(g, width, height, x, y, 3 * (dy + 1) + (dx + 1), unknownNeighbors, flaggedNeighbors)
        {
          unknownNeighbors, flaggedNeighbors := VisitNeighbor(g, x, y, dx, dy, unknownNeighbors, flaggedNeighbors);
        }
      }
      ScanPrefix(g, width, height, x, y, 9);
      assert Adjacent(x, y)[..8] == Adjacent(x, y);
      info := CellInfo(x, y, cell, unknownNeighbors, flaggedNeighbors, cell.neighborMines);
      NeighborInfoBound(g, width, height, x, y);
    }

    /** One step of the neighbour scan around (x, y), at offset (dx, dy): the centre and off-board
        cells are skipped, a flag is counted, and a cell neither flagged nor revealed is listed. */
    method VisitNeighbor(ghost g: Grid, x: int, y: int, dx: int, dy: int, unknownNeighbors: seq<Pos>, flaggedNeighbors: nat)
      returns (unknown': seq<Pos>, flagged': nat)
      requires Valid() && g == View() && -1 <= dx <= 1 && -1 <= dy <= 1
      requires Scanned(g, width, height, x, y, 3 * (dy + 1) + (dx + 1), unknownNeighbors, flaggedNeighbors)
      ensures Scanned(g, width, height, x, y, 3 * (dy + 1) + (dx + 1) + 1, unknown', flagged')
    {
      ScanNext(g, width, height, x, y, dx, dy, unknownNeighbors, flaggedNeighbors);
      unknown', flagged' := unknownNeighbors, flaggedNeighbors;
      if dx == 0 && dy == 0 {
        return;
      }
      var nx, ny := x + dx, y + dy;
      if 0 <= nx < width && 0 <= ny < height {
        var neighbor := board[ny, nx];
        if neighbor.isFlagged {
          flagged' := flagged' + 1;
        } else if !neighbor.isRevealed {
          unknown' := unknown' + [Pos(nx, ny)];
        }
      }
    }

    /** The records of all numbered cells, in row-major order. */
    method GetAllNumberedCells() returns (numberedCells: seq<CellInfo>)
      requires Valid()
      ensures numberedCells == NumberedCells(View(), width, height)
    {
      ghost var g := View();
      numberedCells := [];
      for y := 0 to height
        invariant numberedCells == NumberedRows(g, width, height, y)
      {
        for x := 0 to width
          invariant numberedCells == NumberedRows(g, width, height, y) + NumberedRow(g, width, height, y, x)
        {
          var cell := board[y, x];
          if cell.isRevealed && !cell.isMine && cell.neighborMines > 0 {
            var info := GetNeighborInfo(x, y);
            numberedCells := numberedCells + [info];
          }
        }
      }
    }

    /** Adds the positions of `ps` that the rule's filter keeps and `acc` does not hold yet. */
    method AddUnknowns(rule: Rule, acc: seq<Pos>, ps: seq<Pos>) returns (r: seq<Pos>)
      requires Valid() && forall p :: p in ps ==> InBounds(width, height, p)
      ensures r == AddNew(View(), width, height, rule, acc, ps)
    {
      ghost var g := View();
      r := acc;
      for j := 0 to |ps|
        invariant r == AddNew(g, width, height, rule, acc, ps[..j])
      {
        var pos := ps[j];
        assert pos in ps;
        var cell := board[pos.y, pos.x];
        var keep := match rule
          case MineRule => !cell.isFlagged
          case SafeRule => !cell.isRevealed && !cell.isFlagged
          case ProbRule => true;
        assert ps[..j + 1][..j] == ps[..j];
        if keep && pos !in r {
          r := r + [pos];
        }
      }
      assert ps[..|ps|] == ps;
    }

    /** The positions the mine rule proves to be mines, without repetition. */
    method FindDefiniteMines() returns (mines: seq<Pos>)
      requires Valid()
      ensures mines == DefiniteMines(View(), width, height)
    {
      ghost var g := View();
      var numberedCells := GetAllNumberedCells();
      RecordedUnknownsOnBoard(g, width, height);
      mines := [];
      for i := 0 to |numberedCells|
        invariant mines == Collect(g, width, height, MineRule, numberedCells[..i])
      {
        var info := numberedCells[i];
        assert info in numberedCells && numberedCells[..i + 1][..i] == numberedCells[..i];
        assert forall p :: p in info.unknownNeighbors ==> UnknownAt(g, width, height, p);
        var remainingMines := info.value - info.flaggedNeighbors;
        if remainingMines > 0 && remainingMines == |info.unknownNeighbors| {
          mines := AddUnknowns(MineRule, mines, info.unknownNeighbors);
        }
      }
      assert numberedCells[..|numberedCells|] == numberedCells;
    }

    /** The positions the safe rule proves to be free of mines, without repetition. */
    method FindDefiniteSafeCells() returns (safeCells: seq<Pos>)
      requires Valid()
      ensures safeCells == DefiniteSafe(View(), width, height)
    {
      ghost var g := View();
      var numberedCells := GetAllNumberedCells();
      RecordedUnknownsOnBoard(g, width, height);
      safeCells := [];
      for i := 0 to |numberedCells|
        invariant safeCells == Collect(g, width, height, SafeRule, numberedCells[..i])
      {
        var info := numberedCells[i];
        assert info in numberedCells && numberedCells[..i + 1][..i] == numberedCells[..i];
        assert forall p :: p in info.unknownNeighbors ==> UnknownAt(g, width, height, p);
        if info.value == info.flaggedNeighbors && |info.unknownNeighbors| > 0 {
          safeCells := AddUnknowns(SafeRule, safeCells, info.unknownNeighbors);
        }
      }
      assert numberedCells[..|numberedCells|] == numberedCells;
    }
  
    /** Adds one record's probability to each of its unknown neighbours, keeping keys in first-insertion order. */
    method TallyRecord(info: CellInfo, ghost seen: seq<CellInfo>, keys: seq<Pos>, sums: map<Pos, real>, counts: map<Pos, nat>)
      returns (keys': seq<Pos>, sums': map<Pos, real>, counts': map<Pos, nat>)
      requires Valid() && Applies(ProbRule, info)
      requires keys == Collect(View(), width, height, ProbRule, seen) && Tallied(sums, counts, keys, seen, [], 0.0)
      ensures keys' == Collect(View(), width, height, ProbRule, seen + [info])
      ensures Tallied(sums', counts', keys', seen + [info], [], 0.0)
    {
      ghost var g := View();
      var ps := info.unknownNeighbors;
      var probability := ((info.value - info.flaggedNeighbors) as real) / (|ps| as real);
      keys', sums', counts' := keys, sums, counts;
      for j := 0 to |ps|
        invariant keys' == AddNew(g, width, height, ProbRule, keys, ps[..j])
        invariant Tallied(sums', counts', keys', seen, ps[..j], probability)
      {
        var key := ps[j];
        TallyStep(g, width, height, keys, keys', sums', counts', seen, ps, j, probability);
        var currentSum := if key in sums' then sums'[key] else 0.0;
        var currentCount := if key in counts' then counts'[key] else 0;
        sums' := sums'[key := currentSum + probability];
        counts' := counts'[key := currentCount + 1];
        if key !in keys' {
          keys' := keys' + [key];
        }
      }
      TallyClose(g, width, height, keys, keys', sums', counts', seen, info);
    }

    /** The probability pass: for each position, the average of the shares assigned to it by the records that apply. */
    method CalculateProbabilities() returns (keys: seq<Pos>, avgProbabilities: map<Pos, real>)
      requires Valid()
      ensures keys == ProbKeys(View(), width, height)
      ensures avgProbabilities == Averages(NumberedCells(View(), width, height), keys)
    {
      ghost var g := View();
      var numberedCells := GetAllNumberedCells();
      var probabilities: map<Pos, real> := map[];
      var counts: map<Pos, nat> := map[];
      keys := [];
      for i := 0 to |numberedCells|
        invariant keys == Collect(g, width, height, ProbRule, numberedCells[..i])
        invariant Tallied(probabilities, counts, keys, numberedCells[..i], [], 0.0)
      {
        var info := numberedCells[i];
        assert numberedCells[..i + 1] == numberedCells[..i] + [info];
        var remainingMines := info.value - info.flaggedNeighbors;
        if remainingMines > 0 && |info.unknownNeighbors| > 0 {
          keys, probabilities, counts := TallyRecord(info, numberedCells[..i], keys, probabilities, counts);
        } else {
          assert numberedCells[..i + 1][..i] == numberedCells[..i];
        }
      }
      assert numberedCells[..|numberedCells|] == numberedCells;
      CollectedHaveCounts(g, width, height, numberedCells);
      avgProbabilities := AverageKeys(keys, probabilities, counts, numberedCells);
    }

    /** Whether either rule has something to do. */
    method HasDefiniteMoves() returns (pending: bool)
      requires Valid()
      ensures pending <==> |DefiniteMines(View(), width, height)| > 0 || |DefiniteSafe(View(), width, height)| > 0
    {
      var definiteMineCells := FindDefiniteMines();
      if |definiteMineCells| > 0 {
        return true;
      }
      var definiteSafeCells := FindDefiniteSafeCells();
      if |definiteSafeCells| > 0 {
        return true;
      }
      return false;
    }

    /** Whether no cell of the board is revealed yet. */
    method IsFirstClick() returns (first: bool)
      requires Valid()
      ensures first <==> NoneRevealed(View(), width, height)
    {
      for y := 0 to height
        invariant forall j, i :: 0 <= j < y && 0 <= i < width ==> !board[j, i].isRevealed
      {
        for x := 0 to width
          invariant forall j, i :: 0 <= j < y && 0 <= i < width ==> !board[j, i].isRevealed
          invariant forall i :: 0 <= i < x ==> !board[y, i].isRevealed
        {
          if board[y, x].isRevealed {
            return false;
          }
        }
      }
      return true;
    }

    /** A point of the inner band, chosen by the draws `rx` and `ry` from [0, 1). */
    method GetFirstClickPosition(rx: real, ry: real) returns (p: Pos)
      ensures p == FirstClickPos(width, height, rx, ry)
    {
      var x := BandPoint(width, rx);
      var y := BandPoint(height, ry);
      return Pos(x, y);
    }

    /** One coordinate of the first click: the band keeps a margin of up to 2 cells (at most a
        fifth of the side) on each end, and the draw `r` picks a point of it. */
    method BandPoint(n: nat, r: real) returns (c: int)
      ensures c == BandAt(n, r)
    {
      var marginSize := 2;
      var innerStart := if n / 5 < marginSize then n / 5 else marginSize;
      var innerEnd := if n - marginSize > (4 * n + 4) / 5 then n - marginSize else (4 * n + 4) / 5;
      assert innerStart == InnerStart(n) && innerEnd == InnerEnd(n);
      c := innerStart + (r * ((innerEnd - innerStart) as real)).Floor;
    }

    /** The scan for the lowest average: restart on a strictly lower value, append on a tie. */
    method LowestRisk(keys: seq<Pos>, avg: map<Pos, real>) returns (minProb: real, bestPositions: seq<Pos>)
      requires forall p :: p in keys ==> p in avg
      ensures (minProb, bestPositions) == Lowest(keys, avg)
    {
      minProb, bestPositions := 1.0, [];
      for i := 0 to |keys|
        invariant (minProb, bestPositions) == Lowest(keys[..i], avg)
      {
        var key := keys[i];
        assert key in keys && keys[..i + 1][..i] == keys[..i];
        var prob := avg[key];
        if prob < minProb {
          minProb := prob;
          bestPositions := [key];
        } else if prob == minProb {
          bestPositions := bestPositions + [key];
        }
      }
      assert keys[..|keys|] == keys;
    }

    /** The first cell in row-major order that is neither revealed nor flagged, if any. */
    method FirstUnknownCell() returns (found: seq<Pos>)
      requires Valid()
      ensures found == FirstUnknown(View(), width, height)
    {
      ghost var g := View();
      for y := 0 to height
        invariant FirstUnknown(g, width, height) == FirstUnknownFrom(g, width, height, y, 0)
      {
        for x := 0 to width
          invariant FirstUnknown(g, width, height) == FirstUnknownFrom(g, width, height, y, x)
        {
          if !board[y, x].isRevealed && !board[y, x].isFlagged {
            return [Pos(x, y)];
          }
        }
      }
      return [];
    }

    /**
     * The player's next move. The rule loop runs once: `lastDefiniteMoves`
     * is empty on the first pass, so any mine found is flagged at once, and
     * the branch that would wait for pending rules is unreachable.
     */
    method GetNextMove(rx: real, ry: real) returns (move: Move)
      requires Valid()
      ensures move == NextMove(View(), width, height, rx, ry)
    {
      var firstClick := IsFirstClick();
      if firstClick {
        var p := GetFirstClickPosition(rx, ry);
        return Move(RevealMove, [p]);
      }
      ghost var g := View();
      var moveFound := true;
      var lastDefiniteMoves: seq<Pos> := [];
      while moveFound
        invariant moveFound ==> lastDefiniteMoves == []
        invariant !moveFound ==> |DefiniteMines(g, width, height)| == 0 && |DefiniteSafe(g, width, height)| == 0
        decreases moveFound
      {
        moveFound := false;
        var definiteMineCells := FindDefiniteMines();
        if |definiteMineCells| > 0 {
          CollectDistinct(g, width, height, MineRule, NumberedCells(g, width, height));
          assert definiteMineCells[0] in definiteMineCells;
          var same := AreSetsEqual(definiteMineCells, lastDefiniteMoves);
          if !same {
            return Move(FlagMove, definiteMineCells);
          }
        }
        var definiteSafeCells := FindDefiniteSafeCells();
        if |definiteSafeCells| > 0 {
          return Move(RevealMove, definiteSafeCells);
        }
        lastDefiniteMoves := definiteMineCells;
        var pending := HasDefiniteMoves();
        if pending {
          assert false;
          moveFound := true;
          return Move(WaitMove, []);
        }
      }
      var keys, probabilities := CalculateProbabilities();
      if |keys| > 0 {
        var minProb, bestPositions := LowestRisk(keys, probabilities);
        return Move(RevealMove, bestPositions);
      }
      var found := FirstUnknownCell();
      return Move(RevealMove, found);
    }

    /** Set equality of two repetition-free sequences: same size, and every member of `a` in `b`. */
    method AreSetsEqual(a: seq<Pos>, b: seq<Pos>) returns (equal: bool)
      requires Distinct(a) && Distinct(b)
      ensures equal <==> forall p :: p in a <==> p in b
    {
      SameMembers(a, b);
      if |a| != |b| {
        return false;
      }
      for i := 0 to |a|
        invariant forall k :: 0 <= k < i ==> a[k] in b
      {
        if a[i] !in b {
          return false;
        }
      }
      return true;
    }
  }

  /**
   * The running state of the probability pass: `sums` and `counts` are keyed
   * by exactly `keys` and hold the totals over the records `infos`, plus `s`
   * for each occurrence in the part `ps` of the current record done so far.
   */
  ghost predicate Tallied(sums: map<Pos, real>, counts: map<Pos, nat>, keys: seq<Pos>, infos: seq<CellInfo>, ps: seq<Pos>, s: real) {
    (forall p :: p in sums <==> p in keys) && (forall p :: p in counts <==> p in keys) &&
    forall p :: p in keys ==>
      sums[p] == ProbSum(infos, p) + HitSum(ps, p, s) && counts[p] == ProbCount(infos, p) + Hits(ps, p)
  }

  /** The second pass of the probability calculation: each key's summed probability divided by
      the number of records that gave it one. */
  method AverageKeys(keys: seq<Pos>, probabilities: map<Pos, real>, counts: map<Pos, nat>, ghost infos: seq<CellInfo>)
    returns (avgProbabilities: map<Pos, real>)
    requires Tallied(probabilities, counts, keys, infos, [], 0.0)
    requires forall p :: p in keys ==> ProbCount(infos, p) > 0
    ensures avgProbabilities == Averages(infos, keys)
  {
    avgProbabilities := map[];
    for k := 0 to |keys|
      invariant forall p :: p in avgProbabilities <==> p in keys[..k]
      invariant forall p :: p in avgProbabilities ==> avgProbabilities[p] == Average(infos, p)
    {
      var key := keys[k];
      assert key in keys && keys[..k + 1] == keys[..k] + [key];
      var count := if key in counts then counts[key] else 1;
      avgProbabilities := avgProbabilities[key := probabilities[key] / (count as real)];
    }
    assert keys[..|keys|] == keys;
  }

  /** One position of the current record added to the running state. */
  lemma TallyStep(g: Grid, w: nat, h: nat, keys0: seq<Pos>, keys: seq<Pos>, sums: map<Pos, real>, counts: map<Pos, nat>,
                  seen: seq<CellInfo>, ps: seq<Pos>, j: nat, s: real)
    requires Rect(g, w, h) && j < |ps|
    requires keys0 == Collect(g, w, h, ProbRule, seen) && keys == AddNew(g, w, h, ProbRule, keys0, ps[..j])
    requires Tallied(sums, counts, keys, seen, ps[..j], s)
    ensures var key := ps[j];
      var keys' := if key in keys then keys else keys + [key];
      keys' == AddNew(g, w, h, ProbRule, keys0, ps[..j + 1]) &&
      Tallied(sums[key := (if key in sums then sums[key] else 0.0) + s],
              counts[key := (if key in counts then counts[key] else 0) + 1], keys', seen, ps[..j + 1], s)
  {
    var key := ps[j];
    assert ps[..j + 1] == ps[..j] + [key];
    if key !in keys {
      AddNewMembers(g, w, h, ProbRule, keys0, ps[..j]);
      UnseenHasNoProbability(g, w, h, seen, key);
      HitSumZero(ps[..j], key, s);
      HitsPositive(ps[..j], key);
    }
  }

  /** A finished record folds into the totals. */
  lemma TallyClose(g: Grid, w: nat, h: nat, keys0: seq<Pos>, keys: seq<Pos>, sums: map<Pos, real>, counts: map<Pos, nat>,
                   seen: seq<CellInfo>, info: CellInfo)
    requires Rect(g, w, h) && Applies(ProbRule, info)
    requires keys0 == Collect(g, w, h, ProbRule, seen)
    requires keys == AddNew(g, w, h, ProbRule, keys0, info.unknownNeighbors[..|info.unknownNeighbors|])
    requires Tallied(sums, counts, keys, seen, info.unknownNeighbors[..|info.unknownNeighbors|],
                     ((info.value - info.flaggedNeighbors) as real) / (|info.unknownNeighbors| as real))
    ensures keys == Collect(g, w, h, ProbRule, seen + [info]) && Tallied(sums, counts, keys, seen + [info], [], 0.0)
  {
    var ps := info.unknownNeighbors;
    assert ps[..|ps|] == ps;
    assert (seen + [info])[..|seen|] == seen;
  }
}
