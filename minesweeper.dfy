/*
 * The rule engine: the grid is a w-by-h array of u32 bit fields (see
 * CellBits), indexed [x, y] like the Rust grid[x][y]. `Reveal` is the
 * recursive flood fill; `NewGrid`, `PlaceMines` and `CountNeighbours` are the
 * three set-up passes of the game loop's prologue; `Game` holds the grid and
 * the cursor that the key handlers update.
 */
module Minesweeper {
  import opened CellBits
  import opened Neighbourhood
  import opened Flood
  import opened Setup

  /** The positions whose MINE bit is set. */
  ghost function MineSet(g: array2<bv32>): set<Pos>
    reads g
  {
    set a: nat, b: nat | a < g.Length0 && b < g.Length1 && IsMine(g[a, b]) :: (a, b)
  }

  /** mines lies on the board and holds exactly the cells whose MINE bit is set. */
  ghost predicate MinesAre(g: array2<bv32>, mines: set<Pos>)
    reads g
  {
    && (forall p :: p in mines ==> p.0 < g.Length0 && p.1 < g.Length1)
    && forall a: nat, b: nat :: a < g.Length0 && b < g.Length1 ==> (IsMine(g[a, b]) <==> (a, b) in mines)
  }

  /** The mine set agrees with the MINE bits... */
  lemma MinesAreSet(g: array2<bv32>)
    ensures MinesAre(g, MineSet(g))
  {
  }

  /** ...and is the only set that does. */
  lemma MineSetIs(g: array2<bv32>, mines: set<Pos>)
    requires MinesAre(g, mines)
    ensures MineSet(g) == mines
  {
    forall p | p in mines
      ensures p in MineSet(g)
    {
      assert IsMine(g[p.0, p.1]);
    }
  }

  /** A value copy of the grid: Snap(g)[x][y] is the cell at (x, y). */
  ghost function Snap(g: array2<bv32>): (s: Grid)
    reads g
    ensures |s| == g.Length0 && forall a :: 0 <= a < g.Length0 ==> |s[a]| == g.Length1
    ensures forall a: nat, b: nat :: a < g.Length0 && b < g.Length1 ==> s[a][b] == g[a, b]
  {
    Rows(g, g.Length0)
  }

  /** The first n columns of g, as values. */
  ghost function Rows(g: array2<bv32>, n: nat): (s: Grid)
    requires n <= g.Length0
    reads g
    ensures |s| == n && forall a :: 0 <= a < n ==> |s[a]| == g.Length1
    ensures forall a: nat, b: nat :: a < n && b < g.Length1 ==> s[a][b] == g[a, b]
  {
    if n == 0 then [] else Rows(g, n - 1) + [seq(g.Length1, b requires 0 <= b < g.Length1 reads g => g[n - 1, b])]
  }

  /** A grid that agrees with the value b everywhere but at (x, y) is b with that one cell written. */
  lemma SnapPut(g: array2<bv32>, b: Grid, x: nat, y: nat)
    requires Shaped(b, g.Length0, g.Length1) && x < g.Length0 && y < g.Length1
    requires forall a: nat, c: nat :: a < g.Length0 && c < g.Length1 && (a, c) != (x, y) ==> g[a, c] == b[a][c]
    ensures Snap(g) == Put(b, x, y, g[x, y])
  {
    GridEq(Snap(g), Put(b, x, y, g[x, y]));
  }

  /**
   * Reveals the cell at (x, y). An uncovered cell is left alone and the result
   * is true. A covered cell loses its UNKNOWN and MARK bits; if it is a mine,
   * or counts a mine in its block, nothing else happens; otherwise every
   * in-bounds non-mine cell of its 3x3 block (itself included) is revealed in
   * turn. The result is false exactly for a covered mine. The ghost result
   * ranks the opened cells by the depth of the nested reveal that opened
   * them. The recursion ends because each nested call starts with strictly
   * fewer covered cells.
   */
  method Reveal(g: array2<bv32>, x: nat, y: nat) returns (safe: bool, ghost rank: Rank)
    requires x < g.Length0 && y < g.Length1
    modifies g
    decreases CoveredSet(Snap(g))
    ensures Revealed(old(Snap(g)), Snap(g), x, y, rank)
    ensures safe <==> !(IsCovered(old(g[x, y])) && IsMine(old(g[x, y])))
    ensures !IsCovered(old(g[x, y])) ==> Snap(g) == old(Snap(g))
    ensures IsCovered(old(g[x, y])) && (IsMine(old(g[x, y])) || Number(old(g[x, y])) != 0) ==>
      Snap(g) == Put(old(Snap(g)), x, y, Uncover(old(g[x, y])))
  {
    ghost var e := Snap(g);
    rank := (c: nat, d: nat) => 0;
    if !IsCovered(g[x, y]) {
      Nothing(e, x, y, rank);
      return true, rank;
    }
    g[x, y] := Uncover(g[x, y]);
    GridEq(Snap(g), Put(e, x, y, Uncover(e[x][y])));
    Start(e, x, y, rank);
    if IsMine(g[x, y]) {
      return false, rank;
    }
    if Number(g[x, y]) == 0 {
      for nx := Lo(x) to x + 2
        invariant Progress(e, Snap(g), x, y, rank) && g[x, y] == Uncover(e[x][y])
        invariant OpenedUpTo(Snap(g), x, y, nx, Lo(y))
      {
        for ny := Lo(y) to y + 2
          invariant Progress(e, Snap(g), x, y, rank) && g[x, y] == Uncover(e[x][y])
          invariant OpenedUpTo(Snap(g), x, y, nx, ny)
        {
          ghost var b := Snap(g);
          if nx < g.Length0 && ny < g.Length1 && !IsMine(g[nx, ny]) {
            Fewer(e, b, x, y);
            var _, sub := Reveal(g, nx, ny);
            Step(e, b, Snap(g), x, y, nx, ny, rank, sub);
            OpenedNext(b, Snap(g), x, y, nx, ny);
            rank := Merge(b, Snap(g), rank, sub);
          } else {
            OpenedSkip(b, x, y, nx, ny);
          }
        }
        OpenedNextColumn(Snap(g), x, y, nx);
      }
      Finish(Snap(g), x, y);
    }
    return true, rank;
  }

  /** The grid the game starts from: w columns of h cells, every one covered, no mine, count zero. */
  method NewGrid(w: nat, h: nat) returns (g: array2<bv32>)
    ensures fresh(g) && g.Length0 == w && g.Length1 == h
    ensures forall a: nat, b: nat :: a < w && b < h ==> g[a, b] == UNKNOWN
  {
    g := new bv32[w, h]((a, b) => 0);
    for x := 0 to w
      invariant forall a: nat, b: nat :: a < x && b < h ==> g[a, b] == UNKNOWN
    {
      for y := 0 to h
        invariant forall a: nat, b: nat :: (a < x || (a == x && b < y)) && b < h ==> g[a, b] == UNKNOWN
      {
        g[x, y] := UNKNOWN;
      }
    }
  }

  /** The heap view of the mines agrees with the value view. */
  lemma MinesAreSnap(g: array2<bv32>, mines: set<Pos>)
    ensures MinesAre(g, mines) <==> MinesAt(Snap(g), mines)
  {
  }

  /**
   * Lays m mines on a grid of covered empty cells. The random draw of the
   * Rust program is a choice of any cell that is not a mine yet: whatever the
   * draws are, the board ends up with exactly m mines, each cell covered.
   */
  method PlaceMines(g: array2<bv32>, m: nat)
    requires forall a: nat, b: nat :: a < g.Length0 && b < g.Length1 ==> g[a, b] == UNKNOWN
    requires m <= g.Length0 * g.Length1
    modifies g
    ensures forall a: nat, b: nat :: a < g.Length0 && b < g.Length1 ==> g[a, b] == UNKNOWN || g[a, b] == MINE | UNKNOWN
    ensures |MineSet(g)| == m
  {
    MineSetIs(g, {});
    for mi := 0 to m
      invariant Initial(Snap(g))
      invariant |MineSet(g)| == mi
    {
      var _, _ := PlaceMine(g);
    }
  }

  /**
   * One round of the mine laying: draws cells until one has no mine (the draw
   * is any such cell) and lays a covered mine there.
   */
  method PlaceMine(g: array2<bv32>) returns (x: nat, y: nat)
    requires Initial(Snap(g)) && |MineSet(g)| < g.Length0 * g.Length1
    modifies g
    ensures x < g.Length0 && y < g.Length1 && !IsMine(old(g[x, y])) && g[x, y] == MINE | UNKNOWN
    ensures Initial(Snap(g))
    ensures (x, y) !in old(MineSet(g)) && MineSet(g) == old(MineSet(g)) + {(x, y)}
  {
    ghost var b := Snap(g);
    ghost var before := MineSet(g);
    MineSetSnap(g);
    FreeCell(g);
    x, y :| x < g.Length0 && y < g.Length1 && !IsMine(g[x, y]);
    g[x, y] := MINE | UNKNOWN;
    SnapPut(g, b, x, y);
    PlacedMine(g, b, before, x, y);
  }

  /** The value copy of the grid has the grid's mine set. */
  lemma MineSetSnap(g: array2<bv32>)
    ensures MinesAt(Snap(g), MineSet(g))
  {
    MinesAreSet(g);
    MinesAreSnap(g, MineSet(g));
  }

  /** A grid with fewer mines than cells has a cell without a mine. */
  lemma FreeCell(g: array2<bv32>)
    requires |MineSet(g)| < g.Length0 * g.Length1
    ensures exists a: nat, b: nat :: a < g.Length0 && b < g.Length1 && !IsMine(g[a, b])
  {
    MinesAreSet(g);
    SomeCellFree(MineSet(g), g.Length0, g.Length1);
  }

  /** Laying a mine on a free cell adds that cell to the mine set. */
  lemma PlacedMine(g: array2<bv32>, b: Grid, before: set<Pos>, x: nat, y: nat)
    requires MinesAt(b, before) && Initial(b) && In(b, x, y) && !IsMine(b[x][y])
    requires Snap(g) == Put(b, x, y, MINE | UNKNOWN)
    ensures Initial(Snap(g)) && (x, y) !in before && MineSet(g) == before + {(x, y)}
  {
    PlaceStep(b, before, x, y);
    MinesAreSnap(g, before + {(x, y)});
    MineSetIs(g, before + {(x, y)});
  }

  /**
   * The number of mines in the in-bounds 3x3 block around (x, y), the cell
   * itself included, read off the MINE bits of g.
   */
  method CountAround(g: array2<bv32>, x: nat, y: nat) returns (n: nat)
    ensures n == Around(MineSet(g), g.Length0, g.Length1, x, y) && n <= 9
  {
    ghost var mines := MineSet(g);
    n := 0;
    for nx := Lo(x) to x + 2
      invariant n == RectMines(mines, g.Length0, g.Length1, Lo(x), nx, Lo(y), y + 2)
    {
      for ny := Lo(y) to y + 2
        invariant n == RectMines(mines, g.Length0, g.Length1, Lo(x), nx, Lo(y), y + 2)
                     + ColumnMines(mines, g.Length0, g.Length1, nx, Lo(y), ny)
      {
        if nx < g.Length0 && ny < g.Length1 && g[nx, ny] & MINE > 0 {
          n := n + 1;
        }
      }
    }
  }

  /** While the counting pass runs, the mine set of g stays the one it started from. */
  lemma CountedMineSet(g: array2<bv32>, o: Grid, mines: set<Pos>, x: nat, y: nat)
    requires CountedUpTo(Snap(g), o, CountGrid(mines, |o|, g.Length1), g.Length1, x, y) && MinesAt(o, mines)
    ensures MineSet(g) == mines
  {
    CountedMines(Snap(g), o, mines, g.Length1, x, y);
    MinesAreSnap(g, mines);
    MineSetIs(g, mines);
  }

  /** What the finished counting pass leaves in each cell; o is the grid before the pass. */
  lemma CountedWords(g: array2<bv32>, o: Grid, mines: set<Pos>)
    requires MinesAt(o, mines)
    requires CountedUpTo(Snap(g), o, CountGrid(mines, |o|, g.Length1), g.Length1, |o|, 0)
    ensures MineSet(g) == mines
    ensures forall a: nat, b: nat :: a < g.Length0 && b < g.Length1 && o[a][b] & NUMBER_MASK == 0 ==>
      Decode(g[a, b]) == Decode(o[a][b]).(number := Around(mines, g.Length0, g.Length1, a, b))
  {
    CountedMineSet(g, o, mines, |o|, 0);
    forall a: nat, b: nat | a < g.Length0 && b < g.Length1
      ensures o[a][b] & NUMBER_MASK == 0 ==>
        Decode(g[a, b]) == Decode(o[a][b]).(number := Around(mines, g.Length0, g.Length1, a, b))
    {
      CountedAll(Snap(g), o, mines, g.Length1, a, b);
      CountInto(o[a][b], g[a, b], Around(mines, g.Length0, g.Length1, a, b));
    }
  }

  /**
   * One cell of the counting pass: ors into the cell at (x, y) the number of
   * mines in its block. o is the grid before the pass and mines its mine set.
   */
  method CountCell(g: array2<bv32>, x: nat, y: nat, ghost o: Grid, ghost mines: set<Pos>)
    requires x < g.Length0 && y < g.Length1 && MinesAt(o, mines)
    requires CountedUpTo(Snap(g), o, CountGrid(mines, |o|, g.Length1), g.Length1, x, y)
    modifies g
    ensures CountedUpTo(Snap(g), o, CountGrid(mines, |o|, g.Length1), g.Length1, x, y + 1)
  {
    ghost var b := Snap(g);
    CountedMineSet(g, o, mines, x, y);
    var n := CountAround(g, x, y);
    CountWrite(b, o, mines, g.Length1, x, y, n);
    g[x, y] := Counted(g[x, y], n);
    SnapPut(g, b, x, y);
  }

  /** One column of the counting pass, top to bottom. */
  method CountColumn(g: array2<bv32>, x: nat, ghost o: Grid, ghost mines: set<Pos>)
    requires x < g.Length0 && MinesAt(o, mines)
    requires CountedUpTo(Snap(g), o, CountGrid(mines, |o|, g.Length1), g.Length1, x, 0)
    modifies g
    ensures CountedUpTo(Snap(g), o, CountGrid(mines, |o|, g.Length1), g.Length1, x + 1, 0)
  {
    for y := 0 to g.Length1
      invariant CountedUpTo(Snap(g), o, CountGrid(mines, |o|, g.Length1), g.Length1, x, y)
    {
      CountCell(g, x, y, o, mines);
    }
    CountNextColumn(Snap(g), o, CountGrid(mines, |o|, g.Length1), g.Length1, x);
  }

  /**
   * Ors into every cell the number of mines in its block, column by column.
   * The counts never touch a MINE bit, so the mine set is the same throughout
   * and every count is the one of the board as the pass found it.
   */
  method CountNeighbours(g: array2<bv32>)
    modifies g
    ensures MineSet(g) == old(MineSet(g))
    ensures forall a: nat, b: nat :: a < g.Length0 && b < g.Length1 && old(g[a, b]) & NUMBER_MASK == 0 ==>
      Decode(g[a, b]) == Decode(old(g[a, b])).(number := Around(old(MineSet(g)), g.Length0, g.Length1, a, b))
  {
    ghost var o := Snap(g);
    ghost var mines := MineSet(g);
    MinesAreSet(g);
    MinesAreSnap(g, mines);
    for x := 0 to g.Length0
      invariant CountedUpTo(Snap(g), o, CountGrid(mines, |o|, g.Length1), g.Length1, x, 0)
    {
      CountColumn(g, x, o, mines);
    }
    CountedWords(g, o, mines);
  }

  /** The board of the Rust program: 30 columns, 16 rows, 99 mines. */
  const W: nat := 30
  const H: nat := 16
  const M: nat := 99

  /** A game in progress: the board and the cursor the arrow keys move. */
  class Game {
    const grid: array2<bv32>
    ghost const mines: set<Pos>
    var px: nat
    var py: nat

    /**
     * The board keeps its size, its M mines and the counts it was set up
     * with; the cursor stays on the board.
     */
    ghost predicate Valid()
      reads this, grid
    {
      && grid.Length0 == W && grid.Length1 == H
      && px < W && py < H
      && MinesAre(grid, mines) && |mines| == M
      && forall a: nat, b: nat :: a < W && b < H ==> Number(grid[a, b]) == Around(mines, W, H, a, b)
    }

    /**
     * Sets up a new game: every cell covered and unflagged, M mines, each
     * cell holding the number of mines in its block, the cursor in the middle.
     */
    constructor()
      ensures Valid() && fresh(grid)
      ensures px == W / 2 && py == H / 2
      ensures forall a: nat, b: nat :: a < W && b < H ==>
        Decode(grid[a, b]) == Cell((a, b) in mines, true, false, Around(mines, W, H, a, b))
    {
      var g := NewGrid(W, H);
      PlaceMines(g, M);
      ghost var placed := MineSet(g);
      InitialWords();
      label Placed:
      CountNeighbours(g);
      MinesAreSet(g);
      grid := g;
      mines := placed;
      px := W / 2;
      py := H / 2;
      forall a: nat, b: nat | a < W && b < H
        ensures Decode(g[a, b]) == Cell((a, b) in placed, true, false, Around(placed, W, H, a, b))
      {
        assert old@Placed(g[a, b]) == UNKNOWN || old@Placed(g[a, b]) == MINE | UNKNOWN;
      }
    }

    /** The up arrow: one row up, unless the cursor is on the top row. */
    method MoveUp()
      requires Valid()
      modifies this
      ensures Valid() && px == old(px)
      ensures old(py) > 0 ==> py == old(py) - 1
      ensures old(py) == 0 ==> py == 0
    {
      py := Lo(py);
    }

    /** The down arrow: one row down, unless the cursor is on the bottom row. */
    method MoveDown()
      requires Valid()
      modifies this
      ensures Valid() && px == old(px)
      ensures old(py) + 1 < H ==> py == old(py) + 1
      ensures old(py) + 1 >= H ==> py == H - 1
    {
      py := py + 1;
      if py >= H {
        py := H - 1;
      }
    }

    /** The left arrow: one column left, unless the cursor is on the first column. */
    method MoveLeft()
      requires Valid()
      modifies this
      ensures Valid() && py == old(py)
      ensures old(px) > 0 ==> px == old(px) - 1
      ensures old(px) == 0 ==> px == 0
    {
      px := Lo(px);
    }

    /** The right arrow: one column right, unless the cursor is on the last column. */
    method MoveRight()
      requires Valid()
      modifies this
      ensures Valid() && py == old(py)
      ensures old(px) + 1 < W ==> px == old(px) + 1
      ensures old(px) + 1 >= W ==> px == W - 1
    {
      px := px + 1;
      if px >= W {
        px := W - 1;
      }
    }

    /** The '!' key: toggles the flag of the covered cell under the cursor; nothing else changes. */
    method FlagAtCursor()
      requires Valid()
      modifies grid
      ensures Valid()
      ensures grid[px, py] == Flag(old(grid[px, py]))
      ensures forall a: nat, b: nat :: a < W && b < H && (a, b) != (px, py) ==> grid[a, b] == old(grid[a, b])
    {
      if grid[px, py] & UNKNOWN != 0 {
        grid[px, py] := grid[px, py] ^ MARK;
      }
    }

    /**
     * The space key: reveals the cell under the cursor. The result is false
     * exactly when that cell was covered and held a mine, which ends the game.
     * An uncovered cell changes nothing; a covered mine or a covered cell
     * counting a mine is the only cell that changes; a covered cell with no
     * mine around it uncovers its whole block. Every opened cell is reached
     * from the cursor cell through opened zero cells.
     */
    method RevealAtCursor() returns (alive: bool, ghost rank: Rank)
      requires Valid()
      modifies grid
      ensures Valid()
      ensures Revealed(old(Snap(grid)), Snap(grid), px, py, rank)
      ensures alive <==> !(IsCovered(old(grid[px, py])) && (px, py) in mines)
      ensures !IsCovered(old(grid[px, py])) ==> Snap(grid) == old(Snap(grid))
      ensures IsCovered(old(grid[px, py])) && ((px, py) in mines || Around(mines, W, H, px, py) != 0) ==>
        Snap(grid) == Put(old(Snap(grid)), px, py, Uncover(old(grid[px, py])))
      ensures IsCovered(old(grid[px, py])) && Around(mines, W, H, px, py) == 0 ==>
        forall a: nat, b: nat :: InBlock(px, py, a, b) && a < W && b < H ==> !IsCovered(grid[a, b])
    {
      ghost var s := Snap(grid);
      alive, rank := Reveal(grid, px, py);
      ghost var t := Snap(grid);
      UncoversKeep(s, t);
      MinesAreSnap(grid, mines);
      if IsCovered(s[px][py]) && Around(mines, W, H, px, py) == 0 {
        AroundZero(mines, W, H, px, py);
        assert FloodedAt(t, px, py);
      }
    }
  }
}
