/*
 * The set-up passes on value copies of the grid: what laying mines and
 * counting neighbours leave behind, one written cell at a time.
 */
module Setup {
  import opened CellBits
  import opened Neighbourhood
  import opened Flood

  /** t has w columns of h cells. */
  predicate Shaped(t: Grid, w: nat, h: nat)
  {
    |t| == w && forall a :: 0 <= a < w ==> |t[a]| == h
  }

  /** mines lies on the grid and holds exactly the cells of t whose MINE bit is set. */
  ghost predicate MinesAt(t: Grid, mines: set<Pos>)
  {
    && (forall p :: p in mines ==> In(t, p.0, p.1))
    && forall a: nat, b: nat :: In(t, a, b) ==> (IsMine(t[a][b]) <==> (a, b) in mines)
  }

  /** Every cell is covered, unflagged and uncounted, with or without a mine. */
  ghost predicate Initial(t: Grid)
  {
    forall a: nat, b: nat :: In(t, a, b) ==> t[a][b] == UNKNOWN || t[a][b] == MINE | UNKNOWN
  }

  /** Laying a mine on a cell that has none adds that one cell to the mine set. */
  lemma PlaceStep(t: Grid, mines: set<Pos>, x: nat, y: nat)
    requires MinesAt(t, mines) && Initial(t) && In(t, x, y) && !IsMine(t[x][y])
    ensures (x, y) !in mines
    ensures MinesAt(Put(t, x, y, MINE | UNKNOWN), mines + {(x, y)})
    ensures Initial(Put(t, x, y, MINE | UNKNOWN))
  {
    var u := Put(t, x, y, MINE | UNKNOWN);
    forall a: nat, b: nat | In(u, a, b)
      ensures IsMine(u[a][b]) <==> (a, b) in mines + {(x, y)}
    {
      if (a, b) != (x, y) {
        assert u[a][b] == t[a][b];
      }
    }
  }

  /** The count words the counting pass or-s in: the word at [a][b] is the count of (a, b) as a u32. */
  ghost function CountGrid(mines: set<Pos>, w: nat, h: nat): (c: Grid)
    ensures Shaped(c, w, h)
  {
    CountColumns(mines, w, h, w)
  }

  /** The count words of the first k columns. */
  ghost function CountColumns(mines: set<Pos>, w: nat, h: nat, k: nat): (c: Grid)
    ensures Shaped(c, k, h)
  {
    if k == 0 then []
    else CountColumns(mines, w, h, k - 1) + [seq(h, b requires 0 <= b < h => Word(Around(mines, w, h, k - 1, b)))]
  }

  lemma {:induction false} CountColumnsAt(mines: set<Pos>, w: nat, h: nat, k: nat, a: nat, b: nat)
    requires a < k && b < h
    ensures CountColumns(mines, w, h, k)[a][b] == Word(Around(mines, w, h, a, b))
  {
    if a < k - 1 {
      CountColumnsAt(mines, w, h, k - 1, a, b);
    }
  }

  lemma CountWord(mines: set<Pos>, w: nat, h: nat, a: nat, b: nat)
    requires a < w && b < h
    ensures CountGrid(mines, w, h)[a][b] == Word(Around(mines, w, h, a, b))
  {
    CountColumnsAt(mines, w, h, w, a, b);
  }

  /**
   * The counting pass has reached (x, y): every cell before it, column by
   * column, holds its original bits or-ed with its count word from c; the
   * others are untouched.
   */
  ghost predicate CountedUpTo(t: Grid, o: Grid, c: Grid, h: nat, x: nat, y: nat)
  {
    && Shaped(o, |o|, h) && Shaped(t, |o|, h) && Shaped(c, |o|, h)
    && forall a: nat, b: nat :: In(o, a, b) ==>
      t[a][b] == if a < x || (a == x && b < y) then o[a][b] | c[a][b] else o[a][b]
  }

  lemma CountStep(t: Grid, o: Grid, c: Grid, h: nat, x: nat, y: nat)
    requires CountedUpTo(t, o, c, h, x, y) && In(o, x, y)
    ensures CountedUpTo(Put(t, x, y, t[x][y] | c[x][y]), o, c, h, x, y + 1)
  {
  }

  /** `grid[x][y] |= n`: the cell with the count n or-ed into its low bits. */
  function Counted(c: bv32, n: nat): bv32
    requires n < 16
  {
    c | Word(n)
  }

  /** Or-ing the count of (x, y) into the cell there moves the pass on by one cell. */
  lemma CountWrite(t: Grid, o: Grid, mines: set<Pos>, h: nat, x: nat, y: nat, n: nat)
    requires CountedUpTo(t, o, CountGrid(mines, |o|, h), h, x, y) && In(o, x, y)
    requires n == Around(mines, |o|, h, x, y)
    ensures CountedUpTo(Put(t, x, y, Counted(t[x][y], n)), o, CountGrid(mines, |o|, h), h, x, y + 1)
  {
    CountWord(mines, |o|, h, x, y);
    CountStep(t, o, CountGrid(mines, |o|, h), h, x, y);
  }

  lemma CountNextColumn(t: Grid, o: Grid, c: Grid, h: nat, x: nat)
    requires CountedUpTo(t, o, c, h, x, h)
    ensures CountedUpTo(t, o, c, h, x + 1, 0)
  {
  }

  /** Or-ing counts into cells keeps every MINE bit. */
  lemma CountedMines(t: Grid, o: Grid, mines: set<Pos>, h: nat, x: nat, y: nat)
    requires CountedUpTo(t, o, CountGrid(mines, |o|, h), h, x, y) && MinesAt(o, mines)
    ensures MinesAt(t, mines)
  {
    forall a: nat, b: nat | In(t, a, b)
      ensures IsMine(t[a][b]) <==> IsMine(o[a][b])
    {
      CountWord(mines, |o|, h, a, b);
      OrKeepsFlags(o[a][b], CountGrid(mines, |o|, h)[a][b]);
    }
  }

  /** Once the pass is over, every cell holds its original bits or-ed with its count. */
  lemma CountedAll(t: Grid, o: Grid, mines: set<Pos>, h: nat, a: nat, b: nat)
    requires CountedUpTo(t, o, CountGrid(mines, |o|, h), h, |o|, 0) && In(o, a, b)
    ensures t[a][b] == o[a][b] | Word(Around(mines, |o|, h, a, b))
  {
    CountWord(mines, |o|, h, a, b);
  }

  /** A word that is a clear-count word or-ed with a count decodes to the same cell with that count. */
  lemma CountInto(o: bv32, t: bv32, n: nat)
    requires n < 16 && t == o | Word(n)
    ensures o & NUMBER_MASK == 0 ==> Decode(t) == Decode(o).(number := n)
  {
    if o & NUMBER_MASK == 0 {
      OrSetsCount(o, Word(n));
    }
  }
}
