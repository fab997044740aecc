/*
 * The 3x3 block around a cell, as the Rust program scans it: columns from
 * x.checked_sub(1).unwrap_or(0) up to x + 1, rows likewise, keeping only the
 * coordinates below the board's width and height. The block contains the cell
 * itself. Mines are a set of coordinates here, so these definitions do not
 * depend on how a board is stored.
 */
module Neighbourhood {

  type Pos = (nat, nat)

  /** x.checked_sub(1).unwrap_or(0) */
  function Lo(x: nat): nat
  {
    if x == 0 then 0 else x - 1
  }

  /** (a, b) is scanned when the block around (x, y) is scanned (before the bounds test). */
  predicate InBlock(x: nat, y: nat, a: nat, b: nat)
  {
    Lo(x) <= a <= x + 1 && Lo(y) <= b <= y + 1
  }

  /** Every cell of a w-by-h board. */
  ghost function Cells(w: nat, h: nat): set<Pos>
  {
    set a: nat, b: nat | a < w && b < h :: (a, b)
  }

  /** The cells of column a with a row in [0, h). */
  ghost function Column(a: nat, h: nat): set<Pos>
  {
    set b: nat | b < h :: (a, b)
  }

  lemma {:induction false} ColumnCard(a: nat, h: nat)
    ensures |Column(a, h)| == h
  {
    if h > 0 {
      ColumnCard(a, h - 1);
      assert Column(a, h) == Column(a, h - 1) + {(a, h - 1)};
    } else {
      assert Column(a, h) == {};
    }
  }

  lemma CellsSplit(w: nat, h: nat)
    ensures Cells(w + 1, h) == Cells(w, h) + Column(w, h)
    ensures Cells(w, h) !! Column(w, h)
  {
    forall p | p in Cells(w + 1, h)
      ensures p in Cells(w, h) + Column(w, h)
    {
      var a: nat, b: nat :| a < w + 1 && b < h && p == (a, b);
      if a < w {
        assert p in Cells(w, h);
      } else {
        assert p in Column(w, h);
      }
    }
  }

  /** A w-by-h board has w * h cells. */
  lemma {:induction false} CellsCard(w: nat, h: nat)
    ensures |Cells(w, h)| == w * h
  {
    if w > 0 {
      var k := w - 1;
      CellsCard(k, h);
      ColumnCard(k, h);
      CellsSplit(k, h);
      assert |Cells(w, h)| == k * h + h;
      assert k * h + h == w * h;
    } else {
      assert forall p :: p !in Cells(w, h);
    }
  }

  /** The number of mines in column a at rows [ylo, yhi) that lie on a w-by-h board. */
  function ColumnMines(mines: set<Pos>, w: nat, h: nat, a: nat, ylo: nat, yhi: nat): (n: nat)
    ensures ylo <= yhi ==> n <= yhi - ylo
    decreases yhi - ylo
  {
    if yhi <= ylo then 0
    else ColumnMines(mines, w, h, a, ylo, yhi - 1)
         + (if a < w && yhi - 1 < h && (a, yhi - 1) in mines then 1 else 0)
  }

  /** The number of mines in columns [xlo, xhi), rows [ylo, yhi), on a w-by-h board. */
  function RectMines(mines: set<Pos>, w: nat, h: nat, xlo: nat, xhi: nat, ylo: nat, yhi: nat): (n: nat)
    decreases xhi - xlo
  {
    if xhi <= xlo then 0
    else RectMines(mines, w, h, xlo, xhi - 1, ylo, yhi) + ColumnMines(mines, w, h, xhi - 1, ylo, yhi)
  }

  /** A rectangle of at most k rows holds at most k mines per column. */
  lemma {:induction false} RectMinesBound(mines: set<Pos>, w: nat, h: nat, xlo: nat, xhi: nat, ylo: nat, yhi: nat, k: nat)
    requires xlo <= xhi && ylo <= yhi <= ylo + k
    ensures RectMines(mines, w, h, xlo, xhi, ylo, yhi) <= (xhi - xlo) * k
    decreases xhi - xlo
  {
    if xhi > xlo {
      RectMinesBound(mines, w, h, xlo, xhi - 1, ylo, yhi, k);
      var d := xhi - 1 - xlo;
      assert xhi - xlo == d + 1;
      assert (d + 1) * k == d * k + k;
    }
  }

  /** The count the set-up stores in the cell at (x, y). */
  function Around(mines: set<Pos>, w: nat, h: nat, x: nat, y: nat): (n: nat)
    ensures n <= 9
  {
    RectMinesBound(mines, w, h, Lo(x), x + 2, Lo(y), y + 2, 3);
    RectMines(mines, w, h, Lo(x), x + 2, Lo(y), y + 2)
  }

  /** The mines of a rectangle, as a set: the reference definition of the counts. */
  ghost function MinesIn(mines: set<Pos>, w: nat, h: nat, xlo: nat, xhi: nat, ylo: nat, yhi: nat): set<Pos>
  {
    set p | p in mines && xlo <= p.0 < xhi && p.0 < w && ylo <= p.1 < yhi && p.1 < h
  }

  lemma {:induction false} ColumnMinesIsCard(mines: set<Pos>, w: nat, h: nat, a: nat, ylo: nat, yhi: nat)
    ensures ColumnMines(mines, w, h, a, ylo, yhi) == |MinesIn(mines, w, h, a, a + 1, ylo, yhi)|
    decreases yhi - ylo
  {
    if yhi <= ylo {
      assert MinesIn(mines, w, h, a, a + 1, ylo, yhi) == {};
    } else {
      ColumnMinesIsCard(mines, w, h, a, ylo, yhi - 1);
      var shorter := MinesIn(mines, w, h, a, a + 1, ylo, yhi - 1);
      if a < w && yhi - 1 < h && (a, yhi - 1) in mines {
        assert MinesIn(mines, w, h, a, a + 1, ylo, yhi) == shorter + {(a, yhi - 1)};
        assert (a, yhi - 1) !in shorter;
      } else {
        assert MinesIn(mines, w, h, a, a + 1, ylo, yhi) == shorter;
      }
    }
  }

  /** The recursive count of a rectangle is the number of distinct mines in it. */
  lemma {:induction false} RectMinesIsCard(mines: set<Pos>, w: nat, h: nat, xlo: nat, xhi: nat, ylo: nat, yhi: nat)
    ensures RectMines(mines, w, h, xlo, xhi, ylo, yhi) == |MinesIn(mines, w, h, xlo, xhi, ylo, yhi)|
    decreases xhi - xlo
  {
    if xhi <= xlo {
      assert MinesIn(mines, w, h, xlo, xhi, ylo, yhi) == {};
    } else {
      RectMinesIsCard(mines, w, h, xlo, xhi - 1, ylo, yhi);
      ColumnMinesIsCard(mines, w, h, xhi - 1, ylo, yhi);
      var left, right := MinesIn(mines, w, h, xlo, xhi - 1, ylo, yhi), MinesIn(mines, w, h, xhi - 1, xhi, ylo, yhi);
      assert MinesIn(mines, w, h, xlo, xhi, ylo, yhi) == left + right;
      assert left !! right;
    }
  }

  /** The stored count is the number of distinct mines in the in-bounds 3x3 block, the cell included. */
  lemma AroundIsCard(mines: set<Pos>, w: nat, h: nat, x: nat, y: nat)
    ensures Around(mines, w, h, x, y)
         == |set p | p in mines && InBlock(x, y, p.0, p.1) && p.0 < w && p.1 < h|
  {
    RectMinesIsCard(mines, w, h, Lo(x), x + 2, Lo(y), y + 2);
    assert (set p | p in mines && InBlock(x, y, p.0, p.1) && p.0 < w && p.1 < h)
        == MinesIn(mines, w, h, Lo(x), x + 2, Lo(y), y + 2);
  }

  lemma {:induction false} ColumnMinesZero(mines: set<Pos>, w: nat, h: nat, a: nat, ylo: nat, yhi: nat)
    requires ColumnMines(mines, w, h, a, ylo, yhi) == 0
    ensures forall b: nat :: ylo <= b < yhi && a < w && b < h ==> (a, b) !in mines
    decreases yhi - ylo
  {
    if yhi > ylo {
      ColumnMinesZero(mines, w, h, a, ylo, yhi - 1);
    }
  }

  lemma {:induction false} RectMinesZero(mines: set<Pos>, w: nat, h: nat, xlo: nat, xhi: nat, ylo: nat, yhi: nat)
    requires RectMines(mines, w, h, xlo, xhi, ylo, yhi) == 0
    ensures forall a: nat, b: nat :: xlo <= a < xhi && ylo <= b < yhi && a < w && b < h ==> (a, b) !in mines
    decreases xhi - xlo
  {
    if xhi > xlo {
      RectMinesZero(mines, w, h, xlo, xhi - 1, ylo, yhi);
      ColumnMinesZero(mines, w, h, xhi - 1, ylo, yhi);
    }
  }

  /** A cell whose count is zero has no mine in its block, itself included. */
  lemma AroundZero(mines: set<Pos>, w: nat, h: nat, x: nat, y: nat)
    requires Around(mines, w, h, x, y) == 0
    ensures forall a: nat, b: nat :: InBlock(x, y, a, b) && a < w && b < h ==> (a, b) !in mines
  {
    RectMinesZero(mines, w, h, Lo(x), x + 2, Lo(y), y + 2);
  }

  /** A mine on the board counts itself: its own count is at least one. */
  lemma MineCountsItself(mines: set<Pos>, w: nat, h: nat, x: nat, y: nat)
    requires x < w && y < h && (x, y) in mines
    ensures Around(mines, w, h, x, y) >= 1
  {
    AroundIsCard(mines, w, h, x, y);
    assert InBlock(x, y, x, y);
    var block := set p | p in mines && InBlock(x, y, p.0, p.1) && p.0 < w && p.1 < h;
    assert (x, y) in block;
    assert block == (block - {(x, y)}) + {(x, y)};
  }

  /** The bound is reached: the middle cell of a 3x3 board full of mines counts 9. */
  lemma AroundNine()
    ensures Around(Cells(3, 3), 3, 3, 1, 1) == 9
  {
    AroundIsCard(Cells(3, 3), 3, 3, 1, 1);
    CellsCard(3, 3);
    assert (set p | p in Cells(3, 3) && InBlock(1, 1, p.0, p.1) && p.0 < 3 && p.1 < 3) == Cells(3, 3);
  }

  /** A set of fewer than w * h cells of the board leaves a cell free. */
  lemma SomeCellFree(mines: set<Pos>, w: nat, h: nat)
    requires forall p :: p in mines ==> p.0 < w && p.1 < h
    requires |mines| < w * h
    ensures exists a: nat, b: nat :: a < w && b < h && (a, b) !in mines
  {
    CellsCard(w, h);
    assert mines <= Cells(w, h);
    if Cells(w, h) <= mines {
      SubsetCard(Cells(w, h), mines);
      assert false;
    }
    var p :| p in Cells(w, h) && p !in mines;
    var a: nat, b: nat :| a < w && b < h && p == (a, b);
  }

  lemma {:induction false} SubsetCard(s: set<Pos>, t: set<Pos>)
    requires s <= t
    ensures |s| <= |t|
  {
    assert t == s + (t - s);
  }
}
