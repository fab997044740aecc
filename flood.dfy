/*
 * What a reveal does to the board, stated on value copies of the grid. A grid
 * value s holds the cell at (x, y) in s[x][y]. `Revealed(s, t, x, y, rank)` says
 * that t is what revealing (x, y) may leave behind when it starts from s;
 * the lemmas below show that one nested reveal inside the propagation loop
 * keeps the loop's invariant.
 */
module Flood {
  import opened CellBits
  import opened Neighbourhood

  type Grid = seq<seq<bv32>>

  predicate In(s: Grid, a: nat, b: nat)
  {
    a < |s| && b < |s[a]|
  }

  predicate SameShape(s: Grid, t: Grid)
  {
    |s| == |t| && forall a :: 0 <= a < |s| ==> |s[a]| == |t[a]|
  }

  /** s with the cell at (a, b) replaced by v. */
  function Put(s: Grid, a: nat, b: nat, v: bv32): (t: Grid)
    requires In(s, a, b)
    ensures SameShape(s, t) && t[a][b] == v
    ensures forall c: nat, d: nat :: In(s, c, d) && (c, d) != (a, b) ==> t[c][d] == s[c][d]
  {
    s[a := s[a][b := v]]
  }

  /** Two grids of the same shape that agree cell by cell are equal. */
  lemma GridEq(s: Grid, t: Grid)
    requires SameShape(s, t)
    requires forall a: nat, b: nat :: In(s, a, b) ==> s[a][b] == t[a][b]
    ensures s == t
  {
    forall a | 0 <= a < |s|
      ensures s[a] == t[a]
    {
      assert forall b :: 0 <= b < |s[a]| ==> s[a][b] == t[a][b];
    }
  }

  /** The cell d is the cell c, or c was covered and d is c uncovered. */
  predicate SameOrUncovered(c: bv32, d: bv32)
  {
    d == c || (IsCovered(c) && d == Uncover(c))
  }

  /** t is s with some covered cells uncovered and nothing else changed. */
  ghost predicate OnlyUncovers(s: Grid, t: Grid)
  {
    SameShape(s, t) && forall a: nat, b: nat :: In(s, a, b) ==> SameOrUncovered(s[a][b], t[a][b])
  }

  /** No cell other than (x, y) that was opened on the way from s to t is a mine. */
  ghost predicate NoMineOpened(s: Grid, t: Grid, x: nat, y: nat)
    requires SameShape(s, t)
  {
    forall a: nat, b: nat :: In(s, a, b) && (a, b) != (x, y) && t[a][b] != s[a][b] ==> !IsMine(s[a][b])
  }

  /**
   * The flood-fill closure at (a, b): if the cell is uncovered, is no mine
   * and counts zero, every in-bounds non-mine cell of its block is uncovered.
   */
  ghost predicate FloodedAt(t: Grid, a: nat, b: nat)
    requires In(t, a, b)
  {
    !IsCovered(t[a][b]) && !IsMine(t[a][b]) && Number(t[a][b]) == 0
    ==> forall c: nat, d: nat :: InBlock(a, b, c, d) && In(t, c, d) && !IsMine(t[c][d]) ==> !IsCovered(t[c][d])
  }

  /** Every cell other than (x, y) opened on the way from s to t is flooded in t. */
  ghost predicate ClosedExcept(s: Grid, t: Grid, x: nat, y: nat)
    requires SameShape(s, t)
  {
    forall a: nat, b: nat :: In(s, a, b) && (a, b) != (x, y) && t[a][b] != s[a][b] ==> FloodedAt(t, a, b)
  }

  /** (c, d) was opened on the way from s to t, is no mine and counts zero. */
  ghost predicate OpenedZero(s: Grid, t: Grid, c: nat, d: nat)
    requires SameShape(s, t)
  {
    In(s, c, d) && t[c][d] != s[c][d] && !IsMine(t[c][d]) && Number(t[c][d]) == 0
  }

  /**
   * Ranks order the opened cells by the depth of the nested reveal that
   * opened them: the target has rank 0, and each cell a propagation loop opens
   * ranks above the zero cell whose loop opened it.
   */
  type Rank = (nat, nat) -> nat

  /** (c, d) can be the cell whose propagation opened (a, b): it was opened, counts zero and ranks lower. */
  ghost predicate Parent(s: Grid, t: Grid, rank: Rank, a: nat, b: nat, c: nat, d: nat)
    requires SameShape(s, t)
  {
    OpenedZero(s, t, c, d) && rank(c, d) < rank(a, b)
  }

  /**
   * Some cell of the block around (a, b) is a parent of (a, b). The block's
   * columns are Lo(a), Lo(a) + 1 and a + 1 (the last two coincide when a is
   * 0), and likewise its rows.
   */
  ghost predicate ZeroNeighbour(s: Grid, t: Grid, rank: Rank, a: nat, b: nat)
    requires SameShape(s, t)
  {
    || Parent(s, t, rank, a, b, Lo(a), Lo(b)) || Parent(s, t, rank, a, b, Lo(a), Lo(b) + 1)
    || Parent(s, t, rank, a, b, Lo(a), b + 1) || Parent(s, t, rank, a, b, Lo(a) + 1, Lo(b))
    || Parent(s, t, rank, a, b, Lo(a) + 1, Lo(b) + 1) || Parent(s, t, rank, a, b, Lo(a) + 1, b + 1)
    || Parent(s, t, rank, a, b, a + 1, Lo(b)) || Parent(s, t, rank, a, b, a + 1, Lo(b) + 1)
    || Parent(s, t, rank, a, b, a + 1, b + 1)
  }

  /** ZeroNeighbour says exactly that some cell of the block is a parent. */
  lemma ZeroNeighbourIff(s: Grid, t: Grid, rank: Rank, a: nat, b: nat)
    requires SameShape(s, t)
    ensures ZeroNeighbour(s, t, rank, a, b) <==> exists c: nat, d: nat :: InBlock(a, b, c, d) && Parent(s, t, rank, a, b, c, d)
  {
    if exists c: nat, d: nat :: InBlock(a, b, c, d) && Parent(s, t, rank, a, b, c, d) {
      var c: nat, d: nat :| InBlock(a, b, c, d) && Parent(s, t, rank, a, b, c, d);
      ZeroNeighbourOf(s, t, rank, a, b, c, d);
    }
  }

  lemma ZeroNeighbourOf(s: Grid, t: Grid, rank: Rank, a: nat, b: nat, c: nat, d: nat)
    requires SameShape(s, t) && InBlock(a, b, c, d) && Parent(s, t, rank, a, b, c, d)
    ensures ZeroNeighbour(s, t, rank, a, b)
  {
    assert c == Lo(a) || c == Lo(a) + 1 || c == a + 1;
    assert d == Lo(b) || d == Lo(b) + 1 || d == b + 1;
  }

  /**
   * Every cell other than (x, y) opened on the way from s to t has a parent in
   * its block: the propagation only ever spreads from a zero cell that was
   * opened before it, and following parents leads back to (x, y).
   */
  ghost predicate Rooted(s: Grid, t: Grid, x: nat, y: nat, rank: Rank)
    requires SameShape(s, t)
  {
    forall a: nat, b: nat :: In(s, a, b) && (a, b) != (x, y) && t[a][b] != s[a][b] ==> ZeroNeighbour(s, t, rank, a, b)
  }

  /** What the propagation loop of a reveal at (x, y) keeps. */
  ghost predicate Progress(s: Grid, t: Grid, x: nat, y: nat, rank: Rank)
  {
    && OnlyUncovers(s, t)
    && NoMineOpened(s, t, x, y)
    && ClosedExcept(s, t, x, y)
    && Rooted(s, t, x, y, rank)
    && rank(x, y) == 0
  }

  /**
   * t is a possible outcome of revealing (x, y) in s, with the opened cells
   * ranked by rank: a covered target is uncovered (its UNKNOWN and MARK bits
   * cleared), other cells are only ever uncovered, no mine besides the target
   * is opened, every opened cell is flooded, and every opened cell besides
   * the target has a lower-ranked opened zero cell in its block.
   */
  ghost predicate Revealed(s: Grid, t: Grid, x: nat, y: nat, rank: Rank)
  {
    && In(s, x, y)
    && Progress(s, t, x, y, rank)
    && (IsCovered(s[x][y]) ==> t[x][y] == Uncover(s[x][y]))
    && (t[x][y] != s[x][y] ==> FloodedAt(t, x, y))
  }

  /**
   * (a, b) is reached from (x, y) in at most n steps, each step going from a
   * cell that was opened, is no mine and counts zero to a cell of its block.
   */
  ghost predicate Reaches(s: Grid, t: Grid, x: nat, y: nat, a: nat, b: nat, n: nat)
    requires SameShape(s, t)
    decreases n
  {
    || (a, b) == (x, y)
    || (n > 0 && exists c: nat, d: nat :: InBlock(c, d, a, b) && OpenedZero(s, t, c, d) && Reaches(s, t, x, y, c, d, n - 1))
  }

  /** Every opened cell is reached from the target through opened zero cells, in at most its rank in steps. */
  lemma {:induction false} RootedReaches(s: Grid, t: Grid, x: nat, y: nat, rank: Rank, a: nat, b: nat, n: nat)
    requires SameShape(s, t) && Rooted(s, t, x, y, rank)
    requires In(s, a, b) && t[a][b] != s[a][b] && rank(a, b) <= n
    ensures Reaches(s, t, x, y, a, b, n)
    decreases n
  {
    if (a, b) != (x, y) {
      ZeroNeighbourIff(s, t, rank, a, b);
      var c: nat, d: nat :| InBlock(a, b, c, d) && Parent(s, t, rank, a, b, c, d);
      RootedReaches(s, t, x, y, rank, c, d, n - 1);
      assert InBlock(c, d, a, b);
    }
  }

  /** A cell that one outcome of a reveal opens, any other outcome opens in the same way. */
  lemma {:induction false} OpenedInBoth(s: Grid, t1: Grid, t2: Grid, x: nat, y: nat, r1: Rank, r2: Rank, a: nat, b: nat, n: nat)
    requires Revealed(s, t1, x, y, r1) && Revealed(s, t2, x, y, r2)
    requires In(s, a, b) && t1[a][b] != s[a][b] && r1(a, b) <= n
    ensures t2[a][b] == t1[a][b]
    decreases n
  {
    assert SameOrUncovered(s[a][b], t1[a][b]) && SameOrUncovered(s[a][b], t2[a][b]);
    if (a, b) != (x, y) {
      ZeroNeighbourIff(s, t1, r1, a, b);
      var c: nat, d: nat :| InBlock(a, b, c, d) && Parent(s, t1, r1, a, b, c, d);
      OpenedInBoth(s, t1, t2, x, y, r1, r2, c, d, n - 1);
      assert SameOrUncovered(s[c][d], t1[c][d]);
      assert FloodedAt(t2, c, d);
      assert InBlock(c, d, a, b);
      assert !IsMine(t2[a][b]);
    }
  }

  /** A reveal has exactly one outcome: Revealed determines the board. */
  lemma RevealedUnique(s: Grid, t1: Grid, t2: Grid, x: nat, y: nat, r1: Rank, r2: Rank)
    requires Revealed(s, t1, x, y, r1) && Revealed(s, t2, x, y, r2)
    ensures t1 == t2
  {
    forall a: nat, b: nat | In(t1, a, b)
      ensures t1[a][b] == t2[a][b]
    {
      if t1[a][b] != s[a][b] {
        OpenedInBoth(s, t1, t2, x, y, r1, r2, a, b, r1(a, b));
      } else if t2[a][b] != s[a][b] {
        OpenedInBoth(s, t2, t1, x, y, r2, r1, a, b, r2(a, b));
      }
    }
    GridEq(t1, t2);
  }

  /** The covered cells of s. */
  ghost function CoveredSet(s: Grid): set<Pos>
  {
    set a: nat, b: nat | a < |s| && b < |s[a]| && IsCovered(s[a][b]) :: (a, b)
  }

  /** Uncovering a covered cell makes the set of covered cells strictly smaller. */
  lemma Fewer(s: Grid, t: Grid, x: nat, y: nat)
    requires OnlyUncovers(s, t) && In(s, x, y) && IsCovered(s[x][y]) && !IsCovered(t[x][y])
    ensures CoveredSet(t) < CoveredSet(s)
  {
    forall p | p in CoveredSet(t)
      ensures p in CoveredSet(s)
    {
      assert SameOrUncovered(s[p.0][p.1], t[p.0][p.1]);
    }
    assert (x, y) in CoveredSet(s);
  }

  /** Right after the target is uncovered the loop invariant holds. */
  lemma Start(s: Grid, x: nat, y: nat, rank: Rank)
    requires In(s, x, y) && IsCovered(s[x][y]) && rank(x, y) == 0
    ensures Progress(s, Put(s, x, y, Uncover(s[x][y])), x, y, rank)
    ensures Revealed(s, Put(s, x, y, Uncover(s[x][y])), x, y, rank) <==> FloodedAt(Put(s, x, y, Uncover(s[x][y])), x, y)
  {
  }

  /** Revealing an uncovered cell changes nothing. */
  lemma Nothing(s: Grid, x: nat, y: nat, rank: Rank)
    requires In(s, x, y) && !IsCovered(s[x][y]) && rank(x, y) == 0
    ensures Revealed(s, s, x, y, rank)
  {
  }

  lemma {:induction false} UncoversTrans(e: Grid, b: Grid, a: Grid)
    requires OnlyUncovers(e, b) && OnlyUncovers(b, a)
    ensures OnlyUncovers(e, a)
    ensures forall c: nat, d: nat :: In(b, c, d) && !IsCovered(b[c][d]) ==> a[c][d] == b[c][d]
    ensures forall c: nat, d: nat :: In(e, c, d) && a[c][d] != b[c][d] ==> b[c][d] == e[c][d]
  {
    forall c: nat, d: nat | In(e, c, d)
      ensures SameOrUncovered(e[c][d], a[c][d])
    {
      assert SameOrUncovered(e[c][d], b[c][d]) && SameOrUncovered(b[c][d], a[c][d]);
    }
  }

  /** A flooded cell stays flooded when more cells are uncovered. */
  lemma FloodedStays(b: Grid, a: Grid, c: nat, d: nat)
    requires OnlyUncovers(b, a) && In(b, c, d) && FloodedAt(b, c, d)
    requires !IsCovered(b[c][d])
    ensures FloodedAt(a, c, d)
  {
    assert a[c][d] == b[c][d];
    if !IsMine(a[c][d]) && Number(a[c][d]) == 0 {
      forall p: nat, q: nat | InBlock(c, d, p, q) && In(a, p, q) && !IsMine(a[p][q])
        ensures !IsCovered(a[p][q])
      {
        assert In(b, p, q) && SameOrUncovered(b[p][q], a[p][q]);
      }
    }
  }

  /**
   * The ranks after a nested reveal from b to a whose opened cells are ranked
   * by sub: the cells it opened rank one above their rank in sub, the others
   * keep their rank.
   */
  ghost function Merge(b: Grid, a: Grid, rank: Rank, sub: Rank): Rank
  {
    (c: nat, d: nat) => if In(b, c, d) && In(a, c, d) && a[c][d] != b[c][d] then sub(c, d) + 1 else rank(c, d)
  }

  /** The premises under which one nested reveal keeps the loop invariant. */
  ghost predicate StepPremise(e: Grid, b: Grid, a: Grid, x: nat, y: nat, nx: nat, ny: nat, rank: Rank, sub: Rank)
  {
    && In(e, x, y) && In(e, nx, ny) && InBlock(x, y, nx, ny)
    && Progress(e, b, x, y, rank)
    && b[x][y] != e[x][y] && !IsMine(b[x][y]) && Number(b[x][y]) == 0
    && !IsMine(b[nx][ny])
    && Revealed(b, a, nx, ny, sub)
  }

  lemma StepNoMine(e: Grid, b: Grid, a: Grid, x: nat, y: nat, nx: nat, ny: nat, rank: Rank, sub: Rank)
    requires StepPremise(e, b, a, x, y, nx, ny, rank, sub)
    ensures OnlyUncovers(e, a) && NoMineOpened(e, a, x, y)
  {
    UncoversTrans(e, b, a);
    forall c: nat, d: nat | In(e, c, d) && (c, d) != (x, y) && a[c][d] != e[c][d]
      ensures !IsMine(e[c][d])
    {
      assert SameOrUncovered(e[c][d], b[c][d]);
    }
  }

  lemma StepClosed(e: Grid, b: Grid, a: Grid, x: nat, y: nat, nx: nat, ny: nat, rank: Rank, sub: Rank)
    requires StepPremise(e, b, a, x, y, nx, ny, rank, sub)
    ensures OnlyUncovers(e, a) && ClosedExcept(e, a, x, y)
  {
    UncoversTrans(e, b, a);
    forall c: nat, d: nat | In(e, c, d) && (c, d) != (x, y) && a[c][d] != e[c][d]
      ensures FloodedAt(a, c, d)
    {
      if b[c][d] != e[c][d] {
        assert SameOrUncovered(e[c][d], b[c][d]);
        FloodedStays(b, a, c, d);
      }
    }
  }

  /** An opened zero cell on the way from b to a was opened on the way from e to a as well. */
  lemma OpenedZeroFrom(e: Grid, b: Grid, a: Grid, c: nat, d: nat)
    requires OnlyUncovers(e, b) && OnlyUncovers(b, a)
    requires OpenedZero(e, b, c, d) || OpenedZero(b, a, c, d)
    ensures OpenedZero(e, a, c, d)
  {
    assert SameOrUncovered(e[c][d], b[c][d]) && SameOrUncovered(b[c][d], a[c][d]);
  }

  /** The merged ranks give each opened cell besides (x, y) a parent, and keep (x, y) at rank 0. */
  lemma StepRooted(e: Grid, b: Grid, a: Grid, x: nat, y: nat, nx: nat, ny: nat, rank: Rank, sub: Rank)
    requires StepPremise(e, b, a, x, y, nx, ny, rank, sub)
    ensures OnlyUncovers(e, a) && Rooted(e, a, x, y, Merge(b, a, rank, sub)) && Merge(b, a, rank, sub)(x, y) == 0
  {
    UncoversTrans(e, b, a);
    var m := Merge(b, a, rank, sub);
    forall c: nat, d: nat | In(e, c, d) && (c, d) != (x, y) && a[c][d] != e[c][d]
      ensures ZeroNeighbour(e, a, m, c, d)
    {
      var p: nat, q: nat;
      if b[c][d] != e[c][d] {
        ZeroNeighbourIff(e, b, rank, c, d);
        p, q :| InBlock(c, d, p, q) && Parent(e, b, rank, c, d, p, q);
        assert m(c, d) == rank(c, d) && m(p, q) == rank(p, q);
      } else if (c, d) == (nx, ny) {
        p, q := x, y;
        assert InBlock(c, d, p, q) && OpenedZero(e, b, p, q);
        assert m(p, q) == 0 && m(c, d) == sub(c, d) + 1;
      } else {
        ZeroNeighbourIff(b, a, sub, c, d);
        p, q :| InBlock(c, d, p, q) && Parent(b, a, sub, c, d, p, q);
        assert m(c, d) == sub(c, d) + 1 && m(p, q) == sub(p, q) + 1;
      }
      OpenedZeroFrom(e, b, a, p, q);
      ZeroNeighbourOf(e, a, m, c, d, p, q);
    }
  }

  /** One nested reveal of a non-mine neighbour keeps the loop invariant, with the merged ranks. */
  lemma Step(e: Grid, b: Grid, a: Grid, x: nat, y: nat, nx: nat, ny: nat, rank: Rank, sub: Rank)
    requires StepPremise(e, b, a, x, y, nx, ny, rank, sub)
    ensures Progress(e, a, x, y, Merge(b, a, rank, sub))
    ensures a[x][y] == b[x][y] && !IsCovered(a[nx][ny])
    ensures forall c: nat, d: nat :: In(b, c, d) && !IsCovered(b[c][d]) ==> a[c][d] == b[c][d]
  {
    StepNoMine(e, b, a, x, y, nx, ny, rank, sub);
    StepClosed(e, b, a, x, y, nx, ny, rank, sub);
    StepRooted(e, b, a, x, y, nx, ny, rank, sub);
    UncoversTrans(e, b, a);
    assert SameOrUncovered(e[x][y], b[x][y]);
    assert SameOrUncovered(b[nx][ny], a[nx][ny]);
  }

  /**
   * The non-mine cells of the block around (x, y) that the propagation loop
   * has passed, in its column-by-column order, are uncovered in t.
   */
  ghost predicate OpenedUpTo(t: Grid, x: nat, y: nat, nx: nat, ny: nat)
  {
    forall a: nat, b: nat :: InBlock(x, y, a, b) && In(t, a, b) && (a < nx || (a == nx && b < ny)) && !IsMine(t[a][b])
      ==> !IsCovered(t[a][b])
  }

  /** Passing (nx, ny) keeps the scan invariant, whether that cell was revealed or skipped. */
  lemma OpenedNext(b: Grid, a: Grid, x: nat, y: nat, nx: nat, ny: nat)
    requires OpenedUpTo(b, x, y, nx, ny) && OnlyUncovers(b, a)
    requires In(a, nx, ny) && !IsMine(a[nx][ny]) ==> !IsCovered(a[nx][ny])
    ensures OpenedUpTo(a, x, y, nx, ny + 1)
  {
    forall c: nat, d: nat | InBlock(x, y, c, d) && In(a, c, d) && (c < nx || (c == nx && d < ny + 1)) && !IsMine(a[c][d])
      ensures !IsCovered(a[c][d])
    {
      assert In(b, c, d) && SameOrUncovered(b[c][d], a[c][d]);
    }
  }

  /** Skipping (nx, ny), which is off the board or a mine, keeps the scan invariant. */
  lemma OpenedSkip(t: Grid, x: nat, y: nat, nx: nat, ny: nat)
    requires OpenedUpTo(t, x, y, nx, ny)
    requires !In(t, nx, ny) || IsMine(t[nx][ny])
    ensures OpenedUpTo(t, x, y, nx, ny + 1)
  {
  }

  /** A finished column of the block moves the scan invariant to the next column. */
  lemma OpenedNextColumn(t: Grid, x: nat, y: nat, nx: nat)
    requires OpenedUpTo(t, x, y, nx, y + 2)
    ensures OpenedUpTo(t, x, y, nx + 1, Lo(y))
  {
  }

  /** Once the loop has passed the whole block, the target is flooded. */
  lemma Finish(t: Grid, x: nat, y: nat)
    requires In(t, x, y) && OpenedUpTo(t, x, y, x + 2, Lo(y))
    ensures FloodedAt(t, x, y)
  {
  }

  /** Uncovering cells never changes a MINE bit or a count. */
  lemma UncoversKeep(s: Grid, t: Grid)
    requires OnlyUncovers(s, t)
    ensures forall a: nat, b: nat :: In(s, a, b) ==> IsMine(t[a][b]) == IsMine(s[a][b]) && Number(t[a][b]) == Number(s[a][b])
  {
    forall a: nat, b: nat | In(s, a, b)
      ensures IsMine(t[a][b]) == IsMine(s[a][b]) && Number(t[a][b]) == Number(s[a][b])
    {
      assert SameOrUncovered(s[a][b], t[a][b]);
    }
  }
}
