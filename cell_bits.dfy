/*
 * The cell of a board is a u32 bit field: bit 4 marks a mine, bit 5 says the
 * cell is still covered, bit 6 says the player has flagged it, and the low
 * four bits hold the number of mines around it once the board is counted.
 * Cells are modelled as bv32 so that &, |, ^ and ! mean exactly what they
 * mean in the Rust program.
 */
module CellBits {

  const MINE: bv32 := 16
  const UNKNOWN: bv32 := MINE << 1
  const MARK: bv32 := UNKNOWN << 1
  const NUMBER_MASK: bv32 := MINE - 1

  /** The constants: MINE, UNKNOWN and MARK are single bits above the four count bits, and no two fields overlap. */
  lemma {:induction false} ConstantsLayout()
    ensures UNKNOWN == 32 && MARK == 64 && NUMBER_MASK == 15
    ensures MINE & NUMBER_MASK == 0 && UNKNOWN & (MINE | NUMBER_MASK) == 0
    ensures MARK & (UNKNOWN | MINE | NUMBER_MASK) == 0
  {
  }

  predicate IsMine(c: bv32) { c & MINE != 0 }
  predicate IsCovered(c: bv32) { c & UNKNOWN != 0 }
  predicate IsMarked(c: bv32) { c & MARK != 0 }

  /**
   * The value of a word below 16, read digit by digit so that no bit vector
   * has to be turned into an integer symbolically.
   */
  function Digit(k: bv32): (n: nat)
    requires k <= 15
    ensures n < 16 && (n == 0 <==> k == 0)
  {
    if k == 0 then 0 else if k == 1 then 1 else if k == 2 then 2 else if k == 3 then 3
    else if k == 4 then 4 else if k == 5 then 5 else if k == 6 then 6 else if k == 7 then 7
    else if k == 8 then 8 else if k == 9 then 9 else if k == 10 then 10 else if k == 11 then 11
    else if k == 12 then 12 else if k == 13 then 13 else if k == 14 then 14 else 15
  }

  /** The word of a number below 16: the inverse of Digit. */
  function Word(n: nat): (k: bv32)
    requires n < 16
    ensures k <= 15 && Digit(k) == n
  {
    if n == 0 then 0 else if n == 1 then 1 else if n == 2 then 2 else if n == 3 then 3
    else if n == 4 then 4 else if n == 5 then 5 else if n == 6 then 6 else if n == 7 then 7
    else if n == 8 then 8 else if n == 9 then 9 else if n == 10 then 10 else if n == 11 then 11
    else if n == 12 then 12 else if n == 13 then 13 else if n == 14 then 14 else 15
  }

  /** Digit and Word are the usual conversions between u32 and integers. */
  lemma {:induction false} DigitIsValue(k: bv32)
    requires k <= 15
    ensures Digit(k) == k as nat && Word(k as nat) == k
  {
    assert k == 0 || k == 1 || k == 2 || k == 3 || k == 4 || k == 5 || k == 6 || k == 7
        || k == 8 || k == 9 || k == 10 || k == 11 || k == 12 || k == 13 || k == 14 || k == 15;
  }

  /** A word below 16 is determined by its digit. */
  lemma {:induction false} DigitInjective(k: bv32, n: nat)
    requires k <= 15 && Digit(k) == n
    ensures Word(n) == k
  {
    assert k == 0 || k == 1 || k == 2 || k == 3 || k == 4 || k == 5 || k == 6 || k == 7
        || k == 8 || k == 9 || k == 10 || k == 11 || k == 12 || k == 13 || k == 14 || k == 15;
  }

  /** The neighbour count held in the low four bits. */
  function Number(c: bv32): (n: nat)
    ensures n < 16
    ensures n == 0 <==> c & NUMBER_MASK == 0
  {
    Digit(c & NUMBER_MASK)
  }

  /** The decoded view of a cell: what the bit field means. */
  datatype Cell = Cell(mine: bool, covered: bool, marked: bool, number: nat)

  function Decode(c: bv32): Cell
  {
    Cell(IsMine(c), IsCovered(c), IsMarked(c), Number(c))
  }

  function Encode(d: Cell): (c: bv32)
    requires d.number < 16
    ensures c & !(MINE | UNKNOWN | MARK | NUMBER_MASK) == 0
  {
    (if d.mine then MINE else 0)
    | (if d.covered then UNKNOWN else 0)
    | (if d.marked then MARK else 0)
    | Word(d.number)
  }

  /** Decoding an encoded cell gives the cell back. */
  lemma {:induction false} DecodeEncode(d: Cell)
    requires d.number < 16
    ensures Decode(Encode(d)) == d
  {
  }

  /** A word that uses only the four flag-and-count fields is the encoding of its decoding. */
  lemma {:induction false} EncodeDecode(c: bv32)
    requires c & !(MINE | UNKNOWN | MARK | NUMBER_MASK) == 0
    ensures Encode(Decode(c)) == c
  {
    DigitInjective(c & NUMBER_MASK, Number(c));
  }

  /** The two values the set-up writes before counting. */
  lemma {:induction false} InitialWords()
    ensures Decode(UNKNOWN) == Cell(false, true, false, 0)
    ensures Decode(MINE | UNKNOWN) == Cell(true, true, false, 0)
  {
  }

  /**
   * Uncovering a cell clears its UNKNOWN and MARK bits and keeps every other
   * bit; in particular it keeps the mine bit and the count, and it drops a flag.
   */
  function Uncover(c: bv32): (r: bv32)
    ensures Decode(r) == Decode(c).(covered := false, marked := false)
    ensures r & !(UNKNOWN | MARK) == c & !(UNKNOWN | MARK)
    ensures IsCovered(c) ==> r != c
  {
    c & !UNKNOWN & !MARK
  }

  /**
   * The flag key: on a covered cell it flips MARK and nothing else, on an
   * uncovered cell it does nothing.
   */
  function Flag(c: bv32): (r: bv32)
    ensures IsCovered(c) ==> Decode(r) == Decode(c).(marked := !IsMarked(c)) && r ^ c == MARK
    ensures !IsCovered(c) ==> r == c
  {
    if IsCovered(c) then c ^ MARK else c
  }

  /** Flagging twice restores the cell. */
  lemma {:induction false} FlagTwice(c: bv32)
    ensures Flag(Flag(c)) == c
  {
  }

  /** Or-ing a word below 16 into a cell leaves its mine, covered and flag bits as they were. */
  lemma {:induction false} OrKeepsFlags(c: bv32, k: bv32)
    requires k <= 15
    ensures IsMine(c | k) == IsMine(c)
    ensures IsCovered(c | k) == IsCovered(c)
    ensures IsMarked(c | k) == IsMarked(c)
  {
    OrKeepsMine(c, k);
    OrKeepsCovered(c, k);
    OrKeepsMark(c, k);
  }

  lemma {:induction false} OrKeepsMine(c: bv32, k: bv32)
    requires k <= 15
    ensures IsMine(c | k) == IsMine(c)
  {
  }

  lemma {:induction false} OrKeepsCovered(c: bv32, k: bv32)
    requires k <= 15
    ensures IsCovered(c | k) == IsCovered(c)
  {
  }

  lemma {:induction false} OrKeepsMark(c: bv32, k: bv32)
    requires k <= 15
    ensures IsMarked(c | k) == IsMarked(c)
  {
  }

  /** Or-ing a word below 16 into a cell whose count bits are clear sets the count to it. */
  lemma {:induction false} OrSetsCount(c: bv32, k: bv32)
    requires k <= 15 && c & NUMBER_MASK == 0
    ensures (c | k) & NUMBER_MASK == k
    ensures Decode(c | k) == Decode(c).(number := Digit(k))
  {
    OrKeepsFlags(c, k);
    assert (c | k) & NUMBER_MASK == k;
  }
}
