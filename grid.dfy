// The playing field of the Snake game: integer cells on a square board of
// `n` x `n` tiles, and the counting facts that guarantee a free cell
// whenever the snake is shorter than the board has cells.

module Grid {

  /** A tile of the board, addressed by column `x` and row `y`. */
  datatype Cell = Cell(x: int, y: int)

  /** True when `c` lies on a board of `n` x `n` tiles: both coordinates in [0, n). */
  predicate InBounds(c: Cell, n: int) {
    0 <= c.x < n && 0 <= c.y < n
  }

  /** The cells (0, y), ..., (w - 1, y) of row `y`. */
  ghost function RowCells(y: int, w: nat): set<Cell>
    decreases w
  {
    if w == 0 then {} else RowCells(y, w - 1) + {Cell(w - 1, y)}
  }

  /** The cells of the rows 0, ..., h - 1, each `n` tiles wide. */
  ghost function BoardRows(h: nat, n: nat): set<Cell>
    decreases h
  {
    if h == 0 then {} else BoardRows(h - 1, n) + RowCells(h - 1, n)
  }

  /** Every cell of a board of `n` x `n` tiles. */
  ghost function Board(n: nat): set<Cell> {
    BoardRows(n, n)
  }

  /** A row of width `w` holds exactly the cells (x, y) with 0 <= x < w. */
  lemma {:induction false} RowCellsMembers(y: int, w: nat)
    ensures forall c :: c in RowCells(y, w) <==> c.y == y && 0 <= c.x < w
  {
    if w > 0 {
      RowCellsMembers(y, w - 1);
    }
  }

  /** A row of width `w` holds `w` cells. */
  lemma {:induction false} RowCellsCard(y: int, w: nat)
    ensures |RowCells(y, w)| == w
  {
    if w > 0 {
      RowCellsCard(y, w - 1);
      RowCellsMembers(y, w - 1);
      assert Cell(w - 1, y) !in RowCells(y, w - 1);
    }
  }

  /** The first `h` rows of a board `n` wide hold exactly the cells with 0 <= x < n and 0 <= y < h. */
  lemma {:induction false} BoardRowsMembers(h: nat, n: nat)
    ensures forall c :: c in BoardRows(h, n) <==> 0 <= c.x < n && 0 <= c.y < h
  {
    if h > 0 {
      BoardRowsMembers(h - 1, n);
      RowCellsMembers(h - 1, n);
    }
  }

  /** Row `h` shares no cell with the rows above it. */
  lemma RowIsNew(h: nat, n: nat)
    ensures forall c :: c in RowCells(h, n) ==> c !in BoardRows(h, n)
  {
    BoardRowsMembers(h, n);
    RowCellsMembers(h, n);
  }

  /** The first `h` rows of a board `n` wide hold h * n cells. */
  lemma {:induction false} BoardRowsCard(h: nat, n: nat)
    ensures |BoardRows(h, n)| == h * n
  {
    if h > 0 {
      BoardRowsCard(h - 1, n);
      RowCellsCard(h - 1, n);
      RowIsNew(h - 1, n);
      DisjointUnionCard(BoardRows(h - 1, n), RowCells(h - 1, n));
      MulStep(h, n);
    }
  }

  lemma DisjointUnionCard(a: set<Cell>, b: set<Cell>)
    requires forall c :: c in b ==> c !in a
    ensures |a + b| == |a| + |b|
  {
    assert a * b == {};
  }

  lemma MulStep(h: int, n: int)
    ensures (h - 1) * n + n == h * n
  {
  }

  /** The board is exactly the in-bounds cells, and it has n * n of them. */
  lemma BoardFacts(n: nat)
    ensures forall c :: c in Board(n) <==> InBounds(c, n)
    ensures |Board(n)| == n * n
  {
    BoardRowsMembers(n, n);
    BoardRowsCard(n, n);
  }

  /** The set of cells a sequence visits. */
  ghost function Cells(s: seq<Cell>): set<Cell> {
    set c | c in s
  }

  /** A sequence visits at most as many distinct cells as it has entries. */
  lemma {:induction false} CellsCard(s: seq<Cell>)
    ensures |Cells(s)| <= |s|
  {
    if s != [] {
      CellsCard(s[1..]);
      assert Cells(s) == Cells(s[1..]) + {s[0]};
    }
  }

  /** A subset is no larger than its superset. */
  lemma SubsetCard(a: set<Cell>, b: set<Cell>)
    requires a <= b
    ensures |a| <= |b|
  {
    assert b == a + (b - a);
    assert a * (b - a) == {};
  }

  /**
   * Pigeonhole: when every cell of `s` is on the board and `s` is shorter
   * than the board has cells, some cell of the board is not in `s`.
   */
  lemma FreeCellExists(s: seq<Cell>, n: int)
    requires 0 <= n
    requires forall i :: 0 <= i < |s| ==> InBounds(s[i], n)
    requires |s| < n * n
    ensures exists c :: InBounds(c, n) && c !in s
  {
    BoardFacts(n);
    if forall c :: InBounds(c, n) ==> c in s {
      assert Board(n) <= Cells(s);
      SubsetCard(Board(n), Cells(s));
      CellsCard(s);
      assert false;
    }
  }
}
