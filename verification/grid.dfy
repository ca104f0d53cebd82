/** Shared vocabulary of the word-search engine (src/lib/wordSearch.ts):
    cells, the eight directions, square grids whose cells may still be
    unset, and the filler alphabet. */
module Grid {
  import opened Wrappers

  function Max(a: int, b: int): int { if a >= b then a else b }

  function Min(a: int, b: int): int { if a <= b then a else b }

  /** A word is its sequence of code points. */
  type Word = string

  /** A (row, column) coordinate. Unbounded so that placements starting or
      running outside the grid can be asked about, as the engine does. */
  datatype Cell = Cell(row: int, col: int)

  /** A (row-delta, column-delta) step. */
  datatype Direction = Direction(dr: int, dc: int)

  /** The engine's eight directions, in its order: right, down, down-right,
      up-right, left, up, up-left, down-left. */
  const Directions: seq<Direction> := [
    Direction(0, 1), Direction(1, 0), Direction(1, 1), Direction(-1, 1),
    Direction(0, -1), Direction(-1, 0), Direction(-1, -1), Direction(1, -1)
  ]

  /** A step of at most one row and one column that actually moves. */
  predicate IsUnitStep(d: Direction) {
    -1 <= d.dr <= 1 && -1 <= d.dc <= 1 && (d.dr != 0 || d.dc != 0)
  }

  /** The eight directions are exactly the unit steps. */
  lemma DirectionsAreTheUnitSteps(d: Direction)
    ensures d in Directions <==> IsUnitStep(d)
  {
  }

  /** The cell `i` steps from `start` along `d`. */
  function Offset(start: Cell, d: Direction, i: int): Cell {
    Cell(start.row + d.dr * i, start.col + d.dc * i)
  }

  /** The `n` consecutive cells from `start` along `d`. */
  function Path(start: Cell, d: Direction, n: nat): seq<Cell> {
    seq(n, i => Offset(start, d, i))
  }

  /** Walking along a unit step never revisits a cell. */
  lemma OffsetInjective(start: Cell, d: Direction, i: int, j: int)
    requires IsUnitStep(d) && i != j
    ensures Offset(start, d, i) != Offset(start, d, j)
  {
    if d.dr != 0 {
      assert d.dr * i != d.dr * j by {
        if d.dr == 1 { } else { assert d.dr == -1; }
      }
    } else {
      assert d.dc * i != d.dc * j by {
        if d.dc == 1 { } else { assert d.dc == -1; }
      }
    }
  }

  /** A grid under construction; `None` is the engine's empty string, an
      unset cell. */
  type Grid = seq<seq<Option<char>>>

  /** `g` is a `size` by `size` square. */
  predicate WellFormed(g: Grid, size: nat) {
    |g| == size && forall r :: 0 <= r < size ==> |g[r]| == size
  }

  predicate InBounds(c: Cell, size: int) {
    0 <= c.row < size && 0 <= c.col < size
  }

  function At(g: Grid, c: Cell): Option<char>
    requires WellFormed(g, |g|) && InBounds(c, |g|)
  {
    g[c.row][c.col]
  }

  /** Every cell of `g` is set. */
  ghost predicate Complete(g: Grid)
    requires WellFormed(g, |g|)
  {
    forall c :: InBounds(c, |g|) ==> At(g, c).Some?
  }

  /** `g` with cell `c` set to `ch`. */
  function Write(g: Grid, c: Cell, ch: char): (g': Grid)
    requires WellFormed(g, |g|) && InBounds(c, |g|)
    ensures WellFormed(g', |g|)
    ensures At(g', c) == Some(ch)
    ensures forall x :: InBounds(x, |g|) && x != c ==> At(g', x) == At(g, x)
  {
    g[c.row := g[c.row][c.col := Some(ch)]]
  }

  /** A fresh `size` by `size` grid with every cell unset. */
  function EmptyGrid(size: nat): (g: Grid)
    ensures WellFormed(g, size)
    ensures forall c :: InBounds(c, size) ==> At(g, c) == None
  {
    seq(size, _ => seq(size, _ => None))
  }

  /** Every start position in row-major order, as the engine enumerates
      them before shuffling: index `i` is row `i / size`, column `i % size`. */
  function AllCells(size: nat): seq<Cell> {
    seq(size * size, i requires 0 <= i < size * size => Cell(i / size, i % size))
  }

  /** `AllCells(size)` lists each cell of the grid, and nothing else. */
  lemma AllCellsEnumeratesGrid(size: nat, c: Cell)
    ensures c in AllCells(size) <==> InBounds(c, size)
  {
    if InBounds(c, size) {
      var i := c.row * size + c.col;
      MulMonotone(c.row, size - 1, size);
      assert (size - 1) * size + size == size * size;
      DivModUnique(i, size, c.row, c.col);
      assert AllCells(size)[i] == c;
    }
    if c in AllCells(size) {
      var i :| 0 <= i < size * size && AllCells(size)[i] == c;
      var q, r := i / size, i % size;
      if q >= size {
        MulMonotone(size, q, size);
      }
    }
  }

  lemma MulMonotone(a: int, b: int, d: nat)
    requires a <= b
    ensures a * d <= b * d
  {
    var k := b - a;
    assert b * d == a * d + k * d;
  }

  /** Euclidean division by a positive divisor has one answer. */
  lemma DivModUnique(x: int, d: int, q: int, r: int)
    requires d > 0 && 0 <= r < d && x == q * d + r
    ensures x / d == q && x % d == r
  {
    var q', r' := x / d, x % d;
    assert x == q' * d + r';
    if q' > q {
      MulMonotone(q + 1, q', d);
    } else if q' < q {
      MulMonotone(q' + 1, q, d);
    }
  }

  /** The filler alphabet: 56 Korean syllables. */
  const KoreanChars: string := "가나다라마바사아자차카타파하거너더러머버서어저처커터퍼허고노도로모보소오조초코토포호구누두루무부수우주추쿠투푸후"

  /** An index the filler draw can produce: `floor(random * 56)`. */
  type FillerIndex = i: nat | i < 56

  /** `s` is a rearrangement of `base` (the outcome of a shuffle). */
  predicate IsShuffleOf<T(==)>(s: seq<T>, base: seq<T>) {
    multiset(s) == multiset(base)
  }

  predicate NoDuplicates<T(==)>(s: seq<T>) {
    forall i, j :: 0 <= i < j < |s| ==> s[i] != s[j]
  }

  function Reverse<T>(s: seq<T>): seq<T> {
    seq(|s|, i requires 0 <= i < |s| => s[|s| - 1 - i])
  }

  /** Reversing twice gives the sequence back. */
  lemma ReverseTwice<T>(s: seq<T>)
    ensures Reverse(Reverse(s)) == s
  {
    assert forall i :: 0 <= i < |s| ==> Reverse(Reverse(s))[i] == s[i];
  }
}
