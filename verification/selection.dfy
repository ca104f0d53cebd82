/** Turning a drag into cells and cells into text (src/lib/wordSearch.ts,
    `getCellsBetween` and `checkWord`). */
module Selection {
  import opened Wrappers
  import opened Grid

  function Abs(x: int): nat { if x < 0 then -x else x }

  function Sign(x: int): int { if x > 0 then 1 else if x < 0 then -1 else 0 }

  /** `b` lies on one of the eight straight lines through `a` (or is `a`). */
  ghost predicate Colinear(a: Cell, b: Cell) {
    exists d: Direction, k: nat {:trigger Offset(a, d, k)} :: IsUnitStep(d) && b == Offset(a, d, k)
  }

  /** Each cell of `cells` is one step `d` after the one before it. */
  ghost predicate Stepwise(cells: seq<Cell>, d: Direction) {
    forall i :: 0 <= i < |cells| - 1 ==> cells[i + 1] == Offset(cells[i], d, 1)
  }

  /** The engine's straightness test agrees with the geometric one. */
  lemma ColinearIff(a: Cell, b: Cell)
    ensures Colinear(a, b) <==>
      var dr, dc := b.row - a.row, b.col - a.col;
      dr == 0 || dc == 0 || Abs(dr) == Abs(dc)
  {
    var dr, dc := b.row - a.row, b.col - a.col;
    if dr == 0 || dc == 0 || Abs(dr) == Abs(dc) {
      var k: nat := Max(Abs(dr), Abs(dc));
      var d := Direction(Sign(dr), Sign(dc));
      if k == 0 {
        assert b == Offset(a, Direction(0, 1), 0);
      } else {
        StepTimesLength(dr, k);
        StepTimesLength(dc, k);
        assert b == Offset(a, d, k);
      }
    }
  }

  /** A delta that is zero or as long as the run is one sign step per cell. */
  lemma StepTimesLength(delta: int, k: nat)
    requires delta == 0 || Abs(delta) == k
    ensures Sign(delta) * k == delta
  {
  }

  /** `getCellsBetween`: the straight run of cells from `a` to `b`, or
      `None` when the two are not on a common row, column or diagonal. */
  function GetCellsBetween(a: Cell, b: Cell): (r: Option<seq<Cell>>)
    ensures r.Some? <==> Colinear(a, b)
    ensures a == b ==> r == Some([a])
    ensures r.Some? ==>
      && |r.value| == Max(Abs(b.row - a.row), Abs(b.col - a.col)) + 1
      && r.value[0] == a
      && r.value[|r.value| - 1] == b
    ensures r.Some? && a != b ==> exists d :: IsUnitStep(d) && Stepwise(r.value, d)
  {
    ColinearIff(a, b);
    var dr, dc := b.row - a.row, b.col - a.col;
    if dr != 0 && dc != 0 && Abs(dr) != Abs(dc) then None
    else
      var steps: nat := Max(Abs(dr), Abs(dc));
      if steps == 0 then Some([a])
      else
        var d := Direction(Sign(dr), Sign(dc));
        StepTimesLength(dr, steps);
        StepTimesLength(dc, steps);
        var cells := Path(a, d, steps + 1);
        assert Stepwise(cells, d);
        Some(cells)
  }

  /** One coordinate of a unit step taken `m` times. */
  lemma ScaledStep(u: int, m: nat)
    requires -1 <= u <= 1
    ensures Abs(u * m) == (if u == 0 then 0 else m)
    ensures m > 0 ==> Sign(u * m) == u && Sign(-(u * m)) == -u
  {
    if u == 1 { } else if u == -1 { } else { }
  }

  /** Dragging from the first to the last cell of a straight run selects
      exactly that run. */
  lemma SelectingARun(start: Cell, d: Direction, n: nat)
    requires IsUnitStep(d) && n >= 1
    ensures GetCellsBetween(start, Offset(start, d, n - 1)) == Some(Path(start, d, n))
  {
    var b := Offset(start, d, n - 1);
    ScaledStep(d.dr, n - 1);
    ScaledStep(d.dc, n - 1);
    if n == 1 {
      assert Path(start, d, n) == [start];
    } else {
      assert Direction(Sign(b.row - start.row), Sign(b.col - start.col)) == d;
    }
  }

  /** Dragging from the last cell of a straight run back to its first
      selects the run in reverse. */
  lemma SelectingARunBackwards(start: Cell, d: Direction, n: nat)
    requires IsUnitStep(d) && n >= 1
    ensures GetCellsBetween(Offset(start, d, n - 1), start) == Some(Reverse(Path(start, d, n)))
  {
    var b := Offset(start, d, n - 1);
    var back := Direction(-d.dr, -d.dc);
    assert IsUnitStep(back);
    assert Offset(b, back, n - 1) == start;
    SelectingARun(b, back, n);
    WalkingBack(start, d, n);
  }

  /** Walking a run from its far end with the opposite step visits its
      cells in reverse. */
  lemma WalkingBack(start: Cell, d: Direction, n: nat)
    requires n >= 1
    ensures Path(Offset(start, d, n - 1), Direction(-d.dr, -d.dc), n) == Reverse(Path(start, d, n))
  {
    var b := Offset(start, d, n - 1);
    var back := Direction(-d.dr, -d.dc);
    var fw, bw := Path(start, d, n), Path(b, back, n);
    assert |bw| == |Reverse(fw)| == n;
    forall i | 0 <= i < n
      ensures bw[i] == Reverse(fw)[i]
    {
      StepBack(start, d, n - 1, i);
    }
  }

  /** `i` steps back from `m` steps forward is `m - i` steps forward. */
  lemma StepBack(start: Cell, d: Direction, m: int, i: int)
    ensures Offset(Offset(start, d, m), Direction(-d.dr, -d.dc), i) == Offset(start, d, m - i)
  {
    assert d.dr * m + -d.dr * i == d.dr * (m - i);
    assert d.dc * m + -d.dc * i == d.dc * (m - i);
  }

  /** A run between two cells inside the grid stays inside the grid. */
  lemma BetweenStaysInside(a: Cell, b: Cell, size: int)
    requires InBounds(a, size) && InBounds(b, size)
    ensures var r := GetCellsBetween(a, b);
      r.Some? ==> forall i :: 0 <= i < |r.value| ==> InBounds(r.value[i], size)
  {
    var r := GetCellsBetween(a, b);
    if r.Some? && a != b {
      var dr, dc := b.row - a.row, b.col - a.col;
      var steps: nat := Max(Abs(dr), Abs(dc));
      var d := Direction(Sign(dr), Sign(dc));
      assert r.value == Path(a, d, steps + 1);
      forall i | 0 <= i < |r.value|
        ensures InBounds(r.value[i], size)
      {
        assert r.value[i] == Offset(a, d, i);
        BetweenCoordinate(a.row, dr, steps, i);
        BetweenCoordinate(a.col, dc, steps, i);
      }
    }
  }

  /** One coordinate of the run: it moves from `x` towards `x + delta`
      without passing it. */
  lemma BetweenCoordinate(x: int, delta: int, steps: nat, i: nat)
    requires i <= steps && (delta == 0 || Abs(delta) == steps)
    ensures Min(x, x + delta) <= x + Sign(delta) * i <= Max(x, x + delta)
  {
  }


  /** The text one cell contributes: its character, or nothing if unset. */
  function CellText(g: Grid, c: Cell): string
    requires WellFormed(g, |g|) && InBounds(c, |g|)
  {
    match At(g, c)
    case None => ""
    case Some(ch) => [ch]
  }

  /** Every cell of `cells` is inside `g`. */
  predicate Inside(g: Grid, cells: seq<Cell>) {
    forall i :: 0 <= i < |cells| ==> InBounds(cells[i], |g|)
  }

  /** Every cell of `cells` is inside `g` and set. */
  ghost predicate AllSet(g: Grid, cells: seq<Cell>)
    requires WellFormed(g, |g|) && Inside(g, cells)
  {
    forall i :: 0 <= i < |cells| ==> At(g, cells[i]).Some?
  }

  /** `checkWord`: the characters of `cells`, joined in order. */
  function CheckWord(g: Grid, cells: seq<Cell>): (s: string)
    requires WellFormed(g, |g|) && Inside(g, cells)
    ensures |s| <= |cells|
    ensures AllSet(g, cells) ==>
      |s| == |cells| && forall i :: 0 <= i < |cells| ==> At(g, cells[i]) == Some(s[i])
  {
    if cells == [] then ""
    else CellText(g, cells[0]) + CheckWord(g, cells[1..])
  }

  /** Reading set cells backwards gives the text reversed. */
  lemma CheckWordReversed(g: Grid, cells: seq<Cell>)
    requires WellFormed(g, |g|) && Inside(g, cells) && AllSet(g, cells)
    ensures Inside(g, Reverse(cells))
    ensures CheckWord(g, Reverse(cells)) == Reverse(CheckWord(g, cells))
    ensures Reverse(CheckWord(g, Reverse(cells))) == CheckWord(g, cells)
  {
    ReadingBackwards(g, cells);
    ReverseTwice(CheckWord(g, cells));
  }

  /** The reversal half of `CheckWordReversed`. */
  lemma ReadingBackwards(g: Grid, cells: seq<Cell>)
    requires WellFormed(g, |g|) && Inside(g, cells) && AllSet(g, cells)
    ensures Inside(g, Reverse(cells))
    ensures CheckWord(g, Reverse(cells)) == Reverse(CheckWord(g, cells))
  {
    var rc := Reverse(cells);
    forall i | 0 <= i < |rc|
      ensures InBounds(rc[i], |g|) && At(g, rc[i]).Some?
    {
      assert rc[i] == cells[|cells| - 1 - i];
    }
    assert Inside(g, rc) && AllSet(g, rc);
    var s, t := CheckWord(g, cells), CheckWord(g, rc);
    assert |s| == |cells| && |t| == |cells|;
    forall i | 0 <= i < |t|
      ensures t[i] == Reverse(s)[i]
    {
      var j := |cells| - 1 - i;
      assert rc[i] == cells[j];
      assert At(g, rc[i]) == Some(t[i]);
      assert At(g, cells[j]) == Some(s[j]);
    }
    assert t == Reverse(s);
  }

  /** Worked case: a drag along a row. */
  lemma RowExample()
    ensures var r := GetCellsBetween(Cell(0, 0), Cell(0, 3));
      r.Some? && |r.value| == 4 && r.value[0] == Cell(0, 0) && r.value[1] == Cell(0, 1)
      && r.value[2] == Cell(0, 2) && r.value[3] == Cell(0, 3)
  {
    assert Offset(Cell(0, 0), Direction(0, 1), 3) == Cell(0, 3);
    SelectingARun(Cell(0, 0), Direction(0, 1), 4);
  }

  /** Worked case: a drag along a diagonal. */
  lemma DiagonalExample()
    ensures var r := GetCellsBetween(Cell(0, 0), Cell(3, 3));
      r.Some? && |r.value| == 4 && r.value[0] == Cell(0, 0) && r.value[1] == Cell(1, 1)
      && r.value[2] == Cell(2, 2) && r.value[3] == Cell(3, 3)
  {
    assert Offset(Cell(0, 0), Direction(1, 1), 3) == Cell(3, 3);
    SelectingARun(Cell(0, 0), Direction(1, 1), 4);
  }

  /** Worked case: two rows down and three across is no straight line. */
  lemma OffsetExample()
    ensures GetCellsBetween(Cell(0, 0), Cell(2, 3)) == None
  {
  }
}
