/** Writing one word into the grid (src/lib/wordSearch.ts, `canPlace` and
    `placeWord`). */
module Placement {
  import opened Wrappers
  import opened Grid

  /** Character `i` of `word`, laid from `start` along `d`, may go in its
      cell: the cell is inside the grid and is unset or already holds that
      very character. */
  predicate Agrees(g: Grid, size: nat, word: Word, start: Cell, d: Direction, i: nat)
    requires WellFormed(g, size) && i < |word|
  {
    var c := Offset(start, d, i);
    InBounds(c, size) && (At(g, c) == None || At(g, c) == Some(word[i]))
  }

  /** The engine's check loop from index `i` on: it stops at the first cell
      that is outside the grid or holds a different character. */
  function CanPlaceFrom(g: Grid, size: nat, word: Word, start: Cell, d: Direction, i: nat): (ok: bool)
    requires WellFormed(g, size) && i <= |word|
    ensures ok <==> forall j :: i <= j < |word| ==> Agrees(g, size, word, start, d, j)
    decreases |word| - i
  {
    if i == |word| then true
    else
      var c := Offset(start, d, i);
      if c.row < 0 || c.row >= size || c.col < 0 || c.col >= size then
        assert !Agrees(g, size, word, start, d, i);
        false
      else if g[c.row][c.col] != None && g[c.row][c.col] != Some(word[i]) then
        assert !Agrees(g, size, word, start, d, i);
        false
      else CanPlaceFrom(g, size, word, start, d, i + 1)
  }

  /** `canPlace`: every character of `word` may go in its cell. */
  function CanPlace(g: Grid, size: nat, word: Word, start: Cell, d: Direction): (ok: bool)
    requires WellFormed(g, size)
    ensures ok <==> forall i :: 0 <= i < |word| ==> Agrees(g, size, word, start, d, i)
  {
    CanPlaceFrom(g, size, word, start, d, 0)
  }

  /** `g'` is `g` with `word` written from `start` along `d`, and every
      other cell left as it was. */
  ghost predicate Writes(g: Grid, g': Grid, size: nat, word: Word, start: Cell, d: Direction)
    requires WellFormed(g, size)
  {
    && WellFormed(g', size)
    && (forall i :: 0 <= i < |word| ==>
          InBounds(Offset(start, d, i), size) && At(g', Offset(start, d, i)) == Some(word[i]))
    && (forall c :: InBounds(c, size) && c !in Path(start, d, |word|) ==> At(g', c) == At(g, c))
  }

  /** `placeWord`: writes the characters one by one and returns the cells
      written, in order. */
  method PlaceWord(g: Grid, size: nat, word: Word, start: Cell, d: Direction)
    returns (g': Grid, cells: seq<Cell>)
    requires WellFormed(g, size) && IsUnitStep(d)
    requires forall i :: 0 <= i < |word| ==> InBounds(Offset(start, d, i), size)
    ensures |cells| == |word|
    ensures forall i :: 0 <= i < |cells| ==> cells[i] == Offset(start, d, i)
    ensures Writes(g, g', size, word, start, d)
  {
    g' := g;
    cells := [];
    var i := 0;
    while i < |word|
      invariant 0 <= i <= |word|
      invariant WellFormed(g', size)
      invariant cells == Path(start, d, i)
      invariant forall j :: 0 <= j < i ==> At(g', Offset(start, d, j)) == Some(word[j])
      invariant forall c :: InBounds(c, size) && c !in cells ==> At(g', c) == At(g, c)
    {
      var c := Offset(start, d, i);
      forall j | 0 <= j < i
        ensures Offset(start, d, j) != c
      {
        OffsetInjective(start, d, j, i);
      }
      g' := Write(g', c, word[i]);
      cells := cells + [c];
      i := i + 1;
    }
  }

  /** After a successful `canPlace`, writing the word changes no cell that
      was already set. */
  lemma PlacingKeepsSetCells(g: Grid, g': Grid, size: nat, word: Word, start: Cell, d: Direction, c: Cell)
    requires WellFormed(g, size)
    requires CanPlace(g, size, word, start, d) && Writes(g, g', size, word, start, d)
    requires InBounds(c, size) && At(g, c).Some?
    ensures At(g', c) == At(g, c)
  {
    if c in Path(start, d, |word|) {
      var i :| 0 <= i < |word| && Path(start, d, |word|)[i] == c;
      assert Agrees(g, size, word, start, d, i);
    }
  }
}
