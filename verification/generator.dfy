/** Board generation (src/lib/wordSearch.ts, `generateBoard`): up to 50
    attempts to lay every word, longest first, then filler for the cells
    left unset. Every random draw is an input: an `Attempt` carries the
    orders one attempt draws, and `pick` the filler draw for each cell. */
module Generator {
  import opened Wrappers
  import opened Grid
  import opened Sizing
  import opened Placement
  import opened Selection

  const MaxAttempts: nat := 50

  /** A word as laid on the grid, with the cells it occupies in order. */
  datatype PlacedWord = PlacedWord(word: Word, start: Cell, direction: Direction, cells: seq<Cell>)

  datatype Board = Board(grid: Grid, size: nat, placedWords: seq<PlacedWord>)

  /** The random orders of one attempt: the word order, then for the `i`th
      word a shuffle of the directions, and for its `k`th direction a
      shuffle of the start cells. */
  datatype Attempt = Attempt(order: seq<Word>, dirs: seq<seq<Direction>>, positions: seq<seq<seq<Cell>>>)

  /** Which direction and which start, as indices into an attempt's orders. */
  datatype Slot = Slot(dirIndex: nat, posIndex: nat)

  /** What one attempt did: the grid it ended with, the words it laid, and
      for the `m`th laid word the grid just before it and the slot it took. */
  datatype Run = Run(grid: Grid, placed: seq<PlacedWord>, before: seq<Grid>, slots: seq<Slot>)

  /** What `generateBoard` accepts: a non-empty list of non-empty words. */
  predicate GeneratorInput(words: seq<Word>) {
    |words| > 0 && forall i :: 0 <= i < |words| ==> |words[i]| > 0
  }

  /** Longest words first; ties in any order. */
  predicate LongestFirst(order: seq<Word>) {
    forall i, j :: 0 <= i < j < |order| ==> |order[i]| >= |order[j]|
  }

  /** The shape every attempt needs: one direction order per word, one
      position order per direction, and only unit steps. */
  predicate Shaped(a: Attempt) {
    && |a.dirs| == |a.order|
    && |a.positions| == |a.order|
    && forall i :: 0 <= i < |a.order| ==>
         |a.positions[i]| == |a.dirs[i]| && forall k :: 0 <= k < |a.dirs[i]| ==> IsUnitStep(a.dirs[i][k])
  }

  /** `a` is an outcome of one attempt's draws for `words` on a `size` grid:
      a shuffle of the words sorted longest first, and shuffles of the
      eight directions and of all start cells. */
  predicate DrawnFor(a: Attempt, words: seq<Word>, size: nat) {
    && IsShuffleOf(a.order, words)
    && LongestFirst(a.order)
    && |a.dirs| == |a.order|
    && |a.positions| == |a.order|
    && forall i :: 0 <= i < |a.order| ==>
         && IsShuffleOf(a.dirs[i], Directions)
         && |a.positions[i]| == |a.dirs[i]|
         && forall k :: 0 <= k < |a.dirs[i]| ==> IsShuffleOf(a.positions[i][k], AllCells(size))
  }

  lemma DrawnIsShaped(a: Attempt, words: seq<Word>, size: nat)
    requires DrawnFor(a, words, size)
    ensures Shaped(a)
  {
    forall i | 0 <= i < |a.order|
      ensures forall k :: 0 <= k < |a.dirs[i]| ==> IsUnitStep(a.dirs[i][k])
    {
      ShuffledStepsAreUnit(a.dirs[i]);
    }
  }

  /** Every entry of a shuffle of the eight directions is a unit step. */
  lemma ShuffledStepsAreUnit(ds: seq<Direction>)
    requires IsShuffleOf(ds, Directions)
    ensures forall k :: 0 <= k < |ds| ==> IsUnitStep(ds[k])
  {
    forall k | 0 <= k < |ds|
      ensures IsUnitStep(ds[k])
    {
      assert ds[k] in multiset(ds);
      assert ds[k] in Directions;
    }
  }

  /** `p` is laid in `g` along a unit step, inside the grid, each cell
      holding its character. */
  ghost predicate Holds(g: Grid, size: nat, p: PlacedWord)
    requires WellFormed(g, size)
  {
    && IsUnitStep(p.direction)
    && p.cells == Path(p.start, p.direction, |p.word|)
    && forall i :: 0 <= i < |p.word| ==> InBounds(p.cells[i], size) && At(g, p.cells[i]) == Some(p.word[i])
  }

  /** `c` is one of the cells some laid word occupies. */
  ghost predicate OnSomeWord(c: Cell, placed: seq<PlacedWord>) {
    exists m :: 0 <= m < |placed| && c in placed[m].cells
  }

  /** Two laid words may share a cell only where their characters agree. */
  lemma SharedCellsAgree(g: Grid, size: nat, p: PlacedWord, q: PlacedWord, i: nat, j: nat)
    requires WellFormed(g, size) && Holds(g, size, p) && Holds(g, size, q)
    requires i < |p.word| && j < |q.word| && p.cells[i] == q.cells[j]
    ensures p.word[i] == q.word[j]
  {
  }

  function WordsOf(placed: seq<PlacedWord>): seq<Word> {
    seq(|placed|, i requires 0 <= i < |placed| => placed[i].word)
  }

  /** `word` fits at no (direction, start) pair of the given orders. */
  ghost predicate NoSlot(g: Grid, size: nat, word: Word, dirs: seq<Direction>, positions: seq<seq<Cell>>)
    requires WellFormed(g, size) && |positions| == |dirs|
  {
    forall k, j :: 0 <= k < |dirs| && 0 <= j < |positions[k]| ==> !CanPlace(g, size, word, positions[k][j], dirs[k])
  }

  /** `g` is exactly the grid the words of `placed` draw: each holds in it,
      and every set cell lies on one of them. */
  ghost predicate Shows(g: Grid, size: nat, placed: seq<PlacedWord>) {
    && WellFormed(g, size)
    && (forall i :: 0 <= i < |placed| ==> Holds(g, size, placed[i]))
    && (forall c :: InBounds(c, size) && At(g, c).Some? ==> OnSomeWord(c, placed))
  }

  /** `slot` is the first (direction, start) pair, directions in their
      order and starts in theirs, at which `word` passes `canPlace`. */
  ghost predicate IsFirstSlot(g: Grid, size: nat, word: Word, dirs: seq<Direction>, positions: seq<seq<Cell>>, slot: Slot)
    requires WellFormed(g, size) && |positions| == |dirs|
  {
    var k, j := slot.dirIndex, slot.posIndex;
    && k < |dirs| && j < |positions[k]|
    && CanPlace(g, size, word, positions[k][j], dirs[k])
    && (forall k', j' :: 0 <= k' < |dirs| && 0 <= j' < |positions[k']| && (k' < k || (k' == k && j' < j)) ==>
          !CanPlace(g, size, word, positions[k'][j'], dirs[k']))
  }

  /** `word` passes `canPlace` at no start cell in no direction. */
  ghost predicate FitsNowhere(g: Grid, size: nat, word: Word)
    requires WellFormed(g, size)
  {
    forall d, c :: IsUnitStep(d) ==> !CanPlace(g, size, word, c, d)
  }

  /** The search of one word: directions in their order, and for each
      direction the starts in theirs; the first pair that passes
      `canPlace` wins. */
  method FindSlot(g: Grid, size: nat, word: Word, dirs: seq<Direction>, positions: seq<seq<Cell>>)
    returns (slot: Option<Slot>)
    requires WellFormed(g, size) && |positions| == |dirs|
    ensures slot.Some? ==> IsFirstSlot(g, size, word, dirs, positions, slot.value)
    ensures slot.None? ==> NoSlot(g, size, word, dirs, positions)
  {
    var k := 0;
    while k < |dirs|
      invariant 0 <= k <= |dirs|
      invariant forall k', j' :: 0 <= k' < k && 0 <= j' < |positions[k']| ==>
        !CanPlace(g, size, word, positions[k'][j'], dirs[k'])
    {
      var j := 0;
      while j < |positions[k]|
        invariant 0 <= j <= |positions[k]|
        invariant forall j' :: 0 <= j' < j ==> !CanPlace(g, size, word, positions[k][j'], dirs[k])
      {
        if CanPlace(g, size, word, positions[k][j], dirs[k]) {
          return Some(Slot(k, j));
        }
        j := j + 1;
      }
      k := k + 1;
    }
    return None;
  }

  /** With the orders of a real draw, a word for which the search finds no
      slot fits nowhere on the grid, in no direction. */
  lemma NoSlotMeansNowhere(g: Grid, size: nat, word: Word, dirs: seq<Direction>, positions: seq<seq<Cell>>)
    requires WellFormed(g, size) && |positions| == |dirs| && |word| > 0
    requires IsShuffleOf(dirs, Directions)
    requires forall k :: 0 <= k < |dirs| ==> IsShuffleOf(positions[k], AllCells(size))
    requires NoSlot(g, size, word, dirs, positions)
    ensures FitsNowhere(g, size, word)
  {
    forall d, c | IsUnitStep(d)
      ensures !CanPlace(g, size, word, c, d)
    {
      DirectionsAreTheUnitSteps(d);
      assert d in multiset(dirs);
      var k :| 0 <= k < |dirs| && dirs[k] == d;
      AllCellsEnumeratesGrid(size, c);
      assert Offset(c, d, 0) == c;
      if InBounds(c, size) {
        assert c in multiset(positions[k]);
        var j :| 0 <= j < |positions[k]| && positions[k][j] == c;
        assert !CanPlace(g, size, word, positions[k][j], dirs[k]);
      } else {
        assert !Agrees(g, size, word, c, d, 0);
      }
    }
  }

  /** Laying a new word after a successful `canPlace` leaves every word
      laid before it intact. */
  lemma PlacingKeepsEarlierWords(g: Grid, g': Grid, size: nat, word: Word, start: Cell, d: Direction, p: PlacedWord)
    requires WellFormed(g, size)
    requires CanPlace(g, size, word, start, d) && Writes(g, g', size, word, start, d)
    requires Holds(g, size, p)
    ensures Holds(g', size, p)
  {
    forall i | 0 <= i < |p.word|
      ensures At(g', p.cells[i]) == Some(p.word[i])
    {
      PlacingKeepsSetCells(g, g', size, word, start, d, p.cells[i]);
    }
  }

  /** Word `m` of attempt `a` was laid as `p` on the grid `gm` that the
      earlier words `earlier` draw, at the first slot of its own orders. */
  ghost predicate LaidAtFirstSlot(size: nat, a: Attempt, m: nat, gm: Grid, earlier: seq<PlacedWord>, slot: Slot, p: PlacedWord) {
    && Shaped(a) && m < |a.order|
    && Shows(gm, size, earlier)
    && IsFirstSlot(gm, size, a.order[m], a.dirs[m], a.positions[m], slot)
    && p.direction == a.dirs[m][slot.dirIndex]
    && p.start == a.positions[m][slot.dirIndex][slot.posIndex]
  }

  /** Attempt `a` on a `size` grid left `g` and `placed`, and `ok` says
      whether it laid every word: it laid a prefix of its word order, the
      grid shows exactly the laid words, and when it stopped early the next
      word has no slot in its orders. */
  ghost predicate Attempted(size: nat, a: Attempt, g: Grid, placed: seq<PlacedWord>, ok: bool) {
    && Shaped(a)
    && Shows(g, size, placed)
    && |placed| <= |a.order| && WordsOf(placed) == a.order[..|placed|]
    && (ok <==> |placed| == |a.order|)
    && (!ok ==> NoSlot(g, size, a.order[|placed|], a.dirs[|placed|], a.positions[|placed|]))
  }

  /** `r` is what attempt `a` does on a `size` grid: `Attempted`, with
      each word laid at the first slot that passes `canPlace` on the grid
      of the words before it. */
  ghost predicate Ran(size: nat, a: Attempt, r: Run, ok: bool) {
    && Attempted(size, a, r.grid, r.placed, ok)
    && |r.before| == |r.placed| && |r.slots| == |r.placed|
    && (forall m :: 0 <= m < |r.placed| ==>
          LaidAtFirstSlot(size, a, m, r.before[m], r.placed[..m], r.slots[m], r.placed[m]))
  }

  /** Laying the next word at its first slot extends a run by one word. */
  lemma ExtendRun(size: nat, a: Attempt, placed: seq<PlacedWord>, before: seq<Grid>, slots: seq<Slot>,
                  g: Grid, slot: Slot, p: PlacedWord)
    requires Shaped(a) && |placed| < |a.order| && |before| == |placed| && |slots| == |placed|
    requires forall m :: 0 <= m < |placed| ==> LaidAtFirstSlot(size, a, m, before[m], placed[..m], slots[m], placed[m])
    requires LaidAtFirstSlot(size, a, |placed|, g, placed, slot, p)
    ensures var placed', before', slots' := placed + [p], before + [g], slots + [slot];
      forall m :: 0 <= m < |placed'| ==> LaidAtFirstSlot(size, a, m, before'[m], placed'[..m], slots'[m], placed'[m])
  {
    var placed', before', slots' := placed + [p], before + [g], slots + [slot];
    forall m | 0 <= m < |placed'|
      ensures LaidAtFirstSlot(size, a, m, before'[m], placed'[..m], slots'[m], placed'[m])
    {
      if m < |placed| {
        assert placed'[..m] == placed[..m];
        assert before'[m] == before[m] && slots'[m] == slots[m] && placed'[m] == placed[m];
      } else {
        assert placed'[..m] == placed;
      }
    }
  }

  /** One attempt: a fresh grid, then each word in order until one finds
      no slot. */
  method PlaceAll(size: nat, a: Attempt)
    returns (g: Grid, placed: seq<PlacedWord>, allPlaced: bool, ghost before: seq<Grid>, ghost slots: seq<Slot>)
    requires Shaped(a)
    ensures Attempted(size, a, g, placed, allPlaced)
    ensures Ran(size, a, Run(g, placed, before, slots), allPlaced)
  {
    g := EmptyGrid(size);
    placed := [];
    before, slots := [], [];
    allPlaced := true;
    var i := 0;
    while i < |a.order|
      invariant 0 <= i <= |a.order| && |placed| == i && |before| == i && |slots| == i
      invariant Shows(g, size, placed)
      invariant WordsOf(placed) == a.order[..i]
      invariant forall m :: 0 <= m < i ==> LaidAtFirstSlot(size, a, m, before[m], placed[..m], slots[m], placed[m])
    {
      var word := a.order[i];
      var slot := FindSlot(g, size, word, a.dirs[i], a.positions[i]);
      if slot.None? {
        allPlaced := false;
        return;
      }
      var d := a.dirs[i][slot.value.dirIndex];
      var start := a.positions[i][slot.value.dirIndex][slot.value.posIndex];
      var g', p := LayWord(g, size, placed, word, start, d);
      ExtendRun(size, a, placed, before, slots, g, slot.value, p);
      before, slots := before + [g], slots + [slot.value];
      g, placed := g', placed + [p];
      assert WordsOf(placed) == a.order[..i + 1];
      i := i + 1;
    }
  }

  /** Lays `word` at a slot that passed `canPlace` on the grid the earlier
      words draw; the new grid draws the earlier words and the new one. */
  method LayWord(g: Grid, size: nat, placed: seq<PlacedWord>, word: Word, start: Cell, d: Direction)
    returns (g': Grid, p: PlacedWord)
    requires Shows(g, size, placed) && IsUnitStep(d) && CanPlace(g, size, word, start, d)
    ensures p.word == word && p.start == start && p.direction == d
    ensures Shows(g', size, placed + [p])
  {
    forall m | 0 <= m < |word|
      ensures InBounds(Offset(start, d, m), size)
    {
      assert Agrees(g, size, word, start, d, m);
    }
    var cells;
    g', cells := PlaceWord(g, size, word, start, d);
    p := PlacedWord(word, start, d, cells);
    forall m | 0 <= m < |placed|
      ensures Holds(g', size, placed[m])
    {
      PlacingKeepsEarlierWords(g, g', size, word, start, d, placed[m]);
    }
    assert cells == Path(start, d, |word|);
    assert Holds(g', size, p);
    forall c | InBounds(c, size) && At(g', c).Some?
      ensures OnSomeWord(c, placed + [p])
    {
      if c in cells {
        assert (placed + [p])[|placed|] == p;
      } else {
        var m :| 0 <= m < |placed| && c in placed[m].cells;
        assert (placed + [p])[m] == placed[m];
      }
    }
    assert forall m :: 0 <= m < |placed| ==> (placed + [p])[m] == placed[m];
  }

  /** The filled value of cell `c`: a set cell keeps its character, an
      unset one takes the filler character drawn for it. */
  function Filled(g: Grid, c: Cell, pick: Cell -> FillerIndex): Option<char>
    requires WellFormed(g, |g|) && InBounds(c, |g|)
  {
    if At(g, c).None? then Some(KoreanChars[pick(c)]) else At(g, c)
  }

  /** The fill loop: row by row, every unset cell takes a filler character. */
  method Fill(g: Grid, size: nat, pick: Cell -> FillerIndex) returns (f: Grid)
    requires WellFormed(g, size)
    ensures WellFormed(f, size)
    ensures forall c :: InBounds(c, size) ==> At(f, c).Some?
    ensures forall c :: InBounds(c, size) && At(g, c).None? ==>
      At(f, c) == Some(KoreanChars[pick(c)]) && At(f, c).value in KoreanChars
    ensures forall c :: InBounds(c, size) && At(g, c).Some? ==> At(f, c) == At(g, c)
  {
    f := g;
    var r := 0;
    while r < size
      invariant 0 <= r <= size
      invariant WellFormed(f, size)
      invariant forall x :: InBounds(x, size) ==>
        At(f, x) == if x.row < r then Filled(g, x, pick) else At(g, x)
    {
      var c := 0;
      while c < size
        invariant 0 <= c <= size
        invariant WellFormed(f, size)
        invariant forall x :: InBounds(x, size) ==>
          At(f, x) == if x.row < r || (x.row == r && x.col < c) then Filled(g, x, pick) else At(g, x)
      {
        if f[r][c] == None {
          f := Write(f, Cell(r, c), KoreanChars[pick(Cell(r, c))]);
        }
        c := c + 1;
      }
      r := r + 1;
    }
  }

  /** A word laid in `g` reads back from its cells. */
  lemma HoldsReadsBack(g: Grid, size: nat, p: PlacedWord)
    requires WellFormed(g, size) && Holds(g, size, p)
    ensures Inside(g, p.cells)
    ensures CheckWord(g, p.cells) == p.word
  {
    var s := CheckWord(g, p.cells);
    assert AllSet(g, p.cells);
    assert forall i :: 0 <= i < |s| ==> s[i] == p.word[i];
  }

  /** A prefix of a shuffle of `words` uses each word at most as often as
      `words` does, and the whole shuffle uses each exactly as often. */
  lemma PrefixMultiset(order: seq<Word>, words: seq<Word>, n: nat)
    requires IsShuffleOf(order, words) && n <= |order|
    ensures multiset(order[..n]) <= multiset(words)
    ensures n == |words| ==> multiset(order[..n]) == multiset(words)
    ensures n <= |order| == |words|
  {
    assert order == order[..n] + order[n..];
    assert |multiset(order)| == |multiset(words)|;
  }

  /** Filling keeps every laid word readable. */
  lemma FillKeepsWords(g: Grid, f: Grid, size: nat, placed: seq<PlacedWord>)
    requires WellFormed(g, size) && WellFormed(f, size)
    requires forall c :: InBounds(c, size) && At(g, c).Some? ==> At(f, c) == At(g, c)
    requires forall i :: 0 <= i < |placed| ==> Holds(g, size, placed[i])
    ensures forall p :: p in placed ==> Holds(f, size, p) && CheckWord(f, p.cells) == p.word
  {
    forall p | p in placed
      ensures Holds(f, size, p) && CheckWord(f, p.cells) == p.word
    {
      assert Holds(g, size, p);
      HoldsReadsBack(f, size, p);
    }
  }

  /** The retry loop: attempts run in turn until one lays every word or
      50 have been made; the grid and words of the last one are kept.
      `runs` records what each attempt made did: every attempt before the
      last failed, and the kept one failed only if it is the 50th. */
  method Retry(size: nat, words: seq<Word>, attempts: seq<Attempt>)
    returns (g: Grid, placed: seq<PlacedWord>, ghost runs: seq<Run>)
    requires |attempts| == MaxAttempts
    requires forall t :: 0 <= t < |attempts| ==> Shaped(attempts[t]) && IsShuffleOf(attempts[t].order, words)
    ensures 1 <= |runs| <= MaxAttempts
    ensures forall t :: 0 <= t < |runs| - 1 ==> Ran(size, attempts[t], runs[t], false)
    ensures Ran(size, attempts[|runs| - 1], runs[|runs| - 1], |placed| == |words|)
    ensures g == runs[|runs| - 1].grid && placed == runs[|runs| - 1].placed
    ensures |placed| < |words| ==> |runs| == MaxAttempts
    ensures multiset(WordsOf(placed)) <= multiset(words)
    ensures |placed| == |words| ==> multiset(WordsOf(placed)) == multiset(words)
  {
    g := [];
    placed := [];
    runs := [];
    var success := false;
    var attempt := 0;
    while attempt < MaxAttempts && !success
      invariant 0 <= attempt <= MaxAttempts && |runs| == attempt
      invariant attempt == 0 ==> !success
      invariant forall t :: 0 <= t < attempt - 1 ==> Ran(size, attempts[t], runs[t], false)
      invariant attempt > 0 ==>
        && Ran(size, attempts[attempt - 1], runs[attempt - 1], success)
        && g == runs[attempt - 1].grid && placed == runs[attempt - 1].placed
    {
      var allPlaced;
      ghost var before, slots;
      g, placed, allPlaced, before, slots := PlaceAll(size, attempts[attempt]);
      runs := runs + [Run(g, placed, before, slots)];
      if allPlaced {
        success := true;
      }
      attempt := attempt + 1;
    }
    assert |multiset(attempts[attempt - 1].order)| == |multiset(words)|;
    PrefixMultiset(attempts[attempt - 1].order, words, |placed|);
  }

  /** `b` and `runs` are what the retry loop and the fill make of
      `attempts` on a grid of side `size`: every attempt made before the
      last failed; the last is kept, and it failed only if it is the 50th;
      the board's words are the kept attempt's words; and each cell keeps
      the kept grid's character or, if unset there, takes its filler. */
  ghost predicate Outcome(size: nat, words: seq<Word>, attempts: seq<Attempt>, pick: Cell -> FillerIndex, b: Board, runs: seq<Run>) {
    && |attempts| == MaxAttempts
    && b.size == size
    && 1 <= |runs| <= MaxAttempts
    && (forall t :: 0 <= t < |runs| - 1 ==> Ran(size, attempts[t], runs[t], false))
    && Ran(size, attempts[|runs| - 1], runs[|runs| - 1], |b.placedWords| == |words|)
    && b.placedWords == runs[|runs| - 1].placed
    && (|b.placedWords| < |words| ==> |runs| == MaxAttempts)
    && WellFormed(b.grid, size)
    && (forall c :: InBounds(c, size) ==> At(b.grid, c) == Filled(runs[|runs| - 1].grid, c, pick))
  }

  /** The retry loop followed by the fill, on a grid of side `size`. */
  method RetryThenFill(size: nat, words: seq<Word>, attempts: seq<Attempt>, pick: Cell -> FillerIndex)
    returns (b: Board, ghost runs: seq<Run>)
    requires |attempts| == MaxAttempts
    requires forall t :: 0 <= t < |attempts| ==> Shaped(attempts[t]) && IsShuffleOf(attempts[t].order, words)
    ensures b.size == size
    ensures Outcome(b.size, words, attempts, pick, b, runs)
    ensures WellFormed(b.grid, b.size) && Complete(b.grid)
    ensures forall p :: p in b.placedWords ==> Holds(b.grid, b.size, p) && CheckWord(b.grid, p.cells) == p.word
    ensures forall c :: InBounds(c, b.size) && !OnSomeWord(c, b.placedWords) ==> At(b.grid, c) == Some(KoreanChars[pick(c)])
    ensures multiset(WordsOf(b.placedWords)) <= multiset(words)
    ensures |b.placedWords| == |words| ==> multiset(WordsOf(b.placedWords)) == multiset(words)
  {
    var g, placed;
    g, placed, runs := Retry(size, words, attempts);
    var f := Fill(g, size, pick);
    FillKeepsWords(g, f, size, placed);
    b := Board(f, size, placed);
  }

  /** `generateBoard`: choose the side, retry attempts until one lays every
      word (at most 50), then fill. When no attempt succeeds the board of
      the 50th attempt is kept with the words it did lay, and the first
      word it could not lay fits nowhere on the grid of those words. */
  method GenerateBoard(words: seq<Word>, attempts: seq<Attempt>, pick: Cell -> FillerIndex)
    returns (b: Board, ghost runs: seq<Run>)
    requires GeneratorInput(words)
    requires |attempts| == MaxAttempts
    requires forall t :: 0 <= t < |attempts| ==> DrawnFor(attempts[t], words, GridSize(words))
    ensures b.size == GridSize(words)
    ensures MinSize <= b.size <= MaxSize
    ensures b.size >= Min(MaxLen(words) + 2, MaxSize)
    ensures WellFormed(b.grid, b.size) && Complete(b.grid)
    ensures forall p :: p in b.placedWords ==> Holds(b.grid, b.size, p) && CheckWord(b.grid, p.cells) == p.word
    ensures forall c :: InBounds(c, b.size) && !OnSomeWord(c, b.placedWords) ==> At(b.grid, c) == Some(KoreanChars[pick(c)])
    ensures multiset(WordsOf(b.placedWords)) <= multiset(words)
    ensures |b.placedWords| == |words| ==> multiset(WordsOf(b.placedWords)) == multiset(words)
    ensures Outcome(b.size, words, attempts, pick, b, runs)
    ensures |b.placedWords| < |words| ==>
      && |runs| == MaxAttempts
      && FitsNowhere(runs[|runs| - 1].grid, b.size, attempts[|runs| - 1].order[|b.placedWords|])
  {
    var size := GridSize(words);
    assert MinSize <= size <= MaxSize && size >= Min(MaxLen(words) + 2, MaxSize);
    AllDrawnAreShaped(attempts, words, size);
    b, runs := RetryThenFill(size, words, attempts, pick);
    ShortBoardFitsNowhere(words, attempts, size, pick, b, runs);
  }

  /** When the kept attempt laid fewer words than requested, the word it
      stopped at fits nowhere on the grid of the words it did lay. */
  lemma ShortBoardFitsNowhere(words: seq<Word>, attempts: seq<Attempt>, size: nat, pick: Cell -> FillerIndex, b: Board, runs: seq<Run>)
    requires GeneratorInput(words) && |attempts| == MaxAttempts && b.size == size
    requires forall t :: 0 <= t < |attempts| ==> DrawnFor(attempts[t], words, size)
    requires Outcome(b.size, words, attempts, pick, b, runs)
    ensures |b.placedWords| < |words| ==>
      && |runs| == MaxAttempts
      && FitsNowhere(runs[|runs| - 1].grid, b.size, attempts[|runs| - 1].order[|b.placedWords|])
  {
    if |b.placedWords| < |words| {
      var last := |runs| - 1;
      assert DrawnFor(attempts[last], words, b.size);
      LastWordFitsNowhere(b.size, words, attempts[last], runs[last]);
    }
  }

  /** Attempts drawn for `words` have the shape the retry loop needs. */
  lemma AllDrawnAreShaped(attempts: seq<Attempt>, words: seq<Word>, size: nat)
    requires forall t :: 0 <= t < |attempts| ==> DrawnFor(attempts[t], words, size)
    ensures forall t :: 0 <= t < |attempts| ==> Shaped(attempts[t]) && IsShuffleOf(attempts[t].order, words)
  {
    forall t | 0 <= t < |attempts|
      ensures Shaped(attempts[t]) && IsShuffleOf(attempts[t].order, words)
    {
      DrawnIsShaped(attempts[t], words, size);
    }
  }

  /** A drawn attempt that stopped before its last word stopped at a word
      that fits nowhere on the grid it had made. */
  lemma LastWordFitsNowhere(size: nat, words: seq<Word>, a: Attempt, r: Run)
    requires GeneratorInput(words) && DrawnFor(a, words, size)
    requires Ran(size, a, r, false)
    ensures |r.placed| < |a.order|
    ensures FitsNowhere(r.grid, size, a.order[|r.placed|])
  {
    var n := |r.placed|;
    var word := a.order[n];
    assert word in multiset(a.order);
    assert word in words;
    NoSlotMeansNowhere(r.grid, size, word, a.dirs[n], a.positions[n]);
  }
}
