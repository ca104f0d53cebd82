/** The play screen's selection logic (src/components/GameBoard.tsx) as
    pure steps over an explicit session: pressing on a cell, dragging over
    cells, and releasing, which may mark a word found. */
module Game {
  import opened Wrappers
  import opened Grid
  import opened Selection
  import opened Generator

  /** FOUND_COLORS has five entries; found runs cycle through them. */
  const ColorCount: nat := 5

  /** The component's state. `foundCells` is keyed by cell where the
      component uses the string "r,c", which names the same cell. */
  datatype Session = Session(
    found: set<Word>,
    foundCells: map<Cell, nat>,
    colorIndex: nat,
    selecting: bool,
    start: Option<Cell>,
    current: Option<Cell>)

  /** The state the component mounts with. */
  const Fresh: Session := Session({}, map[], 0, false, None, None)

  /** The drag endpoints, when present, lie on the square board `grid`. */
  predicate OnBoard(s: Session, grid: Grid) {
    && WellFormed(grid, |grid|)
    && (s.start.Some? ==> InBounds(s.start.value, |grid|))
    && (s.current.Some? ==> InBounds(s.current.value, |grid|))
  }

  /** What every reachable session satisfies for a game on `grid` with
      target list `words`. */
  ghost predicate Valid(s: Session, grid: Grid, words: seq<Word>) {
    && OnBoard(s, grid)
    && (forall w :: w in s.found ==> w in words)
    && s.colorIndex < ColorCount
    && (forall c :: c in s.foundCells ==> s.foundCells[c] < ColorCount && InBounds(c, |grid|))
    && (s.selecting <==> s.start.Some?)
    && (s.start.Some? <==> s.current.Some?)
  }

  /** `allFound`. */
  predicate AllFound(s: Session, words: seq<Word>) {
    |s.found| == |words|
  }

  /** `handlePointerDown`: a drag starts on `c`. */
  function PointerDown(s: Session, c: Cell): (t: Session)
    ensures t.selecting && t.start == Some(c) && t.current == Some(c)
    ensures t.found == s.found && t.foundCells == s.foundCells && t.colorIndex == s.colorIndex
  {
    s.(selecting := true, start := Some(c), current := Some(c))
  }

  /** `handlePointerEnter`: a drag in progress moves over `c`. */
  function PointerEnter(s: Session, c: Cell): (t: Session)
    ensures t.selecting == s.selecting && t.start == s.start
    ensures t.current == if s.selecting then Some(c) else s.current
    ensures t.found == s.found && t.foundCells == s.foundCells && t.colorIndex == s.colorIndex
  {
    if !s.selecting then s else s.(current := Some(c))
  }

  /** The cells of a finished drag when they form a straight run of at
      least two; otherwise `None`. */
  function Selected(s: Session): Option<seq<Cell>> {
    if s.start.None? || s.current.None? then None
    else
      var cells := GetCellsBetween(s.start.value, s.current.value);
      if cells.Some? && |cells.value| >= 2 then cells else None
  }

  lemma SelectedInside(s: Session, grid: Grid)
    requires OnBoard(s, grid) && Selected(s).Some?
    ensures Inside(grid, Selected(s).value) && Inside(grid, Reverse(Selected(s).value))
  {
    BetweenStaysInside(s.start.value, s.current.value, |grid|);
  }

  /** Index of the first word, not in `skip`, that equals the selection
      read forwards or backwards; `|words|` when there is none. */
  function FirstMatch(words: seq<Word>, forward: string, backward: string, skip: set<Word>): (k: nat)
    ensures k <= |words|
    ensures k < |words| ==> words[k] !in skip && (words[k] == forward || words[k] == backward)
    ensures forall j :: 0 <= j < k ==> words[j] in skip || (words[j] != forward && words[j] != backward)
  {
    if words == [] then 0
    else if words[0] !in skip && (words[0] == forward || words[0] == backward) then 0
    else 1 + FirstMatch(words[1..], forward, backward, skip)
  }

  /** `foundCells` after every cell of `cells` is set to `color`. */
  function Paint(m: map<Cell, nat>, cells: seq<Cell>, color: nat): (m': map<Cell, nat>)
    ensures forall c :: c in cells ==> c in m' && m'[c] == color
    ensures forall c :: c !in cells ==> (c in m' <==> c in m) && (c in m ==> m'[c] == m[c])
  {
    m + map c | c in cells :: color
  }

  /** Marks `w` found and paints `cells`, unless `w` was found already. */
  function Commit(s: Session, cells: seq<Cell>, w: Word): Session {
    if w in s.found then s
    else s.(found := s.found + {w},
            foundCells := Paint(s.foundCells, cells, s.colorIndex),
            colorIndex := (s.colorIndex + 1) % ColorCount)
  }

  /** Committing a word already found changes no progress; committing a
      new one records it. */
  lemma CommitRecords(s: Session, cells: seq<Cell>, w: Word)
    ensures w in s.found ==> SameProgress(s, Clear(Commit(s, cells, w)))
    ensures w !in s.found ==> NewlyFound(s, Clear(Commit(s, cells, w)), cells, w)
  {
  }

  /** Ends the drag. */
  function Clear(s: Session): Session {
    s.(selecting := false, start := None, current := None)
  }

  /** The found set, painted cells and colour index: what a release may
      change. */
  predicate SameProgress(s: Session, t: Session) {
    t.found == s.found && t.foundCells == s.foundCells && t.colorIndex == s.colorIndex
  }

  /** `t` records one more word `w`: `cells` take the old colour index,
      the index moves on, and no other cell changes colour. */
  ghost predicate NewlyFound(s: Session, t: Session, cells: seq<Cell>, w: Word) {
    && w !in s.found
    && t.found == s.found + {w}
    && (forall c :: c in cells ==> c in t.foundCells && t.foundCells[c] == s.colorIndex)
    && (forall c :: c !in cells ==> (c in t.foundCells <==> c in s.foundCells) && (c in s.foundCells ==> t.foundCells[c] == s.foundCells[c]))
    && t.colorIndex == (s.colorIndex + 1) % ColorCount
  }

  /** `handlePointerUp` as written: the candidate is the first word in
      list order equal to the run read either way, found or not; an empty
      candidate is falsy and is ignored like a missing one. */
  function PointerUp(s: Session, grid: Grid, words: seq<Word>): (t: Session)
    requires OnBoard(s, grid)
    ensures !t.selecting
    ensures (s.start.Some? <==> s.current.Some?) ==> t.start.None? && t.current.None?
    ensures Selected(s).None? ==> SameProgress(s, t)
    ensures SameProgress(s, t) ||
      exists k :: 0 <= k < |words| && words[k] != "" && NewlyFound(s, t, Selected(s).value, words[k])
  {
    if s.start.None? || s.current.None? then s.(selecting := false)
    else if Selected(s).None? then Clear(s)
    else
      var cells := Selected(s).value;
      SelectedInside(s, grid);
      var k := FirstMatch(words, CheckWord(grid, cells), CheckWord(grid, Reverse(cells)), {});
      if k < |words| && words[k] != "" then
        CommitRecords(s, cells, words[k]);
        Clear(Commit(s, cells, words[k]))
      else Clear(s)
  }

  /** `handlePointerUp` as evidently intended: the candidate is the first
      non-empty word not yet found that equals the run read either way. */
  function PointerUpIntended(s: Session, grid: Grid, words: seq<Word>): (t: Session)
    requires OnBoard(s, grid)
    ensures !t.selecting
    ensures (s.start.Some? <==> s.current.Some?) ==> t.start.None? && t.current.None?
    ensures Selected(s).None? ==> SameProgress(s, t)
    ensures SameProgress(s, t) ||
      exists k :: 0 <= k < |words| && words[k] != "" && NewlyFound(s, t, Selected(s).value, words[k])
  {
    if s.start.None? || s.current.None? then s.(selecting := false)
    else if Selected(s).None? then Clear(s)
    else
      var cells := Selected(s).value;
      SelectedInside(s, grid);
      var k := FirstMatch(words, CheckWord(grid, cells), CheckWord(grid, Reverse(cells)), s.found + {""});
      if k < |words| then
        CommitRecords(s, cells, words[k]);
        Clear(Commit(s, cells, words[k]))
      else Clear(s)
  }

  /** A release with a straight run of two or more cells: no candidate, or
      a candidate already found, changes nothing; a new candidate is
      recorded. */
  lemma ReleaseTakesFirstCandidate(s: Session, grid: Grid, words: seq<Word>)
    requires OnBoard(s, grid) && Selected(s).Some?
    ensures Inside(grid, Selected(s).value) && Inside(grid, Reverse(Selected(s).value))
    ensures
      var cells := Selected(s).value;
      var k := FirstMatch(words, CheckWord(grid, cells), CheckWord(grid, Reverse(cells)), {});
      var t := PointerUp(s, grid, words);
      && (k == |words| ==> SameProgress(s, t))
      && (k < |words| && (words[k] == "" || words[k] in s.found) ==> SameProgress(s, t))
      && (k < |words| && words[k] != "" && words[k] !in s.found ==> NewlyFound(s, t, cells, words[k]))
  {
    SelectedInside(s, grid);
  }

  /** The session invariant holds at the start and every event keeps it. */
  lemma EventsKeepValid(s: Session, grid: Grid, words: seq<Word>, c: Cell)
    requires WellFormed(grid, |grid|) && InBounds(c, |grid|)
    requires Valid(s, grid, words)
    ensures Valid(Fresh, grid, words)
    ensures Valid(PointerDown(s, c), grid, words)
    ensures Valid(PointerEnter(s, c), grid, words)
    ensures Valid(PointerUp(s, grid, words), grid, words)
    ensures Valid(PointerUpIntended(s, grid, words), grid, words)
  {
    if Selected(s).Some? {
      SelectedInside(s, grid);
    }
  }

  /** A list without repeats has as many distinct words as entries. */
  lemma {:induction false} DistinctCount(words: seq<Word>)
    requires NoDuplicates(words)
    ensures |set w | w in words| == |words|
  {
    if words != [] {
      var rest := words[1..];
      assert NoDuplicates(rest);
      DistinctCount(rest);
      assert (set w | w in words) == (set w | w in rest) + {words[0]};
      assert words[0] !in (set w | w in rest);
    }
  }

  lemma ProperSubsetSmaller<T>(a: set<T>, b: set<T>)
    requires a < b
    ensures |a| < |b|
  {
    assert b - a != {};
    var x :| x in b - a;
    assert a <= b - {x};
    assert |b - {x}| == |b| - 1;
    SubsetNoLarger(a, b - {x});
  }

  lemma SubsetNoLarger<T>(a: set<T>, b: set<T>)
    requires a <= b
    ensures |a| <= |b|
  {
    assert b == a + (b - a);
  }

  /** With a repeat-free list and only listed words found, `allFound`
      holds exactly when every listed word has been found. */
  lemma AllFoundMeansEveryWord(s: Session, words: seq<Word>)
    requires NoDuplicates(words)
    requires forall w :: w in s.found ==> w in words
    ensures AllFound(s, words) <==> forall w :: w in words ==> w in s.found
  {
    var listed := set w | w in words;
    DistinctCount(words);
    assert s.found <= listed;
    assert (forall w :: w in words ==> w in s.found) <==> s.found == listed;
    if s.found != listed {
      ProperSubsetSmaller(s.found, listed);
    }
  }

  /** A session whose drag runs over the whole of laid word `p`, in
      either direction. */
  ghost predicate DragsOver(s: Session, p: PlacedWord) {
    |p.cells| >= 2 &&
    ((s.start == Some(p.cells[0]) && s.current == Some(p.cells[|p.cells| - 1]))
     || (s.start == Some(p.cells[|p.cells| - 1]) && s.current == Some(p.cells[0])))
  }

  /** The cells of a laid word, and the same cells backwards. */
  lemma LaidWordCells(grid: Grid, p: PlacedWord)
    requires WellFormed(grid, |grid|) && Holds(grid, |grid|, p) && |p.cells| >= 1
    ensures p.cells[0] == p.start && p.cells[|p.cells| - 1] == Offset(p.start, p.direction, |p.word| - 1)
    ensures GetCellsBetween(p.cells[0], p.cells[|p.cells| - 1]) == Some(p.cells)
    ensures GetCellsBetween(p.cells[|p.cells| - 1], p.cells[0]) == Some(Reverse(p.cells))
  {
    SelectingARun(p.start, p.direction, |p.word|);
    SelectingARunBackwards(p.start, p.direction, |p.word|);
  }

  /** A laid word reads as itself forwards and as its reverse backwards. */
  lemma LaidWordText(grid: Grid, p: PlacedWord)
    requires WellFormed(grid, |grid|) && Holds(grid, |grid|, p)
    ensures Inside(grid, p.cells) && Inside(grid, Reverse(p.cells))
    ensures CheckWord(grid, p.cells) == p.word
    ensures CheckWord(grid, Reverse(p.cells)) == Reverse(p.word)
  {
    HoldsReadsBack(grid, |grid|, p);
    assert AllSet(grid, p.cells);
    CheckWordReversed(grid, p.cells);
  }

  /** Dragging from the first to the last cell of a laid word selects its
      cells. */
  lemma DragForward(s: Session, grid: Grid, p: PlacedWord)
    requires WellFormed(grid, |grid|) && Holds(grid, |grid|, p) && |p.cells| >= 2
    requires s.start == Some(p.cells[0]) && s.current == Some(p.cells[|p.cells| - 1])
    ensures Selected(s) == Some(p.cells)
  {
    LaidWordCells(grid, p);
  }

  /** Dragging from the last cell of a laid word to its first selects its
      cells in reverse. */
  lemma DragBackward(s: Session, grid: Grid, p: PlacedWord)
    requires WellFormed(grid, |grid|) && Holds(grid, |grid|, p) && |p.cells| >= 2
    requires s.start == Some(p.cells[|p.cells| - 1]) && s.current == Some(p.cells[0])
    ensures Selected(s) == Some(Reverse(p.cells))
  {
    LaidWordCells(grid, p);
  }

  /** Dragging over a laid word, either way, reads the word one way and
      its reverse the other. */
  lemma DragReadsWord(s: Session, grid: Grid, p: PlacedWord)
    requires WellFormed(grid, |grid|) && Holds(grid, |grid|, p)
    requires DragsOver(s, p)
    ensures Selected(s).Some?
    ensures Inside(grid, Selected(s).value) && Inside(grid, Reverse(Selected(s).value))
    ensures
      var cells := Selected(s).value;
      var fw, bw := CheckWord(grid, cells), CheckWord(grid, Reverse(cells));
      (fw == p.word && bw == Reverse(p.word)) || (fw == Reverse(p.word) && bw == p.word)
  {
    LaidWordText(grid, p);
    var n := |p.cells|;
    if s.start == Some(p.cells[0]) && s.current == Some(p.cells[n - 1]) {
      DragForward(s, grid, p);
      assert Selected(s).value == p.cells;
    } else {
      DragBackward(s, grid, p);
      assert Selected(s).value == Reverse(p.cells);
      ReverseTwice(p.cells);
      assert Reverse(Selected(s).value) == p.cells;
    }
  }

  /** As written, dragging over a laid target word always leaves the word,
      or its reverse, in the found set. */
  lemma DraggingALaidWord(s: Session, grid: Grid, words: seq<Word>, p: PlacedWord)
    requires WellFormed(grid, |grid|) && Holds(grid, |grid|, p)
    requires DragsOver(s, p) && p.word in words
    ensures exists w :: w in PointerUp(s, grid, words).found && (w == p.word || w == Reverse(p.word))
  {
    DragReadsWord(s, grid, p);
    var cells := Selected(s).value;
    var fw, bw := CheckWord(grid, cells), CheckWord(grid, Reverse(cells));
    var k := FirstMatch(words, fw, bw, {});
    var i :| 0 <= i < |words| && words[i] == p.word;
    assert words[i] == fw || words[i] == bw;
    assert k <= i;
    assert |p.cells| == |p.word| == |Reverse(p.word)|;
    assert words[k] != "";
    ReleaseTakesFirstCandidate(s, grid, words);
    var t := PointerUp(s, grid, words);
    if words[k] in s.found {
      assert SameProgress(s, t);
    } else {
      assert NewlyFound(s, t, cells, words[k]);
    }
    assert words[k] in t.found && (words[k] == p.word || words[k] == Reverse(p.word));
  }

  /** As intended, a release whose run reads (either way) as some target
      word not yet found records exactly one more word, which reads that
      way too. */
  lemma IntendedReleaseMakesProgress(s: Session, grid: Grid, words: seq<Word>, i: nat)
    requires OnBoard(s, grid) && Selected(s).Some?
    ensures Inside(grid, Selected(s).value) && Inside(grid, Reverse(Selected(s).value))
    ensures
      var cells := Selected(s).value;
      var fw, bw := CheckWord(grid, cells), CheckWord(grid, Reverse(cells));
      var t := PointerUpIntended(s, grid, words);
      i < |words| && words[i] != "" && words[i] !in s.found && (words[i] == fw || words[i] == bw) ==>
        && |t.found| == |s.found| + 1
        && exists w :: w in t.found - s.found && (w == fw || w == bw)
  {
    SelectedInside(s, grid);
    var cells := Selected(s).value;
    var fw, bw := CheckWord(grid, cells), CheckWord(grid, Reverse(cells));
    var k := FirstMatch(words, fw, bw, s.found + {""});
    if i < |words| && words[i] != "" && words[i] !in s.found && (words[i] == fw || words[i] == bw) {
      assert k <= i;
      var t := PointerUpIntended(s, grid, words);
      assert t.found == s.found + {words[k]};
      assert words[k] in t.found - s.found;
    }
  }

  /** As intended, dragging over a laid target word not yet found always
      records one more word: the word itself or its reverse. */
  lemma DraggingALaidWordIntended(s: Session, grid: Grid, words: seq<Word>, p: PlacedWord)
    requires WellFormed(grid, |grid|) && Holds(grid, |grid|, p)
    requires DragsOver(s, p) && p.word in words && p.word !in s.found
    ensures var t := PointerUpIntended(s, grid, words);
      |t.found| == |s.found| + 1 && exists w :: w in t.found - s.found && (w == p.word || w == Reverse(p.word))
  {
    DragReadsWord(s, grid, p);
    var i :| 0 <= i < |words| && words[i] == p.word;
    IntendedReleaseMakesProgress(s, grid, words, i);
  }

  /** Finding, as written: when a word `u` and its reverse `v` are both
      targets and `u` comes first, then once `u` is found no release ever
      finds `v`, so `allFound` can never hold. */
  lemma ReverseTwinNeverFound(s: Session, grid: Grid, words: seq<Word>, i: nat, j: nat)
    requires OnBoard(s, grid) && Complete(grid) && NoDuplicates(words)
    requires i < j < |words| && words[j] == Reverse(words[i])
    requires words[i] in s.found && words[j] !in s.found
    ensures words[j] !in PointerUp(s, grid, words).found
  {
    if Selected(s).Some? {
      SelectionReadings(s, grid);
      ReleaseTakesFirstCandidate(s, grid, words);
      var cells := Selected(s).value;
      var fw, bw := CheckWord(grid, cells), CheckWord(grid, Reverse(cells));
      ReverseTwice(words[i]);
      TwinBlocks(words, fw, bw, i, j);
    }
  }

  /** On a complete grid the two readings of a selection are each other's
      reverse. */
  lemma SelectionReadings(s: Session, grid: Grid)
    requires OnBoard(s, grid) && Complete(grid) && Selected(s).Some?
    ensures Inside(grid, Selected(s).value) && Inside(grid, Reverse(Selected(s).value))
    ensures
      var cells := Selected(s).value;
      var fw, bw := CheckWord(grid, cells), CheckWord(grid, Reverse(cells));
      bw == Reverse(fw) && fw == Reverse(bw)
  {
    var cells := Selected(s).value;
    SelectedInside(s, grid);
    assert AllSet(grid, cells);
    CheckWordReversed(grid, cells);
  }

  /** When the earlier twin is found and either reading matches one twin
      the other reading matches the other twin, so the search stops at the
      earlier one. */
  lemma TwinBlocks(words: seq<Word>, fw: string, bw: string, i: nat, j: nat)
    requires NoDuplicates(words) && i < j < |words|
    requires words[j] == Reverse(words[i]) && words[i] == Reverse(words[j])
    requires bw == Reverse(fw) && fw == Reverse(bw)
    ensures FirstMatch(words, fw, bw, {}) != j
  {
  }

  /** Skipping found words changes the search only when the first match
      is itself found. */
  lemma FirstMatchSkipping(words: seq<Word>, fw: string, bw: string, skip: set<Word>)
    ensures
      var k := FirstMatch(words, fw, bw, {});
      k == |words| || words[k] !in skip ==> FirstMatch(words, fw, bw, skip) == k
  {
  }

  /** The intended release differs from the written one only when the
      written one would pick a word already found. */
  lemma IntendedAgreesOnNewCandidates(s: Session, grid: Grid, words: seq<Word>)
    requires OnBoard(s, grid) && Selected(s).Some?
    ensures Inside(grid, Selected(s).value) && Inside(grid, Reverse(Selected(s).value))
    ensures
      var cells := Selected(s).value;
      var k := FirstMatch(words, CheckWord(grid, cells), CheckWord(grid, Reverse(cells)), {});
      k == |words| || (words[k] != "" && words[k] !in s.found) ==>
        PointerUpIntended(s, grid, words) == PointerUp(s, grid, words)
  {
    SelectedInside(s, grid);
    var cells := Selected(s).value;
    FirstMatchSkipping(words, CheckWord(grid, cells), CheckWord(grid, Reverse(cells)), s.found + {""});
  }
}
