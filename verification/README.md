# Word-search engine and play logic, in Dafny

This project models the core of a Korean word-search puzzle app. It covers three parts.

- The board engine (`src/lib/wordSearch.ts`):
  - choosing the grid size from the word count and the longest word;
  - the eight directions, and `canPlace` / `placeWord`;
  - the bounded retry loop of `generateBoard`, which places longest words first;
  - the filler pass, which puts Korean syllables in every unset cell;
  - `getCellsBetween`, which turns a drag into a straight run of cells;
  - `checkWord`, which reads text off the grid.
- The play screen's release step (`handlePointerUp` in `src/components/GameBoard.tsx`) and its `allFound` test. Both are pure steps over an explicit `Session` record: found set, cell colour map, colour index and drag state.
- The word-entry screen's list rules (`src/components/WordInput.tsx`): `addWord`, `removeWord`, `loadSample`, `SAMPLE_WORDS` and the enabled state of the add and start buttons.

Modules, one per file:

- `Wrappers`: `Option`.
- `Grid`: cells, directions, grids of `Option<char>` in which `None` is the engine's empty string, and the filler alphabet.
- `Sizing`: the side-length formula.
- `Placement`: `canPlace` and `placeWord`.
- `Selection`: `getCellsBetween` and `checkWord`.
- `Generator`: the attempt loop, the fill and `generateBoard`.
- `Game`: the pointer handlers and `allFound`.
- `WordList`: the list rules.

Every random draw is an input to the model:

- An `Attempt` holds the word order, the direction orders and the start-cell orders of one attempt. The precondition of `GenerateBoard` says these are shuffles of the words (sorted longest first), of the eight directions and of all cells.
- `pick` gives the filler index drawn for each cell.

Each property is therefore stated for every outcome of the draws.

## Model

| member | source | states |
|---|---|---|
| `Grid.DirectionsAreTheUnitSteps` | src/lib/wordSearch.ts:2-11 | the eight listed directions are exactly the steps of at most one row and one column that move |
| `Grid.OffsetInjective` | src/lib/wordSearch.ts:52-56 | walking along a unit step never visits the same cell twice, so the cells of one word are distinct |
| `Grid.EmptyGrid` | src/lib/wordSearch.ts:72 | a fresh attempt's grid is size by size with every cell unset |
| `Grid.Write` | src/lib/wordSearch.ts:55 | setting one cell changes that cell to the character and leaves every other cell as it was |
| `Grid.AllCellsEnumeratesGrid` | src/lib/wordSearch.ts:82 | the row-major list of start positions (row i / size, column i % size) contains a cell exactly when it lies inside the grid |
| `Grid.ReverseTwice` | src/components/GameBoard.tsx:64 | reversing a run of cells twice gives the run back, so the backward reading of a backward drag is the forward run |
| `Sizing.MaxLen` | src/lib/wordSearch.ts:63 | the result bounds every word's length and is the length of some word |
| `Sizing.CeilSqrt` | src/lib/wordSearch.ts:64 | the result is the least k with k * k >= n, i.e. the ceiling of the square root |
| `Sizing.CeilSqrtFrom` | src/lib/wordSearch.ts:64 | an upward search from k, started below the root, stops at the least k with k * k >= n |
| `Sizing.CeilSqrtIs` | src/lib/wordSearch.ts:64 | the ceiling square root of n is the one k > 0 with (k - 1)^2 < n <= k^2 |
| `Sizing.CeilSqrtMonotone` | src/lib/wordSearch.ts:64 | a larger argument never gives a smaller ceiling square root |
| `Sizing.SizeFor` | src/lib/wordSearch.ts:64 | the side length is between 5 and 10; it is at least min(longest + 2, 10) and at least min(ceil(sqrt(2 * count * longest)), 10); and it equals 5 or one of those two terms |
| `Sizing.SizeMonotone` | src/lib/wordSearch.ts:63-64 | more words or a longer longest word never shrink the grid |
| `Sizing.GridSizeFitsLongestWord` | src/lib/wordSearch.ts:63-64 | the chosen side lies in [5, 10], and every word fits along a row when the longest has at most 10 code points |
| `Placement.CanPlaceFrom` | src/lib/wordSearch.ts:40-46 | the check loop from index i succeeds exactly when every later character's cell is inside the grid and unset or already holds that character |
| `Placement.CanPlace` | src/lib/wordSearch.ts:38-47 | `canPlace` is true exactly when every character's cell is inside the grid and is unset or already holds that very character |
| `Placement.PlaceWord` | src/lib/wordSearch.ts:49-59 | returns one cell per character, cell i being start + i steps; writes character i there; leaves every other cell unchanged |
| `Placement.PlacingKeepsSetCells` | src/lib/wordSearch.ts:38-59 | after a successful `canPlace`, writing the word changes no cell that was already set |
| `Selection.ColinearIff` | src/lib/wordSearch.ts:119 | the test "dr = 0, dc = 0 or abs(dr) = abs(dc)" holds exactly when the end cell lies on one of the eight straight lines through the start |
| `Selection.GetCellsBetween` | src/lib/wordSearch.ts:114-132 | the result is null exactly when the endpoints are not on a common line; equal endpoints give just that cell; otherwise the run has max(abs dr, abs dc) + 1 cells, starts at the first endpoint, ends at the second, and moves by one fixed unit step |
| `Selection.SelectingARun` | src/lib/wordSearch.ts:121-131 | dragging from the first to the last cell of any straight run selects exactly that run |
| `Selection.SelectingARunBackwards` | src/lib/wordSearch.ts:121-131 | dragging from the last cell of a run back to its first selects the run in reverse order |
| `Selection.BetweenStaysInside` | src/lib/wordSearch.ts:121-131 | a run between two cells inside the grid stays inside the grid |
| `Selection.CheckWord` | src/lib/wordSearch.ts:134-136 | the text is never longer than the run; over set cells it has one character per cell, character i being the content of cell i |
| `Selection.CheckWordReversed` | src/lib/wordSearch.ts:134-136 | reading set cells in reverse order gives the reverse text, and reversing that again gives the forward text |
| `Selection.RowExample` | src/lib/wordSearch.ts:114-132 | a drag from (0,0) to (0,3) selects (0,0), (0,1), (0,2), (0,3) |
| `Selection.DiagonalExample` | src/lib/wordSearch.ts:114-132 | a drag from (0,0) to (3,3) selects (0,0), (1,1), (2,2), (3,3) |
| `Selection.OffsetExample` | src/lib/wordSearch.ts:119 | a drag from (0,0) to (2,3) selects nothing |
| `Generator.DrawnIsShaped` | src/lib/wordSearch.ts:74-83 | orders drawn by shuffling give one direction order per word, one start order per direction, and only unit steps |
| `Generator.SharedCellsAgree` | src/lib/wordSearch.ts:44 | two laid words that share a cell have the same character there |
| `Generator.FindSlot` | src/lib/wordSearch.ts:78-93 | the search returns the first (direction, start) pair in draw order that passes `canPlace`, or reports that none does |
| `Generator.NoSlotMeansNowhere` | src/lib/wordSearch.ts:78-93 | when the search over a full draw finds nothing, the word fits at no cell in no direction |
| `Generator.PlacingKeepsEarlierWords` | src/lib/wordSearch.ts:84-87 | laying a word after a successful `canPlace` keeps every word laid earlier in the attempt intact |
| `Generator.PlaceAll` | src/lib/wordSearch.ts:72-98 | one attempt lays a prefix of its word order. Each laid word sits at the first (direction, start) pair of its own draw that passes `canPlace` on the grid as it stood just before; every earlier pair of that draw fails. Every laid word holds in the grid, and every set cell belongs to a laid word. The attempt succeeds exactly when all words are laid; otherwise the next word has no slot in its draw |
| `Generator.LayWord` | src/lib/wordSearch.ts:85-87 | laying a word at a slot that passes `canPlace` records it with that start and direction; the new word and every earlier word hold, and every set cell belongs to one of them |
| `Generator.Fill` | src/lib/wordSearch.ts:103-109 | afterwards no cell is unset; each previously unset cell holds the drawn character of the filler alphabet; every set cell is unchanged |
| `Generator.HoldsReadsBack` | src/lib/wordSearch.ts:86-87 | `checkWord` over a laid word's cells gives back the word |
| `Generator.PrefixMultiset` | src/lib/wordSearch.ts:74 | the words of a prefix of the shuffled order are a sub-multiset of the input, and all of them when the whole order is used |
| `Generator.FillKeepsWords` | src/lib/wordSearch.ts:103-109 | the filler keeps every laid word in place and readable |
| `Generator.Retry` | src/lib/wordSearch.ts:71-100 | between 1 and 50 attempts run. Every attempt before the last fails at a word with no slot. The kept grid and words are those of the last attempt, which succeeded exactly when every word was laid; a short result means all 50 attempts ran and failed. The kept words are a sub-multiset of the input, and all of it when every word was laid |
| `Generator.RetryThenFill` | src/lib/wordSearch.ts:66-111 | the board is the last attempt's record after the filler pass: every attempt before it failed, every cell is set, every kept word holds and reads back, and every cell off the kept words holds the drawn filler |
| `Generator.GenerateBoard` | src/lib/wordSearch.ts:61-112 | the board is square with a side in [5, 10] of at least min(longest + 2, 10); every cell is set; every recorded word holds and reads back; every other cell holds the drawn filler. Every attempt before the kept one failed. The recorded words are a sub-multiset of the input, and all of it when every word was laid. A board with fewer words comes only after 50 failed attempts, and the word the last one stopped at fits at no cell in no direction of that attempt's grid |
| `Generator.ShortBoardFitsNowhere` | src/lib/wordSearch.ts:71-99 | when the board holds fewer words than requested, all 50 attempts ran, and the word the last attempt stopped at fits at no cell in no direction of its grid |
| `Generator.LastWordFitsNowhere` | src/lib/wordSearch.ts:77-97 | a failed attempt stopped before the end of its word order, at a word that fits at no cell in no direction of its grid |
| `Generator.AllDrawnAreShaped` | src/lib/wordSearch.ts:74-83 | every attempt drawn by shuffling has one direction order per word and one start order per direction, uses only unit steps, and orders the input words |
| `Game.PointerDown` | src/components/GameBoard.tsx:44-48 | a press starts a drag whose two endpoints are the pressed cell; progress is unchanged |
| `Game.PointerEnter` | src/components/GameBoard.tsx:50-53 | entering a cell moves the drag's end only while a drag is in progress; progress is unchanged |
| `Game.SelectedInside` | src/components/GameBoard.tsx:61 | a selection between endpoints on the board lies on the board, in either order |
| `Game.FirstMatch` | src/components/GameBoard.tsx:66 | the result is the first index whose word is not skipped and equals the forward or the backward reading, or the list length when there is none |
| `Game.Paint` | src/components/GameBoard.tsx:72-74 | the selected cells take the colour; every other cell keeps its entry or its absence |
| `Game.CommitRecords` | src/components/GameBoard.tsx:67-75 | recording a word already found changes no progress; recording a new one adds it to the found set, paints the run with the current colour, keeps every other cell's colour and advances the colour index modulo 5 |
| `Game.PointerUp` | src/components/GameBoard.tsx:55-82 | after a release the drag is over, and when both endpoints or neither were set both are cleared; a missing or too-short selection changes no progress; otherwise progress is unchanged or exactly one non-empty target word is newly found, with its cells painted and the colour index advanced modulo 5 |
| `Game.PointerUpIntended` | src/components/GameBoard.tsx:55-82 | the same guarantees for the release that takes the first non-empty target word not yet found |
| `Game.ReleaseTakesFirstCandidate` | src/components/GameBoard.tsx:61-76 | the candidate is the first word in list order equal to either reading; no candidate, an empty candidate, or one already found changes nothing; a new non-empty candidate is recorded with its cells painted |
| `Game.EventsKeepValid` | src/components/GameBoard.tsx:22-82 | the initial session and every event keep found words among the targets, colour entries and the colour index below 5, painted cells on the board, and the drag fields consistent |
| `Game.DistinctCount` | src/components/GameBoard.tsx:36 | a list without repeats has as many distinct words as entries |
| `Game.AllFoundMeansEveryWord` | src/components/GameBoard.tsx:36 | for a repeat-free target list, `allFound` holds exactly when every target word has been found |
| `Game.LaidWordCells` | src/components/GameBoard.tsx:61 | the run between the first and last cells of a laid word is the word's cells, and the reverse run is its cells reversed |
| `Game.LaidWordText` | src/components/GameBoard.tsx:63-64 | a laid word reads as itself forwards and as its reverse backwards |
| `Game.DragForward` | src/components/GameBoard.tsx:61 | dragging from a laid word's first cell to its last selects its cells |
| `Game.DragBackward` | src/components/GameBoard.tsx:61 | dragging from a laid word's last cell to its first selects its cells reversed |
| `Game.DragReadsWord` | src/components/GameBoard.tsx:61-64 | dragging over a laid word either way reads the word one way and its reverse the other |
| `Game.DraggingALaidWord` | src/components/GameBoard.tsx:63-70 | as written, dragging over a laid target word leaves the word or its reverse in the found set |
| `Game.IntendedReleaseMakesProgress` | src/components/GameBoard.tsx:66-70 | with the corrected search, a release whose reading matches an unfound non-empty target grows the found set by exactly one matching word |
| `Game.DraggingALaidWordIntended` | src/components/GameBoard.tsx:66-70 | with the corrected search, dragging over an unfound laid target always records one more word, the word or its reverse |
| `Game.ReverseTwinNeverFound` | src/components/GameBoard.tsx:66-67 | as written, when a word and its reverse are both targets and the earlier one is found, no release ever finds the later one |
| `Game.SelectionReadings` | src/components/GameBoard.tsx:63-64 | on a fully filled grid the forward and backward readings of a selection are each other's reverse |
| `Game.TwinBlocks` | src/components/GameBoard.tsx:66 | when the two readings are mutual reverses, the unskipping search never stops at the later of two reverse twins |
| `Game.FirstMatchSkipping` | src/components/GameBoard.tsx:66-67 | skipping found words changes the search only when its first match is itself found |
| `Game.IntendedAgreesOnNewCandidates` | src/components/GameBoard.tsx:66-67 | the corrected release behaves like the written one whenever the written candidate is absent, or is non-empty and not yet found |
| `WordList.AddWord` | src/components/WordInput.tsx:16-22 | an empty, repeated, too-short input or a full list leaves the form unchanged; otherwise the trimmed input is appended after the unchanged earlier entries and the box is cleared; the list rules are kept |
| `WordList.AddNeedsEnabledButton` | src/components/WordInput.tsx:59 | an add that changes the list is one the enabled add button allows |
| `WordList.KeepExcept` | src/components/WordInput.tsx:25 | filtering out position i, counting from idx, drops exactly that entry and keeps the rest in order |
| `WordList.RemoveWord` | src/components/WordInput.tsx:24-26 | removes exactly the entry at index i and keeps the rest in order; an index outside the list removes nothing |
| `WordList.RemoveKeepsValid` | src/components/WordInput.tsx:24-26 | removing an entry keeps the list rules: at most 20 entries, no repeats, each of at least 2 code points |
| `WordList.LoadSample` | src/components/WordInput.tsx:35-37 | the list becomes the sample list and the input box is untouched |
| `WordList.SampleWordsValid` | src/components/WordInput.tsx:10 | the sample list obeys the list rules and has enough words to start |
| `WordList.SampleWordsGridSize` | src/components/WordInput.tsx:10 | the sample list gets a 9 by 9 grid |
| `WordList.StartableListsAreGeneratorInput` | src/components/WordInput.tsx:90 | any list the start button accepts is a non-empty list of non-empty words, as the generator requires |

## Left out

- Rendering, hooks and styling: JSX, `useState`, `useMemo`, `useEffect`, CSS classes and `cellSize`. They are presentation only. The highlighted-cell memo is `getCellsBetween` again.
- `confetti`, the reload button and the `Footer` component. They are side effects or static markup.
- `src/pages/Index.tsx`, the screen switching. It is wiring around `generateBoard`.
- The `onPointerLeave` wiring. It only calls the release step, which is modelled.
- `Math.random` and the internals of `shuffle`. The draws are inputs, constrained only to be permutations or in-range indices; their distribution is not modelled.
- `Math.ceil(Math.sqrt(..))` on floating point. It is the integer ceiling square root, which agrees on these small naturals.
- The floating-point division `dr / steps` in `getCellsBetween`. It is the integer sign, which is exact whenever the run is straight.
- `String.prototype.trim` is an abstract function parameter. The HTML `maxLength` limit on the input box is browser behaviour.
- The `"r,c"` string keys of `foundCells` are `Cell` keys. The encoding names each cell by exactly one string.
- `handlePointerEnter` reads `selecting` from its closure. The model reads it from the same session.
- Generator.GenerateBoard: requires a non-empty list of non-empty words. On an empty list the source computes a NaN size, which is not modelled.
- Placement.PlaceWord: requires a unit step. The engine calls it only with one of the eight directions, and with any other step the "one cell per character" guarantee would not hold.

## Findings

| source | as written | input that shows it | evidently intended | confidence | as-written member | corrected member |
|---|---|---|---|---|---|---|
| src/components/GameBoard.tsx:66-67 | the candidate is the first target in list order that equals either reading, even when that target is already found, and a found candidate makes the release do nothing | targets `["가나", "나가"]` after `"가나"` is found: any drag over `"나가"` reads `"나가"` one way and `"가나"` the other, so the search stops at the found `"가나"`; `"나가"` is never found and `allFound` never holds | take the first non-empty target not yet found that equals either reading | medium; not executed | `Game.ReverseTwinNeverFound` | `Game.DraggingALaidWordIntended` |
