/** The word-entry screen's list rules (src/components/WordInput.tsx): at
    most 20 distinct words of two or more code points, and a game may start
    once there are three. */
module WordList {
  import opened Grid
  import opened Sizing
  import opened Generator

  const MaxWords: nat := 20
  const MinWordLength: nat := 2
  const MinWordsToStart: nat := 3

  /** `SAMPLE_WORDS`. */
  const SampleWords: seq<Word> := ["가정", "가족", "대인관계", "의사소통", "식사계획", "조리", "의복관리", "주거문화", "전환기", "진로탐색"]

  /** What every list the screen builds satisfies. */
  predicate ValidList(ws: seq<Word>) {
    && |ws| <= MaxWords
    && NoDuplicates(ws)
    && forall i :: 0 <= i < |ws| ==> |ws[i]| >= MinWordLength
  }

  /** The screen's state: the list so far and the text in the input box. */
  datatype Form = Form(words: seq<Word>, current: string)

  /** The add button's enabled state. */
  predicate CanAdd(f: Form, trim: string -> string) {
    trim(f.current) != "" && |f.words| < MaxWords
  }

  /** `addWord`: the trimmed input is appended and the box cleared, unless
      it is empty, already listed, the list is full, or it is shorter than
      two code points; then nothing changes. `trim` stands for
      `String.prototype.trim`. */
  function AddWord(f: Form, trim: string -> string): (g: Form)
    ensures var t := trim(f.current);
      t == "" || t in f.words || |f.words| >= MaxWords || |t| < MinWordLength ==> g == f
    ensures |g.words| == |f.words| + 1 <==>
      var t := trim(f.current);
      !(t == "" || t in f.words || |f.words| >= MaxWords || |t| < MinWordLength)
    ensures g != f ==> g.words == f.words + [trim(f.current)] && g.current == ""
    ensures |g.words| <= |f.words| + 1 && g.words[..|f.words|] == f.words
    ensures ValidList(f.words) ==> ValidList(g.words)
  {
    var t := trim(f.current);
    if t == "" || t in f.words || |f.words| >= MaxWords then f
    else if |t| < MinWordLength then f
    else Form(f.words + [t], "")
  }

  /** Only an add that the enabled button allows can change the list. */
  lemma AddNeedsEnabledButton(f: Form, trim: string -> string)
    ensures AddWord(f, trim) != f ==> CanAdd(f, trim)
  {
  }

  /** `ws` holds the list's entries from position `idx` on; keeps every one
      of them except the entry at position `i`. */
  function KeepExcept(ws: seq<Word>, i: int, idx: int): (r: seq<Word>)
    ensures idx <= i < idx + |ws| ==> r == ws[..i - idx] + ws[i - idx + 1..]
    ensures !(idx <= i < idx + |ws|) ==> r == ws
  {
    if ws == [] then []
    else if idx == i then KeepExcept(ws[1..], i, idx + 1)
    else [ws[0]] + KeepExcept(ws[1..], i, idx + 1)
  }

  /** `removeWord`: drops the entry at index `i`, keeping the rest in
      order; an index outside the list removes nothing. */
  function RemoveWord(ws: seq<Word>, i: int): (r: seq<Word>)
    ensures 0 <= i < |ws| ==> |r| == |ws| - 1 && r == ws[..i] + ws[i + 1..]
    ensures !(0 <= i < |ws|) ==> r == ws
  {
    KeepExcept(ws, i, 0)
  }

  /** Removing an entry keeps the list rules. */
  lemma RemoveKeepsValid(ws: seq<Word>, i: int)
    requires ValidList(ws)
    ensures ValidList(RemoveWord(ws, i))
  {
    if 0 <= i < |ws| {
      var r := RemoveWord(ws, i);
      forall a, b | 0 <= a < b < |r|
        ensures r[a] != r[b]
      {
        var a' := if a < i then a else a + 1;
        var b' := if b < i then b else b + 1;
        assert r[a] == ws[a'] && r[b] == ws[b'];
      }
      forall a | 0 <= a < |r|
        ensures |r[a]| >= MinWordLength
      {
        assert r[a] == ws[if a < i then a else a + 1];
      }
    }
  }

  /** `loadSample`: the list becomes `SAMPLE_WORDS`. */
  function LoadSample(f: Form): (g: Form)
    ensures g.words == SampleWords && g.current == f.current
  {
    f.(words := SampleWords)
  }

  /** The start button is enabled with three or more words. */
  predicate CanStart(ws: seq<Word>) {
    |ws| >= MinWordsToStart
  }

  /** The sample list obeys the list rules and can start a game. */
  lemma SampleWordsValid()
    ensures ValidList(SampleWords) && CanStart(SampleWords)
  {
  }

  /** The sample list (ten words, the longest of four code points) gets a
      9 by 9 grid: ceil(sqrt(10 * 4 * 2)) = 9 beats 4 + 2. */
  lemma SampleWordsGridSize()
    ensures GridSize(SampleWords) == 9
  {
    SampleMaxLen();
    CeilSqrtIs(80, 9);
  }

  /** The longest sample word has four code points. */
  lemma SampleMaxLen()
    ensures MaxLen(SampleWords) == 4
  {
    MaxLenIs(SampleWords, 2);
  }

  /** A list the screen lets the player start with is an input the board
      generator accepts. */
  lemma StartableListsAreGeneratorInput(ws: seq<Word>)
    requires ValidList(ws) && CanStart(ws)
    ensures GeneratorInput(ws)
  {
  }
}
