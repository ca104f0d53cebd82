/** Choice of the grid's side length (src/lib/wordSearch.ts, start of
    `generateBoard`): room for the longest word plus a margin, and room in
    proportion to the total amount of text, kept between 5 and 10. */
module Sizing {
  import opened Grid

  const MinSize: nat := 5
  const MaxSize: nat := 10


  /** Length, in code points, of the longest word. */
  function MaxLen(words: seq<Word>): (m: nat)
    requires |words| > 0
    ensures forall i :: 0 <= i < |words| ==> |words[i]| <= m
    ensures exists i :: 0 <= i < |words| && |words[i]| == m
  {
    if |words| == 1 then |words[0]|
    else
      var rest := MaxLen(words[1..]);
      assert forall i :: 1 <= i < |words| ==> words[i] == words[1..][i - 1];
      Max(|words[0]|, rest)
  }

  /** A word at least as long as every other is the longest. */
  lemma MaxLenIs(words: seq<Word>, i: nat)
    requires i < |words|
    requires forall j :: 0 <= j < |words| ==> |words[j]| <= |words[i]|
    ensures MaxLen(words) == |words[i]|
  {
  }

  /** Squaring is monotone on naturals. */
  lemma SquareMonotone(a: nat, b: nat)
    requires a <= b
    ensures a * a <= b * b
  {
    assert a * a <= a * b;
    assert a * b <= b * b;
  }

  /** The least `k` with `k * k >= n`, searching upward from `k`. */
  function CeilSqrtFrom(n: nat, k: nat): (r: nat)
    requires k == 0 || (k - 1) * (k - 1) < n
    ensures r * r >= n
    ensures r == 0 || (r - 1) * (r - 1) < n
    decreases n - k
  {
    if k * k >= n then k
    else
      assert k <= k * k || k == 0;
      CeilSqrtFrom(n, k + 1)
  }

  /** `ceil(sqrt(n))` over the integers: the least `k` with `k * k >= n`. */
  function CeilSqrt(n: nat): (r: nat)
    ensures r * r >= n
    ensures r == 0 || (r - 1) * (r - 1) < n
  {
    CeilSqrtFrom(n, 0)
  }

  /** The ceiling square root is the only `k` with `(k - 1)^2 < n <= k^2`. */
  lemma CeilSqrtIs(n: nat, k: nat)
    requires k > 0 && (k - 1) * (k - 1) < n <= k * k
    ensures CeilSqrt(n) == k
  {
    var r := CeilSqrt(n);
    if r < k {
      SquareMonotone(r, k - 1);
    } else if r > k {
      SquareMonotone(k, r - 1);
    }
  }

  lemma CeilSqrtMonotone(a: nat, b: nat)
    requires a <= b
    ensures CeilSqrt(a) <= CeilSqrt(b)
  {
    var ka, kb := CeilSqrt(a), CeilSqrt(b);
    if ka > kb {
      SquareMonotone(kb, ka - 1);
      assert false;
    }
  }

  /** The side length for `count` words whose longest has `maxLen` code
      points. */
  function SizeFor(count: nat, maxLen: nat): (s: nat)
    ensures MinSize <= s <= MaxSize
    ensures s >= Min(maxLen + 2, MaxSize)
    ensures s >= Min(CeilSqrt(count * maxLen * 2), MaxSize)
    ensures s == MinSize || s == Min(maxLen + 2, MaxSize) || s == Min(CeilSqrt(count * maxLen * 2), MaxSize)
  {
    Max(Min(Max(maxLen + 2, CeilSqrt(count * maxLen * 2)), MaxSize), MinSize)
  }

  /** The side length `generateBoard` chooses for `words`. */
  function GridSize(words: seq<Word>): (s: nat)
    requires |words| > 0
    ensures MinSize <= s <= MaxSize
    ensures s >= Min(MaxLen(words) + 2, MaxSize)
  {
    SizeFor(|words|, MaxLen(words))
  }

  /** More words, or a longer longest word, never shrink the grid. */
  lemma SizeMonotone(count: nat, maxLen: nat, count': nat, maxLen': nat)
    requires count <= count' && maxLen <= maxLen'
    ensures SizeFor(count, maxLen) <= SizeFor(count', maxLen')
  {
    assert count * maxLen <= count' * maxLen;
    assert count' * maxLen <= count' * maxLen';
    CeilSqrtMonotone(count * maxLen * 2, count' * maxLen' * 2);
  }

  /** The chosen side lies in [5, 10] and fits the longest word whenever
      that word has at most 10 code points. */
  lemma GridSizeFitsLongestWord(words: seq<Word>)
    requires |words| > 0
    ensures MinSize <= GridSize(words) <= MaxSize
    ensures MaxLen(words) <= MaxSize ==> forall i :: 0 <= i < |words| ==> |words[i]| <= GridSize(words)
  {
  }
}
