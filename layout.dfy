/**
  Where the words go on the 10x10 word-search board.

  The board has 100 cells numbered row by row, so cell `row * 10 + col` is in row `row`.
  Setting up a puzzle picks three words from a fixed vocabulary, three distinct rows, and
  for each word an offset inside its row; the word is written left to right from cell
  `offset + row * 10`. The random choices are parameters here: a shuffle of the
  vocabulary (`order`), the stream of random row draws, and the offsets.
*/
module Layout {
  import opened Wrappers

  const BoardSize: int := 10
  const CellCount: int := 100
  const NumWords: int := 3

  /** The words a puzzle draws from, in the order the component lists them. */
  const Vocabulary: seq<string> :=
    ["red", "orange", "gold", "green", "blue", "indigo", "violet", "hotpink", "turquoise"]

  predicate IsLower(c: char) { 'a' <= c <= 'z' }

  predicate IsLowerWord(w: string) { forall j :: 0 <= j < |w| ==> IsLower(w[j]) }

  predicate Distinct<T(==)>(s: seq<T>) { forall i, j :: 0 <= i < j < |s| ==> s[i] != s[j] }

  /** Every vocabulary word is a non-empty lower-case word that fits in a row with room to spare. */
  lemma VocabularyFacts()
    ensures |Vocabulary| == 9 && Distinct(Vocabulary)
    ensures forall k :: 0 <= k < |Vocabulary| ==>
      0 < |Vocabulary[k]| <= BoardSize - 1 && IsLowerWord(Vocabulary[k])
  {
    assert Vocabulary[2][0] != Vocabulary[4][0];
    assert Vocabulary[1][0] != Vocabulary[5][0] && Vocabulary[1][0] != Vocabulary[6][0];
    assert Vocabulary[5][0] != Vocabulary[6][0];
  }

  // ---------------------------------------------------------------------------
  // Choosing the words

  /** `order` is a rearrangement of the indices `0 .. n-1`. */
  predicate IsPermutation(order: seq<int>, n: int) {
    |order| == n && Distinct(order) && forall i :: 0 <= i < |order| ==> 0 <= order[i] < n
  }

  /** The vocabulary after the shuffle: position `i` holds the word at index `order[i]`. */
  function Shuffled(order: seq<int>): (r: seq<string>)
    requires IsPermutation(order, |Vocabulary|)
    ensures |r| == |Vocabulary| && Distinct(r)
    ensures forall i :: 0 <= i < |r| ==> r[i] in Vocabulary
  {
    VocabularyFacts();
    seq(|order|, i requires 0 <= i < |order| => Vocabulary[order[i]])
  }

  /** The puzzle's words: the first `NumWords` entries of the shuffled vocabulary. */
  function SelectWords(order: seq<int>): (r: seq<string>)
    requires IsPermutation(order, |Vocabulary|)
    ensures |r| == NumWords && Distinct(r)
    ensures forall k :: 0 <= k < |r| ==> r[k] in Vocabulary && 0 < |r[k]| < BoardSize
  {
    VocabularyFacts();
    Shuffled(order)[..NumWords]
  }

  // ---------------------------------------------------------------------------
  // Choosing the rows

  /** The values of `s` without repetitions, in the order in which they first occur. */
  function Dedup(s: seq<int>): (r: seq<int>)
    ensures |r| <= |s|
  {
    if s == [] then []
    else
      var d := Dedup(s[..|s| - 1]);
      if s[|s| - 1] in d then d else d + [s[|s| - 1]]
  }

  /** The de-duplicated sequence repeats nothing and holds exactly the values of `s`. */
  lemma {:induction false} DedupFacts(s: seq<int>)
    ensures Distinct(Dedup(s))
    ensures forall x :: x in Dedup(s) ==> x in s
    ensures forall x :: x in s ==> x in Dedup(s)
  {
    if s != [] {
      DedupFacts(s[..|s| - 1]);
      assert s == s[..|s| - 1] + [s[|s| - 1]];
    }
  }

  /** De-duplicating a prefix of `s` gives a prefix of the de-duplicated `s`. */
  lemma {:induction false} DedupPrefix(s: seq<int>, j: int)
    requires 0 <= j <= |s|
    ensures Dedup(s[..j]) <= Dedup(s)
  {
    if j < |s| {
      DedupPrefix(s[..|s| - 1], j);
      assert s[..|s| - 1][..j] == s[..j];
    } else {
      assert s[..j] == s;
    }
  }

  /**
    The rejection loop that picks the rows: it keeps drawing a row in `[0, 10)` and keeps the
    draw when it is new, until it has `NumWords` rows. `draws` is the stream of draws; the
    loop ends only when the stream holds `NumWords` distinct values, which the caller
    guarantees. The rows are the first `NumWords` distinct draws.
  */
  method ChooseRows(draws: seq<int>) returns (rows: seq<int>)
    requires forall i :: 0 <= i < |draws| ==> 0 <= draws[i] < BoardSize
    requires |Dedup(draws)| >= NumWords
    ensures rows == Dedup(draws)[..NumWords]
    ensures |rows| == NumWords && Distinct(rows)
    ensures forall k :: 0 <= k < |rows| ==> 0 <= rows[k] < BoardSize
  {
    rows := [];
    var k := 0;
    while |rows| < NumWords
      invariant 0 <= k <= |draws|
      invariant rows == Dedup(draws[..k])
      invariant |rows| <= NumWords
      invariant |rows| < NumWords ==> k < |draws|
      decreases |draws| - k
    {
      var candidate := draws[k];
      if candidate !in rows {
        rows := rows + [candidate];
      }
      assert draws[..k + 1][..k] == draws[..k];
      k := k + 1;
      if k == |draws| {
        assert draws[..k] == draws;
      }
    }
    DedupPrefix(draws, k);
    DedupFacts(draws[..k]);
    DedupFacts(draws);
    assert forall x :: x in Dedup(draws[..k]) ==> x in draws[..k];
    assert forall x :: x in draws[..k] ==> 0 <= x < BoardSize;
    forall j | 0 <= j < |rows| ensures 0 <= rows[j] < BoardSize {
      assert rows[j] in Dedup(draws[..k]);
    }
  }

  // ---------------------------------------------------------------------------
  // Where the words lie

  /** The first cell of a word written at `offset` in row `row`. */
  function Start(row: int, offset: int): (r: int)
    ensures 0 <= offset < BoardSize ==> r / BoardSize == row && r % BoardSize == offset
  {
    offset + row * BoardSize
  }

  function Starts(rows: seq<int>, offsets: seq<int>): seq<int>
    requires |offsets| == |rows|
  {
    seq(|rows|, k requires 0 <= k < |rows| => Start(rows[k], offsets[k]))
  }

  predicate InSpan(i: int, start: int, len: int) { start <= i < start + len }

  /**
    The layout the setup produces: one row per word, the rows distinct and on the board,
    and every word inside its row (`offset + |word| <= 10`).
  */
  predicate Arranged(words: seq<string>, rows: seq<int>, offsets: seq<int>) {
    |rows| == |words| && |offsets| == |words| && Distinct(rows) &&
    forall k :: 0 <= k < |words| ==>
      0 <= rows[k] < BoardSize && 0 <= offsets[k] && offsets[k] + |words[k]| <= BoardSize
  }

  /** The letter at position `idx` of a word placed in row `row` lies in that row, on the board. */
  lemma SpanInRow(row: int, offset: int, len: int, idx: int)
    requires 0 <= row < BoardSize && 0 <= offset && offset + len <= BoardSize
    requires 0 <= idx < len
    ensures 0 <= Start(row, offset) + idx < CellCount
    ensures (Start(row, offset) + idx) / BoardSize == row
    ensures (Start(row, offset) + idx) % BoardSize == offset + idx
  {
    var i := Start(row, offset) + idx;
    assert i == row * BoardSize + (offset + idx);
    assert 0 <= offset + idx < BoardSize;
  }

  /** Two different words of an arrangement never share a cell. */
  lemma SpansDisjoint(words: seq<string>, rows: seq<int>, offsets: seq<int>, k: int, j: int, i: int)
    requires Arranged(words, rows, offsets)
    requires 0 <= k < |words| && 0 <= j < |words| && k != j
    requires InSpan(i, Start(rows[k], offsets[k]), |words[k]|)
    ensures !InSpan(i, Start(rows[j], offsets[j]), |words[j]|)
  {
    SpanInRow(rows[k], offsets[k], |words[k]|, i - Start(rows[k], offsets[k]));
    if InSpan(i, Start(rows[j], offsets[j]), |words[j]|) {
      SpanInRow(rows[j], offsets[j], |words[j]|, i - Start(rows[j], offsets[j]));
    }
  }

  /**
    The word that cell `i` belongs to, if any: the last word whose span covers `i` (a later
    word would overwrite an earlier one, though an arrangement never lets two overlap).
  */
  function Owner(i: int, words: seq<string>, starts: seq<int>): (r: Option<nat>)
    requires |starts| == |words|
    ensures r.Some? ==> r.value < |words| && InSpan(i, starts[r.value], |words[r.value]|)
    ensures r.None? ==> forall k :: 0 <= k < |words| ==> !InSpan(i, starts[k], |words[k]|)
  {
    if |words| == 0 then None
    else
      var n := |words| - 1;
      if InSpan(i, starts[n], |words[n]|) then Some(n)
      else Owner(i, words[..n], starts[..n])
  }

  /** Adding one more word changes the owner exactly of the cells in that word's span. */
  lemma OwnerExtend(i: int, words: seq<string>, starts: seq<int>, w: string, s: int)
    requires |starts| == |words|
    ensures Owner(i, words + [w], starts + [s]) ==
      if InSpan(i, s, |w|) then Some(|words|) else Owner(i, words, starts)
  {
    assert (words + [w])[..|words|] == words;
    assert (starts + [s])[..|starts|] == starts;
  }

  /** In an arrangement, every cell of word `k`'s span belongs to word `k`. */
  lemma OwnerOfSpan(words: seq<string>, rows: seq<int>, offsets: seq<int>, k: int, i: int)
    requires Arranged(words, rows, offsets)
    requires 0 <= k < |words| && InSpan(i, Start(rows[k], offsets[k]), |words[k]|)
    ensures Owner(i, words, Starts(rows, offsets)) == Some(k)
  {
    var o := Owner(i, words, Starts(rows, offsets));
    if o.Some? && o.value != k {
      SpansDisjoint(words, rows, offsets, k, o.value, i);
    }
  }

  /**
    Nothing is overwritten: before word `k` is placed, no earlier word owns any cell of
    word `k`'s span.
  */
  lemma SpanFree(words: seq<string>, rows: seq<int>, offsets: seq<int>, k: int, i: int)
    requires Arranged(words, rows, offsets)
    requires 0 <= k < |words| && InSpan(i, Start(rows[k], offsets[k]), |words[k]|)
    ensures Owner(i, words[..k], Starts(rows, offsets)[..k]) == None
  {
    var o := Owner(i, words[..k], Starts(rows, offsets)[..k]);
    if o.Some? {
      SpansDisjoint(words, rows, offsets, k, o.value, i);
    }
  }

  /** Before word `k` is placed, no cell of its span is owned by an earlier word, and all lie on the board. */
  lemma SpanFreeAll(words: seq<string>, rows: seq<int>, offsets: seq<int>, k: int)
    requires Arranged(words, rows, offsets)
    requires 0 <= k < |words|
    ensures 0 <= Start(rows[k], offsets[k]) && Start(rows[k], offsets[k]) + |words[k]| <= CellCount
    ensures forall j :: InSpan(j, Start(rows[k], offsets[k]), |words[k]|) ==>
      Owner(j, words[..k], Starts(rows, offsets)[..k]) == None
  {
    forall j | InSpan(j, Start(rows[k], offsets[k]), |words[k]|)
      ensures Owner(j, words[..k], Starts(rows, offsets)[..k]) == None
    {
      SpanFree(words, rows, offsets, k, j);
    }
  }
}
