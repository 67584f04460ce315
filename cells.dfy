/**
  The 100 cells of the board and what a well-formed puzzle looks like.

  A cell is a block of the board: its letter (empty until a word or the fill writes one),
  the word it is tagged with (the block's `letter` class plus the word's own class), the
  first-letter and last-letter markers, and whether the player has popped it
  (`letter_pop`). A word is found when every cell tagged with it is popped.
*/
module Cells {
  import opened Wrappers
  import opened Layout

  datatype Cell = Cell(letter: Option<char>, tag: Option<string>, first: bool, last: bool, popped: bool)

  /** A freshly created block: no letter, no word, no markers, not popped. */
  const Blank: Cell := Cell(None, None, false, false, false)

  /** The letters the fill draws from. */
  const Alphabet: string := "abcdefghijklmnopqrstuvwxyz"

  lemma AlphabetFacts()
    ensures |Alphabet| == 26
    ensures forall d :: 0 <= d < |Alphabet| ==> IsLower(Alphabet[d])
  {
  }

  /** Cell `idx` of `word` after the word is written over `c`. */
  function Written(c: Cell, word: string, idx: int): (r: Cell)
    requires 0 <= idx < |word|
    ensures r.letter == Some(word[idx]) && r.tag == Some(word) && r.popped == c.popped
    ensures c == Blank ==> r.first == (idx == 0) && r.last == (idx == |word| - 1)
  {
    c.(letter := Some(word[idx]), tag := Some(word),
       first := c.first || idx == 0, last := c.last || idx == |word| - 1)
  }

  /** The board after `word` is written over the blocks from `start` on. */
  function WriteWord(b: seq<Cell>, word: string, start: int): (r: seq<Cell>)
    ensures |r| == |b|
    ensures forall j :: 0 <= j < |b| && InSpan(j, start, |word|) ==>
      r[j].letter == Some(word[j - start]) && r[j].tag == Some(word) && r[j].popped == b[j].popped
    ensures forall j :: 0 <= j < |b| && !InSpan(j, start, |word|) ==> r[j] == b[j]
  {
    seq(|b|, j requires 0 <= j < |b| => if InSpan(j, start, |word|) then Written(b[j], word, j - start) else b[j])
  }

  // ---------------------------------------------------------------------------
  // The board invariant

  /**
    Cell `i` agrees with the placed words: the cell of word `k` at position `idx` holds
    `words[k][idx]`, is tagged `words[k]`, and is marked first exactly at `idx == 0` and
    last exactly at the word's last position; a cell no word covers is untagged and unmarked.
  */
  predicate CellMatches(c: Cell, i: int, words: seq<string>, starts: seq<int>)
    requires |starts| == |words|
  {
    match Owner(i, words, starts)
    case None => c.tag.None? && !c.first && !c.last
    case Some(k) =>
      c.letter == Some(words[k][i - starts[k]]) && c.tag == Some(words[k]) &&
      c.first == (i == starts[k]) && c.last == (i == starts[k] + |words[k]| - 1)
  }

  predicate Laid(b: seq<Cell>, words: seq<string>, starts: seq<int>)
    requires |starts| == |words|
  {
    forall i :: 0 <= i < |b| ==> CellMatches(b[i], i, words, starts)
  }

  /** No cell is empty and every letter is in `a`-`z`. */
  predicate Lettered(b: seq<Cell>) {
    forall i :: 0 <= i < |b| ==> b[i].letter.Some? && IsLower(b[i].letter.value)
  }

  /** Only letter cells (cells tagged with a word) are ever popped. */
  predicate PoppedTagged(b: seq<Cell>) {
    forall i :: 0 <= i < |b| && b[i].popped ==> b[i].tag.Some?
  }

  /** A set-up board: three distinct vocabulary words laid out in distinct rows, every cell filled. */
  predicate WellFormed(b: seq<Cell>, words: seq<string>, rows: seq<int>, offsets: seq<int>) {
    |b| == CellCount && |words| == NumWords && Distinct(words) &&
    (forall k :: 0 <= k < |words| ==> words[k] in Vocabulary) &&
    Arranged(words, rows, offsets) && Laid(b, words, Starts(rows, offsets)) &&
    Lettered(b) && PoppedTagged(b)
  }

  /**
    A game in progress: a well-formed board, the found words are exactly the listed words
    all of whose cells are popped, and the board is won exactly when all `NumWords` words
    are found.
  */
  predicate InPlay(b: seq<Cell>, words: seq<string>, rows: seq<int>, offsets: seq<int>, found: set<string>, won: bool) {
    WellFormed(b, words, rows, offsets) && found == FoundWords(b, words) && (won <==> |found| == NumWords)
  }

  // ---------------------------------------------------------------------------
  // Popping and finding

  predicate IsLetterBlock(b: seq<Cell>, i: int) { 0 <= i < |b| && b[i].tag.Some? }

  /** The board after the player pops cell `i`; only a letter block reacts. */
  function Pop(b: seq<Cell>, i: int): (r: seq<Cell>)
    ensures |r| == |b|
    ensures forall j :: 0 <= j < |b| && j != i ==> r[j] == b[j]
    ensures IsLetterBlock(b, i) ==> r[i] == b[i].(popped := true)
    ensures !IsLetterBlock(b, i) ==> r == b
  {
    if IsLetterBlock(b, i) then b[i := b[i].(popped := true)] else b
  }

  /** Popping is monotone and idempotent, and never pops an untagged cell. */
  lemma PopMonotone(b: seq<Cell>, i: int)
    ensures forall j :: 0 <= j < |b| && b[j].popped ==> Pop(b, i)[j].popped
    ensures Pop(Pop(b, i), i) == Pop(b, i)
    ensures PoppedTagged(b) ==> PoppedTagged(Pop(b, i))
  {
  }

  predicate AllPopped(b: seq<Cell>, w: string) {
    forall i :: 0 <= i < |b| && b[i].tag == Some(w) ==> b[i].popped
  }

  /** The found words: the words all of whose cells are popped. */
  function FoundWords(b: seq<Cell>, words: seq<string>): (r: set<string>)
    ensures forall w :: w in r ==> w in words
    ensures forall k :: 0 <= k < |words| && AllPopped(b, words[k]) ==> words[k] in r
  {
    set w | w in words && AllPopped(b, w)
  }

  /**
    Popping a cell can only add the popped cell's own word to the found words: a found
    word stays found and no other word becomes found.
  */
  lemma FoundAfterPop(b: seq<Cell>, words: seq<string>, i: int)
    ensures FoundWords(b, words) <= FoundWords(Pop(b, i), words)
    ensures IsLetterBlock(b, i) ==> FoundWords(Pop(b, i), words) - FoundWords(b, words) <= {b[i].tag.value}
    ensures !IsLetterBlock(b, i) ==> FoundWords(Pop(b, i), words) == FoundWords(b, words)
  {
    var b' := Pop(b, i);
    forall w | w in words && AllPopped(b, w) ensures AllPopped(b', w) {
    }
    if IsLetterBlock(b, i) {
      forall w | w in words && AllPopped(b', w) && w != b[i].tag.value ensures AllPopped(b, w) {
        forall j | 0 <= j < |b| && b[j].tag == Some(w) ensures b[j].popped {
          assert b'[j].popped;
        }
      }
    }
  }

  // ---------------------------------------------------------------------------
  // Counting cells, as the completion check does

  /** The number of cells tagged `w`. */
  function TaggedCount(b: seq<Cell>, w: string): (r: nat)
    ensures r <= |b|
  {
    if b == [] then 0
    else TaggedCount(b[..|b| - 1], w) + (if b[|b| - 1].tag == Some(w) then 1 else 0)
  }

  /** The number of cells tagged `w` and popped (the elements matching `.w.letter_pop`). */
  function PoppedCount(b: seq<Cell>, w: string): (r: nat)
    ensures r <= |b|
  {
    if b == [] then 0
    else PoppedCount(b[..|b| - 1], w) + (if b[|b| - 1].tag == Some(w) && b[|b| - 1].popped then 1 else 0)
  }

  /** The popped cells of `w` never outnumber its cells, and match them exactly when all are popped. */
  lemma {:induction false} PoppedCountComplete(b: seq<Cell>, w: string)
    ensures PoppedCount(b, w) <= TaggedCount(b, w)
    ensures PoppedCount(b, w) == TaggedCount(b, w) <==> AllPopped(b, w)
  {
    if b != [] {
      var p := b[..|b| - 1];
      PoppedCountComplete(p, w);
      if AllPopped(b, w) {
        assert AllPopped(p, w);
      } else if AllPopped(p, w) {
        assert b[|b| - 1].tag == Some(w) && !b[|b| - 1].popped;
      }
    }
  }

  /** When exactly the cells `lo .. hi-1` are tagged `w`, there are `hi - lo` of them. */
  lemma {:induction false} TaggedCountOfSpan(b: seq<Cell>, w: string, lo: int, hi: int)
    requires 0 <= lo <= hi <= |b|
    requires forall i :: 0 <= i < |b| ==> (b[i].tag == Some(w) <==> lo <= i < hi)
    ensures TaggedCount(b, w) == hi - lo
  {
    if b != [] {
      var p := b[..|b| - 1];
      if hi < |b| {
        TaggedCountOfSpan(p, w, lo, hi);
      } else if lo < hi {
        TaggedCountOfSpan(p, w, lo, hi - 1);
      } else {
        TaggedCountOfSpan(p, w, 0, 0);
      }
    }
  }

  // ---------------------------------------------------------------------------
  // What a well-formed board guarantees

  /** Cell `i` is tagged `words[k]` exactly when it lies in word `k`'s span. */
  lemma TagIffSpan(b: seq<Cell>, words: seq<string>, rows: seq<int>, offsets: seq<int>, k: int, i: int)
    requires WellFormed(b, words, rows, offsets)
    requires 0 <= k < |words| && 0 <= i < |b|
    ensures b[i].tag == Some(words[k]) <==> InSpan(i, Starts(rows, offsets)[k], |words[k]|)
  {
    var starts := Starts(rows, offsets);
    assert CellMatches(b[i], i, words, starts);
    if InSpan(i, starts[k], |words[k]|) {
      OwnerOfSpan(words, rows, offsets, k, i);
    }
  }

  /** Every placed word has exactly as many cells as letters. */
  lemma TaggedCountOfWord(b: seq<Cell>, words: seq<string>, rows: seq<int>, offsets: seq<int>, k: int)
    requires WellFormed(b, words, rows, offsets)
    requires 0 <= k < |words|
    ensures TaggedCount(b, words[k]) == |words[k]|
  {
    var start := Starts(rows, offsets)[k];
    forall i | 0 <= i < |b| ensures b[i].tag == Some(words[k]) <==> start <= i < start + |words[k]| {
      TagIffSpan(b, words, rows, offsets, k, i);
    }
    TaggedCountOfSpan(b, words[k], start, start + |words[k]|);
  }

  /**
    The completion check's test, "the popped cells tagged `w` number `|w|`", holds exactly
    when `w` is a found word.
  */
  lemma CompletionIffFound(b: seq<Cell>, words: seq<string>, rows: seq<int>, offsets: seq<int>, w: string)
    requires WellFormed(b, words, rows, offsets)
    requires w in words
    ensures PoppedCount(b, w) == |w| <==> w in FoundWords(b, words)
  {
    var k :| 0 <= k < |words| && words[k] == w;
    TaggedCountOfWord(b, words, rows, offsets, k);
    PoppedCountComplete(b, w);
  }

  /** A board on which nothing is popped has no found word, since every word has a cell. */
  lemma NoneFoundUnpopped(b: seq<Cell>, words: seq<string>, rows: seq<int>, offsets: seq<int>)
    requires WellFormed(b, words, rows, offsets)
    requires forall i :: 0 <= i < |b| ==> !b[i].popped
    ensures FoundWords(b, words) == {}
  {
    forall w | w in words ensures !AllPopped(b, w) {
      var k :| 0 <= k < |words| && words[k] == w;
      var start := Starts(rows, offsets)[k];
      SpanInRow(rows[k], offsets[k], |w|, 0);
      TagIffSpan(b, words, rows, offsets, k, start);
    }
  }

  lemma {:induction false} DistinctCard(s: seq<string>)
    requires Distinct(s)
    ensures |set x | x in s| == |s|
  {
    if s != [] {
      var p := s[..|s| - 1];
      DistinctCard(p);
      assert (set x | x in s) == (set x | x in p) + {s[|s| - 1]};
    }
  }

  lemma SubsetCard(a: set<string>, b: set<string>)
    requires a <= b
    ensures |a| <= |b|
    ensures |a| == |b| ==> a == b
  {
    assert b == a + (b - a);
    if |a| == |b| {
      assert |b - a| == 0;
    }
  }

  /** A found set that lacks at most `w` of the words all of whose cells are popped. */
  lemma FoundGap(found: set<string>, all: set<string>, w: string)
    requires found <= all && all - found <= {w}
    ensures w !in all ==> found == all
    ensures w in all ==> found + {w} == all
  {
  }

  /**
    At most `NumWords` words are ever found, and all of them are found exactly when every
    letter cell of the board is popped.
  */
  lemma WinIffAllPopped(b: seq<Cell>, words: seq<string>, rows: seq<int>, offsets: seq<int>)
    requires WellFormed(b, words, rows, offsets)
    ensures |FoundWords(b, words)| <= NumWords
    ensures |FoundWords(b, words)| == NumWords <==> forall i :: IsLetterBlock(b, i) ==> b[i].popped
  {
    var all := set x | x in words;
    var found := FoundWords(b, words);
    DistinctCard(words);
    SubsetCard(found, all);
    var starts := Starts(rows, offsets);
    if |found| == NumWords {
      forall i | IsLetterBlock(b, i) ensures b[i].popped {
        assert CellMatches(b[i], i, words, starts);
        var k := Owner(i, words, starts).value;
        assert words[k] in found;
      }
    }
    if forall i :: IsLetterBlock(b, i) ==> b[i].popped {
      assert found == all;
    }
  }

  // ---------------------------------------------------------------------------
  // The steps of the setup and of a pop keep the board in shape

  /** One block of `LaidExtend`: the block's match and blankness after the write. */
  lemma LaidExtendAt(c: Cell, c': Cell, i: int, words: seq<string>, starts: seq<int>, word: string, start: int)
    requires |starts| == |words|
    requires CellMatches(c, i, words, starts)
    requires Owner(i, words, starts).None? ==> c == Blank
    requires InSpan(i, start, |word|) ==> Owner(i, words, starts).None? && c' == Written(c, word, i - start)
    requires !InSpan(i, start, |word|) ==> c' == c
    ensures CellMatches(c', i, words + [word], starts + [start])
    ensures Owner(i, words + [word], starts + [start]).None? ==> c' == Blank
  {
    OwnerExtend(i, words, starts, word, start);
  }

  /**
    Writing one more word over blocks that no earlier word owns extends the layout: the
    written blocks match the new word, every other block keeps its match, and blocks that
    no word owns stay blank.
  */
  lemma LaidExtend(before: seq<Cell>, after: seq<Cell>, words: seq<string>, starts: seq<int>, word: string, start: int)
    requires |starts| == |words| && |after| == |before|
    requires 0 <= start && start + |word| <= |before|
    requires Laid(before, words, starts)
    requires forall i :: 0 <= i < |before| && Owner(i, words, starts).None? ==> before[i] == Blank
    requires forall j :: InSpan(j, start, |word|) ==> Owner(j, words, starts).None?
    requires forall j :: 0 <= j < |before| && InSpan(j, start, |word|) ==> after[j] == Written(before[j], word, j - start)
    requires forall j :: 0 <= j < |before| && !InSpan(j, start, |word|) ==> after[j] == before[j]
    ensures Laid(after, words + [word], starts + [start])
    ensures forall i :: 0 <= i < |after| && Owner(i, words + [word], starts + [start]).None? ==> after[i] == Blank
    ensures forall i :: 0 <= i < |after| ==> after[i].popped == before[i].popped
  {
    forall i | 0 <= i < |after|
      ensures CellMatches(after[i], i, words + [word], starts + [start])
      ensures Owner(i, words + [word], starts + [start]).None? ==> after[i] == Blank
    {
      LaidExtendAt(before[i], after[i], i, words, starts, word, start);
    }
  }

  /** Popping changes no letter, tag or marker, so a well-formed board stays well-formed. */
  lemma PopKeepsWellFormed(b: seq<Cell>, words: seq<string>, rows: seq<int>, offsets: seq<int>, i: int)
    requires WellFormed(b, words, rows, offsets)
    ensures WellFormed(Pop(b, i), words, rows, offsets)
  {
    var b' := Pop(b, i);
    var starts := Starts(rows, offsets);
    forall j | 0 <= j < |b'| ensures CellMatches(b'[j], j, words, starts) {
      assert CellMatches(b[j], j, words, starts);
      assert b'[j].(popped := b[j].popped) == b[j];
    }
    PopMonotone(b, i);
  }

  /** The board while words are being placed: laid out so far, blank elsewhere, nothing popped. */
  predicate Placing(b: seq<Cell>, words: seq<string>, starts: seq<int>) {
    |starts| == |words| && Laid(b, words, starts) &&
    (forall i :: 0 <= i < |b| && Owner(i, words, starts).None? ==> b[i] == Blank) &&
    (forall i :: 0 <= i < |b| ==> !b[i].popped)
  }

  /** Before word `k` is placed, its span is on the board and none of its blocks carries a word. */
  lemma PlaceReady(b: seq<Cell>, words: seq<string>, rows: seq<int>, offsets: seq<int>, k: int)
    requires Arranged(words, rows, offsets) && 0 <= k < |words| && |b| == CellCount
    requires Placing(b, words[..k], Starts(rows, offsets)[..k])
    ensures 0 <= Start(rows[k], offsets[k]) && Start(rows[k], offsets[k]) + |words[k]| <= |b|
    ensures forall j :: InSpan(j, Start(rows[k], offsets[k]), |words[k]|) ==> b[j].tag.None?
  {
    SpanFreeAll(words, rows, offsets, k);
  }

  /** Placing word `k` over its free span extends the layout to the first `k + 1` words. */
  lemma PlaceStep(before: seq<Cell>, after: seq<Cell>, words: seq<string>, rows: seq<int>, offsets: seq<int>, k: int)
    requires Arranged(words, rows, offsets) && 0 <= k < |words| && |before| == CellCount
    requires Placing(before, words[..k], Starts(rows, offsets)[..k])
    requires after == WriteWord(before, words[k], Start(rows[k], offsets[k]))
    ensures Placing(after, words[..k + 1], Starts(rows, offsets)[..k + 1])
  {
    var starts := Starts(rows, offsets);
    SpanFreeAll(words, rows, offsets, k);
    LaidExtend(before, after, words[..k], starts[..k], words[k], starts[k]);
    assert words[..k] + [words[k]] == words[..k + 1];
    assert starts[..k] + [starts[k]] == starts[..k + 1];
  }

  /**
    Filling every empty block of a fully placed board gives a well-formed board on which
    nothing is popped or found, and whose unowned blocks carry the drawn letters.
  */
  lemma FillStep(before: seq<Cell>, after: seq<Cell>, words: seq<string>, rows: seq<int>, offsets: seq<int>, fillDraws: seq<int>)
    requires |before| == CellCount && |after| == |before| && |fillDraws| == |before|
    requires forall i :: 0 <= i < |fillDraws| ==> 0 <= fillDraws[i] < |Alphabet|
    requires |words| == NumWords && Distinct(words) && forall k :: 0 <= k < |words| ==> words[k] in Vocabulary
    requires Arranged(words, rows, offsets) && Placing(before, words, Starts(rows, offsets))
    requires forall i :: 0 <= i < |before| && before[i].letter.Some? ==> after[i] == before[i]
    requires forall i :: 0 <= i < |before| && before[i].letter.None? ==>
      after[i] == before[i].(letter := Some(Alphabet[fillDraws[i]]))
    ensures WellFormed(after, words, rows, offsets)
    ensures forall i :: 0 <= i < |after| ==> !after[i].popped
    ensures FoundWords(after, words) == {}
    ensures forall i :: 0 <= i < |after| && Owner(i, words, Starts(rows, offsets)).None? ==>
      after[i].letter == Some(Alphabet[fillDraws[i]])
  {
    VocabularyFacts();
    AlphabetFacts();
    var starts := Starts(rows, offsets);
    forall i | 0 <= i < |after|
      ensures CellMatches(after[i], i, words, starts)
      ensures after[i].letter.Some? && IsLower(after[i].letter.value)
      ensures Owner(i, words, starts).None? ==> after[i].letter == Some(Alphabet[fillDraws[i]])
    {
      assert CellMatches(before[i], i, words, starts);
      match Owner(i, words, starts)
      case None =>
      case Some(k) =>
        var v :| 0 <= v < |Vocabulary| && Vocabulary[v] == words[k];
        assert IsLowerWord(Vocabulary[v]);
    }
    NoneFoundUnpopped(after, words, rows, offsets);
  }
}
