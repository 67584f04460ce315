/**
  The word-search component as a state machine over its board.

  A `Puzzle` holds the 100 blocks of the board, the listed words, the words marked found,
  the winner flag of the board and whether the mouse button is held over the board.
  Setting up a game clears the board, places three words, and fills the remaining blocks;
  the selection handlers pop letter blocks and, after each pop, check whether the popped
  block's word is complete and whether the game is won.
*/
module WordSearch {
  import opened Wrappers
  import opened Layout
  import opened Cells

  /**
    The random choices of one setup, as the setup draws them: `order` is the shuffle of
    the vocabulary, `rowDraws` the stream of row draws in `[0, 10)` (holding at least
    `NumWords` distinct values, so that the row loop ends), and `offsetDraws[k]` the offset of
    the `k`-th selected word, in `[0, 10 - |word|]`.
  */
  predicate WordChoices(order: seq<int>, rowDraws: seq<int>, offsetDraws: seq<int>) {
    IsPermutation(order, |Vocabulary|) &&
    (forall i :: 0 <= i < |rowDraws| ==> 0 <= rowDraws[i] < BoardSize) &&
    |Dedup(rowDraws)| >= NumWords &&
    |offsetDraws| == NumWords &&
    forall k :: 0 <= k < NumWords ==> 0 <= offsetDraws[k] <= BoardSize - |Vocabulary[order[k]]|
  }

  /** One letter draw in `[0, 26)` per block, used when the block is still empty. */
  predicate FillChoices(fillDraws: seq<int>) {
    |fillDraws| == CellCount && forall i :: 0 <= i < CellCount ==> 0 <= fillDraws[i] < |Alphabet|
  }

  class Puzzle {
    var cells: array<Cell>
    var words: seq<string>
    var found: set<string>
    var won: bool
    var mouseDown: bool
    // Where the setup put the words: the row and the offset of each listed word.
    ghost var rows: seq<int>
    ghost var offsets: seq<int>

    /**
      A game in progress: a well-formed board, the found words are exactly the listed
      words all of whose cells are popped, and the board is won exactly when all
      `NumWords` words are found.
    */
    ghost predicate Valid()
      reads this`cells, this`words, this`found, this`won, this`rows, this`offsets, cells
    {
      InPlay(cells[..], words, rows, offsets, found, won)
    }

    /** Mounting the component: no board, no words, mouse up, then the first setup. */
    constructor (order: seq<int>, rowDraws: seq<int>, offsetDraws: seq<int>, fillDraws: seq<int>)
      requires WordChoices(order, rowDraws, offsetDraws) && FillChoices(fillDraws)
      ensures Valid() && fresh(cells)
      ensures words == SelectWords(order) && found == {} && !won && !mouseDown
      ensures forall i :: 0 <= i < cells.Length ==> !cells[i].popped
      ensures rows == Dedup(rowDraws)[..NumWords] && offsets == offsetDraws
      ensures forall i :: 0 <= i < CellCount && Owner(i, words, Starts(rows, offsets)).None? ==>
        cells[i].letter == Some(Alphabet[fillDraws[i]])
    {
      cells := new Cell[0];
      words := [];
      found := {};
      won := false;
      mouseDown := false;
      rows := [];
      offsets := [];
      new;
      SetGameUp(order, rowDraws, offsetDraws, fillDraws);
    }

    // -------------------------------------------------------------------------
    // Setup

    /** Replaces the board by 100 new blocks, each empty, untagged and unpopped. */
    method InitializeBlocks()
      modifies this`cells
      ensures fresh(cells) && cells.Length == CellCount
      ensures forall i :: 0 <= i < CellCount ==> cells[i] == Blank
    {
      var board := new Cell[CellCount];
      for i := 0 to CellCount
        invariant forall j :: 0 <= j < i ==> board[j] == Blank
      {
        board[i] := Blank;
      }
      cells := board;
    }

    /**
      Writes `word` into the blocks `start .. start + |word| - 1`: each gets its letter and
      the word's tag, the first gets the first-letter marker and the last the last-letter
      marker. The blocks must not carry a word yet.
    */
    method PlaceWord(word: string, start: int)
      requires 0 <= start && start + |word| <= cells.Length
      requires forall j :: start <= j < start + |word| ==> cells[j].tag.None?
      modifies cells
      ensures cells[..] == WriteWord(old(cells[..]), word, start)
    {
      for idx := 0 to |word|
        invariant forall j :: 0 <= j < cells.Length && InSpan(j, start, idx) ==>
          cells[j] == Written(old(cells[j]), word, j - start)
        invariant forall j :: 0 <= j < cells.Length && !InSpan(j, start, idx) ==> cells[j] == old(cells[j])
      {
        cells[start + idx] := Written(cells[start + idx], word, idx);
      }
      assert cells[..] == WriteWord(old(cells[..]), word, start);
    }

    /**
      Clears the word list, selects the words, chooses their rows and writes each word into
      its row at its offset, listing it. Every word ends up inside its own row, and no
      block written by one word is written again by another.
    */
    method InitializeWords(order: seq<int>, rowDraws: seq<int>, offsetDraws: seq<int>)
      requires cells.Length == CellCount && forall i :: 0 <= i < CellCount ==> cells[i] == Blank
      requires WordChoices(order, rowDraws, offsetDraws)
      modifies this`words, this`found, this`rows, this`offsets, cells
      ensures words == SelectWords(order) && rows == Dedup(rowDraws)[..NumWords] && offsets == offsetDraws
      ensures found == {}
      ensures Arranged(words, rows, offsets) && Placing(cells[..], words, Starts(rows, offsets))
    {
      words, found := [], {};
      var selected := SelectWords(order);
      var rowIndices := ChooseRows(rowDraws);
      rows, offsets := rowIndices, offsetDraws;
      assert Arranged(selected, rowIndices, offsetDraws);
      for k := 0 to NumWords
        invariant words == selected[..k] && found == {}
        invariant rows == rowIndices && offsets == offsetDraws
        invariant Placing(cells[..], words, Starts(rowIndices, offsetDraws)[..k])
      {
        var word := selected[k];
        var start := Start(rowIndices[k], offsetDraws[k]);
        PlaceReady(cells[..], selected, rowIndices, offsetDraws, k);
        ghost var before := cells[..];
        PlaceWord(word, start);
        PlaceStep(before, cells[..], selected, rowIndices, offsetDraws, k);
        assert selected[..k + 1] == words + [word];
        words := words + [word];
      }
      assert selected[..NumWords] == selected;
      assert Starts(rowIndices, offsetDraws)[..NumWords] == Starts(rowIndices, offsetDraws);
    }

    /** Gives every empty block a letter from `a`-`z`; blocks that have a letter keep it. */
    method FillEmptyBlocks(fillDraws: seq<int>)
      requires |fillDraws| == cells.Length
      requires forall i :: 0 <= i < |fillDraws| ==> 0 <= fillDraws[i] < |Alphabet|
      modifies cells
      ensures forall i :: 0 <= i < cells.Length ==> cells[i].letter.Some?
      ensures forall i :: 0 <= i < cells.Length && old(cells[i].letter).Some? ==> cells[i] == old(cells[i])
      ensures forall i :: 0 <= i < cells.Length && old(cells[i].letter).None? ==>
        cells[i] == old(cells[i]).(letter := Some(Alphabet[fillDraws[i]])) && IsLower(Alphabet[fillDraws[i]])
    {
      AlphabetFacts();
      for i := 0 to cells.Length
        invariant forall j :: 0 <= j < i ==> cells[j].letter.Some?
        invariant forall j :: 0 <= j < cells.Length && old(cells[j].letter).Some? ==> cells[j] == old(cells[j])
        invariant forall j :: 0 <= j < i && old(cells[j].letter).None? ==>
          cells[j] == old(cells[j]).(letter := Some(Alphabet[fillDraws[j]]))
        invariant forall j :: i <= j < cells.Length ==> cells[j] == old(cells[j])
      {
        if cells[i].letter.None? {
          cells[i] := cells[i].(letter := Some(Alphabet[fillDraws[i]]));
        }
      }
    }

    /**
      Sets a game up: a new board, new words, every other block filled. The found set
      starts empty. The winner flag is left as it was; both callers run with it cleared.
    */
    method SetGameUp(order: seq<int>, rowDraws: seq<int>, offsetDraws: seq<int>, fillDraws: seq<int>)
      requires WordChoices(order, rowDraws, offsetDraws) && FillChoices(fillDraws)
      modifies this`cells, this`words, this`found, this`rows, this`offsets
      ensures fresh(cells)
      ensures WellFormed(cells[..], words, rows, offsets)
      ensures words == SelectWords(order) && rows == Dedup(rowDraws)[..NumWords] && offsets == offsetDraws
      ensures found == {} && FoundWords(cells[..], words) == {}
      ensures forall i :: 0 <= i < CellCount ==> !cells[i].popped
      ensures forall i :: 0 <= i < CellCount && Owner(i, words, Starts(rows, offsets)).None? ==>
        cells[i].letter == Some(Alphabet[fillDraws[i]])
      ensures !won ==> Valid()
    {
      InitializeBlocks();
      InitializeWords(order, rowDraws, offsetDraws);
      ghost var placed := cells[..];
      FillEmptyBlocks(fillDraws);
      FillStep(placed, cells[..], words, rows, offsets, fillDraws);
    }

    /** The "New Puzzle" button: clears the winner flag, then sets a new game up. */
    method NewPuzzle(order: seq<int>, rowDraws: seq<int>, offsetDraws: seq<int>, fillDraws: seq<int>)
      requires WordChoices(order, rowDraws, offsetDraws) && FillChoices(fillDraws)
      modifies this`cells, this`words, this`found, this`won, this`rows, this`offsets
      ensures Valid() && fresh(cells)
      ensures words == SelectWords(order) && found == {} && !won
      ensures forall i :: 0 <= i < cells.Length ==> !cells[i].popped
      ensures rows == Dedup(rowDraws)[..NumWords] && offsets == offsetDraws
      ensures forall i :: 0 <= i < CellCount && Owner(i, words, Starts(rows, offsets)).None? ==>
        cells[i].letter == Some(Alphabet[fillDraws[i]])
    {
      won := false;
      SetGameUp(order, rowDraws, offsetDraws, fillDraws);
    }

    // -------------------------------------------------------------------------
    // Completion and winning

    /** Marks the board won when the number of found words reaches `NumWords`. */
    method CheckWinCondition()
      modifies this`won
      ensures won == (old(won) || |found| == NumWords)
    {
      if |found| == NumWords {
        won := true;
      }
    }

    /**
      After a block of `word` is popped: when the popped blocks of `word` number its letters,
      the listed word is marked found and the win condition is checked. Called on a board
      where at most `word` has become found without being marked.
    */
    method CheckWordCompletion(word: string)
      requires WellFormed(cells[..], words, rows, offsets) && word in words
      requires found <= FoundWords(cells[..], words) && FoundWords(cells[..], words) - found <= {word}
      requires won <==> |found| == NumWords
      modifies this`found, this`won
      ensures Valid()
      ensures old(won) ==> won
    {
      ghost var b := cells[..];
      var count := PoppedCount(cells[..], word);
      ghost var all := FoundWords(b, words);
      assert count == |word| <==> word in all by {
        CompletionIffFound(b, words, rows, offsets, word);
      }
      assert |all| <= NumWords by {
        WinIffAllPopped(b, words, rows, offsets);
      }
      FoundGap(found, all, word);
      if count == |word| {
        ghost var before := found;
        if word in words {
          found := found + {word};
        }
        SubsetCard(before, found);
        CheckWinCondition();
      }
    }

    // -------------------------------------------------------------------------
    // Selection

    /** Pops block `i` when it is a letter block and checks its word's completion. */
    method PopBlock(i: int)
      requires Valid()
      modifies this`found, this`won, cells
      ensures Valid()
      ensures cells[..] == Pop(old(cells[..]), i)
      ensures old(found) <= found && (old(won) ==> won)
      ensures IsLetterBlock(old(cells[..]), i) ==> found - old(found) <= {old(cells[..])[i].tag.value}
      ensures !IsLetterBlock(old(cells[..]), i) || old(cells[..])[i].popped ==>
        found == old(found) && won == old(won)
      ensures won <==> forall j :: IsLetterBlock(cells[..], j) ==> cells[j].popped
    {
      ghost var b := cells[..];
      ghost var b' := Pop(b, i);
      FoundAfterPop(b, words, i);
      PopKeepsWellFormed(b, words, rows, offsets, i);
      WinIffAllPopped(b', words, rows, offsets);
      if 0 <= i < cells.Length && cells[i].tag.Some? {
        var word := cells[i].tag.value;
        assert word in words by {
          assert CellMatches(b[i], i, words, Starts(rows, offsets));
        }
        cells[i] := cells[i].(popped := true);
        assert cells[..] == b';
        CheckWordCompletion(word);
      }
    }

    /**
      A mouse press on a letter block pops it, whatever the mouse state. The handler is
      attached only to the blocks a word was written into.
    */
    method HandleBlockClick(i: int)
      requires Valid() && IsLetterBlock(cells[..], i)
      modifies this`found, this`won, cells
      ensures Valid() && cells[..] == Pop(old(cells[..]), i)
      ensures old(found) <= found && (old(won) ==> won)
      ensures won <==> forall j :: IsLetterBlock(cells[..], j) ==> cells[j].popped
    {
      PopBlock(i);
    }

    /**
      The mouse entering a letter block pops it only while the button is held. Like the
      click handler, it is attached only to letter blocks.
    */
    method HandleBlockHover(i: int)
      requires Valid() && IsLetterBlock(cells[..], i)
      modifies this`found, this`won, cells
      ensures Valid()
      ensures cells[..] == if mouseDown then Pop(old(cells[..]), i) else old(cells[..])
      ensures !mouseDown ==> found == old(found) && won == old(won)
      ensures old(found) <= found && (old(won) ==> won)
      ensures won <==> forall j :: IsLetterBlock(cells[..], j) ==> cells[j].popped
    {
      if mouseDown {
        PopBlock(i);
      } else {
        WinIffAllPopped(cells[..], words, rows, offsets);
      }
    }

    /**
      A mouse move over the board pops the block under the pointer, `i`, only while the
      button is held and only when it is a letter block; an `i` outside the board stands
      for a pointer over no block.
    */
    method HandleMouseMove(i: int)
      requires Valid()
      modifies this`found, this`won, cells
      ensures Valid()
      ensures cells[..] == if mouseDown then Pop(old(cells[..]), i) else old(cells[..])
      ensures !mouseDown ==> found == old(found) && won == old(won)
      ensures old(found) <= found && (old(won) ==> won)
      ensures won <==> forall j :: IsLetterBlock(cells[..], j) ==> cells[j].popped
    {
      if mouseDown {
        PopBlock(i);
      } else {
        WinIffAllPopped(cells[..], words, rows, offsets);
      }
    }

    /**
      A touch move pops the block under the finger whenever it is a letter block, whatever
      the mouse state; an `i` outside the board stands for a finger over no block.
    */
    method HandleTouchMove(i: int)
      requires Valid()
      modifies this`found, this`won, cells
      ensures Valid() && cells[..] == Pop(old(cells[..]), i)
      ensures old(found) <= found && (old(won) ==> won)
      ensures won <==> forall j :: IsLetterBlock(cells[..], j) ==> cells[j].popped
    {
      PopBlock(i);
    }

    /** Pressing the mouse button on the board. */
    method PressMouse()
      modifies this`mouseDown
      ensures mouseDown
    {
      mouseDown := true;
    }

    /** Releasing the mouse button on the board. */
    method ReleaseMouse()
      modifies this`mouseDown
      ensures !mouseDown
    {
      mouseDown := false;
    }
  }
}
