# Word search board, modelled in Dafny

This project models the board engine of the word-search game component
(`images/WordSearch.jsx`): a 10x10 board of 100 blocks, three colour words hidden in
three distinct rows and read left to right, the other blocks filled with random
letters, and a player who pops letter blocks by clicking, by dragging the mouse with
the button held, or by dragging a finger. A word is found when all of its blocks are
popped; the board is won when all three words are found. "New Puzzle" clears the
winner flag and sets a new game up.

The model has three modules:

- `Layout` (`layout.dfy`): the board geometry, the nine-word vocabulary, the choice of
  three words from a shuffle, the rejection loop that picks three distinct rows
  (`ChooseRows`, a method with a loop, as in the component), and the arrangement of the
  words. `Owner` says which word's span covers a block; the lemmas show that every word
  stays in its own row and that no two words share a block.
- `Cells` (`cells.dfy`): a block as a value (letter, word tag, first/last-letter markers,
  popped), the board invariant `WellFormed`, the game invariant `InPlay` (the found
  words are exactly the listed words all of whose blocks are popped, and the board is
  won exactly when three are found), the block count the completion check takes, and
  the lemmas about popping, counting and winning.
- `WordSearch` (`word_search.dfy`): the component as a class `Puzzle` whose `cells` array
  is updated in place, with fields for the listed words, the found words, the winner
  flag and the mouse state. Each setup step and each event handler is a method proved
  against the value-level definitions of `Cells` and `Layout`. The four selection
  handlers keep `Valid()` (the game invariant) and state that found words and the winner
  flag only grow, and that the board is won exactly when every letter block is popped;
  the press and release handlers change only the mouse state.

Randomness is a parameter: the shuffle of the vocabulary is a permutation `order`, the
row draws are a finite stream `rowDraws` of values in `[0, 10)`, the offsets are
`offsetDraws`, and the fill letters are indices `fillDraws` into `a`-`z`. The page
(document queries, classes, styles) is replaced by the fields of `Puzzle`: the class
`letter_pop` is `popped`, the word class is `tag`, the `found_word` list entries are the
set `found`, and `game_winner` on the board is `won`. An event on a block is given as
the block's index.

## Model

| member | source | states |
|---|---|---|
| Layout.VocabularyFacts | images/WordSearch.jsx:60-62 | the nine vocabulary words are distinct, non-empty, lower-case and at most nine letters long, so each fits in a row |
| Layout.Shuffled | images/WordSearch.jsx:63 | the shuffled vocabulary has the vocabulary's nine words, each once, in the order the permutation gives |
| Layout.SelectWords | images/WordSearch.jsx:63-64 | the puzzle's words are three distinct vocabulary words, each shorter than a row |
| Layout.ChooseRows | images/WordSearch.jsx:66-70 | the loop keeps the first three distinct row draws, in the order drawn; the rows are distinct and on the board |
| Layout.Dedup | images/WordSearch.jsx:66-70 | the rows the loop keeps from a stream of draws, never more than there were draws; `ChooseRows` returns its first three |
| Layout.DedupFacts | images/WordSearch.jsx:69 | keeping a draw only when it is new yields no repeats and loses no drawn value |
| Layout.DedupPrefix | images/WordSearch.jsx:67-70 | the rows kept after some draws are a prefix of the rows kept after more draws |
| Layout.Start | images/WordSearch.jsx:74 | the first block of a word at `offset` in row `row` is in row `row`, column `offset` |
| Layout.SpanInRow | images/WordSearch.jsx:73-74 | a word written from `offset + row * 10` with `offset <= 10 - length` lies on the board, inside row `row`, column `offset + idx` for letter `idx` |
| Layout.SpansDisjoint | images/WordSearch.jsx:66-76 | two different words, being in different rows, never share a block |
| Layout.Owner | images/WordSearch.jsx:72-76 | a block either lies in the span of the word that owns it, or in the span of no word |
| Layout.OwnerExtend | images/WordSearch.jsx:72-76 | placing one more word changes the owner of exactly the blocks in its span |
| Layout.OwnerOfSpan | images/WordSearch.jsx:72-76 | every block of word `k`'s span is owned by word `k` |
| Layout.SpanFree | images/WordSearch.jsx:72-76 | when word `k` is placed, no earlier word owns any block of its span, so nothing is overwritten |
| Layout.SpanFreeAll | images/WordSearch.jsx:72-76 | word `k`'s span lies on the board and none of its blocks is owned by an earlier word |
| Cells.AlphabetFacts | images/WordSearch.jsx:142-143 | the fill alphabet has 26 letters, all lower-case |
| Cells.Written | images/WordSearch.jsx:43-47 | a block written with letter `idx` of a word gets that letter and the word's class, keeps its popped state, and on a blank block is marked first exactly at `idx == 0` and last exactly at the word's last letter |
| Cells.WriteWord | images/WordSearch.jsx:41-47 | writing a word from `start` gives each block of its span its letter and the word's class, and changes no other block |
| Cells.FoundWords | images/WordSearch.jsx:13-15 | the words marked found are listed words, and every listed word all of whose blocks are popped is among them |
| Cells.Pop | images/WordSearch.jsx:116-119 | popping changes only block `i`, only sets its popped flag, and leaves a block that is not a letter block alone |
| Cells.PopMonotone | images/WordSearch.jsx:25 | popping never unpops a block, is idempotent and only ever pops letter blocks |
| Cells.FoundAfterPop | images/WordSearch.jsx:10-21 | after a pop a found word stays found, and only the popped block's own word can become found |
| Cells.PoppedCount | images/WordSearch.jsx:11 | the number of blocks carrying the word's class and `letter_pop`, never more than the board's blocks |
| Cells.TaggedCount | images/WordSearch.jsx:41-44 | the number of blocks carrying the word's class, never more than the board's blocks |
| Cells.PoppedCountComplete | images/WordSearch.jsx:11-12 | the popped blocks of a word never outnumber its blocks, and equal them exactly when all are popped |
| Cells.TaggedCountOfSpan | images/WordSearch.jsx:41-44 | blocks tagged with a word exactly over one span number the span's length |
| Cells.TagIffSpan | images/WordSearch.jsx:41-44 | on a set-up board a block carries word `k`'s class exactly when it lies in word `k`'s span |
| Cells.TaggedCountOfWord | images/WordSearch.jsx:41-44 | on a set-up board each word has exactly as many blocks as letters |
| Cells.CompletionIffFound | images/WordSearch.jsx:11-12 | the completion test (popped blocks of the word number its letters) holds exactly when every block of the word is popped |
| Cells.NoneFoundUnpopped | images/WordSearch.jsx:80-86 | on a fresh board no word is found, since every word has at least one block |
| Cells.DistinctCard | images/WordSearch.jsx:64 | a set-cardinality helper for the win count: three distinct listed words make a set of three |
| Cells.SubsetCard | images/WordSearch.jsx:106 | a set-cardinality helper for the win count: a subset has at most as many elements, and as many only when equal |
| Cells.FoundGap | images/WordSearch.jsx:13-18 | a set-algebra helper for the completion check: when the found list lacks at most the checked word, adding that word when it is complete makes the list exact |
| Cells.WinIffAllPopped | images/WordSearch.jsx:105-108 | at most three words are ever found, and all three are found exactly when every letter block is popped |
| Cells.LaidExtendAt | images/WordSearch.jsx:41-47 | writing a word over a free block makes it match the new word; any other block keeps its match |
| Cells.LaidExtend | images/WordSearch.jsx:41-47 | writing a word over free blocks extends the laid-out words by that word and keeps the rest of the board blank and unpopped |
| Cells.PopKeepsWellFormed | images/WordSearch.jsx:25 | popping changes no letter, class or marker, so a set-up board stays set up |
| Cells.PlaceReady | images/WordSearch.jsx:72-75 | before word `k` is placed its span is on the board and carries no word |
| Cells.PlaceStep | images/WordSearch.jsx:72-76 | placing word `k` extends the layout to the first `k + 1` words, all other blocks blank |
| Cells.FillStep | images/WordSearch.jsx:138-147 | filling the empty blocks of a placed board gives a set-up board with every block lettered `a`-`z`, nothing popped or found, and the drawn letter in every block no word owns |
| WordSearch.Puzzle.constructor | images/WordSearch.jsx:149-159 | mounting sets a game up: invariant holds, the three selected words in the first three distinct drawn rows at the drawn offsets, the drawn letter in every block no word owns, nothing found or popped, not won, mouse up |
| WordSearch.Puzzle.InitializeBlocks | images/WordSearch.jsx:88-96 | the board is replaced by 100 new blocks, all blank |
| WordSearch.Puzzle.PlaceWord | images/WordSearch.jsx:39-52 | the new board is the old one with the word written from `start`: letters, word class, first and last markers, nothing else changed |
| WordSearch.Puzzle.InitializeWords | images/WordSearch.jsx:55-78 | the word list is cleared and refilled with the selected words; the rows are the first three distinct draws; every word is written in its own row and the other blocks stay blank |
| WordSearch.Puzzle.FillEmptyBlocks | images/WordSearch.jsx:138-147 | every empty block gets the drawn letter, blocks with a letter are unchanged, and afterwards no block is empty |
| WordSearch.Puzzle.SetGameUp | images/WordSearch.jsx:80-86 | a new set-up board with the selected words in the chosen rows at the drawn offsets, nothing popped or found, drawn letters elsewhere; the invariant holds when the winner flag is clear |
| WordSearch.Puzzle.NewPuzzle | images/WordSearch.jsx:170-176 | the winner flag is cleared and a new game set up: the selected words in the first three distinct drawn rows at the drawn offsets, the drawn letter in every block no word owns; the invariant holds, nothing found or popped |
| WordSearch.Puzzle.CheckWinCondition | images/WordSearch.jsx:105-109 | the board becomes won when three words are found, and a won board stays won |
| WordSearch.Puzzle.CheckWordCompletion | images/WordSearch.jsx:10-21 | after a pop of `word`'s block, the found list again holds exactly the words all of whose blocks are popped and the winner flag again means three found |
| WordSearch.Puzzle.PopBlock | images/WordSearch.jsx:25-27 | the board is popped at `i`; the invariant is kept; found words and the winner flag only grow, only by the popped block's word; the board is won exactly when every letter block is popped |
| WordSearch.Puzzle.HandleBlockClick | images/WordSearch.jsx:24-28 | a press on a letter block pops it, keeps the invariant, and the board is won exactly when every letter block is popped |
| WordSearch.Puzzle.HandleBlockHover | images/WordSearch.jsx:30-36 | entering a letter block pops it exactly when the button is held; otherwise nothing changes |
| WordSearch.Puzzle.HandleMouseMove | images/WordSearch.jsx:125-135 | a move pops the letter block under the pointer exactly when the button is held; otherwise nothing changes |
| WordSearch.Puzzle.HandleTouchMove | images/WordSearch.jsx:111-122 | a touch move pops the letter block under the finger, keeping the invariant |
| WordSearch.Puzzle.PressMouse | images/WordSearch.jsx:151 | pressing the button on the board sets the mouse state to held |
| WordSearch.Puzzle.ReleaseMouse | images/WordSearch.jsx:152 | releasing the button sets the mouse state to released |

## Left out

- `script.js` (the page's other script) is not part of this model.
- React plumbing is not modelled: `useState`, `useCallback` memoisation, the
  `gameInitialized` flag and the effect that re-runs when its dependencies change, the
  registration and removal of board listeners (the `mousedown` and `mouseup` removals pass
  new functions and so remove nothing; the `mousemove` and `touchmove` removals do). Mounting is the
  constructor, which sets one game up; the extra setup the effect may run after "New
  Puzzle" resets `gameInitialized` is not modelled.
- WordSearch.Puzzle.HandleBlockHover: reads the current mouse state. In the component the
  hover handler is bound to each block when the words are placed and may keep the mouse
  state of that moment; that stale capture is React closure behaviour and is left out.
- Hit testing (`elementFromPoint`, reading the word from `classList[2]`) is replaced by
  the index of the block under the pointer; an index off the board stands for no block.
- Styling is left out: the `--bg-color` property, each popped block's background colour,
  and the look of `game_winner` (kept only as the flag `won`).
- The list elements of the word list are the sequence `words`; their markup is left out.
- `Math.random` is left out: the sort-based shuffle is any permutation of the vocabulary
  (its bias is not modelled), the row loop reads a finite stream of draws, and the offsets
  and fill letters are given. Layout.ChooseRows: requires the stream to hold three
  distinct rows; a stream that never does so, on which the component's loop would not
  end, is not modelled.
- Cells.FillStep and WordSearch.Puzzle.FillEmptyBlocks: take one letter draw per block and
  use it only for empty blocks; the component draws only for empty blocks, in board order.
  The set of boards that can result is the same.
- WordSearch.Puzzle.PlaceWord: requires the target blocks to carry no word yet, because a
  block's word class is one optional value here; the setup always meets this
  (`Cells.PlaceReady`), so a block with two word classes never arises.
- WordSearch.Puzzle.SetGameUp: leaves the winner flag as it is, as the component does,
  and promises the game invariant only when the flag is clear; both callers clear it.
- The component has no more than the model shows: it does not check that a selection is a
  straight line (blocks are popped one by one), places words only horizontally, never
  lets two words overlap (each word has its own row), has no limit on placement retries
  and shows no win banner (the board only gets the `game_winner` class).
