# MacWords engine and input line, in Dafny

MacWords is a five-letter word-guessing game for the classic Macintosh. This
project models its game engine and the board window's input-line logic, and
proves properties of both. Each C++ source file maps to Dafny modules:

- `words.dfy` (`Words`): guess words (five letters `'A'..'Z'`) and the byte
  order that `memcmp`/`strncmp` use to compare them, proved to be a strict
  total order.
- `dictionary.dfy` (`Dictionary`): the three word lists, the recursive
  `binSearch`, `checkWord` and `getWord`.
  - A list is modelled as the text of its resource: entry `i` is at offset
    `i * 6`, and each five-letter word is followed by a separator byte.
    This is how the source indexes the lists.
- `scoring.dfy` (`Scoring`): the `letterScore` enum and a reference
  definition of the score row that `makeGuess` computes.
  - `CellScore` gives each cell's score in closed form, as the code computes
    it.
  - Lemmas about `CellScore`: the bound on displaced matches, the winning
    condition, absent letters, and the best-hint fold `alphabetAdd` performs.
- `engine.dfy` (`GameEngine`): the `Engine` class.
  - The class holds the same fields as the source: the 6×5 `guesses` and
    `scores` tables, the 26-entry `alphabet`, the NUL-terminated
    `selectedWord`, and the counters.
  - `newGame`, `alphabetAdd` and `makeGuess` are methods that update those
    arrays in place, `newGame` and `makeGuess` in loops.
  - `makeGuess`'s three scoring loops are proved to produce exactly
    `ScoreRow(word, answer)`.
  - The object invariant `Valid()` says every committed row is the score row
    of its guess, and ties `numCorrectLetters` to the latest guess.
- `board.dfy` (`InputBoard`): the `Board` class's input line (`curGuess`,
  `curGuessLen`), with `process_key`, `clear` and `newGame`, plus the
  C-to-Pascal string copy `c2pstrcpy_cust`.

How `makeGuess` scores a row, as the code does it:

1. Every cell is first set to `NoMatch`.
2. An exact match becomes `Correct` and claims its answer position.
3. The displaced pass looks up **only the first occurrence** of each guessed
   letter in the answer (`strchr`). If that position is unclaimed, the cell
   becomes `WrongPos` and claims it.
   - This pass does not skip cells that were already `Correct`. Answer
     `ABACK` with guess `XXAXX` scores cell 2 `WrongPos`
     (`Scoring.DisplacedOverwritesExact`).
   - A second copy of a letter is never found (`Scoring.FirstOccurrenceOnly`).

Consequences of the code that the model records:

- `newGame` resets only `numGuesses`, `numCorrectLetters` and the hints; it
  does not clear the guess and score tables, so old rows stay in the arrays.
  They are outside the object invariant, which covers only rows below
  `numGuesses`.
- Answer `CRANE` with guess `TRACE` scores
  `[NoMatch, Correct, Correct, WrongPos, Correct]`, because the `A` is an
  exact match (`Scoring.CraneTrace`).
- Because only first occurrences are looked up, the textbook per-letter count
  of `WrongPos` cells, `min(m-j, k-j)` for a letter that occurs k times in the
  answer and m times in the guess with j exact matches, does not hold. The
  model proves the bounds that do hold: at most one `WrongPos` per distinct
  letter, and at most `5 - numCorrectLetters` `WrongPos` cells in total.
- `numCorrectLetters` is the number of exact matches, which can differ from
  the number of `Correct` cells left in the row: answer `ABACK` with guess
  `XXAXX` has one exact match and no `Correct` cell.

Inputs the model takes as parameters:

- The Toolbox `Random()` result is a parameter `r` with
  `RAND_MIN <= r <= RAND_MAX`.
- The three word lists arrive already loaded, as the constructor's
  arguments.

## Model

| member | source | states |
|---|---|---|
| Words.LetterIndex | engine.cc:163-165 | a letter `'A'..'Z'` maps to a hint index in `[0, ALPHABET_LENGTH)`, and `Letter` maps it back |
| Words.Compare | engine.cc:216 | the `memcmp` of two words is zero iff they are equal, negative iff the first is lexicographically smaller, positive iff it is larger |
| Words.LessIrreflexive | engine.cc:232-249 | no word is below itself |
| Words.LessAsymmetric | engine.cc:232-249 | the order used by the search is asymmetric |
| Words.LessTransitive | engine.cc:232-249 | the order used by the search is transitive, which is what lets a midpoint test discard half the range |
| Words.LessTotal | engine.cc:232-249 | any two distinct words are ordered one way or the other |
| Dictionary.BelowIsAbsent | engine.cc:240-249 | a word strictly below (or above) the midpoint entry differs from every entry on the other side of a sorted list |
| Dictionary.BinSearch | engine.cc:208-253 | on a sorted strided list, the search returns TRUE iff the word equals some entry with index in `[start, end)`; it terminates because the range shrinks |
| Dictionary.CheckWord | engine.cc:169-206 | the result is TRUE iff the word is in the daily list, or equals the split word, or is below it and in list A, or is above it and in list B |
| Dictionary.CheckWordIsMembership | engine.cc:49-53 | when list A lies below the split word and list B starts with it, checkWord accepts exactly the words of the three lists |
| Dictionary.GetWord | engine.cc:85-93 | `ret` receives bytes `num*6 .. num*6+4` of the list followed by a NUL, and nothing after them changes |
| Scoring.Max | engine.cc:163-166 | the better of two scores in enum order, one of the two |
| Scoring.FirstIndex | engine.cc:130 | `strchr`: the position of the first occurrence of the letter, or the length when it is absent |
| Scoring.CellScore | engine.cc:110-137 | reference definition of one cell after the three loops: `WrongPos` when the first occurrence k of the letter in the answer is not an exact match and the letter first occurs in the guess at this cell, else `Correct` on an exact match, else `NoMatch`; `GameEngine.Engine.DisplacedPass` proves the loops equal to it |
| Scoring.ScoreRow | engine.cc:110-137 | reference definition of the whole score row, cell by cell `CellScore`; its properties are the lemmas below |
| Scoring.DisplacedStep | engine.cc:128-137 | one step of the displaced pass: the cell becomes `WrongPos` and claims the first occurrence exactly when that occurrence exists and is unclaimed, otherwise keeps its exact-pass score |
| Scoring.PartitionUpTo | engine.cc:117-125 | among the first n cells, exact and non-exact ones number n |
| Scoring.ExactInexactPartition | engine.cc:117-125 | every cell is either an exact match or not, so the two counts add to `WORD_LENGTH` |
| Scoring.CorrectIsExact | engine.cc:117-137 | a cell scored `Correct` holds the answer's letter at that position |
| Scoring.AbsentLetterIsNoMatch | engine.cc:111-114 | a cell whose letter does not occur in the answer stays `NoMatch` |
| Scoring.WrongPosHasFreeOccurrence | engine.cc:130-136 | a `WrongPos` cell's letter occurs in the answer, and its first occurrence there is not an exact match |
| Scoring.AtMostOneWrongPosPerLetter | engine.cc:130-136 | two cells with the same letter are never both `WrongPos`, because both would claim the same first occurrence |
| Scoring.ClaimInjective | engine.cc:132-135 | two `WrongPos` cells never claim the same answer position |
| Scoring.InjectiveBound | engine.cc:132-135 | cells that claim distinct positions from a set are no more numerous than the set |
| Scoring.WrongPosBound | engine.cc:104-137 | the number of `WrongPos` cells is at most `WORD_LENGTH` minus the number of exact matches, since each answer position is claimed at most once |
| Scoring.AllCorrectIffAnswer | engine.cc:117-137 | the row is all `Correct` iff the guess is the answer |
| Scoring.AllExactIffAnswer | engine.cc:117-125 | all five positions match exactly iff the guess is the answer |
| Scoring.DisplacedOverwritesExact | engine.cc:128-137 | answer `ABACK`, guess `XXAXX`: the exact match in cell 2 is overwritten with `WrongPos` |
| Scoring.FirstOccurrenceOnly | engine.cc:130 | answer `ALLOW`, guess `LLAMA`: the first `L` is `NoMatch` although the answer has a second, unclaimed `L` |
| Scoring.CraneTrace | engine.cc:104-137 | answer `CRANE`, guess `TRACE` scores `[NoMatch, Correct, Correct, WrongPos, Correct]` |
| Scoring.BestHint | engine.cc:139-143 | folding a row into a hint never lowers it, reaches every score given to that letter, and is either the old hint or one of those scores |
| Scoring.BestHintStep | engine.cc:139-141 | folding one more cell into a hint raises it to the cell's score only when the cell holds that letter |
| Scoring.HintsStep | engine.cc:141 | folding one more cell into the whole hint table changes only the entry of the cell's letter, to the higher of it and the cell's score |
| GameEngine.DailyIndex | engine.cc:75-78 | for `r` in `[RAND_MIN, RAND_MAX]`, `(r + -RAND_MIN) % NUM_DAILY_WORDS` is a valid index of the daily list |
| GameEngine.Engine.constructor | engine.cc:26-56 | the split word is the first entry of list B, and a first game is started |
| GameEngine.Engine.NewGame | engine.cc:63-83 | every hint becomes `Unknown`, both counters become 0, the answer becomes daily entry `DailyIndex(r)`, the invariant holds and the game is not done |
| GameEngine.Engine.AlphabetAdd | engine.cc:160-167 | the letter's hint becomes the higher of it and the score; no other hint changes |
| GameEngine.Engine.MakeGuess | engine.cc:95-148 | a rejected word changes nothing; an accepted one is written to row `numGuesses` with score row `ScoreRow(word, answer)`, `numCorrectLetters` becomes the number of exact matches, each hint becomes its `BestHint`, other rows are untouched and `numGuesses` grows by one |
| GameEngine.Engine.Commit | engine.cc:104-147 | the accepted branch: row `numGuesses` gets the word and `ScoreRow(word, answer)`, the exact-match count, every hint's `BestHint`, other rows untouched, `numGuesses` one higher, and the invariant kept |
| GameEngine.Engine.ScoreRowInto | engine.cc:104-137 | row g of `scores` becomes `ScoreRow(word, answer)` and `numCorrectLetters` the number of exact matches; other rows are untouched |
| GameEngine.Engine.ExactPass | engine.cc:116-125 | exact matches become `Correct` and claim their position; `numCorrectLetters` counts them |
| GameEngine.Engine.DisplacedPass | engine.cc:127-137 | from the exact pass's row and flags, the displaced pass yields `ScoreRow(word, answer)` |
| GameEngine.Engine.RecordGuess | engine.cc:139-143 | row g of `guesses` becomes the word, and each hint becomes `BestHint` of its old value over the new row |
| GameEngine.Engine.HasWon | engine.cc:150-153 | `hasWon()`: `numCorrectLetters == WORD_LENGTH`; what it means for the game is proved by the two lemmas below |
| GameEngine.Engine.GameDone | engine.cc:155-158 | `gameDone()`: won, or all `NUM_OF_GUESSES` rows used; its meaning is proved by `GameDoneIffAnsweredOrFull` |
| GameEngine.Engine.HasWonIffLastRowAllCorrect | engine.cc:150-153 | under the invariant, `hasWon()` holds iff the latest row is all `Correct` |
| GameEngine.Engine.HasWonIffGuessedAnswer | engine.cc:150-153 | under the invariant, `hasWon()` holds iff the latest accepted guess is the answer |
| GameEngine.Engine.GameDoneIffAnsweredOrFull | engine.cc:155-158 | under the invariant, `gameDone()` holds iff the latest accepted guess is the answer or every row is used |
| InputBoard.IsKey | ui_main.cc:221-224 | the keys the event loop passes to `process_key`: an upper-cased letter, Return or Backspace; it is `ProcessKey`'s precondition |
| InputBoard.Board.constructor | board.cc:33-47 | the engine holds exactly the three given lists and starts a game: the input line is empty, both counters are 0, every hint is `Unknown`, the game is not done and the answer is daily entry `DailyIndex(r)` |
| InputBoard.Board.ProcessKey | board.cc:261-321 | a finished game ignores the key; Return with fewer than five letters changes nothing; Return with five letters NUL-terminates the buffer, keeps the answer, submits the word and empties the line iff the engine accepts it: an accepted word gets the new row, its score row, the exact-match count, the `BestHint` of every hint and the frame of the other rows that `makeGuess` promises, a rejected one leaves the engine's tables and counters as they were; Backspace drops the last letter when there is one; a letter is appended only while there is room, otherwise the buffer is unchanged; `0 <= curGuessLen <= WORD_LENGTH` is kept |
| InputBoard.Board.Submit | board.cc:271-294 | Return on a full line: the buffer is NUL-terminated and submitted, the answer is unchanged, the line is emptied iff the engine accepts the word, and the engine's state is what `makeGuess` promises for acceptance or rejection |
| InputBoard.Board.Clear | board.cc:329-332 | the input line becomes empty |
| InputBoard.Board.NewGame | board.cc:323-327 | the input line is emptied and the engine starts a new game: both counters 0, every hint `Unknown`, the answer daily entry `DailyIndex(r)`, the guess and score tables unchanged, the game not done |
| InputBoard.StrLen | board.cc:393 | `strlen`: the number of bytes before the first NUL |
| InputBoard.PascalLength | board.cc:393-398 | the length byte is `strlen` modulo 256, with 255 lowered to 254; it never exceeds 254 and equals `strlen` for strings shorter than 255 bytes |
| InputBoard.LongStringWraps | board.cc:393-398 | a 300-byte string gets length byte 44: the cap applies after the conversion to `unsigned char` |
| InputBoard.CopyCToPascal | board.cc:391-402 | `dest[0]` is the length byte, the next that many bytes are the start of `src`, and the rest of `dest` is unchanged |

## Left out

- Resource loading (`GetResource`, `HLock`/`HUnlock`) and the `SysBeep` calls
  when a resource is missing are not modelled. The lists are constructor
  arguments that the model assumes are well formed and sorted.
- `Random()` is a Toolbox call. Its result is a parameter.
- `SysBeep`, the `printf` diagnostics and `alphabetPrint` only produce output,
  so they are not modelled.
- `Board::createScoreWindow`, called by `process_key` after a winning or
  final guess, opens a window. It is not modelled.
- The board's drawing and layout code is not part of this model, and neither
  is the rest of the user interface:
  - board: `draw`, `draw_board`, `draw_letter`, `init`'s colour patterns,
    `cleanup`, `canCreateGWorld`, `resized`;
  - `ui_main.cc` and `windows.cc`. The event loop's filter (upper-case the
    character, keep letters, Return and Backspace) becomes the precondition
    `InputBoard.IsKey` of `ProcessKey`.
- `GameEngine.Engine.MakeGuess`: requires `numGuesses < NUM_OF_GUESSES`. The
  source does not check this itself; its only caller checks `gameDone()`
  first, and without the check the write to `scores` would be out of bounds.
- `GameEngine.Engine.MakeGuess`: takes a five-letter upper-case word. The source
  takes a NUL-terminated `char*`, and a non-letter byte would index
  `alphabet` outside its 26 entries.
- `getSelectedWord` only returns the answer buffer. It is not modelled as a
  separate member; the ghost function `Answer()` stands for it in
  specifications only.
