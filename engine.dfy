/** The game state of one round and the operations on it (engine.hh, engine.cc). */
module GameEngine {
  import opened Words
  import opened Dictionary
  import opened Scoring

  const NUM_OF_GUESSES: nat := 6
  /** The range of the Toolbox `Random()` (engine.hh:26-27). */
  const RAND_MIN: int := -32767
  const RAND_MAX: int := 32767

  /** `(Random() + -RAND_MIN) % NUM_DAILY_WORDS` for a Random() result r. */
  function DailyIndex(r: int): (k: int)
    requires RAND_MIN <= r <= RAND_MAX
    ensures 0 <= k < NUM_DAILY_WORDS
    ensures k == (r - RAND_MIN) - ((r - RAND_MIN) / NUM_DAILY_WORDS) * NUM_DAILY_WORDS
  {
    (r + -RAND_MIN) % NUM_DAILY_WORDS
  }

  /** Advancing the boundary of a prefix-of-a, suffix-of-b splice by one cell. */
  lemma SpliceStep<T>(a: seq<T>, b: seq<T>, i: nat)
    requires |a| == |b| && i < |a|
    ensures a[..i + 1] + b[i + 1..] == (a[..i] + b[i..])[i := a[i]]
  {
  }

  class Engine {
    var numGuesses: int
    const guesses: array2<char>
    const scores: array2<LetterScore>
    const alphabet: array<LetterScore>
    /** The answer, NUL-terminated. */
    const selectedWord: array<char>
    /** The first word of list B. */
    const splitWord: Word
    var numCorrectLetters: int
    /** The three word-list resources, already loaded. */
    const dailyWords: seq<char>
    const allWordsA: seq<char>
    const allWordsB: seq<char>

    ghost const Repr: set<object>

    /** The shape of the state and the loaded lists. */
    ghost predicate Structure()
      reads this
    {
      && Repr == {this, guesses, scores, alphabet, selectedWord}
      && guesses.Length0 == NUM_OF_GUESSES && guesses.Length1 == WORD_LENGTH
      && scores.Length0 == NUM_OF_GUESSES && scores.Length1 == WORD_LENGTH
      && alphabet.Length == ALPHABET_LENGTH
      && selectedWord.Length == WORD_LENGTH + 1
      && ValidLists(dailyWords, allWordsA, allWordsB)
      && splitWord == Entry(allWordsB, 0)
    }

    /** The object invariant: the guesses so far, each scored against the answer. */
    ghost predicate Valid()
      reads Repr
    {
      && this in Repr
      && Structure()
      && 0 <= numGuesses <= NUM_OF_GUESSES
      && IsWord(selectedWord[..WORD_LENGTH]) && selectedWord[WORD_LENGTH] == '\0'
      && (forall r :: 0 <= r < numGuesses ==> IsWord(GuessRow(r)))
      && (forall r :: 0 <= r < numGuesses ==> ScoreRowAt(r) == ScoreRow(GuessRow(r), Answer()))
      && numCorrectLetters == (if numGuesses == 0 then 0 else |Exact(GuessRow(numGuesses - 1), Answer())|)
    }

    ghost function Answer(): Word
      reads this, selectedWord
      requires selectedWord.Length == WORD_LENGTH + 1 && IsWord(selectedWord[..WORD_LENGTH])
    {
      selectedWord[..WORD_LENGTH]
    }

    ghost function GuessRow(r: int): seq<char>
      reads this, guesses
      requires 0 <= r < guesses.Length0 && guesses.Length1 == WORD_LENGTH
    {
      seq(WORD_LENGTH, i requires 0 <= i < WORD_LENGTH reads guesses => guesses[r, i])
    }

    ghost function ScoreRowAt(r: int): seq<LetterScore>
      reads this, scores
      requires 0 <= r < scores.Length0 && scores.Length1 == WORD_LENGTH
    {
      seq(WORD_LENGTH, i requires 0 <= i < WORD_LENGTH reads scores => scores[r, i])
    }

    /** What `checkWord` accepts, over this engine's lists. */
    ghost predicate Accepts(w: Word)
      requires ValidLists(dailyWords, allWordsA, allWordsB)
    {
      Accepted(dailyWords, allWordsA, allWordsB, splitWord, w)
    }

    predicate HasWon()
      reads this
    {
      numCorrectLetters == WORD_LENGTH
    }

    predicate GameDone()
      reads this
    {
      HasWon() || numGuesses == NUM_OF_GUESSES
    }

    /** `Engine::Engine`: the lists come in loaded, the split word is the first
        entry of list B, and a first game is started with Random() result r. */
    constructor (daily: seq<char>, listA: seq<char>, listB: seq<char>, r: int)
      requires ValidLists(daily, listA, listB)
      requires RAND_MIN <= r <= RAND_MAX
      ensures Valid() && fresh(Repr)
      ensures dailyWords == daily && allWordsA == listA && allWordsB == listB
      ensures splitWord == Entry(listB, 0)
      ensures numGuesses == 0 && numCorrectLetters == 0
      ensures forall c :: 0 <= c < ALPHABET_LENGTH ==> alphabet[c] == Unknown
      ensures Answer() == Entry(daily, DailyIndex(r))
    {
      dailyWords, allWordsA, allWordsB := daily, listA, listB;
      splitWord := Entry(listB, 0);
      guesses := new char[NUM_OF_GUESSES, WORD_LENGTH];
      scores := new LetterScore[NUM_OF_GUESSES, WORD_LENGTH];
      alphabet := new LetterScore[ALPHABET_LENGTH];
      selectedWord := new char[WORD_LENGTH + 1];
      Repr := {this, guesses, scores, alphabet, selectedWord};
      new;
      NewGame(r);
    }

    /** `Engine::newGame`: clear the hints and counters and select daily word
        DailyIndex(r). The guess and score tables are not cleared. */
    method NewGame(r: int)
      requires Structure()
      requires RAND_MIN <= r <= RAND_MAX
      modifies this, alphabet, selectedWord
      ensures Valid()
      ensures numGuesses == 0 && numCorrectLetters == 0
      ensures forall c :: 0 <= c < ALPHABET_LENGTH ==> alphabet[c] == Unknown
      ensures Answer() == Entry(dailyWords, DailyIndex(r))
      ensures !GameDone()
    {
      selectedWord[0] := '\0';
      for i := 0 to ALPHABET_LENGTH
        invariant forall c :: 0 <= c < i ==> alphabet[c] == Unknown
      {
        alphabet[i] := Unknown;
      }
      numGuesses := 0;
      numCorrectLetters := 0;
      var randWordNum := r + -RAND_MIN;
      randWordNum := randWordNum % NUM_DAILY_WORDS;
      GetWord(randWordNum, dailyWords, selectedWord);
    }

    /** `Engine::alphabetAdd`: raise the hint of letter to score if score is higher. */
    method AlphabetAdd(letter: char, score: LetterScore)
      requires IsUpper(letter) && alphabet.Length == ALPHABET_LENGTH
      modifies alphabet
      ensures alphabet[LetterIndex(letter)] == Max(old(alphabet[LetterIndex(letter)]), score)
      ensures forall c :: 0 <= c < ALPHABET_LENGTH && c != LetterIndex(letter) ==> alphabet[c] == old(alphabet[c])
    {
      var k := letter as int - 'A' as int;
      if score.Value() > alphabet[k].Value() {
        alphabet[k] := score;
      }
    }

    /** `Engine::makeGuess`. A word checkWord rejects changes nothing. An accepted
        word is written to row numGuesses with its score row, every hint is raised
        to the best score its letter received, numCorrectLetters becomes the number
        of exact matches, and numGuesses advances. */
    method MakeGuess(word: Word) returns (accepted: bool)
      requires Valid() && numGuesses < NUM_OF_GUESSES
      modifies this, guesses, scores, alphabet
      ensures Valid()
      ensures accepted == Accepts(word)
      ensures !accepted ==>
        && numGuesses == old(numGuesses) && numCorrectLetters == old(numCorrectLetters)
        && unchanged(guesses, scores, alphabet)
      ensures accepted ==>
        && numGuesses == old(numGuesses) + 1
        && GuessRow(old(numGuesses)) == word
        && ScoreRowAt(old(numGuesses)) == ScoreRow(word, Answer())
        && numCorrectLetters == |Exact(word, Answer())|
      ensures accepted ==> forall r, i :: 0 <= r < NUM_OF_GUESSES && r != old(numGuesses) && 0 <= i < WORD_LENGTH ==>
        guesses[r, i] == old(guesses[r, i]) && scores[r, i] == old(scores[r, i])
      ensures accepted ==> forall c :: 0 <= c < ALPHABET_LENGTH ==>
        alphabet[c] == BestHint(old(alphabet[c]), word, ScoreRow(word, Answer()), Letter(c))
    {
      accepted := CheckWord(dailyWords, allWordsA, allWordsB, splitWord, word);
      if accepted {
        Commit(word);
      }
    }

    /** The accepted branch of `makeGuess` (engine.cc:104-147): score the word into
        row numGuesses, fold that row into the hints, copy the word into the
        guesses and advance numGuesses. */
    method Commit(word: Word)
      requires Valid() && numGuesses < NUM_OF_GUESSES
      modifies this, guesses, scores, alphabet
      ensures Valid()
      ensures numGuesses == old(numGuesses) + 1
      ensures GuessRow(old(numGuesses)) == word
      ensures ScoreRowAt(old(numGuesses)) == ScoreRow(word, Answer())
      ensures numCorrectLetters == |Exact(word, Answer())|
      ensures forall r, i :: 0 <= r < NUM_OF_GUESSES && r != old(numGuesses) && 0 <= i < WORD_LENGTH ==>
        guesses[r, i] == old(guesses[r, i]) && scores[r, i] == old(scores[r, i])
      ensures forall c :: 0 <= c < ALPHABET_LENGTH ==>
        alphabet[c] == BestHint(old(alphabet[c]), word, ScoreRow(word, Answer()), Letter(c))
    {
      var g := numGuesses;
      ScoreRowInto(g, word);
      RecordGuess(g, word);
      numGuesses := numGuesses + 1;
      forall r | 0 <= r <= g
        ensures IsWord(GuessRow(r)) && ScoreRowAt(r) == ScoreRow(GuessRow(r), Answer())
      {
        if r < g {
          assert old(IsWord(GuessRow(r)) && ScoreRowAt(r) == ScoreRow(GuessRow(r), Answer()));
          assert GuessRow(r) == old(GuessRow(r)) && ScoreRowAt(r) == old(ScoreRowAt(r));
        } else {
          assert GuessRow(r) == word;
        }
      }
      assert GuessRow(numGuesses - 1) == word;
    }

    /** The three scoring loops of `makeGuess` (engine.cc:104-137): row g of scores
        becomes ScoreRow(word, Answer()) and numCorrectLetters the number of exact
        matches; no other row changes. */
    method ScoreRowInto(g: int, word: Word)
      requires 0 <= g < NUM_OF_GUESSES
      requires scores.Length0 == NUM_OF_GUESSES && scores.Length1 == WORD_LENGTH
      requires selectedWord.Length == WORD_LENGTH + 1 && IsWord(selectedWord[..WORD_LENGTH])
      modifies scores, this`numCorrectLetters
      ensures ScoreRowAt(g) == ScoreRow(word, Answer())
      ensures numCorrectLetters == |Exact(word, Answer())|
      ensures forall r, i :: 0 <= r < NUM_OF_GUESSES && r != g && 0 <= i < WORD_LENGTH ==> scores[r, i] == old(scores[r, i])
    {
      var consumed := new bool[WORD_LENGTH](_ => false);
      numCorrectLetters := 0;

      // Default to NoMatch
      for i := 0 to WORD_LENGTH
        modifies scores
        invariant forall j :: 0 <= j < i ==> scores[g, j] == NoMatch
        invariant forall r, j :: 0 <= r < NUM_OF_GUESSES && r != g && 0 <= j < WORD_LENGTH ==> scores[r, j] == old(scores[r, j])
      {
        scores[g, i] := NoMatch;
      }

      ExactPass(g, word, consumed);
      DisplacedPass(g, word, consumed);
    }

    /** The exact-match loop of `makeGuess` (engine.cc:115-125): a cell whose letter
        matches the answer in place becomes Correct and claims that answer position,
        and numCorrectLetters counts those cells. */
    method ExactPass(g: int, word: Word, consumed: array<bool>)
      requires 0 <= g < NUM_OF_GUESSES
      requires scores.Length0 == NUM_OF_GUESSES && scores.Length1 == WORD_LENGTH
      requires selectedWord.Length == WORD_LENGTH + 1 && IsWord(selectedWord[..WORD_LENGTH])
      requires consumed.Length == WORD_LENGTH && forall k :: 0 <= k < WORD_LENGTH ==> !consumed[k]
      requires numCorrectLetters == 0
      requires forall j :: 0 <= j < WORD_LENGTH ==> scores[g, j] == NoMatch
      modifies scores, consumed, this`numCorrectLetters
      ensures consumed[..] == Claimed(word, Answer(), 0)
      ensures forall j :: 0 <= j < WORD_LENGTH ==> scores[g, j] == ExactScore(word, Answer(), j)
      ensures numCorrectLetters == |Exact(word, Answer())|
      ensures forall r, i :: 0 <= r < NUM_OF_GUESSES && r != g && 0 <= i < WORD_LENGTH ==> scores[r, i] == old(scores[r, i])
    {
      ghost var answer := Answer();
      // Exact matches
      for i := 0 to WORD_LENGTH
        invariant forall j :: 0 <= j < WORD_LENGTH ==> scores[g, j] == if j < i then ExactScore(word, answer, j) else NoMatch
        invariant forall k :: 0 <= k < WORD_LENGTH ==> consumed[k] == (k < i && word[k] == answer[k])
        invariant numCorrectLetters == |ExactUpTo(word, answer, i)|
        invariant forall r, j :: 0 <= r < NUM_OF_GUESSES && r != g && 0 <= j < WORD_LENGTH ==> scores[r, j] == old(scores[r, j])
      {
        if word[i] == selectedWord[i] {
          scores[g, i] := Correct;
          consumed[i] := true;
          numCorrectLetters := numCorrectLetters + 1;
          assert ExactUpTo(word, answer, i + 1) == ExactUpTo(word, answer, i) + {i};
        } else {
          assert ExactUpTo(word, answer, i + 1) == ExactUpTo(word, answer, i);
        }
      }
      assert consumed[..] == Claimed(word, answer, 0);
    }

    /** The displaced-match loop of `makeGuess` (engine.cc:127-137): starting from
        the exact-pass row and flags, row g of scores becomes ScoreRow(word, Answer()). */
    method DisplacedPass(g: int, word: Word, consumed: array<bool>)
      requires 0 <= g < NUM_OF_GUESSES
      requires scores.Length0 == NUM_OF_GUESSES && scores.Length1 == WORD_LENGTH
      requires selectedWord.Length == WORD_LENGTH + 1 && IsWord(selectedWord[..WORD_LENGTH])
      requires consumed.Length == WORD_LENGTH
      requires consumed[..] == Claimed(word, Answer(), 0)
      requires forall j :: 0 <= j < WORD_LENGTH ==> scores[g, j] == ExactScore(word, Answer(), j)
      modifies scores, consumed
      ensures ScoreRowAt(g) == ScoreRow(word, Answer())
      ensures forall r, i :: 0 <= r < NUM_OF_GUESSES && r != g && 0 <= i < WORD_LENGTH ==> scores[r, i] == old(scores[r, i])
    {
      ghost var answer := Answer();
      ghost var row := ScoreRow(word, answer);
      ghost var exactRow := seq(WORD_LENGTH, j requires 0 <= j < WORD_LENGTH => ExactScore(word, answer, j));
      assert ScoreRowAt(g) == exactRow;
      for i := 0 to WORD_LENGTH
        invariant ScoreRowAt(g) == row[..i] + exactRow[i..]
        invariant consumed[..] == Claimed(word, answer, i)
        invariant forall r, j :: 0 <= r < NUM_OF_GUESSES && r != g && 0 <= j < WORD_LENGTH ==> scores[r, j] == old(scores[r, j])
      {
        DisplacedStep(word, answer, i);
        assert scores[g, i] == ScoreRowAt(g)[i] == ExactScore(word, answer, i);
        var foundLoc := FirstIndex(selectedWord[..WORD_LENGTH], word[i]);
        if foundLoc < WORD_LENGTH && !consumed[foundLoc] {
          scores[g, i] := WrongPos;
          consumed[foundLoc] := true;
        }
        assert scores[g, i] == CellScore(word, answer, i) == row[i];
        SpliceStep(row, exactRow, i);
      }
      assert row[..WORD_LENGTH] + exactRow[WORD_LENGTH..] == row;
    }

    /** The last loop of `makeGuess` (engine.cc:139-143): fold row g of scores into
        the hints and copy the guess into row g of guesses. */
    method RecordGuess(g: int, word: Word)
      requires 0 <= g < NUM_OF_GUESSES
      requires guesses.Length0 == NUM_OF_GUESSES && guesses.Length1 == WORD_LENGTH
      requires scores.Length0 == NUM_OF_GUESSES && scores.Length1 == WORD_LENGTH
      requires alphabet.Length == ALPHABET_LENGTH
      modifies alphabet, guesses
      ensures GuessRow(g) == word
      ensures forall r, i :: 0 <= r < NUM_OF_GUESSES && r != g && 0 <= i < WORD_LENGTH ==> guesses[r, i] == old(guesses[r, i])
      ensures forall c :: 0 <= c < ALPHABET_LENGTH ==> alphabet[c] == BestHint(old(alphabet[c]), word, ScoreRowAt(g), Letter(c))
    {
      ghost var row := ScoreRowAt(g);
      ghost var prevs := alphabet[..];
      for i := 0 to WORD_LENGTH
        invariant alphabet[..] == Hints(prevs, word[..i], row[..i])
        invariant forall j :: 0 <= j < i ==> guesses[g, j] == word[j]
        invariant forall r, j :: 0 <= r < NUM_OF_GUESSES && r != g && 0 <= j < WORD_LENGTH ==> guesses[r, j] == old(guesses[r, j])
      {
        ghost var before := alphabet[..];
        var k := LetterIndex(word[i]);
        assert scores[g, i] == row[i];
        AlphabetAdd(word[i], scores[g, i]);
        assert alphabet[..] == before[k := Max(before[k], row[i])];
        HintsStep(prevs, word, row, i);
        guesses[g, i] := word[i];
      }
      assert word[..WORD_LENGTH] == word && row[..WORD_LENGTH] == row;
    }

    /** hasWon holds exactly when the latest guess scored every cell Correct. */
    lemma HasWonIffLastRowAllCorrect()
      requires Valid()
      ensures HasWon() <==> numGuesses > 0 && ScoreRowAt(numGuesses - 1) == ALL_CORRECT
    {
      if numGuesses > 0 {
        var w: Word := GuessRow(numGuesses - 1);
        AllExactIffAnswer(w, Answer());
        AllCorrectIffAnswer(w, Answer());
      }
    }
  
    /** The game is won exactly when the latest accepted guess is the answer. */
    lemma HasWonIffGuessedAnswer()
      requires Valid()
      ensures HasWon() <==> numGuesses > 0 && GuessRow(numGuesses - 1) == Answer()
    {
      if numGuesses > 0 {
        AllExactIffAnswer(GuessRow(numGuesses - 1), Answer());
      }
    }
  
    /** The game is over exactly when the answer has been guessed or every row is used. */
    lemma GameDoneIffAnsweredOrFull()
      requires Valid()
      ensures GameDone() <==> (numGuesses > 0 && GuessRow(numGuesses - 1) == Answer()) || numGuesses == NUM_OF_GUESSES
    {
      HasWonIffGuessedAnswer();
    }
  }
}
