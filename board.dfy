/** The input line of the board window: the letters typed so far and their
    submission to the engine (board.hh, board.cc). */
module InputBoard {
  import opened Words
  import opened Scoring
  import opened GameEngine

  const ENTER: char := '\n'
  const BACKSPACE: char := 8 as char

  /** The keys the event loop passes on: it upper-cases the character and keeps
      only letters, Return and Backspace. */
  predicate IsKey(key: char) {
    IsUpper(key) || key == ENTER || key == BACKSPACE
  }

  class Board {
    const engine: Engine
    /** The typed letters, with room for a terminating NUL. */
    const curGuess: array<char>
    var curGuessLen: int

    ghost predicate Valid()
      reads this, curGuess, engine.Repr
    {
      && engine.Valid()
      && curGuess.Length == WORD_LENGTH + 1
      && curGuess !in engine.Repr
      && 0 <= curGuessLen <= WORD_LENGTH
      && (forall i :: 0 <= i < curGuessLen ==> IsUpper(curGuess[i]))
    }

    /** The letters typed so far. */
    ghost function Typed(): seq<char>
      reads this, curGuess
      requires 0 <= curGuessLen <= curGuess.Length
    {
      curGuess[..curGuessLen]
    }

    /** `Board::Board` with `Board::init`: the engine starts its first game with
        Random() result r and the input line is empty. */
    constructor (daily: seq<char>, listA: seq<char>, listB: seq<char>, r: int)
      requires Dictionary.ValidLists(daily, listA, listB)
      requires RAND_MIN <= r <= RAND_MAX
      ensures Valid() && fresh(engine.Repr) && fresh(curGuess)
      ensures engine.dailyWords == daily && engine.allWordsA == listA && engine.allWordsB == listB
      ensures Typed() == []
      ensures engine.numGuesses == 0 && engine.numCorrectLetters == 0 && !engine.GameDone()
      ensures forall c :: 0 <= c < ALPHABET_LENGTH ==> engine.alphabet[c] == Unknown
      ensures engine.Answer() == Dictionary.Entry(daily, DailyIndex(r))
    {
      engine := new Engine(daily, listA, listB, r);
      curGuess := new char[WORD_LENGTH + 1];
      curGuessLen := 0;
    }

    /** `Board::process_key`. A finished game ignores every key; Return submits a
        full line and empties it if the engine accepts the word; Backspace drops
        the last letter; a letter is appended while there is room. */
    method ProcessKey(key: char)
      requires Valid() && IsKey(key)
      modifies this, curGuess, engine.Repr
      ensures Valid()
      ensures old(engine.GameDone()) ==>
        && curGuessLen == old(curGuessLen) && unchanged(curGuess) && unchanged(engine.Repr)
      ensures !old(engine.GameDone()) && key == ENTER && old(curGuessLen) < WORD_LENGTH ==>
        && curGuessLen == old(curGuessLen) && unchanged(curGuess) && unchanged(engine.Repr)
      ensures !old(engine.GameDone()) && key == ENTER && old(curGuessLen) == WORD_LENGTH ==>
        && curGuess[..WORD_LENGTH] == old(curGuess[..WORD_LENGTH]) && curGuess[WORD_LENGTH] == '\0'
        && engine.Answer() == old(engine.Answer())
        && (curGuessLen == 0 <==> engine.Accepts(curGuess[..WORD_LENGTH]))
        && (curGuessLen != 0 ==>
              && curGuessLen == WORD_LENGTH
              && engine.numGuesses == old(engine.numGuesses)
              && engine.numCorrectLetters == old(engine.numCorrectLetters)
              && unchanged(engine.guesses, engine.scores, engine.alphabet))
        && (curGuessLen == 0 ==>
              && engine.numGuesses == old(engine.numGuesses) + 1
              && engine.GuessRow(old(engine.numGuesses)) == curGuess[..WORD_LENGTH]
              && engine.ScoreRowAt(old(engine.numGuesses)) == ScoreRow(curGuess[..WORD_LENGTH], engine.Answer())
              && engine.numCorrectLetters == |Exact(curGuess[..WORD_LENGTH], engine.Answer())|
              && (forall r, i :: 0 <= r < NUM_OF_GUESSES && r != old(engine.numGuesses) && 0 <= i < WORD_LENGTH ==>
                    engine.guesses[r, i] == old(engine.guesses[r, i]) && engine.scores[r, i] == old(engine.scores[r, i]))
              && (forall c :: 0 <= c < ALPHABET_LENGTH ==>
                    engine.alphabet[c] == BestHint(old(engine.alphabet[c]), curGuess[..WORD_LENGTH],
                      ScoreRow(curGuess[..WORD_LENGTH], engine.Answer()), Letter(c))))
      ensures !old(engine.GameDone()) && key == BACKSPACE ==>
        && Typed() == (if old(curGuessLen) > 0 then old(Typed())[..old(curGuessLen) - 1] else [])
        && unchanged(curGuess) && unchanged(engine.Repr)
      ensures !old(engine.GameDone()) && IsUpper(key) ==>
        && Typed() == (if old(curGuessLen) < WORD_LENGTH then old(Typed()) + [key] else old(Typed()))
        && (if old(curGuessLen) < WORD_LENGTH
            then forall i :: 0 <= i < curGuess.Length && i != old(curGuessLen) ==> curGuess[i] == old(curGuess[i])
            else unchanged(curGuess))
        && unchanged(engine.Repr)
    {
      if engine.GameDone() {
        // process_key only beeps here (SysBeep is not modelled)
      } else if key == ENTER {
        if curGuessLen == WORD_LENGTH {
          Submit();
        }
      } else if key == BACKSPACE {
        if curGuessLen > 0 {
          curGuessLen := curGuessLen - 1;
        }
      } else if curGuessLen < WORD_LENGTH {
        curGuess[curGuessLen] := key;
        curGuessLen := curGuessLen + 1;
      }
    }

    /** The Return branch of `Board::process_key` on a full line (board.cc:271-294):
        NUL-terminate the buffer, submit it with makeGuess, and empty the line if
        the guess was accepted. */
    method Submit()
      requires Valid() && !engine.GameDone() && curGuessLen == WORD_LENGTH
      modifies this, curGuess, engine.Repr
      ensures Valid()
      ensures curGuess[..WORD_LENGTH] == old(curGuess[..WORD_LENGTH]) && curGuess[WORD_LENGTH] == '\0'
      ensures engine.Answer() == old(engine.Answer())
      ensures curGuessLen == 0 <==> engine.Accepts(curGuess[..WORD_LENGTH])
      ensures curGuessLen != 0 ==>
        && curGuessLen == WORD_LENGTH
        && engine.numGuesses == old(engine.numGuesses)
        && engine.numCorrectLetters == old(engine.numCorrectLetters)
        && unchanged(engine.guesses, engine.scores, engine.alphabet)
      ensures curGuessLen == 0 ==>
        && engine.numGuesses == old(engine.numGuesses) + 1
        && engine.GuessRow(old(engine.numGuesses)) == curGuess[..WORD_LENGTH]
        && engine.ScoreRowAt(old(engine.numGuesses)) == ScoreRow(curGuess[..WORD_LENGTH], engine.Answer())
        && engine.numCorrectLetters == |Exact(curGuess[..WORD_LENGTH], engine.Answer())|
        && (forall r, i :: 0 <= r < NUM_OF_GUESSES && r != old(engine.numGuesses) && 0 <= i < WORD_LENGTH ==>
              engine.guesses[r, i] == old(engine.guesses[r, i]) && engine.scores[r, i] == old(engine.scores[r, i]))
        && (forall c :: 0 <= c < ALPHABET_LENGTH ==>
              engine.alphabet[c] == BestHint(old(engine.alphabet[c]), curGuess[..WORD_LENGTH],
                ScoreRow(curGuess[..WORD_LENGTH], engine.Answer()), Letter(c)))
    {
      curGuess[WORD_LENGTH] := '\0';
      var guess: Word := curGuess[..WORD_LENGTH];
      var isValid := engine.MakeGuess(guess);
      if isValid {
        curGuessLen := 0;
      }
    }

    /** `Board::clear`: empty the input line. */
    method Clear()
      requires Valid()
      modifies this
      ensures Valid() && Typed() == []
    {
      curGuessLen := 0;
    }

    /** `Board::newGame`: empty the input line, then start a new game with
        Random() result r. */
    method NewGame(r: int)
      requires Valid()
      requires RAND_MIN <= r <= RAND_MAX
      modifies this, engine.Repr
      ensures Valid() && Typed() == []
      ensures engine.numGuesses == 0 && engine.numCorrectLetters == 0 && !engine.GameDone()
      ensures forall c :: 0 <= c < ALPHABET_LENGTH ==> engine.alphabet[c] == Unknown
      ensures engine.Answer() == Dictionary.Entry(engine.dailyWords, DailyIndex(r))
      ensures unchanged(engine.guesses, engine.scores)
    {
      Clear();
      engine.NewGame(r);
    }
  }

  /** An unsigned char; a Pascal string `Str255` is 256 of them. */
  newtype byte = x: int | 0 <= x < 256

  const STR255_SIZE: nat := 256

  /** `strlen`: the number of bytes before the first NUL. */
  function StrLen(s: seq<byte>): (n: nat)
    ensures n <= |s|
    ensures forall j :: 0 <= j < n ==> s[j] != 0
    ensures n < |s| ==> s[n] == 0
  {
    if |s| == 0 || s[0] == 0 then 0 else 1 + StrLen(s[1..])
  }

  /** The length byte `c2pstrcpy_cust` stores for a C string of n bytes: n
      converted to an unsigned char (so modulo 256), and 255 lowered to 254. */
  function PascalLength(n: nat): (len: nat)
    ensures len <= 254 && len <= n
    ensures n < 255 ==> len == n
    ensures n % 256 != 255 ==> len == n % 256
    ensures n % 256 == 255 ==> len == 254
  {
    var truncated := n % 256;
    if truncated >= 255 then 254 else truncated
  }

  /** The cap applies only after the conversion to an unsigned char: a C string
      of 300 bytes keeps only 44 of them. */
  lemma LongStringWraps()
    ensures PascalLength(300) == 44
  {
  }

  /** `c2pstrcpy_cust`: store the length byte in dest[0] and copy that many bytes
      of src after it; the rest of dest is left as it was. */
  method CopyCToPascal(dest: array<byte>, src: seq<byte>)
    requires dest.Length == STR255_SIZE
    requires 0 in src
    modifies dest
    ensures dest[0] as int == PascalLength(StrLen(src))
    ensures dest[1..dest[0] as int + 1] == src[..dest[0]]
    ensures StrLen(src) < 255 ==> dest[1..dest[0] as int + 1] == src[..StrLen(src)]
    ensures forall k :: dest[0] as int + 1 <= k < STR255_SIZE ==> dest[k] == old(dest[k])
  {
    var len := StrLen(src) % 256;
    if len >= 255 {
      len := 254;
    }
    dest[0] := len as byte;
    forall k | 1 <= k <= len {
      dest[k] := src[k - 1];
    }
  }
}
