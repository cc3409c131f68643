/** Feedback for one guess against the selected word, and the per-letter hint fold. */
module Scoring {
  import opened Words

  /** `letterScore` (engine.hh:37-43); the constructors are in enum-value order. */
  datatype LetterScore = Unknown | NoMatch | WrongPos | Correct {
    /** The C enum value. */
    function Value(): nat {
      match this
      case Unknown => 0
      case NoMatch => 1
      case WrongPos => 2
      case Correct => 3
    }
  }

  /** The larger of two scores in enum order: what `alphabetAdd` keeps. */
  function Max(a: LetterScore, b: LetterScore): (r: LetterScore)
    ensures r.Value() >= a.Value() && r.Value() >= b.Value()
    ensures r == a || r == b
  {
    if b.Value() > a.Value() then b else a
  }

  /** `strchr`: the first index of c in s, or |s| when c does not occur. */
  function FirstIndex(s: seq<char>, c: char): (k: nat)
    ensures k <= |s|
    ensures k < |s| ==> s[k] == c
    ensures forall j :: 0 <= j < k ==> s[j] != c
  {
    if |s| == 0 then 0
    else if s[0] == c then 0
    else 1 + FirstIndex(s[1..], c)
  }

  /** The score of cell i as `Engine::makeGuess` computes it (engine.cc:110-137).
      The displaced pass looks only at k, the FIRST occurrence of the letter in the
      answer: cell i becomes WrongPos when k exists, k was not taken by an exact
      match, and no earlier cell with the same letter took k before it — even when
      cell i was itself an exact match. Otherwise cell i keeps its exact-pass score. */
  function CellScore(w: Word, answer: Word, i: nat): LetterScore
    requires i < WORD_LENGTH
  {
    var k := FirstIndex(answer, w[i]);
    if k < WORD_LENGTH && w[k] != answer[k] && FirstIndex(w, w[i]) == i then WrongPos
    else if w[i] == answer[i] then Correct
    else NoMatch
  }

  /** The score row of a guess. */
  function ScoreRow(w: Word, answer: Word): seq<LetterScore> {
    seq(WORD_LENGTH, i requires 0 <= i < WORD_LENGTH => CellScore(w, answer, i))
  }

  /** The score a cell has after the exact-match pass. */
  function ExactScore(w: Word, answer: Word, i: nat): LetterScore
    requires i < WORD_LENGTH
  {
    if w[i] == answer[i] then Correct else NoMatch
  }

  /** The consumed flags of the answer positions after the exact pass and the
      first i cells of the displaced pass: exact matches, and first occurrences
      of letters already seen among those i cells. */
  function Claimed(w: Word, answer: Word, i: int): seq<bool> {
    seq(WORD_LENGTH, k requires 0 <= k < WORD_LENGTH =>
      w[k] == answer[k] || (FirstIndex(answer, answer[k]) == k && FirstIndex(w, answer[k]) < i))
  }

  /** One step of the displaced pass: cell i takes the first occurrence k of its
      letter exactly when k exists and is unclaimed, and then k becomes claimed. */
  lemma DisplacedStep(w: Word, answer: Word, i: nat)
    requires i < WORD_LENGTH
    ensures var k := FirstIndex(answer, w[i]);
      if k < WORD_LENGTH && !Claimed(w, answer, i)[k] then
        CellScore(w, answer, i) == WrongPos && Claimed(w, answer, i + 1) == Claimed(w, answer, i)[k := true]
      else
        CellScore(w, answer, i) == ExactScore(w, answer, i) && Claimed(w, answer, i + 1) == Claimed(w, answer, i)
  {
    var k := FirstIndex(answer, w[i]);
    var before, after := Claimed(w, answer, i), Claimed(w, answer, i + 1);
    assert FirstIndex(w, w[i]) <= i;
    forall m | 0 <= m < WORD_LENGTH && m != k
      ensures after[m] == before[m]
    {
      if FirstIndex(w, answer[m]) == i {
        assert answer[m] == w[i];
      }
    }
    if k < WORD_LENGTH {
      assert FirstIndex(answer, answer[k]) == k;
    }
  }

  /** Positions where the guess matches the answer exactly, and the others. */
  function ExactUpTo(w: Word, answer: Word, n: int): set<int>
    requires n <= WORD_LENGTH
  {
    set k | 0 <= k < n && w[k] == answer[k]
  }

  function Exact(w: Word, answer: Word): set<int> {
    ExactUpTo(w, answer, WORD_LENGTH)
  }

  function InexactUpTo(w: Word, answer: Word, n: int): set<int>
    requires n <= WORD_LENGTH
  {
    set k | 0 <= k < n && w[k] != answer[k]
  }

  function Inexact(w: Word, answer: Word): set<int> {
    InexactUpTo(w, answer, WORD_LENGTH)
  }

  function WrongPosCells(row: seq<LetterScore>): set<int> {
    set i | 0 <= i < |row| && row[i] == WrongPos
  }

  /** Every position is either an exact match or not. */
  lemma ExactInexactPartition(w: Word, answer: Word)
    ensures |Exact(w, answer)| + |Inexact(w, answer)| == WORD_LENGTH
  {
    PartitionUpTo(w, answer, WORD_LENGTH);
  }

  lemma {:induction false} PartitionUpTo(w: Word, answer: Word, n: nat)
    requires n <= WORD_LENGTH
    ensures |ExactUpTo(w, answer, n)| + |InexactUpTo(w, answer, n)| == n
  {
    if n > 0 {
      PartitionUpTo(w, answer, n - 1);
      var m := n - 1;
      if w[m] == answer[m] {
        assert ExactUpTo(w, answer, n) == ExactUpTo(w, answer, m) + {m};
        assert InexactUpTo(w, answer, n) == InexactUpTo(w, answer, m);
      } else {
        assert ExactUpTo(w, answer, n) == ExactUpTo(w, answer, m);
        assert InexactUpTo(w, answer, n) == InexactUpTo(w, answer, m) + {m};
      }
    } else {
      assert ExactUpTo(w, answer, n) == {};
      assert InexactUpTo(w, answer, n) == {};
    }
  }

  /** A Correct cell is an exact match. */
  lemma CorrectIsExact(w: Word, answer: Word, i: nat)
    requires i < WORD_LENGTH
    ensures ScoreRow(w, answer)[i] == Correct ==> w[i] == answer[i]
  {
  }

  /** A cell whose letter does not occur in the answer stays NoMatch. */
  lemma AbsentLetterIsNoMatch(w: Word, answer: Word, i: nat)
    requires i < WORD_LENGTH && w[i] !in answer
    ensures ScoreRow(w, answer)[i] == NoMatch
  {
  }

  /** A WrongPos cell's letter occurs in the answer, at a first occurrence that
      no exact match took. */
  lemma WrongPosHasFreeOccurrence(w: Word, answer: Word, i: nat)
    requires i < WORD_LENGTH && ScoreRow(w, answer)[i] == WrongPos
    ensures w[i] in answer
    ensures var k := FirstIndex(answer, w[i]); k < WORD_LENGTH && answer[k] == w[i] && w[k] != answer[k]
  {
  }

  /** Each letter is reported WrongPos in at most one cell of a row. */
  lemma AtMostOneWrongPosPerLetter(w: Word, answer: Word, i: nat, j: nat)
    requires i < WORD_LENGTH && j < WORD_LENGTH && w[i] == w[j]
    requires ScoreRow(w, answer)[i] == WrongPos && ScoreRow(w, answer)[j] == WrongPos
    ensures i == j
  {
  }

  /** Every WrongPos cell claims a distinct answer position that no exact match
      claimed, so a row has at most WORD_LENGTH - |Exact| WrongPos cells. */
  lemma WrongPosBound(w: Word, answer: Word)
    ensures |WrongPosCells(ScoreRow(w, answer))| <= WORD_LENGTH - |Exact(w, answer)|
  {
    var row := ScoreRow(w, answer);
    var marked := seq(WORD_LENGTH, i requires 0 <= i < WORD_LENGTH => row[i] == WrongPos);
    var claim := seq(WORD_LENGTH, i requires 0 <= i < WORD_LENGTH => FirstIndex(answer, w[i]));
    forall i, j | 0 <= i < j < WORD_LENGTH && marked[i] && marked[j]
      ensures claim[i] != claim[j]
    {
      if claim[i] == claim[j] {
        ClaimInjective(w, answer, i, j);
      }
    }
    InjectiveBound(marked, claim, WORD_LENGTH, Inexact(w, answer));
    assert WrongPosCells(row) == (set i | 0 <= i < WORD_LENGTH && marked[i]);
    ExactInexactPartition(w, answer);
  }

  /** Two WrongPos cells that claim the same answer position are the same cell. */
  lemma ClaimInjective(w: Word, answer: Word, i: nat, j: nat)
    requires i < WORD_LENGTH && j < WORD_LENGTH
    requires CellScore(w, answer, i) == WrongPos && CellScore(w, answer, j) == WrongPos
    requires FirstIndex(answer, w[i]) == FirstIndex(answer, w[j])
    ensures i == j
  {
    var k := FirstIndex(answer, w[i]);
    assert w[i] == answer[k] == w[j];
  }

  /** Counting by an injection: marked cells below n whose claims are pairwise
      distinct and lie in targets are no more than the targets. */
  lemma {:induction false} InjectiveBound(marked: seq<bool>, claim: seq<int>, n: nat, targets: set<int>)
    requires n <= |marked| == |claim|
    requires forall i :: 0 <= i < n && marked[i] ==> claim[i] in targets
    requires forall i, j :: 0 <= i < j < n && marked[i] && marked[j] ==> claim[i] != claim[j]
    ensures |set i | 0 <= i < n && marked[i]| <= |targets|
  {
    var cells := set i | 0 <= i < n && marked[i];
    if n == 0 {
      assert cells == {};
    } else {
      var m := n - 1;
      var below := set i | 0 <= i < m && marked[i];
      if marked[m] {
        InjectiveBound(marked, claim, m, targets - {claim[m]});
        assert cells == below + {m};
      } else {
        InjectiveBound(marked, claim, m, targets);
        assert cells == below;
      }
    }
  }

  /** The score row of a winning guess. */
  const ALL_CORRECT: seq<LetterScore> := seq(WORD_LENGTH, _ => Correct)

  /** Guessing the answer scores every cell Correct, and only the answer does. */
  lemma AllCorrectIffAnswer(w: Word, answer: Word)
    ensures ScoreRow(w, answer) == ALL_CORRECT <==> w == answer
  {
    if w == answer {
      forall i | 0 <= i < WORD_LENGTH
        ensures CellScore(w, answer, i) == Correct
      {
        var k := FirstIndex(answer, w[i]);
        assert k <= i;
      }
    } else {
      var k :| 0 <= k < WORD_LENGTH && w[k] != answer[k];
      CorrectIsExact(w, answer, k);
      assert ScoreRow(w, answer)[k] != ALL_CORRECT[k];
    }
  }

  /** All WORD_LENGTH positions match exactly iff the guess is the answer. */
  lemma AllExactIffAnswer(w: Word, answer: Word)
    ensures |Exact(w, answer)| == WORD_LENGTH <==> w == answer
  {
    ExactInexactPartition(w, answer);
    if w != answer {
      var k :| 0 <= k < WORD_LENGTH && w[k] != answer[k];
      assert k in Inexact(w, answer);
    } else {
      assert Inexact(w, answer) == {};
    }
  }

  /** The displaced pass may overwrite an exact match: answer ABACK, guess XXAXX
      reports the exact A in cell 2 as WrongPos, because the first A of the answer
      (cell 0) is still unclaimed. */
  lemma DisplacedOverwritesExact()
    ensures ScoreRow("XXAXX", "ABACK")[2] == WrongPos
  {
  }

  /** Only the first occurrence is looked at: answer ALLOW, guess LLAMA leaves the
      L in cell 0 NoMatch although the answer's second L (cell 2) is unclaimed. */
  lemma FirstOccurrenceOnly()
    ensures ScoreRow("LLAMA", "ALLOW") == [NoMatch, Correct, WrongPos, NoMatch, NoMatch]
  {
    var w, answer: Word := "LLAMA", "ALLOW";
    assert FirstIndex(answer, 'L') == 1 && FirstIndex(answer, 'A') == 0 && FirstIndex(answer, 'M') == 5;
    assert FirstIndex(w, 'A') == 2;
  }

  /** Answer CRANE, guess TRACE: R, A and E are exact, C is displaced. */
  lemma CraneTrace()
    ensures ScoreRow("TRACE", "CRANE") == [NoMatch, Correct, Correct, WrongPos, Correct]
  {
  }

  /** The best hint for letter c after folding a row into prev, cell by cell
      (engine.cc:139-145 with alphabetAdd at 160-167). */
  function BestHint(prev: LetterScore, w: seq<char>, row: seq<LetterScore>, c: char): (r: LetterScore)
    requires |w| == |row|
    ensures r.Value() >= prev.Value()
    ensures forall i :: 0 <= i < |w| && w[i] == c ==> r.Value() >= row[i].Value()
    ensures r == prev || exists i :: 0 <= i < |w| && w[i] == c && r == row[i]
  {
    if |w| == 0 then prev
    else
      var n := |w| - 1;
      var p := BestHint(prev, w[..n], row[..n], c);
      if w[n] == c then Max(p, row[n]) else p
  }

  /** The whole hint table after folding a row into the table prevs. */
  function Hints(prevs: seq<LetterScore>, w: seq<char>, row: seq<LetterScore>): seq<LetterScore>
    requires |prevs| == ALPHABET_LENGTH && |w| == |row|
  {
    seq(ALPHABET_LENGTH, c requires 0 <= c < ALPHABET_LENGTH => BestHint(prevs[c], w, row, Letter(c)))
  }

  /** Folding one more cell into the hint table raises only the entry of its letter. */
  lemma HintsStep(prevs: seq<LetterScore>, w: Word, row: seq<LetterScore>, i: nat)
    requires |prevs| == ALPHABET_LENGTH && |row| == WORD_LENGTH && i < WORD_LENGTH
    ensures var before := Hints(prevs, w[..i], row[..i]);
      var k := LetterIndex(w[i]);
      Hints(prevs, w[..i + 1], row[..i + 1]) == before[k := Max(before[k], row[i])]
  {
    var before := Hints(prevs, w[..i], row[..i]);
    var k := LetterIndex(w[i]);
    var after := Hints(prevs, w[..i + 1], row[..i + 1]);
    var updated := before[k := Max(before[k], row[i])];
    forall c | 0 <= c < ALPHABET_LENGTH
      ensures after[c] == updated[c]
    {
      BestHintStep(prevs[c], w, row, Letter(c), i);
    }
  }

  /** Folding one more cell into the hint: only a cell with letter c can raise it. */
  lemma BestHintStep(prev: LetterScore, w: seq<char>, row: seq<LetterScore>, c: char, i: nat)
    requires |w| == |row| && i < |w|
    ensures BestHint(prev, w[..i + 1], row[..i + 1], c) ==
      var p := BestHint(prev, w[..i], row[..i], c);
      if w[i] == c then Max(p, row[i]) else p
  {
    assert w[..i + 1][..i] == w[..i] && row[..i + 1][..i] == row[..i];
  }
}
