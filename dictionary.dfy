/** The three word lists and the searches over them.  A list is the text of a
    resource: entry i occupies bytes i*STRIDE .. i*STRIDE+4, followed by one
    separator byte (engine.cc:89, 216, 234). */
module Dictionary {
  import opened Words

  const STRIDE: nat := WORD_LENGTH + 1
  const NUM_DAILY_WORDS: nat := 2309
  const NUM_WORDS_A: nat := 5331
  const NUM_WORDS_B: nat := 5332
  /** Ranges shorter than this are scanned linearly (engine.cc:212). */
  const SCAN_THRESHOLD: int := 10

  /** The text is long enough to hold n entries (the last separator may be absent). */
  predicate Holds(text: seq<char>, n: int) {
    0 <= n && n * STRIDE <= |text| + 1
  }

  /** The five bytes of entry i. */
  function Entry(text: seq<char>, i: int): seq<char>
    requires 0 <= i && i * STRIDE + WORD_LENGTH <= |text|
  {
    text[i * STRIDE .. i * STRIDE + WORD_LENGTH]
  }

  /** Entries start .. end-1 ascend (equal neighbours allowed). */
  ghost predicate Sorted(text: seq<char>, start: int, end: int)
    requires 0 <= start && Holds(text, end)
  {
    forall i, j :: start <= i < j < end ==> LessEq(Entry(text, i), Entry(text, j))
  }

  /** A list of n sorted words of WORD_LENGTH upper-case letters. */
  ghost predicate WordList(text: seq<char>, n: int) {
    && Holds(text, n)
    && (forall i :: 0 <= i < n ==> IsWord(Entry(text, i)))
    && Sorted(text, 0, n)
  }

  /** The three lists with the sizes the searches are called with. */
  ghost predicate ValidLists(daily: seq<char>, listA: seq<char>, listB: seq<char>) {
    WordList(daily, NUM_DAILY_WORDS) && WordList(listA, NUM_WORDS_A) && WordList(listB, NUM_WORDS_B)
  }

  /** Some entry with index in [start, end) is w. */
  ghost predicate InRange(text: seq<char>, start: int, end: int, w: seq<char>)
    requires 0 <= start && Holds(text, end)
  {
    exists i :: start <= i < end && Entry(text, i) == w
  }

  /** The word-set view of a list: w is one of its n entries. */
  ghost predicate Contains(text: seq<char>, n: int, w: seq<char>)
    requires Holds(text, n)
  {
    InRange(text, 0, n, w)
  }

  /** `Engine::binSearch`: recursive bisection with a linear scan below
      SCAN_THRESHOLD; found iff w is an entry in [start, end). */
  method BinSearch(start: int, end: int, wordList: seq<char>, word: Word) returns (found: bool)
    requires 0 <= start <= end && Holds(wordList, end)
    requires Sorted(wordList, start, end)
    ensures found <==> InRange(wordList, start, end, word)
    decreases end - start
  {
    found := false;
    if end - start < SCAN_THRESHOLD {
      var i := start;
      while i < end
        invariant start <= i <= end
        invariant forall k :: start <= k < i ==> Entry(wordList, k) != word
      {
        var res := Compare(word, Entry(wordList, i));
        if res == 0 {
          found := true;
          break;
        }
        i := i + 1;
      }
    } else {
      var mid := (end - start) / 2 + start;
      var cmpRes := Compare(word, Entry(wordList, mid));
      if cmpRes == 0 {
        found := true;
      } else if cmpRes < 0 {
        found := BinSearch(start, mid, wordList, word);
        forall k | mid <= k < end
          ensures Entry(wordList, k) != word
        {
          BelowIsAbsent(word, Entry(wordList, mid), Entry(wordList, k));
        }
      } else {
        found := BinSearch(mid, end, wordList, word);
        forall k | start <= k < mid
          ensures Entry(wordList, k) != word
        {
          BelowIsAbsent(Entry(wordList, k), Entry(wordList, mid), word);
        }
      }
    }
  }

  /** If a < b <= c or a <= b < c then a and c differ. */
  lemma BelowIsAbsent(a: seq<char>, b: seq<char>, c: seq<char>)
    requires |a| == |b| == |c|
    requires (Less(a, b) && LessEq(b, c)) || (LessEq(a, b) && Less(b, c))
    ensures a != c
  {
    if Less(a, b) && Less(b, c) {
      LessTransitive(a, b, c);
    }
    LessIrreflexive(a);
  }

  /** What `Engine::checkWord` accepts: a daily word, or a word below the split
      word found in list A, the split word itself, or a word above it found in list B. */
  ghost predicate Accepted(daily: seq<char>, listA: seq<char>, listB: seq<char>, splitWord: Word, w: Word)
    requires ValidLists(daily, listA, listB)
  {
    || Contains(daily, NUM_DAILY_WORDS, w)
    || (Less(w, splitWord) && Contains(listA, NUM_WORDS_A, w))
    || w == splitWord
    || (Less(splitWord, w) && Contains(listB, NUM_WORDS_B, w))
  }

  /** `Engine::checkWord`: the daily list first, then list A or list B chosen by
      comparing with the split word. */
  method CheckWord(daily: seq<char>, listA: seq<char>, listB: seq<char>, splitWord: Word, word: Word)
    returns (retVal: bool)
    requires ValidLists(daily, listA, listB)
    ensures retVal == Accepted(daily, listA, listB, splitWord, word)
  {
    retVal := BinSearch(0, NUM_DAILY_WORDS, daily, word);
    if retVal {
      return;
    }
    var cmpRes := Compare(word, splitWord);
    if cmpRes < 0 {
      retVal := BinSearch(0, NUM_WORDS_A, listA, word);
    } else if cmpRes > 0 {
      retVal := BinSearch(0, NUM_WORDS_B, listB, word);
    } else {
      retVal := true;
    }
  }

  /** List A holds only words below the split word, and the split word is the
      first entry of list B. */
  ghost predicate Partitioned(listA: seq<char>, listB: seq<char>, splitWord: Word)
    requires WordList(listA, NUM_WORDS_A) && WordList(listB, NUM_WORDS_B)
  {
    && (forall i :: 0 <= i < NUM_WORDS_A ==> Less(Entry(listA, i), splitWord))
    && Entry(listB, 0) == splitWord
  }

  /** With the lists partitioned at the split word, the pivot test loses nothing:
      checkWord accepts exactly the words of the three lists. */
  lemma CheckWordIsMembership(daily: seq<char>, listA: seq<char>, listB: seq<char>, splitWord: Word, w: Word)
    requires ValidLists(daily, listA, listB)
    requires Partitioned(listA, listB, splitWord)
    ensures Accepted(daily, listA, listB, splitWord, w) <==>
      Contains(daily, NUM_DAILY_WORDS, w) || Contains(listA, NUM_WORDS_A, w) || Contains(listB, NUM_WORDS_B, w)
  {
    if Contains(listA, NUM_WORDS_A, w) {
      var i :| 0 <= i < NUM_WORDS_A && Entry(listA, i) == w;
      assert Less(w, splitWord);
    }
    if Contains(listB, NUM_WORDS_B, w) {
      var i :| 0 <= i < NUM_WORDS_B && Entry(listB, i) == w;
      assert LessEq(splitWord, w) by {
        if i > 0 {
          assert LessEq(Entry(listB, 0), Entry(listB, i));
        }
      }
    }
    if w == splitWord {
      assert Entry(listB, 0) == w;
    }
  }

  /** `Engine::getWord`: copy entry num of the list into ret and terminate it with NUL. */
  method GetWord(num: int, words: seq<char>, ret: array<char>)
    requires 0 <= num && num * STRIDE + WORD_LENGTH <= |words|
    requires ret.Length >= WORD_LENGTH + 1
    modifies ret
    ensures ret[..WORD_LENGTH] == Entry(words, num)
    ensures ret[WORD_LENGTH] == '\0'
    ensures forall k :: WORD_LENGTH < k < ret.Length ==> ret[k] == old(ret[k])
  {
    for i := 0 to WORD_LENGTH
      invariant forall k :: 0 <= k < i ==> ret[k] == words[num * STRIDE + k]
      invariant forall k :: WORD_LENGTH <= k < ret.Length ==> ret[k] == old(ret[k])
    {
      ret[i] := words[(num * STRIDE) + i];
    }
    ret[WORD_LENGTH] := '\0';
  }
}
