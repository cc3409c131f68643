/** Guess words and the byte order that the dictionary searches compare them by. */
module Words {

  const WORD_LENGTH: nat := 5
  const ALPHABET_LENGTH: nat := 26

  predicate IsUpper(c: char) {
    'A' <= c <= 'Z'
  }

  /** Exactly WORD_LENGTH letters 'A'..'Z'. */
  predicate IsWord(w: seq<char>) {
    |w| == WORD_LENGTH && forall i :: 0 <= i < |w| ==> IsUpper(w[i])
  }

  type Word = w: seq<char> | IsWord(w) witness "AAAAA"

  /** Index of a letter in the 26-entry hint table (`letter - 'A'`). */
  function LetterIndex(c: char): (k: int)
    requires IsUpper(c)
    ensures 0 <= k < ALPHABET_LENGTH
    ensures Letter(k) == c
  {
    c as int - 'A' as int
  }

  /** The letter whose hint sits at index k of the hint table. */
  function Letter(k: int): char
    requires 0 <= k < ALPHABET_LENGTH
  {
    ('A' as int + k) as char
  }

  /** Strict lexicographic order by character code, the order a byte-wise
      `memcmp` of two equally long buffers reports. */
  predicate Less(a: seq<char>, b: seq<char>)
    requires |a| == |b|
  {
    |a| > 0 && (a[0] < b[0] || (a[0] == b[0] && Less(a[1..], b[1..])))
  }

  predicate LessEq(a: seq<char>, b: seq<char>)
    requires |a| == |b|
  {
    a == b || Less(a, b)
  }

  /** `memcmp(a, b, |a|)`: the difference of the first differing bytes, or 0. */
  function Compare(a: seq<char>, b: seq<char>): (r: int)
    requires |a| == |b|
    ensures r == 0 <==> a == b
    ensures r < 0 <==> Less(a, b)
    ensures r > 0 <==> Less(b, a)
  {
    if |a| == 0 then 0
    else if a[0] != b[0] then a[0] as int - b[0] as int
    else
      var r := Compare(a[1..], b[1..]);
      assert a == [a[0]] + a[1..] && b == [b[0]] + b[1..];
      r
  }

  lemma {:induction false} LessIrreflexive(a: seq<char>)
    ensures !Less(a, a)
  {
    if |a| > 0 {
      LessIrreflexive(a[1..]);
    }
  }

  lemma {:induction false} LessAsymmetric(a: seq<char>, b: seq<char>)
    requires |a| == |b| && Less(a, b)
    ensures !Less(b, a)
  {
    if a[0] == b[0] {
      LessAsymmetric(a[1..], b[1..]);
    }
  }

  lemma {:induction false} LessTransitive(a: seq<char>, b: seq<char>, c: seq<char>)
    requires |a| == |b| == |c|
    requires Less(a, b) && Less(b, c)
    ensures Less(a, c)
  {
    if a[0] == b[0] && b[0] == c[0] {
      LessTransitive(a[1..], b[1..], c[1..]);
    }
  }

  /** Any two distinct words of the same length are ordered one way or the other. */
  lemma {:induction false} LessTotal(a: seq<char>, b: seq<char>)
    requires |a| == |b|
    ensures a == b || Less(a, b) || Less(b, a)
  {
    if |a| > 0 && a[0] == b[0] {
      LessTotal(a[1..], b[1..]);
      assert a == [a[0]] + a[1..] && b == [b[0]] + b[1..];
    }
  }
}
