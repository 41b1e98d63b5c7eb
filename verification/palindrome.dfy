/**
 * Palindrome tests over a deque of characters: the outermost pair is taken
 * off both ends, the rest is tested recursively, and the pair is put back.
 * A character comparator generalises "the same character".
 */
module Palindromes {
  import opened Wrappers
  import opened Deques

  /** `wordToDeque`: a deque holding the characters of `word`, front to back. */
  method WordToDeque(word: string) returns (letter: LinkedDeque<char>)
    ensures fresh(letter) && letter.Valid() && letter.items == word
  {
    letter := new LinkedDeque<char>();
    var i := 0;
    while i < |word|
      invariant 0 <= i <= |word|
      invariant letter.Valid() && letter.items == word[..i]
      invariant fresh(letter)
    {
      letter.AddLast(word[i]);
      i := i + 1;
    }
  }

  /**
   * What the recursive helpers compute on a deque holding `s`: sequences of
   * at most one character pass, and otherwise the outer pair must satisfy
   * `equalChars` and the inside must pass.
   */
  function PalindromeBy(s: seq<char>, equalChars: (char, char) -> bool): bool
    decreases |s|
  {
    if |s| <= 1 then true
    else equalChars(s[0], s[|s| - 1]) && PalindromeBy(s[1..|s| - 1], equalChars)
  }

  /** Every character pairs with its mirror image. */
  ghost predicate MirrorPairs(s: seq<char>, equalChars: (char, char) -> bool)
  {
    forall i :: 0 <= i < |s| / 2 ==> equalChars(s[i], s[|s| - 1 - i])
  }

  /** The recursion checks exactly the mirror pairs of the first half. */
  lemma {:induction false} PalindromeByPairs(s: seq<char>, equalChars: (char, char) -> bool)
    ensures PalindromeBy(s, equalChars) <==> MirrorPairs(s, equalChars)
    decreases |s|
  {
    if |s| > 1 {
      var inner := s[1..|s| - 1];
      PalindromeByPairs(inner, equalChars);
      assert forall i :: 0 <= i < |inner| ==> inner[i] == s[i + 1];
      if MirrorPairs(s, equalChars) {
        forall i | 0 <= i < |inner| / 2
          ensures equalChars(inner[i], inner[|inner| - 1 - i])
        {
          assert inner[|inner| - 1 - i] == s[|s| - 1 - (i + 1)];
        }
      }
      if equalChars(s[0], s[|s| - 1]) && MirrorPairs(inner, equalChars) {
        forall i | 0 <= i < |s| / 2
          ensures equalChars(s[i], s[|s| - 1 - i])
        {
          if i > 0 {
            assert s[i] == inner[i - 1] && s[|s| - 1 - i] == inner[|inner| - 1 - (i - 1)];
          }
        }
      }
    }
  }

  function Reverse(s: seq<char>): (r: seq<char>)
    ensures |r| == |s| && forall i :: 0 <= i < |s| ==> r[i] == s[|s| - 1 - i]
  {
    if s == [] then [] else Reverse(s[1..]) + [s[0]]
  }

  /** With plain character equality, passing means reading the same backwards. */
  lemma PalindromeIsReverse(s: seq<char>)
    ensures PalindromeBy(s, (a: char, b: char) => a == b) <==> s == Reverse(s)
  {
    var same := (a: char, b: char) => a == b;
    PalindromeByPairs(s, same);
    if MirrorPairs(s, same) {
      forall i | 0 <= i < |s|
        ensures s[i] == Reverse(s)[i]
      {
        if i >= |s| / 2 {
          assert same(s[|s| - 1 - i], s[|s| - 1 - (|s| - 1 - i)]);
        }
      }
    }
    if s == Reverse(s) {
      forall i | 0 <= i < |s| / 2
        ensures same(s[i], s[|s| - 1 - i])
      {
        assert s[i] == Reverse(s)[i];
      }
    }
  }

  /** Words of at most one character are palindromes under any comparator. */
  lemma ShortWordsPass(s: seq<char>, equalChars: (char, char) -> bool)
    requires |s| <= 1
    ensures PalindromeBy(s, equalChars)
  {
  }

  /**
   * The recursive helper of both `isPalindrome` overloads: removes the front
   * and the back, recurses, and adds them back.  The deque ends as it began.
   */
  method PalindromeHelper(letter: LinkedDeque<char>, equalChars: (char, char) -> bool) returns (b: bool)
    requires letter.Valid()
    modifies letter
    ensures letter.Valid() && letter.items == old(letter.items)
    ensures b == PalindromeBy(old(letter.items), equalChars)
    decreases |letter.items|
  {
    if letter.Size() <= 1 {
      return true;
    }
    ghost var s := letter.items;
    var f := letter.RemoveFirst();
    var l := letter.RemoveLast();
    assert letter.items == s[1..|s| - 1];
    var nextL := PalindromeHelper(letter, equalChars);
    letter.AddFirst(f.value);
    letter.AddLast(l.value);
    assert letter.items == [s[0]] + s[1..|s| - 1] + [s[|s| - 1]] == s;
    return equalChars(f.value, l.value) && nextL;
  }

  /** `isPalindrome(word)`: `word` reads the same backwards (case matters). */
  method IsPalindrome(word: string) returns (b: bool)
    ensures b <==> word == Reverse(word)
  {
    var letter := WordToDeque(word);
    b := PalindromeHelper(letter, (a: char, c: char) => a == c);
    PalindromeIsReverse(word);
  }

  /** `isPalindrome(word, cc)`: each character pairs with its mirror under `cc`. */
  method IsPalindromeBy(word: string, equalChars: (char, char) -> bool) returns (b: bool)
    ensures b <==> MirrorPairs(word, equalChars)
  {
    var letter := WordToDeque(word);
    b := PalindromeHelper(letter, equalChars);
    PalindromeByPairs(word, equalChars);
  }

  /** The off-by-one comparator: the character codes differ by exactly one. */
  predicate OffByOne(a: char, b: char)
  {
    a as int - b as int == 1 || b as int - a as int == 1
  }

  /** The off-by-one comparator is symmetric and never pairs a character with itself. */
  lemma OffByOneSymmetric(a: char, b: char)
    ensures OffByOne(a, b) <==> OffByOne(b, a)
    ensures !OffByOne(a, a)
  {
  }
}
