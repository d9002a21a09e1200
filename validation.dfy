/** Deciding whether a typed line is an acceptable guess: five characters, each
    a lower-case letter, and the lower-cased line is a word of the word list. */
module Validation {
  import opened Letters

  /** The guess length the game plays with. */
  const WordLength: nat := 5

  /** `c` is a lower-case letter: in the alphabet and not the space. */
  predicate IsLowercase(c: char) {
    'a' <= c <= 'z'
  }

  /** Every character of `s` is a lower-case letter. */
  predicate IsLowercaseWord(s: string) {
    forall i :: 0 <= i < |s| ==> IsLowercase(s[i])
  }

  /** What makes a guess valid, stated without the scan that decides it. */
  predicate IsValidGuess(guess: string, wordList: seq<string>) {
    |guess| == WordLength && IsLowercaseWord(guess) && guess in wordList
  }

  /** Lower-casing of one character, for the ASCII capitals. */
  function LowerChar(c: char): (r: char)
    ensures 'A' <= c <= 'Z' ==> 'a' <= r <= 'z' && r as int - c as int == 'a' as int - 'A' as int
    ensures !('A' <= c <= 'Z') ==> r == c
  {
    if 'A' <= c <= 'Z' then (c as int - 'A' as int + 'a' as int) as char else c
  }

  /** Lower-casing of a string, character by character. */
  function Lower(s: string): (r: string)
    ensures |r| == |s|
    ensures forall i :: 0 <= i < |s| ==> r[i] == LowerChar(s[i])
  {
    seq(|s|, i requires 0 <= i < |s| => LowerChar(s[i]))
  }

  /** Lower-casing leaves a word of lower-case letters as it is. */
  lemma LowerKeepsLowercase(s: string)
    requires IsLowercaseWord(s)
    ensures Lower(s) == s
  {
    assert forall i :: 0 <= i < |s| ==> Lower(s)[i] == s[i];
  }

  /** The validity check: the length first, then every character must be in
      `Alpha` and not be the space, then the lower-cased guess must be listed. */
  method CheckValidGuess(guess: string, wordList: seq<string>) returns (ok: bool)
    ensures ok <==> IsValidGuess(guess, wordList)
  {
    if |guess| != WordLength {
      return false;
    }
    for i := 0 to |guess|
      invariant forall j :: 0 <= j < i ==> IsLowercase(guess[j])
    {
      var letter := guess[i];
      AlphaMembership(letter);
      if letter !in Alpha || letter == ' ' {
        return false;
      }
    }
    LowerKeepsLowercase(guess);
    if Lower(guess) !in wordList {
      return false;
    }
    return true;
  }

  /** A valid guess can be scored: five characters, all of them keys of the
      letter counts. */
  lemma ValidGuessIsScorable(guess: string, wordList: seq<string>)
    requires IsValidGuess(guess, wordList)
    ensures |guess| == 5 && InAlpha(guess)
    ensures ' ' !in guess
  {
  }
}
