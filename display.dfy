/** The board's spelling of a guess: its letters with a space before, between
    and after them. */
module Display {

  /** The spaced-out form of `word`, built left to right as the display loop
      builds it: a leading space, then each letter followed by a space. */
  function Spaced(word: string): string
  {
    if |word| == 0 then " "
    else Spaced(word[..|word| - 1]) + [word[|word| - 1], ' ']
  }

  /** The spaced form has a space at every even position and the word's
      letters, in order, at the odd positions. */
  lemma {:induction false} SpacedShape(word: string)
    ensures |Spaced(word)| == 2 * |word| + 1
    ensures forall i :: 0 <= i < |word| ==> Spaced(word)[2 * i + 1] == word[i]
    ensures forall k :: 0 <= k <= |word| ==> Spaced(word)[2 * k] == ' '
  {
    if |word| > 0 {
      var init := word[..|word| - 1];
      SpacedShape(init);
      assert forall i :: 0 <= i < |init| ==> init[i] == word[i];
    }
  }

  /** The letters at the odd positions of `s`: the inverse of `Spaced`. */
  function Unspaced(s: string): (r: string)
    ensures |r| == |s| / 2
    ensures forall i :: 0 <= i < |r| ==> r[i] == s[2 * i + 1]
  {
    if |s| < 2 then [] else [s[1]] + Unspaced(s[2..])
  }

  /** Spacing a word out loses nothing: the word can be read back. */
  lemma UnspacedSpaced(word: string)
    ensures Unspaced(Spaced(word)) == word
  {
    SpacedShape(word);
  }

  /** Builds the spaced form by appending each letter and a space to a string
      that starts as a single space. */
  method PrettySpace(word: string) returns (s: string)
    ensures s == Spaced(word)
  {
    s := " ";
    for i := 0 to |word|
      invariant s == Spaced(word[..i])
    {
      assert word[..i + 1][..i] == word[..i];
      s := s + [word[i]];
      s := s + " ";
    }
    assert word[..|word|] == word;
  }
}
