/** Scoring a guess against the answer: two directional passes over the five
    positions, and the choice of the pass with more reds. */
module Scoring {
  import opened Letters

  /** The feedback for one position: exact match, present elsewhere, absent. */
  datatype Mark = Green | Yellow | Red

  /** The check string of a solved puzzle. */
  const AllGreen: seq<Mark> := [Green, Green, Green, Green, Green]

  /** The number of positions j in [lo, hi) where both the guess and the answer
      hold `c`: the greens that take one `c` out of the answer's count. */
  function GreensOf(word: string, answer: string, c: char, lo: nat, hi: nat): nat
    requires lo <= hi <= |word| && hi <= |answer|
    decreases hi - lo
  {
    if lo == hi then 0
    else (if word[lo] == c && answer[lo] == c then 1 else 0) + GreensOf(word, answer, c, lo + 1, hi)
  }

  /** The mark a pass gives position `i` when `left` is the answer's remaining
      count for the letter `word[i]`. */
  function Classify(word: string, answer: string, i: nat, left: int): Mark
    requires i < |word| && i < |answer|
  {
    if word[i] == answer[i] then Green
    else if word[i] in answer && left > 0 then Yellow
    else Red
  }

  /** The remaining count of `word[i]` when the forward pass reaches `i`:
      the positions before `i` have been visited. */
  function ForwardLeft(word: string, answer: string, i: nat): int
    requires i < 5 <= |word| && 5 <= |answer|
  {
    Occurrences(answer, word[i]) - GreensOf(word, answer, word[i], 0, i)
  }

  /** The remaining count of `word[i]` when the backward pass reaches `i`:
      the positions after `i` have been visited. */
  function BackwardLeft(word: string, answer: string, i: nat): int
    requires i < 5 <= |word| && 5 <= |answer|
  {
    Occurrences(answer, word[i]) - GreensOf(word, answer, word[i], i + 1, 5)
  }

  /** The mark the forward pass gives position `i`. */
  function ForwardMark(word: string, answer: string, i: nat): Mark
    requires i < 5 <= |word| && 5 <= |answer|
  {
    Classify(word, answer, i, ForwardLeft(word, answer, i))
  }

  /** The mark the backward pass gives position `i`. */
  function BackwardMark(word: string, answer: string, i: nat): Mark
    requires i < 5 <= |word| && 5 <= |answer|
  {
    Classify(word, answer, i, BackwardLeft(word, answer, i))
  }

  /** The first check string, built in position order. */
  function ForwardMarks(word: string, answer: string): seq<Mark>
    requires 5 <= |word| && 5 <= |answer|
  {
    [ForwardMark(word, answer, 0), ForwardMark(word, answer, 1), ForwardMark(word, answer, 2),
     ForwardMark(word, answer, 3), ForwardMark(word, answer, 4)]
  }

  /** The second check string, built in the order the backward pass visits the
      positions: 4, 3, 2, 1, 0. */
  function BackwardMarks(word: string, answer: string): seq<Mark>
    requires 5 <= |word| && 5 <= |answer|
  {
    [BackwardMark(word, answer, 4), BackwardMark(word, answer, 3), BackwardMark(word, answer, 2),
     BackwardMark(word, answer, 1), BackwardMark(word, answer, 0)]
  }

  /** `s` read from its last element to its first. */
  function Reverse<T>(s: seq<T>): seq<T> {
    seq(|s|, i requires 0 <= i < |s| => s[|s| - 1 - i])
  }

  /** The number of red marks in a check string. */
  function RedCount(s: seq<Mark>): nat {
    if s == [] then 0 else (if s[0] == Red then 1 else 0) + RedCount(s[1..])
  }

  /** The choice between the two check strings: the forward one when it holds
      strictly more reds, otherwise the backward one put back in position
      order. */
  function Pick(forward: seq<Mark>, backward: seq<Mark>): seq<Mark> {
    if RedCount(forward) > RedCount(backward) then forward else Reverse(backward)
  }

  /** The check string returned for `word`. */
  function Score(word: string, answer: string): (r: seq<Mark>)
    requires 5 <= |word| && 5 <= |answer|
    ensures |r| == 5
  {
    Pick(ForwardMarks(word, answer), BackwardMarks(word, answer))
  }

  /** `dict` is the answer's count map after the greens at positions [lo, hi)
      have each taken one occurrence of their letter. */
  predicate CountsLeft(dict: map<char, int>, word: string, answer: string, lo: nat, hi: nat)
    requires lo <= hi <= |word| && hi <= |answer|
  {
    && KeyedByAlpha(dict)
    && forall c :: c in dict ==> dict[c] == Occurrences(answer, c) - GreensOf(word, answer, c, lo, hi)
  }

  /** `cs` holds the first `k` marks of the forward pass. */
  predicate ForwardPrefix(cs: seq<Mark>, word: string, answer: string, k: nat)
    requires k <= 5 <= |word| && 5 <= |answer|
  {
    |cs| == k && forall j :: 0 <= j < k ==> cs[j] == ForwardMark(word, answer, j)
  }

  /** `cs` holds the first `k` marks of the backward pass, which are those of
      positions 4 down to 5 - k. */
  predicate BackwardPrefix(cs: seq<Mark>, word: string, answer: string, k: nat)
    requires k <= 5 <= |word| && 5 <= |answer|
  {
    |cs| == k && forall j :: 0 <= j < k ==> cs[j] == BackwardMark(word, answer, 4 - j)
  }

  /** The first half of the scorer: visits positions 0 to 4, marking each one
      and taking every green's letter out of the answer's counts. */
  method ForwardPass(word: string, answer: string) returns (checkString1: seq<Mark>)
    requires 5 <= |word| && 5 <= |answer|
    requires InAlpha(word) && InAlpha(answer)
    ensures checkString1 == ForwardMarks(word, answer)
  {
    checkString1 := [];
    var counted := Dictify(answer);
    var answerDict := counted.dict;
    FreshCounts(answerDict, word, answer, 0);
    for i := 0 to 5
      invariant CountsLeft(answerDict, word, answer, 0, i)
      invariant ForwardPrefix(checkString1, word, answer, i)
    {
      ghost var before := answerDict;
      ForwardLeftIsCount(word, answer, answerDict, i);
      var mark: Mark;
      if word[i] == answer[i] {
        mark := Green;
        answerDict := answerDict[word[i] := answerDict[word[i]] - 1];
      } else if word[i] in answer && answerDict[word[i]] > 0 {
        mark := Yellow;
      } else {
        mark := Red;
      }
      ForwardStep(word, answer, before, i);
      ForwardPrefixExtend(checkString1, word, answer, i, mark);
      checkString1 := checkString1 + [mark];
    }
    ForwardPrefixComplete(checkString1, word, answer);
  }

  /** The second half of the scorer: the same marking over positions 4 down to
      0, starting again from the answer's full counts. */
  method BackwardPass(word: string, answer: string) returns (checkString2: seq<Mark>)
    requires 5 <= |word| && 5 <= |answer|
    requires InAlpha(word) && InAlpha(answer)
    ensures checkString2 == BackwardMarks(word, answer)
  {
    checkString2 := [];
    var counted := Dictify(answer);
    var answerDict := counted.dict;
    FreshCounts(answerDict, word, answer, 5);
    // step k visits position 4 - k
    for k := 0 to 5
      invariant CountsLeft(answerDict, word, answer, 5 - k, 5)
      invariant BackwardPrefix(checkString2, word, answer, k)
    {
      var i := 4 - k;
      ghost var before := answerDict;
      BackwardLeftIsCount(word, answer, answerDict, i);
      var mark: Mark;
      if word[i] == answer[i] {
        mark := Green;
        answerDict := answerDict[word[i] := answerDict[word[i]] - 1];
      } else if word[i] in answer && answerDict[word[i]] > 0 {
        mark := Yellow;
      } else {
        mark := Red;
      }
      BackwardStep(word, answer, before, i);
      BackwardPrefixExtend(checkString2, word, answer, k, mark);
      checkString2 := checkString2 + [mark];
    }
    BackwardPrefixComplete(checkString2, word, answer);
  }

  lemma ForwardPrefixExtend(cs: seq<Mark>, word: string, answer: string, k: nat, m: Mark)
    requires k < 5 <= |word| && 5 <= |answer|
    requires ForwardPrefix(cs, word, answer, k) && m == ForwardMark(word, answer, k)
    ensures ForwardPrefix(cs + [m], word, answer, k + 1)
  {
  }

  lemma BackwardPrefixExtend(cs: seq<Mark>, word: string, answer: string, k: nat, m: Mark)
    requires k < 5 <= |word| && 5 <= |answer|
    requires BackwardPrefix(cs, word, answer, k) && m == BackwardMark(word, answer, 4 - k)
    ensures BackwardPrefix(cs + [m], word, answer, k + 1)
  {
  }

  lemma ForwardPrefixComplete(cs: seq<Mark>, word: string, answer: string)
    requires 5 <= |word| && 5 <= |answer|
    requires ForwardPrefix(cs, word, answer, 5)
    ensures cs == ForwardMarks(word, answer)
  {
  }

  lemma BackwardPrefixComplete(cs: seq<Mark>, word: string, answer: string)
    requires 5 <= |word| && 5 <= |answer|
    requires BackwardPrefix(cs, word, answer, 5)
    ensures cs == BackwardMarks(word, answer)
  {
  }

  /** The scorer: runs both passes and returns the string with more reds, the
      backward one put back in position order when it is not fewer. */
  method CreateCheckString(word: string, answer: string) returns (check: seq<Mark>)
    requires 5 <= |word| && 5 <= |answer|
    requires InAlpha(word) && InAlpha(answer)
    ensures check == Score(word, answer)
  {
    var checkString1 := ForwardPass(word, answer);
    var checkString2 := BackwardPass(word, answer);
    var count1 := RedCount(checkString1);
    var count2 := RedCount(checkString2);
    if count1 > count2 {
      check := checkString1;
    } else {
      check := Reverse(checkString2);
    }
  }

  /** A count map fresh from counting the answer reflects no greens yet. */
  lemma FreshCounts(dict: map<char, int>, word: string, answer: string, n: nat)
    requires n <= 5 <= |word| && 5 <= |answer|
    requires KeyedByAlpha(dict)
    requires forall c :: c in dict ==> dict[c] == Occurrences(answer, c)
    ensures CountsLeft(dict, word, answer, n, n)
  {
  }

  /** Where the forward pass stands at `i`, the count map holds `ForwardLeft`. */
  lemma ForwardLeftIsCount(word: string, answer: string, dict: map<char, int>, i: nat)
    requires i < 5 <= |word| && 5 <= |answer| && InAlpha(word)
    requires CountsLeft(dict, word, answer, 0, i)
    ensures word[i] in dict && dict[word[i]] == ForwardLeft(word, answer, i)
    ensures ForwardMark(word, answer, i) == Classify(word, answer, i, dict[word[i]])
  {
    assert IsAlpha(word[i]);
  }

  /** Where the backward pass stands at `i`, the count map holds `BackwardLeft`. */
  lemma BackwardLeftIsCount(word: string, answer: string, dict: map<char, int>, i: nat)
    requires i < 5 <= |word| && 5 <= |answer| && InAlpha(word)
    requires CountsLeft(dict, word, answer, i + 1, 5)
    ensures word[i] in dict && dict[word[i]] == BackwardLeft(word, answer, i)
    ensures BackwardMark(word, answer, i) == Classify(word, answer, i, dict[word[i]])
  {
    assert IsAlpha(word[i]);
  }

  /** One step of the forward pass: a green at `i` takes one occurrence of its
      letter, and the count map then reflects the greens of [0, i + 1). */
  lemma ForwardStep(word: string, answer: string, dict: map<char, int>, i: nat)
    requires i < 5 <= |word| && 5 <= |answer| && InAlpha(word)
    requires CountsLeft(dict, word, answer, 0, i)
    ensures word[i] in dict
    ensures CountsLeft(if word[i] == answer[i] then dict[word[i] := dict[word[i]] - 1] else dict, word, answer, 0, i + 1)
  {
    assert IsAlpha(word[i]);
    forall c | IsAlpha(c)
      ensures GreensOf(word, answer, c, 0, i + 1)
           == GreensOf(word, answer, c, 0, i) + (if word[i] == c && answer[i] == c then 1 else 0)
    {
      GreensExtend(word, answer, c, 0, i);
    }
  }

  /** One step of the backward pass: a green at `i` takes one occurrence of its
      letter, and the count map then reflects the greens of [i, 5). */
  lemma BackwardStep(word: string, answer: string, dict: map<char, int>, i: nat)
    requires i < 5 <= |word| && 5 <= |answer| && InAlpha(word)
    requires CountsLeft(dict, word, answer, i + 1, 5)
    ensures word[i] in dict
    ensures CountsLeft(if word[i] == answer[i] then dict[word[i] := dict[word[i]] - 1] else dict, word, answer, i, 5)
  {
    assert IsAlpha(word[i]);
  }

  /** Counting the greens of a range one position further. */
  lemma {:induction false} GreensExtend(word: string, answer: string, c: char, lo: nat, hi: nat)
    requires lo <= hi < |word| && hi < |answer|
    ensures GreensOf(word, answer, c, lo, hi + 1)
         == GreensOf(word, answer, c, lo, hi) + (if word[hi] == c && answer[hi] == c then 1 else 0)
    decreases hi - lo
  {
    if lo < hi {
      GreensExtend(word, answer, c, lo + 1, hi);
    }
  }

  /** Splitting a range of positions splits its greens. */
  lemma {:induction false} GreensSplit(word: string, answer: string, c: char, lo: nat, mid: nat, hi: nat)
    requires lo <= mid <= hi <= |word| && hi <= |answer|
    ensures GreensOf(word, answer, c, lo, hi) == GreensOf(word, answer, c, lo, mid) + GreensOf(word, answer, c, mid, hi)
    decreases mid - lo
  {
    if lo < mid {
      GreensSplit(word, answer, c, lo + 1, mid, hi);
    }
  }

  /** The greens of `c` in [lo, hi) never outnumber the occurrences of `c` in
      that stretch of the answer. */
  lemma {:induction false} GreensWithinSlice(word: string, answer: string, c: char, lo: nat, hi: nat)
    requires lo <= hi <= |word| && hi <= |answer|
    ensures GreensOf(word, answer, c, lo, hi) <= multiset(answer[lo..hi])[c]
    decreases hi - lo
  {
    if lo < hi {
      GreensWithinSlice(word, answer, c, lo + 1, hi);
      assert answer[lo..hi] == [answer[lo]] + answer[lo + 1..hi];
    }
  }

  /** A count is decremented only on a green, and the greens of a letter never
      outnumber its occurrences in the answer: no count goes below zero. */
  lemma GreensAtMostOccurrences(word: string, answer: string, c: char, lo: nat, hi: nat)
    requires lo <= hi <= |word| && hi <= |answer|
    ensures GreensOf(word, answer, c, lo, hi) <= Occurrences(answer, c)
  {
    GreensWithinSlice(word, answer, c, lo, hi);
    assert answer == answer[..lo] + answer[lo..hi] + answer[hi..];
  }

  /** Both passes see a non-negative count at every position. */
  lemma CountsNeverNegative(word: string, answer: string, i: nat)
    requires i < 5 <= |word| && 5 <= |answer|
    ensures ForwardLeft(word, answer, i) >= 0
    ensures BackwardLeft(word, answer, i) >= 0
  {
    GreensAtMostOccurrences(word, answer, word[i], 0, i);
    GreensAtMostOccurrences(word, answer, word[i], i + 1, 5);
  }

  /** Counting the reds of a string one mark from its end. */
  lemma {:induction false} RedCountSnoc(s: seq<Mark>, m: Mark)
    ensures RedCount(s + [m]) == RedCount(s) + (if m == Red then 1 else 0)
  {
    if s != [] {
      assert (s + [m])[1..] == s[1..] + [m];
      RedCountSnoc(s[1..], m);
    }
  }

  /** Reversal keeps the number of reds. */
  lemma {:induction false} RedCountReverse(s: seq<Mark>)
    ensures RedCount(Reverse(s)) == RedCount(s)
  {
    if s != [] {
      RedCountReverse(s[1..]);
      assert Reverse(s) == Reverse(s[1..]) + [s[0]];
      RedCountSnoc(Reverse(s[1..]), s[0]);
    }
  }

  /** Position `i` of the chosen string, read in position order. */
  lemma PickAt(forward: seq<Mark>, backward: seq<Mark>, i: nat)
    requires i < |forward| == |backward|
    ensures |Pick(forward, backward)| == |forward|
    ensures Pick(forward, backward)[i]
         == if RedCount(forward) > RedCount(backward) then forward[i] else backward[|backward| - 1 - i]
  {
    if RedCount(forward) <= RedCount(backward) {
      assert |Reverse(backward)| == |backward|;
      assert Reverse(backward)[i] == backward[|backward| - 1 - i];
    }
  }

  /** Position `i` of the result is the mark that position got in the pass
      that was chosen. */
  lemma ScoreAt(word: string, answer: string, i: nat)
    requires i < 5 <= |word| && 5 <= |answer|
    ensures Score(word, answer)[i]
         == if RedCount(ForwardMarks(word, answer)) > RedCount(BackwardMarks(word, answer))
            then ForwardMark(word, answer, i) else BackwardMark(word, answer, i)
  {
    var forward, backward := ForwardMarks(word, answer), BackwardMarks(word, answer);
    PickAt(forward, backward, i);
    MarksAt(word, answer, i);
  }

  /** Each pass's string holds position `i`'s mark, at `i` going forward and at
      `4 - i` going backward. */
  lemma MarksAt(word: string, answer: string, i: nat)
    requires i < 5 <= |word| && 5 <= |answer|
    ensures ForwardMarks(word, answer)[i] == ForwardMark(word, answer, i)
    ensures BackwardMarks(word, answer)[4 - i] == BackwardMark(word, answer, i)
  {
  }

  /** A position is green exactly when the guess has the answer's letter there. */
  lemma GreenIffExactMatch(word: string, answer: string, i: nat)
    requires i < 5 <= |word| && 5 <= |answer|
    ensures Score(word, answer)[i] == Green <==> word[i] == answer[i]
  {
    ScoreAt(word, answer, i);
  }

  /** The result is all green exactly when the guess's five positions spell the
      answer's: the win test. */
  lemma AllGreenIffSameWord(word: string, answer: string)
    requires 5 <= |word| && 5 <= |answer|
    ensures Score(word, answer) == AllGreen <==> word[..5] == answer[..5]
  {
    var r := Score(word, answer);
    forall i | 0 <= i < 5
      ensures r[i] == Green <==> word[i] == answer[i]
    {
      GreenIffExactMatch(word, answer, i);
    }
    if word[..5] == answer[..5] {
      assert forall i :: 0 <= i < 5 ==> word[i] == word[..5][i] == answer[..5][i] == answer[i];
    } else {
      var i :| 0 <= i < 5 && word[..5][i] != answer[..5][i];
      assert r[i] != AllGreen[i];
    }
  }

  /** A letter that does not occur in the answer is always red. */
  lemma AbsentLetterIsRed(word: string, answer: string, i: nat)
    requires i < 5 <= |word| && 5 <= |answer|
    requires word[i] !in answer
    ensures Score(word, answer)[i] == Red
  {
    ScoreAt(word, answer, i);
  }

  /** A yellow is a letter of the answer standing at a position where the answer
      has another letter. */
  lemma YellowIsMisplaced(word: string, answer: string, i: nat)
    requires i < 5 <= |word| && 5 <= |answer|
    requires Score(word, answer)[i] == Yellow
    ensures word[i] != answer[i] && word[i] in answer
  {
    ScoreAt(word, answer, i);
  }

  /** A misplaced letter of which the answer holds more copies than all five
      greens take is yellow, whichever pass is chosen. */
  lemma UnclaimedLetterIsYellow(word: string, answer: string, i: nat)
    requires i < 5 <= |word| && 5 <= |answer|
    requires word[i] != answer[i]
    requires GreensOf(word, answer, word[i], 0, 5) < Occurrences(answer, word[i])
    ensures Score(word, answer)[i] == Yellow
  {
    ScoreAt(word, answer, i);
    GreensSplit(word, answer, word[i], 0, i, 5);
    GreensSplit(word, answer, word[i], i, i + 1, 5);
    assert Occurrences(answer, word[i]) > 0;
  }

  /** The result carries as many reds as the redder of the two passes. */
  lemma RedCountIsMax(word: string, answer: string)
    requires 5 <= |word| && 5 <= |answer|
    ensures RedCount(Score(word, answer))
         == Max(RedCount(ForwardMarks(word, answer)), RedCount(BackwardMarks(word, answer)))
  {
    RedCountReverse(BackwardMarks(word, answer));
  }

  /** The larger of two red counts. */
  function Max(a: int, b: int): int {
    if a < b then b else a
  }

  /** Where no position matches, no pass takes anything out of the counts. */
  lemma {:induction false} NoGreensWithoutMatches(word: string, answer: string, c: char, lo: nat, hi: nat)
    requires lo <= hi <= |word| && hi <= |answer|
    requires forall j :: lo <= j < hi ==> word[j] != answer[j]
    ensures GreensOf(word, answer, c, lo, hi) == 0
    decreases hi - lo
  {
    if lo < hi {
      NoGreensWithoutMatches(word, answer, c, lo + 1, hi);
    }
  }

  /** Where no position matches, both passes agree: a position is yellow exactly
      when its letter occurs somewhere in the answer. */
  lemma NoMatchesMeansMembership(word: string, answer: string, i: nat)
    requires i < 5 <= |word| && 5 <= |answer|
    requires forall j :: 0 <= j < 5 ==> word[j] != answer[j]
    ensures Score(word, answer)[i] == if word[i] in answer then Yellow else Red
  {
    ScoreAt(word, answer, i);
    NoGreensWithoutMatches(word, answer, word[i], 0, i);
    NoGreensWithoutMatches(word, answer, word[i], i + 1, 5);
    assert word[i] in answer ==> Occurrences(answer, word[i]) > 0;
  }

  /** Yellow never takes a letter out of the count, so a letter can be marked
      more often than the answer holds it: when the answer holds its first letter
      once and the guess repeats that letter in the last four places (answer
      "eabcd", guess "xeeee"), the guess gets one red and four yellows. */
  lemma YellowsAreNotCapped(word: string, answer: string)
    requires |word| == 5 && |answer| == 5
    requires word[0] !in answer
    requires forall j :: 1 <= j < 5 ==> word[j] == answer[0] != answer[j]
    ensures Occurrences(answer, answer[0]) == 1
    ensures Score(word, answer) == [Red, Yellow, Yellow, Yellow, Yellow]
  {
    assert answer == [answer[0]] + answer[1..];
    assert answer[0] !in answer[1..];
    NoMatchesMeansMembership(word, answer, 0);
    NoMatchesMeansMembership(word, answer, 1);
    NoMatchesMeansMembership(word, answer, 2);
    NoMatchesMeansMembership(word, answer, 3);
    NoMatchesMeansMembership(word, answer, 4);
  }

  /** The shape of the guess "aaxyz" against the answer "abcde": the answer
      holds its first letter once, the guess repeats it in its first two places,
      and the guess's other letters are not in the answer. */
  predicate RepeatedFirstLetter(word: string, answer: string) {
    && |word| == 5 && |answer| == 5
    && word[0] == word[1] == answer[0]
    && answer[0] !in answer[1..]
    && forall j :: 2 <= j < 5 ==> word[j] !in answer
  }

  /** The forward pass marks such a guess green, red, red, red, red: the green
      first letter has used the answer's only copy of it. */
  lemma ForwardPassExample(word: string, answer: string)
    requires RepeatedFirstLetter(word, answer)
    ensures ForwardMarks(word, answer) == [Green, Red, Red, Red, Red]
  {
    assert answer == [answer[0]] + answer[1..];
    assert Occurrences(answer, answer[0]) == 1;
    assert GreensOf(word, answer, word[1], 1, 1) == 0;
  }

  /** Going backward, the second copy is visited before the green one and is
      still yellow. */
  lemma BackwardPassExample(word: string, answer: string)
    requires RepeatedFirstLetter(word, answer)
    ensures BackwardMarks(word, answer) == [Red, Red, Red, Yellow, Green]
  {
    assert answer == [answer[0]] + answer[1..];
    assert Occurrences(answer, answer[0]) == 1;
    NoGreensWithoutMatches(word, answer, word[1], 2, 5);
  }

  /** The passes can disagree, and then the redder one is returned. */
  lemma RedderPassWins(word: string, answer: string)
    requires RepeatedFirstLetter(word, answer)
    ensures Reverse(BackwardMarks(word, answer)) != ForwardMarks(word, answer)
    ensures Score(word, answer) == ForwardMarks(word, answer) == [Green, Red, Red, Red, Red]
  {
    ForwardPassExample(word, answer);
    BackwardPassExample(word, answer);
    var forward: seq<Mark> := [Green, Red, Red, Red, Red];
    var backward: seq<Mark> := [Red, Red, Red, Yellow, Green];
    assert Reverse(backward)[1] != forward[1];
    assert RedCount(forward) == 4;
    assert RedCount(backward) == 3;
  }
}
