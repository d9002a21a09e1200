/** One game of Wordle: up to six accepted guesses against a fixed answer, the
    boards they produce, and the statistics kept across games. */
module Game {
  import opened Letters
  import opened Scoring
  import opened Validation

  /** The number of guesses a game allows. */
  const MaxGuesses: nat := 6

  /** A statistics key: a game solved in some number of guesses, or failed. */
  datatype Bucket = Solved(guesses: int) | Fail

  /** The seven keys the statistics keep: solved in one to six guesses, and failed. */
  predicate IsBucket(b: Bucket) {
    b.Fail? || 1 <= b.guesses <= MaxGuesses
  }

  /** A statistics map holds a count for every key. */
  ghost predicate HasAllBuckets(counts: map<Bucket, int>) {
    forall b :: IsBucket(b) ==> b in counts
  }

  /** The number of games a statistics map records. */
  function GamesPlayed(counts: map<Bucket, int>): int
    requires HasAllBuckets(counts)
  {
    counts[Solved(1)] + counts[Solved(2)] + counts[Solved(3)] + counts[Solved(4)]
    + counts[Solved(5)] + counts[Solved(6)] + counts[Fail]
  }

  /** Counting a finished game in its key adds exactly one game to the total. */
  lemma RecordingAddsOneGame(counts: map<Bucket, int>, b: Bucket)
    requires HasAllBuckets(counts) && IsBucket(b)
    ensures HasAllBuckets(counts[b := counts[b] + 1])
    ensures GamesPlayed(counts[b := counts[b] + 1]) == GamesPlayed(counts) + 1
  {
    if b.Solved? {
      assert b == Solved(b.guesses);
    }
  }

  /** For five-letter words the board shows a win exactly when the guess is the
      answer. */
  lemma SolvesIffSameWord(guess: string, answer: string)
    requires |guess| == 5 && |answer| == 5
    ensures Score(guess, answer) == AllGreen <==> guess == answer
  {
    AllGreenIffSameWord(guess, answer);
    assert guess[..5] == guess && answer[..5] == answer;
  }

  /** The check strings of a list of guesses, in order. */
  function Boards(guesses: seq<string>, answer: string): (r: seq<seq<Mark>>)
    requires 5 <= |answer|
    requires forall j :: 0 <= j < |guesses| ==> 5 <= |guesses[j]|
  {
    seq(|guesses|, j requires 0 <= j < |guesses| => Score(guesses[j], answer))
  }

  /** The input lines a game takes as guesses, in order: the valid ones. */
  function Accepted(inputs: seq<string>, wordList: seq<string>): (r: seq<string>)
    ensures |r| <= |inputs|
    ensures forall g :: g in r ==> g in inputs && IsValidGuess(g, wordList)
  {
    if |inputs| == 0 then []
    else
      var line := inputs[|inputs| - 1];
      Accepted(inputs[..|inputs| - 1], wordList) + (if IsValidGuess(line, wordList) then [line] else [])
  }

  /** Taking guesses from two stretches of input one after the other is taking
      them from the whole input. */
  lemma {:induction false} AcceptedAppend(first: seq<string>, second: seq<string>, wordList: seq<string>)
    ensures Accepted(first + second, wordList) == Accepted(first, wordList) + Accepted(second, wordList)
    decreases |second|
  {
    if |second| > 0 {
      var init := second[..|second| - 1];
      assert (first + second)[..|first + second| - 1] == first + init;
      AcceptedAppend(first, init, wordList);
    } else {
      assert first + second == first;
    }
  }

  /** The guesses of a game still in play or just ended: each one valid, and
      none but the last equal to the answer. */
  ghost predicate ValidGuesses(guesses: seq<string>, wordList: seq<string>, answer: string) {
    && (forall j :: 0 <= j < |guesses| ==> IsValidGuess(guesses[j], wordList))
    && (forall j :: 0 <= j < |guesses| - 1 ==> guesses[j] != answer)
  }

  /** A valid guess after a guess that was not the answer keeps the guesses valid. */
  lemma ValidGuessesExtend(guesses: seq<string>, guess: string, wordList: seq<string>, answer: string)
    requires ValidGuesses(guesses, wordList, answer)
    requires guesses == [] || guesses[|guesses| - 1] != answer
    requires IsValidGuess(guess, wordList)
    ensures ValidGuesses(guesses + [guess], wordList, answer)
  {
    var longer := guesses + [guess];
    assert forall j :: 0 <= j < |guesses| ==> longer[j] == guesses[j];
  }

  /** The counts are keyed by exactly the seven keys and never negative. */
  ghost predicate ValidCounts(counts: map<Bucket, int>) {
    (forall b :: b in counts <==> IsBucket(b)) && (forall b :: b in counts ==> counts[b] >= 0)
  }

  /** Counting one more game under a key keeps the counts valid. */
  lemma CountingKeepsValid(counts: map<Bucket, int>, b: Bucket)
    requires ValidCounts(counts) && IsBucket(b)
    ensures ValidCounts(counts[b := counts[b] + 1])
  {
  }

  /** The per-key game counts, shared by every game of a session. */
  class Stats {
    var counts: map<Bucket, int>

    /** The counts are keyed by exactly the seven keys and never negative. */
    ghost predicate Valid()
      reads this
    {
      ValidCounts(counts)
    }

    /** A session starts with every key at zero. */
    constructor()
      ensures Valid()
      ensures forall b :: b in counts ==> counts[b] == 0
    {
      counts := map[Solved(1) := 0, Solved(2) := 0, Solved(3) := 0, Solved(4) := 0,
                    Solved(5) := 0, Solved(6) := 0, Fail := 0];
      new;
      forall b | IsBucket(b) && b.Solved?
        ensures b in counts
      {
        var g := b.guesses;
        assert g == 1 || g == 2 || g == 3 || g == 4 || g == 5 || g == 6;
      }
    }
  }

  /** The state of one game: the guesses so far, how many remain, whether the
      last board was a win, and the answer being guessed. */
  class Round {
    const wordList: seq<string>
    const answer: string
    const stats: Stats
    var guessesList: seq<string>
    var guessesRemaining: int
    var winCheck: bool

    /** Every accepted guess is valid, the guesses so far and those remaining
        make six, only the last guess can be the answer, and `winCheck` says
        whether it is (which `SolvesIffSameWord` ties to the all-green board). */
    ghost predicate Valid()
      reads this, stats
    {
      && stats.Valid()
      && |answer| == 5 && InAlpha(answer)
      && 0 <= guessesRemaining <= MaxGuesses
      && |guessesList| + guessesRemaining == MaxGuesses
      && ValidGuesses(guessesList, wordList, answer)
      && winCheck == (|guessesList| > 0 && guessesList[|guessesList| - 1] == answer)
    }

    /** The game has ended: the last board was a win, or no guesses remain. */
    predicate Over()
      reads this
    {
      winCheck || guessesRemaining == 0
    }

    /** The key a finished game is counted under. */
    function Outcome(): (b: Bucket)
      requires Valid() && Over()
      reads this, stats
      ensures IsBucket(b)
      ensures b.Solved? <==> winCheck
      ensures b.Solved? ==> b.guesses == |guessesList| && guessesList[|guessesList| - 1] == answer
    {
      if winCheck then Solved(MaxGuesses - guessesRemaining)
      else Fail
    }

    /** A new game against the word at `idx` of the word list. */
    constructor(wordList: seq<string>, idx: nat, stats: Stats)
      requires idx < |wordList| && |wordList[idx]| == 5 && InAlpha(wordList[idx])
      requires stats.Valid()
      ensures Valid()
      ensures this.wordList == wordList && answer == wordList[idx] && this.stats == stats
      ensures guessesList == [] && guessesRemaining == MaxGuesses && !winCheck
    {
      this.wordList := wordList;
      this.stats := stats;
      winCheck := false;
      answer := wordList[idx];
      guessesList := [];
      guessesRemaining := MaxGuesses;
    }

    /** Scores every guess so far, in order, setting `winCheck` from each
        board in turn, so that it ends up saying whether the last board is all
        green, that is (by `AllGreenIffSameWord`) whether the last guess spells
        the answer. */
    method PrintBoard() returns (boards: seq<seq<Mark>>)
      requires |guessesList| > 0
      requires 5 <= |answer| && InAlpha(answer)
      requires forall j :: 0 <= j < |guessesList| ==> 5 <= |guessesList[j]| && InAlpha(guessesList[j])
      modifies this`winCheck
      ensures boards == Boards(guessesList, answer)
      ensures winCheck == (guessesList[|guessesList| - 1][..5] == answer[..5])
    {
      boards := [];
      for j := 0 to |guessesList|
        invariant |boards| == j
        invariant forall k :: 0 <= k < j ==> boards[k] == Score(guessesList[k], answer)
        invariant j > 0 ==> winCheck == (boards[j - 1] == AllGreen)
      {
        var word := guessesList[j];
        var checkString := CreateCheckString(word, answer);
        boards := boards + [checkString];
        winCheck := checkString == AllGreen;
      }
      AllGreenIffSameWord(guessesList[|guessesList| - 1], answer);
    }

    /** One turn: a line that is not a valid guess changes nothing; a valid one
        is added to the guesses, the board is scored, one guess is used up, and
        a game that has just ended is counted in the statistics. */
    method SubmitGuess(guess: string) returns (accepted: bool)
      requires Valid() && !Over()
      modifies this, stats
      ensures Valid()
      ensures accepted == IsValidGuess(guess, wordList)
      ensures !accepted ==> guessesList == old(guessesList) && guessesRemaining == old(guessesRemaining)
                            && winCheck == old(winCheck)
      ensures accepted ==> guessesList == old(guessesList) + [guess]
                           && guessesRemaining == old(guessesRemaining) - 1
                           && (winCheck <==> guess == answer)
      ensures accepted && winCheck
              ==> stats.counts == old(stats.counts)[Solved(|guessesList|) := old(stats.counts)[Solved(|guessesList|)] + 1]
      ensures accepted && !winCheck && guessesRemaining == 0
              ==> stats.counts == old(stats.counts)[Fail := old(stats.counts)[Fail] + 1]
      ensures !accepted || !Over() ==> stats.counts == old(stats.counts)
    {
      accepted := CheckValidGuess(guess, wordList);
      if !accepted {
        return;
      }
      ValidGuessesExtend(guessesList, guess, wordList, answer);
      guessesList := guessesList + [guess];
      assert forall j :: 0 <= j < |guessesList| ==> IsValidGuess(guessesList[j], wordList);
      var boards := PrintBoard();
      guessesRemaining := guessesRemaining - 1;
      assert guess[..5] == guess && answer[..5] == answer;
      assert |guessesList| == MaxGuesses - guessesRemaining;
      assert stats.counts == old(stats.counts);
      UpdateStats();
    }

    /** Counts a game that has just ended: under the number of guesses it took
        when the last board was a win, under the failures when the guesses ran
        out; a game still in play changes nothing. */
    method UpdateStats()
      requires stats.Valid()
      requires 0 <= guessesRemaining < MaxGuesses
      modifies stats
      ensures stats.Valid()
      ensures stats.counts == if winCheck then old(stats.counts)[Solved(MaxGuesses - guessesRemaining) := old(stats.counts)[Solved(MaxGuesses - guessesRemaining)] + 1]
                              else if guessesRemaining == 0 then old(stats.counts)[Fail := old(stats.counts)[Fail] + 1]
                              else old(stats.counts)
    {
      if winCheck {
        var key := Solved(MaxGuesses - guessesRemaining);
        CountingKeepsValid(stats.counts, key);
        stats.counts := stats.counts[key := stats.counts[key] + 1];
      } else if guessesRemaining == 0 {
        CountingKeepsValid(stats.counts, Fail);
        stats.counts := stats.counts[Fail := stats.counts[Fail] + 1];
      }
    }
  }

  /** A whole game against the word at `idx`, reading guesses from `inputs`
      until the game ends or the input runs out. */
  method PlayGame(wordList: seq<string>, idx: nat, stats: Stats, inputs: seq<string>)
    returns (round: Round, consumed: nat)
    requires idx < |wordList| && |wordList[idx]| == 5 && InAlpha(wordList[idx])
    requires stats.Valid()
    modifies stats
    ensures fresh(round) && round.Valid()
    ensures round.stats == stats && round.wordList == wordList && round.answer == wordList[idx]
    ensures consumed <= |inputs|
    ensures round.guessesList == Accepted(inputs[..consumed], wordList)
    ensures round.Over() || consumed == |inputs|
    ensures round.Over() ==> 0 < consumed && inputs[consumed - 1] == round.guessesList[|round.guessesList| - 1]
    ensures stats.counts == if round.Over()
                            then old(stats.counts)[round.Outcome() := old(stats.counts)[round.Outcome()] + 1]
                            else old(stats.counts)
  {
    round := new Round(wordList, idx, stats);
    consumed := 0;
    while !round.Over() && consumed < |inputs|
      invariant consumed <= |inputs|
      invariant fresh(round) && round.Valid()
      invariant round.stats == stats && round.wordList == wordList && round.answer == wordList[idx]
      invariant round.guessesList == Accepted(inputs[..consumed], wordList)
      invariant round.Over() ==> 0 < consumed && inputs[consumed - 1] == round.guessesList[|round.guessesList| - 1]
      invariant stats.counts == if round.Over()
                                then old(stats.counts)[round.Outcome() := old(stats.counts)[round.Outcome()] + 1]
                                else old(stats.counts)
      decreases |inputs| - consumed
    {
      var accepted := round.SubmitGuess(inputs[consumed]);
      assert inputs[..consumed + 1][..consumed] == inputs[..consumed];
      consumed := consumed + 1;
    }
  }
}
