# Wordle in Dafny

This project models the game logic of a terminal Wordle clone (`WORDLE/wordle.py`).

- The game draws a five-letter answer from a word list.
- It accepts up to six guesses. Each guess must be five lower-case letters and a listed word.
- It scores every guess as a check string of green, yellow and red marks, and ends on an all-green board or after six guesses.
- It counts each finished game in a statistics table, keyed by the number of guesses a win took, or "Fail".

The model has five modules, one file each:

- `letters.dfy` (`Letters`): the alphabet `alpha` and `dictify`, which builds a letter-count map.
- `scoring.dfy` (`Scoring`): `create_check_string`.
  - Two functions, `ForwardMarks` and `BackwardMarks`, say what the forward and backward passes produce.
  - `Score` says which of the two strings is returned.
  - The methods `ForwardPass`, `BackwardPass` and `CreateCheckString` run the source's loops over a mutable count map. They are proved equal to those functions.
- `validation.dfy` (`Validation`): `check_valid_guess`. It is a loop method, proved equivalent to the predicate `IsValidGuess`.
- `display.dfy` (`Display`): `pretty_space`. It is a loop method, proved equal to the function `Spaced`, which `Unspaced` inverts.
- `game.dfy` (`Game`): the round logic of `play_game` and `print_board`.
  - The class `Round` holds the guess list, the guesses remaining and `win_check`.
  - The class `Stats` holds the statistics table.
  - `PlayGame` feeds a sequence of input lines to a round until the game ends.

The scoring is the source's own, not the textbook Wordle rule:

- A green takes one copy of its letter out of the answer's counts.
- A yellow takes nothing out of the counts.
- The two passes can disagree. The string with more reds is returned. On a tie, the backward string is returned, reversed.

As a result, a letter can be marked yellow more often than the answer holds it. This contradicts the usual statement that greens and yellows of a letter never outnumber its copies in the answer. The model follows the code; `YellowsAreNotCapped` proves an instance of this: answer "eabcd" and guess "xeeee" score red, yellow, yellow, yellow, yellow. The code returns the pass with more reds (WORDLE/wordle.py:76-79). For answer "abcde" and guess "aaxyz" this hides the yellow that the backward pass gives position 1, as `RedderPassWins` proves.

## Model

| member | source | states |
|---|---|---|
| Letters.AlphaMembership | WORDLE/wordle.py:5 | a character is in `alpha` exactly when it is a lower-case letter or the space |
| Letters.ZeroCounts | WORDLE/wordle.py:34-36 | the map has a key for each character of `alpha` and nothing else, and every count is zero |
| Letters.Dictify | WORDLE/wordle.py:33-39 | returns a KeyError for a character outside `alpha` exactly when the word has one; otherwise a map keyed by `alpha` giving each character's number of occurrences in the word |
| Scoring.ForwardPass | WORDLE/wordle.py:43-55 | the forward loop over positions 0..4 with a mutable count map produces `ForwardMarks`: green on an exact match, yellow when the letter is in the answer and its count, less the greens already passed, is positive, red otherwise |
| Scoring.BackwardPass | WORDLE/wordle.py:58-68 | the loop over positions 4..0 starts from fresh counts and produces `BackwardMarks`, in traversal order |
| Scoring.CreateCheckString | WORDLE/wordle.py:42-79 | the check string is `Score`: the forward string if it has more reds than the backward one, else the backward string reversed |
| Scoring.GreensAtMostOccurrences | WORDLE/wordle.py:49-51 | the greens of a letter over any range of positions never outnumber its occurrences in the answer |
| Scoring.CountsNeverNegative | WORDLE/wordle.py:51-52 | the count a pass consults at any position is never negative |
| Scoring.RedCountReverse | WORDLE/wordle.py:73-79 | reversing a check string keeps its number of reds |
| Scoring.PickAt | WORDLE/wordle.py:76-79 | the chosen string is five long; position i comes from the forward string, or from position 4 - i of the backward string |
| Scoring.MarksAt | WORDLE/wordle.py:48-68 | the forward string holds position i's mark at index i, the backward string at index 4 - i |
| Scoring.ScoreAt | WORDLE/wordle.py:73-79 | mark i of the result is position i's mark in the pass that has more reds, or in the backward pass on a tie |
| Scoring.GreenIffExactMatch | WORDLE/wordle.py:49-50 | a position is green exactly when guess and answer have the same letter there |
| Scoring.AllGreenIffSameWord | WORDLE/wordle.py:42-79 | the check string is all green exactly when the guess's five letters are the answer's |
| Scoring.AbsentLetterIsRed | WORDLE/wordle.py:52-55 | a letter that is not in the answer is red |
| Scoring.YellowIsMisplaced | WORDLE/wordle.py:49-53 | a yellow letter is in the answer but not at that position |
| Scoring.UnclaimedLetterIsYellow | WORDLE/wordle.py:52-53 | a misplaced letter with more copies in the answer than the greens take is yellow, whichever pass wins |
| Scoring.RedCountIsMax | WORDLE/wordle.py:73-79 | the result has as many reds as the redder pass |
| Scoring.NoMatchesMeansMembership | WORDLE/wordle.py:52-55 | when no position matches, a position is yellow exactly when its letter is in the answer, and red otherwise |
| Scoring.YellowsAreNotCapped | WORDLE/wordle.py:52-53 | an answer with one copy of a letter, against a guess with four copies at other positions, scores red followed by four yellows |
| Scoring.ForwardPassExample | WORDLE/wordle.py:48-55 | a guess repeating the answer's single first letter in its first two places gets green and then four reds from the forward pass |
| Scoring.BackwardPassExample | WORDLE/wordle.py:61-68 | the same guess gets red, red, red, yellow, green from the backward pass |
| Scoring.RedderPassWins | WORDLE/wordle.py:73-79 | for that guess the passes disagree, and the forward string, which has more reds, is returned |
| Validation.LowerKeepsLowercase | WORDLE/wordle.py:114 | lower-casing a word of lower-case letters leaves it unchanged |
| Validation.CheckValidGuess | WORDLE/wordle.py:108-116 | accepts exactly the guesses that are five characters long, consist only of lower-case letters (space rejected) and are in the word list |
| Validation.ValidGuessIsScorable | WORDLE/wordle.py:108-116 | an accepted guess has five characters, all of them keys of the letter counts, and no space |
| Display.SpacedShape | WORDLE/wordle.py:84-89 | the spaced form is 2n+1 long, with the word's letters in order at the odd positions and a space at every even one |
| Display.UnspacedSpaced | WORDLE/wordle.py:84-89 | the word can be read back from its spaced form |
| Display.PrettySpace | WORDLE/wordle.py:84-89 | the loop that appends each letter and a space to a leading space builds `Spaced(word)` |
| Game.RecordingAddsOneGame | WORDLE/wordle.py:147-155 | counting a finished game under one of the seven keys adds exactly one to the total number of games |
| Game.SolvesIffSameWord | WORDLE/wordle.py:100-104 | for five-letter words, the board is all green exactly when the guess is the answer |
| Game.Accepted | WORDLE/wordle.py:133-141 | the guesses taken from the input are no more than the input lines, and each is a valid input line |
| Game.AcceptedAppend | WORDLE/wordle.py:133-141 | the guesses taken from two stretches of input, one after the other, are the guesses taken from the whole input |
| Game.ValidGuessesExtend | WORDLE/wordle.py:141 | appending a valid guess after a guess other than the answer keeps every guess valid and the answer only at the end |
| Game.CountingKeepsValid | WORDLE/wordle.py:150-154 | adding one to a key keeps the statistics keyed by the seven keys and non-negative |
| Game.Stats.constructor | WORDLE/wordle.py:7-15 | the statistics start with each of the keys 1-6 and Fail at zero |
| Game.Round.constructor | WORDLE/wordle.py:121-126 | a new round has the answer at the chosen index, no guesses, six guesses remaining and `win_check` false |
| Game.Round.Outcome | WORDLE/wordle.py:148-155 | a finished game is counted under one of the seven keys: under its number of guesses when the last guess is the answer, under Fail otherwise |
| Game.Round.PrintBoard | WORDLE/wordle.py:92-104 | returns the check string of every guess, in order; `win_check` ends up true exactly when the last guess spells the answer, which `AllGreenIffSameWord` proves is the source's all-green test on the last board |
| Game.Round.UpdateStats | WORDLE/wordle.py:147-155 | on a win, adds one to the key `6 - guesses_remaining`; otherwise, when no guesses remain, adds one to Fail; otherwise changes nothing |
| Game.Round.SubmitGuess | WORDLE/wordle.py:133-155 | an invalid line changes nothing. A valid one is appended, uses up one guess and sets `win_check` to whether it is the answer. A game that ends is counted once under its key. The round invariant holds: at most six guesses, each valid, and only the last can be the answer |
| Game.PlayGame | WORDLE/wordle.py:119-155 | the round's guesses are the valid lines among those it consumed. It stops on the line that ends the game, or when the input runs out. The statistics gain one count under the game's outcome when it ended, and are unchanged otherwise |

## Left out

- Loading the word list from `words.txt` (lines 18-25) is not modelled. The word list is a parameter.
- The random choice of the answer (line 124) becomes an index parameter. An empty word list, on which `randrange(0)` raises, is excluded by the constructor's requirement that the index be in range.
- Screen clearing, `sleep`, the welcome and result messages, the title sequence, the menu loop (lines 194-223) and `show_stats` (lines 159-190) are not modelled. They are output, pacing and menu control only.
- `input()` becomes a sequence of lines. When the sequence runs out before the game ends, `PlayGame` returns an unfinished round; the source would wait for more input.
- The check strings' emoji are the `Mark` values `Green`, `Yellow` and `Red`. The printed boards, `pretty_space(word.upper())` and the blank lines are not part of `PrintBoard`'s result; `PrettySpace` models the spacing on its own.
- `string_dict` (lines 44 and 59) is computed and never used. Its only effect is the KeyError it raises for a guess outside `alpha`. `CreateCheckString` and `Score` require every character of the guess and the answer to be in `alpha`.
- Scoring.CreateCheckString: the source raises IndexError when the guess or the answer has fewer than five characters, and KeyError when either has a character outside `alpha`. The model requires both to be long enough and inside `alpha` instead of modelling the exceptions. `Dictify` alone models the KeyError as a result value.
- Game.Round.constructor: requires the answer to be five characters from `alpha`. A word-list entry that is not would make the source raise on the first scored guess.
- Validation.Lower: lower-cases the ASCII capitals only, not the rest of Unicode. It is applied only after every character has been checked to be a lower-case letter, so the result is the same.
