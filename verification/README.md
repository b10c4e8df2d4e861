# Assembly: Endgame — the round state machine in Dafny

Assembly: Endgame is a word-guessing game. A hidden word is revealed letter by letter as the
player clicks letters on an on-screen keyboard. Each wrong guess marks one programming
language of a catalog as "lost". The round is lost when every language but the last one
(Assembly) is lost, and it is won when every letter of the word has been guessed.

The state of a round is two values: the target word and the guessed letters, in click
order. This project models that state and everything the screen derives from it.

- `game.dfy`, module `Game`: the round (`Session`) and the derived values. These are the
  wrong-guess count, won, lost, over, the last guess, whether the last guess was incorrect,
  and the attempts left. The module also holds the two transitions: `Click` (a key press)
  with its game-over guard `Guess`, and `NewRound` (the reset).
- `board.dfy`, module `Board`: what the screen shows. It covers the tiles of the word, the
  keyboard's per-letter classification, the language bar and the status panel with its
  farewell message.
- `rounds.dfy`, module `Rounds`: sequences of player actions. A key press is admitted only
  for alphabet letters and only while the game is not over. New Game is admitted only once
  the game is over. The module also defines the reachable states and proves the invariants
  that hold in all of them.
- `scenarios.dfy`, module `Scenarios`: whole rounds. Typing the word wins. Missing once per
  spare language loses. One miss short of that, typing the word still wins. It also proves
  three concrete rounds: REACT won, REACT lost, and a first miss against GO.

The language catalog is a parameter `languages: seq<Language>` of length N. With N ≥ 1, a
round allows at most N − 1 wrong guesses. The word source is not modelled. Its words arrive
as the argument of `NewRound` and of the `NewGame` event, and reachable states assume they
are non-empty.

Three details of the code shape the model:
- The New Game button is rendered only when the game is over (src/App.jsx:162), so a reset
  is only possible then.
- The attempts-left number (src/App.jsx:150) is not clamped at zero. `ReachableAttemptsLeft`
  proves it never goes negative in reachable states anyway.
- `isLastGuessIncorrect` (src/App.jsx:26) does not include "the game is not over". That
  condition is added where the farewell is rendered (src/App.jsx:80), and `GameStatus`
  models it there.

Two configuration edge cases follow from the code as written. Neither arises when the
catalog has at least two languages and every drawn word is non-empty:
- With a one-language catalog, a fresh round is already lost (`NewRoundState`).
- An empty word is won at once, because `every` over no letters is true. `Reachable` and
  `Consistent` therefore require non-empty words.

## Model

| member | source | states |
|---|---|---|
| `Game.Misses` | src/App.jsx:20 | a letter is among the misses exactly when it was guessed and is not in the word; there are never more misses than guesses, and repeat-free guesses give repeat-free misses |
| `Game.LastGuessedLetter` | src/App.jsx:25 | there is no last guess exactly when nothing was guessed; otherwise the guesses are the earlier ones followed by it |
| `Game.AttemptsLeft` | src/App.jsx:150 | the attempts left never exceed N − 1 and are at most zero exactly when the round is lost |
| `Game.Click` | src/App.jsx:66-70 | the word is kept; a letter already guessed leaves the guesses unchanged; a new letter is appended at the end and nothing else changes; afterwards the letters present are the old ones plus the clicked one |
| `Game.Guess` | src/App.jsx:60-70 | with every key disabled once the game is over, a guess then changes nothing; a letter already guessed changes nothing; while the game runs a new letter is appended to the earlier guesses; the word is kept |
| `Game.NewRound` | src/App.jsx:108-111 | a fresh round holds the drawn word and has no last guess |
| `Game.NewRoundState` | src/App.jsx:108-111 | a fresh round has no wrong guesses and N − 1 attempts left; it is won only for an empty word and lost only when N ≤ 1 |
| `Game.ClickWrongCount` | src/App.jsx:66-70 | a click raises the wrong-guess count by exactly one when the letter is new and not in the word, and leaves it unchanged otherwise |
| `Game.ClickIdempotent` | src/App.jsx:66-70 | clicking the same letter twice is the same as clicking it once |
| `Game.ClickKeepsDistinct` | src/App.jsx:67-69 | clicks keep the guessed letters free of repeats |
| `Game.GuessIdempotent` | src/App.jsx:60-70 | guessing a letter twice in a row is the same as guessing it once |
| `Game.GuessWrongCount` | src/App.jsx:20 | a guess never lowers the wrong-guess count; it raises it by at most one, and by exactly one when the game is running and the letter is new and misses the word |
| `Game.GuessAttemptsLeft` | src/App.jsx:150 | the attempts left drop by exactly one when a guess is accepted, new and misses the word, and stay the same otherwise |
| `Game.GuessKeepsOutcomeExclusive` | src/App.jsx:21-24 | a guess from a state that is not both won and lost leads to a state that is not both won and lost |
| `Game.GuessKeepsWrongBounded` | src/App.jsx:23 | a guess keeps the wrong-guess count within N − 1 |
| `Game.LastGuessIncorrectIsMiss` | src/App.jsx:25-26 | an incorrect last guess is one of the misses, so the wrong-guess count is at least one |
| `Board.WordTiles` | src/App.jsx:29-34 | there is one tile per letter of the word; a tile shows its letter exactly when the game is over or the letter was guessed, and is blank otherwise; it carries the "not-guessed" mark exactly when the game is over and the letter was never guessed |
| `Board.AllShownIffOver` | src/App.jsx:31-32 | every tile shows its letter exactly when the game is over, so the word is fully revealed on a win or a loss and never earlier |
| `Board.NotGuessedMarksIffLoss` | src/App.jsx:31 | some tile carries the "not-guessed" mark exactly when the round is lost and not won |
| `Board.KeyFor` | src/App.jsx:47-61 | each key is exactly one of correct, wrong and not guessed; it is wrong exactly when its letter is one of the misses; it is disabled exactly when the game is over and aria-disabled exactly when its letter was guessed |
| `Board.Keyboard` | src/App.jsx:46-64 | there is one key per alphabet letter, in alphabet order |
| `Board.WrongKeysMatchCount` | src/App.jsx:48-54 | when the guesses are repeat-free alphabet letters, the letters marked wrong are exactly the misses, and there are as many of them as the wrong-guess count |
| `Board.LanguageBar` | src/App.jsx:36-44 | the bar has one entry per language, and entry i is marked lost exactly when i is below the wrong-guess count |
| `Board.LostLanguages` | src/App.jsx:41 | the number of languages marked lost is min(wrong-guess count, N) |
| `Board.GameStatus` | src/App.jsx:79-106 | the farewell is shown exactly when the game is running and the last guess missed, and then it names the language at index wrong-guess count − 1, which lies in [0, N − 1); the win banner is shown exactly when the round is won; the loss banner is shown exactly when the round is lost and not won |
| `Rounds.Step` | src/App.jsx:157-162 | a press of an alphabet key is a guess of that letter; a key press keeps the word and changes nothing once the game is over or for a letter without a key; New Game changes nothing while the game runs and starts a fresh round on the drawn word once it is over |
| `Rounds.NewRoundConsistent` | src/App.jsx:108-111 | a fresh round on a non-empty word satisfies the round invariant for any non-empty catalog |
| `Rounds.StepKeepsConsistent` | src/App.jsx:60-70 | every admitted key press or New Game keeps the round invariant: non-empty word, repeat-free alphabet guesses, at most N − 1 wrong guesses, never both won and lost |
| `Rounds.PlayKeepsConsistent` | src/App.jsx:66-70 | any sequence of admitted actions keeps the round invariant |
| `Rounds.ReachableIsConsistent` | src/App.jsx:16-24 | every state reachable from the opening round satisfies the round invariant |
| `Rounds.ReachableOutcomesExclusive` | src/App.jsx:21-24 | a reachable round is never both won and lost |
| `Rounds.ReachableGuessesDistinct` | src/App.jsx:67-69 | in a reachable round no letter is guessed twice |
| `Rounds.ReachableAttemptsLeft` | src/App.jsx:150 | in a reachable round the wrong-guess count is at most N − 1, the attempts left are never negative, and they are zero exactly when the round is lost |
| `Rounds.ReachableLanguageBar` | src/App.jsx:41 | in a reachable round exactly wrong-guess-count languages are marked lost, and the last language is never marked |
| `Rounds.ReachableWrongKeys` | src/App.jsx:48-54 | in a reachable round the keyboard marks exactly wrong-guess-count letters wrong |
| `Rounds.PressesOnlyAdd` | src/App.jsx:66-70 | within a round, key presses keep the word, only add guesses and never lower the wrong-guess count; once the game is over they change nothing |
| `Scenarios.NoMissesWithinWord` | src/App.jsx:20 | guesses that are all letters of the word produce no misses |
| `Scenarios.TypingTheWordWins` | src/App.jsx:20-24 | typing every letter of the word into a round with a mistake to spare wins it, adds no wrong guess, and no letter on the way loses it |
| `Scenarios.GuessingTheWordWins` | src/App.jsx:21-22 | typing the letters of the word into a fresh round wins it with no wrong guess, provided N ≥ 2 |
| `Scenarios.NearLossStillWins` | src/App.jsx:21-24 | after N − 2 distinct misses the round is still running, and typing every letter of the word then wins it without passing through a loss |
| `Scenarios.MissFarewell` | src/App.jsx:80-82 | after the k-th of a run of distinct misses, while more than one language still stands, the status is the farewell to language k − 1 |
| `Scenarios.MissingEveryLanguageLoses` | src/App.jsx:23 | N − 1 distinct misses lose a fresh round and do not win it; each earlier miss shows the farewell to the language it used up |
| `Scenarios.LossRevealsWord` | src/App.jsx:31-32 | the round lost by N − 1 distinct misses shows the loss banner and every tile shows its letter |
| `Scenarios.ReactIsWon` | src/App.jsx:21-24 | with nine languages, typing R, E, A, C, T wins REACT with no wrong guess and shows the win banner |
| `Scenarios.ReactIsLost` | src/App.jsx:29-34 | with nine languages, the misses Q, W, X, Y, Z, B, M, P lose REACT, show the loss banner and reveal every letter |
| `Scenarios.GoFirstMiss` | src/App.jsx:80-82 | with nine languages, a first guess of Q against GO keeps the round running and bids farewell to the first language |

The derived values at src/App.jsx:20-26 are plain definitions without contracts, so they
have no rows: `Game.WrongGuessCount` (line 20), `Game.IsWon` (lines 21-22), `Game.IsLost`
(line 23), `Game.IsOver` (line 24) and `Game.IsLastGuessIncorrect` (line 26). The rows above
state their properties through the members that use them.

## Left out

- React state hooks and re-rendering (src/App.jsx:13-17) are left out. The state becomes an immutable `Session`, and each update is a function from the old session to the new one.
- The word source `getRandomWord` is not modelled because src/utils.js is not part of this model. The drawn word is a parameter of `NewRound` and of the `NewGame` event. Reachable states assume every drawn word is non-empty.
- `getFarewellText` is not modelled because src/utils.js is not part of this model. `GameStatus` yields the language name the message is built from.
- The contents of the language catalog are not modelled because src/languages.js is not part of this model. The catalog is any sequence of `Language` records.
- The confetti, the window size, JSX markup, CSS class strings and the `clsx` calls are presentation. Only the boolean conditions behind them are kept.
- The status-panel class list (src/App.jsx:72-76) is left out. It uses the same three conditions as `GameStatus`.
- The screen-reader sentences (src/App.jsx:146-154) are text formatting. The attempts-left number inside them is modelled as `AttemptsLeft`.
- src/components/Key.jsx is presentation and its `console.log` is a side effect. Its `disabled` attribute is the game-over guard in `Guess` and `Step`.
- Letter case is not normalised. Letters are opaque characters, and only the keyboard's A–Z alphabet is fixed.
