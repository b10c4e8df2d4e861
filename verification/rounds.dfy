/** Sequences of player actions and the invariants that hold in every state a player can
    reach from a fresh round. */
module Rounds {
  import opened Game
  import opened Board

  /** What the player can do: press a letter key, or press New Game (the word source's next
      word travels with the event, since drawing it is outside the model). */
  datatype Event = Press(letter: char) | NewGame(word: string)

  /** One action as the screen admits it: only alphabet letters have keys, every key is
      disabled once the game is over, and the New Game button is shown only then. */
  function Step(languages: seq<Language>, s: Session, e: Event): (r: Session)
    ensures e.Press? ==> r.word == s.word
    ensures e.Press? && e.letter in Alphabet ==> r == Guess(languages, s, e.letter)
    ensures IsOver(languages, s) && e.Press? ==> r == s
    ensures !IsOver(languages, s) && e.NewGame? ==> r == s
    ensures IsOver(languages, s) && e.NewGame? ==> r.word == e.word && r.guesses == []
    ensures e.Press? && e.letter !in Alphabet ==> r == s
  {
    match e
    case Press(c) => if c in Alphabet then Guess(languages, s, c) else s
    case NewGame(w) => if IsOver(languages, s) then NewRound(w) else s
  }

  /** The state after a sequence of actions. */
  function Play(languages: seq<Language>, s: Session, events: seq<Event>): Session
  {
    if |events| == 0 then s
    else Step(languages, Play(languages, s, events[..|events| - 1]), events[|events| - 1])
  }

  /** Every word drawn for a new game is non-empty. */
  predicate NonEmptyWords(events: seq<Event>)
  {
    forall i :: 0 <= i < |events| ==> events[i].NewGame? ==> |events[i].word| > 0
  }

  /** Every action is a key press. */
  predicate OnlyPresses(events: seq<Event>)
  {
    forall i :: 0 <= i < |events| ==> events[i].Press?
  }

  /** States the player can reach from the round that opens the app. */
  ghost predicate Reachable(languages: seq<Language>, s: Session)
  {
    exists word: string, events: seq<Event> ::
      && |word| > 0
      && NonEmptyWords(events)
      && s == Play(languages, NewRound(word), events)
  }

  /** The facts that every reachable state keeps. */
  predicate Consistent(languages: seq<Language>, s: Session)
  {
    && |s.word| > 0
    && Distinct(s.guesses)
    && (forall c :: c in s.guesses ==> c in Alphabet)
    && WrongGuessCount(s) <= |languages| - 1
    && !(IsWon(s) && IsLost(languages, s))
  }

  /** A fresh round on a non-empty word is consistent with any non-empty catalog. */
  lemma NewRoundConsistent(languages: seq<Language>, word: string)
    requires |languages| >= 1
    requires |word| > 0
    ensures Consistent(languages, NewRound(word))
  {
    NewRoundState(languages, word);
  }

  /** Every admitted action keeps a state consistent. */
  lemma StepKeepsConsistent(languages: seq<Language>, s: Session, e: Event)
    requires |languages| >= 1
    requires Consistent(languages, s)
    requires e.NewGame? ==> |e.word| > 0
    ensures Consistent(languages, Step(languages, s, e))
  {
    match e
    case Press(c) =>
      if c in Alphabet {
        GuessKeepsOutcomeExclusive(languages, s, c);
        GuessKeepsWrongBounded(languages, s, c);
        if !IsOver(languages, s) {
          ClickKeepsDistinct(s, c);
        }
      }
    case NewGame(w) =>
      if IsOver(languages, s) {
        NewRoundConsistent(languages, w);
      }
  }

  lemma {:induction false} PlayKeepsConsistent(languages: seq<Language>, s: Session, events: seq<Event>)
    requires |languages| >= 1
    requires Consistent(languages, s)
    requires NonEmptyWords(events)
    ensures Consistent(languages, Play(languages, s, events))
  {
    if |events| > 0 {
      var front := events[..|events| - 1];
      assert NonEmptyWords(front);
      PlayKeepsConsistent(languages, s, front);
      StepKeepsConsistent(languages, Play(languages, s, front), events[|events| - 1]);
    }
  }

  /** Every reachable state is consistent. */
  lemma ReachableIsConsistent(languages: seq<Language>, s: Session)
    requires |languages| >= 1
    requires Reachable(languages, s)
    ensures Consistent(languages, s)
  {
    var word, events :| |word| > 0 && NonEmptyWords(events) && s == Play(languages, NewRound(word), events);
    NewRoundConsistent(languages, word);
    PlayKeepsConsistent(languages, NewRound(word), events);
  }

  /** A reachable round is never both won and lost. */
  lemma ReachableOutcomesExclusive(languages: seq<Language>, s: Session)
    requires |languages| >= 1
    requires Reachable(languages, s)
    ensures !(IsWon(s) && IsLost(languages, s))
  {
    ReachableIsConsistent(languages, s);
  }

  /** In a reachable round the guessed letters never repeat. */
  lemma ReachableGuessesDistinct(languages: seq<Language>, s: Session)
    requires |languages| >= 1
    requires Reachable(languages, s)
    ensures Distinct(s.guesses)
  {
    ReachableIsConsistent(languages, s);
  }

  /** In a reachable round the wrong-guess count stays within |languages| - 1, so the
      attempts left are never negative, and they reach zero exactly on a loss. */
  lemma ReachableAttemptsLeft(languages: seq<Language>, s: Session)
    requires |languages| >= 1
    requires Reachable(languages, s)
    ensures WrongGuessCount(s) <= |languages| - 1
    ensures AttemptsLeft(languages, s) >= 0
    ensures AttemptsLeft(languages, s) == 0 <==> IsLost(languages, s)
  {
    ReachableIsConsistent(languages, s);
  }

  /** In a reachable round the language bar marks exactly wrong-guess-count languages lost,
      and the last language of the catalog is never marked. */
  lemma ReachableLanguageBar(languages: seq<Language>, s: Session)
    requires |languages| >= 1
    requires Reachable(languages, s)
    ensures CountLost(LanguageBar(languages, s)) == WrongGuessCount(s)
    ensures !LanguageBar(languages, s)[|languages| - 1]
  {
    ReachableIsConsistent(languages, s);
    LostLanguages(languages, s);
  }

  /** In a reachable round the keyboard marks exactly wrong-guess-count letters wrong. */
  lemma ReachableWrongKeys(languages: seq<Language>, s: Session)
    requires |languages| >= 1
    requires Reachable(languages, s)
    ensures |MarkedWrong(Keyboard(languages, s))| == WrongGuessCount(s)
  {
    ReachableIsConsistent(languages, s);
    WrongKeysMatchCount(languages, s);
  }

  /** Within a round, key presses keep the word, only ever add guesses and never lower the
      wrong-guess count; once the game is over they change nothing at all. */
  lemma {:induction false} PressesOnlyAdd(languages: seq<Language>, s: Session, events: seq<Event>)
    requires OnlyPresses(events)
    ensures Play(languages, s, events).word == s.word
    ensures forall c :: c in s.guesses ==> c in Play(languages, s, events).guesses
    ensures WrongGuessCount(Play(languages, s, events)) >= WrongGuessCount(s)
    ensures IsOver(languages, s) ==> Play(languages, s, events) == s
  {
    if |events| > 0 {
      var front := events[..|events| - 1];
      assert OnlyPresses(front);
      PressesOnlyAdd(languages, s, front);
      var mid := Play(languages, s, front);
      var c := events[|events| - 1].letter;
      if c in Alphabet {
        GuessWrongCount(languages, mid, c);
      }
    }
  }
}
