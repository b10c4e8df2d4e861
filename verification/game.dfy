/** The state of one round of Assembly: Endgame and the values the screen derives from it.

    A round is two values: the target word and the letters guessed so far, in click order.
    Everything else (wrong-guess count, won, lost, the last guess) is a pure function of them
    and of the language catalog, whose length bounds the number of wrong guesses. */
module Game {

  datatype Option<T> = None | Some(value: T)

  /** One entry of the language catalog. The game uses only its position and its name;
      the colours are handed to the view unchanged. */
  datatype Language = Language(name: string, color: string, backgroundColor: string)

  /** A round: the target word and the guessed letters in the order they were clicked. */
  datatype Session = Session(word: string, guesses: seq<char>)

  /** No letter occurs twice. */
  predicate Distinct(s: seq<char>)
  {
    forall i, j :: 0 <= i < j < |s| ==> s[i] != s[j]
  }

  /** The guesses that are not letters of the word, in guessing order. */
  function Misses(word: string, guesses: seq<char>): (r: seq<char>)
    ensures |r| <= |guesses|
    ensures forall c :: c in r <==> c in guesses && c !in word
    ensures Distinct(guesses) ==> Distinct(r)
  {
    if |guesses| == 0 then []
    else
      var earlier := guesses[..|guesses| - 1];
      var c := guesses[|guesses| - 1];
      assert guesses == earlier + [c];
      var prev := Misses(word, earlier);
      if c in word then prev
      else
        assert Distinct(guesses) ==> c !in earlier;
        prev + [c]
  }

  /** How many guesses missed the word. */
  function WrongGuessCount(s: Session): nat
  {
    |Misses(s.word, s.guesses)|
  }

  /** Every letter of the word has been guessed. */
  predicate IsWon(s: Session)
  {
    forall i :: 0 <= i < |s.word| ==> s.word[i] in s.guesses
  }

  /** The wrong guesses have used up every language but the last. */
  predicate IsLost(languages: seq<Language>, s: Session)
  {
    WrongGuessCount(s) >= |languages| - 1
  }

  predicate IsOver(languages: seq<Language>, s: Session)
  {
    IsWon(s) || IsLost(languages, s)
  }

  /** The most recent guess, absent before the first one. */
  function LastGuessedLetter(s: Session): (r: Option<char>)
    ensures r.None? <==> s.guesses == []
    ensures r.Some? ==> r.value in s.guesses
    ensures r.Some? ==> s.guesses == s.guesses[..|s.guesses| - 1] + [r.value]
  {
    if s.guesses == [] then None else Some(s.guesses[|s.guesses| - 1])
  }

  /** There is a last guess and it is not in the word. */
  predicate IsLastGuessIncorrect(s: Session)
  {
    match LastGuessedLetter(s)
    case None => false
    case Some(c) => c !in s.word
  }

  /** The number the screen reader announces as attempts left; not clamped at zero. */
  function AttemptsLeft(languages: seq<Language>, s: Session): (r: int)
    ensures r <= 0 <==> IsLost(languages, s)
    ensures r <= |languages| - 1
  {
    |languages| - 1 - WrongGuessCount(s)
  }

  /** A key press: a letter already guessed changes nothing, a new one is appended. */
  function Click(s: Session, c: char): (r: Session)
    ensures r.word == s.word
    ensures forall x :: x in r.guesses <==> x in s.guesses || x == c
    ensures c in s.guesses ==> r.guesses == s.guesses
    ensures c !in s.guesses ==>
              && |r.guesses| == |s.guesses| + 1
              && r.guesses[..|s.guesses|] == s.guesses
              && r.guesses[|s.guesses|] == c
  {
    if c in s.guesses then s else s.(guesses := s.guesses + [c])
  }

  /** A guess as the keyboard admits it: every key is disabled once the game is over. */
  function Guess(languages: seq<Language>, s: Session, c: char): (r: Session)
    ensures IsOver(languages, s) ==> r == s
    ensures c in s.guesses ==> r == s
    ensures !IsOver(languages, s) && c !in s.guesses ==> r.guesses == s.guesses + [c]
    ensures r.word == s.word
    ensures c in r.guesses <==> c in s.guesses || !IsOver(languages, s)
  {
    if IsOver(languages, s) then s else Click(s, c)
  }

  /** A fresh round on a newly drawn word. */
  function NewRound(word: string): (r: Session)
    ensures r.word == word
    ensures LastGuessedLetter(r).None?
  {
    Session(word, [])
  }

  /** A fresh round has no wrong guesses, is won only if the word is empty and is lost only
      if the catalog leaves no room for a single mistake. */
  lemma NewRoundState(languages: seq<Language>, word: string)
    ensures WrongGuessCount(NewRound(word)) == 0
    ensures IsWon(NewRound(word)) <==> word == []
    ensures IsLost(languages, NewRound(word)) <==> |languages| <= 1
    ensures AttemptsLeft(languages, NewRound(word)) == |languages| - 1
  {
    if word != [] {
      assert word[0] !in NewRound(word).guesses;
    }
  }

  /** Clicking a new letter that misses the word raises the wrong-guess count by exactly one;
      any other click leaves it unchanged. */
  lemma {:induction false} ClickWrongCount(s: Session, c: char)
    ensures WrongGuessCount(Click(s, c)) ==
              WrongGuessCount(s) + (if c !in s.guesses && c !in s.word then 1 else 0)
  {
    if c !in s.guesses {
      var g := s.guesses + [c];
      assert g[..|g| - 1] == s.guesses;
      assert g[|g| - 1] == c;
    }
  }

  /** Clicking twice is clicking once. */
  lemma ClickIdempotent(s: Session, c: char)
    ensures Click(Click(s, c), c) == Click(s, c)
  {
  }

  /** Clicks keep the guesses free of repeats. */
  lemma ClickKeepsDistinct(s: Session, c: char)
    requires Distinct(s.guesses)
    ensures Distinct(Click(s, c).guesses)
  {
  }

  /** Guessing the same letter twice in a row is the same as guessing it once. */
  lemma GuessIdempotent(languages: seq<Language>, s: Session, c: char)
    ensures Guess(languages, Guess(languages, s, c), c) == Guess(languages, s, c)
  {
  }

  /** The wrong-guess count never decreases under a guess; it grows by one exactly when the
      guess is accepted, new, and not in the word. */
  lemma GuessWrongCount(languages: seq<Language>, s: Session, c: char)
    ensures WrongGuessCount(Guess(languages, s, c)) >= WrongGuessCount(s)
    ensures WrongGuessCount(Guess(languages, s, c)) == WrongGuessCount(s) + 1 <==>
              !IsOver(languages, s) && c !in s.guesses && c !in s.word
    ensures WrongGuessCount(Guess(languages, s, c)) <= WrongGuessCount(s) + 1
  {
    if !IsOver(languages, s) {
      ClickWrongCount(s, c);
    }
  }

  /** The attempts left drop by exactly one when a guess is accepted, new, and not in the
      word, and stay the same otherwise. */
  lemma GuessAttemptsLeft(languages: seq<Language>, s: Session, c: char)
    ensures AttemptsLeft(languages, Guess(languages, s, c)) ==
              AttemptsLeft(languages, s)
              - (if !IsOver(languages, s) && c !in s.guesses && c !in s.word then 1 else 0)
  {
    if !IsOver(languages, s) {
      ClickWrongCount(s, c);
    }
  }

  /** A guess made while the game is running never produces a state that is both won and
      lost. */
  lemma GuessKeepsOutcomeExclusive(languages: seq<Language>, s: Session, c: char)
    requires !(IsWon(s) && IsLost(languages, s))
    ensures !(IsWon(Guess(languages, s, c)) && IsLost(languages, Guess(languages, s, c)))
  {
    if !IsOver(languages, s) {
      var r := Click(s, c);
      ClickWrongCount(s, c);
      if c !in s.guesses && c !in s.word {
        var i :| 0 <= i < |s.word| && s.word[i] !in s.guesses;
        assert s.word[i] !in r.guesses;
      }
    }
  }

  /** A guess made while the game is running keeps the wrong-guess count within the
      catalog's budget of |languages| - 1. */
  lemma GuessKeepsWrongBounded(languages: seq<Language>, s: Session, c: char)
    requires WrongGuessCount(s) <= |languages| - 1
    ensures WrongGuessCount(Guess(languages, s, c)) <= |languages| - 1
  {
    GuessWrongCount(languages, s, c);
  }

  /** A last guess outside the word is itself a wrong guess, so the count is at least one. */
  lemma LastGuessIncorrectIsMiss(s: Session)
    requires IsLastGuessIncorrect(s)
    ensures WrongGuessCount(s) >= 1
    ensures LastGuessedLetter(s).value in Misses(s.word, s.guesses)
  {
  }
}
