/** Whole rounds: guessing the word wins, missing once per spare language loses, one miss
    short of that the word still wins, and three concrete rounds: REACT won, REACT lost, and
    a first miss against GO. */
module Scenarios {
  import opened Game
  import opened Board
  import opened Rounds

  /** The key presses that type out a sequence of letters. */
  function Presses(letters: seq<char>): (r: seq<Event>)
    ensures |r| == |letters|
    ensures forall i :: 0 <= i < |r| ==> r[i] == Press(letters[i])
  {
    seq(|letters|, i requires 0 <= i < |letters| => Press(letters[i]))
  }

  /** Typing one more letter is one more step. */
  lemma PlayPressesStep(languages: seq<Language>, s: Session, letters: seq<char>, k: nat)
    requires 0 < k <= |letters|
    ensures Play(languages, s, Presses(letters[..k]))
            == Step(languages, Play(languages, s, Presses(letters[..k - 1])), Press(letters[k - 1]))
  {
    var evs := Presses(letters[..k]);
    assert evs[..k - 1] == Presses(letters[..k - 1]);
    assert evs[k - 1] == Press(letters[k - 1]);
  }

  /** Guesses drawn from the word never miss. */
  lemma {:induction false} NoMissesWithinWord(word: string, guesses: seq<char>)
    requires forall c :: c in guesses ==> c in word
    ensures Misses(word, guesses) == []
  {
    if |guesses| > 0 {
      var earlier := guesses[..|guesses| - 1];
      assert forall c :: c in earlier ==> c in guesses;
      NoMissesWithinWord(word, earlier);
      assert guesses[|guesses| - 1] in guesses;
    }
  }

  /** Typing the first k letters of the word into a round that has at least one mistake to
      spare keeps the word and the wrong-guess count, never loses, and leaves the round either
      won or holding all k letters. */
  lemma {:induction false} TypingPrefix(languages: seq<Language>, s: Session, k: nat)
    requires WrongGuessCount(s) <= |languages| - 2
    requires k <= |s.word|
    requires forall c :: c in s.word ==> c in Alphabet
    ensures Play(languages, s, Presses(s.word[..k])).word == s.word
    ensures WrongGuessCount(Play(languages, s, Presses(s.word[..k]))) == WrongGuessCount(s)
    ensures !IsLost(languages, Play(languages, s, Presses(s.word[..k])))
    ensures || IsWon(Play(languages, s, Presses(s.word[..k])))
            || forall j :: 0 <= j < k ==> s.word[j] in Play(languages, s, Presses(s.word[..k])).guesses
  {
    if k > 0 {
      PlayPressesStep(languages, s, s.word, k);
      TypingPrefix(languages, s, k - 1);
      var mid := Play(languages, s, Presses(s.word[..k - 1]));
      var c := s.word[k - 1];
      var t := Play(languages, s, Presses(s.word[..k]));
      assert c in s.word && c in Alphabet;
      if IsOver(languages, mid) {
        assert t == mid;
      } else {
        assert t == Click(mid, c);
        ClickWrongCount(mid, c);
        assert forall j :: 0 <= j < k - 1 ==> s.word[j] in mid.guesses;
        assert c in t.guesses;
      }
    }
  }

  /** Typing the whole word into a round with a mistake to spare wins it and adds no wrong
      guess; no letter typed on the way loses it. */
  lemma TypingTheWordWins(languages: seq<Language>, s: Session)
    requires WrongGuessCount(s) <= |languages| - 2
    requires forall c :: c in s.word ==> c in Alphabet
    ensures IsWon(Play(languages, s, Presses(s.word)))
    ensures WrongGuessCount(Play(languages, s, Presses(s.word))) == WrongGuessCount(s)
    ensures forall k :: 0 <= k <= |s.word| ==> !IsLost(languages, Play(languages, s, Presses(s.word[..k])))
  {
    assert s.word[..|s.word|] == s.word;
    TypingPrefix(languages, s, |s.word|);
    forall k | 0 <= k <= |s.word|
      ensures !IsLost(languages, Play(languages, s, Presses(s.word[..k])))
    {
      TypingPrefix(languages, s, k);
    }
  }

  /** Typing the whole word into a fresh round wins it without a single wrong guess, as
      long as the catalog allows at least one mistake. */
  lemma GuessingTheWordWins(languages: seq<Language>, word: string)
    requires |languages| >= 2
    requires forall c :: c in word ==> c in Alphabet
    ensures IsWon(Play(languages, NewRound(word), Presses(word)))
    ensures WrongGuessCount(Play(languages, NewRound(word), Presses(word))) == 0
  {
    NewRoundState(languages, word);
    TypingTheWordWins(languages, NewRound(word));
  }

  /** A new letter that misses the word, pressed while the round is running, is appended
      and adds one wrong guess; the round stays unwon. */
  lemma MissStep(languages: seq<Language>, s: Session, c: char)
    requires !IsWon(s)
    requires WrongGuessCount(s) < |languages| - 1
    requires c in Alphabet && c !in s.word && c !in s.guesses
    ensures Step(languages, s, Press(c)) == Session(s.word, s.guesses + [c])
    ensures WrongGuessCount(Step(languages, s, Press(c))) == WrongGuessCount(s) + 1
    ensures !IsWon(Step(languages, s, Press(c)))
  {
    ClickWrongCount(s, c);
    var i :| 0 <= i < |s.word| && s.word[i] !in s.guesses;
    assert s.word[i] !in s.guesses + [c];
  }

  /** The k-th letter of a repeat-free run closes its first k letters and is not among the
      earlier ones. */
  lemma NextOfDistinct(letters: seq<char>, k: nat)
    requires Distinct(letters)
    requires 0 < k <= |letters|
    ensures letters[..k - 1] + [letters[k - 1]] == letters[..k]
    ensures letters[k - 1] in letters
    ensures letters[k - 1] !in letters[..k - 1]
  {
  }

  /** After the first k of a run of distinct letters that all miss the word, the guesses are
      exactly those k letters, each one a wrong guess, and the round is still running while
      k is below |languages| - 1. */
  lemma {:induction false} MissingPrefix(languages: seq<Language>, word: string, letters: seq<char>, k: nat)
    requires |word| > 0
    requires Distinct(letters)
    requires k <= |letters| <= |languages| - 1
    requires forall c :: c in letters ==> c in Alphabet && c !in word
    ensures Play(languages, NewRound(word), Presses(letters[..k])).word == word
    ensures Play(languages, NewRound(word), Presses(letters[..k])).guesses == letters[..k]
    ensures WrongGuessCount(Play(languages, NewRound(word), Presses(letters[..k]))) == k
    ensures !IsWon(Play(languages, NewRound(word), Presses(letters[..k])))
  {
    if k == 0 {
      NewRoundState(languages, word);
      assert word[0] !in NewRound(word).guesses;
    } else {
      PlayPressesStep(languages, NewRound(word), letters, k);
      MissingPrefix(languages, word, letters, k - 1);
      var mid := Play(languages, NewRound(word), Presses(letters[..k - 1]));
      var c := letters[k - 1];
      NextOfDistinct(letters, k);
      MissStep(languages, mid, c);
    }
  }

  /** Each miss that leaves more than one language standing bids farewell to the language
      it used up. */
  lemma MissFarewell(languages: seq<Language>, word: string, letters: seq<char>, k: nat)
    requires |word| > 0
    requires Distinct(letters)
    requires 0 < k < |letters| <= |languages| - 1
    requires forall c :: c in letters ==> c in Alphabet && c !in word
    ensures GameStatus(languages, Play(languages, NewRound(word), Presses(letters[..k])))
            == Farewell(k - 1, languages[k - 1].name)
  {
    MissingPrefix(languages, word, letters, k);
    var s := Play(languages, NewRound(word), Presses(letters[..k]));
    assert LastGuessedLetter(s).value == letters[k - 1];
    assert letters[k - 1] in letters;
    assert !IsOver(languages, s);
  }

  /** Missing once for every language but the last loses the round, and not a guess earlier:
      each earlier miss shows the farewell to the language it used up. */
  lemma MissingEveryLanguageLoses(languages: seq<Language>, word: string, letters: seq<char>)
    requires |word| > 0
    requires Distinct(letters)
    requires |letters| == |languages| - 1
    requires forall c :: c in letters ==> c in Alphabet && c !in word
    ensures IsLost(languages, Play(languages, NewRound(word), Presses(letters)))
    ensures !IsWon(Play(languages, NewRound(word), Presses(letters)))
    ensures forall k :: 0 < k < |letters| ==>
              GameStatus(languages, Play(languages, NewRound(word), Presses(letters[..k])))
              == Farewell(k - 1, languages[k - 1].name)
  {
    assert letters[..|letters|] == letters;
    MissingPrefix(languages, word, letters, |letters|);
    forall k | 0 < k < |letters|
      ensures GameStatus(languages, Play(languages, NewRound(word), Presses(letters[..k])))
              == Farewell(k - 1, languages[k - 1].name)
    {
      MissFarewell(languages, word, letters, k);
    }
  }

  /** The round lost by missing once per spare language shows the loss banner and reveals
      every letter of the word. */
  lemma LossRevealsWord(languages: seq<Language>, word: string, letters: seq<char>)
    requires |word| > 0
    requires Distinct(letters)
    requires |letters| == |languages| - 1
    requires forall c :: c in letters ==> c in Alphabet && c !in word
    ensures GameStatus(languages, Play(languages, NewRound(word), Presses(letters))) == Lost
    ensures Play(languages, NewRound(word), Presses(letters)).word == word
    ensures forall i :: 0 <= i < |word| ==>
              WordTiles(languages, Play(languages, NewRound(word), Presses(letters)))[i].text == [word[i]]
  {
    assert letters[..|letters|] == letters;
    MissingPrefix(languages, word, letters, |letters|);
    var s := Play(languages, NewRound(word), Presses(letters));
    assert IsLost(languages, s) && !IsWon(s);
    AllShownIffOver(languages, s);
  }

  /** One miss short of losing, typing the word still wins: after |languages| - 2 distinct
      misses, typing every letter of the word wins the round and no letter on the way loses it. */
  lemma NearLossStillWins(languages: seq<Language>, word: string, letters: seq<char>)
    requires |word| > 0
    requires forall c :: c in word ==> c in Alphabet
    requires Distinct(letters)
    requires |letters| == |languages| - 2
    requires forall c :: c in letters ==> c in Alphabet && c !in word
    ensures var s := Play(languages, NewRound(word), Presses(letters));
            && s.word == word
            && WrongGuessCount(s) == |languages| - 2
            && !IsOver(languages, s)
    ensures var s := Play(languages, NewRound(word), Presses(letters));
            && IsWon(Play(languages, s, Presses(word)))
            && forall k :: 0 <= k <= |word| ==> !IsLost(languages, Play(languages, s, Presses(word[..k])))
  {
    assert letters[..|letters|] == letters;
    MissingPrefix(languages, word, letters, |letters|);
    var s := Play(languages, NewRound(word), Presses(letters));
    TypingTheWordWins(languages, s);
  }

  /** The eight misses of the REACT scenario are distinct keys, none of them in REACT. */
  lemma ReactMissesAreMisses()
    ensures Distinct("QWXYZBMP")
    ensures forall c :: c in "QWXYZBMP" ==> c in Alphabet && c !in "REACT"
  {
  }

  /** Typing REACT with a nine-language catalog wins with no wrong guesses. */
  lemma ReactIsWon(languages: seq<Language>)
    requires |languages| == 9
    ensures IsWon(Play(languages, NewRound("REACT"), Presses("REACT")))
    ensures WrongGuessCount(Play(languages, NewRound("REACT"), Presses("REACT"))) == 0
    ensures GameStatus(languages, Play(languages, NewRound("REACT"), Presses("REACT"))) == Won
  {
    GuessingTheWordWins(languages, "REACT");
  }

  /** Eight distinct misses against REACT with a nine-language catalog lose the round, and
      then every tile shows its letter. */
  lemma ReactIsLost(languages: seq<Language>)
    requires |languages| == 9
    ensures GameStatus(languages, Play(languages, NewRound("REACT"), Presses("QWXYZBMP"))) == Lost
    ensures Play(languages, NewRound("REACT"), Presses("QWXYZBMP")).word == "REACT"
    ensures forall i :: 0 <= i < |"REACT"| ==>
              WordTiles(languages, Play(languages, NewRound("REACT"), Presses("QWXYZBMP")))[i].text
              == ["REACT"[i]]
  {
    ReactMissesAreMisses();
    LossRevealsWord(languages, "REACT", "QWXYZBMP");
  }

  /** A first guess of Q against GO bids farewell to the first language and the round goes on. */
  lemma GoFirstMiss(languages: seq<Language>)
    requires |languages| == 9
    ensures !IsOver(languages, Play(languages, NewRound("GO"), Presses("Q")))
    ensures GameStatus(languages, Play(languages, NewRound("GO"), Presses("Q")))
            == Farewell(0, languages[0].name)
  {
    var start := NewRound("GO");
    PlayPressesStep(languages, start, "Q", 1);
    assert "Q"[..1] == "Q" && "Q"[..0] == [];
    var s := Play(languages, start, Presses("Q"));
    NewRoundState(languages, "GO");
    assert s == Guess(languages, start, 'Q');
    assert s == Click(start, 'Q');
    ClickWrongCount(start, 'Q');
    assert "GO"[0] !in s.guesses;
  }
}
