/** What the screen shows for a round: the word's tiles, the on-screen keyboard, the
    language bar and the status panel. Each is a pure function of the round and the
    catalog; only the boolean conditions behind the class names are modelled. */
module Board {
  import opened Game

  /** The letters offered as keys, in keyboard order. */
  const Alphabet: seq<char> := "ABCDEFGHIJKLMNOPQRSTUVWXYZ"

  /** One position of the displayed word: the text it shows and whether it carries the
      "not-guessed" mark. */
  datatype Tile = Tile(text: string, notGuessed: bool)

  /** One key of the keyboard with its three class flags and its two disabled flags. */
  datatype Key = Key(letter: char, correct: bool, wrong: bool, notGuessed: bool,
                     disabled: bool, ariaDisabled: bool)

  /** The status panel: a farewell to the language just lost, the win or loss banner, or
      nothing. */
  datatype Status = Farewell(rank: nat, language: string) | Won | Lost | Silent

  /** The tiles of the word: a position shows its letter once the game is over or once that
      letter has been guessed, and is marked "not-guessed" when the game ended without it. */
  function WordTiles(languages: seq<Language>, s: Session): (r: seq<Tile>)
    ensures |r| == |s.word|
    ensures forall i :: 0 <= i < |r| ==>
              (r[i].text == [s.word[i]] <==> IsOver(languages, s) || s.word[i] in s.guesses)
    ensures forall i :: 0 <= i < |r| ==>
              (r[i].text == [] <==> !IsOver(languages, s) && s.word[i] !in s.guesses)
    ensures forall i :: 0 <= i < |r| ==>
              (r[i].notGuessed <==> IsOver(languages, s) && s.word[i] !in s.guesses)
  {
    var over := IsOver(languages, s);
    seq(|s.word|, i requires 0 <= i < |s.word| =>
      var ch := s.word[i];
      Tile(if over || ch in s.guesses then [ch] else [], over && ch !in s.guesses))
  }

  /** Every tile shows its letter exactly when the game is over: the word is fully revealed
      on a win and on a loss, and never while the round is still running. */
  lemma AllShownIffOver(languages: seq<Language>, s: Session)
    ensures (forall i :: 0 <= i < |s.word| ==> WordTiles(languages, s)[i].text == [s.word[i]])
            <==> IsOver(languages, s)
  {
    var tiles := WordTiles(languages, s);
    if (forall i :: 0 <= i < |s.word| ==> tiles[i].text == [s.word[i]]) && !IsOver(languages, s) {
      forall i | 0 <= i < |s.word|
        ensures s.word[i] in s.guesses
      {
        assert tiles[i].text == [s.word[i]];
      }
      assert IsWon(s);
    }
  }

  /** Some tile carries the "not-guessed" mark exactly when the round is lost and not won. */
  lemma NotGuessedMarksIffLoss(languages: seq<Language>, s: Session)
    ensures (exists i :: 0 <= i < |s.word| && WordTiles(languages, s)[i].notGuessed)
            <==> IsLost(languages, s) && !IsWon(s)
  {
    var tiles := WordTiles(languages, s);
    if IsLost(languages, s) && !IsWon(s) {
      var i :| 0 <= i < |s.word| && s.word[i] !in s.guesses;
      assert tiles[i].notGuessed;
    }
  }

  /** The key for one letter. */
  function KeyFor(languages: seq<Language>, s: Session, c: char): (k: Key)
    ensures k.letter == c
    ensures || (k.correct && !k.wrong && !k.notGuessed)
            || (!k.correct && k.wrong && !k.notGuessed)
            || (!k.correct && !k.wrong && k.notGuessed)
    ensures k.notGuessed <==> c !in s.guesses
    ensures k.wrong <==> c in Misses(s.word, s.guesses)
    ensures k.correct ==> c in s.word
    ensures k.disabled <==> IsOver(languages, s)
    ensures k.ariaDisabled <==> !k.notGuessed
  {
    var guessed := c in s.guesses;
    Key(c,
        guessed && c in s.word,
        guessed && c !in s.word,
        !guessed,
        IsOver(languages, s),
        guessed)
  }

  /** The keyboard: one key per alphabet letter, in order. */
  function Keyboard(languages: seq<Language>, s: Session): (r: seq<Key>)
    ensures |r| == |Alphabet|
    ensures forall i :: 0 <= i < |r| ==> r[i] == KeyFor(languages, s, Alphabet[i])
  {
    seq(|Alphabet|, i requires 0 <= i < |Alphabet| => KeyFor(languages, s, Alphabet[i]))
  }

  /** The letters whose keys are marked wrong. */
  function MarkedWrong(keys: seq<Key>): set<char>
  {
    set k | k in keys && k.wrong :: k.letter
  }

  /** When every guess is an alphabet letter and none is repeated, the keyboard marks exactly
      as many letters wrong as the wrong-guess count says. */
  lemma WrongKeysMatchCount(languages: seq<Language>, s: Session)
    requires Distinct(s.guesses)
    requires forall c :: c in s.guesses ==> c in Alphabet
    ensures MarkedWrong(Keyboard(languages, s)) == set c | c in Misses(s.word, s.guesses)
    ensures |MarkedWrong(Keyboard(languages, s))| == WrongGuessCount(s)
  {
    var kb := Keyboard(languages, s);
    var misses := Misses(s.word, s.guesses);
    forall c | c in misses
      ensures c in MarkedWrong(kb)
    {
      var j :| 0 <= j < |Alphabet| && Alphabet[j] == c;
      assert kb[j].wrong && kb[j].letter == c;
    }
    DistinctCardinality(misses);
  }

  /** A repeat-free sequence has as many distinct elements as positions. */
  lemma {:induction false} DistinctCardinality(a: seq<char>)
    requires Distinct(a)
    ensures |set x | x in a| == |a|
  {
    if |a| > 0 {
      var front := a[..|a| - 1];
      var last := a[|a| - 1];
      assert a == front + [last];
      assert Distinct(front);
      DistinctCardinality(front);
      assert last !in front;
      assert (set x | x in a) == (set x | x in front) + {last};
    }
  }

  /** The language bar: entry i is marked lost while i is below the wrong-guess count. */
  function LanguageBar(languages: seq<Language>, s: Session): (r: seq<bool>)
    ensures |r| == |languages|
    ensures forall i :: 0 <= i < |r| ==> (r[i] <==> i < WrongGuessCount(s))
  {
    var wrong := WrongGuessCount(s);
    seq(|languages|, i requires 0 <= i < |languages| => i < wrong)
  }

  function CountLost(bar: seq<bool>): nat
  {
    if |bar| == 0 then 0
    else CountLost(bar[..|bar| - 1]) + (if bar[|bar| - 1] then 1 else 0)
  }

  function Min(a: int, b: int): int
  {
    if a <= b then a else b
  }

  /** A bar whose entries below k are marked, and only those, has min(k, length) marks. */
  lemma {:induction false} CountLostBelow(bar: seq<bool>, k: nat)
    requires forall i :: 0 <= i < |bar| ==> (bar[i] <==> i < k)
    ensures CountLost(bar) == Min(k, |bar|)
  {
    if |bar| > 0 {
      CountLostBelow(bar[..|bar| - 1], k);
    }
  }

  /** The number of languages marked lost is min(wrong-guess count, number of languages). */
  lemma LostLanguages(languages: seq<Language>, s: Session)
    ensures CountLost(LanguageBar(languages, s)) == Min(WrongGuessCount(s), |languages|)
  {
    CountLostBelow(LanguageBar(languages, s), WrongGuessCount(s));
  }

  /** The status panel. The farewell message names the language at index wrongGuessCount - 1,
      and that index always lies inside the catalog and below its last entry. */
  function GameStatus(languages: seq<Language>, s: Session): (r: Status)
    ensures r.Farewell? <==> !IsOver(languages, s) && IsLastGuessIncorrect(s)
    ensures r.Farewell? ==>
              && r.rank + 1 == WrongGuessCount(s)
              && r.rank < |languages| - 1
              && r.language == languages[r.rank].name
    ensures r.Won? <==> IsWon(s)
    ensures r.Lost? <==> IsLost(languages, s) && !IsWon(s)
  {
    if !IsOver(languages, s) && IsLastGuessIncorrect(s) then
      LastGuessIncorrectIsMiss(s);
      var rank := WrongGuessCount(s) - 1;
      Farewell(rank, languages[rank].name)
    else if IsWon(s) then Won
    else if IsLost(languages, s) then Lost
    else Silent
  }
}
