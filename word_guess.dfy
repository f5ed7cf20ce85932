/** The word-guess screen: six tries to type a level word, each try shown
    with a status per letter, and the keyboard coloured by the tries. */
module WordGuess {
  import opened Common
  import opened VocabularyManager

  const MAX_ATTEMPTS: nat := 6
  const GAME_NAME: string := "wordGuess"
  const ENTER: string := "ENTER"
  const DEL: string := "DEL"

  datatype GameStatus = Playing | Won | Lost

  datatype LetterStatus = Correct | Present | Absent

  datatype KeyStatus = Special | Unused | Letter(status: LetterStatus)

  /** `getLetterStatus`: right letter in the right place, a letter found
      elsewhere in the target, or not in the target at all. Repeated
      letters are not counted against each other. */
  function GetLetterStatus(letter: char, index: nat, target: string): (s: LetterStatus)
    ensures s == Correct <==> index < |target| && target[index] == letter
    ensures s == Absent <==> letter !in target
    ensures s == Present <==> letter in target && !(index < |target| && target[index] == letter)
  {
    if index < |target| && target[index] == letter then Correct
    else if letter in target then Present
    else Absent
  }

  /** The guess that spells the target shows every letter as correct. */
  lemma WinningGuessAllCorrect(target: string)
    ensures forall i :: 0 <= i < |target| ==> GetLetterStatus(target[i], i, target) == Correct
  {
  }

  /** A letter of the target placed wrongly shows as present however many
      times the guess repeats it. */
  lemma RepeatsNotCounted(target: string, guess: string)
    requires |guess| == |target|
    ensures forall i :: 0 <= i < |guess| && guess[i] in target ==> GetLetterStatus(guess[i], i, target) != Absent
  {
  }

  /** A guessed letter is the pressed key, case aside. */
  predicate KeyMatches(letter: char, key: string)
  {
    Lower([letter]) == Lower(key)
  }

  /** Position `i` of guess `g` is the first place, scanning the guesses in
      order, that holds the key. */
  predicate FirstMatch(guesses: seq<string>, key: string, g: nat, i: nat)
  {
    g < |guesses| && i < |guesses[g]| && KeyMatches(guesses[g][i], key) &&
    (forall h, j :: 0 <= h < g && 0 <= j < |guesses[h]| ==> !KeyMatches(guesses[h][j], key)) &&
    (forall j :: 0 <= j < i ==> !KeyMatches(guesses[g][j], key))
  }

  /** `getKeyStatus`: ENTER and DEL are special; a letter key no guess
      holds is unused; otherwise the key takes the status of its first
      occurrence in the guesses. */
  method GetKeyStatus(key: string, guesses: seq<string>, target: string) returns (r: KeyStatus)
    ensures r == Special <==> key == ENTER || key == DEL
    ensures key != ENTER && key != DEL ==>
      (r == Unused <==>
        forall g, i :: 0 <= g < |guesses| && 0 <= i < |guesses[g]| ==> !KeyMatches(guesses[g][i], key))
    ensures r.Letter? ==>
      exists g: nat, i: nat :: FirstMatch(guesses, key, g, i) && r.status == GetLetterStatus(guesses[g][i], i, target)
  {
    if key == ENTER || key == DEL {
      return Special;
    }
    for g := 0 to |guesses|
      invariant forall h, j :: 0 <= h < g && 0 <= j < |guesses[h]| ==> !KeyMatches(guesses[h][j], key)
    {
      var letters := guesses[g];
      for i := 0 to |letters|
        invariant forall j :: 0 <= j < i ==> !KeyMatches(letters[j], key)
      {
        if KeyMatches(letters[i], key) {
          assert FirstMatch(guesses, key, g, i);
          return Letter(GetLetterStatus(letters[i], i, target));
        }
      }
    }
    return Unused;
  }

  /** The stats after a win in `guessCount` tries. */
  function WinStats(stats: Stats, guessCount: int): (r: Stats)
    ensures r.Keys == {"correctAnswers", "totalGuesses", "gamesPlayed"}
    ensures r["correctAnswers"] == StatOr(stats, "correctAnswers", 0) + 1
    ensures r["totalGuesses"] == StatOr(stats, "totalGuesses", 0) + guessCount
    ensures r["gamesPlayed"] == StatOr(stats, "gamesPlayed", 0) + 1
  {
    map["correctAnswers" := StatOr(stats, "correctAnswers", 0) + 1,
        "totalGuesses" := StatOr(stats, "totalGuesses", 0) + guessCount,
        "gamesPlayed" := StatOr(stats, "gamesPlayed", 0) + 1]
  }

  /** The stats after a loss in `guessCount` tries; the answer count is
      left as it was. */
  function LossStats(stats: Stats, guessCount: int): (r: Stats)
    ensures r.Keys == {"totalGuesses", "gamesPlayed"}
    ensures r["totalGuesses"] == StatOr(stats, "totalGuesses", 0) + guessCount
    ensures r["gamesPlayed"] == StatOr(stats, "gamesPlayed", 0) + 1
  {
    map["totalGuesses" := StatOr(stats, "totalGuesses", 0) + guessCount,
        "gamesPlayed" := StatOr(stats, "gamesPlayed", 0) + 1]
  }

  /** A win and a loss add the same tries and games; only a win adds an
      answer. */
  lemma WinAndLossAgree(stats: Stats, guessCount: int)
    ensures WinStats(stats, guessCount)["totalGuesses"] == LossStats(stats, guessCount)["totalGuesses"]
    ensures WinStats(stats, guessCount)["gamesPlayed"] == LossStats(stats, guessCount)["gamesPlayed"]
    ensures "correctAnswers" !in LossStats(stats, guessCount)
  {
  }

  /** Saves a finished game: a win also marks the word discovered. */
  method SaveResult(won: bool, wordId: string, level: string, guessCount: int, store: ProgressStore, now: string)
    requires store.Valid()
    modifies store
    ensures store.Valid()
    ensures won ==> wordId in store.GetDiscovered(level)
    ensures store.GetGameStats(GAME_NAME) ==
      old(store.GetGameStats(GAME_NAME)) +
      (if won then WinStats(old(store.GetGameStats(GAME_NAME)), guessCount)
       else LossStats(old(store.GetGameStats(GAME_NAME)), guessCount))
    ensures !won ==> store.GetProgress().discoveredWords == old(store.GetProgress().discoveredWords)
    ensures KeepsOthers(old(store.GetProgress()), store.GetProgress(), level, GAME_NAME)
  {
    if won {
      var _ := store.MarkDiscovered(wordId, level, now);
      var stats := store.GetGameStats(GAME_NAME);
      store.UpdateGameStats(GAME_NAME, WinStats(stats, guessCount), now);
    } else {
      var stats := store.GetGameStats(GAME_NAME);
      store.UpdateGameStats(GAME_NAME, LossStats(stats, guessCount), now);
    }
  }

  class WordGuessRound {
    const level: string
    var currentWord: Option<Word>
    var guesses: seq<string>
    var currentGuess: string
    var gameStatus: GameStatus
    var score: int
    var showHint: bool

    /** At most six tries, each as long as the word, fewer than six while
        playing; the typed guess never outgrows the word. No try spells the
        word, except the last one of a won game; a lost game used all six
        tries. */
    ghost predicate Valid()
      reads this
    {
      |guesses| <= MAX_ATTEMPTS &&
      (gameStatus == Playing ==> |guesses| < MAX_ATTEMPTS) &&
      (currentWord.None? ==> guesses == [] && currentGuess == [] && gameStatus == Playing) &&
      (currentWord.Some? ==>
        |currentGuess| <= |currentWord.value.word| &&
        (forall g :: 0 <= g < |guesses| ==> |guesses[g]| == |currentWord.value.word|) &&
        (gameStatus == Won ==> guesses != [] && guesses[|guesses| - 1] == currentWord.value.word) &&
        (gameStatus == Lost ==> |guesses| == MAX_ATTEMPTS) &&
        (forall g :: 0 <= g < |guesses| && !(gameStatus == Won && g == |guesses| - 1) ==>
           guesses[g] != currentWord.value.word))
    }

    constructor (level: string)
      ensures Valid()
      ensures this.level == level && currentWord == None && guesses == [] && gameStatus == Playing && score == 0
    {
      this.level := level;
      currentWord := None;
      guesses := [];
      currentGuess := [];
      gameStatus := Playing;
      score := 0;
      showHint := false;
    }

    /** `loadNewWord`: a random word of the level starts a new game;
        without one nothing changes. */
    method LoadNewWord(data: Dataset, pick: nat)
      requires Valid()
      modifies this
      ensures Valid()
      ensures var w := GetRandomWord(data, level, [], pick);
        if w.None? then unchanged(this)
        else currentWord == w && guesses == [] && currentGuess == [] && gameStatus == Playing && !showHint
      ensures score == old(score)
    {
      var word := GetRandomWord(data, level, [], pick);
      if word.None? {
        return;
      }
      currentWord := word;
      guesses := [];
      currentGuess := [];
      gameStatus := Playing;
      showHint := false;
    }

    /** `handleKeyPress`: ignored unless playing. ENTER submits the guess,
        DEL removes its last letter, and any other key adds its lower-case
        letter while the guess is shorter than the word. */
    method HandleKeyPress(key: string, store: ProgressStore, now: string)
      requires Valid() && store.Valid() && currentWord.Some?
      requires key == ENTER || key == DEL || |key| == 1
      modifies this, store
      ensures Valid() && store.Valid()
      ensures currentWord == old(currentWord) && showHint == old(showHint)
      ensures old(gameStatus) != Playing ==> unchanged(this) && unchanged(store)
      ensures old(gameStatus) == Playing && key == DEL ==>
        guesses == old(guesses) && gameStatus == Playing && score == old(score) && unchanged(store) &&
        currentGuess == (if old(currentGuess) == [] then [] else old(currentGuess)[..|old(currentGuess)| - 1])
      ensures old(gameStatus) == Playing && key != ENTER && key != DEL ==>
        guesses == old(guesses) && gameStatus == Playing && score == old(score) && unchanged(store) &&
        currentGuess == (if |old(currentGuess)| < |currentWord.value.word| then old(currentGuess) + Lower(key)
                         else old(currentGuess))
      ensures old(gameStatus) == Playing && key == ENTER ==>
        var word := currentWord.value;
        (|old(currentGuess)| != |word.word| ==> unchanged(this) && unchanged(store)) &&
        (|old(currentGuess)| == |word.word| ==>
          guesses == old(guesses) + [old(currentGuess)] && currentGuess == [] &&
          (old(currentGuess) == word.word ==>
            gameStatus == Won && score == old(score) + 1 && word.id in store.GetDiscovered(level) &&
            store.GetGameStats(GAME_NAME) ==
              old(store.GetGameStats(GAME_NAME)) + WinStats(old(store.GetGameStats(GAME_NAME)), |guesses|)) &&
          (old(currentGuess) != word.word && |guesses| >= MAX_ATTEMPTS ==>
            gameStatus == Lost && score == old(score) &&
            store.GetGameStats(GAME_NAME) ==
              old(store.GetGameStats(GAME_NAME)) + LossStats(old(store.GetGameStats(GAME_NAME)), |guesses|)) &&
          (old(currentGuess) != word.word && |guesses| < MAX_ATTEMPTS ==>
            gameStatus == Playing && score == old(score) && unchanged(store)))
      ensures store.GetProgress().discoveredWords != old(store.GetProgress().discoveredWords) ==> gameStatus == Won
      ensures KeepsOthers(old(store.GetProgress()), store.GetProgress(), level, GAME_NAME)
    {
      if gameStatus != Playing {
        return;
      }
      if key == ENTER {
        SubmitGuess(store, now);
      } else if key == DEL {
        if |currentGuess| > 0 {
          currentGuess := currentGuess[..|currentGuess| - 1];
        }
      } else if |currentGuess| < |currentWord.value.word| {
        currentGuess := currentGuess + Lower(key);
      }
    }

    /** `submitGuess`. */
    method SubmitGuess(store: ProgressStore, now: string)
      requires Valid() && store.Valid() && currentWord.Some? && gameStatus == Playing
      modifies this, store
      ensures Valid() && store.Valid()
      ensures currentWord == old(currentWord) && showHint == old(showHint)
      ensures var word := currentWord.value;
        (|old(currentGuess)| != |word.word| ==> unchanged(this) && unchanged(store)) &&
        (|old(currentGuess)| == |word.word| ==>
          guesses == old(guesses) + [old(currentGuess)] && currentGuess == [] &&
          (old(currentGuess) == word.word ==>
            gameStatus == Won && score == old(score) + 1 && word.id in store.GetDiscovered(level) &&
            store.GetGameStats(GAME_NAME) ==
              old(store.GetGameStats(GAME_NAME)) + WinStats(old(store.GetGameStats(GAME_NAME)), |guesses|)) &&
          (old(currentGuess) != word.word && |guesses| >= MAX_ATTEMPTS ==>
            gameStatus == Lost && score == old(score) &&
            store.GetGameStats(GAME_NAME) ==
              old(store.GetGameStats(GAME_NAME)) + LossStats(old(store.GetGameStats(GAME_NAME)), |guesses|)) &&
          (old(currentGuess) != word.word && |guesses| < MAX_ATTEMPTS ==>
            gameStatus == Playing && score == old(score) && unchanged(store)))
      ensures store.GetProgress().discoveredWords != old(store.GetProgress().discoveredWords) ==> gameStatus == Won
      ensures KeepsOthers(old(store.GetProgress()), store.GetProgress(), level, GAME_NAME)
    {
      var word := currentWord.value;
      if |currentGuess| != |word.word| {
        return;
      }
      var guess := currentGuess;
      AddGuess(guess);
      if gameStatus != Playing {
        SaveResult(guess == word.word, word.id, level, |guesses|, store, now);
      }
    }

    /** Records a full-length guess: it wins if it spells the word, loses if
        it was the sixth try, and otherwise play goes on. */
    method AddGuess(guess: string)
      requires Valid() && currentWord.Some? && gameStatus == Playing && |guess| == |currentWord.value.word|
      modifies this
      ensures Valid()
      ensures guesses == old(guesses) + [guess] && currentGuess == []
      ensures gameStatus == (if guess == currentWord.value.word then Won
                             else if |guesses| >= MAX_ATTEMPTS then Lost else Playing)
      ensures score == old(score) + (if guess == currentWord.value.word then 1 else 0)
      ensures currentWord == old(currentWord) && showHint == old(showHint)
    {
      guesses := guesses + [guess];
      currentGuess := [];
      if guess == currentWord.value.word {
        gameStatus := Won;
        score := score + 1;
      } else if |guesses| >= MAX_ATTEMPTS {
        gameStatus := Lost;
      }
    }

    /** The hint button shows or hides the hint. */
    method ToggleHint()
      requires Valid()
      modifies this
      ensures Valid()
      ensures showHint == !old(showHint)
      ensures currentWord == old(currentWord) && guesses == old(guesses) && currentGuess == old(currentGuess) &&
              gameStatus == old(gameStatus) && score == old(score)
    {
      showHint := !showHint;
    }
  }
}
