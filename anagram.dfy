/** The anagram screen: the letters of a word are dealt as shuffled tiles,
    and the player moves tiles between the scrambled pile and the answer
    row until the row spells the word. */
module Anagram {
  import opened Common
  import opened VocabularyManager

  const MIN_WORD_LENGTH: nat := 3
  /** Extra shuffles tried while the tiles still spell the word. */
  const MAX_RESHUFFLES: nat := 10
  const GAME_NAME: string := "anagram"

  /** A tile's key: its letter, its position in the word and a random
      suffix. The position alone already tells two tiles of a word apart. */
  datatype TileId = TileId(letter: char, index: nat, salt: nat)

  datatype Tile = Tile(id: TileId, letter: char, originalIndex: nat)

  /** The tiles of the word before shuffling, one per upper-cased letter. */
  function InitialTiles(word: string, salt: nat -> nat): (r: seq<Tile>)
    ensures |r| == |word|
    ensures forall i :: 0 <= i < |r| ==> r[i].originalIndex == i && r[i].letter == Upper(word)[i]
  {
    var w := Upper(word);
    seq(|w|, i requires 0 <= i < |w| => Tile(TileId(w[i], i, salt(i)), w[i], i))
  }

  /** What a row of tiles spells. */
  function Spell(tiles: seq<Tile>): (s: string)
    ensures |s| == |tiles|
    ensures forall i :: 0 <= i < |tiles| ==> s[i] == tiles[i].letter
  {
    seq(|tiles|, i requires 0 <= i < |tiles| => tiles[i].letter)
  }

  predicate DistinctIds(tiles: seq<Tile>)
  {
    forall i, j :: 0 <= i < j < |tiles| ==> tiles[i].id != tiles[j].id
  }

  /** One Fisher–Yates pass over the array: from the last position down to
      the second, each tile is swapped with one at or before it, chosen by
      `rand(round, i)`. */
  method Shuffle(a: array<Tile>, rand: (nat, nat) -> nat, round: nat)
    modifies a
    ensures multiset(a[..]) == multiset(old(a[..]))
  {
    var i := a.Length - 1;
    while i > 0
      invariant i < a.Length
      invariant multiset(a[..]) == multiset(old(a[..]))
    {
      var j := rand(round, i) % (i + 1);
      a[i], a[j] := a[j], a[i];
      i := i - 1;
    }
  }

  /** `scrambleWord`: deals the tiles, shuffles them, and shuffles again,
      at most ten more times, while they still spell the word. */
  method Scramble(word: string, salt: nat -> nat, rand: (nat, nat) -> nat) returns (tiles: seq<Tile>, ghost reshuffles: nat)
    ensures multiset(tiles) == multiset(InitialTiles(word, salt))
    ensures reshuffles <= MAX_RESHUFFLES
    ensures Spell(tiles) == Upper(word) ==> reshuffles == MAX_RESHUFFLES
  {
    var initial := InitialTiles(word, salt);
    var a := new Tile[|initial|](i requires 0 <= i < |initial| => initial[i]);
    assert a[..] == initial;
    Shuffle(a, rand, 0);
    var attempts := 0;
    while Spell(a[..]) == Upper(word) && attempts < MAX_RESHUFFLES
      invariant attempts <= MAX_RESHUFFLES
      invariant multiset(a[..]) == multiset(initial)
    {
      Shuffle(a, rand, attempts + 1);
      attempts := attempts + 1;
    }
    tiles := a[..];
    reshuffles := attempts;
  }

  /** The initial tiles are told apart by their ids. */
  lemma InitialDistinctIds(word: string, salt: nat -> nat)
    ensures DistinctIds(InitialTiles(word, salt)) && Distinct(InitialTiles(word, salt))
  {
    var r := InitialTiles(word, salt);
    forall i, j | 0 <= i < j < |r| ensures r[i].id != r[j].id && r[i] != r[j] {
      assert r[i].id.index == i;
    }
  }

  /** A shuffled deal is the word's tiles in some order: each tile is the
      one dealt for its original position, the original positions are
      0 .. n-1 each once, and no two tiles share an id. */
  lemma ScrambledTiles(word: string, salt: nat -> nat, tiles: seq<Tile>)
    requires multiset(tiles) == multiset(InitialTiles(word, salt))
    ensures |tiles| == |word|
    ensures forall k :: 0 <= k < |tiles| ==>
              tiles[k].originalIndex < |word| && tiles[k] == InitialTiles(word, salt)[tiles[k].originalIndex]
    ensures forall k :: 0 <= k < |tiles| ==> tiles[k].letter == Upper(word)[tiles[k].originalIndex]
    ensures forall k, l :: 0 <= k < l < |tiles| ==> tiles[k].originalIndex != tiles[l].originalIndex
    ensures DistinctIds(tiles)
  {
    var initial := InitialTiles(word, salt);
    assert |tiles| == |multiset(tiles)| == |multiset(initial)| == |initial|;
    forall k | 0 <= k < |tiles|
      ensures tiles[k].originalIndex < |word| && tiles[k] == initial[tiles[k].originalIndex]
    {
      assert tiles[k] in multiset(initial);
      var i :| 0 <= i < |initial| && initial[i] == tiles[k];
    }
    InitialDistinctIds(word, salt);
    PermutationDistinct(initial, tiles);
    forall k, l | 0 <= k < l < |tiles| ensures tiles[k].originalIndex != tiles[l].originalIndex && tiles[k].id != tiles[l].id {
      assert tiles[k] != tiles[l];
    }
  }

  /** A word made of one repeated letter spells itself however its tiles
      are shuffled, so the retries cannot scramble it. */
  lemma UniformWordUnscrambled(word: string, salt: nat -> nat, tiles: seq<Tile>)
    requires multiset(tiles) == multiset(InitialTiles(word, salt))
    requires forall i :: 0 <= i < |word| ==> word[i] == word[0]
    ensures Spell(tiles) == Upper(word)
  {
    ScrambledTiles(word, salt, tiles);
    forall k | 0 <= k < |tiles| ensures Spell(tiles)[k] == Upper(word)[k] {
    }
  }

  /** The tiles of `s` whose id differs from `t`'s. */
  function RemoveTile(s: seq<Tile>, t: Tile): (r: seq<Tile>)
    ensures forall x :: x in r <==> x in s && x.id != t.id
  {
    Filter(s, (l: Tile) => l.id != t.id)
  }

  /** Among tiles with distinct ids, removing by id takes out exactly that
      tile. */
  lemma RemoveTileExactly(s: seq<Tile>, t: Tile)
    requires DistinctIds(s) && t in s
    ensures multiset(RemoveTile(s, t)) == multiset(s) - multiset{t}
  {
    var r := RemoveTile(s, t);
    forall x ensures multiset(r)[x] == (multiset(s) - multiset{t})[x] {
      if x.id == t.id {
        assert x !in r;
        if x in s {
          var i :| 0 <= i < |s| && s[i] == x;
          var j :| 0 <= j < |s| && s[j] == t;
          assert i == j;
        }
        if x == t {
          assert Distinct(s);
          MultiplicityOne(s, t);
        }
      }
    }
  }

  /** Tiles that are a reordering of tiles with distinct ids have distinct
      ids. */
  lemma PermutationDistinctIds(s: seq<Tile>, tiles: seq<Tile>)
    requires multiset(s) == multiset(tiles) && DistinctIds(tiles)
    ensures DistinctIds(s) && Distinct(s)
  {
    assert Distinct(tiles);
    PermutationDistinct(tiles, s);
    forall i, j | 0 <= i < j < |s| ensures s[i].id != s[j].id {
      assert s[i] in multiset(tiles) && s[j] in multiset(tiles);
      var a :| 0 <= a < |tiles| && tiles[a] == s[i];
      var b :| 0 <= b < |tiles| && tiles[b] == s[j];
      assert a != b;
    }
  }

  /** Moving a tile from the pile to the answer row keeps the tiles of the
      two together. */
  lemma TakeKeepsTiles(pile: seq<Tile>, row: seq<Tile>, letter: Tile, tiles: seq<Tile>)
    requires multiset(pile) + multiset(row) == multiset(tiles) && DistinctIds(tiles) && letter in pile
    ensures multiset(RemoveTile(pile, letter)) == multiset(pile) - multiset{letter}
    ensures multiset(RemoveTile(pile, letter)) + multiset(row + [letter]) == multiset(tiles)
  {
    assert multiset(pile + row) == multiset(tiles);
    PermutationDistinctIds(pile + row, tiles);
    assert DistinctIds(pile) by {
      forall i, j | 0 <= i < j < |pile| ensures pile[i].id != pile[j].id {
        assert pile[i] == (pile + row)[i];
        assert pile[j] == (pile + row)[j];
      }
    }
    RemoveTileExactly(pile, letter);
  }

  /** The points for a solved word: ten a letter, a bonus for each second
      under a minute and five a streak step, less ten a hint; not clamped. */
  function SolveScore(wordLength: nat, timer: int, streak: int, hintsUsed: int): (points: int)
    ensures timer >= 60 ==> points == wordLength * 10 + streak * 5 - hintsUsed * 10
    ensures points >= wordLength * 10 + streak * 5 - hintsUsed * 10
    ensures timer <= 60 ==> points == wordLength * 10 + (60 - timer) + streak * 5 - hintsUsed * 10
  {
    wordLength * 10 + Max(0, 60 - timer) + streak * 5 - hintsUsed * 10
  }

  /** The stats after a solve. */
  function SolveStats(stats: Stats, points: int, newStreak: int): (r: Stats)
    ensures r.Keys == {"solved", "totalScore", "bestStreak", "gamesPlayed"}
    ensures r["solved"] == StatOr(stats, "solved", 0) + 1
    ensures r["totalScore"] == StatOr(stats, "totalScore", 0) + points
    ensures r["gamesPlayed"] == StatOr(stats, "gamesPlayed", 0) + 1
    ensures r["bestStreak"] >= newStreak && r["bestStreak"] >= StatOr(stats, "bestStreak", 0)
    ensures r["bestStreak"] == newStreak || r["bestStreak"] == StatOr(stats, "bestStreak", 0)
  {
    map["solved" := StatOr(stats, "solved", 0) + 1,
        "totalScore" := StatOr(stats, "totalScore", 0) + points,
        "bestStreak" := Max(StatOr(stats, "bestStreak", 0), newStreak),
        "gamesPlayed" := StatOr(stats, "gamesPlayed", 0) + 1]
  }

  /** Marks the solved word discovered and saves the stats of the solve. */
  method SaveSolve(wordId: string, level: string, points: int, newStreak: int, store: ProgressStore, now: string)
    requires store.Valid()
    modifies store
    ensures store.Valid()
    ensures wordId in store.GetDiscovered(level)
    ensures store.GetGameStats(GAME_NAME) ==
      old(store.GetGameStats(GAME_NAME)) + SolveStats(old(store.GetGameStats(GAME_NAME)), points, newStreak)
    ensures KeepsOthers(old(store.GetProgress()), store.GetProgress(), level, GAME_NAME)
  {
    var _ := store.MarkDiscovered(wordId, level, now);
    var stats := store.GetGameStats(GAME_NAME);
    store.UpdateGameStats(GAME_NAME, SolveStats(stats, points, newStreak), now);
  }

  class AnagramRound {
    const level: string
    var currentWord: Option<Word>
    var scrambledLetters: seq<Tile>
    var selectedLetters: seq<Tile>
    var correctLetters: seq<Tile>
    var isCorrect: bool
    var score: int
    var streak: int
    var timer: int
    var hintsUsed: int
    var showHint: bool
    var gamesPlayed: int
    /** The tiles dealt for the current word. */
    ghost var tiles: seq<Tile>

    /** Before the first word there are no tiles. Afterwards the word has at
        least three letters, one tile each, and the scrambled pile and the
        answer row together always hold exactly the dealt tiles. */
    ghost predicate Valid()
      reads this
    {
      (currentWord.None? ==> tiles == [] && !isCorrect) &&
      (currentWord.Some? ==> |currentWord.value.word| >= MIN_WORD_LENGTH && |tiles| == |currentWord.value.word|) &&
      multiset(scrambledLetters) + multiset(selectedLetters) == multiset(tiles) && DistinctIds(tiles) &&
      streak >= 0 && hintsUsed >= 0
    }

    constructor (level: string)
      ensures Valid()
      ensures this.level == level && currentWord == None && scrambledLetters == [] && selectedLetters == [] &&
              score == 0 && streak == 0 && gamesPlayed == 0
    {
      this.level := level;
      currentWord := None;
      scrambledLetters := [];
      selectedLetters := [];
      correctLetters := [];
      isCorrect := false;
      score := 0;
      streak := 0;
      timer := 0;
      hintsUsed := 0;
      showHint := false;
      gamesPlayed := 0;
      tiles := [];
    }

    /** The word is shown with its freshly dealt tiles all in the pile. */
    predicate Dealt(w: Word, salt: nat -> nat)
      reads this
    {
      currentWord == Some(w) && multiset(scrambledLetters) == multiset(InitialTiles(w.word, salt)) &&
      selectedLetters == [] && correctLetters == [] && !isCorrect && !showHint
    }

    /** `loadNewWord`: a random word of the level with at least three
        letters is dealt as scrambled tiles; otherwise nothing changes. */
    method LoadNewWord(data: Dataset, pick: nat, salt: nat -> nat, rand: (nat, nat) -> nat)
      requires Valid()
      modifies this
      ensures Valid()
      ensures var w := GetRandomWord(data, level, [], pick);
        if w.None? || |w.value.word| < MIN_WORD_LENGTH then
          currentWord == old(currentWord) && scrambledLetters == old(scrambledLetters) &&
          selectedLetters == old(selectedLetters) && correctLetters == old(correctLetters) &&
          isCorrect == old(isCorrect) && showHint == old(showHint)
        else
          Dealt(w.value, salt)
      ensures score == old(score) && streak == old(streak) && timer == old(timer) &&
              hintsUsed == old(hintsUsed) && gamesPlayed == old(gamesPlayed)
    {
      var word := GetRandomWord(data, level, [], pick);
      if word.None? || |word.value.word| < MIN_WORD_LENGTH {
        return;
      }
      var dealt, _ := Scramble(word.value.word, salt, rand);
      ScrambledTiles(word.value.word, salt, dealt);
      Deal(word.value, dealt);
    }

    /** Shows a new word with its dealt tiles all in the pile. */
    method Deal(w: Word, dealt: seq<Tile>)
      requires |w.word| >= MIN_WORD_LENGTH && |dealt| == |w.word| && DistinctIds(dealt)
      requires streak >= 0 && hintsUsed >= 0
      modifies this
      ensures Valid()
      ensures currentWord == Some(w) && scrambledLetters == dealt && selectedLetters == [] && correctLetters == [] &&
              !isCorrect && !showHint
      ensures score == old(score) && streak == old(streak) && timer == old(timer) &&
              hintsUsed == old(hintsUsed) && gamesPlayed == old(gamesPlayed)
    {
      currentWord := Some(w);
      scrambledLetters := dealt;
      selectedLetters := [];
      correctLetters := [];
      isCorrect := false;
      showHint := false;
      tiles := dealt;
      assert scrambledLetters + selectedLetters == dealt;
    }

    /** `handleLetterPress`: once solved, nothing changes. Otherwise the
        pressed tile moves from the pile to the end of the answer row, and
        the row that fills the word is checked: spelled right, the round
        is solved, scores and is saved; spelled wrong, the streak resets. */
    method HandleLetterPress(letter: Tile, store: ProgressStore, now: string)
      requires Valid() && store.Valid() && letter in scrambledLetters
      modifies this, store
      ensures Valid() && store.Valid()
      ensures currentWord.Some?
      ensures old(isCorrect) ==> unchanged(this) && unchanged(store)
      ensures !old(isCorrect) ==>
        scrambledLetters == RemoveTile(old(scrambledLetters), letter) &&
        multiset(scrambledLetters) == multiset(old(scrambledLetters)) - multiset{letter} &&
        selectedLetters == old(selectedLetters) + [letter]
      ensures KeepsOthers(old(store.GetProgress()), store.GetProgress(), level, GAME_NAME)
      ensures currentWord == old(currentWord) && timer == old(timer) && hintsUsed == old(hintsUsed) &&
              showHint == old(showHint) && gamesPlayed == old(gamesPlayed)
      ensures !old(isCorrect) && |selectedLetters| != |currentWord.value.word| ==>
        isCorrect == old(isCorrect) && score == old(score) && streak == old(streak) && unchanged(store)
      ensures !old(isCorrect) && |selectedLetters| == |currentWord.value.word| ==>
        scrambledLetters == [] &&
        (isCorrect <==> Spell(selectedLetters) == Upper(currentWord.value.word)) &&
        (isCorrect ==>
          var points := SolveScore(|currentWord.value.word|, timer, old(streak), hintsUsed);
          correctLetters == selectedLetters && score == old(score) + points && streak == old(streak) + 1 &&
          currentWord.value.id in store.GetDiscovered(level) &&
          store.GetGameStats(GAME_NAME) ==
            old(store.GetGameStats(GAME_NAME)) + SolveStats(old(store.GetGameStats(GAME_NAME)), points, streak)) &&
        (!isCorrect ==> score == old(score) && streak == 0 && unchanged(store))
    {
      if isCorrect {
        return;
      }
      Take(letter);
      if |selectedLetters| == |currentWord.value.word| {
        assert |scrambledLetters| == 0 by {
          assert |multiset(scrambledLetters + selectedLetters)| == |tiles|;
        }
        CheckAnswer(store, now);
      }
    }

    /** Moves a tile from the pile to the end of the answer row. */
    method Take(letter: Tile)
      requires Valid() && letter in scrambledLetters && !isCorrect
      modifies this
      ensures Valid() && currentWord.Some?
      ensures scrambledLetters == RemoveTile(old(scrambledLetters), letter)
      ensures multiset(scrambledLetters) == multiset(old(scrambledLetters)) - multiset{letter}
      ensures selectedLetters == old(selectedLetters) + [letter]
      ensures currentWord == old(currentWord) && correctLetters == old(correctLetters) && isCorrect == old(isCorrect) &&
              score == old(score) && streak == old(streak) && timer == old(timer) && hintsUsed == old(hintsUsed) &&
              showHint == old(showHint) && gamesPlayed == old(gamesPlayed)
    {
      TakeKeepsTiles(scrambledLetters, selectedLetters, letter, tiles);
      var rest := RemoveTile(scrambledLetters, letter);
      scrambledLetters := rest;
      selectedLetters := selectedLetters + [letter];
    }

    /** `checkAnswer` on a full answer row. */
    method CheckAnswer(store: ProgressStore, now: string)
      requires Valid() && store.Valid() && currentWord.Some? && !isCorrect
      modifies this, store
      ensures Valid() && store.Valid()
      ensures scrambledLetters == old(scrambledLetters) && selectedLetters == old(selectedLetters) &&
              currentWord == old(currentWord) && timer == old(timer) && hintsUsed == old(hintsUsed) &&
              showHint == old(showHint) && gamesPlayed == old(gamesPlayed)
      ensures isCorrect <==> Spell(selectedLetters) == Upper(currentWord.value.word)
      ensures isCorrect ==>
        var points := SolveScore(|currentWord.value.word|, timer, old(streak), hintsUsed);
        correctLetters == selectedLetters && score == old(score) + points && streak == old(streak) + 1 &&
        currentWord.value.id in store.GetDiscovered(level) &&
        store.GetGameStats(GAME_NAME) ==
          old(store.GetGameStats(GAME_NAME)) + SolveStats(old(store.GetGameStats(GAME_NAME)), points, streak)
      ensures !isCorrect ==> score == old(score) && streak == 0 && unchanged(store) && correctLetters == old(correctLetters)
      ensures KeepsOthers(old(store.GetProgress()), store.GetProgress(), level, GAME_NAME)
    {
      var word := currentWord.value;
      if Spell(selectedLetters) == Upper(word.word) {
        var points := SolveScore(|word.word|, timer, streak, hintsUsed);
        Solve(points);
        SaveSolve(word.id, level, points, streak, store, now);
      } else {
        streak := 0;
      }
    }

    /** Shows the answer row as solved and adds the points and a streak
        step. */
    method Solve(points: int)
      requires Valid() && currentWord.Some?
      modifies this
      ensures Valid()
      ensures isCorrect && correctLetters == selectedLetters && score == old(score) + points && streak == old(streak) + 1
      ensures scrambledLetters == old(scrambledLetters) && selectedLetters == old(selectedLetters) &&
              currentWord == old(currentWord) && timer == old(timer) && hintsUsed == old(hintsUsed) &&
              showHint == old(showHint) && gamesPlayed == old(gamesPlayed)
    {
      isCorrect := true;
      correctLetters := selectedLetters;
      score := score + points;
      streak := streak + 1;
    }

    /** `handleSelectedLetterPress`: once solved, nothing changes. Otherwise
        the tile at `index` in the answer row goes back to the end of the
        pile. */
    method HandleSelectedLetterPress(letter: Tile, index: nat)
      requires Valid() && index < |selectedLetters| && letter == selectedLetters[index]
      modifies this
      ensures Valid()
      ensures old(isCorrect) ==> unchanged(this)
      ensures !old(isCorrect) ==>
        selectedLetters == old(selectedLetters)[..index] + old(selectedLetters)[index + 1..] &&
        scrambledLetters == old(scrambledLetters) + [letter]
      ensures currentWord == old(currentWord) && isCorrect == old(isCorrect) && score == old(score) &&
              streak == old(streak) && timer == old(timer) && hintsUsed == old(hintsUsed) &&
              showHint == old(showHint) && gamesPlayed == old(gamesPlayed)
    {
      if isCorrect {
        return;
      }
      var before := selectedLetters[..index];
      var after := selectedLetters[index + 1..];
      assert selectedLetters == before + [letter] + after;
      assert multiset(scrambledLetters + [letter] + (before + after)) == multiset(scrambledLetters + selectedLetters);
      selectedLetters := before + after;
      scrambledLetters := scrambledLetters + [letter];
    }

    /** `clearSelected`: once solved, nothing changes. Otherwise the whole
        answer row goes back to the end of the pile, in order. */
    method ClearSelected()
      requires Valid()
      modifies this
      ensures Valid()
      ensures old(isCorrect) ==> unchanged(this)
      ensures !old(isCorrect) ==>
        selectedLetters == [] && scrambledLetters == old(scrambledLetters) + old(selectedLetters)
      ensures currentWord == old(currentWord) && isCorrect == old(isCorrect) && score == old(score) &&
              streak == old(streak) && timer == old(timer) && hintsUsed == old(hintsUsed) &&
              showHint == old(showHint) && gamesPlayed == old(gamesPlayed)
    {
      if isCorrect {
        return;
      }
      scrambledLetters := scrambledLetters + selectedLetters;
      selectedLetters := [];
      assert scrambledLetters + selectedLetters == old(scrambledLetters + selectedLetters);
    }

    /** `shuffleScrambled`: once solved, nothing changes. Otherwise the pile
        is reordered by one Fisher–Yates pass. */
    method ShuffleScrambled(rand: (nat, nat) -> nat)
      requires Valid()
      modifies this
      ensures Valid()
      ensures old(isCorrect) ==> unchanged(this)
      ensures multiset(scrambledLetters) == multiset(old(scrambledLetters))
      ensures selectedLetters == old(selectedLetters) && currentWord == old(currentWord) &&
              isCorrect == old(isCorrect) && score == old(score) && streak == old(streak) &&
              timer == old(timer) && hintsUsed == old(hintsUsed) && showHint == old(showHint) &&
              gamesPlayed == old(gamesPlayed)
    {
      if isCorrect {
        return;
      }
      var pile := scrambledLetters;
      var a := new Tile[|pile|](i requires 0 <= i < |pile| => pile[i]);
      assert a[..] == pile;
      Shuffle(a, rand, 0);
      scrambledLetters := a[..];
      assert multiset(scrambledLetters + selectedLetters) == multiset(pile + selectedLetters);
    }

    /** `useHint`: ignored while a hint shows or once solved; otherwise the
        hint shows and one more hint is counted. */
    method UseHint()
      requires Valid()
      modifies this
      ensures Valid()
      ensures old(showHint) || old(isCorrect) ==> unchanged(this)
      ensures !old(showHint) && !old(isCorrect) ==> showHint && hintsUsed == old(hintsUsed) + 1
      ensures currentWord == old(currentWord) && scrambledLetters == old(scrambledLetters) &&
              selectedLetters == old(selectedLetters) && isCorrect == old(isCorrect) && score == old(score) &&
              streak == old(streak) && timer == old(timer) && gamesPlayed == old(gamesPlayed)
    {
      if showHint || isCorrect {
        return;
      }
      showHint := true;
      hintsUsed := hintsUsed + 1;
    }

    /** `nextWord` (`skip` false) and `skipWord` (`skip` true): one more
        game played, the clock and hints reset, a skip also breaks the
        streak, and a new word is loaded. */
    method NextWord(skip: bool, data: Dataset, pick: nat, salt: nat -> nat, rand: (nat, nat) -> nat)
      requires Valid()
      modifies this
      ensures Valid()
      ensures gamesPlayed == old(gamesPlayed) + 1 && timer == 0 && hintsUsed == 0 && score == old(score)
      ensures streak == if skip then 0 else old(streak)
      ensures var w := GetRandomWord(data, level, [], pick);
        if w.None? || |w.value.word| < MIN_WORD_LENGTH then
          currentWord == old(currentWord) && scrambledLetters == old(scrambledLetters) &&
          selectedLetters == old(selectedLetters) && correctLetters == old(correctLetters) &&
          isCorrect == old(isCorrect) && showHint == old(showHint)
        else
          Dealt(w.value, salt)
    {
      Tally(skip);
      LoadNewWord(data, pick, salt, rand);
    }

    /** The counters `nextWord` and `skipWord` set before loading. */
    method Tally(skip: bool)
      requires Valid()
      modifies this
      ensures Valid()
      ensures gamesPlayed == old(gamesPlayed) + 1 && timer == 0 && hintsUsed == 0 && score == old(score)
      ensures streak == if skip then 0 else old(streak)
      ensures currentWord == old(currentWord) && scrambledLetters == old(scrambledLetters) &&
              selectedLetters == old(selectedLetters) && correctLetters == old(correctLetters) &&
              tiles == old(tiles) && isCorrect == old(isCorrect) && showHint == old(showHint)
    {
      if skip {
        streak := 0;
      }
      gamesPlayed := gamesPlayed + 1;
      timer := 0;
      hintsUsed := 0;
    }
  }
}
