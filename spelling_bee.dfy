/** The spelling-bee screen: a honeycomb of seven letters built around one
    word of the level, and the level's words that can be spelled from the
    honeycomb using its centre letter. */
module SpellingBee {
  import opened Common
  import opened VocabularyManager

  const MIN_WORD_LENGTH: nat := 4
  const HONEYCOMB_SIZE: nat := 7
  /** Fewer eligible words than this and no puzzle is built. */
  const MIN_ELIGIBLE: nat := 5
  /** The consonants a honeycomb is padded with, in this order. */
  const PADDING: string := "rstlnedcm"
  const PANGRAM_BONUS: nat := 7
  const GAME_NAME: string := "spellingBee"

  /** A word of at least four characters, all of them ASCII letters. */
  predicate Eligible(w: Word)
  {
    |w.word| >= MIN_WORD_LENGTH && forall i :: 0 <= i < |w.word| ==> IsAsciiLetter(w.word[i])
  }

  function EligibleWords(words: seq<Word>): (r: seq<Word>)
    ensures IsSubseq(r, words)
    ensures forall w :: w in r <==> w in words && Eligible(w)
  {
    Filter(words, Eligible)
  }

  /** The different letters of a word, lower-cased, in order of first
      appearance. */
  function UniqueLetters(word: string): (r: seq<char>)
    ensures Distinct(r)
    ensures forall c :: c in r <==> c in Lower(word)
    ensures InFirstOccurrenceOrder(r, Lower(word))
    ensures (forall i :: 0 <= i < |word| ==> IsAsciiLetter(word[i])) ==> forall c :: c in r ==> IsLowerAscii(c)
    ensures |word| > 0 ==> |r| > 0
  {
    var r := Dedup(Lower(word));
    assert |word| > 0 ==> Lower(word)[0] in r;
    r
  }

  function UniqueCount(w: Word): int
  {
    |UniqueLetters(w.word)|
  }

  /** The word the honeycomb is built around: the first word, in the
      shuffled order, with at least seven different letters; failing that,
      the first of the words with the most different letters. */
  function ChooseSeed(eligible: seq<Word>, picks: seq<nat>): (w: Word)
    requires eligible != []
    ensures w in eligible
    ensures UniqueCount(w) >= HONEYCOMB_SIZE || forall v :: v in eligible ==> UniqueCount(v) <= UniqueCount(w)
    ensures UniqueCount(w) < HONEYCOMB_SIZE ==>
      exists i :: 0 <= i < |eligible| && eligible[i] == w &&
        forall j :: 0 <= j < i ==> UniqueCount(eligible[j]) < UniqueCount(w)
  {
    var shuffled := Reorder(eligible, picks);
    var found := FindFirst(shuffled, (v: Word) => UniqueCount(v) >= HONEYCOMB_SIZE);
    if found.Some? then
      assert found.value in multiset(shuffled);
      found.value
    else
      var sorted := SortDesc(eligible, UniqueCount);
      MostLettersFirst(eligible);
      sorted[0]
  }

  /** The stable sort's head is an eligible word with the most different
      letters. */
  lemma MostLetters(eligible: seq<Word>)
    requires eligible != []
    ensures var w := SortDesc(eligible, UniqueCount)[0];
      w in eligible && forall v :: v in eligible ==> UniqueCount(v) <= UniqueCount(w)
  {
    var sorted := SortDesc(eligible, UniqueCount);
    assert sorted[0] in multiset(eligible);
    forall v | v in eligible ensures UniqueCount(v) <= UniqueCount(sorted[0]) {
      assert v in multiset(sorted);
      var j :| 0 <= j < |sorted| && sorted[j] == v;
    }
  }

  /** The stable sort's head is the first eligible word with the most
      different letters. */
  lemma MostLettersFirst(eligible: seq<Word>)
    requires eligible != []
    ensures var w := SortDesc(eligible, UniqueCount)[0];
      w in eligible &&
      (forall v :: v in eligible ==> UniqueCount(v) <= UniqueCount(w)) &&
      exists i :: 0 <= i < |eligible| && eligible[i] == w &&
                  forall j :: 0 <= j < i ==> UniqueCount(eligible[j]) < UniqueCount(w)
  {
    var sorted := SortDesc(eligible, UniqueCount);
    MostLetters(eligible);
    var most := UniqueCount(sorted[0]);
    assert WithKey(sorted, UniqueCount, most)[0] == sorted[0];
    WithKeyFirst(eligible, UniqueCount, most);
    var i :| 0 <= i < |eligible| && eligible[i] == WithKey(eligible, UniqueCount, most)[0] &&
      UniqueCount(eligible[i]) == most && forall j :: 0 <= j < i ==> UniqueCount(eligible[j]) != most;
    forall j | 0 <= j < i ensures UniqueCount(eligible[j]) < most {
      assert eligible[j] in eligible;
    }
  }

  /** The letters of `s` that are not in `u`, in order. */
  function Absent(s: seq<char>, u: seq<char>): (r: seq<char>)
    ensures forall c :: c in r <==> c in s && c !in u
    ensures IsSubseq(r, s)
    ensures Distinct(s) ==> Distinct(r)
  {
    if s == [] then []
    else if s[0] in u then Absent(s[1..], u)
    else
      var rest := Absent(s[1..], u);
      assert Distinct(s) ==> Distinct([s[0]] + rest) by {
        if Distinct(s) {
          assert s[0] !in s[1..];
          DistinctConcat([s[0]], rest);
        }
      }
      [s[0]] + rest
  }

  /** Removing the letters of `u` from a list without repeats removes at
      most `|u|` of them. */
  lemma {:induction false} AbsentLength(s: seq<char>, u: seq<char>)
    requires Distinct(s)
    ensures |Absent(s, u)| + |set c | c in s && c in u| == |s|
  {
    if s != [] {
      AbsentLength(s[1..], u);
      var shared := set c | c in s && c in u;
      var sharedRest := set c | c in s[1..] && c in u;
      assert s[0] !in s[1..];
      if s[0] in u {
        assert shared == sharedRest + {s[0]};
      } else {
        assert shared == sharedRest;
      }
    }
  }

  lemma AbsentAtLeast(s: seq<char>, u: seq<char>)
    requires Distinct(s)
    ensures |Absent(s, u)| >= |s| - |u|
  {
    AbsentLength(s, u);
    var shared := set c | c in s && c in u;
    var all := set c | c in u;
    assert all == shared + (all - shared);
    SetOfSeqCard(u);
  }

  /** The seven honeycomb letters for a seed word's different letters: seven
      of them in shuffled order when there are that many, otherwise all of
      them followed by the first padding consonants they do not already
      include. */
  function Honeycomb(unique: seq<char>, letterPicks: seq<nat>): (r: seq<char>)
    requires Distinct(unique)
    ensures |r| == HONEYCOMB_SIZE && Distinct(r)
    ensures |unique| <= HONEYCOMB_SIZE ==> r[..|unique|] == unique || forall c :: c in unique ==> c in r
    ensures |unique| < HONEYCOMB_SIZE ==> r[..|unique|] == unique && forall c :: c in r[|unique|..] ==> c in PADDING
    ensures |unique| < HONEYCOMB_SIZE ==> r[|unique|..] <= Absent(PADDING, unique)
    ensures (forall c :: c in unique ==> IsLowerAscii(c)) ==> forall c :: c in r ==> IsLowerAscii(c)
    ensures forall c :: c in r ==> c in unique || c in PADDING
  {
    if |unique| >= HONEYCOMB_SIZE then ShuffledSeven(unique, letterPicks) else Padded(unique)
  }

  /** Seven of at least seven distinct letters, in shuffled order. */
  function ShuffledSeven(unique: seq<char>, letterPicks: seq<nat>): (r: seq<char>)
    requires Distinct(unique) && |unique| >= HONEYCOMB_SIZE
    ensures |r| == HONEYCOMB_SIZE && Distinct(r)
    ensures forall c :: c in r ==> c in unique
    ensures |unique| == HONEYCOMB_SIZE ==> forall c :: c in unique ==> c in r
  {
    var shuffled := Reorder(unique, letterPicks);
    PermutationDistinct(unique, shuffled);
    var r := Take(shuffled, HONEYCOMB_SIZE);
    assert forall c :: c in r ==> c in unique by {
      forall c | c in r ensures c in unique {
        assert c in shuffled;
        assert c in multiset(unique);
      }
    }
    assert |unique| == HONEYCOMB_SIZE ==> forall c :: c in unique ==> c in r by {
      if |unique| == HONEYCOMB_SIZE {
        forall c | c in unique ensures c in r {
          assert c in multiset(shuffled);
        }
      }
    }
    r
  }

  /** Fewer than seven distinct letters, followed by the first padding
      consonants they do not include. */
  function Padded(unique: seq<char>): (r: seq<char>)
    requires Distinct(unique) && |unique| < HONEYCOMB_SIZE
    ensures |r| == HONEYCOMB_SIZE && Distinct(r)
    ensures r[..|unique|] == unique && forall c :: c in r[|unique|..] ==> c in PADDING
    ensures r[|unique|..] <= Absent(PADDING, unique)
  {
    assert Distinct(PADDING);
    var padding := Absent(PADDING, unique);
    AbsentAtLeast(PADDING, unique);
    var r := unique + padding[..HONEYCOMB_SIZE - |unique|];
    DistinctConcat(unique, padding[..HONEYCOMB_SIZE - |unique|]);
    assert r[|unique|..] == padding[..HONEYCOMB_SIZE - |unique|];
    r
  }

  /** The honeycomb letters, built as the screen does: a copy of the seed's
      letters topped up from the padding consonants one at a time. */
  method SelectLetters(unique: seq<char>, letterPicks: seq<nat>) returns (selected: seq<char>)
    requires Distinct(unique)
    ensures selected == Honeycomb(unique, letterPicks)
  {
    if |unique| >= HONEYCOMB_SIZE {
      var shuffled := Reorder(unique, letterPicks);
      selected := Take(shuffled, HONEYCOMB_SIZE);
      return;
    }
    var padding := Absent(PADDING, unique);
    ghost var allPadding := padding;
    assert Distinct(PADDING);
    AbsentAtLeast(PADDING, unique);
    selected := unique;
    while |selected| < HONEYCOMB_SIZE && |padding| > 0
      invariant |unique| <= |selected| <= HONEYCOMB_SIZE
      invariant |selected| - |unique| <= |allPadding|
      invariant selected == unique + allPadding[..|selected| - |unique|]
      invariant padding == allPadding[|selected| - |unique|..]
      decreases |padding|
    {
      selected := selected + [padding[0]];
      padding := padding[1..];
    }
  }

  /** The puzzle's seven lower-case letters: the honeycomb of the seed's
      different letters. */
  function PuzzleLetters(eligible: seq<Word>, picks: seq<nat>, letterPicks: seq<nat>): (r: seq<char>)
    requires eligible != [] && forall w :: w in eligible ==> Eligible(w)
    ensures |r| == HONEYCOMB_SIZE && Distinct(r) && forall c :: c in r ==> IsLowerAscii(c)
  {
    var seed := ChooseSeed(eligible, picks);
    assert Eligible(seed);
    Honeycomb(UniqueLetters(seed.word), letterPicks)
  }

  /** The letter selection of `generatePuzzle`: the seed, its different
      letters and the honeycomb built from them. */
  method PickLetters(eligible: seq<Word>, picks: seq<nat>, letterPicks: seq<nat>) returns (letters: seq<char>)
    requires eligible != [] && forall w :: w in eligible ==> Eligible(w)
    ensures letters == PuzzleLetters(eligible, picks, letterPicks)
  {
    var seed := ChooseSeed(eligible, picks);
    letters := SelectLetters(UniqueLetters(seed.word), letterPicks);
  }

  /** The word spells with the honeycomb: it holds the centre letter and
      every one of its letters, lower-cased, is a honeycomb letter. */
  predicate Spellable(w: Word, letters: seq<char>)
    requires |letters| > 0
  {
    letters[0] in Lower(w.word) && forall i :: 0 <= i < |w.word| ==> Lower(w.word)[i] in letters
  }

  function SpellableWords(eligible: seq<Word>, letters: seq<char>): (r: seq<Word>)
    requires |letters| > 0
    ensures IsSubseq(r, eligible)
    ensures forall w :: w in r <==> w in eligible && Spellable(w, letters)
  {
    Filter(eligible, (w: Word) => Spellable(w, letters))
  }

  /** The seed word of a puzzle with at most seven different letters is
      always one of its answers. */
  lemma SeedIsAnswer(eligible: seq<Word>, picks: seq<nat>, letterPicks: seq<nat>)
    requires eligible != [] && forall w :: w in eligible ==> Eligible(w)
    ensures var seed := ChooseSeed(eligible, picks);
            var letters := Honeycomb(UniqueLetters(seed.word), letterPicks);
            UniqueCount(seed) <= HONEYCOMB_SIZE ==> seed in SpellableWords(eligible, letters)
  {
    var seed := ChooseSeed(eligible, picks);
    var unique := UniqueLetters(seed.word);
    var letters := Honeycomb(unique, letterPicks);
    if |unique| <= HONEYCOMB_SIZE {
      assert unique[0] in unique;
      if |unique| < HONEYCOMB_SIZE {
        assert letters[0] == letters[..|unique|][0];
      } else if letters[..|unique|] == unique {
        assert letters[0] == letters[..|unique|][0];
      } else {
        assert letters[0] in unique;
      }
      forall i | 0 <= i < |seed.word| ensures Lower(seed.word)[i] in letters {
        assert Lower(seed.word)[i] in unique;
        if letters[..|unique|] == unique {
          assert Lower(seed.word)[i] in letters[..|unique|];
        }
      }
    }
  }

  /** The letters of a honeycomb shown with an upper-cased centre and outer
      ring, lower-cased again as the scoring does. */
  function LetterSet(centerLetter: string, outerLetters: string): set<char>
  {
    set c | c in Lower(centerLetter) + Lower(outerLetters)
  }

  /** Every one of `letters` occurs in the word, case aside. */
  predicate UsesAll(word: string, letters: set<char>)
  {
    forall l :: l in letters ==> l in Lower(word)
  }

  /** `calculateWordScore`: one point for a four-letter word; otherwise a
      point a letter, and seven more for a word using every honeycomb
      letter. */
  function WordScore(word: string, letters: set<char>): (points: int)
    ensures |word| == MIN_WORD_LENGTH ==> points == 1
    ensures |word| != MIN_WORD_LENGTH && UsesAll(word, letters) ==> points == |word| + PANGRAM_BONUS
    ensures |word| != MIN_WORD_LENGTH && !UsesAll(word, letters) ==> points == |word|
  {
    if |word| == MIN_WORD_LENGTH then 1
    else |word| + (if UsesAll(word, letters) then PANGRAM_BONUS else 0)
  }

  /** A word scores the same as its lower-cased spelling. */
  lemma WordScoreLower(word: string, letters: set<char>)
    ensures WordScore(Lower(word), letters) == WordScore(word, letters)
  {
    assert Lower(Lower(word)) == Lower(word);
  }

  /** Every word of at least four letters scores at least one point. */
  lemma WordScorePositive(word: string, letters: set<char>)
    requires |word| >= MIN_WORD_LENGTH
    ensures WordScore(word, letters) >= 1
  {
  }

  /** The points available in a list of words. */
  function SumScores(words: seq<Word>, letters: set<char>): int
  {
    if words == [] then 0
    else SumScores(words[..|words| - 1], letters) + WordScore(words[|words| - 1].word, letters)
  }

  /** The points earned by a list of found words. */
  function FoundScore(found: seq<string>, letters: set<char>): int
  {
    if found == [] then 0
    else FoundScore(found[..|found| - 1], letters) + WordScore(found[|found| - 1], letters)
  }

  /** The puzzle's total is at least its number of answers, so it is 0
      exactly when the puzzle has no answers. */
  lemma {:induction false} SumScoresAtLeastCount(words: seq<Word>, letters: set<char>)
    requires forall w :: w in words ==> Eligible(w)
    ensures SumScores(words, letters) >= |words|
    ensures SumScores(words, letters) == 0 <==> words == []
  {
    if words != [] {
      SumScoresAtLeastCount(words[..|words| - 1], letters);
      assert words[|words| - 1] in words;
      WordScorePositive(words[|words| - 1].word, letters);
    }
  }

  /** The loop that adds up the puzzle's maximum score. */
  method MaxScore(words: seq<Word>, letters: set<char>) returns (total: int)
    ensures total == SumScores(words, letters)
  {
    total := 0;
    for i := 0 to |words|
      invariant total == SumScores(words[..i], letters)
    {
      assert words[..i + 1][..i] == words[..i];
      total := total + WordScore(words[i].word, letters);
    }
    assert words[..|words|] == words;
  }

  datatype Rank = Beginner | GoodStart | Solid | Nice | Great | Amazing | Genius | QueenBee

  function RankOrder(r: Rank): nat
  {
    match r
    case Beginner => 0
    case GoodStart => 1
    case Solid => 2
    case Nice => 3
    case Great => 4
    case Amazing => 5
    case Genius => 6
    case QueenBee => 7
  }

  /** `score` is at least `pct` percent of `maxScore`. */
  predicate AtLeastPercent(score: int, maxScore: int, pct: int)
  {
    score * 100 >= pct * maxScore
  }

  /** `getRank`: the title for the share of the maximum score earned; a
      puzzle without answers always ranks as a beginner, and one with points
      to earn rises above beginner from five percent of its maximum on. */
  function GetRank(score: int, maxScore: int): (r: Rank)
    ensures maxScore == 0 ==> r == Beginner
    ensures maxScore > 0 ==> (r != Beginner <==> AtLeastPercent(score, maxScore, 5))
  {
    if maxScore == 0 then Beginner
    else if AtLeastPercent(score, maxScore, 100) then QueenBee
    else if AtLeastPercent(score, maxScore, 70) then Genius
    else if AtLeastPercent(score, maxScore, 50) then Amazing
    else if AtLeastPercent(score, maxScore, 40) then Great
    else if AtLeastPercent(score, maxScore, 25) then Nice
    else if AtLeastPercent(score, maxScore, 15) then Solid
    else if AtLeastPercent(score, maxScore, 5) then GoodStart
    else Beginner
  }

  /** A higher score never earns a lower rank. */
  lemma RankMonotone(s1: int, s2: int, maxScore: int)
    requires s1 <= s2 && maxScore >= 0
    ensures RankOrder(GetRank(s1, maxScore)) <= RankOrder(GetRank(s2, maxScore))
  {
  }

  /** The top rank is earned exactly by reaching the maximum score. */
  lemma QueenBeeIff(score: int, maxScore: int)
    requires maxScore >= 0
    ensures GetRank(score, maxScore) == QueenBee <==> maxScore > 0 && score >= maxScore
  {
  }

  /** The outcome of submitting the typed letters. */
  datatype Verdict =
    | TooShort
    | MissingCenter
    | AlreadyFound
    | NotInList
    | Accepted(word: Word, points: int, pangram: bool)

  /** `handleSubmit`'s checks, in order: length, centre letter, already
      found, then the first answer equal to the input case aside. */
  function Judge(input: string, centerLetter: string, found: seq<string>, valid: seq<Word>, letters: set<char>): (v: Verdict)
    ensures v.TooShort? <==> |input| < MIN_WORD_LENGTH
    ensures v.MissingCenter? <==> |input| >= MIN_WORD_LENGTH && !IsSubstring(centerLetter, input)
    ensures v.AlreadyFound? <==>
      |input| >= MIN_WORD_LENGTH && IsSubstring(centerLetter, input) && Lower(input) in found
    ensures v.Accepted? <==>
      |input| >= MIN_WORD_LENGTH && IsSubstring(centerLetter, input) && Lower(input) !in found &&
      exists w :: w in valid && Lower(w.word) == Lower(input)
    ensures v.Accepted? ==>
      v.word in valid && Lower(v.word.word) == Lower(input) && v.points == WordScore(v.word.word, letters) &&
      v.pangram == UsesAll(v.word.word, letters)
  {
    if |input| < MIN_WORD_LENGTH then TooShort
    else if !IsSubstring(centerLetter, input) then MissingCenter
    else if Lower(input) in found then AlreadyFound
    else
      match FindFirst(valid, (w: Word) => Lower(w.word) == Lower(input))
      case None => NotInList
      case Some(m) => Accepted(m, WordScore(m.word, letters), UsesAll(m.word, letters))
  }

  /** A word once accepted is refused as already found. */
  lemma AcceptedOnce(input: string, centerLetter: string, found: seq<string>, valid: seq<Word>, letters: set<char>)
    requires Judge(input, centerLetter, found, valid, letters).Accepted?
    ensures Judge(input, centerLetter, found + [Lower(input)], valid, letters) == AlreadyFound
  {
  }

  /** The stats saved when every answer is found. */
  function FinishStats(stats: Stats, correct: int, total: int, finalScore: int): (r: Stats)
    ensures r.Keys == {"correctWords", "totalWords", "gamesPlayed", "bestScore"}
    ensures r["correctWords"] == StatOr(stats, "correctWords", 0) + correct
    ensures r["totalWords"] == StatOr(stats, "totalWords", 0) + total
    ensures r["gamesPlayed"] == StatOr(stats, "gamesPlayed", 0) + 1
    ensures r["bestScore"] >= finalScore && r["bestScore"] >= StatOr(stats, "bestScore", 0)
    ensures r["bestScore"] == finalScore || r["bestScore"] == StatOr(stats, "bestScore", 0)
  {
    map["correctWords" := StatOr(stats, "correctWords", 0) + correct,
        "totalWords" := StatOr(stats, "totalWords", 0) + total,
        "gamesPlayed" := StatOr(stats, "gamesPlayed", 0) + 1,
        "bestScore" := Max(StatOr(stats, "bestScore", 0), finalScore)]
  }

  /** The stats as the screen saves them: the found count is the one after
      the last word, but the score is the one from before it. */
  function FinishStatsAsWritten(stats: Stats, foundBefore: seq<string>, valid: seq<Word>, scoreBefore: int): (r: Stats)
    ensures forall found, finalScore :: found == |foundBefore| + 1 ==>
      SameButBestScore(r, FinishStats(stats, found, |valid|, finalScore))
    ensures "bestScore" in r && r["bestScore"] == Max(StatOr(stats, "bestScore", 0), scoreBefore)
  {
    FinishStats(stats, |foundBefore| + 1, |valid|, scoreBefore)
  }

  /** When the last word lifts the score above the best saved so far, the
      saved best score misses that word's points. */
  lemma AsWrittenBestScoreMissesLastWord(stats: Stats, foundBefore: seq<string>, valid: seq<Word>, scoreBefore: int, points: int)
    requires StatOr(stats, "bestScore", 0) <= scoreBefore && points > 0
    ensures FinishStatsAsWritten(stats, foundBefore, valid, scoreBefore)["bestScore"] < scoreBefore + points
  {
  }

  /** The saving side of an accepted answer: the word is marked discovered
      and, when it was the last answer, `finishGame` saves the stats with
      the final score. */
  method SaveAnswer(wordId: string, level: string, finished: bool, correct: int, total: int, finalScore: int,
                    store: ProgressStore, now: string)
    requires store.Valid()
    modifies store
    ensures store.Valid()
    ensures wordId in store.GetDiscovered(level)
    ensures finished ==>
      store.GetGameStats(GAME_NAME) ==
        old(store.GetGameStats(GAME_NAME)) + FinishStats(old(store.GetGameStats(GAME_NAME)), correct, total, finalScore)
    ensures !finished ==> store.GetProgress().gameStats == old(store.GetProgress().gameStats)
    ensures KeepsOthers(old(store.GetProgress()), store.GetProgress(), level, GAME_NAME)
  {
    var _ := store.MarkDiscovered(wordId, level, now);
    if finished {
      var stats := store.GetGameStats(GAME_NAME);
      store.UpdateGameStats(GAME_NAME, FinishStats(stats, correct, total, finalScore), now);
    }
  }

  /** The answers whose lower-cased spelling has not been found. */
  function Unfound(valid: seq<Word>, found: seq<string>): (r: seq<Word>)
    ensures forall w :: w in r <==> w in valid && Lower(w.word) !in found
  {
    Filter(valid, (w: Word) => Lower(w.word) !in found)
  }

  /** The hint `useHint` shows: the first two letters, upper-cased, of a
      drawn word not found yet, or nothing once every word is found. */
  function HintFor(valid: seq<Word>, found: seq<string>, pick: nat): (hint: Option<string>)
    ensures hint.None? <==> forall w :: w in valid ==> Lower(w.word) in found
    ensures hint.Some? ==>
      exists w :: w in valid && Lower(w.word) !in found && hint.value == Upper(Take(w.word, 2))
  {
    var remaining := Unfound(valid, found);
    if remaining == [] then None
    else
      var chosen := remaining[pick % |remaining|];
      assert chosen in remaining;
      Some(Upper(Take(chosen.word, 2)))
  }

  class SpellingBeeRound {
    const level: string
    var centerLetter: string
    var outerLetters: string
    var currentInput: string
    var foundWords: seq<string>
    var validWords: seq<Word>
    var score: int
    var maxScore: int
    var gameStarted: bool
    var timer: int
    var hintsUsed: int

    /** The honeycomb letters, lower-cased, as scoring sees them. */
    function Letters(): set<char>
      reads this
    {
      LetterSet(centerLetter, outerLetters)
    }

    /** Before the first puzzle there are no letters and no answers;
        afterwards one centre and six outer letters. Found words are the
        lower-cased spellings of answers, each found once, and the score is
        what they earn. */
    ghost predicate Valid()
      reads this
    {
      ((centerLetter == [] && outerLetters == [] && validWords == []) ||
       (|centerLetter| == 1 && |outerLetters| == HONEYCOMB_SIZE - 1)) &&
      Distinct(foundWords) &&
      (forall f :: f in foundWords ==> exists w :: w in validWords && Lower(w.word) == f) &&
      score == FoundScore(foundWords, Letters()) &&
      hintsUsed >= 0
    }

    constructor (level: string)
      ensures Valid()
      ensures this.level == level && centerLetter == [] && outerLetters == [] && validWords == [] &&
              foundWords == [] && currentInput == [] && score == 0 && maxScore == 0
    {
      this.level := level;
      centerLetter := [];
      outerLetters := [];
      currentInput := [];
      foundWords := [];
      validWords := [];
      score := 0;
      maxScore := 0;
      gameStarted := false;
      timer := 0;
      hintsUsed := 0;
    }

    /** `generatePuzzle`: with fewer than five eligible words nothing
        changes; otherwise the honeycomb is built around the seed word, its
        answers and maximum score computed, and the round reset. */
    method Generate(data: Dataset, picks: seq<nat>, letterPicks: seq<nat>)
      requires Valid()
      modifies this
      ensures Valid()
      ensures var eligible := EligibleWords(GetWordsByLevel(data, level));
        if |eligible| < MIN_ELIGIBLE then unchanged(this)
        else
          var letters := PuzzleLetters(eligible, picks, letterPicks);
          centerLetter == [UpperChar(letters[0])] && outerLetters == Upper(letters[1..]) &&
          Letters() == (set c | c in letters) &&
          validWords == SpellableWords(eligible, letters) &&
          maxScore == SumScores(validWords, Letters()) &&
          foundWords == [] && currentInput == [] && score == 0 && timer == 0 && !gameStarted && hintsUsed == 0
    {
      var eligible := EligibleWords(GetWordsByLevel(data, level));
      if |eligible| < MIN_ELIGIBLE {
        return;
      }
      var selected := PickLetters(eligible, picks, letterPicks);
      var possible := SpellableWords(eligible, selected);
      var total := MaxScore(possible, set c | c in selected);
      StartPuzzle(selected, possible, total);
    }

    /** Shows the honeycomb upper-cased, centre first, with its answers and
        maximum score, and resets the round. */
    method StartPuzzle(letters: seq<char>, possible: seq<Word>, total: int)
      requires |letters| == HONEYCOMB_SIZE && forall c :: c in letters ==> IsLowerAscii(c)
      modifies this
      ensures Valid()
      ensures centerLetter == [UpperChar(letters[0])] && outerLetters == Upper(letters[1..]) &&
              Letters() == (set c | c in letters) && validWords == possible && maxScore == total &&
              foundWords == [] && currentInput == [] && score == 0 && timer == 0 && !gameStarted && hintsUsed == 0
    {
      RoundTripCase(letters);
      centerLetter := [UpperChar(letters[0])];
      outerLetters := Upper(letters[1..]);
      validWords := possible;
      maxScore := total;
      foundWords := [];
      currentInput := [];
      score := 0;
      timer := 0;
      gameStarted := false;
      hintsUsed := 0;
    }

    /** `handleLetterPress`: starts the clock and types the letter. */
    method HandleLetterPress(letter: string)
      requires Valid()
      modifies this
      ensures Valid()
      ensures gameStarted && currentInput == old(currentInput) + letter
      ensures centerLetter == old(centerLetter) && outerLetters == old(outerLetters) &&
              foundWords == old(foundWords) && validWords == old(validWords) && score == old(score) &&
              maxScore == old(maxScore) && timer == old(timer) && hintsUsed == old(hintsUsed)
    {
      gameStarted := true;
      currentInput := currentInput + letter;
    }

    /** `handleDelete`: removes the last typed letter, if any. */
    method HandleDelete()
      requires Valid()
      modifies this
      ensures Valid()
      ensures old(currentInput) == [] ==> currentInput == []
      ensures old(currentInput) != [] ==> currentInput + [old(currentInput)[|old(currentInput)| - 1]] == old(currentInput)
      ensures centerLetter == old(centerLetter) && outerLetters == old(outerLetters) &&
              foundWords == old(foundWords) && validWords == old(validWords) && score == old(score) &&
              maxScore == old(maxScore) && timer == old(timer) && hintsUsed == old(hintsUsed) &&
              gameStarted == old(gameStarted)
    {
      if |currentInput| > 0 {
        currentInput := currentInput[..|currentInput| - 1];
      }
    }

    /** `handleShuffle`: reorders the outer ring; the letters stay the same. */
    method HandleShuffle(picks: seq<nat>)
      requires Valid()
      modifies this
      ensures Valid()
      ensures multiset(outerLetters) == multiset(old(outerLetters)) && Letters() == old(Letters())
      ensures centerLetter == old(centerLetter) && currentInput == old(currentInput) &&
              foundWords == old(foundWords) && validWords == old(validWords) && score == old(score) &&
              maxScore == old(maxScore) && timer == old(timer) && hintsUsed == old(hintsUsed) &&
              gameStarted == old(gameStarted)
    {
      var shuffled := Reorder(outerLetters, picks);
      SameLettersLowered(centerLetter, outerLetters, shuffled);
      outerLetters := shuffled;
    }

    /** `handleSubmit`: judges the typed word and clears the input. An
        accepted word is added, lower-cased, to the found words, scores its
        points and is marked discovered; the last answer found saves the
        stats with the final score. */
    method HandleSubmit(store: ProgressStore, now: string) returns (verdict: Verdict)
      requires Valid() && store.Valid()
      modifies this, store
      ensures Valid() && store.Valid()
      ensures verdict == Judge(old(currentInput), centerLetter, old(foundWords), validWords, Letters())
      ensures currentInput == []
      ensures centerLetter == old(centerLetter) && outerLetters == old(outerLetters) &&
              validWords == old(validWords) && maxScore == old(maxScore) && timer == old(timer) &&
              hintsUsed == old(hintsUsed) && gameStarted == old(gameStarted)
      ensures !verdict.Accepted? ==> foundWords == old(foundWords) && score == old(score) && unchanged(store)
      ensures verdict.Accepted? ==>
        foundWords == old(foundWords) + [Lower(old(currentInput))] &&
        score == old(score) + verdict.points &&
        verdict.word.id in store.GetDiscovered(level) &&
        (|foundWords| == |validWords| ==>
          store.GetGameStats(GAME_NAME) ==
            old(store.GetGameStats(GAME_NAME)) +
            FinishStats(old(store.GetGameStats(GAME_NAME)), |foundWords|, |validWords|, score)) &&
        (|foundWords| != |validWords| ==> store.GetProgress().gameStats == old(store.GetProgress().gameStats))
      ensures KeepsOthers(old(store.GetProgress()), store.GetProgress(), level, GAME_NAME)
    {
      var letters := Letters();
      verdict := Judge(currentInput, centerLetter, foundWords, validWords, letters);
      if verdict.Accepted? {
        Accept(verdict.word, verdict.points);
        SaveAnswer(verdict.word.id, level, |foundWords| == |validWords|, |foundWords|, |validWords|, score, store, now);
      }
      ClearInput();
      assert Letters() == letters;
    }

    /** The input row is emptied after every submission. */
    method ClearInput()
      requires Valid()
      modifies this
      ensures Valid() && currentInput == []
      ensures centerLetter == old(centerLetter) && outerLetters == old(outerLetters) &&
              foundWords == old(foundWords) && validWords == old(validWords) && score == old(score) &&
              maxScore == old(maxScore) && timer == old(timer) && hintsUsed == old(hintsUsed) &&
              gameStarted == old(gameStarted)
    {
      currentInput := [];
    }

    /** Records the typed word as found, with the points of the answer it
        spells. */
    method Accept(m: Word, points: int)
      requires Valid() && m in validWords && Lower(m.word) == Lower(currentInput)
      requires Lower(currentInput) !in foundWords && points == WordScore(m.word, Letters())
      modifies this
      ensures Valid()
      ensures foundWords == old(foundWords) + [Lower(currentInput)] && score == old(score) + points
      ensures centerLetter == old(centerLetter) && outerLetters == old(outerLetters) &&
              currentInput == old(currentInput) && validWords == old(validWords) && maxScore == old(maxScore) &&
              timer == old(timer) && hintsUsed == old(hintsUsed) && gameStarted == old(gameStarted)
    {
      WordScoreLower(m.word, Letters());
      var f := Lower(currentInput);
      assert (foundWords + [f])[..|foundWords|] == foundWords;
      DistinctConcat(foundWords, [f]);
      foundWords := foundWords + [f];
      score := score + points;
    }

    /** `useHint`: with answers left to find, the first two letters of one
        of them (the `pick`-th), upper-cased, and one more hint used;
        otherwise nothing. */
    method UseHint(pick: nat) returns (hint: Option<string>)
      requires Valid()
      modifies this
      ensures Valid()
      ensures hint == HintFor(validWords, foundWords, pick)
      ensures hintsUsed == if hint.Some? then old(hintsUsed) + 1 else old(hintsUsed)
      ensures centerLetter == old(centerLetter) && outerLetters == old(outerLetters) &&
              currentInput == old(currentInput) && foundWords == old(foundWords) && validWords == old(validWords) &&
              score == old(score) && maxScore == old(maxScore) && timer == old(timer) && gameStarted == old(gameStarted)
    {
      hint := HintFor(validWords, foundWords, pick);
      if hint.Some? {
        hintsUsed := hintsUsed + 1;
      }
    }
  }

  /** Upper-casing lower-case honeycomb letters for display and lower-casing
      them again for scoring gives back the same letters. */
  lemma RoundTripCase(letters: seq<char>)
    requires |letters| > 0 && forall c :: c in letters ==> IsLowerAscii(c)
    ensures LetterSet([UpperChar(letters[0])], Upper(letters[1..])) == set c | c in letters
  {
    var shown := Lower([UpperChar(letters[0])]) + Lower(Upper(letters[1..]));
    forall i | 0 <= i < |letters| ensures shown[i] == letters[i] {
      assert letters[i] in letters;
    }
    assert shown == letters;
  }

  /** Two orderings of the same outer letters make the same letter set. */
  lemma SameLettersLowered(centerLetter: string, a: string, b: string)
    requires multiset(a) == multiset(b)
    ensures LetterSet(centerLetter, a) == LetterSet(centerLetter, b)
  {
    forall c | c in Lower(a) ensures c in Lower(b) {
      var i :| 0 <= i < |a| && Lower(a)[i] == c;
      assert a[i] in multiset(b);
      var j :| 0 <= j < |b| && b[j] == a[i];
      assert Lower(b)[j] == c;
    }
    forall c | c in Lower(b) ensures c in Lower(a) {
      var j :| 0 <= j < |b| && Lower(b)[j] == c;
      assert b[j] in multiset(a);
      var i :| 0 <= i < |a| && a[i] == b[j];
      assert Lower(a)[i] == c;
    }
  }
}
