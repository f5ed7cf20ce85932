/** The word bank and the progress store shared by every game.
    The static vocabulary data is an ordered list of levels; the device's
    key-value storage is an in-memory map held by a `ProgressStore` object. */
module VocabularyManager {
  import opened Common

  /** One vocabulary entry. */
  datatype Word = Word(id: string, word: string, definition: string, hint: string,
                       example: string, category: string)

  /** One level of the static data (A1 .. C2), in the data's key order. */
  datatype Level = Level(name: string, words: seq<Word>)

  type Dataset = seq<Level>

  /** The words of a level, or none for a level the data does not have. */
  function GetWordsByLevel(data: Dataset, level: string): (r: seq<Word>)
    ensures (forall k :: 0 <= k < |data| ==> data[k].name != level) ==> r == []
    ensures forall k :: 0 <= k < |data| && data[k].name == level && IsFirstLevelNamed(data, level, k) ==>
              r == data[k].words
  {
    if data == [] then []
    else if data[0].name == level then data[0].words
    else
      var r := GetWordsByLevel(data[1..], level);
      forall k | 0 <= k < |data| && data[k].name == level && IsFirstLevelNamed(data, level, k)
        ensures r == data[k].words
      {
        assert k > 0;
        assert data[1..][k - 1] == data[k];
        assert IsFirstLevelNamed(data[1..], level, k - 1);
      }
      r
  }

  /** No level before the `k`-th is named `level`. */
  predicate IsFirstLevelNamed(data: Dataset, level: string, k: int)
    requires 0 <= k <= |data|
  {
    forall j :: 0 <= j < k ==> data[j].name != level
  }

  /** The words of a list whose id is not excluded, in order. */
  function Available(words: seq<Word>, excludeIds: seq<string>): seq<Word>
  {
    Filter(words, (w: Word) => w.id !in excludeIds)
  }

  /** A random word of the level that is not excluded; `pick` stands for the
      random draw and is reduced to the number of candidates. */
  function GetRandomWord(data: Dataset, level: string, excludeIds: seq<string>, pick: nat): (r: Option<Word>)
    ensures r.None? <==> forall w :: w in GetWordsByLevel(data, level) ==> w.id in excludeIds
    ensures r.Some? ==> r.value in GetWordsByLevel(data, level) && r.value.id !in excludeIds
  {
    var available := Available(GetWordsByLevel(data, level), excludeIds);
    if |available| == 0 then None
    else
      assert available[pick % |available|] in available;
      Some(available[pick % |available|])
  }

  /** Up to `count` distinct draws among the level's non-excluded words: the
      candidates in an order fixed by `picks` (the random comparator of the
      source's sort), cut to `min(count, candidates)`. */
  function GetRandomWords(data: Dataset, level: string, count: nat, excludeIds: seq<string>,
                          picks: seq<nat>): (r: seq<Word>)
    ensures |r| == if count < |Available(GetWordsByLevel(data, level), excludeIds)| then count
                   else |Available(GetWordsByLevel(data, level), excludeIds)|
    ensures forall w :: w in r ==> w in GetWordsByLevel(data, level) && w.id !in excludeIds
    ensures multiset(r) <= multiset(Available(GetWordsByLevel(data, level), excludeIds))
  {
    var available := Available(GetWordsByLevel(data, level), excludeIds);
    var shuffled := Reorder(available, picks);
    TakeSubMultiset(shuffled, count);
    PermutationMembers(available, shuffled);
    Take(shuffled, count)
  }

  /** The first word of a list with the given id (`Array.prototype.find`). */
  function FindById(words: seq<Word>, wordId: string): (r: Option<Word>)
    ensures r.None? <==> forall w :: w in words ==> w.id != wordId
    ensures r.Some? ==> exists i :: 0 <= i < |words| && words[i] == r.value && r.value.id == wordId
                                    && forall j :: 0 <= j < i ==> words[j].id != wordId
  {
    if words == [] then None
    else if words[0].id == wordId then Some(words[0])
    else
      var r := FindById(words[1..], wordId);
      assert forall w :: w in words[1..] ==> w in words;
      if r.Some? then
        var i :| 0 <= i < |words[1..]| && words[1..][i] == r.value && r.value.id == wordId
                 && forall j :: 0 <= j < i ==> words[1..][j].id != wordId;
        assert words[i + 1] == r.value;
        r
      else r
  }

  /** The first word with the given id across the levels, in level order, with
      the name of its level attached. */
  function GetWordById(data: Dataset, wordId: string): (r: Option<(Word, string)>)
    ensures r.Some? ==> r.value.0.id == wordId
  {
    if data == [] then None
    else match FindById(data[0].words, wordId)
      case Some(w) => Some((w, data[0].name))
      case None => GetWordById(data[1..], wordId)
  }

  /** `getWordById` finds nothing exactly when no level holds the id, and
      otherwise returns the level's first word with that id from the first
      level that has one. */
  lemma {:induction false} GetWordByIdFirst(data: Dataset, wordId: string)
    ensures var r := GetWordById(data, wordId);
            r.None? <==> forall k, w :: 0 <= k < |data| && w in data[k].words ==> w.id != wordId
    ensures var r := GetWordById(data, wordId);
            r.Some? ==> exists k :: 0 <= k < |data| && data[k].name == r.value.1 &&
                                    FindById(data[k].words, wordId) == Some(r.value.0) &&
                                    forall k' :: 0 <= k' < k ==> FindById(data[k'].words, wordId).None?
  {
    if data != [] && FindById(data[0].words, wordId).None? {
      var r := GetWordById(data[1..], wordId);
      GetWordByIdFirst(data[1..], wordId);
      assert forall k :: 1 <= k < |data| ==> data[k] == data[1..][k - 1];
      if r.Some? {
        var k :| 0 <= k < |data[1..]| && data[1..][k].name == r.value.1 &&
                 FindById(data[1..][k].words, wordId) == Some(r.value.0) &&
                 forall k' :: 0 <= k' < k ==> FindById(data[1..][k'].words, wordId).None?;
        assert data[k + 1] == data[1..][k];
      }
    }
  }

  /** The number of words in all levels together. */
  function TotalWords(data: Dataset): nat
  {
    if data == [] then 0 else |data[0].words| + TotalWords(data[1..])
  }

  lemma {:induction false} TotalWordsAppend(data: Dataset, l: Level)
    ensures TotalWords(data + [l]) == TotalWords(data) + |l.words|
  {
    if data != [] {
      assert (data + [l])[1..] == data[1..] + [l];
      TotalWordsAppend(data[1..], l);
    }
  }

  /** Every level's word list is part of the total. */
  lemma {:induction false} LevelWithinTotal(data: Dataset, level: string)
    ensures |GetWordsByLevel(data, level)| <= TotalWords(data)
  {
    if data != [] && data[0].name != level {
      LevelWithinTotal(data[1..], level);
    }
  }

  /** `getTotalWords`: sums the level sizes with an accumulator. */
  method GetTotalWords(data: Dataset) returns (total: nat)
    ensures total == TotalWords(data)
  {
    total := 0;
    var k := 0;
    while k < |data|
      invariant 0 <= k <= |data|
      invariant total == TotalWords(data[..k])
    {
      assert data[..k + 1] == data[..k] + [data[k]];
      TotalWordsAppend(data[..k], data[k]);
      total := total + |data[k].words|;
      k := k + 1;
    }
    assert data[..k] == data;
  }

  /** A game's statistics object: numeric fields by name. */
  type Stats = map<string, int>

  /** Two statistics records with the same fields, equal in all but the
      best score. */
  predicate SameButBestScore(a: Stats, b: Stats)
  {
    a.Keys == b.Keys && forall k :: k in a && k != "bestScore" ==> a[k] == b[k]
  }

  /** The persisted progress record. */
  datatype Progress = Progress(discoveredWords: map<string, seq<string>>,
                               gameStats: map<string, Stats>,
                               achievements: seq<string>,
                               lastPlayed: Option<string>)

  const STORAGE_KEY := "@wordGameProgress"

  function DefaultProgress(): Progress
  {
    Progress(
      map["A1" := [], "A2" := [], "B1" := [], "B2" := [], "C1" := [], "C2" := []],
      map["typingSpeed" := map["highScore" := 0, "gamesPlayed" := 0, "totalWPM" := 0, "averageWPM" := 0],
          "wordGuess" := map["correctAnswers" := 0, "totalGuesses" := 0, "gamesPlayed" := 0],
          "wordSearch" := map["gamesWon" := 0, "totalTime" := 0],
          "wordPuzzle" := map["solved" := 0, "attempts" := 0],
          "spellingBee" := map["correctWords" := 0, "totalWords" := 0],
          "anagram" := map["solved" := 0, "attempts" := 0]],
      [],
      None)
  }

  /** The parsed object kept under the storage key: each top-level key may be
      missing (`lastPlayed` may also be present and null). */
  datatype StoredProgress = StoredProgress(discoveredWords: Option<map<string, seq<string>>>,
                                           gameStats: Option<map<string, Stats>>,
                                           achievements: Option<seq<string>>,
                                           lastPlayed: Option<Option<string>>)

  /** What `saveProgress` writes: every key of the record. */
  function Stored(p: Progress): StoredProgress
  {
    StoredProgress(Some(p.discoveredWords), Some(p.gameStats), Some(p.achievements), Some(p.lastPlayed))
  }

  function OrElse<T>(o: Option<T>, d: T): T
  {
    if o.Some? then o.value else d
  }

  /** `{ ...getDefaultProgress(), ...parsed }`: a top-level merge. */
  function MergeOverDefaults(s: StoredProgress): Progress
  {
    var d := DefaultProgress();
    Progress(OrElse(s.discoveredWords, d.discoveredWords), OrElse(s.gameStats, d.gameStats),
             OrElse(s.achievements, d.achievements), OrElse(s.lastPlayed, d.lastPlayed))
  }

  /** What is saved is what is loaded back. */
  lemma MergeRoundTrip(p: Progress)
    ensures MergeOverDefaults(Stored(p)) == p
  {
  }

  /** The merge is shallow: a stored `gameStats` replaces the default one whole,
      so a game missing from it has no statistics even though the defaults have
      some, and likewise for the levels of `discoveredWords`. */
  lemma MergeIsShallow(s: StoredProgress, game: string, level: string)
    requires s.gameStats.Some? && game !in s.gameStats.value
    requires s.discoveredWords.Some? && level !in s.discoveredWords.value
    ensures game !in MergeOverDefaults(s).gameStats
    ensures level !in MergeOverDefaults(s).discoveredWords
  {
  }

  /** The ids discovered at a level; an unseen level has none. */
  function IdsAt(discovered: map<string, seq<string>>, level: string): seq<string>
  {
    if level in discovered then discovered[level] else []
  }

  /** The statistics of a game; an unknown game has the empty object. */
  function StatsAt(gameStats: map<string, Stats>, gameName: string): Stats
  {
    if gameName in gameStats then gameStats[gameName] else map[]
  }

  /** No level's list of discovered ids holds an id twice. */
  predicate NoDuplicateIds(p: Progress)
  {
    forall level :: level in p.discoveredWords ==> Distinct(p.discoveredWords[level])
  }

  /** The change `markDiscovered` makes to the loaded progress, and its result:
      the id is appended (to a fresh empty list for an unseen level) exactly when
      the level does not hold it yet. */
  function MarkDiscoveredIn(p: Progress, wordId: string, level: string): (r: (Progress, bool))
    ensures r.1 <==> wordId !in IdsAt(p.discoveredWords, level)
    ensures r.1 ==> r.0 == p.(discoveredWords := p.discoveredWords[level := IdsAt(p.discoveredWords, level) + [wordId]])
    ensures !r.1 ==> r.0 == p
    ensures wordId in IdsAt(r.0.discoveredWords, level)
    ensures NoDuplicateIds(p) ==> NoDuplicateIds(r.0)
  {
    var ids := IdsAt(p.discoveredWords, level);
    if wordId !in ids then
      var p' := p.(discoveredWords := p.discoveredWords[level := ids + [wordId]]);
      assert forall l :: l in p'.discoveredWords && l != level ==> p'.discoveredWords[l] == p.discoveredWords[l];
      (p', true)
    else (p, false)
  }

  /** Marking the same word twice: the first call reports a discovery, the
      second reports none and changes nothing, and the id is held exactly once. */
  lemma {:induction false} MarkDiscoveredTwice(p: Progress, wordId: string, level: string, now: string)
    requires NoDuplicateIds(p)
    requires wordId !in IdsAt(p.discoveredWords, level)
    ensures var (p1, first) := MarkDiscoveredIn(p, wordId, level);
            var saved := p1.(lastPlayed := Some(now));
            var (p2, second) := MarkDiscoveredIn(saved, wordId, level);
            first && !second && p2 == saved &&
            multiset(IdsAt(p2.discoveredWords, level))[wordId] == 1
  {
    var (p1, first) := MarkDiscoveredIn(p, wordId, level);
    var ids := IdsAt(p1.discoveredWords, level);
    assert ids == IdsAt(p.discoveredWords, level) + [wordId];
    assert Distinct(ids);
    MultiplicityOne(ids, wordId);
  }

  /** `updateGameStats` on the statistics map: a shallow merge of `stats` over
      the game's current object (the empty object for a missing game). */
  function MergeGameStats(gameStats: map<string, Stats>, gameName: string, stats: Stats): (r: map<string, Stats>)
    ensures gameName in r
    ensures r[gameName].Keys == StatsAt(gameStats, gameName).Keys + stats.Keys
    ensures forall key :: key in stats ==> r[gameName][key] == stats[key]
    ensures forall key :: key in StatsAt(gameStats, gameName) && key !in stats ==>
              r[gameName][key] == StatsAt(gameStats, gameName)[key]
    ensures forall g :: g != gameName ==> (g in r <==> g in gameStats)
    ensures forall g :: g != gameName && g in gameStats ==> r[g] == gameStats[g]
  {
    gameStats[gameName := StatsAt(gameStats, gameName) + stats]
  }

  /** `stats.key || d`: a missing or zero entry reads as `d`. */
  function StatOr(stats: Stats, key: string, d: int): (v: int)
    ensures key in stats && stats[key] != 0 ==> v == stats[key]
    ensures key !in stats || stats[key] == 0 ==> v == d
  {
    if key in stats && stats[key] != 0 then stats[key] else d
  }

  /** `after` differs from `before` at most in the ids discovered at `level`,
      which it only extends at the end, in the statistics of `game`, and in
      the time stamp. */
  predicate KeepsOthers(before: Progress, after: Progress, level: string, game: string)
  {
    after.discoveredWords - {level} == before.discoveredWords - {level} &&
    IdsAt(before.discoveredWords, level) <= IdsAt(after.discoveredWords, level) &&
    after.gameStats - {game} == before.gameStats - {game} &&
    after.achievements == before.achievements
  }

  /** Two changes that each keep everything else keep it together. */
  lemma KeepsOthersTrans(a: Progress, b: Progress, c: Progress, level: string, game: string)
    requires KeepsOthers(a, b, level, game) && KeepsOthers(b, c, level, game)
    ensures KeepsOthers(a, c, level, game)
  {
    var x, y, z := IdsAt(a.discoveredWords, level), IdsAt(b.discoveredWords, level), IdsAt(c.discoveredWords, level);
    assert x == y[..|x|] && y == z[..|y|];
    assert x == z[..|x|];
  }

  /** The device's key-value storage, and the progress operations on it. */
  class ProgressStore {
    var storage: map<string, StoredProgress>

    constructor ()
      ensures storage == map[]
      ensures Valid()
    {
      storage := map[];
    }

    /** The stored progress never lists a discovered id twice. */
    ghost predicate Valid()
      reads this
    {
      NoDuplicateIds(GetProgress())
    }

    /** `getProgress`: the stored object merged over the defaults, or the
        defaults when nothing is stored. */
    function GetProgress(): Progress
      reads this
    {
      if STORAGE_KEY in storage then MergeOverDefaults(storage[STORAGE_KEY]) else DefaultProgress()
    }

    /** `saveProgress`: stamps the record and stores every key of it. */
    method SaveProgress(progress: Progress, now: string)
      modifies this
      ensures storage == old(storage)[STORAGE_KEY := Stored(progress.(lastPlayed := Some(now)))]
      ensures GetProgress() == progress.(lastPlayed := Some(now))
    {
      storage := storage[STORAGE_KEY := Stored(progress.(lastPlayed := Some(now)))];
      MergeRoundTrip(progress.(lastPlayed := Some(now)));
    }

    /** `markDiscovered`: true, and saved, exactly when the id is new at the level. */
    method MarkDiscovered(wordId: string, level: string, now: string) returns (added: bool)
      requires Valid()
      modifies this
      ensures Valid()
      ensures added <==> wordId !in IdsAt(old(GetProgress()).discoveredWords, level)
      ensures added ==> GetProgress() == MarkDiscoveredIn(old(GetProgress()), wordId, level).0.(lastPlayed := Some(now))
      ensures !added ==> storage == old(storage)
      ensures wordId in IdsAt(GetProgress().discoveredWords, level)
      ensures forall l, id :: id in IdsAt(old(GetProgress()).discoveredWords, l) ==> id in IdsAt(GetProgress().discoveredWords, l)
      ensures GetProgress().gameStats == old(GetProgress()).gameStats
      ensures forall game :: KeepsOthers(old(GetProgress()), GetProgress(), level, game)
    {
      var progress := GetProgress();
      var (updated, isNew) := MarkDiscoveredIn(progress, wordId, level);
      if isNew {
        SaveProgress(updated, now);
      }
      added := isNew;
    }

    /** `getDiscovered`. */
    function GetDiscovered(level: string): seq<string>
      reads this
    {
      IdsAt(GetProgress().discoveredWords, level)
    }

    /** `updateGameStats`: merges `stats` into the game's entry and saves. */
    method UpdateGameStats(gameName: string, stats: Stats, now: string)
      requires Valid()
      modifies this
      ensures Valid()
      ensures GetProgress() == old(GetProgress()).(gameStats := MergeGameStats(old(GetProgress()).gameStats, gameName, stats),
                                                  lastPlayed := Some(now))
      ensures forall level :: KeepsOthers(old(GetProgress()), GetProgress(), level, gameName)
    {
      var progress := GetProgress();
      SaveProgress(progress.(gameStats := MergeGameStats(progress.gameStats, gameName, stats)), now);
    }

    /** `getGameStats`. */
    function GetGameStats(gameName: string): (s: Stats)
      reads this
      ensures gameName !in GetProgress().gameStats ==> s == map[]
      ensures gameName in GetProgress().gameStats ==> s == GetProgress().gameStats[gameName]
    {
      StatsAt(GetProgress().gameStats, gameName)
    }

    /** `getLevelProgress`: the rounded share of the level's words discovered,
        0 for an empty level. */
    function GetLevelProgress(data: Dataset, level: string): (percent: nat)
      reads this
      ensures |GetWordsByLevel(data, level)| == 0 ==> percent == 0
      ensures var total := |GetWordsByLevel(data, level)|;
              total > 0 ==> IsRoundedPercent(percent, |GetDiscovered(level)|, total)
    {
      var total := |GetWordsByLevel(data, level)|;
      if total > 0 then RoundPercent(|GetDiscovered(level)|, total) else 0
    }

    /** `resetProgress`: forgets the stored record. */
    method ResetProgress()
      modifies this
      ensures STORAGE_KEY !in storage
      ensures GetProgress() == DefaultProgress()
      ensures Valid()
    {
      storage := storage - {STORAGE_KEY};
    }
  }
}
