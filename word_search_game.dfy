/** The word-search round: a drag selects a straight line of squares, and a
    selection that spells an unfound word (either way round) finds it. */
module WordSearchGame {
  import opened Common
  import opened VocabularyManager
  import opened WordSearchBuilder

  const GAME_NAME := "wordSearch"
  const WORD_COUNT: nat := 6

  /** The square is on a board of the given size (the board is empty before
      the first puzzle is generated). */
  predicate OnBoard(g: Board, p: Pos)
  {
    0 <= p.row < g.Length0 && 0 <= p.col < g.Length1
  }

  /** Every square of the list is on the board. */
  predicate AllOnBoard(g: Board, cells: seq<Pos>)
  {
    forall i :: 0 <= i < |cells| ==> 0 <= cells[i].row < g.Length0 && 0 <= cells[i].col < g.Length1
  }

  function Abs(x: int): nat { if x < 0 then -x else x }

  function Sign(x: int): int { if x < 0 then -1 else if x > 0 then 1 else 0 }

  /** `handleCellMove`'s test: the square is in the same row, column or
      diagonal as the first selected one. */
  predicate Collinear(first: Pos, p: Pos)
  {
    p.row - first.row == 0 || p.col - first.col == 0 || Abs(p.row - first.row) == Abs(p.col - first.col)
  }

  /** `rowDiff / steps` for a collinear end square: the division is exact,
      so rounding the step times `i` changes nothing. */
  function StepOf(diff: int, steps: nat): (s: int)
    requires diff == 0 || Abs(diff) == steps
    ensures s == Sign(diff)
    ensures s * steps == diff
  {
    if steps == 0 then 0 else diff / steps
  }

  /** `buildPath`: the squares from `start` to `end` one unit step at a
      time, both ends included. */
  method BuildPath(start: Pos, end: Pos) returns (path: seq<Pos>)
    requires Collinear(start, end)
    ensures |path| == Max(Abs(end.row - start.row), Abs(end.col - start.col)) + 1
    ensures path[0] == start && path[|path| - 1] == end
    ensures forall i :: 0 <= i < |path| ==>
      path[i] == Pos(start.row + Sign(end.row - start.row) * i, start.col + Sign(end.col - start.col) * i)
  {
    var rowDiff := end.row - start.row;
    var colDiff := end.col - start.col;
    var steps: nat := Max(Abs(rowDiff), Abs(colDiff));
    var rowStep := StepOf(rowDiff, steps);
    var colStep := StepOf(colDiff, steps);
    path := [];
    for i := 0 to steps + 1
      invariant |path| == i
      invariant forall k :: 0 <= k < i ==> path[k] == Pos(start.row + rowStep * k, start.col + colStep * k)
    {
      path := path + [Pos(start.row + rowStep * i, start.col + colStep * i)];
    }
  }

  /** Every square of a path between two squares of the board is on the board. */
  lemma PathOnBoard(g: Board, start: Pos, end: Pos, i: nat)
    requires OnBoard(g, start) && OnBoard(g, end) && Collinear(start, end)
    requires i <= Max(Abs(end.row - start.row), Abs(end.col - start.col))
    ensures OnBoard(g, Pos(start.row + Sign(end.row - start.row) * i, start.col + Sign(end.col - start.col) * i))
  {
    UnitTimes(Sign(end.row - start.row), i);
    UnitTimes(Sign(end.col - start.col), i);
  }

  /** The text under the selected squares (`cells.map(...).join('')`); an
      empty square contributes nothing. */
  function SelectionText(g: Board, cells: seq<Pos>): (s: string)
    reads g
    requires AllOnBoard(g, cells)
    ensures |s| <= |cells|
    ensures (forall i :: 0 <= i < |cells| ==> g[cells[i].row, cells[i].col].Some?) ==>
      |s| == |cells| && forall i :: 0 <= i < |cells| ==> g[cells[i].row, cells[i].col] == Some(s[i])
  {
    if cells == [] then ""
    else
      var c := cells[|cells| - 1];
      var rest := SelectionText(g, cells[..|cells| - 1]);
      rest + (if g[c.row, c.col].Some? then [g[c.row, c.col].value] else [])
  }

  /** `words.find(...)`'s test: the word, upper-cased, reads the selection
      forwards or backwards and has not been found yet. */
  predicate Matches(w: Word, found: seq<string>, selection: string)
  {
    (Upper(w.word) == selection || Upper(w.word) == Reverse(selection)) && w.word !in found
  }

  /** The first unfound word the selection spells, either way round. */
  function MatchWord(words: seq<Word>, found: seq<string>, selection: string): (r: Option<Word>)
    ensures r.None? <==> forall i :: 0 <= i < |words| ==> !Matches(words[i], found, selection)
    ensures r.Some? ==> exists i :: 0 <= i < |words| && words[i] == r.value && Matches(r.value, found, selection) &&
                                    forall j :: 0 <= j < i ==> !Matches(words[j], found, selection)
  {
    FindFirst(words, (w: Word) => Matches(w, found, selection))
  }

  /** A drag matches the same word whichever end it starts from. */
  lemma MatchEitherWay(words: seq<Word>, found: seq<string>, selection: string)
    ensures MatchWord(words, found, Reverse(selection)) == MatchWord(words, found, selection)
  {
    forall i | 0 <= i < |words|
      ensures Matches(words[i], found, Reverse(selection)) == Matches(words[i], found, selection)
    {
      MatchesReversed(words[i], found, selection);
    }
    FindFirstAgree(words, (w: Word) => Matches(w, found, Reverse(selection)), (w: Word) => Matches(w, found, selection));
  }

  lemma MatchesReversed(w: Word, found: seq<string>, selection: string)
    ensures Matches(w, found, Reverse(selection)) == Matches(w, found, selection)
  {
    ReverseTwice(selection);
  }

  /** A found word is never matched again. */
  lemma FoundWordNotMatched(words: seq<Word>, found: seq<string>, selection: string)
    requires MatchWord(words, found, selection).Some?
    ensures MatchWord(words, found + [MatchWord(words, found, selection).value.word], selection) !=
            MatchWord(words, found, selection)
  {
    var m := MatchWord(words, found, selection).value;
    var r := MatchWord(words, found + [m.word], selection);
    if r.Some? {
      assert Matches(r.value, found + [m.word], selection);
      assert m.word in found + [m.word];
    }
  }

  /** The score after a find: word bonus plus time bonus minus hint
      penalty, clamped at 0. */
  function FindScore(score: int, w: Word, timer: int, hintsUsed: int): (r: int)
    ensures r >= 0
    ensures r >= score + |w.word| * 10 + Max(0, 300 - timer) - hintsUsed * 20
    ensures r == 0 || r == score + |w.word| * 10 + Max(0, 300 - timer) - hintsUsed * 20
  {
    Max(0, score + |w.word| * 10 + Max(0, 300 - timer) - hintsUsed * 20)
  }

  /** The words not found yet. */
  function Remaining(words: seq<Word>, found: seq<string>): (r: seq<Word>)
    ensures IsSubseq(r, words)
    ensures forall w :: w in r <==> w in words && w.word !in found
  {
    Filter(words, (w: Word) => w.word !in found)
  }

  /** The record `finishGame` saves: one more game won and played, the time
      added, and the best score the larger of the old one and this one. */
  function FinishStats(stats: Stats, finalScore: int, time: int): (r: Stats)
    ensures r.Keys == {"gamesWon", "totalTime", "gamesPlayed", "bestScore"}
    ensures r["gamesWon"] == StatOr(stats, "gamesWon", 0) + 1
    ensures r["gamesPlayed"] == StatOr(stats, "gamesPlayed", 0) + 1
    ensures r["totalTime"] == StatOr(stats, "totalTime", 0) + time
    ensures r["bestScore"] >= finalScore && r["bestScore"] >= StatOr(stats, "bestScore", 0)
    ensures r["bestScore"] == finalScore || r["bestScore"] == StatOr(stats, "bestScore", 0)
  {
    map["gamesWon" := StatOr(stats, "gamesWon", 0) + 1,
        "totalTime" := StatOr(stats, "totalTime", 0) + time,
        "gamesPlayed" := StatOr(stats, "gamesPlayed", 0) + 1,
        "bestScore" := Max(StatOr(stats, "bestScore", 0), finalScore)]
  }

  /** The stats as the screen saves them: the delayed save reads the score
      from before the last word was found. */
  function FinishStatsAsWritten(stats: Stats, scoreBefore: int, time: int): (r: Stats)
    ensures forall finalScore :: SameButBestScore(r, FinishStats(stats, finalScore, time))
    ensures r["bestScore"] == Max(StatOr(stats, "bestScore", 0), scoreBefore)
  {
    FinishStats(stats, scoreBefore, time)
  }

  /** Finding the last word always adds points before the clamp at 0, so
      when the score before it was already the best, the saved best score
      falls short of the final score. */
  lemma AsWrittenBestScoreMissesLastWord(stats: Stats, scoreBefore: int, w: Word, time: int, hintsUsed: int)
    requires 0 <= scoreBefore && StatOr(stats, "bestScore", 0) <= scoreBefore
    requires |w.word| * 10 + Max(0, 300 - time) > hintsUsed * 20
    ensures FinishStatsAsWritten(stats, scoreBefore, time)["bestScore"] < FindScore(scoreBefore, w, time, hintsUsed)
  {
  }

  /** The saving side of a find: the word is marked discovered and, when
      it was the last word, `finishGame` saves the stats with the final
      score. */
  method SaveFind(wordId: string, level: string, finished: bool, finalScore: int, time: int,
                  store: ProgressStore, now: string)
    requires store.Valid()
    modifies store
    ensures store.Valid()
    ensures wordId in store.GetDiscovered(level)
    ensures finished ==>
      store.GetGameStats(GAME_NAME) ==
        old(store.GetGameStats(GAME_NAME)) + FinishStats(old(store.GetGameStats(GAME_NAME)), finalScore, time)
    ensures !finished ==> store.GetProgress().gameStats == old(store.GetProgress().gameStats)
    ensures KeepsOthers(old(store.GetProgress()), store.GetProgress(), level, GAME_NAME)
  {
    var _ := store.MarkDiscovered(wordId, level, now);
    if finished {
      var stats := store.GetGameStats(GAME_NAME);
      store.UpdateGameStats(GAME_NAME, FinishStats(stats, finalScore, time), now);
    }
  }

  /** The drawn words' texts, upper-cased, as the board is built from. */
  function UpperWords(drawn: seq<Word>): (r: seq<string>)
    ensures |r| == |drawn| && forall i :: 0 <= i < |drawn| ==> r[i] == Upper(drawn[i].word)
  {
    seq(|drawn|, i requires 0 <= i < |drawn| => Upper(drawn[i].word))
  }

  /** One word-search screen: the React state of `WordSearchScreen`. */
  class WordSearchRound {
    const level: string
    var grid: Board
    var words: seq<Word>
    var wordPlacements: seq<Placement>
    var foundWords: seq<string>
    var selectedCells: seq<Pos>
    var highlightedCells: seq<Pos>
    var isSelecting: bool
    var score: int
    var timer: int
    var gameStarted: bool
    var hintsUsed: int
    var currentHintWord: Option<string>

    /** Before the first puzzle the board is empty; afterwards it is a full
        12×12 board holding every placement. Selected squares are on the
        board, the score is never negative, and each found word is one of
        the round's words, found once. */
    ghost predicate Valid()
      reads this, grid
    {
      ((IsBoard(grid) && Filled(grid) && forall k :: 0 <= k < |wordPlacements| ==> PlacedOn(grid, wordPlacements[k])) ||
       (grid.Length0 == 0 && grid.Length1 == 0 && wordPlacements == [])) &&
      AllOnBoard(grid, selectedCells) &&
      score >= 0 && hintsUsed >= 0 &&
      Distinct(foundWords) && (forall f :: f in foundWords ==> exists w :: w in words && w.word == f)
    }

    constructor (level: string)
      ensures Valid()
      ensures this.level == level && words == [] && foundWords == [] && selectedCells == [] && score == 0
    {
      this.level := level;
      grid := new Option<char>[0, 0];
      words := [];
      wordPlacements := [];
      foundWords := [];
      selectedCells := [];
      highlightedCells := [];
      isSelecting := false;
      score := 0;
      timer := 0;
      gameStarted := false;
      hintsUsed := 0;
      currentHintWord := None;
    }

    /** `generatePuzzle`: draws six words of the level and builds the board
        from their upper-cased texts; with no words nothing changes. */
    method Generate(data: Dataset, picks: seq<nat>, trial: (nat, nat) -> Trial, filler: (nat, nat) -> nat)
      requires Valid()
      modifies this
      ensures Valid()
      ensures var drawn := GetRandomWords(data, level, WORD_COUNT, [], picks);
        if drawn == [] then unchanged(this)
        else
          fresh(grid) && IsBoard(grid) && Filled(grid) && words == drawn &&
          (forall k :: 0 <= k < |wordPlacements| ==> wordPlacements[k].word in UpperWords(drawn)) &&
          wordPlacements == Layout(LongestFirst(UpperWords(drawn)), trial, |UpperWords(drawn)|) &&
          (forall r, c :: 0 <= r < GRID_SIZE && 0 <= c < GRID_SIZE ==>
            grid[r, c] == Fill(Content(wordPlacements, Pos(r, c)), filler, r, c)) &&
          foundWords == [] && selectedCells == [] && highlightedCells == [] && score == 0 && timer == 0 &&
          !gameStarted && hintsUsed == 0 && currentHintWord == None && isSelecting == old(isSelecting)
    {
      var randomWords := GetRandomWords(data, level, WORD_COUNT, [], picks);
      if randomWords == [] {
        return;
      }
      var newGrid, placements := BuildBoard(UpperWords(randomWords), trial, filler);
      StartRound(newGrid, randomWords, placements);
    }

    /** The state a new puzzle starts from. */
    method StartRound(newGrid: Board, drawn: seq<Word>, placements: seq<Placement>)
      requires IsBoard(newGrid) && Filled(newGrid)
      requires forall k :: 0 <= k < |placements| ==> PlacedOn(newGrid, placements[k])
      modifies this
      ensures Valid()
      ensures grid == newGrid && words == drawn && wordPlacements == placements &&
              foundWords == [] && selectedCells == [] && highlightedCells == [] && score == 0 && timer == 0 &&
              !gameStarted && hintsUsed == 0 && currentHintWord == None && isSelecting == old(isSelecting)
    {
      grid := newGrid;
      words := drawn;
      wordPlacements := placements;
      ClearProgress();
      ClearClock();
    }

    /** No word found, nothing selected or highlighted, no score. */
    method ClearProgress()
      modifies this
      ensures foundWords == [] && selectedCells == [] && highlightedCells == [] && score == 0
      ensures grid == old(grid) && words == old(words) && wordPlacements == old(wordPlacements) &&
              timer == old(timer) && gameStarted == old(gameStarted) && hintsUsed == old(hintsUsed) &&
              currentHintWord == old(currentHintWord) && isSelecting == old(isSelecting)
    {
      foundWords := [];
      selectedCells := [];
      highlightedCells := [];
      score := 0;
    }

    /** The clock stopped at zero, no hint used or shown. */
    method ClearClock()
      modifies this
      ensures timer == 0 && !gameStarted && hintsUsed == 0 && currentHintWord == None
      ensures grid == old(grid) && words == old(words) && wordPlacements == old(wordPlacements) &&
              foundWords == old(foundWords) && selectedCells == old(selectedCells) &&
              highlightedCells == old(highlightedCells) && score == old(score) && isSelecting == old(isSelecting)
    {
      timer := 0;
      gameStarted := false;
      hintsUsed := 0;
      currentHintWord := None;
    }

    /** `handleCellPress`: starts the clock and a selection at the square. */
    method HandleCellPress(row: int, col: int)
      requires Valid() && OnBoard(grid, Pos(row, col))
      modifies this
      ensures Valid()
      ensures gameStarted && isSelecting && selectedCells == [Pos(row, col)]
      ensures grid == old(grid) && words == old(words) && wordPlacements == old(wordPlacements) &&
              foundWords == old(foundWords) && highlightedCells == old(highlightedCells) && score == old(score) &&
              timer == old(timer) && hintsUsed == old(hintsUsed) && currentHintWord == old(currentHintWord)
    {
      gameStarted := true;
      isSelecting := true;
      selectedCells := [Pos(row, col)];
    }

    /** `handleCellMove`: while selecting, a square in line with the first
        selected one makes the selection the straight path between them;
        any other square is ignored. */
    method HandleCellMove(row: int, col: int)
      requires Valid() && OnBoard(grid, Pos(row, col))
      modifies this
      ensures Valid()
      ensures !old(isSelecting) || old(selectedCells) == [] || !Collinear(old(selectedCells)[0], Pos(row, col)) ==>
        selectedCells == old(selectedCells)
      ensures old(isSelecting) && old(selectedCells) != [] && Collinear(old(selectedCells)[0], Pos(row, col)) ==>
        var first := old(selectedCells)[0];
        |selectedCells| == Max(Abs(row - first.row), Abs(col - first.col)) + 1 &&
        selectedCells[0] == first && selectedCells[|selectedCells| - 1] == Pos(row, col) &&
        forall i :: 0 <= i < |selectedCells| ==>
          selectedCells[i] == Pos(first.row + Sign(row - first.row) * i, first.col + Sign(col - first.col) * i)
      ensures grid == old(grid) && words == old(words) && wordPlacements == old(wordPlacements) &&
              foundWords == old(foundWords) && highlightedCells == old(highlightedCells) && score == old(score) &&
              timer == old(timer) && hintsUsed == old(hintsUsed) && currentHintWord == old(currentHintWord) &&
              isSelecting == old(isSelecting) && gameStarted == old(gameStarted)
    {
      if !isSelecting || selectedCells == [] {
        return;
      }
      var first := selectedCells[0];
      if !Collinear(first, Pos(row, col)) {
        return;
      }
      var path := BuildPath(first, Pos(row, col));
      forall i | 0 <= i < |path| ensures OnBoard(grid, path[i]) {
        PathOnBoard(grid, first, Pos(row, col), i);
      }
      selectedCells := path;
    }

    /** `handleCellRelease`: a selection of fewer than two squares is just
        dropped. Otherwise, if it spells an unfound word either way round,
        that word is found, its squares highlighted, the score updated and
        clamped at 0, the word marked discovered and its hint cleared; the
        last word found saves the stats with the final score. The selection is cleared in every case. */
    method HandleCellRelease(store: ProgressStore, now: string)
      requires Valid() && store.Valid()
      modifies this, store
      ensures Valid() && store.Valid()
      ensures grid == old(grid) && words == old(words) && wordPlacements == old(wordPlacements) &&
              timer == old(timer) && hintsUsed == old(hintsUsed) && gameStarted == old(gameStarted)
      ensures !isSelecting && selectedCells == []
      ensures |old(selectedCells)| < 2 ==>
        foundWords == old(foundWords) && score == old(score) && highlightedCells == old(highlightedCells) &&
        currentHintWord == old(currentHintWord) && unchanged(store)
      ensures |old(selectedCells)| >= 2 ==>
        var m := old(MatchWord(words, foundWords, SelectionText(grid, selectedCells)));
        (m.None? ==>
          foundWords == old(foundWords) && score == old(score) && highlightedCells == old(highlightedCells) &&
          currentHintWord == old(currentHintWord) && unchanged(store)) &&
        (m.Some? ==>
          foundWords == old(foundWords) + [m.value.word] &&
          highlightedCells == old(highlightedCells) + old(selectedCells) &&
          score == FindScore(old(score), m.value, timer, hintsUsed) &&
          m.value.id in store.GetDiscovered(level) &&
          currentHintWord == (if old(currentHintWord) == Some(m.value.word) then None else old(currentHintWord)) &&
          (|foundWords| == |words| ==>
            store.GetGameStats(GAME_NAME) ==
              old(store.GetGameStats(GAME_NAME)) + FinishStats(old(store.GetGameStats(GAME_NAME)), score, timer)) &&
          (|foundWords| < |words| ==> store.GetProgress().gameStats == old(store.GetProgress().gameStats)))
      ensures KeepsOthers(old(store.GetProgress()), store.GetProgress(), level, GAME_NAME)
    {
      if |selectedCells| < 2 {
        EndSelection();
        return;
      }
      var selection := SelectionText(grid, selectedCells);
      var matched := MatchWord(words, foundWords, selection);
      if matched.Some? {
        var m := matched.value;
        Find(m);
        SaveFind(m.id, level, |foundWords| == |words|, score, timer, store, now);
      }
      EndSelection();
    }

    /** Records a matched word as found: highlights the selection, updates
        the score and clears the word's hint. */
    method Find(m: Word)
      requires Valid() && m in words && m.word !in foundWords
      modifies this
      ensures Valid()
      ensures foundWords == old(foundWords) + [m.word] && highlightedCells == old(highlightedCells) + old(selectedCells) &&
              score == FindScore(old(score), m, timer, hintsUsed) &&
              currentHintWord == (if old(currentHintWord) == Some(m.word) then None else old(currentHintWord))
      ensures grid == old(grid) && words == old(words) && wordPlacements == old(wordPlacements) &&
              selectedCells == old(selectedCells) && isSelecting == old(isSelecting) &&
              timer == old(timer) && hintsUsed == old(hintsUsed) && gameStarted == old(gameStarted)
    {
      foundWords := foundWords + [m.word];
      highlightedCells := highlightedCells + selectedCells;
      score := FindScore(score, m, timer, hintsUsed);
      if currentHintWord == Some(m.word) {
        currentHintWord := None;
      }
    }

    /** Ends the drag and clears the selection; nothing else changes. */
    method EndSelection()
      requires Valid()
      modifies this
      ensures Valid()
      ensures !isSelecting && selectedCells == []
      ensures grid == old(grid) && words == old(words) && wordPlacements == old(wordPlacements) &&
              foundWords == old(foundWords) && highlightedCells == old(highlightedCells) && score == old(score) &&
              timer == old(timer) && hintsUsed == old(hintsUsed) && currentHintWord == old(currentHintWord) &&
              gameStarted == old(gameStarted)
    {
      isSelecting := false;
      selectedCells := [];
    }

    /** `useHint`: with words left to find, one of them (the `pick`-th) is
        hinted and the hint count grows; otherwise nothing changes. */
    method UseHint(pick: nat)
      requires Valid()
      modifies this
      ensures Valid()
      ensures Remaining(words, foundWords) == [] ==> unchanged(this)
      ensures Remaining(words, foundWords) != [] ==>
        currentHintWord == Some(Remaining(words, foundWords)[pick % |Remaining(words, foundWords)|].word) &&
        (exists w :: w in words && w.word !in foundWords && currentHintWord == Some(w.word)) &&
        hintsUsed == old(hintsUsed) + 1
      ensures grid == old(grid) && words == old(words) && wordPlacements == old(wordPlacements) &&
              foundWords == old(foundWords) && selectedCells == old(selectedCells) &&
              highlightedCells == old(highlightedCells) && score == old(score) && timer == old(timer) &&
              isSelecting == old(isSelecting) && gameStarted == old(gameStarted)
    {
      var remaining := Remaining(words, foundWords);
      if remaining == [] {
        return;
      }
      var chosen := remaining[pick % |remaining|];
      assert chosen in remaining;
      currentHintWord := Some(chosen.word);
      hintsUsed := hintsUsed + 1;
    }
  }

  /** Nothing is left to hint exactly when every word of the round has been
      found. */
  lemma NoneRemainingIff(words: seq<Word>, found: seq<string>)
    ensures Remaining(words, found) == [] <==> forall w :: w in words ==> w.word in found
  {
    if Remaining(words, found) != [] {
      assert Remaining(words, found)[0] in Remaining(words, found);
    }
  }
}
