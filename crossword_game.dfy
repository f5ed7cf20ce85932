/** The crossword round: the answer grid the player types into, the selected
    square and word, completion scoring, hints and the answer check. */
module CrosswordGame {
  import opened Common
  import opened VocabularyManager
  import opened CrosswordBuilder

  const GAME_NAME := "wordPuzzle"

  /** The typed letters, row by row; `None` is an empty square. */
  type Answers = seq<seq<Option<char>>>

  predicate IsAnswerGrid(answers: Answers)
  {
    |answers| == GRID_SIZE && forall r :: 0 <= r < GRID_SIZE ==> |answers[r]| == GRID_SIZE
  }

  function EmptyAnswers(): (a: Answers)
    ensures IsAnswerGrid(a)
  {
    seq(GRID_SIZE, r => seq(GRID_SIZE, c => None))
  }

  /** The typed letter of a square, `None` when empty or off the grid. */
  function AnswerAt(answers: Answers, p: Pos): Option<char>
  {
    if 0 <= p.row < |answers| && 0 <= p.col < |answers[p.row]| then answers[p.row][p.col] else None
  }

  /** The answer grid with one square set. */
  function SetAnswer(answers: Answers, p: Pos, v: Option<char>): (r: Answers)
    requires IsAnswerGrid(answers) && InGrid(p)
    ensures IsAnswerGrid(r)
    ensures AnswerAt(r, p) == v
    ensures forall q :: q != p ==> AnswerAt(r, q) == AnswerAt(answers, q)
  {
    answers[p.row := answers[p.row][p.col := v]]
  }

  /** `findWordAtCell`: the first word in direction `dir` through (row, col). */
  function FindWordAtCell(words: seq<Placement>, row: int, col: int, dir: Direction): (r: Option<Placement>)
    ensures r.None? <==> forall k :: 0 <= k < |words| ==> !(words[k].direction == dir && Pos(row, col) in words[k].cells)
    ensures r.Some? ==> r.value in words && r.value.direction == dir && Pos(row, col) in r.value.cells
    ensures r.Some? ==> exists k :: 0 <= k < |words| && words[k] == r.value &&
                                    forall j :: 0 <= j < k ==> !(words[j].direction == dir && Pos(row, col) in words[j].cells)
  {
    FindFirst(words, (w: Placement) => w.direction == dir && Pos(row, col) in w.cells)
  }

  /** `moveToNextCell`'s target: the square after `cell` in the word; the
      last square stays put, and a square not in the word moves to the
      word's first square (`findIndex` gives -1). */
  function NextCell(cell: Pos, cells: seq<Pos>): (r: Pos)
    ensures cell in cells && IndexOf(cells, cell) < |cells| - 1 ==> r == cells[IndexOf(cells, cell) + 1]
    ensures cell in cells && IndexOf(cells, cell) == |cells| - 1 ==> r == cell
    ensures cell !in cells && cells != [] ==> r == cells[0]
    ensures cells == [] ==> r == cell
    ensures r == cell || r in cells
  {
    var i := IndexOf(cells, cell);
    if i < |cells| - 1 then cells[i + 1] else cell
  }

  /** `handleBackspace`'s move: the square before `cell` in the word, or
      `cell` itself at the first square or outside the word. */
  function PrevCell(cell: Pos, cells: seq<Pos>): (r: Pos)
    ensures IndexOf(cells, cell) > 0 ==> r == cells[IndexOf(cells, cell) - 1]
    ensures IndexOf(cells, cell) <= 0 ==> r == cell
    ensures r == cell || r in cells
  {
    var i := IndexOf(cells, cell);
    if i > 0 then cells[i - 1] else cell
  }

  /** Along a placed word, the next and previous squares are the neighbours
      one step along its direction. */
  lemma StepAlongWord(p: Placement, i: nat)
    requires p.cells == WordCells(p.row, p.col, p.length, p.direction)
    requires i < p.length
    ensures i + 1 < p.length ==> NextCell(p.cells[i], p.cells) == CellAt(p.row, p.col, p.direction, i + 1)
    ensures i > 0 ==> PrevCell(p.cells[i], p.cells) == CellAt(p.row, p.col, p.direction, i - 1)
  {
    assert Distinct(p.cells) by {
      forall a, b | 0 <= a < b < |p.cells| ensures p.cells[a] != p.cells[b] {
        assert p.cells[a] == CellAt(p.row, p.col, p.direction, a);
        assert p.cells[b] == CellAt(p.row, p.col, p.direction, b);
      }
    }
    IndexOfDistinct(p.cells, i);
  }

  /** Every square of the word is filled in with its solution letter. */
  predicate IsComplete(grid: Grid, answers: Answers, p: Placement)
    reads grid
  {
    forall i :: 0 <= i < |p.cells| ==> LetterAt(grid, p.cells[i]).Some? && AnswerAt(answers, p.cells[i]) == LetterAt(grid, p.cells[i])
  }

  /** The inner loop of `checkWordCompletion`: stop at the first square whose
      typed letter differs from the solution. */
  method WordIsComplete(grid: Grid, answers: Answers, p: Placement) returns (complete: bool)
    ensures complete == IsComplete(grid, answers, p)
  {
    complete := true;
    var i := 0;
    while i < |p.cells|
      invariant 0 <= i <= |p.cells|
      invariant forall k :: 0 <= k < i ==> LetterAt(grid, p.cells[k]).Some? && AnswerAt(answers, p.cells[k]) == LetterAt(grid, p.cells[k])
    {
      var cell := p.cells[i];
      var correct := LetterAt(grid, cell);
      if correct.None? || AnswerAt(answers, cell) != correct {
        complete := false;
        return;
      }
      i := i + 1;
    }
  }

  predicate IncreasingClues(ps: seq<Placement>)
  {
    forall i, j :: 0 <= i < j < |ps| ==> ps[i].clueNumber < ps[j].clueNumber
  }

  function ClueNumbers(ps: seq<Placement>): (r: seq<nat>)
    ensures |r| == |ps| && forall i :: 0 <= i < |ps| ==> r[i] == ps[i].clueNumber
  {
    seq(|ps|, i requires 0 <= i < |ps| => ps[i].clueNumber)
  }

  /** The words `checkWordCompletion` newly finds complete, in puzzle order:
      those not yet completed whose every square is right. */
  function NewlyCompleted(grid: Grid, words: seq<Placement>, answers: Answers, completed: seq<nat>): (r: seq<Placement>)
    reads grid
    ensures |r| <= |words|
    ensures forall i :: 0 <= i < |r| ==> r[i] in words && r[i].clueNumber !in completed && IsComplete(grid, answers, r[i])
    ensures forall p :: p in words && p.clueNumber !in completed && IsComplete(grid, answers, p) ==> p in r
  {
    if words == [] then []
    else
      var rest := NewlyCompleted(grid, words[1..], answers, completed);
      assert forall p :: p in words ==> p == words[0] || p in words[1..] by {
        assert words == [words[0]] + words[1..];
      }
      if words[0].clueNumber !in completed && IsComplete(grid, answers, words[0]) then [words[0]] + rest
      else rest
  }

  /** The newly completed words keep the puzzle's clue order. */
  lemma {:induction false} NewlyCompletedIncreasing(grid: Grid, words: seq<Placement>, answers: Answers, completed: seq<nat>)
    requires IncreasingClues(words)
    ensures IncreasingClues(NewlyCompleted(grid, words, answers, completed))
  {
    if words != [] {
      var rest := NewlyCompleted(grid, words[1..], answers, completed);
      assert IncreasingClues(words[1..]) by {
        forall a, b | 0 <= a < b < |words[1..]| ensures words[1..][a].clueNumber < words[1..][b].clueNumber {
          assert words[1..][a] == words[a + 1] && words[1..][b] == words[b + 1];
        }
      }
      NewlyCompletedIncreasing(grid, words[1..], answers, completed);
      forall i | 0 <= i < |rest| ensures words[0].clueNumber < rest[i].clueNumber {
        var k :| 0 <= k < |words[1..]| && words[1..][k] == rest[i];
        assert words[k + 1] == rest[i];
      }
      IncreasingCons(words[0], rest);
    }
  }

  lemma IncreasingCons(p: Placement, rest: seq<Placement>)
    requires IncreasingClues(rest) && forall i :: 0 <= i < |rest| ==> p.clueNumber < rest[i].clueNumber
    ensures IncreasingClues([p] + rest)
  {
    var r := [p] + rest;
    forall i, j | 0 <= i < j < |r| ensures r[i].clueNumber < r[j].clueNumber {
      assert r[j] == rest[j - 1];
      if i > 0 {
        assert r[i] == rest[i - 1];
      }
    }
  }

  /** The points one completed word is worth: 15 a letter, half the seconds
      left of the first five minutes, less 15 a hint. Not clamped. */
  function WordGain(p: Placement, timer: int, hintsUsed: int): int
  {
    |p.word.word| * 15 + Max(0, 300 - timer) / 2 - hintsUsed * 15
  }

  function SumGains(ps: seq<Placement>, timer: int, hintsUsed: int): int
  {
    if ps == [] then 0 else SumGains(ps[..|ps| - 1], timer, hintsUsed) + WordGain(ps[|ps| - 1], timer, hintsUsed)
  }

  /** The scan of `checkWordCompletion`: the newly completed words and the
      score once each has added its gain. The loop walks the words from the
      last back to the first, which yields the same list and the same sum as
      a forward walk. */
  method ScanCompletion(grid: Grid, words: seq<Placement>, answers: Answers, completed: seq<nat>,
                        score: int, timer: int, hintsUsed: int)
    returns (newly: seq<Placement>, newScore: int)
    ensures newly == NewlyCompleted(grid, words, answers, completed)
    ensures newScore == score + SumGains(newly, timer, hintsUsed)
  {
    newly := [];
    newScore := score;
    var k := |words|;
    while k > 0
      invariant 0 <= k <= |words|
      invariant newly == NewlyCompleted(grid, words[k..], answers, completed)
      invariant newScore == score + SumGains(newly, timer, hintsUsed)
    {
      k := k - 1;
      var word := words[k];
      assert words[k..][1..] == words[k + 1..];
      if word.clueNumber !in completed {
        var complete := WordIsComplete(grid, answers, word);
        if complete {
          newly := [word] + newly;
          newScore := newScore + WordGain(word, timer, hintsUsed);
          SumGainsCons(word, newly[1..], timer, hintsUsed);
        }
      }
    }
  }

  lemma {:induction false} SumGainsCons(p: Placement, ps: seq<Placement>, timer: int, hintsUsed: int)
    ensures SumGains([p] + ps, timer, hintsUsed) == WordGain(p, timer, hintsUsed) + SumGains(ps, timer, hintsUsed)
    decreases |ps|
  {
    if ps != [] {
      assert ([p] + ps)[..|ps|] == [p] + ps[..|ps| - 1];
      SumGainsCons(p, ps[..|ps| - 1], timer, hintsUsed);
    }
  }

  /** `checkAnswers`' test: a lettered square whose typed letter is wrong. */
  predicate IsWrong(grid: Grid, answers: Answers, p: Pos)
    reads grid
  {
    LetterAt(grid, p).Some? && AnswerAt(answers, p).Some? && AnswerAt(answers, p) != LetterAt(grid, p)
  }

  function RowMajor(p: Pos): int
  {
    p.row * GRID_SIZE + p.col
  }

  /** `checkAnswers`: exactly the wrong squares, in row-major order. */
  method FindErrors(grid: Grid, answers: Answers) returns (errs: seq<Pos>)
    ensures forall p :: p in errs <==> IsWrong(grid, answers, p)
    ensures forall i, j :: 0 <= i < j < |errs| ==> RowMajor(errs[i]) < RowMajor(errs[j])
  {
    errs := [];
    for row := 0 to GRID_SIZE
      invariant forall p :: p in errs <==> IsWrong(grid, answers, p) && p.row < row
      invariant forall i, j :: 0 <= i < j < |errs| ==> RowMajor(errs[i]) < RowMajor(errs[j])
      invariant forall i :: 0 <= i < |errs| ==> RowMajor(errs[i]) < row * GRID_SIZE
    {
      for col := 0 to GRID_SIZE
        invariant forall p :: p in errs <==> IsWrong(grid, answers, p) && (p.row < row || (p.row == row && p.col < col))
        invariant forall i, j :: 0 <= i < j < |errs| ==> RowMajor(errs[i]) < RowMajor(errs[j])
        invariant forall i :: 0 <= i < |errs| ==> RowMajor(errs[i]) < row * GRID_SIZE + col
      {
        var p := Pos(row, col);
        if LetterAt(grid, p).Some? && AnswerAt(answers, p).Some? {
          if AnswerAt(answers, p) != LetterAt(grid, p) {
            errs := errs + [p];
          }
        }
      }
    }
  }

  /** `revealWord`'s fill: every square of the word gets its solution letter. */
  method FillWord(grid: Grid, answers: Answers, cells: seq<Pos>) returns (filled: Answers)
    requires IsAnswerGrid(answers)
    requires forall c :: c in cells ==> InGrid(c)
    ensures IsAnswerGrid(filled)
    ensures forall c :: c in cells ==> AnswerAt(filled, c) == LetterAt(grid, c)
    ensures forall q :: q !in cells ==> AnswerAt(filled, q) == AnswerAt(answers, q)
  {
    filled := answers;
    for i := 0 to |cells|
      invariant IsAnswerGrid(filled)
      invariant forall c :: c in cells[..i] ==> AnswerAt(filled, c) == LetterAt(grid, c)
      invariant forall q :: q !in cells[..i] ==> AnswerAt(filled, q) == AnswerAt(answers, q)
    {
      assert cells[..i + 1] == cells[..i] + [cells[i]];
      filled := SetAnswer(filled, cells[i], LetterAt(grid, cells[i]));
    }
    assert cells[..|cells|] == cells;
  }

  /** `revealWord`'s error update as written: each cell's `setErrors` starts
      from the same stale list, so only the last cell's entry is removed. */
  function ErrorsAfterRevealAsWritten(errors: seq<Pos>, cells: seq<Pos>): (r: seq<Pos>)
    ensures cells == [] ==> r == errors
    ensures cells != [] ==> forall q :: q in r <==> q in errors && q != cells[|cells| - 1]
  {
    if cells == [] then errors else Without(errors, cells[|cells| - 1])
  }

  /** As written, a wrong letter typed in the word's first square stays
      flagged after the whole word has been revealed. */
  lemma RevealLeavesStaleError()
    ensures var cells := [Pos(4, 0), Pos(4, 1)];
      Pos(4, 0) in ErrorsAfterRevealAsWritten([Pos(4, 0)], cells) && Pos(4, 0) in cells
  {
    var cells := [Pos(4, 0), Pos(4, 1)];
    assert cells[|cells| - 1] == Pos(4, 1);
    assert Pos(4, 0) in Without([Pos(4, 0)], Pos(4, 1));
  }

  /** The error list after revealing a word, as intended: no square of the
      word stays flagged, and every other flag is kept in order. */
  function ErrorsAfterReveal(errors: seq<Pos>, cells: seq<Pos>): (r: seq<Pos>)
    ensures forall c :: c in cells ==> c !in r
    ensures forall e :: e in r <==> e in errors && e !in cells
    ensures IsSubseq(r, errors)
  {
    Filter(errors, (e: Pos) => e !in cells)
  }

  /** The record `finishGame` saves: one more puzzle solved and played, the
      score added, and the best time the smaller of the old one (999999 when
      unset or 0) and this round's. */
  function FinishStats(stats: Stats, finalScore: int, timer: int): (r: Stats)
    ensures r.Keys == {"solved", "totalScore", "bestTime", "gamesPlayed"}
    ensures r["solved"] == StatOr(stats, "solved", 0) + 1
    ensures r["gamesPlayed"] == StatOr(stats, "gamesPlayed", 0) + 1
    ensures r["totalScore"] == StatOr(stats, "totalScore", 0) + finalScore
    ensures r["bestTime"] <= timer && r["bestTime"] <= StatOr(stats, "bestTime", 999999)
    ensures r["bestTime"] == timer || r["bestTime"] == StatOr(stats, "bestTime", 999999)
  {
    map["solved" := StatOr(stats, "solved", 0) + 1,
        "totalScore" := StatOr(stats, "totalScore", 0) + finalScore,
        "bestTime" := if StatOr(stats, "bestTime", 999999) <= timer then StatOr(stats, "bestTime", 999999) else timer,
        "gamesPlayed" := StatOr(stats, "gamesPlayed", 0) + 1]
  }

  /** Newly completed clue numbers are new, distinct and in range, so no
      word is ever scored twice. */
  lemma NewCluesDistinct(grid: Grid, words: seq<Placement>, answers: Answers, completed: seq<nat>)
    requires WellPlaced(grid, words) && Distinct(completed)
    requires forall n :: n in completed ==> 1 <= n <= |words|
    ensures var all := completed + ClueNumbers(NewlyCompleted(grid, words, answers, completed));
      Distinct(all) && forall n :: n in all ==> 1 <= n <= |words|
  {
    var newly := NewlyCompleted(grid, words, answers, completed);
    var added := ClueNumbers(newly);
    var all := completed + added;
    assert IncreasingClues(words);
    NewlyCompletedIncreasing(grid, words, answers, completed);
    forall i | 0 <= i < |added| ensures 1 <= added[i] <= |words| && added[i] !in completed {
      var k :| 0 <= k < |words| && words[k] == newly[i];
    }
    forall i, j | 0 <= i < j < |all| ensures all[i] != all[j] {
      if j < |completed| {
      } else if i < |completed| {
        assert all[j] == added[j - |completed|];
      } else {
        assert all[i] == added[i - |completed|] && all[j] == added[j - |completed|];
      }
    }
  }

  /** The saving side of `checkWordCompletion`: the newly completed words
      are marked discovered and, when `finished`, the round's stats are
      merged into the game's entry. */
  method SaveCompletion(store: ProgressStore, newly: seq<Placement>, level: string, finished: bool,
                        finalScore: int, timer: int, now: string)
    requires store.Valid()
    modifies store
    ensures store.Valid()
    ensures forall p :: p in newly ==> p.word.id in store.GetDiscovered(level)
    ensures finished ==>
      store.GetGameStats(GAME_NAME) ==
        old(store.GetGameStats(GAME_NAME)) + FinishStats(old(store.GetGameStats(GAME_NAME)), finalScore, timer)
    ensures !finished ==> store.GetProgress().gameStats == old(store.GetProgress().gameStats)
    ensures newly == [] && !finished ==> store.storage == old(store.storage)
    ensures KeepsOthers(old(store.GetProgress()), store.GetProgress(), level, GAME_NAME)
  {
    ghost var start := store.GetProgress();
    MarkWordsDiscovered(store, newly, level, now);
    if finished {
      ghost var marked := store.GetProgress();
      var stats := store.GetGameStats(GAME_NAME);
      store.UpdateGameStats(GAME_NAME, FinishStats(stats, finalScore, timer), now);
      KeepsOthersTrans(start, marked, store.GetProgress(), level, GAME_NAME);
    }
  }

  /** Marks each completed word discovered at the level, in order; the
      game statistics are left alone and nothing discovered is forgotten. */
  method MarkWordsDiscovered(store: ProgressStore, completed: seq<Placement>, level: string, now: string)
    requires store.Valid()
    modifies store
    ensures store.Valid()
    ensures forall p :: p in completed ==> p.word.id in store.GetDiscovered(level)
    ensures forall l, id :: id in IdsAt(old(store.GetProgress()).discoveredWords, l) ==>
      id in IdsAt(store.GetProgress().discoveredWords, l)
    ensures store.GetProgress().gameStats == old(store.GetProgress()).gameStats
    ensures forall game :: KeepsOthers(old(store.GetProgress()), store.GetProgress(), level, game)
    ensures completed == [] ==> store.storage == old(store.storage)
  {
    ghost var start := store.GetProgress();
    for k := 0 to |completed|
      invariant store.Valid()
      invariant forall game :: KeepsOthers(start, store.GetProgress(), level, game)
      invariant k == 0 ==> store.storage == old(store.storage)
      invariant forall j :: 0 <= j < k ==> completed[j].word.id in store.GetDiscovered(level)
      invariant forall l, id :: id in IdsAt(old(store.GetProgress()).discoveredWords, l) ==>
        id in IdsAt(store.GetProgress().discoveredWords, l)
      invariant store.GetProgress().gameStats == old(store.GetProgress()).gameStats
    {
      ghost var before := store.GetProgress();
      var _ := store.MarkDiscovered(completed[k].word.id, level, now);
      forall game ensures KeepsOthers(start, store.GetProgress(), level, game) {
        KeepsOthersTrans(start, before, store.GetProgress(), level, game);
      }
    }
  }

  /** A typed key is a single ASCII letter once upper-cased. */
  predicate IsLetterKey(letter: string)
  {
    |Upper(letter)| == 1 && IsUpperAscii(Upper(letter)[0])
  }

  /** One crossword screen: the React state of `CrosswordScreen`. */
  class CrosswordRound {
    const level: string
    var grid: Grid
    var words: seq<Placement>
    var userGrid: Answers
    var selectedCell: Option<Pos>
    var selectedWord: Option<Placement>
    var direction: Direction
    var completedWords: seq<nat>
    var timer: int
    var hintsUsed: int
    var score: int
    var errors: seq<Pos>

    /** The grid and answers are 9×9, the words are laid out on the grid,
        the selection is a lettered square and one of the words, and each
        clue is completed at most once. */
    ghost predicate Valid()
      reads this, grid
    {
      IsGrid(grid) && IsAnswerGrid(userGrid) && WellPlaced(grid, words) &&
      (selectedCell.Some? ==> LetterAt(grid, selectedCell.value).Some?) &&
      (selectedWord.Some? ==> selectedWord.value in words) &&
      Distinct(completedWords) && (forall n :: n in completedWords ==> 1 <= n <= |words|)
    }

    /** An empty puzzle until one is generated. */
    constructor (level: string)
      ensures Valid()
      ensures this.level == level && words == [] && completedWords == [] && score == 0 && timer == 0
    {
      this.level := level;
      grid := new Option<Square>[GRID_SIZE, GRID_SIZE]((r, c) => None);
      words := [];
      userGrid := EmptyAnswers();
      selectedCell := None;
      selectedWord := None;
      direction := Across;
      completedWords := [];
      timer := 0;
      hintsUsed := 0;
      score := 0;
      errors := [];
    }

    /** `generateCrossword`: draws six words of the level and lays them out;
        with fewer than three words nothing changes. */
    method Generate(data: Dataset, picks: seq<nat>, pick: (nat, nat) -> nat)
      requires Valid()
      modifies this
      ensures Valid()
      ensures var drawn := GetRandomWords(data, level, WORD_COUNT, [], picks);
        if |drawn| < MIN_WORDS then unchanged(this)
        else
          fresh(grid) && Chained(words) &&
          words == Layout(CandidateOrder(drawn), pick, |CandidateOrder(drawn)|) && GridIs(grid, words) &&
          (forall k :: 0 <= k < |words| ==> words[k].word in GetWordsByLevel(data, level)) &&
          (words != [] ==> words[0].direction == Across && words[0].row == SEED_ROW) &&
          userGrid == EmptyAnswers() && completedWords == [] && selectedCell == None && selectedWord == None &&
          hintsUsed == 0 && score == 0 && errors == [] && timer == 0 && direction == old(direction)
    {
      var randomWords := GetRandomWords(data, level, WORD_COUNT, [], picks);
      if |randomWords| < MIN_WORDS {
        return;
      }
      var newGrid, placements := BuildPuzzle(randomWords, pick);
      StartRound(newGrid, placements);
    }

    /** The state reset that follows a successful generation: a fresh board
        with empty answers, no selection, no completed words, hints, score,
        errors or elapsed time. */
    method StartRound(newGrid: Grid, placements: seq<Placement>)
      requires IsGrid(newGrid) && WellPlaced(newGrid, placements)
      modifies this
      ensures Valid()
      ensures grid == newGrid && words == placements && userGrid == EmptyAnswers() && completedWords == [] &&
              selectedCell == None && selectedWord == None && hintsUsed == 0 && score == 0 && errors == [] &&
              timer == 0 && direction == old(direction)
    {
      grid := newGrid;
      userGrid := EmptyAnswers();
      words := placements;
      completedWords := [];
      selectedCell := None;
      selectedWord := None;
      hintsUsed := 0;
      score := 0;
      errors := [];
      timer := 0;
    }

    /** `handleCellPress`: a blocked square is ignored; pressing the selected
        square again turns the direction; another square is selected with the
        word through it in the current direction, else in the other one. */
    method HandleCellPress(row: int, col: int)
      requires Valid() && InGrid(Pos(row, col))
      modifies this
      ensures Valid()
      ensures grid == old(grid) && words == old(words) && userGrid == old(userGrid) &&
              completedWords == old(completedWords) && score == old(score) && errors == old(errors) &&
              hintsUsed == old(hintsUsed) && timer == old(timer)
      ensures LetterAt(grid, Pos(row, col)).None? ==>
        selectedCell == old(selectedCell) && selectedWord == old(selectedWord) && direction == old(direction)
      ensures LetterAt(grid, Pos(row, col)).Some? && old(selectedCell) == Some(Pos(row, col)) ==>
        direction == Perpendicular(old(direction)) && selectedCell == old(selectedCell) &&
        selectedWord == FindWordAtCell(words, row, col, direction)
      ensures LetterAt(grid, Pos(row, col)).Some? && old(selectedCell) != Some(Pos(row, col)) ==>
        selectedCell == Some(Pos(row, col)) &&
        var here := FindWordAtCell(words, row, col, old(direction));
        var there := FindWordAtCell(words, row, col, Perpendicular(old(direction)));
        if here.Some? then selectedWord == here && direction == old(direction)
        else selectedWord == there && direction == (if there.Some? then Perpendicular(old(direction)) else old(direction))
    {
      if grid[row, col].None? {
        return;
      }
      if selectedCell == Some(Pos(row, col)) {
        var newDir := Perpendicular(direction);
        Select(Pos(row, col), FindWordAtCell(words, row, col, newDir), newDir);
      } else {
        var dir := direction;
        var word := FindWordAtCell(words, row, col, dir);
        if word.None? {
          var otherDir := Perpendicular(dir);
          word := FindWordAtCell(words, row, col, otherDir);
          if word.Some? {
            dir := otherDir;
          }
        }
        Select(Pos(row, col), word, dir);
      }
    }

    /** Selects a lettered square, one of the words (or none) and a
        direction; nothing else changes. */
    method Select(cell: Pos, word: Option<Placement>, dir: Direction)
      requires Valid() && LetterAt(grid, cell).Some? && (word.Some? ==> word.value in words)
      modifies this
      ensures Valid()
      ensures selectedCell == Some(cell) && selectedWord == word && direction == dir
      ensures grid == old(grid) && words == old(words) && userGrid == old(userGrid) &&
              completedWords == old(completedWords) && score == old(score) && errors == old(errors) &&
              hintsUsed == old(hintsUsed) && timer == old(timer)
    {
      selectedCell := Some(cell);
      selectedWord := word;
      direction := dir;
    }

    /** The squares of a word in the round are lettered squares. */
    lemma WordSquaresLettered(p: Placement, c: Pos)
      requires Valid() && p in words && c in p.cells
      ensures LetterAt(grid, c).Some?
    {
      var k :| 0 <= k < |words| && words[k] == p;
      assert PlacedAt(grid, words[k]);
      var i :| 0 <= i < |p.cells| && p.cells[i] == c;
    }

    /** `moveToNextCell`: with a selected square and word, the selection
        moves on to the word's next square. */
    method MoveToNextCell()
      requires Valid()
      modifies this
      ensures Valid()
      ensures old(selectedCell).Some? && old(selectedWord).Some? ==>
        selectedCell == Some(NextCell(old(selectedCell).value, old(selectedWord).value.cells))
      ensures old(selectedCell).None? || old(selectedWord).None? ==> selectedCell == old(selectedCell)
      ensures grid == old(grid) && words == old(words) && userGrid == old(userGrid) && selectedWord == old(selectedWord) &&
              direction == old(direction) && completedWords == old(completedWords) && score == old(score) &&
              errors == old(errors) && hintsUsed == old(hintsUsed) && timer == old(timer)
    {
      if selectedCell.None? || selectedWord.None? {
        return;
      }
      var cells := selectedWord.value.cells;
      var currentIndex := IndexOf(cells, selectedCell.value);
      if currentIndex < |cells| - 1 {
        WordSquaresLettered(selectedWord.value, cells[currentIndex + 1]);
        selectedCell := Some(cells[currentIndex + 1]);
      }
    }

    /** `checkWordCompletion`: every newly completed word is recorded, scored
        with the `hints` the caller saw, and marked discovered; when the last
        word is completed the round's stats are saved. */
    method CheckWordCompletion(answers: Answers, hints: int, store: ProgressStore, now: string)
      requires Valid() && store.Valid()
      modifies this, store
      ensures Valid() && store.Valid()
      ensures var newly := old(NewlyCompleted(grid, words, answers, completedWords));
        completedWords == old(completedWords) + ClueNumbers(newly) &&
        score == old(score) + SumGains(newly, timer, hints) &&
        (forall p :: p in newly ==> p.word.id in store.GetDiscovered(level))
      ensures old(completedWords) != completedWords && |completedWords| == |words| ==>
        store.GetGameStats(GAME_NAME) ==
          old(store.GetGameStats(GAME_NAME)) + FinishStats(old(store.GetGameStats(GAME_NAME)), score, timer)
      ensures old(completedWords) == completedWords || |completedWords| != |words| ==>
        store.GetProgress().gameStats == old(store.GetProgress().gameStats)
      ensures old(completedWords) == completedWords ==> store.storage == old(store.storage)
      ensures KeepsOthers(old(store.GetProgress()), store.GetProgress(), level, GAME_NAME)
      ensures grid == old(grid) && words == old(words) && userGrid == old(userGrid) && selectedCell == old(selectedCell) &&
              selectedWord == old(selectedWord) && direction == old(direction) && errors == old(errors) &&
              hintsUsed == old(hintsUsed) && timer == old(timer)
    {
      var newly, newScore := ScanCompletion(grid, words, answers, completedWords, score, timer, hints);
      NewCluesDistinct(grid, words, answers, completedWords);
      var finished := |newly| > 0 && |completedWords| + |newly| == |words|;
      SaveCompletion(store, newly, level, finished, newScore, timer, now);
      if |newly| == 0 {
        assert completedWords + ClueNumbers(newly) == completedWords;
      } else {
        Record(ClueNumbers(newly), newScore);
      }
    }

    /** Appends newly completed clue numbers and sets the score; nothing
        else changes. */
    method Record(added: seq<nat>, newScore: int)
      requires Valid()
      requires Distinct(completedWords + added) && forall n :: n in added ==> 1 <= n <= |words|
      modifies this
      ensures Valid()
      ensures completedWords == old(completedWords) + added && score == newScore
      ensures grid == old(grid) && words == old(words) && userGrid == old(userGrid) && selectedCell == old(selectedCell) &&
              selectedWord == old(selectedWord) && direction == old(direction) && errors == old(errors) &&
              hintsUsed == old(hintsUsed) && timer == old(timer)
    {
      completedWords := completedWords + added;
      score := newScore;
    }

    /** `handleLetterInput`: with a square selected and a letter key, the
        letter is typed into the square, its error flag set or cleared, the
        words checked for completion and the selection moved on. */
    method HandleLetterInput(letter: string, store: ProgressStore, now: string)
      requires Valid() && store.Valid()
      modifies this, store
      ensures Valid() && store.Valid()
      ensures old(selectedCell).None? || letter == "" || !IsLetterKey(letter) ==>
        unchanged(this) && unchanged(store)
      ensures old(selectedCell).Some? && letter != "" && IsLetterKey(letter) ==>
        var p := old(selectedCell).value;
        var typed := Some(Upper(letter)[0]);
        var answers := SetAnswer(old(userGrid), p, typed);
        var newly := NewlyCompleted(grid, words, answers, old(completedWords));
        userGrid == answers &&
        errors == (if typed != LetterAt(grid, p) then (if p in old(errors) then old(errors) else old(errors) + [p])
                   else Without(old(errors), p)) &&
        completedWords == old(completedWords) + ClueNumbers(newly) &&
        score == old(score) + SumGains(newly, timer, hintsUsed) &&
        (forall w :: w in newly ==> w.word.id in store.GetDiscovered(level)) &&
        (old(selectedWord).Some? ==> selectedCell == Some(NextCell(p, old(selectedWord).value.cells))) &&
        (old(selectedWord).None? ==> selectedCell == old(selectedCell))
      ensures grid == old(grid) && words == old(words) && selectedWord == old(selectedWord) &&
              direction == old(direction) && hintsUsed == old(hintsUsed) && timer == old(timer)
      ensures old(completedWords) != completedWords && |completedWords| == |words| ==>
        store.GetGameStats(GAME_NAME) ==
          old(store.GetGameStats(GAME_NAME)) + FinishStats(old(store.GetGameStats(GAME_NAME)), score, timer)
      ensures old(completedWords) == completedWords || |completedWords| != |words| ==>
        store.GetProgress().gameStats == old(store.GetProgress().gameStats)
      ensures old(completedWords) == completedWords ==> store.storage == old(store.storage)
      ensures KeepsOthers(old(store.GetProgress()), store.GetProgress(), level, GAME_NAME)
    {
      if selectedCell.None? || letter == "" {
        return;
      }
      var ch := Upper(letter);
      if !(|ch| == 1 && IsUpperAscii(ch[0])) {
        return;
      }
      var p := selectedCell.value;
      var newUserGrid := SetAnswer(userGrid, p, Some(ch[0]));
      var newErrors := errors;
      if Some(ch[0]) != LetterAt(grid, p) {
        if p !in errors {
          newErrors := errors + [p];
        }
      } else {
        newErrors := Without(errors, p);
      }
      Enter(newUserGrid, newErrors, hintsUsed);
      CheckWordCompletion(newUserGrid, hintsUsed, store, now);
      MoveToNextCell();
    }

    /** Sets the answers, the error flags and the hint count; nothing else
        changes. */
    method Enter(newUserGrid: Answers, newErrors: seq<Pos>, newHints: int)
      requires Valid() && IsAnswerGrid(newUserGrid)
      modifies this
      ensures Valid()
      ensures userGrid == newUserGrid && errors == newErrors && hintsUsed == newHints
      ensures grid == old(grid) && words == old(words) && selectedCell == old(selectedCell) &&
              selectedWord == old(selectedWord) && direction == old(direction) &&
              completedWords == old(completedWords) && score == old(score) && timer == old(timer)
    {
      userGrid := newUserGrid;
      errors := newErrors;
      hintsUsed := newHints;
    }

    /** `handleBackspace`: a filled square is cleared and unflagged; an empty
        one moves the selection back one square of the word. */
    method HandleBackspace()
      requires Valid()
      modifies this
      ensures Valid()
      ensures old(selectedCell).None? ==> unchanged(this)
      ensures old(selectedCell).Some? && AnswerAt(old(userGrid), old(selectedCell).value).Some? ==>
        userGrid == SetAnswer(old(userGrid), old(selectedCell).value, None) &&
        errors == Without(old(errors), old(selectedCell).value) && selectedCell == old(selectedCell)
      ensures old(selectedCell).Some? && AnswerAt(old(userGrid), old(selectedCell).value).None? ==>
        userGrid == old(userGrid) && errors == old(errors) &&
        selectedCell == (if old(selectedWord).Some? then Some(PrevCell(old(selectedCell).value, old(selectedWord).value.cells))
                         else old(selectedCell))
      ensures grid == old(grid) && words == old(words) && selectedWord == old(selectedWord) &&
              direction == old(direction) && completedWords == old(completedWords) && score == old(score) &&
              hintsUsed == old(hintsUsed) && timer == old(timer)
    {
      if selectedCell.None? {
        return;
      }
      var p := selectedCell.value;
      if AnswerAt(userGrid, p).Some? {
        userGrid := SetAnswer(userGrid, p, None);
        errors := Without(errors, p);
      } else if selectedWord.Some? {
        var prev := PrevCell(p, selectedWord.value.cells);
        if prev != p {
          WordSquaresLettered(selectedWord.value, prev);
          selectedCell := Some(prev);
        }
      }
    }

    /** `revealLetter`: a selected square not yet showing its solution gets
        it, costs one hint and loses its error flag; completion is checked
        with the hint count from before the reveal, and the selection moves
        on. */
    method RevealLetter(store: ProgressStore, now: string)
      requires Valid() && store.Valid()
      modifies this, store
      ensures Valid() && store.Valid()
      ensures old(selectedCell).None? || AnswerAt(old(userGrid), old(selectedCell).value) == LetterAt(grid, old(selectedCell).value) ==>
        unchanged(this) && unchanged(store)
      ensures old(selectedCell).Some? && AnswerAt(old(userGrid), old(selectedCell).value) != LetterAt(grid, old(selectedCell).value) ==>
        var p := old(selectedCell).value;
        var answers := SetAnswer(old(userGrid), p, LetterAt(grid, p));
        var newly := NewlyCompleted(grid, words, answers, old(completedWords));
        userGrid == answers && AnswerAt(userGrid, p) == LetterAt(grid, p) &&
        hintsUsed == old(hintsUsed) + 1 && errors == Without(old(errors), p) &&
        completedWords == old(completedWords) + ClueNumbers(newly) &&
        score == old(score) + SumGains(newly, timer, old(hintsUsed)) &&
        (old(selectedWord).Some? ==> selectedCell == Some(NextCell(p, old(selectedWord).value.cells))) &&
        (old(selectedWord).None? ==> selectedCell == old(selectedCell))
      ensures grid == old(grid) && words == old(words) && selectedWord == old(selectedWord) &&
              direction == old(direction) && timer == old(timer)
      ensures old(completedWords) != completedWords && |completedWords| == |words| ==>
        store.GetGameStats(GAME_NAME) ==
          old(store.GetGameStats(GAME_NAME)) + FinishStats(old(store.GetGameStats(GAME_NAME)), score, timer)
      ensures old(completedWords) == completedWords || |completedWords| != |words| ==>
        store.GetProgress().gameStats == old(store.GetProgress().gameStats)
      ensures old(completedWords) == completedWords ==> store.storage == old(store.storage)
      ensures KeepsOthers(old(store.GetProgress()), store.GetProgress(), level, GAME_NAME)
    {
      if selectedCell.None? {
        return;
      }
      var p := selectedCell.value;
      var correct := LetterAt(grid, p);
      if correct.Some? && AnswerAt(userGrid, p) != correct {
        var newUserGrid := SetAnswer(userGrid, p, correct);
        var hints := hintsUsed;
        Enter(newUserGrid, Without(errors, p), hintsUsed + 1);
        CheckWordCompletion(newUserGrid, hints, store, now);
        MoveToNextCell();
      }
    }

    /** `revealWord`: every square of the selected word gets its solution
        letter, the hint count grows by the word's length, the word's error
        flags are cleared (all of them, see `ErrorsAfterRevealAsWritten`) and
        completion is checked with the hint count from before. */
    method RevealWord(store: ProgressStore, now: string)
      requires Valid() && store.Valid()
      modifies this, store
      ensures Valid() && store.Valid()
      ensures old(selectedWord).None? ==> unchanged(this) && unchanged(store)
      ensures old(selectedWord).Some? ==>
        var w := old(selectedWord).value;
        var newly := NewlyCompleted(grid, words, userGrid, old(completedWords));
        (forall c :: c in w.cells ==> AnswerAt(userGrid, c) == LetterAt(grid, c)) &&
        (forall q :: q !in w.cells ==> AnswerAt(userGrid, q) == AnswerAt(old(userGrid), q)) &&
        hintsUsed == old(hintsUsed) + w.length &&
        errors == ErrorsAfterReveal(old(errors), w.cells) &&
        completedWords == old(completedWords) + ClueNumbers(newly) &&
        score == old(score) + SumGains(newly, timer, old(hintsUsed))
      ensures grid == old(grid) && words == old(words) && selectedWord == old(selectedWord) &&
              selectedCell == old(selectedCell) && direction == old(direction) && timer == old(timer)
      ensures old(completedWords) != completedWords && |completedWords| == |words| ==>
        store.GetGameStats(GAME_NAME) ==
          old(store.GetGameStats(GAME_NAME)) + FinishStats(old(store.GetGameStats(GAME_NAME)), score, timer)
      ensures old(completedWords) == completedWords || |completedWords| != |words| ==>
        store.GetProgress().gameStats == old(store.GetProgress().gameStats)
      ensures old(completedWords) == completedWords ==> store.storage == old(store.storage)
      ensures KeepsOthers(old(store.GetProgress()), store.GetProgress(), level, GAME_NAME)
    {
      if selectedWord.None? {
        return;
      }
      var w := selectedWord.value;
      forall c | c in w.cells ensures InGrid(c) {
        WordSquaresLettered(w, c);
      }
      var newUserGrid := FillWord(grid, userGrid, w.cells);
      var hints := hintsUsed;
      Enter(newUserGrid, ErrorsAfterReveal(errors, w.cells), hintsUsed + w.length);
      CheckWordCompletion(newUserGrid, hints, store, now);
    }

    /** `checkAnswers`: the error flags become exactly the wrong squares. */
    method CheckAnswers()
      requires Valid()
      modifies this
      ensures Valid()
      ensures forall p :: p in errors <==> IsWrong(grid, userGrid, p)
      ensures grid == old(grid) && words == old(words) && userGrid == old(userGrid) &&
              selectedCell == old(selectedCell) && selectedWord == old(selectedWord) &&
              completedWords == old(completedWords) && score == old(score) && hintsUsed == old(hintsUsed) &&
              direction == old(direction) && timer == old(timer)
    {
      errors := FindErrors(grid, userGrid);
    }

  }
}
