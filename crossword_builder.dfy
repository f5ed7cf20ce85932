/** The crossword builder: a 9×9 solution grid in which a seed word lies across
    the centre and every further word crosses an already placed one at a
    shared letter. */
module CrosswordBuilder {
  import opened Common
  import opened VocabularyManager

  const GRID_SIZE: int := 9
  const WORD_COUNT: nat := 6
  /** Fewer random words than this and no puzzle is built. */
  const MIN_WORDS: nat := 3
  /** Tries per word before it is dropped. */
  const MAX_ATTEMPTS: nat := 150
  /** `Math.floor(GRID_SIZE / 2)`: the seed word's row. */
  const SEED_ROW: int := GRID_SIZE / 2

  datatype Direction = Across | Down

  function Perpendicular(d: Direction): (e: Direction)
    ensures e != d
  {
    if d == Across then Down else Across
  }

  /** A lettered square; the clue number is shown where a word starts. */
  datatype Square = Square(letter: char, clueNumber: Option<nat>)

  /** The solution grid; `None` is a blocked square. */
  type Grid = array2<Option<Square>>

  /** A placed word: its entry, start square, direction, clue number, length
      and the squares it covers, in order. */
  datatype Placement = Placement(word: Word, row: int, col: int, direction: Direction,
                                 clueNumber: nat, length: nat, cells: seq<Pos>)

  /** Where a crossing word would start, and in which direction. */
  datatype Anchor = Anchor(row: int, col: int, dir: Direction)

  predicate InGrid(p: Pos)
  {
    0 <= p.row < GRID_SIZE && 0 <= p.col < GRID_SIZE
  }

  predicate IsGrid(g: Grid)
  {
    g.Length0 == GRID_SIZE && g.Length1 == GRID_SIZE
  }

  /** The square of letter `i` of a word starting at (row, col). */
  function CellAt(row: int, col: int, dir: Direction, i: int): Pos
  {
    if dir == Across then Pos(row, col + i) else Pos(row + i, col)
  }

  function WordCells(row: int, col: int, length: nat, dir: Direction): (cells: seq<Pos>)
    ensures |cells| == length
    ensures forall i :: 0 <= i < length ==> cells[i] == CellAt(row, col, dir, i)
  {
    seq(length, i requires 0 <= i < length => CellAt(row, col, dir, i))
  }

  /** The solution letter of a square, `None` when blocked or off the grid. */
  function LetterAt(grid: Grid, p: Pos): (r: Option<char>)
    reads grid
    ensures r.Some? ==> InGrid(p)
  {
    if IsGrid(grid) && InGrid(p) && grid[p.row, p.col].Some? then Some(grid[p.row, p.col].value.letter) else None
  }

  function ClueAt(grid: Grid, p: Pos): Option<nat>
    reads grid
  {
    if IsGrid(grid) && InGrid(p) && grid[p.row, p.col].Some? then grid[p.row, p.col].value.clueNumber else None
  }

  /** `getCellsForWord`: `length` squares from (row, col), one column further
      each step across, one row further each step down. */
  method GetCellsForWord(row: int, col: int, length: nat, dir: Direction) returns (cells: seq<Pos>)
    ensures |cells| == length
    ensures length > 0 ==> cells[0] == Pos(row, col)
    ensures forall i :: 0 <= i < length - 1 ==>
      cells[i + 1] == (if dir == Across then Pos(cells[i].row, cells[i].col + 1) else Pos(cells[i].row + 1, cells[i].col))
    ensures cells == WordCells(row, col, length, dir)
  {
    cells := [];
    var i := 0;
    while i < length
      invariant 0 <= i <= length
      invariant cells == WordCells(row, col, i, dir)
    {
      cells := cells + [Pos(if dir == Across then row else row + i, if dir == Across then col + i else col)];
      i := i + 1;
    }
  }

  /** The start of a word whose letter `i` sits on letter `j` of `existing`. */
  function CrossingAnchor(existing: Placement, i: int, j: int): Anchor
  {
    if existing.direction == Across then Anchor(existing.row - i, existing.col + j, Down)
    else Anchor(existing.row + j, existing.col - i, Across)
  }

  /** The bounds test of `findIntersection` for a word of `length` letters. */
  predicate Fits(a: Anchor, length: int)
  {
    if a.dir == Across then 0 <= a.row < GRID_SIZE && a.col >= 0 && a.col + length <= GRID_SIZE
    else 0 <= a.col < GRID_SIZE && a.row >= 0 && a.row + length <= GRID_SIZE
  }

  /** Letter `i` of `word` equals letter `j` of the existing word, and the
      crossing word would fit on the grid. */
  predicate IsCrossing(word: string, existingWord: string, existing: Placement, i: int, j: int)
  {
    0 <= i < |word| && 0 <= j < |existingWord| && word[i] == existingWord[j] &&
    Fits(CrossingAnchor(existing, i, j), |word|)
  }

  /** (i', j') comes before (i, j) in `findIntersection`'s scan: by letter
      of the word, then by letter of the existing word. */
  predicate Before(i': int, j': int, i: int, j: int)
  {
    i' < i || (i' == i && j' < j)
  }

  /** The scan of `findIntersection` from (i, j) on: the first letter pair
      at which the word crosses `existing`, if there is one. */
  function ScanFrom(word: string, existingWord: string, existing: Placement, i: nat, j: nat): (r: Option<(nat, nat)>)
    ensures r.Some? ==> IsCrossing(word, existingWord, existing, r.value.0, r.value.1) && !Before(r.value.0, r.value.1, i, j)
    decreases |word| - i, |existingWord| - j
  {
    if i >= |word| then None
    else if j >= |existingWord| then ScanFrom(word, existingWord, existing, i + 1, 0)
    else if IsCrossing(word, existingWord, existing, i, j) then Some((i, j))
    else ScanFrom(word, existingWord, existing, i, j + 1)
  }

  /** No pair the scan passes over, from (i, j) up to what it returns, is a
      crossing. */
  lemma {:induction false} ScanFromFirst(word: string, existingWord: string, existing: Placement, i: nat, j: nat)
    ensures var r := ScanFrom(word, existingWord, existing, i, j);
      forall i', j' :: !Before(i', j', i, j) && (r.None? || Before(i', j', r.value.0, r.value.1)) ==>
        !IsCrossing(word, existingWord, existing, i', j')
    decreases |word| - i, |existingWord| - j
  {
    if i >= |word| {
    } else if j >= |existingWord| {
      ScanFromFirst(word, existingWord, existing, i + 1, 0);
    } else if !IsCrossing(word, existingWord, existing, i, j) {
      ScanFromFirst(word, existingWord, existing, i, j + 1);
    }
  }

  /** The letter pair `findIntersection` settles on: the first crossing in
      scan order. */
  function FirstCrossing(word: string, existing: Placement): Option<(nat, nat)>
  {
    ScanFrom(word, Upper(existing.word.word), existing, 0, 0)
  }

  /** The first crossing is a crossing and none comes before it; there is
      none exactly when no letter pair crosses. */
  lemma FirstCrossingIsFirst(word: string, existing: Placement)
    ensures var r, ew := FirstCrossing(word, existing), Upper(existing.word.word);
      (r.None? <==> forall i, j :: !IsCrossing(word, ew, existing, i, j)) &&
      (r.Some? ==>
        IsCrossing(word, ew, existing, r.value.0, r.value.1) &&
        forall i, j :: Before(i, j, r.value.0, r.value.1) ==> !IsCrossing(word, ew, existing, i, j))
  {
    ScanFromFirst(word, Upper(existing.word.word), existing, 0, 0);
  }

  /** The start square and direction of the first crossing, if any. */
  function CrossingFor(word: string, existing: Placement): Option<Anchor>
  {
    var at := FirstCrossing(word, existing);
    if at.Some? then Some(CrossingAnchor(existing, at.value.0, at.value.1)) else None
  }

  /** What the first crossing gives: none exactly when no letter pair
      crosses; otherwise a start perpendicular to `existing` that puts a
      letter of the word on an equal letter of it, with the whole word on
      the grid, and no pair earlier in scan order crosses. */
  lemma CrossingForMeets(word: string, existing: Placement)
    ensures var r := CrossingFor(word, existing);
      (r.None? <==> forall i, j :: !IsCrossing(word, Upper(existing.word.word), existing, i, j)) &&
      (r.Some? ==> exists i, j :: IsCrossing(word, Upper(existing.word.word), existing, i, j) &&
                                  r.value == CrossingAnchor(existing, i, j) &&
                                  CellAt(r.value.row, r.value.col, r.value.dir, i) ==
                                  CellAt(existing.row, existing.col, existing.direction, j) &&
                                  forall i', j' :: Before(i', j', i, j) ==>
                                    !IsCrossing(word, Upper(existing.word.word), existing, i', j')) &&
      (r.Some? ==> r.value.dir == Perpendicular(existing.direction)) &&
      (r.Some? ==> forall k :: 0 <= k < |word| ==> InGrid(CellAt(r.value.row, r.value.col, r.value.dir, k)))
  {
    FirstCrossingIsFirst(word, existing);
    var at := FirstCrossing(word, existing);
    if at.Some? {
      var i, j := at.value.0, at.value.1;
      assert CellAt(CrossingFor(word, existing).value.row, CrossingFor(word, existing).value.col,
                    CrossingFor(word, existing).value.dir, i) ==
             CellAt(existing.row, existing.col, existing.direction, j);
    }
  }

  /** `findIntersection`: the first (i, j) in scan order where `word` can cross
      `existing`, as a start square perpendicular to it. */
  method FindIntersection(word: string, existing: Placement) returns (r: Option<Anchor>)
    ensures r == CrossingFor(word, existing)
    ensures r.None? <==> forall i, j :: !IsCrossing(word, Upper(existing.word.word), existing, i, j)
    ensures r.Some? ==> exists i, j :: IsCrossing(word, Upper(existing.word.word), existing, i, j) &&
                                       r.value == CrossingAnchor(existing, i, j) &&
                                       CellAt(r.value.row, r.value.col, r.value.dir, i) ==
                                       CellAt(existing.row, existing.col, existing.direction, j) &&
                                       forall i', j' :: Before(i', j', i, j) ==>
                                         !IsCrossing(word, Upper(existing.word.word), existing, i', j')
    ensures r.Some? ==> r.value.dir == Perpendicular(existing.direction)
    ensures r.Some? ==> forall k :: 0 <= k < |word| ==> InGrid(CellAt(r.value.row, r.value.col, r.value.dir, k))
  {
    var existingWord := Upper(existing.word.word);
    CrossingForMeets(word, existing);
    var i := 0;
    while i < |word|
      invariant 0 <= i <= |word|
      invariant FirstCrossing(word, existing) == ScanFrom(word, existingWord, existing, i, 0)
    {
      var j := 0;
      while j < |existingWord|
        invariant 0 <= j <= |existingWord|
        invariant FirstCrossing(word, existing) == ScanFrom(word, existingWord, existing, i, j)
      {
        if word[i] == existingWord[j] {
          var newDir := Perpendicular(existing.direction);
          var row, col;
          if existing.direction == Across {
            row, col := existing.row - i, existing.col + j;
          } else {
            row, col := existing.row + j, existing.col - i;
          }
          if newDir == Across {
            if 0 <= row < GRID_SIZE && col >= 0 && col + |word| <= GRID_SIZE {
              assert IsCrossing(word, existingWord, existing, i, j);
              return Some(Anchor(row, col, newDir));
            }
          } else {
            if 0 <= col < GRID_SIZE && row >= 0 && row + |word| <= GRID_SIZE {
              assert IsCrossing(word, existingWord, existing, i, j);
              return Some(Anchor(row, col, newDir));
            }
          }
        }
        j := j + 1;
      }
      i := i + 1;
    }
    return None;
  }

  /** Letter `i` of the word lands on the grid and agrees with any letter
      already there. */
  predicate AgreesAt(grid: Grid, word: string, row: int, col: int, dir: Direction, i: int)
    reads grid
    requires IsGrid(grid) && 0 <= i < |word|
  {
    var c := CellAt(row, col, dir, i);
    InGrid(c) && (grid[c.row, c.col].Some? ==> grid[c.row, c.col].value.letter == word[i])
  }

  /** If the square of letter `i` is still empty, its neighbours across the
      word's line (above and below for across, left and right for down) are
      empty too. */
  predicate IsolatedAt(grid: Grid, row: int, col: int, dir: Direction, i: int)
    reads grid
    requires IsGrid(grid)
  {
    var c := CellAt(row, col, dir, i);
    InGrid(c) && grid[c.row, c.col].None? ==>
      if dir == Across then
        (c.row > 0 ==> grid[c.row - 1, c.col].None?) && (c.row < GRID_SIZE - 1 ==> grid[c.row + 1, c.col].None?)
      else
        (c.col > 0 ==> grid[c.row, c.col - 1].None?) && (c.col < GRID_SIZE - 1 ==> grid[c.row, c.col + 1].None?)
  }

  predicate Placeable(grid: Grid, word: string, row: int, col: int, dir: Direction)
    reads grid
    requires IsGrid(grid)
  {
    forall i :: 0 <= i < |word| ==> AgreesAt(grid, word, row, col, dir, i) && IsolatedAt(grid, row, col, dir, i)
  }

  /** `canPlaceWord`: every square on the grid, every letter agreeing, every
      empty square free of perpendicular neighbours. The squares before the
      first and after the last letter are not looked at. */
  method CanPlaceWord(grid: Grid, word: string, row: int, col: int, dir: Direction) returns (ok: bool)
    requires IsGrid(grid)
    ensures ok <==> Placeable(grid, word, row, col, dir)
  {
    var i := 0;
    while i < |word|
      invariant 0 <= i <= |word|
      invariant forall k :: 0 <= k < i ==> AgreesAt(grid, word, row, col, dir, k)
    {
      var r := if dir == Across then row else row + i;
      var c := if dir == Across then col + i else col;
      if r < 0 || r >= GRID_SIZE || c < 0 || c >= GRID_SIZE {
        assert !AgreesAt(grid, word, row, col, dir, i);
        return false;
      }
      var cell := grid[r, c];
      if cell.Some? && cell.value.letter != word[i] {
        assert !AgreesAt(grid, word, row, col, dir, i);
        return false;
      }
      i := i + 1;
    }
    i := 0;
    while i < |word|
      invariant 0 <= i <= |word|
      invariant forall k :: 0 <= k < |word| ==> AgreesAt(grid, word, row, col, dir, k)
      invariant forall k :: 0 <= k < i ==> IsolatedAt(grid, row, col, dir, k)
    {
      var r := if dir == Across then row else row + i;
      var c := if dir == Across then col + i else col;
      assert AgreesAt(grid, word, row, col, dir, i);
      if dir == Across {
        if (r > 0 && grid[r - 1, c].Some? && grid[r, c].None?) ||
           (r < GRID_SIZE - 1 && grid[r + 1, c].Some? && grid[r, c].None?) {
          assert !IsolatedAt(grid, row, col, dir, i);
          return false;
        }
      } else {
        if (c > 0 && grid[r, c - 1].Some? && grid[r, c].None?) ||
           (c < GRID_SIZE - 1 && grid[r, c + 1].Some? && grid[r, c].None?) {
          assert !IsolatedAt(grid, row, col, dir, i);
          return false;
        }
      }
      i := i + 1;
    }
    return true;
  }

  /** The square (r, c) is one of the word's. */
  predicate Covers(row: int, col: int, dir: Direction, length: int, r: int, c: int)
  {
    if dir == Across then r == row && col <= c < col + length else c == col && row <= r < row + length
  }

  /** The squares a word covers are its cells. */
  lemma CoveredSquares(row: int, col: int, length: nat, dir: Direction)
    ensures forall r, c :: Covers(row, col, dir, length, r, c) ==> Pos(r, c) in WordCells(row, col, length, dir)
  {
    forall r, c | Covers(row, col, dir, length, r, c) ensures Pos(r, c) in WordCells(row, col, length, dir) {
      var k := if dir == Across then c - col else r - row;
      assert WordCells(row, col, length, dir)[k] == Pos(r, c);
    }
  }

  /** `placeWordInGrid`: every square of the word holds a letter (the word's
      own where the square was empty), an existing letter or clue number is
      never overwritten, a new clue number is only set on the first square,
      and every other square is unchanged. */
  method PlaceWordInGrid(grid: Grid, word: string, row: int, col: int, dir: Direction, clueNum: nat,
                         ghost placements: seq<Placement>)
    requires IsGrid(grid) && WellPlaced(grid, placements)
    requires forall i :: 0 <= i < |word| ==> InGrid(CellAt(row, col, dir, i))
    modifies grid
    ensures forall i :: 0 <= i < |word| ==>
      var c := CellAt(row, col, dir, i);
      InGrid(c) && grid[c.row, c.col].Some? &&
      grid[c.row, c.col].value.letter == (if old(grid[c.row, c.col]).Some? then old(grid[c.row, c.col]).value.letter else word[i])
    ensures forall i :: 0 < i < |word| ==>
      var c := CellAt(row, col, dir, i);
      InGrid(c) && grid[c.row, c.col].Some? &&
      grid[c.row, c.col].value.clueNumber == (if old(grid[c.row, c.col]).Some? then old(grid[c.row, c.col]).value.clueNumber else None)
    ensures |word| > 0 ==>
      var c := CellAt(row, col, dir, 0);
      InGrid(c) && grid[c.row, c.col].Some? &&
      grid[c.row, c.col].value.clueNumber ==
        (if old(grid[c.row, c.col]).Some? && old(grid[c.row, c.col]).value.clueNumber.Some? then old(grid[c.row, c.col]).value.clueNumber
         else Some(clueNum))
    ensures forall r, c :: 0 <= r < GRID_SIZE && 0 <= c < GRID_SIZE && !Covers(row, col, dir, |word|, r, c) ==>
      grid[r, c] == old(grid[r, c])
    ensures WellPlaced(grid, placements)
  {
    for i := 0 to |word|
      invariant forall k :: 0 <= k < i ==>
        var c := CellAt(row, col, dir, k);
        grid[c.row, c.col] == Written(old(grid[c.row, c.col]), word[k], if k == 0 then Some(clueNum) else None)
      invariant forall r, c :: 0 <= r < GRID_SIZE && 0 <= c < GRID_SIZE && !Covers(row, col, dir, i, r, c) ==>
        grid[r, c] == old(grid[r, c])
    {
      var cell := CellAt(row, col, dir, i);
      WriteSquare(grid, cell.row, cell.col, word[i], if i == 0 then Some(clueNum) else None);
    }
    forall r, c | 0 <= r < GRID_SIZE && 0 <= c < GRID_SIZE && old(grid[r, c]).Some?
      ensures grid[r, c].Some? && grid[r, c].value.letter == old(grid[r, c]).value.letter &&
              (old(grid[r, c]).value.clueNumber.Some? ==> grid[r, c].value.clueNumber.Some?)
    {
      if Covers(row, col, dir, |word|, r, c) {
        var k := if dir == Across then c - col else r - row;
        assert CellAt(row, col, dir, k) == Pos(r, c);
      }
    }
    forall k | 0 <= k < |placements| ensures PlacedAt(grid, placements[k]) {
      var p := placements[k];
      assert old(PlacedAt(grid, p));
      forall i | 0 <= i < p.length ensures LetterAt(grid, p.cells[i]) == Some(Upper(p.word.word)[i]) {
        assert old(LetterAt(grid, p.cells[i])) == Some(Upper(p.word.word)[i]);
      }
      if p.length > 0 {
        assert old(ClueAt(grid, p.cells[0])).Some?;
      }
    }
  }

  /** A square after one letter of a word is written to it: an empty square
      takes the letter and the clue number, if any; a filled one keeps its
      letter and gains the clue number only when it had none. */
  function Written(before: Option<Square>, letter: char, clue: Option<nat>): (after: Option<Square>)
    ensures after.Some?
    ensures before.Some? ==> after.value.letter == before.value.letter
    ensures before.None? ==> after.value.letter == letter
    ensures before.Some? && before.value.clueNumber.Some? ==> after.value.clueNumber == before.value.clueNumber
  {
    if before.None? then Some(Square(letter, clue))
    else if clue.Some? && before.value.clueNumber.None? then Some(before.value.(clueNumber := clue))
    else before
  }

  /** One step of the writing loop: square (r, c) is written and no other
      square changes. */
  method WriteSquare(grid: Grid, r: int, c: int, letter: char, clue: Option<nat>)
    requires IsGrid(grid) && 0 <= r < GRID_SIZE && 0 <= c < GRID_SIZE
    modifies grid
    ensures grid[r, c] == Written(old(grid[r, c]), letter, clue)
    ensures forall r', c' :: 0 <= r' < GRID_SIZE && 0 <= c' < GRID_SIZE && (r' != r || c' != c) ==>
      grid[r', c'] == old(grid[r', c'])
  {
    if grid[r, c].None? {
      grid[r, c] := Some(Square(letter, clue));
    } else if clue.Some? && grid[r, c].value.clueNumber.None? {
      grid[r, c] := Some(grid[r, c].value.(clueNumber := clue));
    }
  }

  /** The column the seed word starts at: centred, rounded down. */
  function SeedColumn(length: int): int
  {
    (GRID_SIZE - length) / 2
  }

  /** A seed of at most 9 letters lies wholly on the grid. */
  lemma SeedFits(length: nat)
    requires length <= GRID_SIZE
    ensures forall i :: 0 <= i < length ==> InGrid(CellAt(SEED_ROW, SeedColumn(length), Across, i))
  {
    assert 0 <= SeedColumn(length) && SeedColumn(length) + length <= GRID_SIZE;
  }

  /** The order words are tried in, as written: longest first, stable. */
  function AsWrittenOrder(randomWords: seq<Word>): (r: seq<Word>)
    ensures multiset(r) == multiset(randomWords)
    ensures SortedDesc(r, (w: Word) => |w.word|)
  {
    SortDesc(randomWords, (w: Word) => |w.word|)
  }

  /** The seed's squares as written: the longest word, centred on row 4
      whatever its length. */
  function AsWrittenSeedCells(randomWords: seq<Word>): seq<Pos>
    requires randomWords != []
  {
    var first := AsWrittenOrder(randomWords)[0];
    WordCells(SEED_ROW, SeedColumn(|first.word|), |first.word|, Across)
  }

  /** As written, any word longer than the grid that is drawn becomes the seed
      and starts left of column 0, so its clue can never be filled in. */
  lemma {:induction false} AsWrittenSeedLeavesGrid(randomWords: seq<Word>, k: nat)
    requires k < |randomWords| && |randomWords[k].word| > GRID_SIZE
    ensures exists c :: c in AsWrittenSeedCells(randomWords) && !InGrid(c)
  {
    var sorted := AsWrittenOrder(randomWords);
    assert randomWords[k] in multiset(sorted);
    var j :| 0 <= j < |sorted| && sorted[j] == randomWords[k];
    assert |sorted[0].word| >= |sorted[j].word|;
    assert AsWrittenSeedCells(randomWords)[0] in AsWrittenSeedCells(randomWords);
  }

  /** The words the builder tries: those that fit the grid at all, longest
      first, ties kept in drawing order. */
  function CandidateOrder(randomWords: seq<Word>): (r: seq<Word>)
    ensures forall w :: w in r <==> w in randomWords && |w.word| <= GRID_SIZE
    ensures multiset(r) == multiset(Filter(randomWords, (w: Word) => |w.word| <= GRID_SIZE))
    ensures SortedDesc(r, (w: Word) => |w.word|)
  {
    var fitting := Filter(randomWords, (w: Word) => |w.word| <= GRID_SIZE);
    var r := SortDesc(fitting, (w: Word) => |w.word|);
    assert forall w :: w in r <==> w in multiset(fitting);
    r
  }

  /** Every placement has its letters on the grid, its first square numbered,
      and clue numbers 1, 2, 3, … in placement order. */
  predicate PlacedAt(grid: Grid, p: Placement)
    reads grid
  {
    p.length == |p.word.word| &&
    p.cells == WordCells(p.row, p.col, p.length, p.direction) &&
    (forall i :: 0 <= i < p.length ==> LetterAt(grid, p.cells[i]) == Some(Upper(p.word.word)[i])) &&
    (p.length > 0 ==> ClueAt(grid, p.cells[0]).Some?)
  }

  predicate WellPlaced(grid: Grid, placements: seq<Placement>)
    reads grid
  {
    forall k :: 0 <= k < |placements| ==> PlacedAt(grid, placements[k]) && placements[k].clueNumber == k + 1
  }

  /** Two placements run in perpendicular directions and share a square. */
  predicate Crosses(p: Placement, q: Placement)
  {
    p.direction == Perpendicular(q.direction) &&
    exists a, b :: 0 <= a < |p.cells| && 0 <= b < |q.cells| && p.cells[a] == q.cells[b]
  }

  /** Every placement after the first crosses an earlier one. */
  predicate Chained(placements: seq<Placement>)
  {
    forall k :: 1 <= k < |placements| ==> CrossesEarlier(placements, k)
  }

  predicate CrossesEarlier(placements: seq<Placement>, k: int)
    requires 0 <= k < |placements|
  {
    exists j :: 0 <= j < k && Crosses(placements[k], placements[j])
  }

  /** Placement k holds candidate `from[k]`, and candidates are kept in order. */
  predicate DrawnInOrder(placements: seq<Placement>, sorted: seq<Word>, from: seq<nat>, bound: nat)
  {
    |from| == |placements| &&
    (forall k :: 0 <= k < |from| ==> from[k] < bound && from[k] < |sorted| && placements[k].word == sorted[from[k]]) &&
    (forall j, k :: 0 <= j < k < |from| ==> from[j] < from[k])
  }

  lemma ExtendChained(before: seq<Placement>, after: seq<Placement>)
    requires Chained(before)
    requires |after| == |before| || |after| == |before| + 1
    requires forall k :: 0 <= k < |before| ==> after[k] == before[k]
    requires |after| > |before| && before != [] ==> exists j :: 0 <= j < |before| && Crosses(after[|before|], after[j])
    ensures Chained(after)
  {
    forall k | 1 <= k < |after| ensures CrossesEarlier(after, k) {
      if k < |before| {
        assert CrossesEarlier(before, k);
        var j :| 0 <= j < k && Crosses(before[k], before[j]);
        assert after[j] == before[j] && after[k] == before[k];
        assert Crosses(after[k], after[j]);
      } else {
        assert k == |before| && before != [];
        var j :| 0 <= j < |before| && Crosses(after[|before|], after[j]);
        assert Crosses(after[k], after[j]);
      }
    }
  }

  lemma ExtendDrawn(before: seq<Placement>, after: seq<Placement>, sorted: seq<Word>, from: seq<nat>, i: nat)
    returns (from': seq<nat>)
    requires DrawnInOrder(before, sorted, from, i) && i < |sorted|
    requires |after| == |before| || |after| == |before| + 1
    requires forall k :: 0 <= k < |before| ==> after[k] == before[k]
    requires |after| > |before| ==> after[|before|].word == sorted[i]
    ensures DrawnInOrder(after, sorted, from', i + 1)
  {
    if |after| == |before| {
      assert after == before;
      from' := from;
    } else {
      from' := from + [i];
      forall k | 0 <= k < |from'|
        ensures from'[k] < i + 1 && from'[k] < |sorted| && after[k].word == sorted[from'[k]]
      {
        if k < |from| {
          assert from'[k] == from[k];
        }
      }
      forall j, k | 0 <= j < k < |from'| ensures from'[j] < from'[k] {
        assert from'[j] == from[j];
      }
    }
  }

  lemma DrawnSeed(seed: Placement, sorted: seq<Word>)
    requires sorted != [] && seed.word == sorted[0]
    ensures DrawnInOrder([seed], sorted, [0], 1)
  {
  }

  /** The letter placement `q` puts on square `p`, if it covers it. */
  function LetterOf(q: Placement, p: Pos): Option<char>
  {
    var k := IndexOf(q.cells, p);
    if 0 <= k < |q.word.word| then Some(Upper(q.word.word)[k]) else None
  }

  /** The letter the placements `ps` leave on square `p`: that of the last
      one covering it, `None` (a blocked square) when none does. */
  function Content(ps: seq<Placement>, p: Pos): Option<char>
  {
    if ps == [] then None
    else if LetterOf(ps[|ps| - 1], p).Some? then LetterOf(ps[|ps| - 1], p)
    else Content(ps[..|ps| - 1], p)
  }

  /** A square is blocked exactly when no placement covers it. */
  lemma {:induction false} ContentNone(ps: seq<Placement>, p: Pos)
    ensures Content(ps, p).None? <==> forall k :: 0 <= k < |ps| ==> LetterOf(ps[k], p).None?
  {
    if ps != [] && LetterOf(ps[|ps| - 1], p).None? {
      ContentNone(ps[..|ps| - 1], p);
      assert forall k :: 0 <= k < |ps| - 1 ==> ps[..|ps| - 1][k] == ps[k];
    }
  }

  lemma ContentAppend(ps: seq<Placement>, q: Placement, p: Pos)
    ensures Content(ps + [q], p) == if LetterOf(q, p).Some? then LetterOf(q, p) else Content(ps, p)
  {
    assert (ps + [q])[..|ps|] == ps;
  }

  /** The grid's letters are exactly those the placements `ps` make: every
      square no placement reaches is blocked. */
  predicate GridIs(grid: Grid, ps: seq<Placement>)
    reads grid
  {
    IsGrid(grid) &&
    forall r, c {:trigger Content(ps, Pos(r, c))} :: 0 <= r < GRID_SIZE && 0 <= c < GRID_SIZE ==>
      LetterAt(grid, Pos(r, c)) == Content(ps, Pos(r, c))
  }

  /** A grid the placements make is blocked exactly off their squares. */
  lemma BlockedOffPlacements(grid: Grid, ps: seq<Placement>)
    requires GridIs(grid, ps) && WellPlaced(grid, ps)
    ensures forall r, c :: 0 <= r < GRID_SIZE && 0 <= c < GRID_SIZE ==>
      (grid[r, c].None? <==> forall k :: 0 <= k < |ps| ==> Pos(r, c) !in ps[k].cells)
  {
    forall r, c | 0 <= r < GRID_SIZE && 0 <= c < GRID_SIZE
      ensures grid[r, c].None? <==> forall k :: 0 <= k < |ps| ==> Pos(r, c) !in ps[k].cells
    {
      assert LetterAt(grid, Pos(r, c)) == Content(ps, Pos(r, c));
      ContentNone(ps, Pos(r, c));
      forall k | 0 <= k < |ps| ensures LetterOf(ps[k], Pos(r, c)).None? <==> Pos(r, c) !in ps[k].cells {
        assert PlacedAt(grid, ps[k]);
      }
    }
  }

  /** `AgreesAt`, `IsolatedAt` and `Placeable` on the grid `ps` makes. */
  predicate AgreesIn(ps: seq<Placement>, word: string, row: int, col: int, dir: Direction, i: int)
    requires 0 <= i < |word|
  {
    var c := CellAt(row, col, dir, i);
    InGrid(c) && (Content(ps, c).Some? ==> Content(ps, c) == Some(word[i]))
  }

  predicate IsolatedIn(ps: seq<Placement>, row: int, col: int, dir: Direction, i: int)
  {
    var c := CellAt(row, col, dir, i);
    InGrid(c) && Content(ps, c).None? ==>
      if dir == Across then
        (c.row > 0 ==> Content(ps, Pos(c.row - 1, c.col)).None?) &&
        (c.row < GRID_SIZE - 1 ==> Content(ps, Pos(c.row + 1, c.col)).None?)
      else
        (c.col > 0 ==> Content(ps, Pos(c.row, c.col - 1)).None?) &&
        (c.col < GRID_SIZE - 1 ==> Content(ps, Pos(c.row, c.col + 1)).None?)
  }

  predicate PlaceableIn(ps: seq<Placement>, word: string, row: int, col: int, dir: Direction)
  {
    forall i :: 0 <= i < |word| ==> AgreesIn(ps, word, row, col, dir, i) && IsolatedIn(ps, row, col, dir, i)
  }

  /** A square of the grid the placements make holds their letter. */
  lemma SquareIs(grid: Grid, ps: seq<Placement>, p: Pos)
    requires GridIs(grid, ps) && InGrid(p)
    ensures grid[p.row, p.col].None? <==> Content(ps, p).None?
    ensures grid[p.row, p.col].Some? ==> Content(ps, p) == Some(grid[p.row, p.col].value.letter)
  {
    assert LetterAt(grid, Pos(p.row, p.col)) == Content(ps, Pos(p.row, p.col));
  }

  /** `canPlaceWord`'s test of letter `i` reads the same on the grid and on
      the placements that made it: the letter agrees ... */
  lemma AgreesTransfer(grid: Grid, ps: seq<Placement>, word: string, row: int, col: int, dir: Direction, i: int)
    requires GridIs(grid, ps) && 0 <= i < |word|
    ensures AgreesAt(grid, word, row, col, dir, i) <==> AgreesIn(ps, word, row, col, dir, i)
  {
    var c := CellAt(row, col, dir, i);
    if InGrid(c) {
      SquareIs(grid, ps, c);
    }
  }

  /** ... and an empty square's neighbours across the line are empty. */
  lemma IsolatedTransfer(grid: Grid, ps: seq<Placement>, row: int, col: int, dir: Direction, i: int)
    requires GridIs(grid, ps)
    ensures IsolatedAt(grid, row, col, dir, i) <==> IsolatedIn(ps, row, col, dir, i)
  {
    var c := CellAt(row, col, dir, i);
    if InGrid(c) {
      SquareIs(grid, ps, c);
      if dir == Across {
        NeighboursAre(grid, ps, Pos(c.row - 1, c.col), Pos(c.row + 1, c.col));
      } else {
        NeighboursAre(grid, ps, Pos(c.row, c.col - 1), Pos(c.row, c.col + 1));
      }
    }
  }

  /** Two squares either side of a letter are empty on the grid exactly
      when the placements leave them empty. */
  lemma NeighboursAre(grid: Grid, ps: seq<Placement>, p: Pos, q: Pos)
    requires GridIs(grid, ps)
    ensures InGrid(p) ==> (grid[p.row, p.col].None? <==> Content(ps, p).None?)
    ensures InGrid(q) ==> (grid[q.row, q.col].None? <==> Content(ps, q).None?)
  {
    if InGrid(p) { SquareIs(grid, ps, p); }
    if InGrid(q) { SquareIs(grid, ps, q); }
  }

  /** On the grid the placements make, `canPlaceWord`'s test reads the same
      on the placements. */
  lemma PlaceableTransfer(grid: Grid, ps: seq<Placement>, word: string, row: int, col: int, dir: Direction)
    requires GridIs(grid, ps)
    ensures Placeable(grid, word, row, col, dir) <==> PlaceableIn(ps, word, row, col, dir)
  {
    forall i | 0 <= i < |word|
      ensures AgreesAt(grid, word, row, col, dir, i) <==> AgreesIn(ps, word, row, col, dir, i)
      ensures IsolatedAt(grid, row, col, dir, i) <==> IsolatedIn(ps, row, col, dir, i)
    {
      AgreesTransfer(grid, ps, word, row, col, dir, i);
      IsolatedTransfer(grid, ps, row, col, dir, i);
    }
  }

  /** The seed placement of `entry`: across row 4, centred, as clue 1. */
  function SeedPlacement(entry: Word): (p: Placement)
    ensures p.word == entry && p.clueNumber == 1
  {
    var n := |entry.word|;
    Placement(entry, SEED_ROW, SeedColumn(n), Across, 1, n, WordCells(SEED_ROW, SeedColumn(n), n, Across))
  }

  /** The source's own test at try `a` of the `index`-th word, on the grid
      the placements `ps` made: the existing word `pick` selects has a
      crossing, and `canPlaceWord` accepts the word there. */
  predicate Accepted(grid: Grid, ps: seq<Placement>, entry: Word, index: nat, pick: (nat, nat) -> nat, a: nat)
    reads grid
    requires IsGrid(grid) && ps != []
  {
    var an := CrossingFor(Upper(entry.word), ps[pick(index, a) % |ps|]);
    an.Some? && Placeable(grid, Upper(entry.word), an.value.row, an.value.col, an.value.dir)
  }

  /** Try `a` of the `index`-th word against the grid the placements `ps`
      make: the placement it yields, numbered next, when the word crosses
      the existing word `pick` selects and fits there. */
  function TryAt(ps: seq<Placement>, entry: Word, index: nat, pick: (nat, nat) -> nat, a: nat): (r: Option<Placement>)
    requires ps != []
    ensures r.Some? ==> r.value.word == entry && r.value.clueNumber == |ps| + 1
  {
    var word := Upper(entry.word);
    var an := CrossingFor(word, ps[pick(index, a) % |ps|]);
    if an.Some? && PlaceableIn(ps, word, an.value.row, an.value.col, an.value.dir) then
      Some(Placement(entry, an.value.row, an.value.col, an.value.dir, |ps| + 1, |word|,
                     WordCells(an.value.row, an.value.col, |word|, an.value.dir)))
    else None
  }

  /** The first of tries `from` .. 149 that yields a placement, or 150 when
      none does. */
  function FirstFit(ps: seq<Placement>, entry: Word, index: nat, pick: (nat, nat) -> nat, from: nat): (a: nat)
    requires ps != [] && from <= MAX_ATTEMPTS
    ensures from <= a <= MAX_ATTEMPTS
    ensures a < MAX_ATTEMPTS ==> TryAt(ps, entry, index, pick, a).Some?
    decreases MAX_ATTEMPTS - from
  {
    if from == MAX_ATTEMPTS || TryAt(ps, entry, index, pick, from).Some? then from
    else FirstFit(ps, entry, index, pick, from + 1)
  }

  /** No try before the first fit yields a placement. */
  lemma {:induction false} FirstFitIsFirst(ps: seq<Placement>, entry: Word, index: nat, pick: (nat, nat) -> nat, from: nat)
    requires ps != [] && from <= MAX_ATTEMPTS
    ensures forall a :: from <= a < FirstFit(ps, entry, index, pick, from) ==> TryAt(ps, entry, index, pick, a).None?
    decreases MAX_ATTEMPTS - from
  {
    if from < MAX_ATTEMPTS && TryAt(ps, entry, index, pick, from).None? {
      FirstFitIsFirst(ps, entry, index, pick, from + 1);
    }
  }

  /** The `index`-th word's turn: the placements grow by the first try that
      yields one, and stay as they are when none of the 150 does. */
  function Turn(ps: seq<Placement>, entry: Word, index: nat, pick: (nat, nat) -> nat): (r: seq<Placement>)
    requires ps != []
    ensures r == ps || (|r| == |ps| + 1 && r[..|ps|] == ps && r[|ps|].word == entry)
  {
    var a := FirstFit(ps, entry, index, pick, 0);
    if a < MAX_ATTEMPTS then ps + [TryAt(ps, entry, index, pick, a).value] else ps
  }

  /** A word is dropped exactly when none of its 150 tries yields a
      placement on the grid the earlier words made, and otherwise goes
      where the first try that does puts it. */
  lemma TurnChoice(ps: seq<Placement>, entry: Word, index: nat, pick: (nat, nat) -> nat)
    requires ps != []
    ensures var r := Turn(ps, entry, index, pick);
      (r == ps <==> forall a :: 0 <= a < MAX_ATTEMPTS ==> TryAt(ps, entry, index, pick, a).None?) &&
      (r != ps ==>
        exists a :: 0 <= a < MAX_ATTEMPTS && TryAt(ps, entry, index, pick, a).Some? &&
          r == ps + [TryAt(ps, entry, index, pick, a).value] &&
          (forall a' :: 0 <= a' < a ==> TryAt(ps, entry, index, pick, a').None?))
  {
    FirstFitIsFirst(ps, entry, index, pick, 0);
    var a := FirstFit(ps, entry, index, pick, 0);
    if a < MAX_ATTEMPTS {
      assert |Turn(ps, entry, index, pick)| != |ps|;
    }
  }

  /** The placements after the seed and the next `n - 1` words of `sorted`
      have had their turn. */
  function Layout(sorted: seq<Word>, pick: (nat, nat) -> nat, n: nat): (r: seq<Placement>)
    requires n <= |sorted|
    ensures n > 0 ==> r != [] && r[0] == SeedPlacement(sorted[0])
  {
    if n == 0 then []
    else if n == 1 then [SeedPlacement(sorted[0])]
    else Turn(Layout(sorted, pick, n - 1), sorted[n - 1], n - 1, pick)
  }

  /** Try `a` yields a placement exactly when the source's test accepts
      it, and then the one the source appends. */
  lemma TryAtAgrees(grid: Grid, ps: seq<Placement>, entry: Word, index: nat, pick: (nat, nat) -> nat, a: nat)
    requires GridIs(grid, ps) && ps != []
    ensures var word, an := Upper(entry.word), CrossingFor(Upper(entry.word), ps[pick(index, a) % |ps|]);
      TryAt(ps, entry, index, pick, a) ==
        if Accepted(grid, ps, entry, index, pick, a) then
          Some(Placement(entry, an.value.row, an.value.col, an.value.dir, |ps| + 1, |word|,
                         WordCells(an.value.row, an.value.col, |word|, an.value.dir)))
        else None
  {
    var an := CrossingFor(Upper(entry.word), ps[pick(index, a) % |ps|]);
    if an.Some? {
      PlaceableTransfer(grid, ps, Upper(entry.word), an.value.row, an.value.col, an.value.dir);
    }
  }

  /** When no try yields a placement, the source's test rejects every try. */
  lemma NoTryFits(grid: Grid, ps: seq<Placement>, entry: Word, index: nat, pick: (nat, nat) -> nat)
    requires GridIs(grid, ps) && ps != []
    requires FirstFit(ps, entry, index, pick, 0) == MAX_ATTEMPTS
    ensures forall a :: 0 <= a < MAX_ATTEMPTS ==> !Accepted(grid, ps, entry, index, pick, a)
  {
    FirstFitIsFirst(ps, entry, index, pick, 0);
    forall a | 0 <= a < MAX_ATTEMPTS ensures !Accepted(grid, ps, entry, index, pick, a) {
      TryAtAgrees(grid, ps, entry, index, pick, a);
    }
  }

  /** Scanning the tries in order: when no try before `a` fits, try `a` is
      the first fit exactly when it fits itself. */
  lemma FirstFitStep(ps: seq<Placement>, entry: Word, index: nat, pick: (nat, nat) -> nat, a: nat)
    requires ps != [] && a < MAX_ATTEMPTS && FirstFit(ps, entry, index, pick, 0) >= a
    ensures TryAt(ps, entry, index, pick, a).Some? ==> FirstFit(ps, entry, index, pick, 0) == a
    ensures TryAt(ps, entry, index, pick, a).None? ==> FirstFit(ps, entry, index, pick, 0) > a
  {
    FirstFitIsFirst(ps, entry, index, pick, 0);
  }

  /** A grid the placements `ps` made, with placement `q` written on it and
      every other square's letter untouched, is the grid `ps + [q]` makes. */
  lemma PlacingExtends(grid: Grid, ps: seq<Placement>, q: Placement)
    requires IsGrid(grid) && PlacedAt(grid, q)
    requires forall r, c :: 0 <= r < GRID_SIZE && 0 <= c < GRID_SIZE && Pos(r, c) !in q.cells ==>
      LetterAt(grid, Pos(r, c)) == Content(ps, Pos(r, c))
    ensures GridIs(grid, ps + [q])
  {
    forall r, c | 0 <= r < GRID_SIZE && 0 <= c < GRID_SIZE
      ensures LetterAt(grid, Pos(r, c)) == Content(ps + [q], Pos(r, c))
    {
      ContentAppend(ps, q, Pos(r, c));
      var k := IndexOf(q.cells, Pos(r, c));
      if k >= 0 {
        assert q.cells[k] == Pos(r, c);
      }
    }
  }

  /** `generateCrossword`'s layout: the longest fitting word across row 4,
      centred, as clue 1; then each further word, longest first, tried up to
      150 times against a placement chosen by `pick(word index, attempt)`,
      and numbered in the order words are kept (`Layout`). The grid holds
      exactly the placements' letters, and every other square is blocked. */
  method BuildPuzzle(randomWords: seq<Word>, pick: (nat, nat) -> nat) returns (grid: Grid, placements: seq<Placement>)
    ensures fresh(grid) && IsGrid(grid)
    ensures placements == Layout(CandidateOrder(randomWords), pick, |CandidateOrder(randomWords)|)
    ensures GridIs(grid, placements)
    ensures forall r, c :: 0 <= r < GRID_SIZE && 0 <= c < GRID_SIZE ==>
      (grid[r, c].None? <==> forall k :: 0 <= k < |placements| ==> Pos(r, c) !in placements[k].cells)
    ensures WellPlaced(grid, placements)
    ensures placements == [] <==> CandidateOrder(randomWords) == []
    ensures placements != [] ==>
      var seed := placements[0];
      seed.word == CandidateOrder(randomWords)[0] && seed.direction == Across &&
      seed.row == SEED_ROW && seed.col == SeedColumn(seed.length)
    ensures Chained(placements)
    ensures forall k :: 0 <= k < |placements| ==> placements[k].word in randomWords
    ensures forall j, k :: 0 <= j < k < |placements| ==> |placements[j].word.word| >= |placements[k].word.word|
  {
    grid := new Option<Square>[GRID_SIZE, GRID_SIZE]((r, c) => None);
    var sorted := CandidateOrder(randomWords);
    placements := [];
    if sorted == [] {
      assert GridIs(grid, placements);
      return;
    }
    assert sorted[0] in sorted;
    var seed := PlaceSeed(grid, sorted[0]);
    placements := [seed];
    ghost var from: seq<nat> := [0];
    DrawnSeed(seed, sorted);

    for i := 1 to |sorted|
      invariant IsGrid(grid) && fresh(grid)
      invariant placements == Layout(sorted, pick, i)
      invariant GridIs(grid, placements)
      invariant WellPlaced(grid, placements)
      invariant placements != [] && placements[0] == seed
      invariant Chained(placements)
      invariant DrawnInOrder(placements, sorted, from, i)
    {
      var before := placements;
      placements := PlaceWord(grid, placements, sorted[i], i, pick);
      ExtendChained(before, placements);
      from := ExtendDrawn(before, placements, sorted, from, i);
    }
    DrawnWords(placements, sorted, from, randomWords);
    BlockedOffPlacements(grid, placements);
  }

  lemma DrawnWords(placements: seq<Placement>, sorted: seq<Word>, from: seq<nat>, randomWords: seq<Word>)
    requires DrawnInOrder(placements, sorted, from, |sorted|)
    requires sorted == CandidateOrder(randomWords)
    ensures forall k :: 0 <= k < |placements| ==> placements[k].word in randomWords
    ensures forall j, k :: 0 <= j < k < |placements| ==> |placements[j].word.word| >= |placements[k].word.word|
  {
    forall k | 0 <= k < |placements| ensures placements[k].word in randomWords {
      assert sorted[from[k]] in sorted;
    }
    forall j, k | 0 <= j < k < |placements| ensures |placements[j].word.word| >= |placements[k].word.word| {
      assert from[j] < from[k];
    }
  }

  /** The seed: written across row 4 of an empty grid, centred, as clue 1;
      every other square stays blocked. */
  method PlaceSeed(grid: Grid, entry: Word) returns (seed: Placement)
    requires IsGrid(grid) && |entry.word| <= GRID_SIZE
    requires forall r, c :: 0 <= r < GRID_SIZE && 0 <= c < GRID_SIZE ==> grid[r, c].None?
    modifies grid
    ensures seed == SeedPlacement(entry)
    ensures GridIs(grid, [seed])
    ensures WellPlaced(grid, [seed])
    ensures seed.word == entry && seed.direction == Across && seed.row == SEED_ROW &&
            seed.col == SeedColumn(seed.length)
  {
    var clueNumber := 1;
    var firstWord := Upper(entry.word);
    var firstRow := SEED_ROW;
    var firstCol := SeedColumn(|firstWord|);
    SeedFits(|firstWord|);
    for i := 0 to |firstWord|
      invariant forall k :: 0 <= k < i ==>
        grid[firstRow, firstCol + k] == Some(Square(firstWord[k], if k == 0 then Some(clueNumber) else None))
      invariant forall r, c :: 0 <= r < GRID_SIZE && 0 <= c < GRID_SIZE && !(r == firstRow && firstCol <= c < firstCol + i) ==>
        grid[r, c].None?
    {
      grid[firstRow, firstCol + i] := Some(Square(firstWord[i], if i == 0 then Some(clueNumber) else None));
    }
    var cells := GetCellsForWord(firstRow, firstCol, |firstWord|, Across);
    seed := Placement(entry, firstRow, firstCol, Across, clueNumber, |firstWord|, cells);
    SeedWritten(grid, seed);
  }

  /** A grid holding the seed's letters across its squares, the clue number
      on the first, and nothing else, is the grid the seed alone makes. */
  lemma SeedWritten(grid: Grid, seed: Placement)
    requires IsGrid(grid) && |seed.word.word| <= GRID_SIZE
    requires seed == SeedPlacement(seed.word)
    requires forall k :: 0 <= k < seed.length ==>
      grid[seed.row, seed.col + k] == Some(Square(Upper(seed.word.word)[k], if k == 0 then Some(1) else None))
    requires forall r, c ::
      0 <= r < GRID_SIZE && 0 <= c < GRID_SIZE && !(r == seed.row && seed.col <= c < seed.col + seed.length) ==>
        grid[r, c].None?
    ensures GridIs(grid, [seed]) && WellPlaced(grid, [seed])
  {
    SeedFits(seed.length);
    forall i | 0 <= i < seed.length ensures LetterAt(grid, seed.cells[i]) == Some(Upper(seed.word.word)[i]) {
      assert seed.cells[i] == Pos(seed.row, seed.col + i);
    }
    CoveredSquares(seed.row, seed.col, seed.length, Across);
    PlacingExtends(grid, [], seed);
  }

  /** One pass of the `while (!placed && attempts < 150)` loop, try `a`:
      when `findIntersection` finds a crossing with the placement `pick`
      selects and `canPlaceWord` accepts it, the word is written there and
      numbered next (`TryAt` says which placement that is); otherwise the
      grid is untouched. */
  method TryOnce(grid: Grid, placements: seq<Placement>, entry: Word, index: nat, pick: (nat, nat) -> nat, a: nat)
    returns (placed: Option<Placement>)
    requires GridIs(grid, placements) && WellPlaced(grid, placements) && placements != []
    modifies grid
    ensures placed == TryAt(placements, entry, index, pick, a)
    ensures placed.None? ==>
      GridIs(grid, placements) && WellPlaced(grid, placements) &&
      forall r, c :: 0 <= r < GRID_SIZE && 0 <= c < GRID_SIZE ==> grid[r, c] == old(grid[r, c])
    ensures placed.Some? ==>
      GridIs(grid, placements + [placed.value]) && WellPlaced(grid, placements + [placed.value]) &&
      (exists j :: 0 <= j < |placements| && Crosses(placed.value, placements[j])) &&
      forall r, c :: 0 <= r < GRID_SIZE && 0 <= c < GRID_SIZE && Pos(r, c) !in placed.value.cells ==>
        grid[r, c] == old(grid[r, c])
  {
    var word := Upper(entry.word);
    var e := pick(index, a) % |placements|;
    var existing := placements[e];
    var intersection := FindIntersection(word, existing);
    TryAtAgrees(grid, placements, entry, index, pick, a);
    placed := None;
    if intersection.Some? {
      var an := intersection.value;
      var ok := CanPlaceWord(grid, word, an.row, an.col, an.dir);
      if ok {
        label pre:
        AddCrossing(grid, placements, entry, an, e, |placements| + 1);
        var cells := GetCellsForWord(an.row, an.col, |word|, an.dir);
        placed := Some(Placement(entry, an.row, an.col, an.dir, |placements| + 1, |word|, cells));
        assert placed.value == Placement(entry, an.row, an.col, an.dir, |placements| + 1, |entry.word|,
                                         WordCells(an.row, an.col, |entry.word|, an.dir));
        assert (placements + [placed.value])[|placements|] == placed.value;
        assert PlacedAt(grid, placed.value);
        assert Crosses(placed.value, placements[e]);
        forall r, c | 0 <= r < GRID_SIZE && 0 <= c < GRID_SIZE && Pos(r, c) !in cells
          ensures LetterAt(grid, Pos(r, c)) == Content(placements, Pos(r, c))
        {
          assert old@pre(LetterAt(grid, Pos(r, c))) == Content(placements, Pos(r, c));
        }
        PlacingExtends(grid, placements, placed.value);
      }
    }
  }

  /** One word's turn (`Turn`): up to 150 tries, each against the placement
      `pick(index, attempt)` selects; the word is appended at the first try
      that finds a crossing `canPlaceWord` accepts, and only its own squares
      change; when no try does, the word is dropped and the grid is left as
      it was. */
  method PlaceWord(grid: Grid, placements: seq<Placement>, entry: Word, index: nat, pick: (nat, nat) -> nat)
    returns (result: seq<Placement>)
    requires GridIs(grid, placements) && WellPlaced(grid, placements) && placements != []
    modifies grid
    ensures result == Turn(placements, entry, index, pick)
    ensures GridIs(grid, result) && WellPlaced(grid, result)
    ensures |result| == |placements| || |result| == |placements| + 1
    ensures forall k :: 0 <= k < |placements| ==> result[k] == placements[k]
    ensures |result| > |placements| ==> result[|placements|].word == entry
    ensures |result| > |placements| ==> exists j :: 0 <= j < |placements| && Crosses(result[|placements|], result[j])
    ensures |result| > |placements| ==>
      forall r, c :: 0 <= r < GRID_SIZE && 0 <= c < GRID_SIZE && Pos(r, c) !in result[|placements|].cells ==>
        grid[r, c] == old(grid[r, c])
    ensures |result| == |placements| ==>
      (forall r, c :: 0 <= r < GRID_SIZE && 0 <= c < GRID_SIZE ==> grid[r, c] == old(grid[r, c])) &&
      forall a :: 0 <= a < MAX_ATTEMPTS ==> !Accepted(grid, placements, entry, index, pick, a)
  {
    ghost var first := FirstFit(placements, entry, index, pick, 0);
    var placed: Option<Placement> := None;
    var attempts := 0;
    result := placements;
    while placed.None? && attempts < MAX_ATTEMPTS
      invariant 0 <= attempts <= MAX_ATTEMPTS
      invariant placed.None? ==>
        result == placements && GridIs(grid, placements) && WellPlaced(grid, placements) && first >= attempts &&
        forall r, c :: 0 <= r < GRID_SIZE && 0 <= c < GRID_SIZE ==> grid[r, c] == old(grid[r, c])
      invariant placed.Some? ==>
        first < MAX_ATTEMPTS && placed == TryAt(placements, entry, index, pick, first) &&
        result == placements + [placed.value] &&
        GridIs(grid, result) && WellPlaced(grid, result) &&
        (exists j :: 0 <= j < |placements| && Crosses(placed.value, placements[j])) &&
        forall r, c :: 0 <= r < GRID_SIZE && 0 <= c < GRID_SIZE && Pos(r, c) !in placed.value.cells ==>
          grid[r, c] == old(grid[r, c])
      decreases MAX_ATTEMPTS - attempts
    {
      FirstFitStep(placements, entry, index, pick, attempts);
      placed := TryOnce(grid, placements, entry, index, pick, attempts);
      if placed.Some? {
        result := placements + [placed.value];
      }
      attempts := attempts + 1;
    }
    if placed.None? {
      NoTryFits(grid, placements, entry, index, pick);
    } else {
      assert forall k :: 0 <= k < |placements| ==> result[k] == placements[k];
    }
  }

  /** One successful try: the word goes into the grid, only its own squares
      change, and the placements stay well placed once it is appended,
      crossing the placement it was found against. */
  method AddCrossing(grid: Grid, placements: seq<Placement>, entry: Word, a: Anchor, e: nat, clueNumber: nat)
    requires IsGrid(grid) && WellPlaced(grid, placements)
    requires e < |placements| && clueNumber == |placements| + 1
    requires Placeable(grid, Upper(entry.word), a.row, a.col, a.dir)
    requires exists i, j :: IsCrossing(Upper(entry.word), Upper(placements[e].word.word), placements[e], i, j) &&
                            a == CrossingAnchor(placements[e], i, j) &&
                            CellAt(a.row, a.col, a.dir, i) == CellAt(placements[e].row, placements[e].col, placements[e].direction, j)
    modifies grid
    ensures var p := Placement(entry, a.row, a.col, a.dir, clueNumber, |entry.word|, WordCells(a.row, a.col, |entry.word|, a.dir));
      WellPlaced(grid, placements + [p]) && Crosses(p, placements[e]) &&
      forall r, c :: 0 <= r < GRID_SIZE && 0 <= c < GRID_SIZE && Pos(r, c) !in p.cells ==> grid[r, c] == old(grid[r, c])
  {
    var word := Upper(entry.word);
    ghost var before := seq(|word|, i requires 0 <= i < |word| reads grid => LetterAt(grid, CellAt(a.row, a.col, a.dir, i)));
    forall i | 0 <= i < |word|
      ensures InGrid(CellAt(a.row, a.col, a.dir, i)) && (before[i].Some? ==> before[i] == Some(word[i]))
    {
      assert AgreesAt(grid, word, a.row, a.col, a.dir, i);
    }
    PlaceWordInGrid(grid, word, a.row, a.col, a.dir, clueNumber, placements);
    var p := Placement(entry, a.row, a.col, a.dir, clueNumber, |entry.word|, WordCells(a.row, a.col, |entry.word|, a.dir));
    forall i | 0 <= i < p.length ensures LetterAt(grid, p.cells[i]) == Some(word[i]) {
      assert before[i].Some? ==> before[i] == Some(word[i]);
    }
    var x, y :| IsCrossing(word, Upper(placements[e].word.word), placements[e], x, y) &&
                a == CrossingAnchor(placements[e], x, y) &&
                CellAt(a.row, a.col, a.dir, x) == CellAt(placements[e].row, placements[e].col, placements[e].direction, y);
    assert old(PlacedAt(grid, placements[e]));
    assert p.cells[x] == placements[e].cells[y];
    CoveredSquares(a.row, a.col, |word|, a.dir);
  }
}
