/** The word-search generator: the drawn words are laid on a 12×12 board in
    any of eight directions, longest first, and the squares left empty are
    filled from a vowel-weighted alphabet. */
module WordSearchBuilder {
  import opened Common

  const GRID_SIZE: int := 12
  const MAX_ATTEMPTS: nat := 200
  /** The filler alphabet; A, E, I, O and U appear twice. */
  const LETTERS: string := "AABCDEEFGHIIJKLMNOOPQRSTUUVWXYZ"

  /** A step between neighbouring squares: `dx` along a row, `dy` down a column. */
  datatype Direction = Direction(dx: int, dy: int)

  /** The eight directions, in the order the generator draws from. */
  const DIRECTIONS: seq<Direction> := [
    Direction(1, 0), Direction(0, 1), Direction(1, 1), Direction(1, -1),
    Direction(-1, 0), Direction(0, -1), Direction(-1, -1), Direction(-1, 1)]

  /** A step to one of the eight neighbouring squares, which is exactly
      one of `DIRECTIONS`. */
  predicate IsUnitStep(d: Direction)
  {
    -1 <= d.dx <= 1 && -1 <= d.dy <= 1 && (d.dx != 0 || d.dy != 0)
  }

  /** A board square holds a letter or is still empty (`''`). */
  type Board = array2<Option<char>>

  predicate IsBoard(g: Board)
  {
    g.Length0 == GRID_SIZE && g.Length1 == GRID_SIZE
  }

  predicate InGrid(p: Pos)
  {
    0 <= p.row < GRID_SIZE && 0 <= p.col < GRID_SIZE
  }

  /** The `i`-th square of a word laid from `start` in direction `d`. */
  function CellAt(start: Pos, d: Direction, i: int): Pos
  {
    Pos(start.row + d.dy * i, start.col + d.dx * i)
  }

  /** The squares of a word of `n` letters, in reading order. */
  function PathCells(start: Pos, d: Direction, n: nat): (r: seq<Pos>)
    ensures |r| == n
    ensures forall i :: 0 <= i < n ==> r[i] == CellAt(start, d, i)
  {
    if n == 0 then [] else PathCells(start, d, n - 1) + [CellAt(start, d, n - 1)]
  }

  /** A unit step times `i` is `i`, `-i` or 0. */
  lemma UnitTimes(s: int, i: int)
    requires -1 <= s <= 1
    ensures s * i == if s == 1 then i else if s == -1 then -i else 0
  {
  }

  /** A square between two on-board squares of a straight line is on the board. */
  lemma CellsBetween(start: Pos, d: Direction, n: nat, i: int)
    requires IsUnitStep(d) && InGrid(start) && InGrid(CellAt(start, d, n - 1)) && 0 <= i < n
    ensures InGrid(CellAt(start, d, i))
  {
    UnitTimes(d.dy, i);
    UnitTimes(d.dy, n - 1);
    UnitTimes(d.dx, i);
    UnitTimes(d.dx, n - 1);
  }

  /** Different letters of a word land on different squares. */
  lemma CellsApart(start: Pos, d: Direction, i: int, j: int)
    requires IsUnitStep(d) && i != j
    ensures CellAt(start, d, i) != CellAt(start, d, j)
  {
    UnitTimes(d.dy, i);
    UnitTimes(d.dy, j);
    UnitTimes(d.dx, i);
    UnitTimes(d.dx, j);
  }

  /** The word's last square is on the board. */
  predicate EndsInGrid(word: string, start: Pos, d: Direction)
  {
    InGrid(CellAt(start, d, |word| - 1))
  }

  /** Letter `i` may go on its square: the square is on the board, empty or
      already holding that letter, and a square used by an earlier word
      holds that letter. */
  predicate Fits(g: Board, word: string, start: Pos, d: Direction, used: set<Pos>, i: int)
    reads g
    requires IsBoard(g) && 0 <= i < |word|
  {
    var c := CellAt(start, d, i);
    InGrid(c) &&
    (g[c.row, c.col].None? || g[c.row, c.col] == Some(word[i])) &&
    !(c in used && g[c.row, c.col] != Some(word[i]))
  }

  /** `canPlaceWord`: the last letter's square is on the board and every
      letter fits. */
  predicate Placeable(g: Board, word: string, start: Pos, d: Direction, used: set<Pos>)
    reads g
    requires IsBoard(g)
  {
    EndsInGrid(word, start, d) &&
    forall i :: 0 <= i < |word| ==> Fits(g, word, start, d, used, i)
  }

  /** `canPlaceWord`: only the last letter's square is bounds-checked, yet
      with an on-board start every square in between is on the board too
      (`CellsBetween`), so the answer is exactly `Placeable`. */
  method CanPlaceWord(g: Board, word: string, start: Pos, d: Direction, used: set<Pos>) returns (ok: bool)
    requires IsBoard(g) && InGrid(start) && IsUnitStep(d)
    ensures ok <==> Placeable(g, word, start, d, used)
  {
    if !InGrid(CellAt(start, d, |word| - 1)) {
      return false;
    }
    for i := 0 to |word|
      invariant forall k :: 0 <= k < i ==> Fits(g, word, start, d, used, k)
    {
      CellsBetween(start, d, |word|, i);
      var c := CellAt(start, d, i);
      if g[c.row, c.col].Some? && g[c.row, c.col] != Some(word[i]) {
        assert !Fits(g, word, start, d, used, i);
        return false;
      }
      if c in used && g[c.row, c.col] != Some(word[i]) {
        assert !Fits(g, word, start, d, used, i);
        return false;
      }
    }
    return true;
  }

  /** Every used square is filled (the generator keeps this), so the
      overlap test never rejects a word the emptiness test accepts. */
  lemma OverlapTestRedundant(g: Board, word: string, start: Pos, d: Direction, used: set<Pos>)
    requires IsBoard(g) && UsedIsFilled(g, used)
    ensures Placeable(g, word, start, d, used) <==> Placeable(g, word, start, d, {})
  {
    forall i | 0 <= i < |word| ensures Fits(g, word, start, d, used, i) <==> Fits(g, word, start, d, {}, i) {
      var c := CellAt(start, d, i);
      if InGrid(c) && c in used {
        assert g[c.row, c.col].Some?;
      }
    }
  }

  /** `placeWord`, called once `canPlaceWord` has accepted the squares:
      writes the word's letters along its squares, returns those squares in
      order and adds them to the used set; no filled square changes, and
      the used set is still exactly the filled squares. */
  method PlaceWord(g: Board, word: string, start: Pos, d: Direction, used: set<Pos>)
    returns (positions: seq<Pos>, newUsed: set<Pos>)
    requires IsBoard(g) && IsUnitStep(d) && Placeable(g, word, start, d, used) && UsedIsFilled(g, used)
    modifies g
    ensures positions == PathCells(start, d, |word|)
    ensures newUsed == used + set p | p in positions
    ensures PlacedOn(g, Placement(word, start, d, positions))
    ensures forall r, c :: 0 <= r < GRID_SIZE && 0 <= c < GRID_SIZE && Pos(r, c) !in positions ==>
      g[r, c] == old(g[r, c])
    ensures Keeps(g)
    ensures UsedIsFilled(g, newUsed)
  {
    forall i | 0 <= i < |word| ensures InGrid(CellAt(start, d, i)) {
      assert Fits(g, word, start, d, used, i);
    }
    positions := WriteLetters(g, word, start, d);
    newUsed := used + set p | p in positions;
    forall r, c | 0 <= r < GRID_SIZE && 0 <= c < GRID_SIZE && old(g[r, c]).Some?
      ensures g[r, c] == old(g[r, c])
    {
      if Pos(r, c) in positions {
        var k :| 0 <= k < |positions| && positions[k] == Pos(r, c);
        assert old(Fits(g, word, start, d, used, k));
      }
    }
    forall p ensures p in newUsed <==> InGrid(p) && g[p.row, p.col].Some? {
      if p in used {
        assert old(g[p.row, p.col]).Some?;
      }
    }
  }

  /** The writing loop of `placeWord`: each letter goes on its square and
      no other square changes. */
  method WriteLetters(g: Board, word: string, start: Pos, d: Direction) returns (positions: seq<Pos>)
    requires IsBoard(g) && IsUnitStep(d)
    requires forall i :: 0 <= i < |word| ==> InGrid(CellAt(start, d, i))
    modifies g
    ensures positions == PathCells(start, d, |word|)
    ensures forall k :: 0 <= k < |word| ==>
      InGrid(positions[k]) && g[positions[k].row, positions[k].col] == Some(word[k])
    ensures forall r, c :: 0 <= r < GRID_SIZE && 0 <= c < GRID_SIZE && Pos(r, c) !in positions ==>
      g[r, c] == old(g[r, c])
  {
    positions := [];
    for i := 0 to |word|
      invariant positions == PathCells(start, d, i)
      invariant forall k :: 0 <= k < i ==> InGrid(positions[k]) && g[positions[k].row, positions[k].col] == Some(word[k])
      invariant forall r, c :: 0 <= r < GRID_SIZE && 0 <= c < GRID_SIZE && Pos(r, c) !in positions ==>
        g[r, c] == old(g[r, c])
    {
      var c := CellAt(start, d, i);
      forall k | 0 <= k < i ensures positions[k] != c {
        CellsApart(start, d, k, i);
      }
      g[c.row, c.col] := Some(word[i]);
      positions := positions + [c];
    }
  }

  /** One random draw: one of the eight directions and a starting square
      (`Math.floor(Math.random() * n)` picks each within its range). */
  datatype Trial = Trial(direction: UnitStep, row: GridIndex, col: GridIndex)

  type UnitStep = d: Direction | IsUnitStep(d) witness Direction(1, 0)
  type GridIndex = k: int | 0 <= k < GRID_SIZE

  /** The unit steps are exactly the eight directions the generator draws
      from. */
  lemma UnitStepsAreDirections(d: Direction)
    ensures IsUnitStep(d) <==> d in DIRECTIONS
  {
  }

  function TrialDirection(t: Trial): (d: Direction)
    ensures IsUnitStep(d)
  {
    t.direction
  }

  function TrialStart(t: Trial): (p: Pos)
    ensures InGrid(p)
  {
    Pos(t.row, t.col)
  }

  /** A placed word: its text, start square, direction and squares. */
  datatype Placement = Placement(word: string, start: Pos, direction: Direction, positions: seq<Pos>)

  /** The word's letters lie on its squares of the board. */
  predicate PlacedOn(g: Board, p: Placement)
    reads g
    requires IsBoard(g)
  {
    p.positions == PathCells(p.start, p.direction, |p.word|) &&
    forall i :: 0 <= i < |p.word| ==>
      InGrid(p.positions[i]) && g[p.positions[i].row, p.positions[i].col] == Some(p.word[i])
  }

  /** The used set is exactly the set of filled squares. */
  ghost predicate UsedIsFilled(g: Board, used: set<Pos>)
    reads g
    requires IsBoard(g)
  {
    forall p :: p in used <==> InGrid(p) && g[p.row, p.col].Some?
  }

  /** No filled square changes. */
  twostate predicate Keeps(g: Board)
    reads g
    requires IsBoard(g)
  {
    forall r, c :: 0 <= r < GRID_SIZE && 0 <= c < GRID_SIZE && old(g[r, c]).Some? ==> g[r, c] == old(g[r, c])
  }

  /** The letter placement `q` puts on square `p`, if it covers it. */
  function LetterOf(q: Placement, p: Pos): Option<char>
  {
    var k := IndexOf(q.positions, p);
    if 0 <= k < |q.word| then Some(q.word[k]) else None
  }

  /** The board the placements make before the fill: a square holds the
      letter of the last placement covering it and is empty when none does. */
  function Content(ps: seq<Placement>, p: Pos): (r: Option<char>)
    ensures r.None? <==> forall k :: 0 <= k < |ps| ==> LetterOf(ps[k], p).None?
  {
    if ps == [] then None
    else if LetterOf(ps[|ps| - 1], p).Some? then LetterOf(ps[|ps| - 1], p)
    else
      var r := Content(ps[..|ps| - 1], p);
      assert forall k :: 0 <= k < |ps| - 1 ==> ps[..|ps| - 1][k] == ps[k];
      r
  }

  lemma ContentAppend(ps: seq<Placement>, q: Placement, p: Pos)
    ensures Content(ps + [q], p) == if LetterOf(q, p).Some? then LetterOf(q, p) else Content(ps, p)
  {
    assert (ps + [q])[..|ps|] == ps;
  }

  /** The board holds exactly what the placements `ps` make. */
  predicate BoardIs(g: Board, ps: seq<Placement>)
    reads g
    requires IsBoard(g)
  {
    forall r, c {:trigger Content(ps, Pos(r, c))} ::
      0 <= r < GRID_SIZE && 0 <= c < GRID_SIZE ==> g[r, c] == Content(ps, Pos(r, c))
  }

  /** `Fits` (without the overlap test, see `OverlapTestRedundant`), asked
      of the board the placements make. */
  predicate FitsIn(ps: seq<Placement>, word: string, start: Pos, d: Direction, i: int)
    requires 0 <= i < |word|
  {
    var c := CellAt(start, d, i);
    InGrid(c) && (Content(ps, c).None? || Content(ps, c) == Some(word[i]))
  }

  /** `Placeable`, asked of the board the placements make. */
  predicate PlaceableIn(ps: seq<Placement>, word: string, start: Pos, d: Direction)
  {
    EndsInGrid(word, start, d) &&
    forall i :: 0 <= i < |word| ==> FitsIn(ps, word, start, d, i)
  }

  /** On a board made by `ps`, with the used set the filled squares, the
      generator's test and `PlaceableIn` agree. */
  lemma PlaceableTransfer(g: Board, ps: seq<Placement>, used: set<Pos>, word: string, start: Pos, d: Direction)
    requires IsBoard(g) && BoardIs(g, ps) && UsedIsFilled(g, used)
    ensures Placeable(g, word, start, d, used) <==> PlaceableIn(ps, word, start, d)
  {
    OverlapTestRedundant(g, word, start, d, used);
    forall i | 0 <= i < |word|
      ensures Fits(g, word, start, d, {}, i) <==> FitsIn(ps, word, start, d, i)
    {
      var c := CellAt(start, d, i);
      if InGrid(c) {
        assert g[c.row, c.col] == Content(ps, Pos(c.row, c.col));
      }
    }
  }

  /** Draw `a` for the `index`-th word against the board `ps` makes: the
      placement it yields when the word fits there. */
  function TryAt(ps: seq<Placement>, word: string, index: nat, trial: (nat, nat) -> Trial, a: nat): (r: Option<Placement>)
    ensures r.Some? ==> r.value.word == word
  {
    var start, d := TrialStart(trial(index, a)), TrialDirection(trial(index, a));
    if PlaceableIn(ps, word, start, d) then Some(Placement(word, start, d, PathCells(start, d, |word|))) else None
  }

  /** The first of draws `from` .. 199 at which the word fits, or 200 when
      none does. */
  function FirstFit(ps: seq<Placement>, word: string, index: nat, trial: (nat, nat) -> Trial, from: nat): (a: nat)
    requires from <= MAX_ATTEMPTS
    ensures from <= a <= MAX_ATTEMPTS
    ensures a < MAX_ATTEMPTS ==> TryAt(ps, word, index, trial, a).Some?
    decreases MAX_ATTEMPTS - from
  {
    if from == MAX_ATTEMPTS || TryAt(ps, word, index, trial, from).Some? then from
    else FirstFit(ps, word, index, trial, from + 1)
  }

  /** No draw before the first fit fits. */
  lemma {:induction false} FirstFitIsFirst(ps: seq<Placement>, word: string, index: nat, trial: (nat, nat) -> Trial, from: nat)
    requires from <= MAX_ATTEMPTS
    ensures forall a :: from <= a < FirstFit(ps, word, index, trial, from) ==> TryAt(ps, word, index, trial, a).None?
    decreases MAX_ATTEMPTS - from
  {
    if from < MAX_ATTEMPTS && TryAt(ps, word, index, trial, from).None? {
      FirstFitIsFirst(ps, word, index, trial, from + 1);
    }
  }

  /** The `index`-th word's turn: the placements grow by the first draw
      that fits, and stay as they are when none of the 200 draws does. */
  function Turn(ps: seq<Placement>, word: string, index: nat, trial: (nat, nat) -> Trial): (r: seq<Placement>)
    ensures r == ps || (|r| == |ps| + 1 && r[..|ps|] == ps && r[|ps|].word == word)
  {
    var a := FirstFit(ps, word, index, trial, 0);
    if a < MAX_ATTEMPTS then ps + [TryAt(ps, word, index, trial, a).value] else ps
  }

  /** A word is left out exactly when none of its 200 draws fits the board
      the earlier words made, and otherwise goes where the first draw that
      fits puts it. */
  lemma TurnChoice(ps: seq<Placement>, word: string, index: nat, trial: (nat, nat) -> Trial)
    ensures var r := Turn(ps, word, index, trial);
      (r == ps <==> forall a :: 0 <= a < MAX_ATTEMPTS ==> TryAt(ps, word, index, trial, a).None?) &&
      (r != ps ==>
        exists a :: 0 <= a < MAX_ATTEMPTS && TryAt(ps, word, index, trial, a).Some? &&
          r == ps + [TryAt(ps, word, index, trial, a).value] &&
          (forall a' :: 0 <= a' < a ==> TryAt(ps, word, index, trial, a').None?))
  {
    FirstFitIsFirst(ps, word, index, trial, 0);
    var a := FirstFit(ps, word, index, trial, 0);
    if a < MAX_ATTEMPTS {
      assert |Turn(ps, word, index, trial)| != |ps|;
    }
  }

  /** The placements after the first `n` words of `sorted` have had their turn. */
  function Layout(sorted: seq<string>, trial: (nat, nat) -> Trial, n: nat): seq<Placement>
    requires n <= |sorted|
  {
    if n == 0 then [] else Turn(Layout(sorted, trial, n - 1), sorted[n - 1], n - 1, trial)
  }

  /** Draw `a` on a board made by `ps` is accepted by the generator's own
      test exactly when `TryAt` yields a placement, and yields this one. */
  lemma TryAtAgrees(g: Board, ps: seq<Placement>, used: set<Pos>, word: string, index: nat,
                    trial: (nat, nat) -> Trial, a: nat)
    requires IsBoard(g) && BoardIs(g, ps) && UsedIsFilled(g, used)
    ensures var start, d := TrialStart(trial(index, a)), TrialDirection(trial(index, a));
      TryAt(ps, word, index, trial, a) ==
        if Placeable(g, word, start, d, used) then Some(Placement(word, start, d, PathCells(start, d, |word|)))
        else None
  {
    PlaceableTransfer(g, ps, used, word, TrialStart(trial(index, a)), TrialDirection(trial(index, a)));
  }

  /** When no draw fits the board `ps` makes, the generator's own test
      rejects every draw. */
  lemma NoDrawFits(g: Board, ps: seq<Placement>, used: set<Pos>, word: string, index: nat, trial: (nat, nat) -> Trial)
    requires IsBoard(g) && BoardIs(g, ps) && UsedIsFilled(g, used)
    requires FirstFit(ps, word, index, trial, 0) == MAX_ATTEMPTS
    ensures forall a :: 0 <= a < MAX_ATTEMPTS ==>
      !Placeable(g, word, TrialStart(trial(index, a)), TrialDirection(trial(index, a)), used)
  {
    FirstFitIsFirst(ps, word, index, trial, 0);
    forall a | 0 <= a < MAX_ATTEMPTS
      ensures !Placeable(g, word, TrialStart(trial(index, a)), TrialDirection(trial(index, a)), used)
    {
      TryAtAgrees(g, ps, used, word, index, trial, a);
    }
  }

  /** Scanning the draws in order: when no draw before `a` fits, draw `a`
      is the first fit exactly when it fits itself. */
  lemma FirstFitStep(ps: seq<Placement>, word: string, index: nat, trial: (nat, nat) -> Trial, a: nat)
    requires a < MAX_ATTEMPTS && FirstFit(ps, word, index, trial, 0) >= a
    ensures TryAt(ps, word, index, trial, a).Some? ==> FirstFit(ps, word, index, trial, 0) == a
    ensures TryAt(ps, word, index, trial, a).None? ==> FirstFit(ps, word, index, trial, 0) > a
  {
    FirstFitIsFirst(ps, word, index, trial, 0);
  }

  /** A board made by `ps` on which placement `q` is written, every other
      square untouched, is the board `ps + [q]` makes. */
  lemma PlacingExtends(g: Board, ps: seq<Placement>, q: Placement)
    requires IsBoard(g) && PlacedOn(g, q)
    requires forall r, c :: 0 <= r < GRID_SIZE && 0 <= c < GRID_SIZE && Pos(r, c) !in q.positions ==>
      g[r, c] == Content(ps, Pos(r, c))
    ensures BoardIs(g, ps + [q])
  {
    forall r, c | 0 <= r < GRID_SIZE && 0 <= c < GRID_SIZE ensures g[r, c] == Content(ps + [q], Pos(r, c)) {
      ContentAppend(ps, q, Pos(r, c));
      var k := IndexOf(q.positions, Pos(r, c));
      if k >= 0 {
        assert q.positions[k] == Pos(r, c);
      }
    }
  }

  /** One pass of that loop, draw `a`: when `canPlaceWord` accepts the
      drawn square and direction the word is written there (`TryAt` says
      which placement that is), otherwise nothing changes. */
  method Draw(g: Board, word: string, index: nat, used: set<Pos>, trial: (nat, nat) -> Trial,
              ghost ps: seq<Placement>, a: nat)
    returns (placed: Option<Placement>, newUsed: set<Pos>)
    requires IsBoard(g) && UsedIsFilled(g, used) && BoardIs(g, ps)
    modifies g
    ensures placed == TryAt(ps, word, index, trial, a)
    ensures UsedIsFilled(g, newUsed)
    ensures Keeps(g)
    ensures placed.None? ==>
      newUsed == used && forall r, c :: 0 <= r < GRID_SIZE && 0 <= c < GRID_SIZE ==> g[r, c] == old(g[r, c])
    ensures placed.Some? ==>
      BoardIs(g, ps + [placed.value]) && placed.value.word == word && PlacedOn(g, placed.value) &&
      newUsed == used + (set p | p in placed.value.positions) &&
      forall r, c :: 0 <= r < GRID_SIZE && 0 <= c < GRID_SIZE && Pos(r, c) !in placed.value.positions ==>
        g[r, c] == old(g[r, c])
  {
    var t := trial(index, a);
    var d := TrialDirection(t);
    var start := TrialStart(t);
    var ok := CanPlaceWord(g, word, start, d, used);
    TryAtAgrees(g, ps, used, word, index, trial, a);
    placed, newUsed := None, used;
    if ok {
      var positions, u := PlaceWord(g, word, start, d, used);
      placed := Some(Placement(word, start, d, positions));
      PlacingExtends(g, ps, placed.value);
      newUsed := u;
    }
  }

  /** The `while (!placed && attempts < maxAttempts)` loop for one word,
      which is the `index`-th in placement order, on the board the earlier
      placements `ps` made: the word goes where the first of up to 200 draws
      fits (`FirstFit`), its squares join the used set and no other square
      changes; when none fits the board and the used set are left as they
      were. */
  method PlaceOne(g: Board, word: string, index: nat, used: set<Pos>, trial: (nat, nat) -> Trial,
                  ghost ps: seq<Placement>)
    returns (placed: Option<Placement>, newUsed: set<Pos>)
    requires IsBoard(g) && UsedIsFilled(g, used) && BoardIs(g, ps)
    modifies g
    ensures var a := FirstFit(ps, word, index, trial, 0);
      placed == if a < MAX_ATTEMPTS then TryAt(ps, word, index, trial, a) else None
    ensures BoardIs(g, if placed.Some? then ps + [placed.value] else ps)
    ensures UsedIsFilled(g, newUsed)
    ensures Keeps(g)
    ensures placed.None? ==>
      newUsed == used &&
      (forall r, c :: 0 <= r < GRID_SIZE && 0 <= c < GRID_SIZE ==> g[r, c] == old(g[r, c])) &&
      forall a :: 0 <= a < MAX_ATTEMPTS ==>
        !Placeable(g, word, TrialStart(trial(index, a)), TrialDirection(trial(index, a)), used)
    ensures placed.Some? ==>
      placed.value.word == word && PlacedOn(g, placed.value) &&
      newUsed == used + (set p | p in placed.value.positions) &&
      forall r, c :: 0 <= r < GRID_SIZE && 0 <= c < GRID_SIZE && Pos(r, c) !in placed.value.positions ==>
        g[r, c] == old(g[r, c])
  {
    ghost var first := FirstFit(ps, word, index, trial, 0);
    placed := None;
    newUsed := used;
    var attempts := 0;
    while placed.None? && attempts < MAX_ATTEMPTS
      invariant 0 <= attempts <= MAX_ATTEMPTS
      invariant UsedIsFilled(g, newUsed)
      invariant Keeps(g)
      invariant placed.None? ==>
        newUsed == used && BoardIs(g, ps) && first >= attempts &&
        forall r, c :: 0 <= r < GRID_SIZE && 0 <= c < GRID_SIZE ==> g[r, c] == old(g[r, c])
      invariant placed.Some? ==>
        first < MAX_ATTEMPTS && placed == TryAt(ps, word, index, trial, first) &&
        BoardIs(g, ps + [placed.value]) &&
        placed.value.word == word && PlacedOn(g, placed.value) &&
        newUsed == used + (set p | p in placed.value.positions) &&
        forall r, c :: 0 <= r < GRID_SIZE && 0 <= c < GRID_SIZE && Pos(r, c) !in placed.value.positions ==>
          g[r, c] == old(g[r, c])
      decreases MAX_ATTEMPTS - attempts, placed.None?
    {
      FirstFitStep(ps, word, index, trial, attempts);
      placed, newUsed := Draw(g, word, index, used, trial, ps, attempts);
      attempts := attempts + 1;
    }
    if placed.None? {
      NoDrawFits(g, ps, used, word, index, trial);
    }
  }

  /** The placement order: longest first, ties in draw order. */
  function LongestFirst(words: seq<string>): (r: seq<string>)
    ensures multiset(r) == multiset(words)
    ensures forall i, j :: 0 <= i < j < |r| ==> |r[i]| >= |r[j]|
  {
    SortDesc(words, (w: string) => |w|)
  }

  /** The turn of word `n` in terms of what its draws gave. */
  lemma LayoutNext(sorted: seq<string>, trial: (nat, nat) -> Trial, n: nat, placed: Option<Placement>)
    requires n < |sorted|
    requires var a := FirstFit(Layout(sorted, trial, n), sorted[n], n, trial, 0);
      placed == if a < MAX_ATTEMPTS then TryAt(Layout(sorted, trial, n), sorted[n], n, trial, a) else None
    ensures Layout(sorted, trial, n + 1) ==
      if placed.Some? then Layout(sorted, trial, n) + [placed.value] else Layout(sorted, trial, n)
  {
  }

  /** A turn keeps the earlier placements and adds at most one, of its own
      word. */
  lemma LayoutStep(sorted: seq<string>, trial: (nat, nat) -> Trial, n: nat)
    requires 0 < n <= |sorted|
    ensures var ps, r := Layout(sorted, trial, n - 1), Layout(sorted, trial, n);
      r == ps || (|r| == |ps| + 1 && r[|ps|].word == sorted[n - 1] && forall k :: 0 <= k < |ps| ==> r[k] == ps[k])
  {
    var ps, r := Layout(sorted, trial, n - 1), Layout(sorted, trial, n);
    if r != ps {
      assert forall k :: 0 <= k < |ps| ==> r[..|ps|][k] == r[k];
    }
  }

  /** Which words of `sorted` the first `n` turns kept, in order: the
      placements are those words, in the order they were drawn. */
  function Kept(sorted: seq<string>, trial: (nat, nat) -> Trial, n: nat): (ks: seq<nat>)
    requires n <= |sorted|
    ensures |ks| == |Layout(sorted, trial, n)|
    ensures forall k :: 0 <= k < |ks| ==> ks[k] < n && sorted[ks[k]] == Layout(sorted, trial, n)[k].word
    ensures forall j, k :: 0 <= j < k < |ks| ==> ks[j] < ks[k]
  {
    if n == 0 then []
    else
      var ks := Kept(sorted, trial, n - 1);
      LayoutStep(sorted, trial, n);
      if |Layout(sorted, trial, n)| == |Layout(sorted, trial, n - 1)| then ks else ks + [n - 1]
  }

  /** One pass of the `sortedWords.forEach` loop, for word `idx`: its up
      to 200 draws take the placements from `Layout` after `idx` turns to
      `Layout` after `idx + 1`, keeping the board what they make and every
      earlier placement intact. */
  method PlaceTurn(g: Board, sorted: seq<string>, trial: (nat, nat) -> Trial, idx: nat,
                   placements: seq<Placement>, used: set<Pos>)
    returns (placements': seq<Placement>, used': set<Pos>)
    requires idx < |sorted| && IsBoard(g)
    requires placements == Layout(sorted, trial, idx)
    requires BoardIs(g, placements) && UsedIsFilled(g, used)
    requires forall k :: 0 <= k < |placements| ==> PlacedOn(g, placements[k])
    modifies g
    ensures placements' == Layout(sorted, trial, idx + 1)
    ensures BoardIs(g, placements') && UsedIsFilled(g, used')
    ensures forall k :: 0 <= k < |placements'| ==> PlacedOn(g, placements'[k])
  {
    label before:
    var placed, u := PlaceOne(g, sorted[idx], idx, used, trial, placements);
    LayoutNext(sorted, trial, idx, placed);
    forall k | 0 <= k < |placements| ensures PlacedOn(g, placements[k]) {
      assert old@before(PlacedOn(g, placements[k]));
    }
    placements' := if placed.Some? then placements + [placed.value] else placements;
    used' := u;
  }

  /** The `sortedWords.forEach` loop: each word in turn gets its up to 200
      draws (`Layout`); a word that never fits is left out of the
      placements. The board ends up holding exactly what the placements
      make, every placement is intact, and the used set is the filled
      squares. */
  method PlaceAll(g: Board, sorted: seq<string>, trial: (nat, nat) -> Trial)
    returns (placements: seq<Placement>, used: set<Pos>)
    requires IsBoard(g) && UsedIsFilled(g, {})
    modifies g
    ensures placements == Layout(sorted, trial, |sorted|)
    ensures BoardIs(g, placements)
    ensures UsedIsFilled(g, used)
    ensures forall k :: 0 <= k < |placements| ==> PlacedOn(g, placements[k])
  {
    placements := [];
    used := {};
    for idx := 0 to |sorted|
      invariant placements == Layout(sorted, trial, idx)
      invariant BoardIs(g, placements)
      invariant UsedIsFilled(g, used)
      invariant forall k :: 0 <= k < |placements| ==> PlacedOn(g, placements[k])
    {
      placements, used := PlaceTurn(g, sorted, trial, idx, placements, used);
    }
  }

  /** The filler letter a draw picks for an empty square. */
  function FillLetter(filler: (nat, nat) -> nat, r: nat, c: nat): (ch: char)
    ensures ch in LETTERS
  {
    LETTERS[filler(r, c) % |LETTERS|]
  }

  /** What the fill loop leaves in a square that held `before`: a filled
      square keeps its letter, an empty one gets a filler letter. */
  function Fill(before: Option<char>, filler: (nat, nat) -> nat, r: nat, c: nat): (after: Option<char>)
    ensures after.Some?
    ensures before.Some? ==> after == before
    ensures before.None? ==> after.value in LETTERS
  {
    if before.Some? then before else Some(FillLetter(filler, r, c))
  }

  /** The fill loop: every empty square gets a filler letter; filled
      squares keep theirs. */
  method FillBoard(g: Board, filler: (nat, nat) -> nat)
    requires IsBoard(g)
    modifies g
    ensures forall r, c :: 0 <= r < GRID_SIZE && 0 <= c < GRID_SIZE ==>
      g[r, c] == Fill(old(g[r, c]), filler, r, c)
  {
    for i := 0 to GRID_SIZE
      invariant forall r, c :: 0 <= r < i && 0 <= c < GRID_SIZE ==>
        g[r, c] == Fill(old(g[r, c]), filler, r, c)
      invariant forall r, c :: i <= r < GRID_SIZE && 0 <= c < GRID_SIZE ==> g[r, c] == old(g[r, c])
    {
      FillRow(g, i, filler);
    }
  }

  /** One pass of the inner fill loop: row `i` is filled, the other rows
      are left alone. */
  method FillRow(g: Board, i: int, filler: (nat, nat) -> nat)
    requires IsBoard(g) && 0 <= i < GRID_SIZE
    modifies g
    ensures forall c :: 0 <= c < GRID_SIZE ==>
      g[i, c] == Fill(old(g[i, c]), filler, i, c)
    ensures forall r, c :: 0 <= r < GRID_SIZE && 0 <= c < GRID_SIZE && r != i ==> g[r, c] == old(g[r, c])
  {
    for j := 0 to GRID_SIZE
      invariant forall c :: 0 <= c < j ==>
        g[i, c] == Fill(old(g[i, c]), filler, i, c)
      invariant forall r, c :: 0 <= r < GRID_SIZE && 0 <= c < GRID_SIZE && (r != i || c >= j) ==>
        g[r, c] == old(g[r, c])
    {
      g[i, j] := Fill(g[i, j], filler, i, j);
    }
  }

  /** Every square holds a letter. */
  predicate Filled(g: Board)
    reads g
    requires IsBoard(g)
  {
    forall r, c :: 0 <= r < GRID_SIZE && 0 <= c < GRID_SIZE ==> g[r, c].Some?
  }

  /** The board part of `generatePuzzle`: a fresh board on which every
      placement is intact and no square is empty; the placements are words
      of the list, longest first. */
  method BuildBoard(words: seq<string>, trial: (nat, nat) -> Trial, filler: (nat, nat) -> nat)
    returns (g: Board, placements: seq<Placement>)
    ensures fresh(g) && IsBoard(g) && Filled(g)
    ensures forall k :: 0 <= k < |placements| ==> PlacedOn(g, placements[k]) && placements[k].word in words
    ensures forall j, k :: 0 <= j < k < |placements| ==> |placements[j].word| >= |placements[k].word|
    ensures placements == Layout(LongestFirst(words), trial, |words|)
    ensures forall r, c :: 0 <= r < GRID_SIZE && 0 <= c < GRID_SIZE ==>
      g[r, c] == Fill(Content(placements, Pos(r, c)), filler, r, c)
  {
    g := new Option<char>[GRID_SIZE, GRID_SIZE]((r, c) => None);
    var sorted := LongestFirst(words);
    assert |sorted| == |multiset(sorted)| == |words|;
    var used;
    placements, used := PlaceAll(g, sorted, trial);
    FillBoard(g, filler);
    var from := Kept(sorted, trial, |sorted|);
    forall k | 0 <= k < |placements| ensures placements[k].word in words {
      assert sorted[from[k]] in multiset(sorted);
    }
  }
}
