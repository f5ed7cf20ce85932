# Word game screens and progress store, in Dafny

This project models the game logic of a React Native vocabulary app. The app
has five word games, a vocabulary list and a shared progress store:

- **Crossword.** A 9×9 puzzle is built from six words of a level. The player
  types letters into the squares.
- **Word search.** Words are hidden in a 12×12 board in eight directions. The
  player drags across a line of squares to find one.
- **Spelling bee.** A honeycomb of seven letters is built around one word.
  The player submits words that use the centre letter.
- **Anagram.** A word is dealt as shuffled tiles. The player moves tiles into
  an answer row.
- **Word guess.** The player has six tries to type a level word. Each try is
  shown with a status per letter.
- **Vocabulary list.** This screen shows the discovered words of a level, with
  a search box and category chips.
- **VocabularyManager.** This is the word bank (words by level, random draws)
  plus the persisted progress record: discovered word ids per level and
  statistics per game.

Each source file is one Dafny module. `Common` holds the JavaScript built-ins
they share: case mapping, `filter`, `new Set`, stable `sort`, `find`,
`indexOf` and `Math.round` of a percentage.

**Screen state.** Each screen is a class whose fields are the screen's
`useState` values. Each handler is a method that `modifies` the object, and
the `ProgressStore` when it saves. Its postcondition gives the whole new
state.

**Read-only loops.** `getCellsForWord`, `findIntersection`, `canPlaceWord`,
`buildPath`, `getKeyStatus` and similar loops are methods without `modifies`.
Each is proved against a specification function or predicate.

**Grids.** The crossword and word-search grids are `array2`s written in
place.

**Storage.** The device's key-value storage is a map held by a
`ProgressStore` object.

**Randomness.** Every `Math.random` draw is a supplied choice:
- a `pick` reduced modulo the range;
- a `(nat, nat) -> …` choice function indexed by word and attempt;
- a `picks` list driving `Reorder`, which can produce any permutation.

## Model

| member | source | states |
|---|---|---|
| VocabularyManager.GetWordsByLevel | src/utils/VocabularyManager.js:76-78 | an unknown level gives no words; otherwise the words of a level of that name |
| VocabularyManager.GetRandomWord | src/utils/VocabularyManager.js:80-90 | null exactly when every word of the level is excluded; otherwise a word of the level whose id is not excluded |
| VocabularyManager.GetRandomWords | src/utils/VocabularyManager.js:92-98 | `min(count, available)` words, each from the level and not excluded, none drawn more often than it is available |
| VocabularyManager.FindById | src/utils/VocabularyManager.js:102 | `find` by id: none exactly when no word has the id, otherwise the first word with it |
| VocabularyManager.GetWordById | src/utils/VocabularyManager.js:100-106 | a found word has the requested id |
| VocabularyManager.GetWordByIdFirst | src/utils/VocabularyManager.js:100-106 | null exactly when no level holds the id; otherwise the first match of the first level that has one, with that level's name |
| VocabularyManager.TotalWordsAppend | src/utils/VocabularyManager.js:152-158 | the total over the levels grows by each level's size in turn |
| VocabularyManager.LevelWithinTotal | src/utils/VocabularyManager.js:152-158 | no level has more words than the total |
| VocabularyManager.GetTotalWords | src/utils/VocabularyManager.js:152-158 | the accumulator loop returns the sum of the level sizes |
| VocabularyManager.MergeRoundTrip | src/utils/VocabularyManager.js:32-54 | a record saved by `saveProgress` is loaded back unchanged by `getProgress` |
| VocabularyManager.MergeIsShallow | src/utils/VocabularyManager.js:37 | the merge over the defaults is top-level only: a stored `gameStats` or `discoveredWords` replaces the default one whole |
| VocabularyManager.MarkDiscoveredIn | src/utils/VocabularyManager.js:56-67 | the id is appended (to an empty list for an unseen level) exactly when it is absent, and the result reports that; the id is then present, and no level's list gains a duplicate |
| VocabularyManager.MarkDiscoveredTwice | src/utils/VocabularyManager.js:56-67 | marking twice: the first call reports true, the second false and changes nothing, and the id is held exactly once |
| VocabularyManager.MergeGameStats | src/utils/VocabularyManager.js:124-136 | the keys in `stats` overwrite, the game's other keys are kept, a missing game starts empty, and other games are untouched |
| VocabularyManager.StatOr | src/screens/CrosswordScreen.js:421-424 | `stats.key \|\| d`: a missing or zero entry reads as `d` |
| VocabularyManager.ProgressStore.constructor | src/utils/VocabularyManager.js:32-43 | the storage starts empty, so loading gives the defaults |
| VocabularyManager.ProgressStore.SaveProgress | src/utils/VocabularyManager.js:45-54 | the record is stored stamped with the time, and loading it back gives exactly that record |
| VocabularyManager.ProgressStore.MarkDiscovered | src/utils/VocabularyManager.js:56-67 | true exactly when the id was new at the level, in which case the stored progress is the appended record, stamped; otherwise storage is untouched; the id is present afterwards, nothing discovered is lost, and statistics are unchanged |
| VocabularyManager.ProgressStore.UpdateGameStats | src/utils/VocabularyManager.js:124-136 | the stored progress is the old one with the game's stats shallow-merged, stamped |
| VocabularyManager.ProgressStore.GetGameStats | src/utils/VocabularyManager.js:138-141 | an unknown game gives the empty object, a known one its stored stats |
| VocabularyManager.ProgressStore.GetLevelProgress | src/utils/VocabularyManager.js:160-164 | 0 for a level without words; otherwise `Math.round(100 * discovered / total)`, as `IsRoundedPercent` characterises it |
| VocabularyManager.ProgressStore.ResetProgress | src/utils/VocabularyManager.js:166-174 | the stored record is removed, so loading gives the defaults |
| VocabularyScreen.DiscoveredWords | src/screens/VocabularyScreen.js:30-32 | an order-preserving sub-list of the level's words holding exactly the words with a discovered id, each as often as in the level |
| VocabularyScreen.Categories | src/screens/VocabularyScreen.js:40 | 'all' first, then each non-empty category of the discovered words exactly once |
| VocabularyScreen.CategoriesDistinctIff | src/screens/VocabularyScreen.js:40 | the chip list is free of repeats exactly when no word's category is itself 'all' |
| VocabularyScreen.FilteredWords | src/screens/VocabularyScreen.js:43-52 | an order-preserving sub-list of the discovered words that holds exactly those matching the search and the category |
| VocabularyScreen.NoFilterKeepsAll | src/screens/VocabularyScreen.js:43-52 | an empty search with the 'all' chip keeps the whole discovered list |
| VocabularyScreen.SearchIgnoresCase | src/screens/VocabularyScreen.js:44-46 | the search matches the same words whatever the case of the term |
| VocabularyScreen.LevelProgress | src/screens/VocabularyScreen.js:54-56 | 0 for a level without words; otherwise `Math.round(100 * discovered / total)`, as `IsRoundedPercent` characterises it, and at most 100 when no more words are discovered than exist |
| Common.RoundPercent | src/utils/VocabularyManager.js:163 | the result is the integer r with `r - 1/2 <= 100 * part / whole < r + 1/2`, which is `Math.round` of the percentage |
| Common.RoundedPercentUnique | src/utils/VocabularyManager.js:163 | at most one integer meets that characterisation, so it fixes the percentage |
| Common.Dedup | src/screens/VocabularyScreen.js:40 | `[...new Set(s)]`: the same members, each once, in the order of their first occurrence in `s` |
| Common.SortDesc | src/screens/WordSearchScreen.js:110 | a permutation of the input sorted by decreasing key, stable: the elements of each key keep their order (`WithKey`) |
| Common.InsertDescStable | src/screens/WordSearchScreen.js:110 | an inserted element goes ahead of every element with its key, so the sort keeps ties in input order |
| Common.WithKeyFirst | src/screens/SpellingBeeScreen.js:86-91 | the first element of a key is at the first index holding that key, which gives `sorted[0]` its tie-break |
| Common.Filter | src/utils/VocabularyManager.js:82 | `filter`: an order-preserving sub-list holding exactly the elements that pass, each as often as in the input |
| Common.FindFirst | src/screens/CrosswordScreen.js:274-278 | `find`: none exactly when no element passes, otherwise the first that does |
| Common.IndexOf | src/screens/CrosswordScreen.js:324-326 | `findIndex` for a value: -1 exactly when absent, otherwise the first position holding it |
| Common.Reorder | src/utils/VocabularyManager.js:96 | a shuffle or a sort with a random comparator: a permutation of the input |
| Common.Upper | src/screens/CrosswordScreen.js:284 | `toUpperCase` on ASCII: same length, each character upper-cased |
| Common.Lower | src/screens/SpellingBeeScreen.js:231 | `toLowerCase` on ASCII: same length, each character lower-cased |
| Common.RoundPercentBounds | src/screens/VocabularyScreen.js:54-56 | a part of at most the whole rounds to at most 100 percent, and the whole to exactly 100 |
| CrosswordBuilder.Perpendicular | src/screens/CrosswordScreen.js:159 | the crossing direction differs from the existing one |
| CrosswordBuilder.ScanFrom | src/screens/CrosswordScreen.js:156-181 | the scan from a letter pair on yields a crossing at or after that pair |
| CrosswordBuilder.ScanFromFirst | src/screens/CrosswordScreen.js:156-181 | no pair the scan passes over before its result is a crossing |
| CrosswordBuilder.FirstCrossingIsFirst | src/screens/CrosswordScreen.js:152-183 | the first crossing is a crossing, none comes before it in scan order, and there is none exactly when no letter pair crosses |
| CrosswordBuilder.CrossingForMeets | src/screens/CrosswordScreen.js:152-183 | the start the first crossing gives is perpendicular, shares the crossing letter with the existing word, and has the whole word on the grid |
| CrosswordBuilder.WordCells | src/screens/CrosswordScreen.js:141-150 | exactly `length` squares, square i being i steps along the direction from the start |
| CrosswordBuilder.GetCellsForWord | src/screens/CrosswordScreen.js:141-150 | the loop returns `length` squares, starting at (row, col), each one column (across) or one row (down) after the previous |
| CrosswordBuilder.FindIntersection | src/screens/CrosswordScreen.js:152-183 | returns the first crossing in scan order (`CrossingFor`): none exactly when no letter pair crosses inside the grid; otherwise a start perpendicular to the existing word that puts a letter of the word on an equal letter of it, with every square on the grid, and no pair earlier in the scan crosses |
| CrosswordBuilder.CanPlaceWord | src/screens/CrosswordScreen.js:185-222 | true exactly when every square is on the grid, agrees with any letter there, and each empty one has empty neighbours across the word's line; the squares beyond the two ends are not looked at |
| CrosswordBuilder.PlaceWordInGrid | src/screens/CrosswordScreen.js:224-238 | every square of the word holds a letter, the existing one where there was one; an existing clue number is kept, a new one only goes on the first square; every other square is unchanged; every earlier placement stays intact |
| CrosswordBuilder.Written | src/screens/CrosswordScreen.js:229-236 | one square's write: an empty square takes the letter; an occupied one keeps its letter and any clue number it already has |
| CrosswordBuilder.WriteSquare | src/screens/CrosswordScreen.js:229-236 | one square is written, all others unchanged |
| CrosswordBuilder.CoveredSquares | src/screens/CrosswordScreen.js:141-150 | a square a word covers is one of its cells |
| CrosswordBuilder.SeedFits | src/screens/CrosswordScreen.js:74-83 | a seed of at most nine letters, centred on row 4, lies on the grid |
| CrosswordBuilder.AsWrittenOrder | src/screens/CrosswordScreen.js:65 | the words are tried longest first, as a permutation of the draw |
| CrosswordBuilder.AsWrittenSeedLeavesGrid | src/screens/CrosswordScreen.js:65-83 | as written, a drawn word longer than nine letters becomes the seed and has squares off the grid |
| CrosswordBuilder.CandidateOrder | src/screens/CrosswordScreen.js:65 | the words tried are exactly the drawn words that fit the grid, with their multiplicities, longest first |
| CrosswordBuilder.ExtendChained | src/screens/CrosswordScreen.js:94-123 | appending a word that crosses an earlier one keeps every later word crossing an earlier one |
| CrosswordBuilder.ExtendDrawn | src/screens/CrosswordScreen.js:94-123 | the placements keep following the candidate order as each word's turn ends |
| CrosswordBuilder.DrawnSeed | src/screens/CrosswordScreen.js:85-92 | the seed placement is the first candidate |
| CrosswordBuilder.ContentNone | src/screens/CrosswordScreen.js:224-238 | a square is blocked exactly when no placement covers it |
| CrosswordBuilder.ContentAppend | src/screens/CrosswordScreen.js:224-238 | a new placement shows its own letters on its squares and leaves every other square as the earlier placements made it |
| CrosswordBuilder.BlockedOffPlacements | src/screens/CrosswordScreen.js:65-123 | on a grid the placements make, a square is blocked exactly when it is no placement's |
| CrosswordBuilder.SquareIs | src/screens/CrosswordScreen.js:185-222 | a square of the grid the placements make is empty, or holds a letter, exactly as the placements say |
| CrosswordBuilder.AgreesTransfer | src/screens/CrosswordScreen.js:187-199 | `canPlaceWord`'s letter test reads the same on the grid and on the placements that made it |
| CrosswordBuilder.IsolatedTransfer | src/screens/CrosswordScreen.js:202-219 | `canPlaceWord`'s neighbour test reads the same on the grid and on the placements that made it |
| CrosswordBuilder.NeighboursAre | src/screens/CrosswordScreen.js:206-218 | the squares either side of a letter are empty on the grid exactly when the placements leave them empty |
| CrosswordBuilder.PlaceableTransfer | src/screens/CrosswordScreen.js:185-222 | `canPlaceWord`'s whole test reads the same on the grid and on the placements |
| CrosswordBuilder.SeedPlacement | src/screens/CrosswordScreen.js:84-91 | the seed placement holds the first word, as clue 1 |
| CrosswordBuilder.TryAt | src/screens/CrosswordScreen.js:99-121 | a try that yields a placement yields one of the word being placed, numbered next |
| CrosswordBuilder.FirstFit | src/screens/CrosswordScreen.js:99-121 | the first of the 150 tries that yields a placement, or 150 when none does; a try it names yields one |
| CrosswordBuilder.FirstFitIsFirst | src/screens/CrosswordScreen.js:99-121 | no try before the first fit yields a placement |
| CrosswordBuilder.Turn | src/screens/CrosswordScreen.js:95-122 | a word's turn either leaves the placements as they were or appends exactly one placement of that word |
| CrosswordBuilder.TurnChoice | src/screens/CrosswordScreen.js:95-122 | a word is dropped exactly when none of its 150 tries yields a placement on the grid the earlier words made; otherwise it goes where the first try that does puts it |
| CrosswordBuilder.Layout | src/screens/CrosswordScreen.js:73-123 | after any number of turns the layout starts with the seed placement |
| CrosswordBuilder.TryAtAgrees | src/screens/CrosswordScreen.js:101-108 | a try yields a placement exactly when `findIntersection` finds a crossing with the chosen placement and `canPlaceWord` accepts it on the current grid, and then the placement the code appends |
| CrosswordBuilder.NoTryFits | src/screens/CrosswordScreen.js:99-121 | 150 tries without a placement means every try found no crossing or was refused by `canPlaceWord` |
| CrosswordBuilder.FirstFitStep | src/screens/CrosswordScreen.js:99-121 | scanning the tries in order, with none fitting so far, a try is the first fit exactly when it fits |
| CrosswordBuilder.PlacingExtends | src/screens/CrosswordScreen.js:224-238 | writing a placement on a grid the earlier placements made, with every other letter unchanged, gives the grid of all of them |
| CrosswordBuilder.DrawnWords | src/screens/CrosswordScreen.js:94-123 | the placed words are drawn words, longest first |
| CrosswordBuilder.BuildPuzzle | src/screens/CrosswordScreen.js:65-123 | the placements are exactly the layout: the seed is the longest fitting word, across row 4, centred, as clue 1; each later word, longest first, goes where its first accepted try puts it and is dropped only when none of its 150 tries is accepted; the grid holds exactly the placements' letters and every other square is blocked; later words each cross an earlier one; clue numbers are 1, 2, 3 … in placement order |
| CrosswordBuilder.PlaceSeed | src/screens/CrosswordScreen.js:73-92 | the seed is written across row 4, centred, clue 1, on an empty grid, and is the only thing on it |
| CrosswordBuilder.SeedWritten | src/screens/CrosswordScreen.js:77-82 | a grid holding the seed's letters, the clue number on the first, and nothing else is the grid the seed alone makes |
| CrosswordBuilder.TryOnce | src/screens/CrosswordScreen.js:100-120 | one pass of the try loop: the outcome is the try's `TryAt`; a refused try leaves the grid unchanged; an accepted one changes only the word's squares, crosses an earlier placement, and the grid is the one the placements so far make |
| CrosswordBuilder.PlaceWord | src/screens/CrosswordScreen.js:95-122 | a word's turn: the result is `Turn`, so the word is appended at the first try `canPlaceWord` accepts, crossing an earlier placement and numbered next, with only its own squares changed; when no try is accepted the placements and the grid are left as they were |
| CrosswordBuilder.AddCrossing | src/screens/CrosswordScreen.js:107-117 | an accepted crossing is written and appended, all placements stay intact, it crosses the placement it was found against, and only its own squares change |
| CrosswordGame.EmptyAnswers | src/screens/CrosswordScreen.js:125-127 | a 9×9 answer grid |
| CrosswordGame.SetAnswer | src/screens/CrosswordScreen.js:288-289 | the copied answer grid differs from the old one only at the typed square |
| CrosswordGame.FindWordAtCell | src/screens/CrosswordScreen.js:273-279 | none exactly when no word in the direction covers the square; otherwise the first such word |
| CrosswordGame.NextCell | src/screens/CrosswordScreen.js:321-332 | the square after the selected one in the word; the last square stays put; a square outside the word moves to the first square |
| CrosswordGame.PrevCell | src/screens/CrosswordScreen.js:348-357 | the square before the selected one, or the same square at the start or outside the word |
| CrosswordGame.StepAlongWord | src/screens/CrosswordScreen.js:321-357 | along a placed word, next and previous are one step along its direction |
| CrosswordGame.WordIsComplete | src/screens/CrosswordScreen.js:370-381 | true exactly when every square of the word holds its solution letter |
| CrosswordGame.NewlyCompleted | src/screens/CrosswordScreen.js:366-381 | exactly the not yet completed words whose every square is right, in puzzle order |
| CrosswordGame.NewlyCompletedIncreasing | src/screens/CrosswordScreen.js:366-381 | newly completed words keep increasing clue numbers |
| CrosswordGame.IncreasingCons | src/screens/CrosswordScreen.js:366-381 | a word numbered below all the others can be put in front |
| CrosswordGame.ScanCompletion | src/screens/CrosswordScreen.js:362-402 | the scan finds the newly completed words and adds `len*15 + floor(max(0,300-timer)/2) - hints*15` for each, unclamped |
| CrosswordGame.SumGainsCons | src/screens/CrosswordScreen.js:398-402 | the gain of a list is the first word's gain plus the rest's |
| CrosswordGame.FindErrors | src/screens/CrosswordScreen.js:471-486 | exactly the lettered, filled-in squares whose typed letter is wrong, in row-major order |
| CrosswordGame.FillWord | src/screens/CrosswordScreen.js:452-457 | every square of the word gets its solution letter, all others unchanged |
| CrosswordGame.RevealLeavesStaleError | src/screens/CrosswordScreen.js:462-465 | as written, a flagged first square stays flagged after its word is revealed |
| CrosswordGame.ErrorsAfterRevealAsWritten | src/screens/CrosswordScreen.js:462-465 | as written, the error flags after a reveal are the old ones less only the word's last square |
| CrosswordGame.ErrorsAfterReveal | src/screens/CrosswordScreen.js:462-465 | no square of the revealed word stays flagged, every other flag is kept, in order |
| CrosswordGame.FinishStats | src/screens/CrosswordScreen.js:418-426 | one more solved and played, the score added, the best time the smaller of the old one (999999 when unset) and this round's |
| CrosswordGame.NewCluesDistinct | src/screens/CrosswordScreen.js:366-381 | the completed clue numbers stay distinct and in range, so no word scores twice |
| CrosswordGame.SaveCompletion | src/screens/CrosswordScreen.js:404-414 | newly completed words are marked discovered, and on the last word the round's stats are merged into the game's entry; nothing discovered is forgotten, other levels' lists and other games' stats are kept; short of the last word the stats are unchanged, and with nothing completed the store is unchanged |
| CrosswordGame.MarkWordsDiscovered | src/screens/CrosswordScreen.js:366-405 | each completed word's id is discovered afterwards, nothing discovered is lost, and the statistics are untouched |
| CrosswordGame.CrosswordRound.constructor | src/screens/CrosswordScreen.js:29-41 | an empty round |
| CrosswordGame.CrosswordRound.Generate | src/screens/CrosswordScreen.js:58-139 | with fewer than three drawn words nothing changes; otherwise the words are `BuildPuzzle`'s layout of the drawn words, the board is the grid that layout makes, each word after the first crosses an earlier one, and the round is reset |
| CrosswordGame.CrosswordRound.StartRound | src/screens/CrosswordScreen.js:125-138 | the reset after generation: empty answers, no selection, completions, hints, score, errors or time |
| CrosswordGame.CrosswordRound.HandleCellPress | src/screens/CrosswordScreen.js:240-271 | a blocked square is ignored; pressing the selected square turns the direction; another square is selected with its word in the current direction, else in the other |
| CrosswordGame.CrosswordRound.Select | src/screens/CrosswordScreen.js:255-267 | only the selection changes |
| CrosswordGame.CrosswordRound.WordSquaresLettered | src/screens/CrosswordScreen.js:240-271 | every square of a placed word is a lettered square |
| CrosswordGame.CrosswordRound.MoveToNextCell | src/screens/CrosswordScreen.js:321-332 | with a selected square and word, the selection moves to `NextCell` |
| CrosswordGame.CrosswordRound.CheckWordCompletion | src/screens/CrosswordScreen.js:362-416 | the newly completed clue numbers are appended, their gains added to the score, their words marked discovered; on the last word `finishGame`'s stats are saved; nothing discovered is forgotten, other levels' lists and other games' stats are kept |
| CrosswordGame.CrosswordRound.Record | src/screens/CrosswordScreen.js:408-411 | only the completions and score change |
| CrosswordGame.CrosswordRound.HandleLetterInput | src/screens/CrosswordScreen.js:281-319 | without a selection or a letter key nothing changes; otherwise the upper-cased letter is typed, its error flag set exactly when wrong, completion checked and the selection moved on; the direction and the store outside this level and game are kept |
| CrosswordGame.CrosswordRound.Enter | src/screens/CrosswordScreen.js:287-312 | only the answers, error flags and hint count change |
| CrosswordGame.CrosswordRound.HandleBackspace | src/screens/CrosswordScreen.js:334-360 | a filled square is cleared and unflagged; an empty one moves the selection back one square |
| CrosswordGame.CrosswordRound.RevealLetter | src/screens/CrosswordScreen.js:428-447 | a selected square not showing its solution gets it, costs one hint, loses its flag, completion is checked with the old hint count, and the selection moves on; the direction and the store outside this level and game are kept |
| CrosswordGame.CrosswordRound.RevealWord | src/screens/CrosswordScreen.js:449-469 | every square of the word gets its solution, hints grow by the word's length, none of its squares stays flagged, completion is checked with the old hint count; the direction and the store outside this level and game are kept |
| CrosswordGame.CrosswordRound.CheckAnswers | src/screens/CrosswordScreen.js:471-486 | the error flags become exactly the wrong squares; every other field, the direction and the clock included, is kept |
| WordSearchBuilder.PathCells | src/screens/WordSearchScreen.js:198-205 | `n` squares, square i being i steps from the start |
| WordSearchBuilder.UnitTimes | src/screens/WordSearchScreen.js:177-178 | a unit step times i is i, -i or 0 |
| WordSearchBuilder.CellsBetween | src/screens/WordSearchScreen.js:166-173 | with the start and the last square on the board, every square between is on it |
| WordSearchBuilder.CellsApart | src/screens/WordSearchScreen.js:198-205 | different letters of a word land on different squares |
| WordSearchBuilder.CanPlaceWord | src/screens/WordSearchScreen.js:166-193 | true exactly when the last square is on the board (so every square is) and each square is empty or holds the word's letter |
| WordSearchBuilder.OverlapTestRedundant | src/screens/WordSearchScreen.js:186-189 | while the used set is the filled squares, the overlap test rejects nothing the letter test accepts |
| WordSearchBuilder.PlaceWord | src/screens/WordSearchScreen.js:195-209 | writes each letter on its square, returns the squares in order, makes the used set the old one plus exactly those squares, and leaves every other square unchanged |
| WordSearchBuilder.WriteLetters | src/screens/WordSearchScreen.js:198-206 | the write loop: each letter on its square, others unchanged |
| WordSearchBuilder.TrialDirection | src/screens/WordSearchScreen.js:119 | a draw gives one of the eight unit directions of the `directions` list |
| WordSearchBuilder.TrialStart | src/screens/WordSearchScreen.js:122-123 | a draw gives a start square on the board |
| WordSearchBuilder.UnitStepsAreDirections | src/screens/WordSearchScreen.js:95-104 | a step to one of the eight neighbouring squares is exactly an entry of the `directions` list |
| WordSearchBuilder.ContentAppend | src/screens/WordSearchScreen.js:195-209 | a new placement shows its own letter on its squares and leaves the letter of every other square as the earlier placements made it |
| WordSearchBuilder.Content | src/screens/WordSearchScreen.js:195-209 | a square is empty exactly when no placement covers it |
| WordSearchBuilder.PlaceableTransfer | src/screens/WordSearchScreen.js:166-193 | on the board the placements make, `canPlaceWord`'s test is the same test stated on the placements |
| WordSearchBuilder.TryAt | src/screens/WordSearchScreen.js:117-136 | a draw that yields a placement yields one of the word being placed |
| WordSearchBuilder.FirstFit | src/screens/WordSearchScreen.js:117-136 | the first of the 200 draws at which the word fits, or 200 when none does; a draw it names fits |
| WordSearchBuilder.FirstFitIsFirst | src/screens/WordSearchScreen.js:117-136 | no draw before the first fit fits |
| WordSearchBuilder.Turn | src/screens/WordSearchScreen.js:112-140 | a word's turn either leaves the placements as they were or appends exactly one placement of that word |
| WordSearchBuilder.TurnChoice | src/screens/WordSearchScreen.js:112-140 | a word is dropped exactly when none of its 200 draws fits the board the earlier words made; otherwise it goes where the first fitting draw puts it |
| WordSearchBuilder.TryAtAgrees | src/screens/WordSearchScreen.js:119-133 | a draw yields a placement exactly when `canPlaceWord` accepts it on the current board, and then yields the squares `placeWord` writes |
| WordSearchBuilder.NoDrawFits | src/screens/WordSearchScreen.js:117-139 | 200 draws without a fit means `canPlaceWord` rejected every one of them |
| WordSearchBuilder.FirstFitStep | src/screens/WordSearchScreen.js:117-136 | scanning the draws in order, with no fit so far, a draw is the first fit exactly when it fits |
| WordSearchBuilder.PlacingExtends | src/screens/WordSearchScreen.js:195-209 | writing a placement on a board the earlier placements made, with nothing else changed, gives the board of all of them |
| WordSearchBuilder.Draw | src/screens/WordSearchScreen.js:119-135 | one pass of the draw loop: the outcome is the draw's `TryAt`; a rejected draw changes nothing; an accepted one writes only its own squares, adds exactly them to the used set, and the board is the one the placements so far make |
| WordSearchBuilder.PlaceOne | src/screens/WordSearchScreen.js:113-136 | a word's up to 200 draws: it goes where the first fitting draw puts it, only its squares change and exactly they join the used set; when no draw fits, `canPlaceWord` rejected all 200, and board and used set are unchanged; no filled square ever changes |
| WordSearchBuilder.LongestFirst | src/screens/WordSearchScreen.js:110 | the words, longest first, as a permutation |
| WordSearchBuilder.LayoutNext | src/screens/WordSearchScreen.js:112-140 | a word's turn, as `PlaceOne` reports it, is the next step of the layout |
| WordSearchBuilder.LayoutStep | src/screens/WordSearchScreen.js:112-140 | each turn keeps the earlier placements and adds at most one, of its own word |
| WordSearchBuilder.Kept | src/screens/WordSearchScreen.js:112-140 | the placements are words of the sorted list, in that list's order |
| WordSearchBuilder.PlaceTurn | src/screens/WordSearchScreen.js:112-140 | one pass of the `forEach`: the placements move one turn along the layout, the board stays the one they make, and every earlier placement stays intact |
| WordSearchBuilder.PlaceAll | src/screens/WordSearchScreen.js:112-140 | the placements are exactly the layout: each word in sorted order goes where its first fitting draw puts it and is dropped only when none of its 200 draws fits; the board is what the placements make, every placement intact |
| WordSearchBuilder.FillLetter | src/screens/WordSearchScreen.js:144-148 | a filler letter is from the weighted alphabet |
| WordSearchBuilder.Fill | src/screens/WordSearchScreen.js:147-149 | a filled square keeps its letter, an empty one gets a filler letter |
| WordSearchBuilder.FillBoard | src/screens/WordSearchScreen.js:143-151 | every square ends filled, the placed letters unchanged |
| WordSearchBuilder.FillRow | src/screens/WordSearchScreen.js:146-150 | one row is filled, the others unchanged |
| WordSearchBuilder.BuildBoard | src/screens/WordSearchScreen.js:87-151 | a fresh, fully filled board: the placements are the layout of the words longest first, every placement is intact, each square holds its placed letter or else a filler letter; the placed words are listed words, longest first |
| WordSearchGame.StepOf | src/screens/WordSearchScreen.js:249-251 | for a collinear end square the step is the sign of the difference, exactly |
| WordSearchGame.BuildPath | src/screens/WordSearchScreen.js:244-261 | `max(\|Δr\|,\|Δc\|)+1` squares from the start to the end, consecutive ones one constant unit step apart |
| WordSearchGame.PathOnBoard | src/screens/WordSearchScreen.js:240-261 | a path between two board squares stays on the board |
| WordSearchGame.SelectionText | src/screens/WordSearchScreen.js:271-273 | on filled squares, the letters under the selection in order |
| WordSearchGame.MatchWord | src/screens/WordSearchScreen.js:278-282 | none exactly when no unfound word reads the selection forwards or backwards; otherwise the first that does |
| WordSearchGame.MatchEitherWay | src/screens/WordSearchScreen.js:275-282 | a selection and its reverse match the same word |
| WordSearchGame.MatchesReversed | src/screens/WordSearchScreen.js:275-282 | one word matches a selection exactly when it matches the reverse |
| WordSearchGame.FoundWordNotMatched | src/screens/WordSearchScreen.js:281 | once found, a word is not matched again |
| WordSearchGame.FindScore | src/screens/WordSearchScreen.js:294-299 | `score + len*10 + max(0,300-timer) - hints*20` clamped at 0, never negative |
| WordSearchGame.Remaining | src/screens/WordSearchScreen.js:328 | an order-preserving sub-list holding exactly the unfound words |
| WordSearchGame.FinishStats | src/screens/WordSearchScreen.js:346-354 | one more game won and played, the time added, the best score the larger of the old one and this one |
| WordSearchGame.AsWrittenBestScoreMissesLastWord | src/screens/WordSearchScreen.js:309-354 | as written, the saved best score falls short of the final score when the round beats the old best |
| WordSearchGame.FinishStatsAsWritten | src/screens/WordSearchScreen.js:346-354 | as written, the saved record agrees with the corrected one in every field but the best score, which is the larger of the old best and the score before the last word |
| WordSearchGame.SaveFind | src/screens/WordSearchScreen.js:302-312 | the word is discovered, and the last find saves the stats with the final score; nothing discovered is forgotten, other levels' lists and other games' stats are kept; short of the last word the stats are unchanged |
| WordSearchGame.UpperWords | src/screens/WordSearchScreen.js:87 | the drawn words upper-cased, in order |
| WordSearchGame.WordSearchRound.constructor | src/screens/WordSearchScreen.js:26-38 | an empty round |
| WordSearchGame.WordSearchRound.Generate | src/screens/WordSearchScreen.js:79-164 | with no drawn words nothing changes; otherwise the placements are `BuildBoard`'s layout of the upper-cased drawn words, each square is its placed letter or a filler, and the round is reset with the drag state kept |
| WordSearchGame.WordSearchRound.StartRound | src/screens/WordSearchScreen.js:153-163 | the reset after generation |
| WordSearchGame.WordSearchRound.ClearProgress | src/screens/WordSearchScreen.js:156-159 | no word found, nothing selected or highlighted, no score |
| WordSearchGame.WordSearchRound.ClearClock | src/screens/WordSearchScreen.js:160-163 | the clock at zero and stopped, no hint |
| WordSearchGame.WordSearchRound.HandleCellPress | src/screens/WordSearchScreen.js:211-218 | the clock starts and the selection is the pressed square |
| WordSearchGame.WordSearchRound.HandleCellMove | src/screens/WordSearchScreen.js:220-242 | a square off the first square's row, column and diagonals, or no selection in progress, changes nothing; otherwise the selection is the path to it |
| WordSearchGame.WordSearchRound.HandleCellRelease | src/screens/WordSearchScreen.js:263-325 | under two squares the selection is dropped; otherwise a match adds exactly that word to the found words, highlights the squares, sets the clamped score, marks the word discovered, clears its hint and, on the last word, saves the final score; the selection is always cleared; nothing discovered is forgotten, other levels' lists and other games' stats are kept |
| WordSearchGame.WordSearchRound.Find | src/screens/WordSearchScreen.js:288-307 | records one match |
| WordSearchGame.WordSearchRound.EndSelection | src/screens/WordSearchScreen.js:264-267 | the drag ends, the selection is empty |
| WordSearchGame.WordSearchRound.UseHint | src/screens/WordSearchScreen.js:327-344 | with words left, one unfound word is hinted and one more hint counted; otherwise nothing changes; the selection state and the started flag are kept |
| WordSearchGame.NoneRemainingIff | src/screens/WordSearchScreen.js:328-330 | nothing is left to hint exactly when every word is found |
| SpellingBee.EligibleWords | src/screens/SpellingBeeScreen.js:63-65 | an order-preserving sub-list of exactly the words of at least four ASCII letters |
| SpellingBee.UniqueLetters | src/screens/SpellingBeeScreen.js:94 | the different lower-cased letters, each once and in the order of first occurrence, lower-case for an all-letter word, non-empty for a non-empty word |
| SpellingBee.ChooseSeed | src/screens/SpellingBeeScreen.js:72-92 | an eligible word with at least seven different letters, or else the first eligible word with the most |
| SpellingBee.MostLettersFirst | src/screens/SpellingBeeScreen.js:84-91 | the head of the stable sort by distinct letters is the first eligible word with the most of them |
| SpellingBee.Absent | src/screens/SpellingBeeScreen.js:104 | exactly the padding letters not among the seed's, as a sub-list of the padding string (so in its order), without repeats |
| SpellingBee.AbsentLength | src/screens/SpellingBeeScreen.js:104 | removing shared letters removes exactly as many as are shared |
| SpellingBee.AbsentAtLeast | src/screens/SpellingBeeScreen.js:104 | at most as many padding letters are removed as the seed has letters |
| SpellingBee.Honeycomb | src/screens/SpellingBeeScreen.js:96-109 | exactly seven distinct letters; a seed with fewer than seven keeps all of its letters first, followed by the first letters of "rstlnedcm" it does not contain, in that order |
| SpellingBee.ShuffledSeven | src/screens/SpellingBeeScreen.js:98-101 | seven distinct letters of the seed, in shuffled order |
| SpellingBee.Padded | src/screens/SpellingBeeScreen.js:102-108 | the seed's letters followed by a prefix of `Absent(PADDING, unique)`, i.e. the first padding consonants not in the seed, seven distinct in all |
| SpellingBee.SelectLetters | src/screens/SpellingBeeScreen.js:96-109 | the push/shift loop builds the honeycomb |
| SpellingBee.PuzzleLetters | src/screens/SpellingBeeScreen.js:72-109 | the puzzle's letters are seven distinct lower-case letters |
| SpellingBee.PickLetters | src/screens/SpellingBeeScreen.js:72-109 | the letter selection equals the puzzle's letters |
| SpellingBee.SpellableWords | src/screens/SpellingBeeScreen.js:115-123 | exactly the eligible words that contain the centre letter and use only honeycomb letters, in order |
| SpellingBee.SeedIsAnswer | src/screens/SpellingBeeScreen.js:94-123 | a seed with at most seven different letters is always an answer |
| SpellingBee.WordScore | src/screens/SpellingBeeScreen.js:145-156 | 1 for a four-letter word; otherwise its length, plus 7 when it uses every honeycomb letter |
| SpellingBee.WordScoreLower | src/screens/SpellingBeeScreen.js:150 | a word scores as its lower-cased spelling |
| SpellingBee.WordScorePositive | src/screens/SpellingBeeScreen.js:145-156 | every eligible word scores at least 1 |
| SpellingBee.SumScoresAtLeastCount | src/screens/SpellingBeeScreen.js:125-129 | the maximum score is at least the number of answers, and 0 exactly when there are none |
| SpellingBee.MaxScore | src/screens/SpellingBeeScreen.js:125-129 | the loop sums the scores of the answers |
| SpellingBee.GetRank | src/screens/SpellingBeeScreen.js:314-326 | 'Beginner' whenever the maximum score is 0; with a positive maximum, above 'Beginner' exactly from five percent of it |
| SpellingBee.RankMonotone | src/screens/SpellingBeeScreen.js:314-326 | a higher score never gets a lower rank |
| SpellingBee.QueenBeeIff | src/screens/SpellingBeeScreen.js:314-318 | the top rank is reached exactly at the maximum score, and never when the maximum is 0 |
| SpellingBee.Judge | src/screens/SpellingBeeScreen.js:205-238 | too short, then no centre letter, then already found, then not in the list, each exactly when its test is the first to fail; an accepted word is the first answer equal case aside, with its score and pangram flag |
| SpellingBee.AcceptedOnce | src/screens/SpellingBeeScreen.js:222-240 | a word once accepted is refused as already found |
| SpellingBee.FinishStats | src/screens/SpellingBeeScreen.js:304-312 | the found and total counts added, one more game, the best score the larger of the old one and this one |
| SpellingBee.AsWrittenBestScoreMissesLastWord | src/screens/SpellingBeeScreen.js:304-311 | as written, the saved best score misses the last word's points |
| SpellingBee.FinishStatsAsWritten | src/screens/SpellingBeeScreen.js:304-311 | as written, the saved record agrees with the corrected one in every field but the best score, which is the larger of the old best and the score before the last word |
| SpellingBee.SaveAnswer | src/screens/SpellingBeeScreen.js:267-273 | the word is discovered, and the last answer saves the stats; nothing discovered is forgotten, other levels' lists and other games' stats are kept |
| SpellingBee.Unfound | src/screens/SpellingBeeScreen.js:293 | exactly the answers not found yet |
| SpellingBee.HintFor | src/screens/SpellingBeeScreen.js:292-297 | no hint exactly when every answer is found; otherwise the first two letters, upper-cased, of an unfound answer |
| SpellingBee.SpellingBeeRound.constructor | src/screens/SpellingBeeScreen.js:26-38 | an empty round |
| SpellingBee.SpellingBeeRound.Generate | src/screens/SpellingBeeScreen.js:58-143 | under five eligible words nothing changes; otherwise the honeycomb is shown upper-cased, centre first, with exactly its answers and their total as the maximum, and the round reset |
| SpellingBee.SpellingBeeRound.StartPuzzle | src/screens/SpellingBeeScreen.js:111-140 | the centre is the first letter, the outer ring the other six, and the scoring letter set is the honeycomb |
| SpellingBee.SpellingBeeRound.HandleLetterPress | src/screens/SpellingBeeScreen.js:164-169 | the clock starts and the letter is typed |
| SpellingBee.SpellingBeeRound.HandleDelete | src/screens/SpellingBeeScreen.js:171-176 | the last typed letter is removed, if any |
| SpellingBee.SpellingBeeRound.HandleShuffle | src/screens/SpellingBeeScreen.js:178-182 | the outer ring is reordered, with the same letters |
| SpellingBee.SpellingBeeRound.HandleSubmit | src/screens/SpellingBeeScreen.js:205-280 | the verdict is `Judge`'s; a rejection changes only the input; an accepted word is added lower-cased, scores its points and is discovered, and the last answer saves the final score; the input is always cleared; nothing discovered is forgotten, other levels' lists and other games' stats are kept |
| SpellingBee.SpellingBeeRound.ClearInput | src/screens/SpellingBeeScreen.js:279 | only the input is cleared |
| SpellingBee.SpellingBeeRound.Accept | src/screens/SpellingBeeScreen.js:240-241 | the word is found once and its points added |
| SpellingBee.SpellingBeeRound.UseHint | src/screens/SpellingBeeScreen.js:292-302 | the hint is `HintFor`'s, counted only when given |
| SpellingBee.RoundTripCase | src/screens/SpellingBeeScreen.js:131-132 | upper-casing for display and lower-casing for scoring gives back the honeycomb |
| SpellingBee.SameLettersLowered | src/screens/SpellingBeeScreen.js:178-181 | a shuffled ring gives the same scoring letters |
| Anagram.InitialTiles | src/screens/AnagramScreen.js:65-69 | one tile per upper-cased letter, numbered by position |
| Anagram.Spell | src/screens/AnagramScreen.js:117 | the letters of the tiles in order |
| Anagram.Shuffle | src/screens/AnagramScreen.js:72-75 | the Fisher–Yates pass permutes the array in place |
| Anagram.Scramble | src/screens/AnagramScreen.js:64-88 | the tiles are a permutation of the dealt ones, and they spell the word only after all ten retries |
| Anagram.InitialDistinctIds | src/screens/AnagramScreen.js:66 | the dealt tiles have pairwise distinct ids |
| Anagram.ScrambledTiles | src/screens/AnagramScreen.js:64-88 | a scramble has one tile per letter, the original positions 0..n-1 each once, each tile's letter the word's at its position, and distinct ids |
| Anagram.UniformWordUnscrambled | src/screens/AnagramScreen.js:77-85 | a word of one repeated letter still spells itself after any scramble |
| Anagram.RemoveTile | src/screens/AnagramScreen.js:96 | the tiles with a different id |
| Anagram.RemoveTileExactly | src/screens/AnagramScreen.js:96 | among distinct ids, filtering by id removes exactly the pressed tile |
| Anagram.PermutationDistinctIds | src/screens/AnagramScreen.js:96-113 | a reordering keeps ids distinct |
| Anagram.TakeKeepsTiles | src/screens/AnagramScreen.js:96-97 | moving a tile to the answer row keeps pile and row together a permutation of the dealt tiles |
| Anagram.SolveScore | src/screens/AnagramScreen.js:140-145 | the exact points on both sides of 60 seconds: a time bonus of `60 - timer` up to a minute, none after it, unclamped |
| Anagram.SolveStats | src/screens/AnagramScreen.js:154-160 | one more solve and game, the points added, the best streak the larger |
| Anagram.SaveSolve | src/screens/AnagramScreen.js:150-160 | the word is discovered and the solve's stats merged; nothing discovered is forgotten, other levels' lists and other games' stats are kept |
| Anagram.AnagramRound.constructor | src/screens/AnagramScreen.js:23-33 | an empty round |
| Anagram.AnagramRound.LoadNewWord | src/screens/AnagramScreen.js:51-62 | a drawn word of at least three letters is dealt, all tiles in the pile; otherwise nothing changes |
| Anagram.AnagramRound.Deal | src/screens/AnagramScreen.js:55-60 | the new word shows with its tiles in the pile |
| Anagram.AnagramRound.HandleLetterPress | src/screens/AnagramScreen.js:90-103 | once solved nothing changes; otherwise exactly the pressed tile moves to the end of the row, and a full row is checked; the pile keeps its order minus that tile; the store outside this level and game is kept |
| Anagram.AnagramRound.Take | src/screens/AnagramScreen.js:96-97 | one tile moves from the pile to the row: the pile keeps its order minus that tile (`RemoveTile`) |
| Anagram.AnagramRound.CheckAnswer | src/screens/AnagramScreen.js:116-173 | correct exactly when the row spells the upper-cased word; correct adds the points, steps the streak and saves; wrong resets the streak; nothing discovered is forgotten, other levels' lists and other games' stats are kept |
| Anagram.AnagramRound.Solve | src/screens/AnagramScreen.js:123-148 | the solved row, the points and a streak step |
| Anagram.AnagramRound.HandleSelectedLetterPress | src/screens/AnagramScreen.js:105-114 | once solved nothing changes; otherwise the tile at the index goes back to the end of the pile |
| Anagram.AnagramRound.ClearSelected | src/screens/AnagramScreen.js:202-208 | once solved nothing changes; otherwise the row is emptied onto the end of the pile, in order |
| Anagram.AnagramRound.ShuffleScrambled | src/screens/AnagramScreen.js:188-200 | once solved nothing changes; otherwise the pile is permuted |
| Anagram.AnagramRound.UseHint | src/screens/AnagramScreen.js:175-186 | ignored while a hint shows or once solved; otherwise the hint shows and is counted |
| Anagram.AnagramRound.NextWord | src/screens/AnagramScreen.js:210-223 | one more game, clock and hints reset, a skip breaks the streak, and a new word is dealt; when the draw fails or the word is too short, the word, tiles, row and flags stay as they were |
| Anagram.AnagramRound.Tally | src/screens/AnagramScreen.js:211-221 | only the counters change |
| WordGuess.GetLetterStatus | src/screens/WordGuessScreen.js:92-99 | correct exactly for the right letter in place, absent exactly for a letter not in the target, present otherwise |
| WordGuess.WinningGuessAllCorrect | src/screens/WordGuessScreen.js:92-99 | the target as a guess is all correct |
| WordGuess.RepeatsNotCounted | src/screens/WordGuessScreen.js:96-97 | a target letter is never absent however often a guess repeats it |
| WordGuess.GetKeyStatus | src/screens/WordGuessScreen.js:145-159 | special exactly for ENTER and DEL; unused exactly when no guess holds the key; otherwise the status of its first occurrence |
| WordGuess.WinStats | src/screens/WordGuessScreen.js:74-79 | one more answer and game, the tries added |
| WordGuess.LossStats | src/screens/WordGuessScreen.js:84-88 | one more game, the tries added, the answer count left alone |
| WordGuess.WinAndLossAgree | src/screens/WordGuessScreen.js:74-88 | a win and a loss add the same tries and games; only a win adds an answer |
| WordGuess.SaveResult | src/screens/WordGuessScreen.js:72-88 | a win marks the word discovered; either result merges its stats; nothing discovered is forgotten, other levels' lists and other games' stats are kept |
| WordGuess.WordGuessRound.constructor | src/screens/WordGuessScreen.js:20-26 | an empty round |
| WordGuess.WordGuessRound.LoadNewWord | src/screens/WordGuessScreen.js:32-41 | a drawn word starts a new game; without one nothing changes |
| WordGuess.WordGuessRound.HandleKeyPress | src/screens/WordGuessScreen.js:43-53 | ignored unless playing; DEL drops the last letter; a letter is added lower-cased only while the guess is short; ENTER submits |
| WordGuess.WordGuessRound.SubmitGuess | src/screens/WordGuessScreen.js:55-90 | a wrong-length guess changes nothing; otherwise it is recorded; the target wins before the sixth-try loss is checked; nothing discovered is forgotten, other levels' lists and other games' stats are kept |
| WordGuess.WordGuessRound.AddGuess | src/screens/WordGuessScreen.js:63-81 | the new status, with at most six guesses |
| WordGuess.WordGuessRound.ToggleHint | src/screens/WordGuessScreen.js:228 | the hint flips |

## Left out

- Rendering is not modelled: JSX, styles, animations, vibration, alerts, modals and ads.
- The app shell is not part of this model: `app.js`, `HomeScreen.js` and `GameScreen.js`.
- Randomness is a supplied choice, and nothing is claimed about distributions.
  - A draw is a `pick` or a choice function reduced modulo its range.
  - A shuffle or random-comparator sort is `Reorder` over a `picks` list. It can produce any permutation.
- Clocks are not modelled. `setInterval` and `setTimeout` are left out, `timer` is plain state, and a delayed call such as the word-search `finishGame` happens at once.
- The word-search hint's timed auto-clear (`WordSearchScreen.js:339-343`) is left out. So is the anagram hint's 5-second auto-hide (`AnagramScreen.js:183-185`).
- Each handler is one atomic transition that reads the state from before the call. React's batching of state setters, stale closures and `await` interleavings are not modelled.
- Touch handling is not modelled. The coordinate arithmetic of `onResponderMove` in the word search is left out, and `HandleCellMove` takes the square directly.
- Storage is a map in a `ProgressStore` object. JSON parsing and serialisation, `AsyncStorage` failures and their `console.error` paths are left out. The ISO timestamp is a `now` parameter.
- Case mapping covers ASCII letters only.
- The spelling bee's `/^[a-zA-Z]+$/` test is modelled as "every character is an ASCII letter".
- The rank and progress percentages are exact integer comparisons and rounding instead of floating-point arithmetic.
- The crossword's `"row-col"` error keys are `Pos` values.
- A typed key is a one-character string, stored as that character: upper-cased in the crossword, lower-cased in word guess.
- The static vocabulary data is an ordered list of levels. Level order is the data's key order.
- `getParagraphsByLevel`, `getRandomParagraph` and `getTotalDiscovered` are not modelled. No game screen of this model uses them.
- `getDefaultProgress`'s default statistics are written out as a constant. No property is proved about their values.
- `getDiscovered` and `getProgress` are plain reading functions of `ProgressStore`. The row for `MergeRoundTrip` states their property.
- The word-guess shake flag, and the messages each screen shows, are not modelled.
- WordGuess.WordGuessRound.HandleKeyPress requires a loaded word. Before one loads, the source handler would throw on `currentWord.word`.
- CrosswordBuilder.BuildPuzzle, when a drawn word is longer than the grid, deliberately departs from the code as written (see Findings). With no such word it lays out exactly what the code does.
- WordSearchBuilder.FillRow writes every square through `Fill`. That is the same as the source's `if (cell === '')`, because `Fill` keeps filled squares.

## Findings

| source | as written | input that shows it | evidently intended | confidence | as-written member | corrected member |
|---|---|---|---|---|---|---|
| src/screens/CrosswordScreen.js:65-92 | the longest drawn word becomes the seed, starting at column `floor((9 - len) / 2)` | a level with a 10-letter word drawn: the seed starts at column -1, so its first letter is off the grid (its last is at column 8) | only words that fit the 9×9 grid are laid out | not executed | CrosswordBuilder.AsWrittenSeedLeavesGrid | CrosswordBuilder.BuildPuzzle |
| src/screens/CrosswordScreen.js:462-465 | `revealWord` calls `setErrors(errors.filter(...))` once per square, each time from the same stale `errors` | squares (4,0) and (4,1) of a word, with (4,0) flagged: after the reveal (4,0) is still flagged though it shows the solution | every square of the revealed word is unflagged | not executed | CrosswordGame.RevealLeavesStaleError | CrosswordGame.ErrorsAfterReveal |
| src/screens/WordSearchScreen.js:309-354 | `finishGame` runs from a closure holding the score from before the last word was found | old best 0, score 50 before the last word, which adds 70: the saved best score is 50, not 120 | the best score saved is the final score | not executed | WordSearchGame.AsWrittenBestScoreMissesLastWord | WordSearchGame.WordSearchRound.HandleCellRelease |
| src/screens/SpellingBeeScreen.js:241-311 | `finishGame` reads `score` from before `setScore(score + wordScore)` | old best 0, score 10 before the last word, which scores 5: the saved best score is 10, not 15 | the best score saved is the final score | not executed | SpellingBee.AsWrittenBestScoreMissesLastWord | SpellingBee.SpellingBeeRound.HandleSubmit |

The corrected members are the ones the rest of the model uses. The crossword
builder drops words longer than nine letters before sorting (`CandidateOrder`,
`SeedFits`). `RevealWord` removes every flag of the revealed word
(`ErrorsAfterReveal`). The two finishing saves use the score after the last
word.
