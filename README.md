# Word search: a verified model

This project models the engine of a browser word-search puzzle (`script.js`).
It covers two parts of the engine.

**Generation.** The engine builds a `gridSize`×`gridSize` grid and fills it with random letters A-Z. It then tries to
place each configured word across (1,0), down (0,1) or diagonally (1,1). Each word gets at most 50 random
attempts. An attempt is accepted when every cell on its path is empty or already holds the word's letter.

**Selection.** The player presses on a cell (the anchor) and drags. The run of selected cells is rebuilt from
the anchor, one unit step at a time, whenever the pointer enters a cell on a horizontal, vertical or 45° line
that is not already selected. On release, a run of two or more cells is read forwards, and then backwards. If
either string is a word of the list, that word is recorded once. The run is then cleared. When as many words
are found as there are words, the puzzle is complete.

Layout:

- `grids.dfy` (module `Grids`): cells (`Empty` is the empty string `''`, `Letter(ch)` one letter), positions
  `Pos(row, col)`, and the grid as a sequence of rows read `grid[row][col]`. It also defines `Keeps(g, h)`, which
  holds when `h` keeps every letter of `g`.
- `generator.dfy` (module `Generator`): specification functions for one attempt, one placement, one word, all
  the words, the fill and the whole generator, with their lemmas. It also holds the intended generator
  (see Findings).
- `selection.dfy` (module `Selection`): the geometry of runs, the string a run spells, the mouse-up update of the
  found list, and the completion test, with their lemmas.
- `session.dfy` (module `WordSearch`): the configuration and a `Session` class. The class holds the page's global
  state (`grid`, `selectedCells`, `foundWords`) as fields. Each handler is a method with loops as in the source,
  proved equal to the specification function of the new state.

Randomness is an input. Every `Math.random()` value is a real `u` in `[0, 1)` supplied by the caller, and
`Math.floor(u * k)` is `RandomBelow(u, k)`. The fill takes one draw per cell. Each word takes 50 `Draw(dir, x, y)`
triples, one per attempt; the draws after an accepted attempt are unused.

The start of an attempt is drawn below `gridSize - len * d` (script.js:62-63). When that bound is positive, the
start is therefore never `gridSize - len * d` itself. So a word shorter than the grid never ends in the last column
when it runs across, and never in the last row when it runs down. When the bound is 0 (a word as long as the grid,
in a direction it moves along), `Math.floor(u * 0)` is 0, which is the bound itself. `Generator.AttemptBounds` states this bound, and `Generator.Attempt` the property that
the path always stays inside the grid. The model keeps this behaviour as it is.

`updateSelection` computes its step as `rowDiff / Math.abs(rowDiff)` for a nonzero difference, and as 0
otherwise. The model writes this as the sign of the difference, which gives the same value.

## Model

| member | source | states |
|---|---|---|
| Grids.SetCell | script.js:87 | writing `grid[y][x]` changes that one cell to the new value and no other cell |
| Grids.EmptyGrid | script.js:19 | the fresh grid is `gridSize`×`gridSize` and every cell is `''` |
| Grids.KeepsAlong | script.js:42-46 | when each grid of a chain keeps the letters of the one before it, the last grid keeps the letters of the first |
| Generator.RandomBelow | script.js:61-63 | `Math.floor(u * k)` with `0 <= u < 1` lies in `[0, k)` for `k > 0`, and is 0 for `k = 0` |
| Generator.DrawnLetter | script.js:34-37 | a fill draw yields a letter, and the letter is one of A-Z |
| Generator.Attempt | script.js:61-63 | the drawn direction is one of the three, the start is non-negative, and the whole path of a word no longer than the grid lies inside the grid |
| Generator.AttemptFits | script.js:61-63 | a start below `gridSize - len * d` (or 0 when that bound is 0) puts every cell of the path inside the grid |
| Generator.AttemptBounds | script.js:61-63 | the last letter lands inside the grid (start + (len-1)·d <= gridSize-1); a word shorter than the grid stops one cell short of the edge (start + len·d <= gridSize-1) |
| Generator.PlaceLettersAt | script.js:83-89 | after the first k letters are written, a cell on the path at index i < k holds letter i, and every other cell keeps its old value |
| Generator.PlaceAtReadsBack | script.js:83-89 | after `placeWordAtLocation`, the path read from the start spells the word, and every cell off the path is unchanged |
| Generator.CanPlace | script.js:72-81 | `canPlaceWord`: every cell of the path is `''` or already holds the word's letter at that index (its partners are `Generator.FullGridAcceptsOnlySpelled` and `WordSearch.Session.CanPlaceWord`) |
| Generator.FullGridAcceptsOnlySpelled | script.js:72-81 | on a grid with no `''` cell, `canPlaceWord` accepts a path exactly when the grid already spells the word along it |
| Generator.PlaceAt | script.js:83-89 | `placeWordAtLocation` keeps the grid `gridSize`×`gridSize`; what it writes is stated by `Generator.PlaceAtReadsBack` |
| Generator.CheckedPlacementKeepsLetters | script.js:72-89 | a placement that `canPlaceWord` accepted never changes a non-empty cell to a different letter |
| Generator.FirstFit | script.js:55-69 | the attempt chosen is one of the 50, counted from the current one |
| Generator.FirstFitIsFirst | script.js:55-69 | the attempt chosen is accepted by `canPlaceWord`, and every attempt before it was rejected; with no result, all 50 were rejected |
| Generator.WherePlaced | script.js:59-68 | a word is placed only at a path that fits the grid and that `canPlaceWord` accepts |
| Generator.PlaceWord | script.js:48-70 | `placeWordInGrid` keeps the grid `gridSize`×`gridSize`; the grid is unchanged when no attempt is accepted, and otherwise the word written at the first accepted attempt (see `Generator.PlaceWordKeepsLetters` and `Generator.PlaceWordReadsBack`) |
| Generator.PlaceWordKeepsLetters | script.js:48-70 | `placeWordInGrid` keeps every letter already in the grid, whether an attempt is accepted or not |
| Generator.PlaceWordReadsBack | script.js:65-68 | when an attempt is accepted, the grid afterwards spells the word along that attempt's path |
| Generator.PlaceFirst | script.js:42-46 | the grid after the first m words of the list, each placed in turn, keeps its size |
| Generator.PlaceAll | script.js:42-46 | `placeWords`: the grid after every word of the list, placed in list order, keeps its size |
| Generator.PlaceFirstStepKeeps | script.js:42-46 | placing word j-1 keeps every letter the words before it left |
| Generator.StagesKeepLetters | script.js:42-46 | in the chain of grids `placeWords` passes through, each grid keeps every letter of the one before it |
| Generator.PlaceFirstKeepsLetters | script.js:42-46 | the words placed after the m-th keep every letter the first m words left |
| Generator.PlacedWordSurvives | script.js:42-89 | a word that found a place still reads along its path after every later word is placed |
| Generator.PlaceAllKeepsGrid | script.js:42-46 | `placeWords` keeps every letter of the grid it starts from |
| Generator.Filled | script.js:33-40 | `fillGridWithRandomLetters` gives a `gridSize`×`gridSize` grid in which no cell is `''` |
| Generator.Generate | script.js:17-26 | `generateWordSearch` as written: a fresh grid, then the fill, then the words; the grid is `gridSize`×`gridSize` (what it holds is stated by `Generator.GeneratedGridIsFill`) |
| Generator.GeneratedGridIsFill | script.js:17-26 | with the fill done before the placement, the generated grid is exactly the random fill, and every cell holds a letter A-Z (none is `''`) |
| Generator.FillFirstLosesWord | script.js:17-26 | on a 3×3 grid with words ["WEB"] and every fill draw 0, every cell is 'A', and no path of the grid spells "WEB", whatever the attempts draw |
| Generator.FillEmpty | script.js:33-40 | the intended fill keeps every placed letter and gives each empty cell its drawn letter |
| Generator.PlaceWordLettersFromAlphabet | script.js:48-89 | placing a word spelled in A-Z into a grid of letters A-Z adds only letters A-Z |
| Generator.PlaceFirstLettersFromAlphabet | script.js:42-46 | placing words spelled in A-Z, one after another, adds only letters A-Z to the grid |
| Generator.GenerateCorrected | script.js:17-26 | the intended order (words into the empty grid, then the fill of the cells still `''`) gives a `gridSize`×`gridSize` grid; its properties are `Generator.CorrectedAllLetters` and `Generator.CorrectedKeepsPlacedWords` |
| Generator.CorrectedAllLetters | script.js:17-40 | the intended generator leaves no cell `''`, and every letter is A-Z |
| Generator.CorrectedKeepsPlacedWords | script.js:42-89 | with the intended order, every word that found a place still reads along that path in the finished grid |
| Generator.CorrectedKeepsFirstWord | script.js:42-89 | with the intended order, the first word, where the empty grid accepts it, reads along that path in the finished grid |
| Generator.FirstAttemptFitsEmptyGrid | script.js:72-81 | on a grid with no letters, `canPlaceWord` accepts the first attempt |
| Generator.ZeroAttemptGoesAcross | script.js:61-63 | for any word length and grid size, an attempt drawing 0 three times goes across from (0,0) |
| Generator.CorrectedPlacesWord | script.js:17-26 | with the intended order, a word whose first attempt draws 0 three times reads across the top row of the finished grid, whatever the fill draws and the grid size |
| Selection.Aligned | script.js:152-156 | the line test of `isValidSelection`: equal rows, equal columns, or equal absolute differences (its partner is `Selection.AlignedIffReachable`) |
| Selection.WalkSpanReachesTarget | script.js:163-177 | max(abs(rowDiff), abs(colDiff)) steps of (sign rowDiff, sign colDiff) from the anchor reach an aligned target |
| Selection.AlignedIffReachable | script.js:152-156 | the line test holds if and only if the target is a whole number of equal unit steps from the anchor |
| Selection.Run | script.js:160-177 | the rebuilt run has max(abs(rowDiff), abs(colDiff))+1 cells, starts at the anchor and ends at the target |
| Selection.RunAt | script.js:165-177 | cell i of the run is i unit steps (sign rowDiff, sign colDiff) from the anchor |
| Selection.RunIsStraight | script.js:165-177 | the run has one constant step (sign rowDiff, sign colDiff); the step is nonzero when the target is not the anchor; no cell repeats |
| Selection.RunInsideGrid | script.js:160-177 | a run between two cells of the grid stays inside the grid |
| Selection.ValidTarget | script.js:152-158 | `isValidSelection`: the target is on a line through the anchor and not yet selected, so the anchor itself is never a valid target |
| Selection.AfterOver | script.js:141-150 | after `handleMouseOver` there is a run exactly when there was one before, and its anchor is unchanged |
| Selection.OverKeepsRunOk | script.js:141-158 | `handleMouseOver` leaves the run unchanged when it is empty, the target is off the lines through the anchor, or the target is already selected; otherwise the new run goes from the same anchor to the target; the run stays a straight run inside the grid |
| Selection.BacktrackKeepsRun | script.js:152-158 | moving back over a cell already in the run leaves the run as it is, so backtracking never shortens it |
| Selection.RunText | script.js:203 | the string the run spells has at most one character per cell (exactly one on a full grid: `Selection.RunTextOfLetters`) |
| Selection.Reverse | script.js:204 | the reversed string has the same length, and character i is character len-1-i of the original |
| Selection.ReverseReverse | script.js:204 | reversing twice gives back the original string |
| Selection.ReverseAppend | script.js:204 | the reverse of a concatenation is the reversed parts in swapped order |
| Selection.RunTextOfLetters | script.js:203 | on a grid with no `''` cell, the run's string has one character per cell, namely that cell's letter |
| Selection.RunTextAppend | script.js:203 | the string of two runs joined is the two strings joined |
| Selection.RunTextOfReverse | script.js:203-204 | reading the run backwards spells the forward string reversed |
| Selection.MatchedWord | script.js:202-211 | a match is a word of the list and is the forward or the reversed string; there is no match exactly when neither string is a word |
| Selection.MarkFound | script.js:213-216 | `markWordAsFound` leaves the word in the found list, keeps every word already there, adds at most one entry, and adds no word but this one |
| Selection.MouseUpFound | script.js:182-187 | on mouse-up the found list keeps every word and grows by at most one; a run of one cell or none changes nothing |
| Selection.MouseUpGrowth | script.js:182-215 | on mouse-up the found list never shrinks and gains at most one word. It gains one exactly when the run has more than one cell, the forward string (preferred) or else the reversed string is a word, and that word was not found yet. It keeps no duplicates and holds only words of the list |
| Selection.ReversedRunMatches | script.js:203-209 | a run spelling a word forwards, read backwards, is matched to that same word (unless its reverse is another word of the list) |
| Selection.MarkFoundNoDup | script.js:213-215 | marking a word leaves it in the found list and adds no duplicate |
| Selection.ReversalSymmetry | script.js:202-215 | selecting a word's cells in either order records that word, and selecting it again adds nothing |
| Selection.AllFound | script.js:236-237 | the count test of `checkAllWordsFound`: as many words found as there are words (its partner is `Selection.CompletionMeansEveryWordFound`) |
| Selection.CompletionMeansEveryWordFound | script.js:236-237 | for distinct words and a duplicate-free found list drawn from them, `foundWords.length === words.length` holds exactly when every word is found |
| WordSearch.DefaultConfigOk | script.js:1-3 | the configured words are distinct, and none is longer than the 15-cell grid |
| WordSearch.Session.constructor | script.js:1-6 | loading the page generates the grid as `generateWordSearch` does; the run and the found list start empty |
| WordSearch.Session.GenerateWordSearch | script.js:17-31 | the new grid is the fill followed by the placement of every word, which equals the fill itself, all letters A-Z; `foundWords` is empty |
| WordSearch.Session.FillGridWithRandomLetters | script.js:33-40 | after the nested loops, every cell holds its own drawn letter |
| WordSearch.Session.PlaceWords | script.js:42-46 | the grid is each word placed in turn, in list order |
| WordSearch.Session.PlaceWordInGrid | script.js:48-70 | the loop writes the first accepted attempt of at most 50 and stops there; with none accepted, the grid is unchanged |
| WordSearch.Session.CanPlaceWord | script.js:72-81 | the answer is true exactly when every path cell is `''` or holds the word's letter; the method changes nothing |
| WordSearch.Session.PlaceWordAtLocation | script.js:83-89 | the grid becomes the word written along the path |
| WordSearch.Session.HandleMouseDown | script.js:134-139 | the run becomes the single anchor cell |
| WordSearch.Session.HandleMouseOver | script.js:141-150 | the run becomes the run after `isValidSelection` and `updateSelection` (see `Selection.OverKeepsRunOk`), and it stays a straight run inside the grid |
| WordSearch.Session.UpdateSelection | script.js:160-180 | the push-and-step loop ends, and the run it builds is exactly the straight run from the anchor to the target |
| WordSearch.Session.HandleMouseUp | script.js:182-187 | the found list is updated as `Selection.MouseUpFound` says, and the run is cleared; completion is signalled exactly when a word was newly found and the count test holds, and then every word has been found |
| WordSearch.Session.CheckSelectedWord | script.js:202-211 | the forward string if it is a word, else the reversed one if it is, is marked as found; otherwise nothing changes |
| WordSearch.Session.MarkWordAsFound | script.js:213-237 | a word not found yet is appended once, and only then is the completion test made |

## Left out

- Rendering and highlighting (`renderGrid`, `createGridCell`, `renderWordList`, `clearSelection`, `highlightSelection`, and the styling in `markWordAsFound`): these are presentation only, with no effect on the modelled state.
- `Math.random` and its distribution: draws are parameters, so the model says nothing about probabilities.
- `setTimeout` and `alert` in `checkAllWordsFound`: these are host plumbing. The congratulation is the `completed` result of the handlers.
- Event-listener wiring and the `parseInt` of `dataset` strings: the handlers take the row and the column as integers inside the grid, which is what cells of the rendered table supply.
- The generate button re-running `generateWordSearch`: `GenerateWordSearch` is a method of the session, so it can be called again, but there is no button event.
- WordSearch.Session.constructor: requires every word to fit the grid. For a longer word, the source draws from a negative range and indexes `grid` out of bounds, so that case is excluded rather than modelled. The configured words all fit (`WordSearch.DefaultConfigOk`).
- WordSearch.Session.constructor: requires the words to be distinct. With a repeated word, `foundWords` (which records each word once) can never reach `words.length`, so the completion test would never hold. The configured list is distinct.
- WordSearch.Session.constructor: the initial `grid = []` before generation is an empty `gridSize`×`gridSize` grid in the model, because generation replaces it at once.
- The characters of words: `Generator.CorrectedAllLetters` assumes the words are spelled in A-Z, as the configured words are.

## Findings

| source | as written | input that shows it | evidently intended | confidence | as-written member | corrected member |
|---|---|---|---|---|---|---|
| script.js:17-26 | `generateWordSearch` fills every cell with a random letter before it places the words. The `''` test of `canPlaceWord` is then never true, so an attempt is accepted only where the random letters already spell the word, and it writes each letter over itself. The puzzle is just the random fill, and the words usually appear nowhere in it | gridSize 3, words ["WEB"], every fill draw 0: every cell is 'A', and "WEB" lies along no path | place the words into the empty grid first, then fill only the cells still `''` with random letters | high (not executed) | Generator.FillFirstLosesWord | Generator.CorrectedKeepsPlacedWords |

`Generator.GeneratedGridIsFill` proves the general form: for every input, the generated grid equals the fill.
The intended order is `Generator.GenerateCorrected`. For it, `Generator.CorrectedKeepsPlacedWords` proves that
every placed word can be read back in the finished grid, and `Generator.CorrectedAllLetters` proves that no cell
is left `''`. `Generator.CorrectedPlacesWord` shows that, for any grid size and word that fits, a first attempt drawing 0 three times now puts the word across the top row of the finished grid; with gridSize 3 and "WEB" this is the input above. The
`Session` class keeps the source's order, so that its handlers model the code as written.
