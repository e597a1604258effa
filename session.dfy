/**
  The page's state and its event handlers: the grid, the run of selected
  cells and the list of found words, which the source keeps as globals,
  become the fields of one `Session`.
*/
module WordSearch {
  import opened Grids
  import opened Generator
  import opened Selection

  /** The configured word list. */
  const Words: seq<string> :=
    ["JAVASCRIPT", "HTML", "CSS", "WEB", "CODIGO", "PROGRAMACION", "ALGORITMO", "FUNCION", "VARIABLE"]

  /** The configured grid size. */
  const GridSize: nat := 15

  /** A word list fit for a grid of size `n`: no word longer than the grid, none twice. */
  predicate ConfigOk(words: seq<string>, n: nat) {
    (forall k :: 0 <= k < |words| ==> |words[k]| <= n) && NoDup(words)
  }

  lemma DefaultConfigOk()
    ensures ConfigOk(Words, GridSize)
  {
  }

  class Session {
    const words: seq<string>
    const gridSize: nat
    var grid: Grid
    var selectedCells: seq<Pos>
    var foundWords: seq<string>

    ghost predicate Valid()
      reads this
    {
      ConfigOk(words, gridSize) &&
      IsSquare(grid) && |grid| == gridSize &&
      RunOk(selectedCells, gridSize) &&
      NoDup(foundWords) && (forall i :: 0 <= i < |foundWords| ==> foundWords[i] in words)
    }

    /** The grid is `gridSize` by `gridSize`: all the grid-only handlers rely on. */
    ghost predicate GridOk()
      reads this
    {
      IsSquare(grid) && |grid| == gridSize
    }

    /**
      Loading the page: the configuration and empty globals, then
      `generateWordSearch` once the document has loaded.
    */
    constructor (words: seq<string>, gridSize: nat, letterDraws: seq<seq<real>>, wordDraws: seq<seq<Draw>>)
      requires ConfigOk(words, gridSize)
      requires IsFillDraws(letterDraws, gridSize) && IsWordsDraws(words, wordDraws, gridSize)
      ensures Valid() && this.words == words && this.gridSize == gridSize
      ensures grid == Generate(gridSize, words, letterDraws, wordDraws) && AllLetters(grid)
      ensures selectedCells == [] && foundWords == []
    {
      this.words := words;
      this.gridSize := gridSize;
      grid := EmptyGrid(gridSize);
      selectedCells := [];
      foundWords := [];
      new;
      GenerateWordSearch(letterDraws, wordDraws);
    }

    // ------------------------------------------------------------ generation

    /**
      `generateWordSearch`: a fresh empty grid and no found words, the
      random fill, then the placement of every word. The grid that results
      is the random fill itself, every cell a letter from A-Z.
    */
    method GenerateWordSearch(letterDraws: seq<seq<real>>, wordDraws: seq<seq<Draw>>)
      requires Valid()
      requires IsFillDraws(letterDraws, gridSize) && IsWordsDraws(words, wordDraws, gridSize)
      modifies this
      ensures Valid() && selectedCells == old(selectedCells) && foundWords == []
      ensures grid == Generate(gridSize, words, letterDraws, wordDraws)
      ensures grid == Filled(letterDraws, gridSize) && AllLetters(grid)
    {
      grid := EmptyGrid(gridSize);
      foundWords := [];
      FillGridWithRandomLetters(letterDraws);
      PlaceWords(wordDraws);
      GeneratedGridIsFill(gridSize, words, letterDraws, wordDraws);
    }

    /** `fillGridWithRandomLetters`: every cell, row by row, gets its drawn letter. */
    method FillGridWithRandomLetters(letterDraws: seq<seq<real>>)
      requires Valid() && IsFillDraws(letterDraws, gridSize)
      modifies this`grid
      ensures Valid() && grid == Filled(letterDraws, gridSize)
    {
      var n := gridSize;
      for i := 0 to n
        invariant IsSquare(grid) && |grid| == n
        invariant forall q :: InGrid(n, q) && q.row < i ==> At(grid, q) == DrawnLetter(letterDraws[q.row][q.col])
      {
        for j := 0 to n
          invariant IsSquare(grid) && |grid| == n
          invariant forall q :: InGrid(n, q) && (q.row < i || (q.row == i && q.col < j)) ==>
                      At(grid, q) == DrawnLetter(letterDraws[q.row][q.col])
        {
          grid := SetCell(grid, Pos(i, j), DrawnLetter(letterDraws[i][j]));
        }
      }
      SameCells(grid, Filled(letterDraws, n));
    }

    /** `placeWords`: `placeWordInGrid` for each word, in list order. */
    method PlaceWords(wordDraws: seq<seq<Draw>>)
      requires GridOk() && IsWordsDraws(words, wordDraws, gridSize)
      modifies this`grid
      ensures GridOk() && grid == PlaceAll(old(grid), words, wordDraws)
    {
      ghost var stages := StagesChain(grid, words, wordDraws);
      for k := 0 to |words|
        invariant grid == stages[k]
      {
        PlaceWordInGrid(words[k], wordDraws[k]);
      }
    }

    /**
      `placeWordInGrid`: up to `MaxAttempts` attempts, each drawing a
      direction and a start; the first one `canPlaceWord` accepts is written
      and ends the loop, and when none is accepted the grid stays as it was.
    */
    method PlaceWordInGrid(word: string, draws: seq<Draw>)
      requires GridOk() && |word| <= gridSize && IsWordDraws(draws)
      modifies this`grid
      ensures grid == PlaceWord(old(grid), word, draws)
    {
      ghost var before := grid;
      var placed := false;
      var attempts := 0;
      while !placed && attempts < MaxAttempts
        invariant GridOk() && 0 <= attempts <= MaxAttempts
        invariant !placed ==> grid == before
        invariant !placed ==> FirstFit(before, word, draws, 0) == FirstFit(before, word, draws, attempts)
        invariant placed ==> grid == PlaceWord(before, word, draws)
        decreases MaxAttempts - attempts
      {
        var k := attempts;
        attempts := attempts + 1;
        var p := Attempt(draws[k], |word|, gridSize);
        var ok := CanPlaceWord(word, p);
        if ok {
          assert FirstFit(before, word, draws, k) == Some(k);
          PlaceWordAtLocation(word, p);
          placed := true;
        } else {
          assert FirstFit(before, word, draws, k) == FirstFit(before, word, draws, k + 1);
        }
      }
    }

    /**
      `canPlaceWord`: walks the path and stops at the first cell that holds
      a different letter; it changes nothing.
    */
    method CanPlaceWord(word: string, p: Placement) returns (ok: bool)
      requires GridOk() && Fits(gridSize, |word|, p)
      ensures ok <==> CanPlace(grid, word, p)
    {
      for i := 0 to |word|
        invariant forall j :: 0 <= j < i ==> Accepts(At(grid, PathCell(p, j)), word[j])
      {
        var x := p.x + i * p.dir.x;
        var y := p.y + i * p.dir.y;
        assert At(grid, PathCell(p, i)) == grid[y][x];
        if grid[y][x] != Empty && grid[y][x] != Letter(word[i]) {
          return false;
        }
      }
      return true;
    }

    /** `placeWordAtLocation`: writes letter `i` of the word into path cell `i`. */
    method PlaceWordAtLocation(word: string, p: Placement)
      requires GridOk() && Fits(gridSize, |word|, p)
      modifies this`grid
      ensures grid == PlaceAt(old(grid), word, p)
    {
      for i := 0 to |word|
        invariant GridOk()
        invariant grid == PlaceLetters(old(grid), word, p, i)
      {
        var x := p.x + i * p.dir.x;
        var y := p.y + i * p.dir.y;
        assert Pos(y, x) == PathCell(p, i);
        grid := SetCell(grid, Pos(y, x), Letter(word[i]));
      }
    }

    // ------------------------------------------------------------ selection

    /** `handleMouseDown`: the run becomes the single anchor cell. */
    method HandleMouseDown(row: int, col: int)
      requires Valid() && InGrid(gridSize, Pos(row, col))
      modifies this`selectedCells
      ensures Valid() && selectedCells == [Pos(row, col)]
    {
      selectedCells := [Pos(row, col)];
      assert Run(Pos(row, col), Pos(row, col)) == selectedCells;
    }

    /**
      `handleMouseOver`: with a run in progress, a target that
      `isValidSelection` accepts rebuilds the run from the anchor; any other
      target leaves the run as it is.
    */
    method HandleMouseOver(row: int, col: int)
      requires Valid() && InGrid(gridSize, Pos(row, col))
      modifies this`selectedCells
      ensures Valid() && selectedCells == AfterOver(old(selectedCells), Pos(row, col))
    {
      OverKeepsRunOk(selectedCells, Pos(row, col), gridSize);
      if |selectedCells| > 0 {
        if ValidTarget(selectedCells, Pos(row, col)) {
          UpdateSelection(row, col);
        }
      }
    }

    /**
      `updateSelection`: from the anchor, push the current cell and take one
      unit step (sign rowDiff, sign colDiff) until the target has been
      pushed. The loop ends only because the target is on a line through
      the anchor.
    */
    method UpdateSelection(row: int, col: int)
      requires selectedCells != [] && Aligned(selectedCells[0], Pos(row, col))
      modifies this`selectedCells
      ensures selectedCells == Run(old(selectedCells)[0], Pos(row, col))
    {
      var anchor, target := selectedCells[0], Pos(row, col);
      var stepRow := Sign(row - anchor.row);
      var stepCol := Sign(col - anchor.col);
      ghost var run := Run(anchor, target);
      RunIsStraight(anchor, target);
      var r, c := anchor.row, anchor.col;
      selectedCells := [];
      while true
        invariant |selectedCells| <= Span(anchor, target)
        invariant selectedCells == run[..|selectedCells|]
        invariant Pos(r, c) == run[|selectedCells|]
        decreases Span(anchor, target) - |selectedCells|
      {
        var m := |selectedCells|;
        selectedCells := selectedCells + [Pos(r, c)];
        if r == row && c == col {
          assert m == Span(anchor, target);
          break;
        }
        assert m < Span(anchor, target);
        r := r + stepRow;
        c := c + stepCol;
      }
      assert selectedCells == run;
    }

    /**
      `handleMouseUp`: a run of more than one cell is checked, then the run
      is cleared whatever the outcome. `completed` says whether the
      congratulation was scheduled: a word was newly found and the count
      test says all are.
    */
    method HandleMouseUp() returns (completed: bool)
      requires Valid()
      modifies this`selectedCells, this`foundWords
      ensures Valid() && selectedCells == []
      ensures foundWords == MouseUpFound(words, grid, old(foundWords), old(selectedCells))
      ensures completed <==> foundWords != old(foundWords) && AllFound(foundWords, words)
      ensures completed ==> forall w :: w in words ==> w in foundWords
    {
      completed := false;
      if |selectedCells| > 1 {
        completed := CheckSelectedWord();
      }
      selectedCells := [];
      CompletionMeansEveryWordFound(foundWords, words);
    }

    /**
      `checkSelectedWord`: the forward string of the run if it is a word,
      else the reversed string if that is a word, is marked as found.
    */
    method CheckSelectedWord() returns (completed: bool)
      requires Valid() && |selectedCells| > 1
      modifies this`foundWords
      ensures Valid()
      ensures foundWords == MouseUpFound(words, grid, old(foundWords), selectedCells)
      ensures completed <==> foundWords != old(foundWords) && AllFound(foundWords, words)
    {
      var selectedWord := RunText(grid, selectedCells);
      var reversedWord := Reverse(selectedWord);
      if selectedWord in words {
        assert MatchedWord(words, selectedWord) == Some(selectedWord);
        completed := MarkWordAsFound(selectedWord);
      } else if reversedWord in words {
        assert MatchedWord(words, selectedWord) == Some(reversedWord);
        completed := MarkWordAsFound(reversedWord);
      } else {
        assert MatchedWord(words, selectedWord) == None;
        completed := false;
      }
    }

    /**
      `markWordAsFound`: a word not found yet is appended, and only then is
      the `checkAllWordsFound` count test made.
    */
    method MarkWordAsFound(w: string) returns (completed: bool)
      requires Valid() && w in words
      modifies this`foundWords
      ensures Valid() && foundWords == MarkFound(old(foundWords), w)
      ensures completed <==> w !in old(foundWords) && AllFound(foundWords, words)
    {
      completed := false;
      if w !in foundWords {
        foundWords := foundWords + [w];
        completed := AllFound(foundWords, words);
      }
    }
  }
}
