/**
  Puzzle generation: the random letter fill, the random choice of a
  direction and a start for each word, the placement check and the
  placement itself, all as functions of the grid value and of the values
  `Math.random()` returned (each a real in [0, 1) supplied by the caller).
*/
module Generator {
  import opened Grids

  const Alphabet := "ABCDEFGHIJKLMNOPQRSTUVWXYZ"

  /** Attempts one word gets before it is silently left out. */
  const MaxAttempts := 50

  datatype Vec = Vec(x: int, y: int)

  /** The three placement directions: horizontal, vertical, diagonal down-right. */
  type Direction = v: Vec | v == Vec(1, 0) || v == Vec(0, 1) || v == Vec(1, 1) witness Vec(1, 0)

  const Directions: seq<Direction> := [Vec(1, 0), Vec(0, 1), Vec(1, 1)]

  /** A start column `x`, a start row `y` and a direction for one word. */
  datatype Placement = Placement(dir: Direction, x: int, y: int)

  /** The cell that letter `i` of a word placed at `p` goes to. */
  function PathCell(p: Placement, i: int): Pos {
    Pos(p.y + i * p.dir.y, p.x + i * p.dir.x)
  }

  /** The whole path of a word of length `len` lies inside an `n`-by-`n` grid. */
  predicate Fits(n: int, len: int, p: Placement) {
    forall i :: 0 <= i < len ==> InGrid(n, PathCell(p, i))
  }

  /** Which letter of the word a cell on the path of `p` would hold. */
  function PathIndex(p: Placement, q: Pos): int {
    if p.dir.x == 1 then q.col - p.x else q.row - p.y
  }

  /** Cell `q` is one of the first `len` cells of the path of `p`. */
  predicate OnPath(p: Placement, len: int, q: Pos) {
    0 <= PathIndex(p, q) < len && PathCell(p, PathIndex(p, q)) == q
  }

  lemma PathIndexOfPathCell(p: Placement, i: int)
    ensures PathIndex(p, PathCell(p, i)) == i
  {
  }

  // ---------------------------------------------------------------- randomness

  /** A value `Math.random()` can return. */
  predicate IsUnit(u: real) {
    0.0 <= u < 1.0
  }

  /** `Math.floor(u * k)` for a draw `u` of `Math.random()`. */
  function RandomBelow(u: real, k: int): (r: int)
    requires IsUnit(u) && 0 <= k
    ensures 0 < k ==> 0 <= r < k
    ensures k == 0 ==> r == 0
  {
    var x := u * k as real;
    assert 0 < k ==> 0.0 <= x < k as real by {
      if 0 < k { UnitScale(u, k as real); }
    }
    x.Floor
  }

  lemma UnitScale(u: real, k: real)
    requires IsUnit(u) && 0.0 < k
    ensures 0.0 <= u * k < k
  {
  }

  /** A letter drawn uniformly from A-Z by `letters.charAt(Math.floor(Math.random() * 26))`. */
  function DrawnLetter(u: real): (c: Cell)
    requires IsUnit(u)
    ensures c.Letter? && c.ch in Alphabet
  {
    Letter(Alphabet[RandomBelow(u, |Alphabet|)])
  }

  /** The three draws of one placement attempt: direction, then x start, then y start. */
  datatype Draw = Draw(dir: real, x: real, y: real)

  predicate IsDraw(d: Draw) {
    IsUnit(d.dir) && IsUnit(d.x) && IsUnit(d.y)
  }

  /** The draws for one word: one per attempt. */
  predicate IsWordDraws(ds: seq<Draw>) {
    |ds| == MaxAttempts && forall k :: 0 <= k < |ds| ==> IsDraw(ds[k])
  }

  /** The draws of the fill: one per cell, row by row. */
  predicate IsFillDraws(ld: seq<seq<real>>, n: nat) {
    |ld| == n && forall y :: 0 <= y < n ==> |ld[y]| == n && forall x :: 0 <= x < n ==> IsUnit(ld[y][x])
  }

  /** The direction and start one attempt picks for a word of length `len`. */
  function Attempt(d: Draw, len: nat, n: nat): (p: Placement)
    requires IsDraw(d) && len <= n
    ensures p.dir in Directions && 0 <= p.x && 0 <= p.y
    ensures Fits(n, len, p)
  {
    var dir := Directions[RandomBelow(d.dir, |Directions|)];
    AttemptFits(dir, len, n, RandomBelow(d.x, n - len * dir.x), RandomBelow(d.y, n - len * dir.y));
    Placement(dir, RandomBelow(d.x, n - len * dir.x), RandomBelow(d.y, n - len * dir.y))
  }

  /**
    A start below `n - len * d` in each coordinate (or 0 when that bound is
    0) keeps the whole path of a word no longer than the grid inside it.
  */
  lemma AttemptFits(dir: Direction, len: nat, n: nat, x: int, y: int)
    requires len <= n
    requires 0 <= x && (x < n - len * dir.x || x == 0 == n - len * dir.x)
    requires 0 <= y && (y < n - len * dir.y || y == 0 == n - len * dir.y)
    ensures Fits(n, len, Placement(dir, x, y))
  {
  }

  /**
    Each start coordinate is drawn below `n - len * d`, which keeps the
    last letter inside the grid whenever the word is no longer than the
    grid. When that bound is positive, a start drawn that way is never
    `n - len * d` itself, so a word shorter than the grid never reaches
    the last column when it runs across, nor the last row when it runs
    down. When it is 0, the start is 0, which is the bound itself.
  */
  lemma AttemptBounds(d: Draw, len: nat, n: nat)
    requires IsDraw(d) && len <= n
    ensures var p := Attempt(d, len, n);
            && (0 < len ==> p.x + (len - 1) * p.dir.x <= n - 1 && p.y + (len - 1) * p.dir.y <= n - 1)
            && (len < n ==> p.x + len * p.dir.x <= n - 1 && p.y + len * p.dir.y <= n - 1)
  {
    var p := Attempt(d, len, n);
    assert p.x < n - len * p.dir.x || n - len * p.dir.x == 0;
    assert p.y < n - len * p.dir.y || n - len * p.dir.y == 0;
  }

  // ---------------------------------------------------------------- one placement

  /** A cell accepts a letter when it is still empty or already holds that letter. */
  predicate Accepts(c: Cell, ch: char) {
    c == Empty || c == Letter(ch)
  }

  /** `canPlaceWord`: every cell on the path accepts its letter of the word. */
  predicate CanPlace(g: Grid, w: string, p: Placement)
    requires IsSquare(g) && Fits(|g|, |w|, p)
  {
    forall i {:trigger At(g, PathCell(p, i))} :: 0 <= i < |w| ==> Accepts(At(g, PathCell(p, i)), w[i])
  }

  /**
    On a grid with no empty cell, `canPlaceWord` accepts a path only where
    the grid already spells the word along it.
  */
  lemma FullGridAcceptsOnlySpelled(g: Grid, w: string, p: Placement)
    requires IsSquare(g) && Fits(|g|, |w|, p) && NoEmpty(g)
    ensures CanPlace(g, w, p) <==> forall i :: 0 <= i < |w| ==> At(g, PathCell(p, i)) == Letter(w[i])
  {
    if !CanPlace(g, w, p) {
      var i :| 0 <= i < |w| && !Accepts(At(g, PathCell(p, i)), w[i]);
      assert At(g, PathCell(p, i)) != Letter(w[i]);
    }
  }

  /** The grid after the first `k` letters of `w` are written along `p`. */
  function PlaceLetters(g: Grid, w: string, p: Placement, k: nat): (r: Grid)
    requires IsSquare(g) && Fits(|g|, |w|, p) && k <= |w|
    ensures IsSquare(r) && |r| == |g|
  {
    if k == 0 then g
    else SetCell(PlaceLetters(g, w, p, k - 1), PathCell(p, k - 1), Letter(w[k - 1]))
  }

  /** `placeWordAtLocation`: every letter of `w` written along `p`. */
  function PlaceAt(g: Grid, w: string, p: Placement): (r: Grid)
    requires IsSquare(g) && Fits(|g|, |w|, p)
    ensures IsSquare(r) && |r| == |g|
  {
    PlaceLetters(g, w, p, |w|)
  }

  lemma {:induction false} PlaceLettersAt(g: Grid, w: string, p: Placement, k: nat, q: Pos)
    requires IsSquare(g) && Fits(|g|, |w|, p) && k <= |w| && InGrid(|g|, q)
    ensures At(PlaceLetters(g, w, p, k), q) ==
            if OnPath(p, k, q) then Letter(w[PathIndex(p, q)]) else At(g, q)
  {
    if k > 0 {
      PlaceLettersAt(g, w, p, k - 1, q);
      PathIndexOfPathCell(p, k - 1);
    }
  }

  /**
    After `placeWordAtLocation`, the `|w|` cells from the start along the
    direction spell `w`, and every cell off that path is unchanged.
  */
  lemma PlaceAtReadsBack(g: Grid, w: string, p: Placement)
    requires IsSquare(g) && Fits(|g|, |w|, p)
    ensures forall i :: 0 <= i < |w| ==> At(PlaceAt(g, w, p), PathCell(p, i)) == Letter(w[i])
    ensures forall q :: InGrid(|g|, q) && !OnPath(p, |w|, q) ==> At(PlaceAt(g, w, p), q) == At(g, q)
  {
    forall i | 0 <= i < |w|
      ensures At(PlaceAt(g, w, p), PathCell(p, i)) == Letter(w[i])
    {
      PathIndexOfPathCell(p, i);
      PlaceLettersAt(g, w, p, |w|, PathCell(p, i));
    }
    forall q | InGrid(|g|, q) && !OnPath(p, |w|, q)
      ensures At(PlaceAt(g, w, p), q) == At(g, q)
    {
      PlaceLettersAt(g, w, p, |w|, q);
    }
  }

  /**
    A placement that `canPlaceWord` accepted never changes a letter already
    in the grid: only empty cells receive new letters.
  */
  lemma CheckedPlacementKeepsLetters(g: Grid, w: string, p: Placement)
    requires IsSquare(g) && Fits(|g|, |w|, p) && CanPlace(g, w, p)
    ensures Keeps(g, PlaceAt(g, w, p))
  {
    forall q | InGrid(|g|, q) && At(g, q) != Empty
      ensures At(PlaceAt(g, w, p), q) == At(g, q)
    {
      PlaceLettersAt(g, w, p, |w|, q);
      if OnPath(p, |w|, q) {
        var i := PathIndex(p, q);
        assert Accepts(At(g, PathCell(p, i)), w[i]);
      }
    }
  }

  // ---------------------------------------------------------------- one word

  /**
    The first attempt, from attempt `k` on, whose placement `canPlaceWord`
    accepts; `None` when none of the attempts left before the cap is accepted.
  */
  function FirstFit(g: Grid, w: string, ds: seq<Draw>, k: nat): (r: Option<nat>)
    requires IsSquare(g) && |w| <= |g| && IsWordDraws(ds) && k <= MaxAttempts
    ensures r.Some? ==> k <= r.value < MaxAttempts
    decreases MaxAttempts - k
  {
    if k == MaxAttempts then None
    else if CanPlace(g, w, Attempt(ds[k], |w|, |g|)) then Some(k)
    else FirstFit(g, w, ds, k + 1)
  }

  /**
    `FirstFit` finds the first accepted attempt: the one it returns is
    accepted, and every attempt before it (all of them when it returns
    `None`) is rejected.
  */
  lemma {:induction false} FirstFitIsFirst(g: Grid, w: string, ds: seq<Draw>, k: nat)
    requires IsSquare(g) && |w| <= |g| && IsWordDraws(ds) && k <= MaxAttempts
    ensures var r := FirstFit(g, w, ds, k);
            (r.Some? ==> CanPlace(g, w, Attempt(ds[r.value], |w|, |g|))) &&
            forall j {:trigger Attempt(ds[j], |w|, |g|)} :: k <= j < (if r.Some? then r.value else MaxAttempts) ==>
              !CanPlace(g, w, Attempt(ds[j], |w|, |g|))
    decreases MaxAttempts - k
  {
    if k < MaxAttempts && !CanPlace(g, w, Attempt(ds[k], |w|, |g|)) {
      FirstFitIsFirst(g, w, ds, k + 1);
    }
  }

  /** Where `placeWordInGrid` puts `w`, or `None` when all attempts fail. */
  function WherePlaced(g: Grid, w: string, ds: seq<Draw>): (r: Option<Placement>)
    requires IsSquare(g) && |w| <= |g| && IsWordDraws(ds)
    ensures r.Some? ==> Fits(|g|, |w|, r.value) && CanPlace(g, w, r.value)
  {
    FirstFitIsFirst(g, w, ds, 0);
    match FirstFit(g, w, ds, 0)
    case None => None
    case Some(k) => Some(Attempt(ds[k], |w|, |g|))
  }

  /** `placeWordInGrid`: the grid after the attempts for `w`. */
  function PlaceWord(g: Grid, w: string, ds: seq<Draw>): (r: Grid)
    requires IsSquare(g) && |w| <= |g| && IsWordDraws(ds)
    ensures IsSquare(r) && |r| == |g|
  {
    match WherePlaced(g, w, ds)
    case None => g
    case Some(p) => PlaceAt(g, w, p)
  }

  /** Placing a word only fills empty cells or rewrites a letter with itself. */
  lemma PlaceWordKeepsLetters(g: Grid, w: string, ds: seq<Draw>)
    requires IsSquare(g) && |w| <= |g| && IsWordDraws(ds)
    ensures Keeps(g, PlaceWord(g, w, ds))
  {
    match WherePlaced(g, w, ds)
    case None =>
    case Some(p) => CheckedPlacementKeepsLetters(g, w, p);
  }

  /** A placed word can be read back along its placement. */
  lemma PlaceWordReadsBack(g: Grid, w: string, ds: seq<Draw>)
    requires IsSquare(g) && |w| <= |g| && IsWordDraws(ds)
    requires WherePlaced(g, w, ds).Some?
    ensures forall i :: 0 <= i < |w| ==>
              At(PlaceWord(g, w, ds), PathCell(WherePlaced(g, w, ds).value, i)) == Letter(w[i])
  {
    PlaceAtReadsBack(g, w, WherePlaced(g, w, ds).value);
  }

  // ---------------------------------------------------------------- all words

  /** Every word fits the grid and comes with its draws. */
  predicate IsWordsDraws(ws: seq<string>, ds: seq<seq<Draw>>, n: nat) {
    |ds| == |ws| && forall k :: 0 <= k < |ws| ==> |ws[k]| <= n && IsWordDraws(ds[k])
  }

  /** `placeWords` up to word `m`: the first `m` words, each in turn, in list order. */
  function PlaceFirst(g: Grid, ws: seq<string>, ds: seq<seq<Draw>>, m: nat): (r: Grid)
    requires IsSquare(g) && IsWordsDraws(ws, ds, |g|) && m <= |ws|
    ensures IsSquare(r) && |r| == |g|
    decreases m
  {
    if m == 0 then g else PlaceWord(PlaceFirst(g, ws, ds, m - 1), ws[m - 1], ds[m - 1])
  }

  /** `placeWords`: every word of the list. */
  function PlaceAll(g: Grid, ws: seq<string>, ds: seq<seq<Draw>>): (r: Grid)
    requires IsSquare(g) && IsWordsDraws(ws, ds, |g|)
    ensures IsSquare(r) && |r| == |g|
  {
    PlaceFirst(g, ws, ds, |ws|)
  }

  /** Placing word `j - 1` keeps every letter the first `j - 1` words left. */
  lemma PlaceFirstStepKeeps(g: Grid, ws: seq<string>, ds: seq<seq<Draw>>, j: nat)
    requires IsSquare(g) && IsWordsDraws(ws, ds, |g|) && 0 < j <= |ws|
    ensures Keeps(PlaceFirst(g, ws, ds, j - 1), PlaceFirst(g, ws, ds, j))
  {
    PlaceWordKeepsLetters(PlaceFirst(g, ws, ds, j - 1), ws[j - 1], ds[j - 1]);
  }

  /** The grid before any word is placed, then the grid after each word. */
  ghost function Stages(g: Grid, ws: seq<string>, ds: seq<seq<Draw>>): (gs: seq<Grid>)
    requires IsSquare(g) && IsWordsDraws(ws, ds, |g|)
    ensures |gs| == |ws| + 1
    ensures forall i :: 0 <= i <= |ws| ==> gs[i] == PlaceFirst(g, ws, ds, i)
  {
    seq(|ws| + 1, i requires 0 <= i <= |ws| => PlaceFirst(g, ws, ds, i))
  }

  /**
    The stages as a chain: the first is `g`, each next one is the grid after
    one more word, and the last is the grid after all of them.
  */
  lemma StagesChain(g: Grid, ws: seq<string>, ds: seq<seq<Draw>>) returns (gs: seq<Grid>)
    requires IsSquare(g) && IsWordsDraws(ws, ds, |g|)
    ensures |gs| == |ws| + 1 && gs[0] == g && gs[|ws|] == PlaceAll(g, ws, ds)
    ensures forall i :: 0 <= i < |ws| ==> IsSquare(gs[i]) && |gs[i]| == |g|
    ensures forall i :: 0 <= i < |ws| ==> gs[i + 1] == PlaceWord(gs[i], ws[i], ds[i])
  {
    gs := Stages(g, ws, ds);
    forall i | 0 <= i < |ws|
      ensures gs[i + 1] == PlaceWord(gs[i], ws[i], ds[i])
    {
      var before := PlaceFirst(g, ws, ds, i);
      assert gs[i] == before;
      assert gs[i + 1] == PlaceFirst(g, ws, ds, i + 1);
    }
  }

  /** Each stage keeps every letter of the stage before it. */
  lemma StagesKeepLetters(g: Grid, ws: seq<string>, ds: seq<seq<Draw>>)
    requires IsSquare(g) && IsWordsDraws(ws, ds, |g|)
    ensures forall i :: 0 < i <= |ws| ==> Keeps(Stages(g, ws, ds)[i - 1], Stages(g, ws, ds)[i])
  {
    forall i | 0 < i <= |ws|
      ensures Keeps(Stages(g, ws, ds)[i - 1], Stages(g, ws, ds)[i])
    {
      PlaceFirstStepKeeps(g, ws, ds, i);
    }
  }

  /**
    Placing the words from the `m`-th on keeps every letter in the grid the
    first `m` words left.
  */
  lemma PlaceFirstKeepsLetters(g: Grid, ws: seq<string>, ds: seq<seq<Draw>>, m: nat, j: nat)
    requires IsSquare(g) && IsWordsDraws(ws, ds, |g|) && m <= j <= |ws|
    ensures Keeps(PlaceFirst(g, ws, ds, m), PlaceFirst(g, ws, ds, j))
  {
    StagesKeepLetters(g, ws, ds);
    KeepsAlong(Stages(g, ws, ds), m, j);
  }

  /** Placing a list of words keeps every letter of the grid they are placed into. */
  lemma PlaceAllKeepsGrid(g: Grid, ws: seq<string>, ds: seq<seq<Draw>>)
    requires IsSquare(g) && IsWordsDraws(ws, ds, |g|)
    ensures Keeps(g, PlaceAll(g, ws, ds))
  {
    PlaceFirstKeepsLetters(g, ws, ds, 0, |ws|);
  }

  // ---------------------------------------------------------------- the fill

  /** `fillGridWithRandomLetters`: every cell gets its own drawn letter. */
  function Filled(ld: seq<seq<real>>, n: nat): (g: Grid)
    requires IsFillDraws(ld, n)
    ensures IsSquare(g) && |g| == n && NoEmpty(g)
  {
    seq(n, y requires 0 <= y < n => seq(n, x requires 0 <= x < n => DrawnLetter(ld[y][x])))
  }

  /** Every cell of a grid holds one letter from A-Z. */
  ghost predicate AllLetters(g: Grid)
    requires IsSquare(g)
  {
    forall q :: InGrid(|g|, q) ==> At(g, q).Letter? && At(g, q).ch in Alphabet
  }

  // ---------------------------------------------------------------- generation

  /**
    `generateWordSearch` as the source orders it: a fresh grid, the random
    fill of every cell, and only then the placement of the words.
  */
  function Generate(n: nat, ws: seq<string>, ld: seq<seq<real>>, ds: seq<seq<Draw>>): (g: Grid)
    requires IsFillDraws(ld, n) && IsWordsDraws(ws, ds, n)
    ensures IsSquare(g) && |g| == n
  {
    PlaceAll(Filled(ld, n), ws, ds)
  }

  /**
    Because the fill comes first, no cell is empty when the words are
    placed, so a placement succeeds only where the drawn letters already
    spell the word and then rewrites each letter with itself: the generated
    grid is exactly the random fill, all of it letters from A-Z.
  */
  lemma GeneratedGridIsFill(n: nat, ws: seq<string>, ld: seq<seq<real>>, ds: seq<seq<Draw>>)
    requires IsFillDraws(ld, n) && IsWordsDraws(ws, ds, n)
    ensures Generate(n, ws, ld, ds) == Filled(ld, n)
    ensures AllLetters(Generate(n, ws, ld, ds))
  {
    var f := Filled(ld, n);
    PlaceAllKeepsGrid(f, ws, ds);
    KeepsFullGrid(f, Generate(n, ws, ld, ds));
  }

  /** No placement of `w` reads `w` back from `g`. */
  ghost predicate Absent(g: Grid, w: string)
    requires IsSquare(g)
  {
    forall p: Placement :: Fits(|g|, |w|, p) ==>
      exists i :: 0 <= i < |w| && At(g, PathCell(p, i)) != Letter(w[i])
  }

  /**
    The order as written loses words: on a 3-by-3 grid with the word list
    ["WEB"], when every draw of the fill is 0 the fill writes 'A' everywhere,
    whatever the attempts draw none of them is accepted, and "WEB" can be
    read nowhere in the generated grid.
  */
  lemma FillFirstLosesWord(ld: seq<seq<real>>, ds: seq<Draw>)
    requires IsFillDraws(ld, 3) && IsWordDraws(ds)
    requires forall y, x :: 0 <= y < 3 && 0 <= x < 3 ==> ld[y][x] == 0.0
    ensures var g := Generate(3, ["WEB"], ld, [ds]);
            (forall q :: InGrid(3, q) ==> At(g, q) == Letter('A')) && Absent(g, "WEB")
  {
    var g := Generate(3, ["WEB"], ld, [ds]);
    GeneratedGridIsFill(3, ["WEB"], ld, [ds]);
    forall q | InGrid(3, q)
      ensures At(g, q) == Letter('A')
    {
      assert ld[q.row][q.col] == 0.0;
      assert RandomBelow(0.0, 26) == 0;
    }
    forall p: Placement | Fits(3, 3, p)
      ensures exists i :: 0 <= i < 3 && At(g, PathCell(p, i)) != Letter("WEB"[i])
    {
      assert InGrid(3, PathCell(p, 0));
      assert At(g, PathCell(p, 0)) != Letter("WEB"[0]);
    }
  }

  // ---------------------------------------------------------------- the intended order

  /** Every empty cell gets its drawn letter; letters already placed stay. */
  function FillEmpty(g: Grid, ld: seq<seq<real>>): (r: Grid)
    requires IsSquare(g) && IsFillDraws(ld, |g|)
    ensures IsSquare(r) && |r| == |g| && Keeps(g, r)
    ensures forall q :: InGrid(|g|, q) && At(g, q) == Empty ==> At(r, q) == DrawnLetter(ld[q.row][q.col])
  {
    seq(|g|, y requires 0 <= y < |g| => seq(|g|, x requires 0 <= x < |g| =>
      if g[y][x] == Empty then DrawnLetter(ld[y][x]) else g[y][x]))
  }

  /**
    The intended generator: the words are placed into the empty grid
    first, and only the cells no word took are filled at random.
  */
  function GenerateCorrected(n: nat, ws: seq<string>, ld: seq<seq<real>>, ds: seq<seq<Draw>>): (g: Grid)
    requires IsFillDraws(ld, n) && IsWordsDraws(ws, ds, n)
    ensures IsSquare(g) && |g| == n
  {
    FillEmpty(PlaceAll(EmptyGrid(n), ws, ds), ld)
  }

  /** Every letter in the grid is one of A-Z. */
  ghost predicate LettersFromAlphabet(g: Grid)
    requires IsSquare(g)
  {
    forall q :: InGrid(|g|, q) && At(g, q).Letter? ==> At(g, q).ch in Alphabet
  }

  predicate IsUpperWord(w: string) {
    forall i :: 0 <= i < |w| ==> w[i] in Alphabet
  }

  /** Placing a word spelled in A-Z adds only letters from A-Z. */
  lemma PlaceWordLettersFromAlphabet(g: Grid, w: string, ds: seq<Draw>)
    requires IsSquare(g) && |w| <= |g| && IsWordDraws(ds)
    requires LettersFromAlphabet(g) && IsUpperWord(w)
    ensures LettersFromAlphabet(PlaceWord(g, w, ds))
  {
    match WherePlaced(g, w, ds)
    case None =>
    case Some(p) =>
      forall q | InGrid(|g|, q) && At(PlaceAt(g, w, p), q).Letter?
        ensures At(PlaceAt(g, w, p), q).ch in Alphabet
      {
        PlaceLettersAt(g, w, p, |w|, q);
      }
  }

  lemma PlaceFirstLettersFromAlphabet(g: Grid, ws: seq<string>, ds: seq<seq<Draw>>, m: nat)
    requires IsSquare(g) && IsWordsDraws(ws, ds, |g|) && m <= |ws| && LettersFromAlphabet(g)
    requires forall k :: 0 <= k < |ws| ==> IsUpperWord(ws[k])
    ensures LettersFromAlphabet(PlaceFirst(g, ws, ds, m))
  {
    var f := (i: nat) => if i <= |ws| then PlaceFirst(g, ws, ds, i) else g;
    var P := (h: Grid) => IsSquare(h) && LettersFromAlphabet(h);
    forall i | 0 < i <= m
      ensures P(f(i - 1)) ==> P(f(i))
    {
      var before := PlaceFirst(g, ws, ds, i - 1);
      if P(before) {
        PlaceWordLettersFromAlphabet(before, ws[i - 1], ds[i - 1]);
      }
    }
    ChainHolds(f, P, m);
  }

  /**
    With words spelled in A-Z, the intended generator leaves no cell
    empty and puts only letters from A-Z in the grid.
  */
  lemma CorrectedAllLetters(n: nat, ws: seq<string>, ld: seq<seq<real>>, ds: seq<seq<Draw>>)
    requires IsFillDraws(ld, n) && IsWordsDraws(ws, ds, n)
    requires forall k :: 0 <= k < |ws| ==> IsUpperWord(ws[k])
    ensures AllLetters(GenerateCorrected(n, ws, ld, ds))
  {
    PlaceFirstLettersFromAlphabet(EmptyGrid(n), ws, ds, |ws|);
  }

  /**
    A word that found a place can still be read along it after all the
    later words are placed: they only ever add letters.
  */
  lemma PlacedWordSurvives(g: Grid, ws: seq<string>, ds: seq<seq<Draw>>, k: nat)
    requires IsSquare(g) && IsWordsDraws(ws, ds, |g|) && k < |ws|
    requires WherePlaced(PlaceFirst(g, ws, ds, k), ws[k], ds[k]).Some?
    ensures var p := WherePlaced(PlaceFirst(g, ws, ds, k), ws[k], ds[k]).value;
            Fits(|g|, |ws[k]|, p) &&
            forall i :: 0 <= i < |ws[k]| ==> At(PlaceAll(g, ws, ds), PathCell(p, i)) == Letter(ws[k][i])
  {
    var before := PlaceFirst(g, ws, ds, k);
    var p := WherePlaced(before, ws[k], ds[k]).value;
    var placed := PlaceFirst(g, ws, ds, k + 1);
    PlaceWordReadsBack(before, ws[k], ds[k]);
    PlaceFirstKeepsLetters(g, ws, ds, k + 1, |ws|);
    var all := PlaceAll(g, ws, ds);
    assert Keeps(placed, all);
    forall i | 0 <= i < |ws[k]|
      ensures At(all, PathCell(p, i)) == Letter(ws[k][i])
    {
      var q := PathCell(p, i);
      assert InGrid(|g|, q);
      assert At(placed, q) == Letter(ws[k][i]);
    }
  }

  /**
    With the intended order, every word that found a place can be read
    back along that place in the finished grid: later words and the fill
    never overwrite it (so two words sharing a cell agree on its letter).
  */
  lemma CorrectedKeepsPlacedWords(n: nat, ws: seq<string>, ld: seq<seq<real>>, ds: seq<seq<Draw>>, k: nat)
    requires IsFillDraws(ld, n) && IsWordsDraws(ws, ds, n) && k < |ws|
    requires WherePlaced(PlaceFirst(EmptyGrid(n), ws, ds, k), ws[k], ds[k]).Some?
    ensures var p := WherePlaced(PlaceFirst(EmptyGrid(n), ws, ds, k), ws[k], ds[k]).value;
            forall i :: 0 <= i < |ws[k]| ==>
              At(GenerateCorrected(n, ws, ld, ds), PathCell(p, i)) == Letter(ws[k][i])
  {
    var e := EmptyGrid(n);
    var p := WherePlaced(PlaceFirst(e, ws, ds, k), ws[k], ds[k]).value;
    PlacedWordSurvives(e, ws, ds, k);
    var all := PlaceAll(e, ws, ds);
    var done := FillEmpty(all, ld);
    assert Keeps(all, done);
    forall i | 0 <= i < |ws[k]|
      ensures At(done, PathCell(p, i)) == Letter(ws[k][i])
    {
      var q := PathCell(p, i);
      assert InGrid(n, q) && At(all, q) == Letter(ws[k][i]);
    }
  }

  /** The first word goes where it fits in the empty grid, and the finished grid still reads it there. */
  lemma CorrectedKeepsFirstWord(n: nat, ws: seq<string>, ld: seq<seq<real>>, ds: seq<seq<Draw>>)
    requires IsFillDraws(ld, n) && IsWordsDraws(ws, ds, n) && 0 < |ws|
    requires WherePlaced(EmptyGrid(n), ws[0], ds[0]).Some?
    ensures var p := WherePlaced(EmptyGrid(n), ws[0], ds[0]).value;
            forall i :: 0 <= i < |ws[0]| ==>
              At(GenerateCorrected(n, ws, ld, ds), PathCell(p, i)) == Letter(ws[0][i])
  {
    assert PlaceFirst(EmptyGrid(n), ws, ds, 0) == EmptyGrid(n);
    CorrectedKeepsPlacedWords(n, ws, ld, ds, 0);
  }

  /** On a grid with no letters yet, the very first attempt is accepted. */
  lemma FirstAttemptFitsEmptyGrid(n: nat, w: string, ds: seq<Draw>)
    requires |w| <= n && IsWordDraws(ds)
    ensures WherePlaced(EmptyGrid(n), w, ds) == Some(Attempt(ds[0], |w|, n))
  {
    var e := EmptyGrid(n);
    var p := Attempt(ds[0], |w|, n);
    forall i | 0 <= i < |w|
      ensures Accepts(At(e, PathCell(p, i)), w[i])
    {
      assert InGrid(n, PathCell(p, i));
    }
  }

  /** An attempt that draws 0 three times goes across from the top-left corner. */
  lemma ZeroAttemptGoesAcross(len: nat, n: nat)
    requires len <= n
    ensures Attempt(Draw(0.0, 0.0, 0.0), len, n) == Placement(Vec(1, 0), 0, 0)
  {
    forall k: int | 0 <= k
      ensures RandomBelow(0.0, k) == 0
    {
      assert 0.0 * k as real == 0.0;
    }
  }

  /**
    The input of `FillFirstLosesWord` under the intended order, for any
    word and grid size: whatever the fill draws, when the first attempt
    draws 0 three times the word goes across the top row.
  */
  lemma CorrectedPlacesWord(n: nat, w: string, ld: seq<seq<real>>, ds: seq<Draw>)
    requires IsFillDraws(ld, n) && |w| <= n && IsWordDraws(ds) && ds[0] == Draw(0.0, 0.0, 0.0)
    ensures var g := GenerateCorrected(n, [w], ld, [ds]);
            forall i :: 0 <= i < |w| ==> At(g, Pos(0, i)) == Letter(w[i])
  {
    var p := Placement(Vec(1, 0), 0, 0);
    ZeroAttemptGoesAcross(|w|, n);
    FirstAttemptFitsEmptyGrid(n, w, ds);
    assert WherePlaced(EmptyGrid(n), w, ds) == Some(p);
    CorrectedKeepsFirstWord(n, [w], ld, [ds]);
    assert forall i :: 0 <= i < |w| ==> PathCell(p, i) == Pos(0, i);
  }
}
