/**
  Selection tracking and word checking: the run of cells a drag gesture
  selects from its anchor, the letters the run spells forwards and
  backwards, and how the list of found words changes when the gesture ends.
*/
module Selection {
  import opened Grids

  function Abs(z: int): nat {
    if z < 0 then -z else z
  }

  /** `z / Math.abs(z)`, and 0 when `z` is 0. */
  function Sign(z: int): int {
    if z == 0 then 0 else if z > 0 then 1 else -1
  }

  /** `t` lies on a horizontal, vertical or 45-degree line through `a`. */
  predicate Aligned(a: Pos, t: Pos) {
    var dr, dc := t.row - a.row, t.col - a.col;
    dr == 0 || dc == 0 || Abs(dr) == Abs(dc)
  }

  /** The unit step from `a` towards `t`: (sign of rowDiff, sign of colDiff). */
  function StepOf(a: Pos, t: Pos): Pos {
    Pos(Sign(t.row - a.row), Sign(t.col - a.col))
  }

  /** The number of steps from `a` to `t`: max(|rowDiff|, |colDiff|). */
  function Span(a: Pos, t: Pos): nat {
    var r, c := Abs(t.row - a.row), Abs(t.col - a.col);
    if r < c then c else r
  }

  /** The cell `k` steps of `s` away from `a`. */
  function Walk(a: Pos, s: Pos, k: int): Pos {
    Pos(a.row + k * s.row, a.col + k * s.col)
  }

  predicate IsUnitStep(s: Pos) {
    -1 <= s.row <= 1 && -1 <= s.col <= 1
  }

  /** `Span` steps of `StepOf` lead from `a` exactly to an aligned `t`. */
  lemma WalkSpanReachesTarget(a: Pos, t: Pos)
    requires Aligned(a, t)
    ensures Walk(a, StepOf(a, t), Span(a, t)) == t
  {
    var dr, dc := t.row - a.row, t.col - a.col;
    if dr != 0 {
      assert Span(a, t) == Abs(dr);
      assert Abs(dr) * Sign(dr) == dr;
    }
    if dc != 0 {
      assert Span(a, t) == Abs(dc);
      assert Abs(dc) * Sign(dc) == dc;
    }
  }

  /**
    The line test of `isValidSelection` holds exactly when `t` can be
    reached from `a` by repeating one horizontal, vertical or diagonal
    unit step.
  */
  lemma AlignedIffReachable(a: Pos, t: Pos)
    ensures Aligned(a, t) <==> exists s: Pos, k: int :: IsUnitStep(s) && 0 <= k && Walk(a, s, k) == t
  {
    if Aligned(a, t) {
      WalkSpanReachesTarget(a, t);
      assert IsUnitStep(StepOf(a, t));
    }
    if exists s: Pos, k: int :: IsUnitStep(s) && 0 <= k && Walk(a, s, k) == t {
      var s: Pos, k: int :| IsUnitStep(s) && 0 <= k && Walk(a, s, k) == t;
      assert t.row - a.row == k * s.row && t.col - a.col == k * s.col;
      if s.row != 0 && s.col != 0 {
        assert Abs(t.row - a.row) == k == Abs(t.col - a.col);
      }
    }
  }

  /**
    The run `updateSelection` builds: the anchor `a`, then one unit step
    at a time towards `t`, up to and including `t`.
  */
  function Run(a: Pos, t: Pos): (run: seq<Pos>)
    requires Aligned(a, t)
    ensures |run| == Span(a, t) + 1
    ensures run[0] == a && run[|run| - 1] == t
  {
    WalkSpanReachesTarget(a, t);
    seq(Span(a, t) + 1, i => Walk(a, StepOf(a, t), i))
  }

  /** Cell `i` of a run is `i` unit steps from the anchor. */
  lemma RunAt(a: Pos, t: Pos, i: int)
    requires Aligned(a, t) && 0 <= i <= Span(a, t)
    ensures Run(a, t)[i] == Walk(a, StepOf(a, t), i)
  {
  }

  /**
    A run has one constant unit step (sign rowDiff, sign colDiff), which is
    not zero when the target differs from the anchor, and no cell repeats.
  */
  lemma RunIsStraight(a: Pos, t: Pos)
    requires Aligned(a, t)
    ensures IsUnitStep(StepOf(a, t)) && (a != t ==> StepOf(a, t) != Pos(0, 0))
    ensures forall i :: 0 <= i < |Run(a, t)| - 1 ==> Run(a, t)[i + 1] == Walk(Run(a, t)[i], StepOf(a, t), 1)
    ensures forall i, j :: 0 <= i < j < |Run(a, t)| ==> Run(a, t)[i] != Run(a, t)[j]
  {
    var run, s := Run(a, t), StepOf(a, t);
    forall i, j | 0 <= i < j < |run|
      ensures run[i] != run[j]
    {
      assert run[i] == Walk(a, s, i) && run[j] == Walk(a, s, j);
      if s.row != 0 {
        assert j * s.row - i * s.row == (j - i) * s.row;
        assert (j - i) * s.row != 0;
      } else {
        assert a != t;
        assert s.col != 0;
        assert j * s.col - i * s.col == (j - i) * s.col;
        assert (j - i) * s.col != 0;
      }
    }
  }

  /** A run between two cells of the grid stays inside the grid. */
  lemma RunInsideGrid(n: int, a: Pos, t: Pos)
    requires Aligned(a, t) && InGrid(n, a) && InGrid(n, t)
    ensures forall i :: 0 <= i < |Run(a, t)| ==> InGrid(n, Run(a, t)[i])
  {
    var run, s := Run(a, t), StepOf(a, t);
    var dr, dc := t.row - a.row, t.col - a.col;
    forall i | 0 <= i < |run|
      ensures InGrid(n, run[i])
    {
      assert run[i] == Walk(a, s, i);
      assert dr != 0 ==> Span(a, t) == Abs(dr);
      assert dc != 0 ==> Span(a, t) == Abs(dc);
      assert 0 <= i <= Span(a, t);
    }
  }

  /** All cells of a run are in the grid. */
  predicate InsideGrid(n: int, run: seq<Pos>) {
    forall i :: 0 <= i < |run| ==> InGrid(n, run[i])
  }

  /**
    The shape every selection run keeps: inside the grid, and either empty
    or exactly the straight run from its first cell to its last.
  */
  predicate RunOk(run: seq<Pos>, n: int) {
    InsideGrid(n, run) &&
    (run != [] ==> Aligned(run[0], run[|run| - 1]) && run == Run(run[0], run[|run| - 1]))
  }

  /**
    `isValidSelection`: `t` is on a line from the anchor and not yet in the
    run, so the anchor itself is never a valid target.
  */
  predicate ValidTarget(run: seq<Pos>, t: Pos)
    requires run != []
    ensures ValidTarget(run, t) ==> t != run[0]
  {
    Aligned(run[0], t) && t !in run
  }

  /** The run after `handleMouseOver(t)`: there is one exactly when there was one, and its anchor stays. */
  function AfterOver(run: seq<Pos>, t: Pos): (r: seq<Pos>)
    ensures r == [] <==> run == []
    ensures run != [] ==> r[0] == run[0]
  {
    if run != [] && ValidTarget(run, t) then Run(run[0], t) else run
  }

  /**
    `handleMouseOver` keeps the shape of the run. It leaves the run as it is
    when there is none, when the target is off the lines through the anchor
    or already selected; otherwise the new run goes from the same anchor to
    the target.
  */
  lemma OverKeepsRunOk(run: seq<Pos>, t: Pos, n: int)
    requires RunOk(run, n) && InGrid(n, t)
    ensures RunOk(AfterOver(run, t), n)
    ensures run == [] || !Aligned(run[0], t) || t in run ==> AfterOver(run, t) == run
    ensures AfterOver(run, t) != run ==>
              |AfterOver(run, t)| == Span(run[0], t) + 1 &&
              AfterOver(run, t)[0] == run[0] && AfterOver(run, t)[|AfterOver(run, t)| - 1] == t
  {
    if run != [] && ValidTarget(run, t) {
      RunInsideGrid(n, run[0], t);
    }
  }

  /**
    Moving back over a cell already in the run does not shorten it: the
    cell is rejected as already selected.
  */
  lemma BacktrackKeepsRun(a: Pos, t: Pos, k: nat)
    requires Aligned(a, t) && k < |Run(a, t)|
    ensures AfterOver(Run(a, t), Run(a, t)[k]) == Run(a, t)
  {
  }

  // ---------------------------------------------------------------- the letters of a run

  /** What a cell contributes to `map(cell => grid[row][col]).join('')`. */
  function CellText(c: Cell): string {
    match c
    case Empty => ""
    case Letter(ch) => [ch]
  }

  /** The string the run spells, cell by cell: at most one character per cell. */
  function RunText(g: Grid, run: seq<Pos>): (text: string)
    requires IsSquare(g) && InsideGrid(|g|, run)
    ensures |text| <= |run|
    decreases |run|
  {
    if run == [] then "" else CellText(At(g, run[0])) + RunText(g, run[1..])
  }

  /** `split('').reverse().join('')`, and the reverse of a run. */
  function Reverse<T>(s: seq<T>): (r: seq<T>)
    ensures |r| == |s|
    ensures forall i :: 0 <= i < |s| ==> r[i] == s[|s| - 1 - i]
  {
    if s == [] then [] else Reverse(s[1..]) + [s[0]]
  }

  lemma ReverseReverse<T>(s: seq<T>)
    ensures Reverse(Reverse(s)) == s
  {
  }

  lemma ReverseAppend<T>(a: seq<T>, b: seq<T>)
    ensures Reverse(a + b) == Reverse(b) + Reverse(a)
  {
  }

  /** On a grid with no empty cell, a run spells one letter per cell. */
  lemma {:induction false} RunTextOfLetters(g: Grid, run: seq<Pos>)
    requires IsSquare(g) && InsideGrid(|g|, run) && NoEmpty(g)
    ensures |RunText(g, run)| == |run|
    ensures forall i :: 0 <= i < |run| ==> RunText(g, run)[i] == At(g, run[i]).ch
    decreases |run|
  {
    if run != [] {
      RunTextOfLetters(g, run[1..]);
      assert At(g, run[0]) != Empty;
    }
  }

  lemma {:induction false} RunTextAppend(g: Grid, a: seq<Pos>, b: seq<Pos>)
    requires IsSquare(g) && InsideGrid(|g|, a) && InsideGrid(|g|, b)
    ensures InsideGrid(|g|, a + b)
    ensures RunText(g, a + b) == RunText(g, a) + RunText(g, b)
    decreases |a|
  {
    if a != [] {
      assert (a + b)[0] == a[0] && (a + b)[1..] == a[1..] + b;
      RunTextAppend(g, a[1..], b);
    } else {
      assert a + b == b;
    }
  }

  /** Reading a run backwards spells its string reversed. */
  lemma {:induction false} RunTextOfReverse(g: Grid, run: seq<Pos>)
    requires IsSquare(g) && InsideGrid(|g|, run)
    ensures InsideGrid(|g|, Reverse(run))
    ensures RunText(g, Reverse(run)) == Reverse(RunText(g, run))
    decreases |run|
  {
    if run != [] {
      var head := CellText(At(g, run[0]));
      RunTextOfReverse(g, run[1..]);
      RunTextAppend(g, Reverse(run[1..]), [run[0]]);
      assert RunText(g, [run[0]]) == head;
      ReverseAppend(head, RunText(g, run[1..]));
      assert Reverse(head) == head;
    }
  }

  // ---------------------------------------------------------------- checking a run

  /** `checkSelectedWord`: the forward string if it is a word, else the reversed one if it is. */
  function MatchedWord(words: seq<string>, text: string): (r: Option<string>)
    ensures r.Some? ==> r.value in words && (r.value == text || r.value == Reverse(text))
    ensures r.None? <==> text !in words && Reverse(text) !in words
  {
    if text in words then Some(text)
    else if Reverse(text) in words then Some(Reverse(text))
    else None
  }

  /** `markWordAsFound`: a word is recorded once, and nothing but it is added. */
  function MarkFound(found: seq<string>, w: string): (r: seq<string>)
    ensures w in r && found <= r && |r| <= |found| + 1
    ensures forall x :: x in r ==> x in found || x == w
  {
    if w in found then found else found + [w]
  }

  /** The found words after `handleMouseUp` with `run` selected. */
  function MouseUpFound(words: seq<string>, g: Grid, found: seq<string>, run: seq<Pos>): (r: seq<string>)
    requires IsSquare(g) && InsideGrid(|g|, run)
    ensures found <= r && |r| <= |found| + 1
    ensures |run| <= 1 ==> r == found
  {
    if |run| > 1 then
      match MatchedWord(words, RunText(g, run))
      case Some(w) => MarkFound(found, w)
      case None => found
    else found
  }

  predicate NoDup<T(==)>(s: seq<T>) {
    forall i, j :: 0 <= i < j < |s| ==> s[i] != s[j]
  }

  /**
    On mouse-up the found list never shrinks and gains at most one word. It
    gains one exactly when the run is longer than one cell, its forward
    string (preferred) or else its reversed string is a word, and that word
    was not found yet. It stays free of duplicates and inside the word list.
  */
  lemma MouseUpGrowth(words: seq<string>, g: Grid, found: seq<string>, run: seq<Pos>)
    requires IsSquare(g) && InsideGrid(|g|, run)
    ensures var f, text := MouseUpFound(words, g, found, run), RunText(g, run);
      && found <= f && |f| <= |found| + 1
      && (f != found <==>
            |run| > 1 && MatchedWord(words, text).Some? && MatchedWord(words, text).value !in found)
      && (f != found ==> f == found + [MatchedWord(words, text).value])
      && (f != found && text in words ==> f[|found|] == text)
      && (f != found && text !in words ==> f[|found|] == Reverse(text) && Reverse(text) in words)
      && (NoDup(found) ==> NoDup(f))
      && ((forall i :: 0 <= i < |found| ==> found[i] in words) ==> forall i :: 0 <= i < |f| ==> f[i] in words)
  {
  }

  /** A run spelling `w` backwards matches `w` (unless its reverse is another word). */
  lemma ReversedRunMatches(words: seq<string>, g: Grid, run: seq<Pos>, w: string)
    requires IsSquare(g) && InsideGrid(|g|, run)
    requires w in words && RunText(g, run) == w && (Reverse(w) == w || Reverse(w) !in words)
    ensures InsideGrid(|g|, Reverse(run)) && |Reverse(run)| == |run|
    ensures MatchedWord(words, RunText(g, Reverse(run))) == Some(w)
  {
    RunTextOfReverse(g, run);
    ReverseReverse(w);
    var text := RunText(g, Reverse(run));
    assert text == Reverse(w);
    if Reverse(w) !in words {
      assert Reverse(text) == w;
    }
  }

  /** Marking keeps the found list free of duplicates, and the word is in it afterwards. */
  lemma MarkFoundNoDup(found: seq<string>, w: string)
    ensures w in MarkFound(found, w)
    ensures NoDup(found) ==> NoDup(MarkFound(found, w))
  {
    if NoDup(found) && w !in found {
      var marked := MarkFound(found, w);
      assert forall i :: 0 <= i < |found| ==> marked[i] == found[i];
    }
  }

  /**
    Selecting a word's cells in either order finds it exactly once: when
    the run spells `w` forwards, the run and its reverse both record `w`
    (unless the reversed word is itself another word of the list, which
    then wins on the reversed run), and a word already found is not added
    again.
  */
  lemma ReversalSymmetry(words: seq<string>, g: Grid, found: seq<string>, run: seq<Pos>, w: string)
    requires IsSquare(g) && InsideGrid(|g|, run) && |run| > 1
    requires w in words && RunText(g, run) == w && (Reverse(w) == w || Reverse(w) !in words)
    ensures InsideGrid(|g|, Reverse(run))
    ensures MouseUpFound(words, g, found, run) == MarkFound(found, w)
    ensures MouseUpFound(words, g, found, Reverse(run)) == MarkFound(found, w)
    ensures MouseUpFound(words, g, MarkFound(found, w), run) == MarkFound(found, w)
    ensures NoDup(found) ==> NoDup(MarkFound(found, w)) && w in MarkFound(found, w)
  {
    var marked := MarkFound(found, w);
    assert MatchedWord(words, RunText(g, run)) == Some(w);
    assert MouseUpFound(words, g, found, Reverse(run)) == marked by {
      ReversedRunMatches(words, g, run, w);
    }
    MarkFoundNoDup(found, w);
  }

  // ---------------------------------------------------------------- completion

  /** `checkAllWordsFound`: as many words found as there are words. */
  predicate AllFound(found: seq<string>, words: seq<string>) {
    |found| == |words|
  }

  lemma {:induction false} DistinctCount<T>(s: seq<T>)
    requires NoDup(s)
    ensures |set x | x in s| == |s|
    decreases |s|
  {
    if s != [] {
      DistinctCount(s[1..]);
      assert (set x | x in s) == (set x | x in s[1..]) + {s[0]};
      assert s[0] !in (set x | x in s[1..]);
    }
  }

  lemma SubsetCount<T>(a: set<T>, b: set<T>)
    requires a <= b
    ensures |b| == |a| + |b - a|
  {
    assert b == (b - a) + a;
    assert (b - a) * a == {};
  }

  /**
    With a word list free of duplicates, and a found list free of
    duplicates that holds only words of the list, the count test of
    `checkAllWordsFound` holds exactly when every word has been found.
  */
  lemma CompletionMeansEveryWordFound(found: seq<string>, words: seq<string>)
    requires NoDup(words) && NoDup(found)
    requires forall i :: 0 <= i < |found| ==> found[i] in words
    ensures AllFound(found, words) <==> forall w :: w in words ==> w in found
  {
    var a, b := set x | x in found, set x | x in words;
    DistinctCount(found);
    DistinctCount(words);
    assert a <= b;
    SubsetCount(a, b);
    if AllFound(found, words) {
      assert b - a == {};
      forall w | w in words
        ensures w in found
      {
        assert w in b;
      }
    }
    if forall w :: w in words ==> w in found {
      assert b <= a;
      assert a == b;
    }
  }
}
