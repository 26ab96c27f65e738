/**
 * Specification of the group-to-group profile alignment DP used by
 * code/basic_alignment.cpp and code/align.cpp: the score and backtrack
 * recurrences, the backtrack walk that produces a gap pattern, the score
 * of an arbitrary gap pattern, and the facts that tie them together
 * (the walk is well formed, consumes every column exactly once, and
 * realises the best score any gap pattern can reach).
 */
module ProfileDP {

  /** One column of the merged alignment: which of the two groups receives a gap there. */
  datatype GapPosition = GapPosition(group1Gap: bool, group2Gap: bool)

  /** Backtrack direction codes, as the source stores them in the backtrack matrix. */
  const Horizontal := 0
  const Vertical := 1
  const Diagonal := 2

  /** A group the DP can read: at least one sequence, all of the same column count. */
  predicate IsProfile(g: seq<string>) {
    |g| > 0 && forall k :: 0 <= k < |g| ==> |g[k]| == |g[0]|
  }

  /** Everything the DP reads: both groups and the two scoring constants. */
  datatype Problem = Problem(group1: seq<string>, group2: seq<string>, gapPenalty: int, diff: int) {
    predicate Valid() {
      IsProfile(group1) && IsProfile(group2)
    }

    /** Column count of group 1 (the DP has one more row than this). */
    function Rows(): nat
      requires Valid()
    {
      |group1[0]|
    }

    /** Column count of group 2 (the DP has one more column than this). */
    function Cols(): nat
      requires Valid()
    {
      |group2[0]|
    }
  }

  // ---------------------------------------------------------------------
  // Column mismatch counting (scoreBtwGroupSeq)
  // ---------------------------------------------------------------------

  /** Number of l < upto with c != g2[l][j]. */
  function RowMismatches(c: char, g2: seq<string>, j: nat, upto: nat): nat
    requires upto <= |g2|
    requires forall l :: 0 <= l < |g2| ==> j < |g2[l]|
  {
    if upto == 0 then 0
    else RowMismatches(c, g2, j, upto - 1) + (if c != g2[upto - 1][j] then 1 else 0)
  }

  /** Number of pairs (k, l) with k < rows, l < cols and g1[k][i] != g2[l][j]. */
  function Mismatches(g1: seq<string>, g2: seq<string>, i: nat, j: nat, rows: nat, cols: nat): nat
    requires rows <= |g1| && cols <= |g2|
    requires forall k :: 0 <= k < |g1| ==> i < |g1[k]|
    requires forall l :: 0 <= l < |g2| ==> j < |g2[l]|
  {
    if rows == 0 then 0
    else Mismatches(g1, g2, i, j, rows - 1, cols) + RowMismatches(g1[rows - 1][i], g2, j, cols)
  }

  /** diff times one more mismatch. */
  lemma MulSucc(d: int, m: int)
    ensures d * (m + 1) == d * m + d
  {
  }

  /** diff times a sum of two counts. */
  lemma MulAdd(d: int, m: int, r: int)
    ensures d * (m + r) == d * m + d * r
  {
  }

  /** A product is zero exactly when a factor is, and a non-negative factor keeps the bound. */
  lemma MulFacts(d: int, m: nat, bound: nat)
    requires m <= bound
    ensures d * m == 0 <==> d == 0 || m == 0
    ensures 0 <= d ==> 0 <= d * m <= d * bound
  {
    if d != 0 && m != 0 {
      assert d * m != 0;
    }
    if 0 <= d {
      assert d * m <= d * bound by {
        assert d * bound == d * m + d * (bound - m);
      }
    }
  }

  /** Never more pairs than there are. */
  lemma {:induction false} MismatchesBound(g1: seq<string>, g2: seq<string>, i: nat, j: nat, rows: nat, cols: nat)
    requires rows <= |g1| && cols <= |g2|
    requires forall k :: 0 <= k < |g1| ==> i < |g1[k]|
    requires forall l :: 0 <= l < |g2| ==> j < |g2[l]|
    ensures Mismatches(g1, g2, i, j, rows, cols) <= rows * cols
  {
    if rows > 0 {
      MismatchesBound(g1, g2, i, j, rows - 1, cols);
      RowMismatchesBound(g1[rows - 1][i], g2, j, cols);
      assert (rows - 1) * cols + cols == rows * cols;
    }
  }

  lemma {:induction false} RowMismatchesBound(c: char, g2: seq<string>, j: nat, upto: nat)
    requires upto <= |g2|
    requires forall l :: 0 <= l < |g2| ==> j < |g2[l]|
    ensures RowMismatches(c, g2, j, upto) <= upto
  {
    if upto > 0 {
      RowMismatchesBound(c, g2, j, upto - 1);
    }
  }

  /** The count is zero exactly when every cross-group pair agrees at the two columns. */
  lemma {:induction false} MismatchesZeroIff(g1: seq<string>, g2: seq<string>, i: nat, j: nat, rows: nat, cols: nat)
    requires rows <= |g1| && cols <= |g2|
    requires forall k :: 0 <= k < |g1| ==> i < |g1[k]|
    requires forall l :: 0 <= l < |g2| ==> j < |g2[l]|
    ensures Mismatches(g1, g2, i, j, rows, cols) == 0 <==>
            forall k, l :: 0 <= k < rows && 0 <= l < cols ==> g1[k][i] == g2[l][j]
  {
    if rows > 0 {
      MismatchesZeroIff(g1, g2, i, j, rows - 1, cols);
      RowMismatchesZeroIff(g1[rows - 1][i], g2, j, cols);
    }
  }

  lemma {:induction false} RowMismatchesZeroIff(c: char, g2: seq<string>, j: nat, upto: nat)
    requires upto <= |g2|
    requires forall l :: 0 <= l < |g2| ==> j < |g2[l]|
    ensures RowMismatches(c, g2, j, upto) == 0 <==> forall l :: 0 <= l < upto ==> c == g2[l][j]
  {
    if upto > 0 {
      RowMismatchesZeroIff(c, g2, j, upto - 1);
    }
  }

  /** Swapping the two groups (and their column indices) does not change the count. */
  lemma {:induction false} MismatchesSymmetric(g1: seq<string>, g2: seq<string>, i: nat, j: nat, rows: nat, cols: nat)
    requires rows <= |g1| && cols <= |g2|
    requires forall k :: 0 <= k < |g1| ==> i < |g1[k]|
    requires forall l :: 0 <= l < |g2| ==> j < |g2[l]|
    ensures Mismatches(g1, g2, i, j, rows, cols) == Mismatches(g2, g1, j, i, cols, rows)
  {
    if rows == 0 {
      MismatchesNoColumns(g2, g1, j, i, cols);
    } else {
      MismatchesSymmetric(g1, g2, i, j, rows - 1, cols);
      MismatchesPeelColumn(g2, g1, j, i, cols, rows);
      assert Mismatches(g2, g1, j, i, cols, rows)
          == Mismatches(g2, g1, j, i, cols, rows - 1) + RowMismatches(g1[rows - 1][i], g2, j, cols);
    }
  }

  lemma {:induction false} MismatchesNoColumns(g1: seq<string>, g2: seq<string>, i: nat, j: nat, rows: nat)
    requires rows <= |g1|
    requires forall k :: 0 <= k < |g1| ==> i < |g1[k]|
    requires forall l :: 0 <= l < |g2| ==> j < |g2[l]|
    ensures Mismatches(g1, g2, i, j, rows, 0) == 0
  {
    if rows > 0 {
      MismatchesNoColumns(g1, g2, i, j, rows - 1);
    }
  }

  /** Peeling the last sequence of the second argument off every row count. */
  lemma {:induction false} MismatchesPeelColumn(g1: seq<string>, g2: seq<string>, i: nat, j: nat, rows: nat, cols: nat)
    requires rows <= |g1| && 0 < cols <= |g2|
    requires forall k :: 0 <= k < |g1| ==> i < |g1[k]|
    requires forall l :: 0 <= l < |g2| ==> j < |g2[l]|
    ensures Mismatches(g1, g2, i, j, rows, cols)
         == Mismatches(g1, g2, i, j, rows, cols - 1) + RowMismatches(g2[cols - 1][j], g1, i, rows)
  {
    if rows > 0 {
      MismatchesPeelColumn(g1, g2, i, j, rows - 1, cols);
    }
  }

  // ---------------------------------------------------------------------
  // The score and backtrack recurrences (forwardPass)
  // ---------------------------------------------------------------------

  /** A cell's value and stored direction code. */
  datatype Choice = Choice(score: int, dir: int)

  /**
   * The cell update of the forward pass: start from the horizontal term,
   * take the vertical one only if strictly greater, then the diagonal one
   * only if strictly greater than the best so far.
   */
  function Choose(h: int, v: int, d: int): (c: Choice)
    ensures c.score >= h && c.score >= v && c.score >= d
    ensures c.score == (if c.dir == Horizontal then h else if c.dir == Vertical then v else d)
    ensures 0 <= c.dir <= 2
    ensures c.dir == Horizontal <==> h >= v && h >= d
    ensures c.dir == Vertical <==> v > h && v >= d
    ensures c.dir == Diagonal <==> d > h && d > v
  {
    var best := if v > h then v else h;
    var dir := if v > h then Vertical else Horizontal;
    if d > best then Choice(d, Diagonal) else Choice(best, dir)
  }

  /** Cost of one horizontal step: a gap column inserted into every sequence of group 1. */
  function HorizontalStep(p: Problem): int {
    p.gapPenalty * |p.group1|
  }

  /** Cost of one vertical step: a gap column inserted into every sequence of group 2. */
  function VerticalStep(p: Problem): int {
    p.gapPenalty * |p.group2|
  }

  /** Cost of merging column i of group 1 with column j of group 2. */
  function DiagonalStep(p: Problem, i: nat, j: nat): int
    requires p.Valid() && i < p.Rows() && j < p.Cols()
  {
    p.diff * Mismatches(p.group1, p.group2, i, j, |p.group1|, |p.group2|)
  }

  /** Score[i][j]: the border values, and the chosen term in the interior. */
  function ScoreAt(p: Problem, i: nat, j: nat): int
    requires p.Valid() && i <= p.Rows() && j <= p.Cols()
    decreases i + j, 1
  {
    if i == 0 && j == 0 then 0
    else if i == 0 then ScoreAt(p, 0, j - 1) + HorizontalStep(p)
    else if j == 0 then ScoreAt(p, i - 1, 0) + VerticalStep(p)
    else Cell(p, i, j).score
  }

  /** The update of interior cell (i, j) from its three neighbours. */
  function Cell(p: Problem, i: nat, j: nat): Choice
    requires p.Valid() && 0 < i <= p.Rows() && 0 < j <= p.Cols()
    decreases i + j, 0
  {
    Choose(ScoreAt(p, i, j - 1) + HorizontalStep(p),
           ScoreAt(p, i - 1, j) + VerticalStep(p),
           ScoreAt(p, i - 1, j - 1) + DiagonalStep(p, i - 1, j - 1))
  }

  /** Backtrack[i][j]: horizontal along row 0, vertical down column 0, the chosen move inside. */
  function DirAt(p: Problem, i: nat, j: nat): int
    requires p.Valid() && i <= p.Rows() && j <= p.Cols()
  {
    if i == 0 then Horizontal
    else if j == 0 then Vertical
    else Cell(p, i, j).dir
  }

  /** The border values in the closed form the source writes them. */
  lemma {:induction false} BorderScores(p: Problem, i: nat, j: nat)
    requires p.Valid() && i <= p.Rows() && j <= p.Cols()
    ensures ScoreAt(p, i, 0) == i * p.gapPenalty * |p.group2|
    ensures ScoreAt(p, 0, j) == j * p.gapPenalty * |p.group1|
  {
    if i > 0 {
      BorderScores(p, i - 1, 0);
      assert (i - 1) * p.gapPenalty * |p.group2| + p.gapPenalty * |p.group2| == i * p.gapPenalty * |p.group2|;
    }
    if j > 0 {
      BorderScores(p, 0, j - 1);
      assert (j - 1) * p.gapPenalty * |p.group1| + p.gapPenalty * |p.group1| == j * p.gapPenalty * |p.group1|;
    }
  }

  // ---------------------------------------------------------------------
  // Gap patterns and their scores
  // ---------------------------------------------------------------------

  /** Columns of group 1 a pattern consumes: the entries without a gap in group 1. */
  function Consumed1(pat: seq<GapPosition>): nat {
    if pat == [] then 0
    else Consumed1(pat[..|pat| - 1]) + (if pat[|pat| - 1].group1Gap then 0 else 1)
  }

  /** Columns of group 2 a pattern consumes: the entries without a gap in group 2. */
  function Consumed2(pat: seq<GapPosition>): nat {
    if pat == [] then 0
    else Consumed2(pat[..|pat| - 1]) + (if pat[|pat| - 1].group2Gap then 0 else 1)
  }

  /** No column is a gap in both groups at once. */
  predicate NoDoubleGap(pat: seq<GapPosition>) {
    forall k :: 0 <= k < |pat| ==> !(pat[k].group1Gap && pat[k].group2Gap)
  }

  lemma ConsumedAppend(pat: seq<GapPosition>, g: GapPosition)
    ensures Consumed1(pat + [g]) == Consumed1(pat) + (if g.group1Gap then 0 else 1)
    ensures Consumed2(pat + [g]) == Consumed2(pat) + (if g.group2Gap then 0 else 1)
  {
    assert (pat + [g])[..|pat|] == pat;
  }

  /** A well-formed pattern has between max and sum of its consumed column counts entries. */
  lemma {:induction false} PatternLength(pat: seq<GapPosition>)
    requires NoDoubleGap(pat)
    ensures Consumed1(pat) <= |pat| && Consumed2(pat) <= |pat|
    ensures |pat| <= Consumed1(pat) + Consumed2(pat)
  {
    if pat != [] {
      PatternLength(pat[..|pat| - 1]);
    }
  }

  /** Sum-of-steps score of a gap pattern, read left to right. */
  function PathScore(p: Problem, pat: seq<GapPosition>): int
    requires p.Valid() && NoDoubleGap(pat)
    requires Consumed1(pat) <= p.Rows() && Consumed2(pat) <= p.Cols()
  {
    if pat == [] then 0
    else
      var rest := pat[..|pat| - 1];
      var last := pat[|pat| - 1];
      PathScore(p, rest) +
        (if last.group1Gap then HorizontalStep(p)
         else if last.group2Gap then VerticalStep(p)
         else DiagonalStep(p, Consumed1(rest), Consumed2(rest)))
  }

  lemma PathScoreAppend(p: Problem, pat: seq<GapPosition>, g: GapPosition)
    requires p.Valid() && NoDoubleGap(pat + [g])
    requires Consumed1(pat + [g]) <= p.Rows() && Consumed2(pat + [g]) <= p.Cols()
    ensures NoDoubleGap(pat)
    ensures Consumed1(pat) <= p.Rows() && Consumed2(pat) <= p.Cols()
    ensures PathScore(p, pat + [g]) == PathScore(p, pat) +
      (if g.group1Gap then HorizontalStep(p)
       else if g.group2Gap then VerticalStep(p)
       else DiagonalStep(p, Consumed1(pat), Consumed2(pat)))
  {
    assert (pat + [g])[..|pat|] == pat;
    assert forall k :: 0 <= k < |pat| ==> pat[k] == (pat + [g])[k];
    ConsumedAppend(pat, g);
  }

  /** No gap pattern reaching (i, j) scores more than Score[i][j]. */
  lemma {:induction false} NoPathBeatsScoreAt(p: Problem, pat: seq<GapPosition>)
    requires p.Valid() && NoDoubleGap(pat)
    requires Consumed1(pat) <= p.Rows() && Consumed2(pat) <= p.Cols()
    ensures PathScore(p, pat) <= ScoreAt(p, Consumed1(pat), Consumed2(pat))
  {
    if pat != [] {
      var rest, last := pat[..|pat| - 1], pat[|pat| - 1];
      assert pat == rest + [last];
      PathScoreAppend(p, rest, last);
      ConsumedAppend(rest, last);
      NoPathBeatsScoreAt(p, rest);
      var i, j := Consumed1(pat), Consumed2(pat);
      if i > 0 && j > 0 {
        var c := Cell(p, i, j);
        assert ScoreAt(p, i, j) == c.score;
      }
    }
  }

  // ---------------------------------------------------------------------
  // The backtrack walk (reversePass)
  // ---------------------------------------------------------------------

  /** Every interior backtrack entry is one of the three direction codes. */
  predicate DirsValid(back: array2<int>)
    reads back
  {
    forall a, b :: 0 < a < back.Length0 && 0 < b < back.Length1 ==> 0 <= back[a, b] <= 2
  }

  /**
   * The gap pattern the backward pass produces from cell (i, j), in left to
   * right order: follow the stored direction inside the matrix, go
   * horizontally along row 0 and vertically down column 0.
   */
  function WalkFrom(back: array2<int>, i: nat, j: nat): (w: seq<GapPosition>)
    reads back
    requires i < back.Length0 && j < back.Length1 && DirsValid(back)
    ensures NoDoubleGap(w)
    ensures Consumed1(w) == i && Consumed2(w) == j
    ensures i <= |w| && j <= |w| && |w| <= i + j
    decreases i + j
  {
    if i == 0 && j == 0 then []
    else if i > 0 && j > 0 && back[i, j] == Diagonal then
      var w := WalkFrom(back, i - 1, j - 1) + [GapPosition(false, false)];
      ConsumedAppend(WalkFrom(back, i - 1, j - 1), GapPosition(false, false));
      w
    else if j > 0 && (i == 0 || back[i, j] == Horizontal) then
      var w := WalkFrom(back, i, j - 1) + [GapPosition(true, false)];
      ConsumedAppend(WalkFrom(back, i, j - 1), GapPosition(true, false));
      w
    else
      var w := WalkFrom(back, i - 1, j) + [GapPosition(false, true)];
      ConsumedAppend(WalkFrom(back, i - 1, j), GapPosition(false, true));
      w
  }

  /** The backtrack matrix holds exactly the directions of the recurrence. */
  predicate DirsMatch(p: Problem, back: array2<int>)
    reads back
    requires p.Valid()
  {
    back.Length0 == p.Rows() + 1 && back.Length1 == p.Cols() + 1 &&
    forall a, b :: 0 <= a <= p.Rows() && 0 <= b <= p.Cols() ==> back[a, b] == DirAt(p, a, b)
  }

  lemma DirsMatchValid(p: Problem, back: array2<int>)
    requires p.Valid() && DirsMatch(p, back)
    ensures DirsValid(back)
  {
    forall a, b | 0 < a < back.Length0 && 0 < b < back.Length1
      ensures 0 <= back[a, b] <= 2
    {
      assert back[a, b] == Cell(p, a, b).dir;
    }
  }

  /** Following the recurrence's own directions yields a pattern that scores Score[i][j]. */
  lemma {:induction false} WalkIsOptimal(p: Problem, back: array2<int>, i: nat, j: nat)
    requires p.Valid() && DirsMatch(p, back)
    requires i <= p.Rows() && j <= p.Cols()
    ensures DirsValid(back)
    ensures PathScore(p, WalkFrom(back, i, j)) == ScoreAt(p, i, j)
    decreases i + j, 1
  {
    DirsMatchValid(p, back);
    if i == 0 && j == 0 {
    } else if i > 0 && j > 0 && back[i, j] == Diagonal {
      WalkDiagonalStep(p, back, i, j, i - 1, j - 1);
    } else if j > 0 && (i == 0 || back[i, j] == Horizontal) {
      WalkHorizontalStep(p, back, i, j, j - 1);
    } else {
      WalkVerticalStep(p, back, i, j, i - 1);
    }
  }

  /** Score[i][j] of an interior cell, over the indices of the row and column before it. */
  lemma InteriorScore(p: Problem, i: nat, j: nat, i0: nat, j0: nat)
    requires p.Valid() && 0 < i <= p.Rows() && 0 < j <= p.Cols() && i0 == i - 1 && j0 == j - 1
    ensures ScoreAt(p, i, j) == Cell(p, i, j).score
    ensures Cell(p, i, j) == Choose(ScoreAt(p, i, j0) + HorizontalStep(p),
                                    ScoreAt(p, i0, j) + VerticalStep(p),
                                    ScoreAt(p, i0, j0) + DiagonalStep(p, i0, j0))
  {
  }

  /** The walk from an interior cell whose stored move is diagonal. */
  lemma WalkFromDiagonal(back: array2<int>, i: nat, j: nat, i0: nat, j0: nat)
    requires i < back.Length0 && j < back.Length1 && DirsValid(back)
    requires i > 0 && j > 0 && back[i, j] == Diagonal && i0 == i - 1 && j0 == j - 1
    ensures WalkFrom(back, i, j) == WalkFrom(back, i0, j0) + [GapPosition(false, false)]
  {
  }

  /** The walk from a cell whose move is horizontal. */
  lemma WalkFromHorizontal(back: array2<int>, i: nat, j: nat, j0: nat)
    requires i < back.Length0 && j < back.Length1 && DirsValid(back)
    requires j > 0 && (i == 0 || back[i, j] == Horizontal) && j0 == j - 1
    ensures WalkFrom(back, i, j) == WalkFrom(back, i, j0) + [GapPosition(true, false)]
  {
  }

  /** The walk from a cell whose move is vertical. */
  lemma WalkFromVertical(back: array2<int>, i: nat, j: nat, i0: nat)
    requires i < back.Length0 && j < back.Length1 && DirsValid(back)
    requires i > 0 && (j == 0 || back[i, j] == Vertical) && i0 == i - 1
    ensures WalkFrom(back, i, j) == WalkFrom(back, i0, j) + [GapPosition(false, true)]
  {
  }

  /** Where the stored move is diagonal, Score[i][j] is Score[i-1][j-1] plus the merge cost. */
  lemma DiagonalScore(p: Problem, back: array2<int>, i: nat, j: nat, i0: nat, j0: nat)
    requires p.Valid() && DirsMatch(p, back)
    requires 0 < i <= p.Rows() && 0 < j <= p.Cols() && back[i, j] == Diagonal
    requires i0 == i - 1 && j0 == j - 1
    ensures ScoreAt(p, i, j) == ScoreAt(p, i0, j0) + DiagonalStep(p, i0, j0)
  {
    InteriorScore(p, i, j, i0, j0);
    assert Cell(p, i, j).dir == back[i, j];
  }

  /** Where the move is horizontal (always on row 0), Score[i][j] is Score[i][j-1] plus a gap column. */
  lemma HorizontalScore(p: Problem, back: array2<int>, i: nat, j: nat, j0: nat)
    requires p.Valid() && DirsMatch(p, back)
    requires i <= p.Rows() && 0 < j <= p.Cols() && (i == 0 || back[i, j] == Horizontal)
    requires j0 == j - 1
    ensures ScoreAt(p, i, j) == ScoreAt(p, i, j0) + HorizontalStep(p)
  {
    if i > 0 {
      var i0 := i - 1;
      InteriorScore(p, i, j, i0, j0);
      assert Cell(p, i, j).dir == back[i, j];
    }
  }

  /** Where the move is vertical (always on column 0), Score[i][j] is Score[i-1][j] plus a gap column. */
  lemma VerticalScore(p: Problem, back: array2<int>, i: nat, j: nat, i0: nat)
    requires p.Valid() && DirsMatch(p, back)
    requires 0 < i <= p.Rows() && j <= p.Cols() && (j == 0 || back[i, j] == Vertical)
    requires i0 == i - 1
    ensures ScoreAt(p, i, j) == ScoreAt(p, i0, j) + VerticalStep(p)
  {
    if j > 0 {
      var j0 := j - 1;
      InteriorScore(p, i, j, i0, j0);
      assert Cell(p, i, j).dir == back[i, j];
    }
  }

  lemma WalkDiagonalStep(p: Problem, back: array2<int>, i: nat, j: nat, i0: nat, j0: nat)
    requires p.Valid() && DirsMatch(p, back) && DirsValid(back)
    requires 0 < i <= p.Rows() && 0 < j <= p.Cols() && back[i, j] == Diagonal
    requires i0 == i - 1 && j0 == j - 1
    ensures PathScore(p, WalkFrom(back, i, j)) == ScoreAt(p, i, j)
    decreases i + j, 0
  {
    var prev := WalkFrom(back, i0, j0);
    WalkFromDiagonal(back, i, j, i0, j0);
    WalkIsOptimal(p, back, i0, j0);
    PathScoreAppend(p, prev, GapPosition(false, false));
    DiagonalScore(p, back, i, j, i0, j0);
  }

  lemma WalkHorizontalStep(p: Problem, back: array2<int>, i: nat, j: nat, j0: nat)
    requires p.Valid() && DirsMatch(p, back) && DirsValid(back)
    requires i <= p.Rows() && 0 < j <= p.Cols() && (i == 0 || back[i, j] == Horizontal)
    requires j0 == j - 1
    ensures PathScore(p, WalkFrom(back, i, j)) == ScoreAt(p, i, j)
    decreases i + j, 0
  {
    var prev := WalkFrom(back, i, j0);
    WalkFromHorizontal(back, i, j, j0);
    WalkIsOptimal(p, back, i, j0);
    PathScoreAppend(p, prev, GapPosition(true, false));
    HorizontalScore(p, back, i, j, j0);
  }

  lemma WalkVerticalStep(p: Problem, back: array2<int>, i: nat, j: nat, i0: nat)
    requires p.Valid() && DirsMatch(p, back) && DirsValid(back)
    requires 0 < i <= p.Rows() && j <= p.Cols()
    requires (j == 0 || back[i, j] == Vertical) && i0 == i - 1
    ensures PathScore(p, WalkFrom(back, i, j)) == ScoreAt(p, i, j)
    decreases i + j, 0
  {
    var prev := WalkFrom(back, i0, j);
    WalkFromVertical(back, i, j, i0);
    WalkIsOptimal(p, back, i0, j);
    PathScoreAppend(p, prev, GapPosition(false, true));
    VerticalScore(p, back, i, j, i0);
  }

  /**
   * What forwardPass followed by reversePass deliver: with the directions
   * of the recurrence in the backtrack matrix, the walk from (n, m) is a
   * well-formed pattern over all columns of both groups, it scores exactly
   * Score[n][m], and no other such pattern scores more.
   */
  lemma WalkFromCornerIsOptimal(p: Problem, back: array2<int>)
    requires p.Valid() && DirsMatch(p, back)
    ensures DirsValid(back)
    ensures PathScore(p, WalkFrom(back, p.Rows(), p.Cols())) == ScoreAt(p, p.Rows(), p.Cols())
    ensures forall other :: NoDoubleGap(other) && Consumed1(other) == p.Rows() && Consumed2(other) == p.Cols() ==>
      PathScore(p, other) <= PathScore(p, WalkFrom(back, p.Rows(), p.Cols()))
  {
    WalkIsOptimal(p, back, p.Rows(), p.Cols());
    forall other | NoDoubleGap(other) && Consumed1(other) == p.Rows() && Consumed2(other) == p.Cols()
      ensures PathScore(p, other) <= ScoreAt(p, p.Rows(), p.Cols())
    {
      NoPathBeatsScoreAt(p, other);
    }
  }

  /** Reversal of a sequence (the source's std::reverse). */
  function Reversed<T>(s: seq<T>): (r: seq<T>)
    ensures |r| == |s|
  {
    if s == [] then [] else [s[|s| - 1]] + Reversed(s[..|s| - 1])
  }

  lemma ReversedAppend<T>(s: seq<T>, x: T)
    ensures Reversed(s + [x]) == [x] + Reversed(s)
  {
    assert (s + [x])[..|s|] == s;
  }

  /**
   * The invariant of a backward walk that collects its steps in walk order:
   * peeling the last element x off the unexplored prefix and appending it
   * to the collected steps keeps prefix + Reversed(collected) unchanged.
   */
  lemma PushReversed<T>(whole: seq<T>, prefix: seq<T>, x: T, collected: seq<T>)
    requires whole == (prefix + [x]) + Reversed(collected)
    ensures whole == prefix + Reversed(collected + [x])
  {
    ReversedAppend(collected, x);
    assert (prefix + [x]) + Reversed(collected) == prefix + ([x] + Reversed(collected));
  }
}
