/**
 * The class MultiGroupAlignment of code/alignment.cpp: a pairwise local
 * aligner with affine gaps. forwardPass finds the best local score and the
 * cell where it ends, reversePass scans back from that cell for a start,
 * backtrack refills the window between the two and run-length encodes a
 * path into displ through add and del, and tracePath prints that path.
 * The specification of each pass is in LocalDP; every method here is
 * proved against it.
 */
module MultiGroup {
  import opened LocalDP

  /**
   * The state forwardPass leaves after the cells before (i, j) in row-major
   * order: best is at least every inner score seen, and unless it is still
   * 0 it is the score of (e1, e2), the first seen cell to reach it.
   */
  ghost predicate BestBefore(q: Pair, best: int, e1: int, e2: int, i: int, j: int)
    requires q.Valid()
  {
    best >= 0 &&
    (forall a, b :: 1 <= a <= q.N() && 1 <= b <= q.M() && RowMajorBefore(a, b, i, j) ==> H(q, a, b) <= best) &&
    if best == 0 then e1 == 0 && e2 == 0
    else
      1 <= e1 <= q.N() && 1 <= e2 <= q.M() && RowMajorBefore(e1, e2, i, j) && H(q, e1, e2) == best &&
      forall a, b :: 1 <= a <= q.N() && 1 <= b <= q.M() && RowMajorBefore(a, b, e1, e2) ==> H(q, a, b) < best
  }

  /** best is the largest local score of q and (e1, e2) the first cell in row-major order that has it (0 and (0, 0) when no cell scores above 0). */
  ghost predicate IsLocalBest(q: Pair, best: int, e1: int, e2: int)
    requires q.Valid()
  {
    BestBefore(q, best, e1, e2, q.N() + 1, 0)
  }

  /**
   * The state reversePass leaves after scanning the window cells before
   * (i, j) in its order (rows from e1 down, columns from e2 down): cost is
   * at least every reversed score seen, and unless it is still 0, (b1, b2)
   * is the first seen cell to reach it; while cost is 0 the start stays
   * at (1, 1).
   */
  ghost predicate ScanState(q: Pair, e1: nat, e2: nat, cost: int, b1: int, b2: int, i: int, j: int)
    requires q.Valid() && e1 <= q.N() && e2 <= q.M()
  {
    cost >= 0 &&
    (forall a, b :: 1 <= a <= e1 && 1 <= b <= e2 && ScanBefore(a, b, i, j) ==> RH(q, e1, e2, a, b) <= cost) &&
    if cost == 0 then b1 == 1 && b2 == 1
    else
      1 <= b1 <= e1 && 1 <= b2 <= e2 && ScanBefore(b1, b2, i, j) && RH(q, e1, e2, b1, b2) == cost &&
      forall a, b :: 1 <= a <= e1 && 1 <= b <= e2 && ScanBefore(a, b, b1, b2) ==> RH(q, e1, e2, a, b) < cost
  }

  /**
   * What reversePass promises about the start (b1, b2) it picks in the
   * window [1, e1] x [1, e2] for a forward best of best, with cost the
   * reversed score it stopped on:
   * - (1, 1) with cost 0 when no scanned cell scores above 0, and
   *   otherwise a window cell that scores cost, strictly more than every
   *   cell scanned before it;
   * - when cost stays below best, the whole window was scanned and cost is
   *   its maximum;
   * - when best is positive and reached, (b1, b2) is the first cell in
   *   scan order whose reversed score reaches best;
   * - when best is not positive, only row e1 is scanned.
   */
  ghost predicate ScanResult(q: Pair, e1: nat, e2: nat, best: int, cost: int, b1: int, b2: int)
    requires q.Valid() && e1 <= q.N() && e2 <= q.M()
  {
    cost >= 0 &&
    (cost == 0 ==> b1 == 1 && b2 == 1) &&
    (cost > 0 ==>
      1 <= b1 <= e1 && 1 <= b2 <= e2 && RH(q, e1, e2, b1, b2) == cost &&
      forall a, b :: 1 <= a <= e1 && 1 <= b <= e2 && ScanBefore(a, b, b1, b2) ==> RH(q, e1, e2, a, b) < cost) &&
    (cost < best ==> forall a, b :: 1 <= a <= e1 && 1 <= b <= e2 ==> RH(q, e1, e2, a, b) <= cost) &&
    (best > 0 && cost >= best ==>
      forall a, b :: 1 <= a <= e1 && 1 <= b <= e2 && ScanBefore(a, b, b1, b2) ==> RH(q, e1, e2, a, b) < best) &&
    (best <= 0 && cost > 0 ==> b1 == e1) &&
    (best <= 0 && cost == 0 && e1 >= 1 ==> forall b :: 1 <= b <= e2 ==> RH(q, e1, e2, e1, b) <= 0)
  }

  /** reversePass's outer loop before row i: rows e1 down to i + 1 are scanned and their last row is in HH_rev and DD_rev. */
  ghost predicate RevOuter(q: Pair, e1: nat, e2: nat, best: int, i: int, hRev: array<int>, dRev: array<int>, cost: int, b1: int, b2: int)
    reads hRev, dRev
  {
    q.Valid() && e1 <= q.N() && e2 <= q.M() && 0 <= i <= e1 &&
    hRev != dRev && hRev[..] == RHRow(q, e1, e2, i + 1) && dRev[..] == RDRow(q, e1, e2, i + 1) &&
    ScanState(q, e1, e2, cost, b1, b2, i, e2) && (best > 0 ==> cost < best)
  }

  /**
   * reversePass's inner loop before column j of row i: columns e2 down to
   * j + 1 of row i are scanned, hh, f and p hold RH[i][j+1], RF[i][j+1]
   * and RH[i+1][j+1], and HH_rev and DD_rev hold row i + 1 up to column j
   * and row i after it.
   */
  ghost predicate RevInRow(q: Pair, e1: nat, e2: nat, best: int, i: int, j: int, hh: int, f: int, p: int,
                           hRev: array<int>, dRev: array<int>, cost: int, b1: int, b2: int)
    reads hRev, dRev
  {
    q.Valid() && e1 <= q.N() && e2 <= q.M() && 1 <= i <= e1 && 0 <= j <= e2 && hRev != dRev &&
    hRev[..] == RHRow(q, e1, e2, i + 1)[..j + 1] + RHRow(q, e1, e2, i)[j + 1..] &&
    dRev[..] == RDRow(q, e1, e2, i + 1)[..j + 1] + RDRow(q, e1, e2, i)[j + 1..] &&
    hh == RH(q, e1, e2, i, j + 1) && f == RF(q, e1, e2, i, j + 1) && p == RH(q, e1, e2, i + 1, j + 1) &&
    ScanState(q, e1, e2, cost, b1, b2, i, j) &&
    (best > 0 ==> cost < best) && (best <= 0 ==> i == e1 && cost == 0)
  }

  /** direction has the window's shape and holds the walk's direction code in every cell. */
  ghost predicate DirsOf(w: Window, direction: array2<char>)
    reads direction
  {
    w.Valid() && direction.Length0 == w.n + 1 && direction.Length1 == w.m + 1 &&
    forall a, b :: 0 <= a <= w.n && 0 <= b <= w.m ==> direction[a, b] == BDir(w, a, b)
  }

  /** Both refill arrays have the window's shape, differ, and hold every cell of rows below ii and of column 0. */
  ghost predicate WindowRowsDone(w: Window, score: array2<int>, direction: array2<char>, ii: int)
    reads score, direction
  {
    w.Valid() &&
    score.Length0 == direction.Length0 == w.n + 1 && score.Length1 == direction.Length1 == w.m + 1 &&
    forall a, b :: 0 <= a <= w.n && 0 <= b <= w.m && (a < ii || b == 0) ==>
      score[a, b] == BScore(w, a, b) && direction[a, b] == BDir(w, a, b)
  }

  class MultiGroupAlignment {
    var gapOpen: int
    var gapExtend: int
    /** The 256 x 256 substitution matrix. */
    var matrix: array2<int>
    /** The last row of H and of D that forwardPass computed. */
    var HH: array<int>
    var DD: array<int>
    /** The run-length encoded path, used from index 1 up to printPtr - 1. */
    var displ: array<int>
    var maxScore: int
    var sb1: int
    var sb2: int
    var se1: int
    var se2: int
    var printPtr: int
    var lastPrint: int
    var group1: seq<int>
    var group2: seq<int>
    var scoreMatrix: array2<int>
    var bestSeq1Index: int
    var bestSeq2Index: int

    /** The substitution matrix scores 10 for equal codes and -5 for different ones. */
    ghost predicate Valid()
      reads this`matrix, matrix
    {
      matrix.Length0 == 256 && matrix.Length1 == 256 &&
      forall a, b :: 0 <= a < 256 && 0 <= b < 256 ==> matrix[a, b] == Sub(a, b)
    }

    /**
     * The constructor stores the two penalties, zeroes the scalar state,
     * marks both best indices -1, and builds the substitution matrix: -5
     * everywhere, then 10 down the diagonal.
     */
    constructor(gapOpenPenalty: int, gapExtendPenalty: int)
      ensures Valid()
      ensures gapOpen == gapOpenPenalty && gapExtend == gapExtendPenalty
      ensures maxScore == 0 && sb1 == 0 && sb2 == 0 && se1 == 0 && se2 == 0
      ensures printPtr == 0 && lastPrint == 0
      ensures bestSeq1Index == -1 && bestSeq2Index == -1
      ensures group1 == [] && group2 == []
      ensures HH.Length == 0 && DD.Length == 0 && displ.Length == 0
      ensures scoreMatrix.Length0 == 0 && scoreMatrix.Length1 == 0
    {
      gapOpen := gapOpenPenalty;
      gapExtend := gapExtendPenalty;
      maxScore := 0;
      sb1, sb2 := 0, 0;
      se1, se2 := 0, 0;
      printPtr, lastPrint := 0, 0;
      bestSeq1Index, bestSeq2Index := -1, -1;
      group1, group2 := [], [];
      HH := new int[0];
      DD := new int[0];
      displ := new int[0];
      scoreMatrix := new int[0, 0];
      var m := new int[256, 256]((_, _) => -5);
      for i := 0 to 256
        invariant forall a, b :: 0 <= a < 256 && 0 <= b < 256 ==>
          m[a, b] == (if a == b && a < i then 10 else -5)
      {
        m[i, i] := 10;
      }
      matrix := m;
    }

    /** The problem forwardPass and reversePass solve for two residue vectors. */
    function Problem(seq1: seq<int>, seq2: seq<int>): Pair
      reads this`gapOpen, this`gapExtend
    {
      Pair(seq1, seq2, gapOpen, gapExtend)
    }

    /**
     * forwardPass: run the local recurrence row by row, keeping only the
     * current rows of H and D in HH and DD, and record the best score and
     * the first cell (row-major) that reaches it. Position 0 of each
     * vector is a placeholder, so n and m are one less than the sizes.
     */
    method ForwardPass(seq1: seq<int>, seq2: seq<int>)
      requires Valid() && IsResidues(seq1) && IsResidues(seq2)
      modifies this`HH, this`DD, this`maxScore, this`se1, this`se2
      ensures Valid()
      ensures fresh(HH) && fresh(DD)
      ensures HH.Length == |seq2| && DD.Length == |seq2|
      ensures var q := Problem(seq1, seq2);
        q.Valid() ==>
          IsLocalBest(q, maxScore, se1, se2) &&
          HH[..] == HRow(q, q.N()) && DD[..] == DRow(q, q.N())
      ensures !Problem(seq1, seq2).Valid() ==> maxScore == 0 && se1 == 0 && se2 == 0
      ensures |seq1| == 0 ==> forall j :: 0 <= j < |seq2| ==> HH[j] == 0 && DD[j] == -gapOpen
    {
      var q := Problem(seq1, seq2);
      InitRows(|seq2|);
      maxScore := 0;
      se1, se2 := 0, 0;
      if q.Valid() {
        assert HH[..] == HRow(q, 0) && DD[..] == DRow(q, 0);
        for i := 1 to q.N() + 1
          invariant fresh(HH) && fresh(DD) && HH != DD
          invariant HH[..] == HRow(q, i - 1) && DD[..] == DRow(q, i - 1)
          invariant BestBefore(q, maxScore, se1, se2, i, 1)
        {
          ForwardRow(q, i);
          BestNextRow(q, maxScore, se1, se2, i);
        }
      }
    }

    /** The initialisation of forwardPass: HH and DD sized to seq2 (m + 1 entries), row 0 of H and D in them. */
    method InitRows(size: nat)
      modifies this`HH, this`DD
      ensures fresh(HH) && fresh(DD) && HH != DD
      ensures HH.Length == size && DD.Length == size
      ensures forall c :: 0 <= c < size ==> HH[c] == 0 && DD[c] == -gapOpen
    {
      HH := new int[size];
      DD := new int[size];
      for j := 0 to size
        invariant fresh(HH) && fresh(DD) && HH != DD && HH.Length == size && DD.Length == size
        invariant forall c :: 0 <= c < j ==> HH[c] == 0 && DD[c] == -gapOpen
      {
        HH[j] := 0;
        DD[j] := -gapOpen;
      }
    }

    /** One pass of forwardPass's outer loop: turn row i - 1 of HH and DD into row i. */
    method ForwardRow(q: Pair, i: nat)
      requires Valid() && q == Problem(q.seq1, q.seq2) && q.Valid()
      requires IsResidues(q.seq1) && IsResidues(q.seq2)
      requires 1 <= i <= q.N()
      requires HH != DD && HH[..] == HRow(q, i - 1) && DD[..] == DRow(q, i - 1)
      requires BestBefore(q, maxScore, se1, se2, i, 1)
      modifies HH, DD, this`maxScore, this`se1, this`se2
      ensures HH[..] == HRow(q, i) && DD[..] == DRow(q, i)
      ensures BestBefore(q, maxScore, se1, se2, i, q.M() + 1)
    {
      var hh := 0;
      var p := 0;
      var f := -gapOpen;
      SpliceEnds(HRow(q, i), HRow(q, i - 1));
      SpliceEnds(DRow(q, i), DRow(q, i - 1));
      for j := 1 to q.M() + 1
        invariant InRow(q, i, j, hh, p, f)
      {
        hh, p, f := ForwardStep(q, i, j, hh, p, f);
      }
    }

    /** The state of forwardPass's inner loop before column j of row i. */
    ghost predicate InRow(q: Pair, i: nat, j: nat, hh: int, p: int, f: int)
      reads this, HH, DD, matrix
    {
      Valid() && q == Problem(q.seq1, q.seq2) && q.Valid() &&
      IsResidues(q.seq1) && IsResidues(q.seq2) &&
      1 <= i <= q.N() && 1 <= j <= q.M() + 1 && HH != DD &&
      HH[..] == HRow(q, i)[..j] + HRow(q, i - 1)[j..] &&
      DD[..] == DRow(q, i)[..j] + DRow(q, i - 1)[j..] &&
      hh == HRow(q, i)[j - 1] && p == HRow(q, i - 1)[j - 1] && f == F(q, i, j - 1) &&
      BestBefore(q, maxScore, se1, se2, i, j)
    }

    /** One pass of forwardPass's inner loop: compute cell (i, j), store it and update the best. */
    method ForwardStep(q: Pair, i: nat, j: nat, hh: int, p: int, f: int) returns (hh': int, p': int, f': int)
      requires InRow(q, i, j, hh, p, f) && j <= q.M()
      modifies HH, DD, this`maxScore, this`se1, this`se2
      ensures InRow(q, i, j + 1, hh', p', f')
    {
      var d;
      hh', f', d := ForwardCell(q, i, j, hh, p, f, HH[j], DD[j]);
      p' := StoreCell(j, hh', d, HRow(q, i), HRow(q, i - 1), DRow(q, i), DRow(q, i - 1));
      Consider(q, i, j, hh');
    }

    /**
     * The body of forwardPass's inner loop for cell (i, j), before HH[j] is
     * overwritten: extend or open the horizontal gap f, extend or open the
     * vertical gap held in DD[j], then take the best of the diagonal step,
     * the two gaps and 0. hOld and dOld are the row i - 1 values of HH[j]
     * and DD[j].
     */
    method ForwardCell(q: Pair, i: nat, j: nat, hh: int, p: int, f: int, hOld: int, dOld: int)
      returns (hh': int, f': int, d': int)
      requires Valid() && q == Problem(q.seq1, q.seq2) && q.Valid()
      requires IsResidues(q.seq1) && IsResidues(q.seq2)
      requires 1 <= i <= q.N() && 1 <= j <= q.M()
      requires hh == HRow(q, i)[j - 1] && p == HRow(q, i - 1)[j - 1] && f == F(q, i, j - 1)
      requires hOld == HRow(q, i - 1)[j] && dOld == DRow(q, i - 1)[j]
      ensures hh' == HRow(q, i)[j] && f' == F(q, i, j) && d' == DRow(q, i)[j]
    {
      assert hh == H(q, i, j - 1) && p == H(q, i - 1, j - 1);
      assert hOld == H(q, i - 1, j) && dOld == D(q, i - 1, j);
      f' := f - gapExtend;
      var t := hh - gapOpen - gapExtend;
      if f' < t {
        f' := t;
      }
      d' := dOld - gapExtend;
      t := hOld - gapOpen - gapExtend;
      if d' < t {
        d' := t;
      }
      hh' := p + matrix[q.seq1[i], q.seq2[j]];
      if hh' < f' {
        hh' := f';
      }
      if hh' < d' {
        hh' := d';
      }
      if hh' < 0 {
        hh' := 0;
      }
      assert hh' == H(q, i, j) && d' == D(q, i, j);
    }

    /** The stores at the end of forwardPass's inner loop: HH[j] and DD[j] move from row i - 1 to row i, and the old HH[j] is the next diagonal. */
    method StoreCell(j: nat, hh: int, d: int, ghost hCur: seq<int>, ghost hPrev: seq<int>, ghost dCur: seq<int>, ghost dPrev: seq<int>)
      returns (p: int)
      requires HH != DD && |hCur| == |hPrev| == |dCur| == |dPrev| && j < |hCur|
      requires HH[..] == hCur[..j] + hPrev[j..] && DD[..] == dCur[..j] + dPrev[j..]
      requires hh == hCur[j] && d == dCur[j]
      modifies HH, DD
      ensures HH[..] == hCur[..j + 1] + hPrev[j + 1..] && DD[..] == dCur[..j + 1] + dPrev[j + 1..]
      ensures p == hPrev[j]
    {
      Splice(dCur, dPrev, j);
      DD[j] := d;
      Splice(hCur, hPrev, j);
      p := HH[j];
      HH[j] := hh;
    }

    /** The best-score update of forwardPass's inner loop: a strictly larger score at (i, j) becomes the new best. */
    method Consider(q: Pair, i: nat, j: nat, hh: int)
      requires q.Valid() && 1 <= i <= q.N() && 1 <= j <= q.M()
      requires hh == HRow(q, i)[j] && BestBefore(q, maxScore, se1, se2, i, j)
      modifies this`maxScore, this`se1, this`se2
      ensures BestBefore(q, maxScore, se1, se2, i, j + 1)
    {
      BestStep(q, maxScore, se1, se2, i, j);
      if hh > maxScore {
        maxScore := hh;
        se1, se2 := i, j;
      }
    }

    /**
     * reversePass: run the mirrored recurrence from (se1, se2) back towards
     * (1, 1), row by row, and take as the start the first cell that beats
     * the running cost, stopping as soon as the cost reaches maxScore.
     * The reads of seq1 and seq2 need se1 and se2 inside them. cost, a
     * local of the source, is returned as a ghost.
     */
    method ReversePass(seq1: seq<int>, seq2: seq<int>) returns (ghost cost: int)
      requires Valid() && IsResidues(seq1) && IsResidues(seq2)
      requires 0 <= se1 < |seq1| && 0 <= se2 < |seq2|
      modifies this`sb1, this`sb2
      ensures ScanResult(Problem(seq1, seq2), se1, se2, maxScore, cost, sb1, sb2)
    {
      var q := Problem(seq1, seq2);
      sb1, sb2 := 1, 1;
      var hRev, dRev := BorderRows(q);
      var c := ScanRows(q, hRev, dRev);
      cost := c;
    }

    /** reversePass's outer loop, from row se1 up, until the cost reaches maxScore or the rows run out. */
    method ScanRows(q: Pair, hRev: array<int>, dRev: array<int>) returns (c: int)
      requires Valid() && q == Problem(q.seq1, q.seq2) && IsResidues(q.seq1) && IsResidues(q.seq2)
      requires 0 <= se1 && 0 <= se2 && RevOuter(q, se1, se2, maxScore, se1, hRev, dRev, 0, sb1, sb2)
      modifies hRev, dRev, this`sb1, this`sb2
      ensures ScanResult(q, se1, se2, maxScore, c, sb1, sb2)
    {
      c := 0;
      var i := se1;
      while i > 0
        invariant RevOuter(q, se1, se2, maxScore, i, hRev, dRev, c, sb1, sb2)
        invariant maxScore <= 0 ==> i == se1 && c == 0
      {
        c := ReverseRow(q, i, hRev, dRev, c);
        if c >= maxScore {
          break;
        }
        i := i - 1;
      }
      if c < maxScore || (maxScore <= 0 && se1 == 0) {
        ScanDone(q, se1, se2, maxScore, c, sb1, sb2);
      }
    }

    /** The two rows reversePass starts from, se2 + 1 entries of -1 each: row se1 + 1, the outside border. */
    method BorderRows(q: Pair) returns (hRev: array<int>, dRev: array<int>)
      requires 0 <= se1 && 0 <= se2 && InWindow(q, se1, se2, se1 + 1, 1)
      ensures fresh(hRev) && fresh(dRev) && hRev != dRev
      ensures hRev[..] == RHRow(q, se1, se2, se1 + 1) && dRev[..] == RDRow(q, se1, se2, se1 + 1)
    {
      hRev := new int[se2 + 1](_ => -1);
      dRev := new int[se2 + 1](_ => -1);
      OutsideRow(q, se1, se2);
    }

    /** One pass of reversePass's outer loop over row i, up to its inner break. */
    method ReverseRow(q: Pair, i: int, hRev: array<int>, dRev: array<int>, cost: int) returns (cost': int)
      requires Valid() && q == Problem(q.seq1, q.seq2) && IsResidues(q.seq1) && IsResidues(q.seq2)
      requires 0 <= se1 && 0 <= se2 && RevOuter(q, se1, se2, maxScore, i, hRev, dRev, cost, sb1, sb2) && i >= 1
      requires maxScore <= 0 ==> i == se1 && cost == 0
      modifies hRev, dRev, this`sb1, this`sb2
      ensures cost' >= maxScore ==> ScanResult(q, se1, se2, maxScore, cost', sb1, sb2)
      ensures cost' < maxScore ==> RevOuter(q, se1, se2, maxScore, i - 1, hRev, dRev, cost', sb1, sb2)
    {
      var hh := -1;
      var f := -1;
      var p := if i == se1 then 0 else -1;
      cost' := cost;
      SpliceEnds(RHRow(q, se1, se2, i + 1), RHRow(q, se1, se2, i));
      SpliceEnds(RDRow(q, se1, se2, i + 1), RDRow(q, se1, se2, i));
      var j := se2;
      var stop := false;
      while j > 0
        invariant RevInRow(q, se1, se2, maxScore, i, j, hh, f, p, hRev, dRev, cost', sb1, sb2)
      {
        hh, f, p, cost', stop := ReverseStep(q, i, j, hh, f, p, hRev, dRev, cost');
        if stop {
          break;
        }
        j := j - 1;
      }
      if !stop {
        SpliceEnds(RHRow(q, se1, se2, i), RHRow(q, se1, se2, i + 1));
        SpliceEnds(RDRow(q, se1, se2, i), RDRow(q, se1, se2, i + 1));
        ScanNextRow(q, se1, se2, cost', sb1, sb2, i);
      }
    }

    /** One pass of reversePass's inner loop at (i, j): compute the cell, store it, and take it as the start if it beats the cost. */
    method ReverseStep(q: Pair, i: int, j: int, hh: int, f: int, p: int, hRev: array<int>, dRev: array<int>, cost: int)
      returns (hh': int, f': int, p': int, cost': int, stop: bool)
      requires Valid() && q == Problem(q.seq1, q.seq2) && IsResidues(q.seq1) && IsResidues(q.seq2)
      requires 0 <= se1 && 0 <= se2 && RevInRow(q, se1, se2, maxScore, i, j, hh, f, p, hRev, dRev, cost, sb1, sb2) && j >= 1
      modifies hRev, dRev, this`sb1, this`sb2
      ensures !stop ==> RevInRow(q, se1, se2, maxScore, i, j - 1, hh', f', p', hRev, dRev, cost', sb1, sb2)
      ensures stop ==> cost' >= maxScore && ScanResult(q, se1, se2, maxScore, cost', sb1, sb2)
    {
      var d;
      hh', f', d := ReverseCell(q, i, j, hh, f, p, hRev[j], dRev[j]);
      SpliceDown(RHRow(q, se1, se2, i + 1), RHRow(q, se1, se2, i), j);
      SpliceDown(RDRow(q, se1, se2, i + 1), RDRow(q, se1, se2, i), j);
      dRev[j] := d;
      p' := hRev[j];
      hRev[j] := hh';
      ScanStep(q, se1, se2, cost, sb1, sb2, i, j);
      cost' := cost;
      stop := false;
      if hh' > cost {
        cost' := hh';
        sb1, sb2 := i, j;
        if cost' >= maxScore {
          stop := true;
        }
      }
    }

    /**
     * The cell computation of reversePass's inner loop: the gap runs RF and
     * RD extended or opened, then the best of the diagonal step and the two
     * gaps, with no clamp at 0. hOld and dOld are HH_rev[j] and DD_rev[j]
     * from row i + 1.
     */
    method ReverseCell(q: Pair, i: int, j: int, hh: int, f: int, p: int, hOld: int, dOld: int)
      returns (hh': int, f': int, d': int)
      requires Valid() && q == Problem(q.seq1, q.seq2) && IsResidues(q.seq1) && IsResidues(q.seq2)
      requires q.Valid() && se1 <= q.N() && se2 <= q.M() && 1 <= i <= se1 && 1 <= j <= se2
      requires hh == RH(q, se1, se2, i, j + 1) && f == RF(q, se1, se2, i, j + 1) && p == RH(q, se1, se2, i + 1, j + 1)
      requires hOld == RH(q, se1, se2, i + 1, j) && dOld == RD(q, se1, se2, i + 1, j)
      ensures hh' == RH(q, se1, se2, i, j) && f' == RF(q, se1, se2, i, j) && d' == RD(q, se1, se2, i, j)
    {
      f' := f - gapExtend;
      var t := hh - gapOpen - gapExtend;
      if f' < t {
        f' := t;
      }
      d' := dOld - gapExtend;
      t := hOld - gapOpen - gapExtend;
      if d' < t {
        d' := t;
      }
      hh' := p + matrix[q.seq1[i], q.seq2[j]];
      if hh' < f' {
        hh' := f';
      }
      if hh' < d' {
        hh' := d';
      }
    }

    /** The path recorded so far: displ[1 .. printPtr), empty while printPtr is at most 1. */
    function Path(): seq<int>
      reads this, displ
      requires printPtr <= displ.Length
    {
      if printPtr <= 1 then [] else displ[1..printPtr]
    }

    /** printPtr is inside displ and lastPrint is the last recorded entry, or 0 while the path is empty. */
    ghost predicate PathOk()
      reads this, displ
    {
      1 <= printPtr <= displ.Length && lastPrint == (if printPtr == 1 then 0 else displ[printPtr - 1])
    }

    /**
     * add(v): record a diagonal step (0) or a horizontal run (v > 0). While
     * the last entry is a vertical run, v goes just before it and the run
     * stays last.
     */
    method Add(v: int)
      requires PathOk() && printPtr < displ.Length
      modifies displ, this`printPtr, this`lastPrint
      ensures PathOk() && printPtr == old(printPtr) + 1
      ensures Path() == AddSpec(old(Path()), v)
    {
      if lastPrint < 0 {
        displ[printPtr - 1] := v;
        displ[printPtr] := lastPrint;
        printPtr := printPtr + 1;
      } else {
        displ[printPtr] := v;
        lastPrint := v;
        printPtr := printPtr + 1;
      }
    }

    /** del(k): grow a trailing vertical run by k, or start one of length k. */
    method Del(k: int)
      requires PathOk() && (lastPrint >= 0 ==> printPtr < displ.Length)
      modifies displ, this`printPtr, this`lastPrint
      ensures PathOk() && printPtr == old(printPtr) + (if old(lastPrint) < 0 then 0 else 1)
      ensures Path() == DelSpec(old(Path()), k)
    {
      if lastPrint < 0 {
        displ[printPtr - 1] := displ[printPtr - 1] - k;
        lastPrint := displ[printPtr - 1];
      } else {
        displ[printPtr] := -k;
        lastPrint := -k;
        printPtr := printPtr + 1;
      }
    }

    /** The window backtrack works on: from (sb1, sb2) to (se1, se2). */
    function Span(seq1: seq<int>, seq2: seq<int>): Window
      reads this`gapOpen, this`gapExtend, this`sb1, this`sb2, this`se1, this`se2
      requires 1 <= sb1 <= se1 + 1 && 1 <= sb2 <= se2 + 1
    {
      Window(Problem(seq1, seq2), sb1, sb2, se1 - sb1 + 1, se2 - sb2 + 1)
    }

    /**
     * backtrack: refill the global recurrence over the window between the
     * start and the end cell, then walk its directions back from the
     * window's last cell to (0, 0), recording each move with add or del.
     * displ gets 2 (n + m) + 1 entries; the walk never needs more than
     * n + m of them.
     */
    method Backtrack(seq1: seq<int>, seq2: seq<int>)
      requires Valid() && IsResidues(seq1) && IsResidues(seq2)
      requires 1 <= sb1 <= se1 + 1 && 1 <= sb2 <= se2 + 1 && se1 < |seq1| && se2 < |seq2|
      modifies this`displ, this`printPtr, this`lastPrint
      ensures var w := Span(seq1, seq2);
        fresh(displ) && displ.Length == 2 * (w.n + w.m) + 1 && PathOk() &&
        Path() == Encode(BWalk(w, w.n, w.m)) && printPtr <= w.n + w.m + 1
    {
      var w := Span(seq1, seq2);
      var n := se1 - sb1 + 1;
      var m := se2 - sb2 + 1;
      displ := new int[2 * (n + m) + 1];
      printPtr := 1;
      lastPrint := 0;
      var score, direction := Refill(w);
      StartWalk(w, direction);
      Walk(w, direction);
    }

    /** The state backtrack's walk starts from: nothing recorded yet. */
    lemma StartWalk(w: Window, direction: array2<char>)
      requires DirsOf(w, direction) && displ.Length == 2 * (w.n + w.m) + 1 && printPtr == 1 && lastPrint == 0
      ensures WalkState(w, direction, w.n, w.m, [])
    {
      assert BWalk(w, w.n, w.m) == [] + BWalk(w, w.n, w.m);
    }

    /** backtrack's loop: walk the directions from the window's last cell to (0, 0). */
    method Walk(w: Window, direction: array2<char>)
      requires WalkState(w, direction, w.n, w.m, [])
      modifies displ, this`printPtr, this`lastPrint
      ensures PathOk() && Path() == Encode(BWalk(w, w.n, w.m)) && printPtr <= w.n + w.m + 1
    {
      var i := w.n;
      var j := w.m;
      ghost var done: seq<Move> := [];
      while i > 0 || j > 0
        invariant WalkState(w, direction, i, j, done)
        decreases i + j
      {
        i, j, done := BackStep(w, direction, i, j, done);
      }
      EndWalk(w, direction, done);
    }

    /** At (0, 0) the walk is over: the moves recorded are the whole walk. */
    lemma EndWalk(w: Window, direction: array2<char>, done: seq<Move>)
      requires WalkState(w, direction, 0, 0, done)
      ensures PathOk() && Path() == Encode(BWalk(w, w.n, w.m)) && printPtr <= w.n + w.m + 1
    {
      assert BWalk(w, 0, 0) == [];
      assert done + [] == done;
    }

    /**
     * backtrack's walk at (i, j) after the moves done: they are the start of
     * the whole walk and the rest of it leads from (i, j), the path records
     * them, and displ has room for the moves still to come.
     */
    ghost predicate WalkState(w: Window, direction: array2<char>, i: int, j: int, done: seq<Move>)
      reads this, displ, direction
    {
      DirsOf(w, direction) && 0 <= i <= w.n && 0 <= j <= w.m && |done| + i + j <= w.n + w.m &&
      displ.Length == 2 * (w.n + w.m) + 1 && PathOk() && printPtr <= |done| + 1 &&
      Path() == Encode(done) && BWalk(w, w.n, w.m) == done + BWalk(w, i, j)
    }

    /**
     * One pass of backtrack's walk: a diagonal move records add(0), a
     * horizontal one add(1) and a vertical one del(1); row 0 only moves
     * left and column 0 only up.
     */
    method BackStep(w: Window, direction: array2<char>, i: int, j: int, ghost done: seq<Move>)
      returns (i': int, j': int, ghost done': seq<Move>)
      requires WalkState(w, direction, i, j, done) && (i > 0 || j > 0)
      modifies displ, this`printPtr, this`lastPrint
      ensures WalkState(w, direction, i', j', done') && i' + j' < i + j
    {
      var mv := MoveFor(i, j, direction[i, j]);
      i', j' := Before(i, j, mv).0, Before(i, j, mv).1;
      Record(mv);
      done' := done + [mv];
      WalkAdvance(w, done, i, j, direction[i, j]);
      EncodeSnoc(done, mv);
    }

    /** The call backtrack makes for a move: add(0) for a diagonal, add(1) for a horizontal and del(1) for a vertical one. */
    method Record(mv: Move)
      requires PathOk() && printPtr < displ.Length
      modifies displ, this`printPtr, this`lastPrint
      ensures PathOk() && printPtr <= old(printPtr) + 1
      ensures Path() == Emit(old(Path()), mv)
    {
      match mv
      case Diag => Add(0);
      case Horiz => Add(1);
      case Vert => Del(1);
    }

    /**
     * The refill at the start of backtrack: score and direction over the
     * (n + 1) x (m + 1) window, 0 on the borders, and inside the choice
     * between the diagonal step and a gap opened from the left or from
     * above.
     */
    method Refill(w: Window) returns (score: array2<int>, direction: array2<char>)
      requires Valid() && w.Valid() && w.q.gapOpen == gapOpen && w.q.gapExtend == gapExtend
      requires IsResidues(w.q.seq1) && IsResidues(w.q.seq2)
      ensures fresh(score) && fresh(direction)
      ensures direction.Length0 == w.n + 1 && direction.Length1 == w.m + 1
      ensures DirsOf(w, direction)
    {
      score := new int[w.n + 1, w.m + 1]((_, _) => 0);
      direction := new char[w.n + 1, w.m + 1]((_, _) => 0 as char);
      for ii := 1 to w.n + 1
        invariant WindowRowsDone(w, score, direction, ii)
      {
        RefillRow(w, score, direction, ii);
      }
    }

    /**
     * The body of the refill's inner loop: the diagonal step and the gaps
     * opened from the left and from above, diagonal preferred on ties, then
     * horizontal. nw, west and north are the neighbouring scores.
     */
    method RefillCell(w: Window, ii: int, jj: int, nw: int, west: int, north: int) returns (st: Step)
      requires Valid() && w.Valid() && w.q.gapOpen == gapOpen && w.q.gapExtend == gapExtend
      requires IsResidues(w.q.seq1) && IsResidues(w.q.seq2) && 1 <= ii <= w.n && 1 <= jj <= w.m
      requires nw == BScore(w, ii - 1, jj - 1) && west == BScore(w, ii, jj - 1) && north == BScore(w, ii - 1, jj)
      ensures st == BCell(w, ii, jj)
    {
      var diag := nw + matrix[w.q.seq1[w.sb1 + ii - 1], w.q.seq2[w.sb2 + jj - 1]];
      var horiz := west - gapOpen - gapExtend;
      var vert := north - gapOpen - gapExtend;
      if diag >= horiz && diag >= vert {
        st := Step(diag, 'd');
      } else if horiz >= vert {
        st := Step(horiz, 'h');
      } else {
        st := Step(vert, 'v');
      }
    }

    /** One pass of the refill's outer loop: fill row ii of the window. */
    method RefillRow(w: Window, score: array2<int>, direction: array2<char>, ii: int)
      requires Valid() && w.Valid() && w.q.gapOpen == gapOpen && w.q.gapExtend == gapExtend
      requires IsResidues(w.q.seq1) && IsResidues(w.q.seq2) && 1 <= ii <= w.n
      requires score != matrix && WindowRowsDone(w, score, direction, ii)
      modifies score, direction
      ensures WindowRowsDone(w, score, direction, ii + 1)
    {
      for jj := 1 to w.m + 1
        invariant WindowRowsDone(w, score, direction, ii)
        invariant forall b :: 0 <= b < jj ==> score[ii, b] == BScore(w, ii, b) && direction[ii, b] == BDir(w, ii, b)
      {
        var st := RefillCell(w, ii, jj, score[ii - 1, jj - 1], score[ii, jj - 1], score[ii - 1, jj]);
        score[ii, jj] := st.score;
        direction[ii, jj] := st.dir;
      }
    }

    /**
     * tracePath: lay out the recorded path from the start cell (sb1, sb2),
     * reading displ[1 .. printPtr) in index order, and print the score,
     * the two aligned lines and the match line between them.
     */
    method TracePath(seq1: seq<int>, seq2: seq<int>) returns (result: string)
      requires printPtr <= displ.Length
      ensures result == Report(maxScore, bestSeq1Index, bestSeq2Index, Rows(Trace(seq1, seq2, Path(), 0, sb1, sb2)))
    {
      var aligned1, aligned2, middle := LayOutPath(seq1, seq2);
      result := "Alignment Score: " + IntToString(maxScore) + "\n";
      result := result + "Sequence " + IntToString(bestSeq1Index) + ": " + aligned1 + "\n";
      result := result + "                   " + middle + "\n";
      result := result + "Sequence " + IntToString(bestSeq2Index) + ": " + aligned2 + "\n";
    }

    /** tracePath's loop: the three lines for the columns of displ[1 .. printPtr), laid out from (sb1, sb2). */
    method LayOutPath(seq1: seq<int>, seq2: seq<int>) returns (aligned1: string, aligned2: string, middle: string)
      requires printPtr <= displ.Length
      ensures (aligned1, aligned2, middle) == Rows(Trace(seq1, seq2, Path(), 0, sb1, sb2))
    {
      var toDo := printPtr - 1;
      var i1 := sb1;
      var i2 := sb2;
      aligned1, aligned2, middle := "", "", "";
      ghost var l := Path();
      ghost var cols: seq<Column> := [];
      ghost var all := Trace(seq1, seq2, l, 0, sb1, sb2);
      ghost var k: nat := 0;
      var i := 1;
      while i <= toDo
        invariant k == i - 1 && (toDo >= 0 ==> i <= toDo + 1) && |l| == (if toDo < 0 then 0 else toDo)
        invariant TraceState(seq1, seq2, l, k, i1, i2, all, cols, aligned1, aligned2, middle)
      {
        ghost var k';
        aligned1, aligned2, middle, i1, i2, cols, k' :=
          LayOut(seq1, seq2, l, k, i1, i2, displ[i], all, cols, aligned1, aligned2, middle);
        i, k := i + 1, k';
      }
      TraceDone(seq1, seq2, l, k, i1, i2, all, cols, aligned1, aligned2, middle);
    }

    /**
     * divideIntoGroups: clear both groups; with at least three sequences,
     * list the indices 0 .. numSeq - 1, shuffle them, and put the first two
     * into group1 and all the others into group2. The shuffle is the
     * permutation order: afterwards position k holds index order[k].
     */
    method DivideIntoGroups(sequences: seq<seq<int>>, order: seq<int>)
      requires |sequences| >= 3 ==> IsPermutation(order, |sequences|)
      modifies this`group1, this`group2
      ensures |sequences| < 3 ==> group1 == [] && group2 == []
      ensures |sequences| >= 3 ==> group1 == order[..2] && group2 == order[2..]
      ensures |sequences| >= 3 ==> GroupsOk(group1, group2, |sequences|) && Covers(group1, group2, |sequences|)
    {
      group1 := [];
      group2 := [];
      var numSeq := |sequences|;
      if numSeq < 3 {
        return;
      }
      var indices := new int[numSeq];
      for i := 0 to numSeq
        invariant group1 == [] && group2 == []
        invariant forall k :: 0 <= k < i ==> indices[k] == k
      {
        indices[i] := i;
      }
      Shuffle(indices, order);
      assert indices[..] == order;
      group1 := group1 + [indices[0]];
      group1 := group1 + [indices[1]];
      assert group1 == order[..2];
      for i := 2 to numSeq
        invariant indices[..] == order && group1 == order[..2] && group2 == order[2..i]
      {
        group2 := group2 + [indices[i]];
      }
      PermutationSplits(order, 2);
    }

    /**
     * calculateScoreMatrix: a numSeq x numSeq matrix of zeros, then, for
     * every index i of group1 and j of group2 in turn, forwardPass on
     * sequences i and j and its best score stored at [i][j] and at [j][i].
     */
    method CalculateScoreMatrix(sequences: seq<seq<int>>)
      requires Valid() && AllResidues(sequences) && GroupsOk(group1, group2, |sequences|)
      modifies this`scoreMatrix, this`HH, this`DD, this`maxScore, this`se1, this`se2
      ensures Valid() && fresh(scoreMatrix)
      ensures scoreMatrix.Length0 == |sequences| && scoreMatrix.Length1 == |sequences|
      ensures forall a, b :: 0 <= a < |group1| && 0 <= b < |group2| ==>
        IsBestScore(Pair(sequences[group1[a]], sequences[group2[b]], gapOpen, gapExtend), scoreMatrix[group1[a], group2[b]]) &&
        scoreMatrix[group2[b], group1[a]] == scoreMatrix[group1[a], group2[b]]
      ensures forall x, y :: 0 <= x < |sequences| && 0 <= y < |sequences| && !(x in group1 && y in group2) && !(x in group2 && y in group1) ==>
        scoreMatrix[x, y] == 0
    {
      scoreMatrix := ZeroScores(sequences, group1, group2, gapOpen, gapExtend);
      for a := 0 to |group1|
        invariant fresh(scoreMatrix) && Scoring(sequences, a, 0)
      {
        ScoreRow(sequences, a);
      }
      ScoresAll(scoreMatrix, sequences, group1, group2, gapOpen, gapExtend);
    }

    /** calculateScoreMatrix's state before pair (a, b): the scores so far, and the matrix apart from the substitution matrix. */
    ghost predicate Scoring(sequences: seq<seq<int>>, a: int, b: int)
      reads this, matrix, scoreMatrix
    {
      Valid() && scoreMatrix != matrix && AllResidues(sequences) &&
      ScoresDone(scoreMatrix, sequences, group1, group2, gapOpen, gapExtend, a, b)
    }

    /** One pass of calculateScoreMatrix's outer loop: score group1[a] against all of group2. */
    method ScoreRow(sequences: seq<seq<int>>, a: int)
      requires Scoring(sequences, a, 0) && 0 <= a < |group1|
      modifies scoreMatrix, this`HH, this`DD, this`maxScore, this`se1, this`se2
      ensures Scoring(sequences, a + 1, 0)
    {
      for b := 0 to |group2|
        invariant Scoring(sequences, a, b)
      {
        ScorePair(sequences, a, b);
      }
      ScoresNextRow(scoreMatrix, sequences, group1, group2, gapOpen, gapExtend, a);
    }

    /** One pass of calculateScoreMatrix's inner loop: score group1[a] against group2[b]. */
    method ScorePair(sequences: seq<seq<int>>, a: int, b: int)
      requires Scoring(sequences, a, b) && 0 <= a < |group1| && 0 <= b < |group2|
      modifies scoreMatrix, this`HH, this`DD, this`maxScore, this`se1, this`se2
      ensures Scoring(sequences, a, b + 1)
    {
      var i := group1[a];
      var j := group2[b];
      ForwardPass(sequences[i], sequences[j]);
      BestScoreOf(Problem(sequences[i], sequences[j]), maxScore, se1, se2);
      StoreScore(scoreMatrix, sequences, group1, group2, gapOpen, gapExtend, a, b, maxScore);
    }

    /**
     * findBestPair: over i in group1 and j in group2 in order, the pair
     * with the largest score above -1, the first one on ties; (-1, -1)
     * when no pair scores above -1.
     */
    method FindBestPair() returns (first: int, second: int)
      requires InMatrix(scoreMatrix, group1, group2)
      ensures (first, second) == (-1, -1) <==>
        forall a, b :: 0 <= a < |group1| && 0 <= b < |group2| ==> scoreMatrix[group1[a], group2[b]] <= -1
      ensures (first, second) != (-1, -1) ==>
        exists a, b :: 0 <= a < |group1| && 0 <= b < |group2| && first == group1[a] && second == group2[b] &&
          FirstBest(scoreMatrix, group1, group2, a, b)
    {
      var bestScore := -1;
      first, second := -1, -1;
      ghost var ba, bb := 0, 0;
      for a := 0 to |group1|
        invariant PairScan(scoreMatrix, group1, group2, a, 0, bestScore, first, second, ba, bb)
      {
        bestScore, first, second, ba, bb := PairRow(a, bestScore, first, second, ba, bb);
      }
      PairScanDone(scoreMatrix, group1, group2, bestScore, first, second, ba, bb);
    }

    /** One pass of findBestPair's outer loop: group1[a] against all of group2. */
    method PairRow(a: int, bestScore: int, first: int, second: int, ghost ba: int, ghost bb: int)
      returns (bestScore': int, first': int, second': int, ghost ba': int, ghost bb': int)
      requires 0 <= a < |group1| && PairScan(scoreMatrix, group1, group2, a, 0, bestScore, first, second, ba, bb)
      ensures PairScan(scoreMatrix, group1, group2, a + 1, 0, bestScore', first', second', ba', bb')
    {
      bestScore', first', second', ba', bb' := bestScore, first, second, ba, bb;
      for b := 0 to |group2|
        invariant PairScan(scoreMatrix, group1, group2, a, b, bestScore', first', second', ba', bb')
      {
        bestScore', first', second', ba', bb' := PairStep(a, b, bestScore', first', second', ba', bb');
      }
      PairScanNextRow(scoreMatrix, group1, group2, a, bestScore', first', second', ba', bb');
    }

    /** One pass of findBestPair's inner loop: a strictly higher score takes over. */
    method PairStep(a: int, b: int, bestScore: int, first: int, second: int, ghost ba: int, ghost bb: int)
      returns (bestScore': int, first': int, second': int, ghost ba': int, ghost bb': int)
      requires InMatrix(scoreMatrix, group1, group2) && 0 <= a < |group1| && 0 <= b < |group2|
      requires PairScan(scoreMatrix, group1, group2, a, b, bestScore, first, second, ba, bb)
      ensures PairScan(scoreMatrix, group1, group2, a, b + 1, bestScore', first', second', ba', bb')
    {
      bestScore', first', second', ba', bb' := bestScore, first, second, ba, bb;
      if scoreMatrix[group1[a], group2[b]] > bestScore {
        bestScore' := scoreMatrix[group1[a], group2[b]];
        first', second' := group1[a], group2[b];
        ba', bb' := a, b;
      }
    }

    /**
     * alignSequences: with fewer than three sequences, the message saying
     * so; otherwise divide the sequences into groups (order standing for
     * the shuffle), score every cross-group pair, take the best pair and
     * return the report of aligning it. Every stored score is at least 0,
     * so findBestPair always finds a pair and the message for a failed
     * search is never returned.
     */
    method AlignSequences(sequences: seq<seq<int>>, order: seq<int>) returns (result: string)
      requires Valid() && AllResidues(sequences) && forall k :: 0 <= k < |sequences| ==> |sequences[k]| >= 1
      requires |sequences| >= 3 ==> IsPermutation(order, |sequences|)
      modifies this`group1, this`group2, this`scoreMatrix, this`HH, this`DD, this`maxScore, this`se1, this`se2
      modifies this`sb1, this`sb2, this`displ, this`printPtr, this`lastPrint, this`bestSeq1Index, this`bestSeq2Index
      ensures |sequences| < 3 ==> result == "At least 3 sequences are required for this grouping approach."
      ensures |sequences| >= 3 ==>
        Chosen(sequences, order, group1, group2, scoreMatrix, bestSeq1Index, bestSeq2Index) &&
        Started(sequences[bestSeq1Index], sequences[bestSeq2Index]) &&
        Aligned(sequences[bestSeq1Index], sequences[bestSeq2Index], result)
    {
      if |sequences| < 3 {
        return "At least 3 sequences are required for this grouping approach.";
      }
      ChoosePair(sequences, order);
      result := AlignChosen(sequences, order);
    }

    /** The chosen pair aligned: alignPair leaves the groups, the score matrix and the best indices as they were. */
    method AlignChosen(sequences: seq<seq<int>>, order: seq<int>) returns (result: string)
      requires Valid() && AllResidues(sequences) && forall k :: 0 <= k < |sequences| ==> |sequences[k]| >= 1
      requires Chosen(sequences, order, group1, group2, scoreMatrix, bestSeq1Index, bestSeq2Index)
      modifies this`HH, this`DD, this`maxScore, this`se1, this`se2
      modifies this`sb1, this`sb2, this`displ, this`printPtr, this`lastPrint
      ensures Chosen(sequences, order, group1, group2, scoreMatrix, bestSeq1Index, bestSeq2Index)
      ensures Started(sequences[bestSeq1Index], sequences[bestSeq2Index])
      ensures Aligned(sequences[bestSeq1Index], sequences[bestSeq2Index], result)
    {
      result := AlignPair(sequences[bestSeq1Index], sequences[bestSeq2Index]);
    }

    /**
     * The first three steps of alignSequences: divideIntoGroups,
     * calculateScoreMatrix and findBestPair, whose pair becomes the best
     * indices.
     */
    method ChoosePair(sequences: seq<seq<int>>, order: seq<int>)
      requires Valid() && AllResidues(sequences) && |sequences| >= 3 && IsPermutation(order, |sequences|)
      modifies this`group1, this`group2, this`scoreMatrix, this`HH, this`DD, this`maxScore, this`se1, this`se2
      modifies this`bestSeq1Index, this`bestSeq2Index
      ensures Valid() && Chosen(sequences, order, group1, group2, scoreMatrix, bestSeq1Index, bestSeq2Index)
    {
      DivideIntoGroups(sequences, order);
      CalculateScoreMatrix(sequences);
      PickBest(sequences, order);
    }

    /** findBestPair over the filled score matrix, its pair becoming the best indices. */
    method PickBest(sequences: seq<seq<int>>, order: seq<int>)
      requires |sequences| >= 3 && |order| == |sequences| && group1 == order[..2] && group2 == order[2..]
      requires ScoresDone(scoreMatrix, sequences, group1, group2, gapOpen, gapExtend, |group1|, 0)
      modifies this`bestSeq1Index, this`bestSeq2Index
      ensures Chosen(sequences, order, group1, group2, scoreMatrix, bestSeq1Index, bestSeq2Index)
    {
      ScoresAboveMinusOne(scoreMatrix, sequences, group1, group2, gapOpen, gapExtend);
      var first, second := FindBestPair();
      if first == -1 || second == -1 {
        // findBestPair found no pair: unreachable, every score is at least 0
        assert false;
      }
      bestSeq1Index := first;
      bestSeq2Index := second;
    }

    /**
     * What alignSequences reports for the pair seq1, seq2: the path recorded
     * is the encoded backtrack walk over the window from (sb1, sb2) to
     * (se1, se2), and the report prints that path from (sb1, sb2). By
     * TraceOfWindow its two aligned lines then hold exactly the window's
     * residues, in order.
     */
    ghost predicate Aligned(seq1: seq<int>, seq2: seq<int>, result: string)
      reads this, displ
    {
      1 <= sb1 <= se1 + 1 && 1 <= sb2 <= se2 + 1 && se1 < |seq1| && se2 < |seq2| && printPtr <= displ.Length &&
      var w := Span(seq1, seq2);
      Path() == Encode(BWalk(w, w.n, w.m)) &&
      result == Report(maxScore, bestSeq1Index, bestSeq2Index, Rows(Trace(seq1, seq2, Path(), 0, sb1, sb2)))
    }

    /** The state after forwardPass and reversePass on seq1, seq2: the best score, its end cell and a start cell before it. */
    ghost predicate Started(seq1: seq<int>, seq2: seq<int>)
      reads this`gapOpen, this`gapExtend, this`maxScore, this`se1, this`se2, this`sb1, this`sb2, this`matrix, matrix
    {
      Windowed(seq1, seq2) && IsLocalBest(Problem(seq1, seq2), maxScore, se1, se2)
    }

    /** What backtrack needs: residue vectors, the substitution matrix, and a window from (sb1, sb2) to (se1, se2) inside them. */
    ghost predicate Windowed(seq1: seq<int>, seq2: seq<int>)
      reads this`se1, this`se2, this`sb1, this`sb2, this`matrix, matrix
    {
      Valid() && IsResidues(seq1) && IsResidues(seq2) && |seq1| >= 1 && |seq2| >= 1 &&
      0 <= se1 < |seq1| && 0 <= se2 < |seq2| && 1 <= sb1 <= se1 + 1 && 1 <= sb2 <= se2 + 1
    }

    /** The end of alignSequences for the chosen pair: forwardPass, reversePass, backtrack and tracePath. */
    method AlignPair(seq1: seq<int>, seq2: seq<int>) returns (result: string)
      requires Valid() && IsResidues(seq1) && IsResidues(seq2) && |seq1| >= 1 && |seq2| >= 1
      modifies this`HH, this`DD, this`maxScore, this`se1, this`se2, this`sb1, this`sb2
      modifies this`displ, this`printPtr, this`lastPrint
      ensures Started(seq1, seq2) && Aligned(seq1, seq2, result)
    {
      FindEnds(seq1, seq2);
      result := BacktrackAndTrace(seq1, seq2);
    }

    /** forwardPass, then reversePass from the end cell it found. */
    method FindEnds(seq1: seq<int>, seq2: seq<int>)
      requires Valid() && IsResidues(seq1) && IsResidues(seq2) && |seq1| >= 1 && |seq2| >= 1
      modifies this`HH, this`DD, this`maxScore, this`se1, this`se2, this`sb1, this`sb2
      ensures Started(seq1, seq2)
    {
      ForwardPass(seq1, seq2);
      ghost var cost := ReversePass(seq1, seq2);
    }

    /** backtrack over the window, then tracePath. */
    method BacktrackAndTrace(seq1: seq<int>, seq2: seq<int>) returns (result: string)
      requires Started(seq1, seq2)
      modifies this`displ, this`printPtr, this`lastPrint
      ensures Started(seq1, seq2) && Aligned(seq1, seq2, result)
    {
      KeepStarted(seq1, seq2);
      result := TracePath(seq1, seq2);
    }

    /** backtrack leaves the state forwardPass and reversePass set up as it was. */
    method KeepStarted(seq1: seq<int>, seq2: seq<int>)
      requires Started(seq1, seq2)
      modifies this`displ, this`printPtr, this`lastPrint
      ensures Started(seq1, seq2)
      ensures var w := Span(seq1, seq2); printPtr <= displ.Length && Path() == Encode(BWalk(w, w.n, w.m))
    {
      Backtrack(seq1, seq2);
    }

    /**
     * stringToIntVector: a vector one longer than s whose position 0 is 0
     * and whose position i + 1 holds s[i] as a (signed) char. Printing a
     * code with char() gives the character back, and the vector is a
     * residue vector exactly when every character is below 128.
     */
    static method StringToIntVector(s: string) returns (r: seq<int>)
      requires IsBytes(s)
      ensures |r| == |s| + 1 && r[0] == 0
      ensures forall i :: 0 <= i < |s| ==> r[i + 1] == SignedChar(s[i])
      ensures forall i :: 0 <= i < |s| ==> Char(r[i + 1]) == s[i]
      ensures IsResidues(r) <==> forall i :: 0 <= i < |s| ==> s[i] as int < 128
    {
      var result := new int[|s| + 1](_ => 0);
      for i := 0 to |s|
        invariant result[0] == 0
        invariant forall k :: 0 <= k < i ==> result[k + 1] == SignedChar(s[k])
      {
        result[i + 1] := SignedChar(s[i]);
      }
      r := result[..];
      forall i | 0 <= i < |s|
        ensures r[i + 1] == SignedChar(s[i]) && Char(r[i + 1]) == s[i] && (0 <= r[i + 1] < 256 <==> s[i] as int < 128)
      {
        assert r[i + 1] == result[i + 1];
      }
      if forall i :: 0 <= i < |s| ==> s[i] as int < 128 {
        forall k | 1 <= k < |r|
          ensures 0 <= r[k] < 256
        {
          assert r[(k - 1) + 1] == SignedChar(s[k - 1]);
        }
      }
    }
  }

  /** Seeing cell (i, j) either leaves the best as it was or makes (i, j) the new best. */
  lemma BestStep(q: Pair, best: int, e1: int, e2: int, i: int, j: int)
    requires q.Valid() && 1 <= i <= q.N() && 1 <= j <= q.M()
    requires BestBefore(q, best, e1, e2, i, j)
    ensures H(q, i, j) > best ==> BestBefore(q, H(q, i, j), i, j, i, j + 1)
    ensures H(q, i, j) <= best ==> BestBefore(q, best, e1, e2, i, j + 1)
  {
  }

  /** Overwriting entry j of a row spliced at j moves the splice point one to the right. */
  lemma Splice(cur: seq<int>, prev: seq<int>, j: nat)
    requires |cur| == |prev| && j < |cur|
    ensures (cur[..j] + prev[j..])[j := cur[j]] == cur[..j + 1] + prev[j + 1..]
    ensures (cur[..j] + prev[j..])[j] == prev[j]
  {
  }

  /** A row spliced at 1 is the old row when the first entries agree, and a row spliced at its end is the new row. */
  lemma SpliceEnds(cur: seq<int>, prev: seq<int>)
    requires |cur| == |prev| > 0
    ensures cur[0] == prev[0] ==> cur[..1] + prev[1..] == prev
    ensures cur[..|cur|] + prev[|cur|..] == cur
  {
    if cur[0] == prev[0] {
      assert cur[..1] + prev[1..] == prev[..1] + prev[1..];
    }
  }

  /** Scanning cell (i, j) either leaves the start as it was or makes (i, j) the new start. */
  lemma ScanStep(q: Pair, e1: nat, e2: nat, cost: int, b1: int, b2: int, i: int, j: int)
    requires q.Valid() && e1 <= q.N() && e2 <= q.M() && 1 <= i <= e1 && 1 <= j <= e2
    requires ScanState(q, e1, e2, cost, b1, b2, i, j)
    ensures RH(q, e1, e2, i, j) > cost ==> ScanState(q, e1, e2, RH(q, e1, e2, i, j), i, j, i, j - 1)
    ensures RH(q, e1, e2, i, j) <= cost ==> ScanState(q, e1, e2, cost, b1, b2, i, j - 1)
  {
  }

  /** A fully scanned row i is the same as the start of row i - 1. */
  lemma ScanNextRow(q: Pair, e1: nat, e2: nat, cost: int, b1: int, b2: int, i: int)
    requires q.Valid() && e1 <= q.N() && e2 <= q.M() && ScanState(q, e1, e2, cost, b1, b2, i, 0)
    ensures ScanState(q, e1, e2, cost, b1, b2, i - 1, e2)
  {
  }

  /** Storing row i's entry j into a row spliced after j moves the splice point down to j. */
  lemma SpliceDown(prev: seq<int>, cur: seq<int>, j: int)
    requires |cur| == |prev| && 0 <= j < |cur|
    ensures (prev[..j + 1] + cur[j + 1..])[j := cur[j]] == prev[..j] + cur[j..]
    ensures (prev[..j + 1] + cur[j + 1..])[j] == prev[j]
  {
  }

  /** Row e1 + 1 is the outside border: -1 in every column up to e2 in both reversed rows. */
  lemma OutsideRow(q: Pair, e1: nat, e2: nat)
    requires InWindow(q, e1, e2, e1 + 1, 1)
    ensures RHRow(q, e1, e2, e1 + 1) == seq(e2 + 1, _ => -1)
    ensures RDRow(q, e1, e2, e1 + 1) == seq(e2 + 1, _ => -1)
  {
  }

  /** A scan that covered the whole window without reaching a positive best ends in a scan result. */
  lemma ScanDone(q: Pair, e1: nat, e2: nat, best: int, cost: int, b1: int, b2: int)
    requires q.Valid() && e1 <= q.N() && e2 <= q.M() && ScanState(q, e1, e2, cost, b1, b2, 0, e2)
    requires cost < best || (best <= 0 && e1 == 0 && cost == 0)
    ensures ScanResult(q, e1, e2, best, cost, b1, b2)
  {
  }

  /** Taking the next move of the walk from (i, j), with d the direction stored there, moves it from the remaining walk onto the moves done. */
  lemma WalkAdvance(w: Window, done: seq<Move>, i: nat, j: nat, d: char)
    requires w.Valid() && i <= w.n && j <= w.m && (i > 0 || j > 0) && d == BDir(w, i, j)
    requires BWalk(w, w.n, w.m) == done + BWalk(w, i, j)
    ensures var (i', j') := Before(i, j, MoveFor(i, j, d));
      i' <= w.n && j' <= w.m && BWalk(w, w.n, w.m) == (done + [MoveFor(i, j, d)]) + BWalk(w, i', j')
  {
    WalkStep(w, i, j);
  }

  /** Encoding one more move emits it after the encoding of the moves before. */
  lemma EncodeSnoc(done: seq<Move>, mv: Move)
    ensures Encode(done + [mv]) == Emit(Encode(done), mv)
  {
    assert (done + [mv])[..|done|] == done;
  }

  /** A finished row i is the same as the start of row i + 1. */
  lemma BestNextRow(q: Pair, best: int, e1: int, e2: int, i: int)
    requires q.Valid() && BestBefore(q, best, e1, e2, i, q.M() + 1)
    ensures BestBefore(q, best, e1, e2, i + 1, 1)
  {
  }

  /**
   * tracePath after the entries l[..k]: the columns laid out so far
   * followed by those of the remaining entries are all the columns, and
   * the three lines print the columns so far.
   */
  ghost predicate TraceState(s1: seq<int>, s2: seq<int>, l: seq<int>, k: nat, i1: int, i2: int, all: seq<Column>,
                             cols: seq<Column>, aligned1: string, aligned2: string, middle: string)
  {
    cols + Trace(s1, s2, l, k, i1, i2) == all && (aligned1, aligned2, middle) == Rows(cols)
  }

  lemma TraceDone(s1: seq<int>, s2: seq<int>, l: seq<int>, k: nat, i1: int, i2: int, all: seq<Column>,
                  cols: seq<Column>, aligned1: string, aligned2: string, middle: string)
    requires TraceState(s1, s2, l, k, i1, i2, all, cols, aligned1, aligned2, middle) && k >= |l|
    ensures (aligned1, aligned2, middle) == Rows(all)
  {
    assert cols + [] == cols;
  }

  /** One pass of tracePath's loop: lay out entry l[k] and move on to the next. */
  method LayOut(s1: seq<int>, s2: seq<int>, ghost l: seq<int>, ghost k: nat, i1: int, i2: int, e: int,
                ghost all: seq<Column>, ghost cols: seq<Column>, aligned1: string, aligned2: string, middle: string)
    returns (aligned1': string, aligned2': string, middle': string, i1': int, i2': int, ghost cols': seq<Column>, ghost k': nat)
    requires k < |l| && e == l[k]
    requires TraceState(s1, s2, l, k, i1, i2, all, cols, aligned1, aligned2, middle)
    ensures k' == k + 1 && TraceState(s1, s2, l, k', i1', i2', all, cols', aligned1', aligned2', middle')
  {
    aligned1', aligned2', middle', i1', i2', cols' := LayEntry(s1, s2, i1, i2, e, cols, aligned1, aligned2, middle);
    k' := k + 1;
    TraceStep(s1, s2, l, k, k', i1, i2, i1', i2', all, cols);
  }

  /**
   * The body of tracePath's loop for one entry e: one column for 0, e
   * columns with a gap in sequence 1 for e > 0 and -e columns with a gap
   * in sequence 2 for e < 0; the read positions move past what it consumed.
   */
  method LayEntry(s1: seq<int>, s2: seq<int>, i1: int, i2: int, e: int,
                  ghost cols: seq<Column>, aligned1: string, aligned2: string, middle: string)
    returns (aligned1': string, aligned2': string, middle': string, i1': int, i2': int, ghost cols': seq<Column>)
    requires (aligned1, aligned2, middle) == Rows(cols)
    ensures cols' == cols + Expand(s1, s2, e, i1, i2) && (aligned1', aligned2', middle') == Rows(cols')
    ensures i1' == i1 + Use1(e) && i2' == i2 + Use2(e)
  {
    if e == 0 {
      aligned1' := aligned1 + [Char(At(s1, i1))];
      aligned2' := aligned2 + [Char(At(s2, i2))];
      middle' := middle + [if At(s1, i1) == At(s2, i2) then '|' else ' '];
      i1', i2' := i1 + 1, i2 + 1;
      cols' := cols + [Match(At(s1, i1), At(s2, i2))];
      RowsSnoc(cols, Match(At(s1, i1), At(s2, i2)));
    } else if e > 0 {
      aligned1', aligned2', middle', i2', cols' := GapRun1Out(s2, i2, e, cols, aligned1, aligned2, middle);
      i1' := i1;
    } else {
      aligned1', aligned2', middle', i1', cols' := GapRun2Out(s1, i1, -e, cols, aligned1, aligned2, middle);
      i2' := i2;
    }
  }

  lemma TraceStep(s1: seq<int>, s2: seq<int>, l: seq<int>, k: nat, k': nat, i1: int, i2: int, i1': int, i2': int,
                  all: seq<Column>, cols: seq<Column>)
    requires k < |l| && k' == k + 1 && cols + Trace(s1, s2, l, k, i1, i2) == all
    requires i1' == i1 + Use1(l[k]) && i2' == i2 + Use2(l[k])
    ensures (cols + Expand(s1, s2, l[k], i1, i2)) + Trace(s1, s2, l, k', i1', i2') == all
  {
    TraceUnfold(s1, s2, l, k, i1, i2, k', i1', i2');
  }

  /** tracePath's loop for a positive entry: k columns of '-' over s2[i2], s2[i2 + 1], ... */
  method GapRun1Out(s2: seq<int>, i2: int, k: nat, ghost cols: seq<Column>, aligned1: string, aligned2: string, middle: string)
    returns (aligned1': string, aligned2': string, middle': string, i2': int, ghost cols': seq<Column>)
    requires (aligned1, aligned2, middle) == Rows(cols)
    ensures cols' == cols + GapRun1(s2, i2, k) && (aligned1', aligned2', middle') == Rows(cols') && i2' == i2 + k
  {
    aligned1', aligned2', middle', i2', cols' := aligned1, aligned2, middle, i2, cols;
    for t := 0 to k
      invariant cols' == cols + GapRun1(s2, i2, t) && (aligned1', aligned2', middle') == Rows(cols') && i2' == i2 + t
    {
      RowsSnoc(cols', GapIn1(At(s2, i2')));
      aligned1' := aligned1' + "-";
      aligned2' := aligned2' + [Char(At(s2, i2'))];
      middle' := middle' + " ";
      cols' := cols' + [GapIn1(At(s2, i2'))];
      i2' := i2' + 1;
    }
  }

  /** tracePath's loop for a negative entry: k columns of s1[i1], s1[i1 + 1], ... over '-'. */
  method GapRun2Out(s1: seq<int>, i1: int, k: nat, ghost cols: seq<Column>, aligned1: string, aligned2: string, middle: string)
    returns (aligned1': string, aligned2': string, middle': string, i1': int, ghost cols': seq<Column>)
    requires (aligned1, aligned2, middle) == Rows(cols)
    ensures cols' == cols + GapRun2(s1, i1, k) && (aligned1', aligned2', middle') == Rows(cols') && i1' == i1 + k
  {
    aligned1', aligned2', middle', i1', cols' := aligned1, aligned2, middle, i1, cols;
    for t := 0 to k
      invariant cols' == cols + GapRun2(s1, i1, t) && (aligned1', aligned2', middle') == Rows(cols') && i1' == i1 + t
    {
      RowsSnoc(cols', GapIn2(At(s1, i1')));
      aligned1' := aligned1' + [Char(At(s1, i1'))];
      aligned2' := aligned2' + "-";
      middle' := middle' + " ";
      cols' := cols' + [GapIn2(At(s1, i1'))];
      i1' := i1' + 1;
    }
  }

  /** order lists each of the indices 0 .. n - 1 exactly once. */
  ghost predicate IsPermutation(order: seq<int>, n: nat) {
    |order| == n &&
    (forall k :: 0 <= k < n ==> 0 <= order[k] < n) &&
    (forall x :: 0 <= x < n ==> x in order) &&
    (forall k, k' :: 0 <= k < k' < n ==> order[k] != order[k'])
  }

  /** The two groups hold indices below n, neither repeats one, and no index is in both. */
  ghost predicate GroupsOk(group1: seq<int>, group2: seq<int>, n: nat) {
    (forall a :: 0 <= a < |group1| ==> 0 <= group1[a] < n) &&
    (forall b :: 0 <= b < |group2| ==> 0 <= group2[b] < n) &&
    (forall a, a' :: 0 <= a < a' < |group1| ==> group1[a] != group1[a']) &&
    (forall b, b' :: 0 <= b < b' < |group2| ==> group2[b] != group2[b']) &&
    (forall a, b :: 0 <= a < |group1| && 0 <= b < |group2| ==> group1[a] != group2[b])
  }

  /** Every index below n is in one of the groups. */
  ghost predicate Covers(group1: seq<int>, group2: seq<int>, n: nat) {
    forall x :: 0 <= x < n ==> x in group1 || x in group2
  }

  /** Cutting a permutation at c gives two groups that share nothing and between them hold every index. */
  lemma PermutationSplits(order: seq<int>, c: nat)
    requires IsPermutation(order, |order|) && c <= |order|
    ensures GroupsOk(order[..c], order[c..], |order|) && Covers(order[..c], order[c..], |order|)
  {
    forall x | 0 <= x < |order|
      ensures x in order[..c] || x in order[c..]
    {
      assert x in order;
      var k :| 0 <= k < |order| && order[k] == x;
      if k < c {
        assert order[..c][k] == x;
      } else {
        assert order[c..][k - c] == x;
      }
    }
  }

  /** The shuffle of divideIntoGroups, fixed to the permutation order: afterwards a[k] is what a[order[k]] was. */
  method Shuffle(a: array<int>, order: seq<int>)
    requires IsPermutation(order, a.Length)
    modifies a
    ensures forall k :: 0 <= k < a.Length ==> a[k] == old(a[order[k]])
  {
    var before := a[..];
    for k := 0 to a.Length
      invariant forall t :: 0 <= t < k ==> a[t] == before[order[t]]
    {
      a[k] := before[order[k]];
    }
  }

  predicate AllResidues(sequences: seq<seq<int>>) {
    forall k :: 0 <= k < |sequences| ==> IsResidues(sequences[k])
  }

  /**
   * best is the best local score of q: the largest inner score, or 0 when
   * none is positive. For a pair without residues it is 0, the value
   * forwardPass leaves.
   */
  ghost predicate IsBestScore(q: Pair, best: int) {
    if q.Valid() then exists e1, e2 :: IsLocalBest(q, best, e1, e2) else best == 0
  }

  lemma BestScoreOf(q: Pair, best: int, e1: int, e2: int)
    requires q.Valid() ==> IsLocalBest(q, best, e1, e2)
    requires !q.Valid() ==> best == 0
    ensures IsBestScore(q, best)
  {
  }

  /**
   * The best local score is the largest inner cell of H and never below 0,
   * and it equals one of the cells unless it is 0; so there is only one.
   */
  lemma BestScoreIsMax(q: Pair, best: int)
    requires IsBestScore(q, best)
    ensures best >= 0
    ensures q.Valid() ==> forall a, b :: 1 <= a <= q.N() && 1 <= b <= q.M() ==> H(q, a, b) <= best
    ensures q.Valid() && best != 0 ==> exists a, b :: 1 <= a <= q.N() && 1 <= b <= q.M() && H(q, a, b) == best
  {
    if q.Valid() {
      var e1, e2 :| IsLocalBest(q, best, e1, e2);
      forall a, b | 1 <= a <= q.N() && 1 <= b <= q.M()
        ensures H(q, a, b) <= best
      {
        assert RowMajorBefore(a, b, q.N() + 1, 0);
      }
    }
  }

  lemma BestScoreUnique(q: Pair, u: int, v: int)
    requires IsBestScore(q, u) && IsBestScore(q, v)
    ensures u == v
  {
    BestScoreIsMax(q, u);
    BestScoreIsMax(q, v);
  }

  /**
   * calculateScoreMatrix after the pairs before (a, b) in its loop order:
   * each holds its best score at [i][j] and at [j][i], and every cell
   * outside group1 x group2 and group2 x group1 is still 0.
   */
  ghost predicate ScoresDone(m: array2<int>, sequences: seq<seq<int>>, group1: seq<int>, group2: seq<int>,
                             gapOpen: int, gapExtend: int, a: int, b: int)
    reads m
  {
    GroupsOk(group1, group2, |sequences|) && m.Length0 == |sequences| && m.Length1 == |sequences| &&
    (forall a', b' :: 0 <= a' < |group1| && 0 <= b' < |group2| && RowMajorBefore(a', b', a, b) ==>
      IsBestScore(Pair(sequences[group1[a']], sequences[group2[b']], gapOpen, gapExtend), m[group1[a'], group2[b']]) &&
      m[group2[b'], group1[a']] == m[group1[a'], group2[b']]) &&
    (forall x, y :: 0 <= x < |sequences| && 0 <= y < |sequences| && !(x in group1 && y in group2) && !(x in group2 && y in group1) ==>
      m[x, y] == 0)
  }

  /** Every pair of group1 x group2 indexes m. */
  ghost predicate InMatrix(m: array2<int>, group1: seq<int>, group2: seq<int>) {
    (forall a :: 0 <= a < |group1| ==> 0 <= group1[a] < m.Length0) &&
    (forall b :: 0 <= b < |group2| ==> 0 <= group2[b] < m.Length1)
  }

  /** (group1[a], group2[b]) scores above -1, at least as much as every pair, and more than every pair before it. */
  ghost predicate FirstBest(m: array2<int>, group1: seq<int>, group2: seq<int>, a: int, b: int)
    reads m
    requires InMatrix(m, group1, group2) && 0 <= a < |group1| && 0 <= b < |group2|
  {
    var best := m[group1[a], group2[b]];
    best > -1 &&
    forall a', b' :: 0 <= a' < |group1| && 0 <= b' < |group2| ==>
      m[group1[a'], group2[b']] <= best && (RowMajorBefore(a', b', a, b) ==> m[group1[a'], group2[b']] < best)
  }

  /**
   * findBestPair after the pairs before (a, b): best is -1 or the score of
   * (group1[ba], group2[bb]), the first pair seen to reach it, and no pair
   * seen scores more.
   */
  ghost predicate PairScan(m: array2<int>, group1: seq<int>, group2: seq<int>, a: int, b: int,
                           best: int, first: int, second: int, ba: int, bb: int)
    reads m
  {
    InMatrix(m, group1, group2) && best >= -1 &&
    (forall a', b' :: 0 <= a' < |group1| && 0 <= b' < |group2| && RowMajorBefore(a', b', a, b) ==>
      m[group1[a'], group2[b']] <= best) &&
    (best == -1 ==> first == -1 && second == -1) &&
    (best > -1 ==>
      0 <= ba < |group1| && 0 <= bb < |group2| && RowMajorBefore(ba, bb, a, b) &&
      first == group1[ba] && second == group2[bb] && m[first, second] == best &&
      forall a', b' :: 0 <= a' < |group1| && 0 <= b' < |group2| && RowMajorBefore(a', b', ba, bb) ==>
        m[group1[a'], group2[b']] < best)
  }

  lemma PairScanNextRow(m: array2<int>, group1: seq<int>, group2: seq<int>, a: int,
                        best: int, first: int, second: int, ba: int, bb: int)
    requires PairScan(m, group1, group2, a, |group2|, best, first, second, ba, bb)
    ensures PairScan(m, group1, group2, a + 1, 0, best, first, second, ba, bb)
  {
  }

  /** At the end of findBestPair's loops: (-1, -1) exactly when no pair scores above -1, otherwise the first best pair. */
  lemma PairScanDone(m: array2<int>, group1: seq<int>, group2: seq<int>, best: int, first: int, second: int, ba: int, bb: int)
    requires PairScan(m, group1, group2, |group1|, 0, best, first, second, ba, bb)
    ensures (first, second) == (-1, -1) <==>
      forall a, b :: 0 <= a < |group1| && 0 <= b < |group2| ==> m[group1[a], group2[b]] <= -1
    ensures (first, second) != (-1, -1) ==>
      exists a, b :: 0 <= a < |group1| && 0 <= b < |group2| && first == group1[a] && second == group2[b] &&
        FirstBest(m, group1, group2, a, b)
  {
    if best > -1 {
      assert FirstBest(m, group1, group2, ba, bb);
    }
  }

  lemma ScoresNextRow(m: array2<int>, sequences: seq<seq<int>>, group1: seq<int>, group2: seq<int>,
                      gapOpen: int, gapExtend: int, a: int)
    requires ScoresDone(m, sequences, group1, group2, gapOpen, gapExtend, a, |group2|)
    ensures ScoresDone(m, sequences, group1, group2, gapOpen, gapExtend, a + 1, 0)
  {
  }

  lemma ScoresAll(m: array2<int>, sequences: seq<seq<int>>, group1: seq<int>, group2: seq<int>, gapOpen: int, gapExtend: int)
    requires ScoresDone(m, sequences, group1, group2, gapOpen, gapExtend, |group1|, 0)
    ensures m.Length0 == |sequences| && m.Length1 == |sequences|
    ensures forall a, b :: 0 <= a < |group1| && 0 <= b < |group2| ==>
      IsBestScore(Pair(sequences[group1[a]], sequences[group2[b]], gapOpen, gapExtend), m[group1[a], group2[b]]) &&
      m[group2[b], group1[a]] == m[group1[a], group2[b]]
    ensures forall x, y :: 0 <= x < |sequences| && 0 <= y < |sequences| && !(x in group1 && y in group2) && !(x in group2 && y in group1) ==>
      m[x, y] == 0
  {
  }

  /** calculateScoreMatrix's fresh numSeq x numSeq matrix of zeros. */
  method ZeroScores(sequences: seq<seq<int>>, group1: seq<int>, group2: seq<int>, gapOpen: int, gapExtend: int)
    returns (m: array2<int>)
    requires GroupsOk(group1, group2, |sequences|)
    ensures fresh(m) && ScoresDone(m, sequences, group1, group2, gapOpen, gapExtend, 0, 0)
    ensures forall x, y :: 0 <= x < |sequences| && 0 <= y < |sequences| ==> m[x, y] == 0
  {
    m := new int[|sequences|, |sequences|]((_, _) => 0);
  }

  /** The two stores of calculateScoreMatrix's inner loop: the score of group1[a] against group2[b] at [i][j] and at [j][i]. */
  method StoreScore(m: array2<int>, sequences: seq<seq<int>>, group1: seq<int>, group2: seq<int>, gapOpen: int, gapExtend: int,
                    a: int, b: int, score: int)
    requires ScoresDone(m, sequences, group1, group2, gapOpen, gapExtend, a, b) && 0 <= a < |group1| && 0 <= b < |group2|
    requires IsBestScore(Pair(sequences[group1[a]], sequences[group2[b]], gapOpen, gapExtend), score)
    modifies m
    ensures ScoresDone(m, sequences, group1, group2, gapOpen, gapExtend, a, b + 1)
  {
    var i := group1[a];
    var j := group2[b];
    m[i, j] := score;
    m[j, i] := score;
  }

  /**
   * The pair alignSequences picks: the groups come from the shuffle order,
   * and (first, second) is the first pair of group1 x group2 with the
   * highest score in the matrix calculateScoreMatrix filled.
   */
  ghost predicate Chosen(sequences: seq<seq<int>>, order: seq<int>, group1: seq<int>, group2: seq<int>,
                         scoreMatrix: array2<int>, first: int, second: int)
    reads scoreMatrix
  {
    |sequences| >= 3 && |order| == |sequences| && group1 == order[..2] && group2 == order[2..] &&
    InMatrix(scoreMatrix, group1, group2) && 0 <= first < |sequences| && 0 <= second < |sequences| &&
    exists a, b :: 0 <= a < |group1| && 0 <= b < |group2| && first == group1[a] && second == group2[b] &&
      FirstBest(scoreMatrix, group1, group2, a, b)
  }

  /** With both groups non-empty after calculateScoreMatrix, some pair scores above -1. */
  lemma ScoresAboveMinusOne(m: array2<int>, sequences: seq<seq<int>>, group1: seq<int>, group2: seq<int>,
                            gapOpen: int, gapExtend: int)
    requires ScoresDone(m, sequences, group1, group2, gapOpen, gapExtend, |group1|, 0) && |group1| > 0 && |group2| > 0
    ensures InMatrix(m, group1, group2)
    ensures !forall a, b :: 0 <= a < |group1| && 0 <= b < |group2| ==> m[group1[a], group2[b]] <= -1
  {
    assert RowMajorBefore(0, 0, |group1|, 0);
    BestScoreIsMax(Pair(sequences[group1[0]], sequences[group2[0]], gapOpen, gapExtend), m[group1[0], group2[0]]);
  }
}
