/**
 * The class multipleAlignmentObject of code/basic_alignment.cpp: two
 * groups of sequences, the scoring constants, the two DP matrices, the
 * gap positions of the last backward pass and the best score. Its
 * forwardPass and reversePass run the same loops as the free functions of
 * code/align.cpp, so they delegate to Align and keep the results in the
 * object's fields.
 */
module BasicAlignment {
  import opened ProfileDP
  import Align

  /** The source's nested struct seq: one sequence of residues. */
  datatype Sequence = Sequence(residues: string)

  /** The residue strings of a group, in order. */
  function Residues(group: seq<Sequence>): (r: seq<string>)
    ensures |r| == |group|
    ensures forall k :: 0 <= k < |group| ==> r[k] == group[k].residues
  {
    if group == [] then [] else Residues(group[..|group| - 1]) + [group[|group| - 1].residues]
  }

  class MultipleAlignmentObject {
    var gapPenalty: int
    /** The score added for every pair of differing residues. */
    var diff: int
    var scoreMatrix: array2<int>
    var backTrackMatrix: array2<int>
    var group1: seq<Sequence>
    var group2: seq<Sequence>
    /** Horizontal moves put a gap into group 1, vertical ones into group 2. */
    var gapPositions: seq<GapPosition>
    var bestScore: int

    /**
     * A fresh object with the given groups and constants; the matrices and
     * the gap positions start empty and bestScore at 0, as the member
     * initialisers leave them.
     */
    constructor(group1: seq<Sequence>, group2: seq<Sequence>, gapPenalty: int, diff: int)
      ensures this.group1 == group1 && this.group2 == group2
      ensures this.gapPenalty == gapPenalty && this.diff == diff
      ensures scoreMatrix.Length0 == 0 && backTrackMatrix.Length0 == 0
      ensures gapPositions == [] && bestScore == 0
    {
      this.group1 := group1;
      this.group2 := group2;
      this.gapPenalty := gapPenalty;
      this.diff := diff;
      scoreMatrix := new int[0, 0];
      backTrackMatrix := new int[0, 0];
      gapPositions := [];
      bestScore := 0;
    }

    /** The DP this object describes. */
    function Problem(): ProfileDP.Problem
      reads this
    {
      ProfileDP.Problem(Residues(group1), Residues(group2), gapPenalty, diff)
    }

    /**
     * The state forwardPass leaves behind: every score cell and every
     * backtrack cell holds the recurrence's value and direction, and
     * bestScore is the bottom-right score.
     */
    ghost predicate Filled()
      reads this, scoreMatrix, backTrackMatrix
    {
      var p := Problem();
      p.Valid() &&
      scoreMatrix.Length0 == p.Rows() + 1 && scoreMatrix.Length1 == p.Cols() + 1 &&
      DirsMatch(p, backTrackMatrix) &&
      (forall i, j :: 0 <= i <= p.Rows() && 0 <= j <= p.Cols() ==> scoreMatrix[i, j] == ScoreAt(p, i, j)) &&
      bestScore == ScoreAt(p, p.Rows(), p.Cols())
    }

    /** partitionGroup is an empty stub: it changes nothing. */
    method PartitionGroup(group: seq<Sequence>)
      ensures unchanged(this)
    {
    }

    /**
     * forwardPass: fill both matrices for the current groups and store the
     * bottom-right score in bestScore. Both groups must be non-empty and
     * all sequences of a group of equal length.
     */
    method ForwardPass()
      requires IsProfile(Residues(group1)) && IsProfile(Residues(group2))
      modifies this
      ensures fresh(scoreMatrix) && fresh(backTrackMatrix)
      ensures group1 == old(group1) && group2 == old(group2)
      ensures gapPenalty == old(gapPenalty) && diff == old(diff)
      ensures gapPositions == old(gapPositions)
      ensures Filled()
    {
      var p := Problem();
      scoreMatrix, backTrackMatrix := Align.ForwardPass(p.group1, p.group2, gapPenalty, diff);
      bestScore := scoreMatrix[p.Rows(), p.Cols()];
    }

    /**
     * reversePass: replace gapPositions by the backtrack walk from the
     * bottom-right cell. After forwardPass that walk is an alignment of all
     * columns of both groups that scores bestScore, and no alignment of
     * the two groups scores more.
     */
    method ReversePass()
      requires Filled()
      modifies this`gapPositions
      ensures Filled()
      ensures DirsValid(backTrackMatrix)
      ensures gapPositions == WalkFrom(backTrackMatrix, Problem().Rows(), Problem().Cols())
      ensures NoDoubleGap(gapPositions)
      ensures Consumed1(gapPositions) == Problem().Rows() && Consumed2(gapPositions) == Problem().Cols()
      ensures PathScore(Problem(), gapPositions) == bestScore
      ensures forall other :: NoDoubleGap(other) && Consumed1(other) == Problem().Rows()
                              && Consumed2(other) == Problem().Cols() ==>
        PathScore(Problem(), other) <= bestScore
    {
      var p := Problem();
      WalkFromCornerIsOptimal(p, backTrackMatrix);
      gapPositions := Align.ReversePass(p.group1, p.group2, backTrackMatrix);
    }

    /**
     * scoreBtwGroupSeq: diff times the number of cross-group residue pairs
     * that differ at column i of group1 and column j of group2. It also
     * reads column i of the first sequence of group1 (and never uses it),
     * so group1 must be non-empty.
     */
    method ScoreBtwGroupSeq(group1: seq<Sequence>, group2: seq<Sequence>, i: nat, j: nat)
      returns (result: int)
      requires |group1| > 0 && i < |group1[0].residues|
      requires forall k :: 0 <= k < |group1| ==> i < |group1[k].residues|
      requires forall l :: 0 <= l < |group2| ==> j < |group2[l].residues|
      ensures result == diff * Mismatches(Residues(group1), Residues(group2), i, j, |group1|, |group2|)
      ensures 0 <= diff ==> 0 <= result <= diff * (|group1| * |group2|)
      ensures result == 0 <==> diff == 0 || forall k, l :: 0 <= k < |group1| && 0 <= l < |group2| ==>
        group1[k].residues[i] == group2[l].residues[j]
    {
      var standard := group1[0].residues[i];
      result := Align.ScoreBtwGroupSeq(Residues(group1), Residues(group2), i, j, diff);
      var g1, g2 := Residues(group1), Residues(group2);
      MismatchesBound(g1, g2, i, j, |g1|, |g2|);
      MismatchesZeroIff(g1, g2, i, j, |g1|, |g2|);
      MulFacts(diff, Mismatches(g1, g2, i, j, |g1|, |g2|), |g1| * |g2|);
    }

    /** modify is an empty stub: the group comes back as it was given. */
    method Modify(group: seq<Sequence>, gapPositions: seq<GapPosition>, groupNumber: int)
      returns (group': seq<Sequence>)
      ensures group' == group
    {
      group' := group;
    }
  }
}
