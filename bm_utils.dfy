/**
 * The alignment utilities of code/bm_utils.cpp: the naive alignment that
 * pads every sequence with gaps to the longest one, and the current
 * partition and gap-removal stubs.
 */
module BmUtils {
  import opened BmComm

  /** The seq_t of code/align.h: an id and the residues. */
  datatype Sequence = Sequence(id: int, data: string)

  /** A run of n gap characters. */
  function Dashes(n: nat): (r: string)
    ensures |r| == n && forall k :: 0 <= k < n ==> r[k] == '-'
  {
    seq(n, _ => '-')
  }

  /** Length of the longest residue string, 0 for no records: no record is longer. */
  function Longest(xs: seq<FastaSeq>): (r: nat)
    ensures forall k :: 0 <= k < |xs| ==> |xs[k].residues| <= r
  {
    if xs == [] then 0
    else
      var rest := Longest(xs[..|xs| - 1]);
      var last := |xs[|xs| - 1].residues|;
      if last > rest then last else rest
  }

  /** Longest is the length of one of the records, and 0 only for none or all empty. */
  lemma {:induction false} LongestAttained(xs: seq<FastaSeq>)
    ensures xs == [] ==> Longest(xs) == 0
    ensures xs != [] ==> exists k :: 0 <= k < |xs| && |xs[k].residues| == Longest(xs)
    decreases |xs|
  {
    if xs != [] {
      var init := xs[..|xs| - 1];
      LongestAttained(init);
      if init != [] && Longest(xs) == Longest(init) {
        var k :| 0 <= k < |init| && |init[k].residues| == Longest(init);
        assert xs[k] == init[k];
      } else {
        assert |xs[|xs| - 1].residues| == Longest(xs);
      }
    }
  }

  /**
   * naiive_alnmt: one row per record, in order, each the record's residues
   * followed by as many '-' as it is shorter than the longest record, so
   * every row has the longest record's length.
   */
  method NaiiveAlnmt(fastaSeqs: seq<FastaSeq>) returns (alnmt: seq<string>)
    ensures |alnmt| == |fastaSeqs|
    ensures forall k :: 0 <= k < |fastaSeqs| ==>
      alnmt[k] == fastaSeqs[k].residues + Dashes(Longest(fastaSeqs) - |fastaSeqs[k].residues|)
    ensures forall k :: 0 <= k < |alnmt| ==> |alnmt[k]| == Longest(fastaSeqs)
  {
    alnmt := [];
    var longest := 0;
    for i := 0 to |fastaSeqs|
      invariant |alnmt| == i && forall k :: 0 <= k < i ==> alnmt[k] == fastaSeqs[k].residues
      invariant longest == Longest(fastaSeqs[..i])
    {
      assert fastaSeqs[..i + 1][..i] == fastaSeqs[..i];
      alnmt := alnmt + [fastaSeqs[i].residues];
      if |fastaSeqs[i].residues| > longest {
        longest := |fastaSeqs[i].residues|;
      }
    }
    assert fastaSeqs[..|fastaSeqs|] == fastaSeqs;

    for k := 0 to |alnmt|
      invariant |alnmt| == |fastaSeqs|
      invariant forall l :: 0 <= l < k ==>
        alnmt[l] == fastaSeqs[l].residues + Dashes(longest - |fastaSeqs[l].residues|)
      invariant forall l :: k <= l < |alnmt| ==> alnmt[l] == fastaSeqs[l].residues
    {
      var seqSize := |alnmt[k]|;
      ghost var before := alnmt;
      for i := 0 to longest - seqSize
        invariant |alnmt| == |fastaSeqs|
        invariant alnmt[k] == fastaSeqs[k].residues + Dashes(i)
        invariant forall l :: 0 <= l < |alnmt| && l != k ==> alnmt[l] == before[l]
      {
        alnmt := alnmt[k := alnmt[k] + "-"];
      }
    }
  }

  /**
   * select_partn as it stands: the first two sequences are appended to
   * group1 and all others, in order, to group2; glblIdx is not used. It
   * reads the first two sequences, so there must be at least two.
   */
  method SelectPartn(seqs: seq<Sequence>, glblIdx: int, group1: seq<Sequence>, group2: seq<Sequence>)
    returns (group1': seq<Sequence>, group2': seq<Sequence>)
    requires |seqs| >= 2
    ensures group1' == group1 + seqs[..2]
    ensures group2' == group2 + seqs[2..]
  {
    group1' := group1 + [seqs[0]];
    group1' := group1' + [seqs[1]];
    group2' := group2;
    for i := 2 to |seqs|
      invariant group2' == group2 + seqs[2..i]
    {
      group2' := group2' + [seqs[i]];
      assert seqs[2..i + 1] == seqs[2..i] + [seqs[i]];
    }
    assert seqs[2..|seqs|] == seqs[2..];
    assert seqs[..2] == [seqs[0], seqs[1]];
  }

  /** What select_partn appends to the two groups, taken together, is the input: nothing lost, nothing reordered. */
  lemma SelectPartnSplits(seqs: seq<Sequence>, group1: seq<Sequence>, group2: seq<Sequence>,
                          group1': seq<Sequence>, group2': seq<Sequence>)
    requires |seqs| >= 2 && group1' == group1 + seqs[..2] && group2' == group2 + seqs[2..]
    ensures group1'[|group1|..] + group2'[|group2|..] == seqs
    ensures |group1'| == |group1| + 2 && |group2'| == |group2| + |seqs| - 2
  {
    assert group1'[|group1|..] == seqs[..2];
    assert group2'[|group2|..] == seqs[2..];
  }

  /** remove_glbl_gaps is a stub: the group comes back as it was. */
  method RemoveGlblGaps(group: seq<Sequence>) returns (group': seq<Sequence>)
    ensures group' == group
  {
    group' := group;
  }
}
