/**
 * Specification of the pairwise local aligner of code/alignment.cpp: the
 * affine-gap local recurrence that forwardPass computes row by row, the
 * mirrored recurrence reversePass runs back from the best cell, the
 * global recurrence backtrack refills over the chosen window with its
 * walk, the run-length path encoding built by add/del, and the columns
 * tracePath lays out from that encoding.
 *
 * Sequences are 1-indexed as in the source: position 0 of a residue
 * vector is a placeholder and never read.
 */
module LocalDP {

  /** The substitution matrix the constructor builds: 10 on the diagonal, -5 elsewhere. */
  function Sub(a: int, b: int): int {
    if a == b then 10 else -5
  }

  function Max(a: int, b: int): (r: int)
    ensures r >= a && r >= b && (r == a || r == b)
  {
    if a < b then b else a
  }

  /** Every residue code past the placeholder indexes the 256 x 256 substitution matrix. */
  predicate IsResidues(s: seq<int>) {
    forall k :: 1 <= k < |s| ==> 0 <= s[k] < 256
  }

  /** Two residue vectors (each with its placeholder) and the two gap penalties. */
  datatype Pair = Pair(seq1: seq<int>, seq2: seq<int>, gapOpen: int, gapExtend: int) {
    predicate Valid() {
      |seq1| >= 1 && |seq2| >= 1
    }

    /** Residues of sequence 1 (the source's n = size - 1). */
    function N(): nat
      requires Valid()
    {
      |seq1| - 1
    }

    /** Residues of sequence 2 (the source's m = size - 1). */
    function M(): nat
      requires Valid()
    {
      |seq2| - 1
    }
  }

  // ---------------------------------------------------------------------
  // forwardPass: affine-gap local alignment scores
  // ---------------------------------------------------------------------

  /**
   * H[i][j]: the best local score ending at (i, j). Row 0 and column 0 are
   * 0; inside, the best of the diagonal step, a gap run ending in
   * sequence 1 (F), a gap run ending in sequence 2 (D), and 0.
   */
  function H(q: Pair, i: nat, j: nat): (h: int)
    requires q.Valid() && i <= q.N() && j <= q.M()
    ensures h >= 0
    decreases i + j, 1
  {
    if i == 0 || j == 0 then 0
    else Max(Max(Max(H(q, i - 1, j - 1) + Sub(q.seq1[i], q.seq2[j]), F(q, i, j)), D(q, i, j)), 0)
  }

  /** F[i][j]: horizontal gap runs; -gapOpen before column 1, extended or opened from H[i][j-1]. */
  function F(q: Pair, i: nat, j: nat): int
    requires q.Valid() && i <= q.N() && j <= q.M()
    decreases i + j, 0
  {
    if j == 0 then -q.gapOpen
    else Max(F(q, i, j - 1) - q.gapExtend, H(q, i, j - 1) - q.gapOpen - q.gapExtend)
  }

  /** D[i][j]: vertical gap runs; -gapOpen in row 0 and column 0, extended or opened from H[i-1][j]. */
  function D(q: Pair, i: nat, j: nat): int
    requires q.Valid() && i <= q.N() && j <= q.M()
    decreases i + j, 0
  {
    if i == 0 || j == 0 then -q.gapOpen
    else Max(D(q, i - 1, j) - q.gapExtend, H(q, i - 1, j) - q.gapOpen - q.gapExtend)
  }

  /** Every inner cell dominates its three candidates, and a gap run never beats what opens it by more than extending it would. */
  lemma CellDominates(q: Pair, i: nat, j: nat)
    requires q.Valid() && 0 < i <= q.N() && 0 < j <= q.M()
    ensures H(q, i, j) >= H(q, i - 1, j - 1) + Sub(q.seq1[i], q.seq2[j])
    ensures H(q, i, j) >= H(q, i, j - 1) - q.gapOpen - q.gapExtend
    ensures H(q, i, j) >= H(q, i - 1, j) - q.gapOpen - q.gapExtend
  {
  }

  /** Row i of H as a sequence over columns 0..M. */
  ghost function HRow(q: Pair, i: nat): (r: seq<int>)
    requires q.Valid() && i <= q.N()
    ensures |r| == q.M() + 1
    ensures forall c :: 0 <= c <= q.M() ==> r[c] == H(q, i, c)
  {
    seq(q.M() + 1, c requires 0 <= c <= q.M() => H(q, i, c))
  }

  /** Row i of D as a sequence over columns 0..M. */
  ghost function DRow(q: Pair, i: nat): (r: seq<int>)
    requires q.Valid() && i <= q.N()
    ensures |r| == q.M() + 1
    ensures forall c :: 0 <= c <= q.M() ==> r[c] == D(q, i, c)
  {
    seq(q.M() + 1, c requires 0 <= c <= q.M() => D(q, i, c))
  }

  /** (a, b) comes strictly before (i, j) in row-major order. */
  predicate RowMajorBefore(a: int, b: int, i: int, j: int) {
    a < i || (a == i && b < j)
  }

  // ---------------------------------------------------------------------
  // reversePass: the same recurrence run backwards from (e1, e2)
  // ---------------------------------------------------------------------

  /** The window reversePass scans: rows 1..e1 of sequence 1, columns 1..e2 of sequence 2. */
  predicate InWindow(q: Pair, e1: nat, e2: nat, i: nat, j: nat) {
    q.Valid() && e1 <= q.N() && e2 <= q.M() && 1 <= i <= e1 + 1 && 1 <= j <= e2 + 1
  }

  /**
   * The reversed score RH[i][j], with row e1 + 1 and column e2 + 1 as the
   * outside border: -1 there, except 0 diagonally past the end cell. No
   * clamp at 0, unlike H.
   */
  function RH(q: Pair, e1: nat, e2: nat, i: nat, j: nat): int
    requires InWindow(q, e1, e2, i, j)
    decreases (e1 + 1 - i) + (e2 + 1 - j), 1
  {
    if i == e1 + 1 && j == e2 + 1 then 0
    else if i == e1 + 1 || j == e2 + 1 then -1
    else Max(Max(RH(q, e1, e2, i + 1, j + 1) + Sub(q.seq1[i], q.seq2[j]), RF(q, e1, e2, i, j)), RD(q, e1, e2, i, j))
  }

  function RF(q: Pair, e1: nat, e2: nat, i: nat, j: nat): int
    requires InWindow(q, e1, e2, i, j)
    decreases (e1 + 1 - i) + (e2 + 1 - j), 0
  {
    if j == e2 + 1 then -1
    else Max(RF(q, e1, e2, i, j + 1) - q.gapExtend, RH(q, e1, e2, i, j + 1) - q.gapOpen - q.gapExtend)
  }

  function RD(q: Pair, e1: nat, e2: nat, i: nat, j: nat): int
    requires InWindow(q, e1, e2, i, j)
    decreases (e1 + 1 - i) + (e2 + 1 - j), 0
  {
    if i == e1 + 1 then -1
    else Max(RD(q, e1, e2, i + 1, j) - q.gapExtend, RH(q, e1, e2, i + 1, j) - q.gapOpen - q.gapExtend)
  }

  /**
   * Row i of the reversed scores as reversePass keeps it in HH_rev: entry
   * 0 is never written and stays -1, entry c is RH[i][c].
   */
  ghost function RHRow(q: Pair, e1: nat, e2: nat, i: nat): (r: seq<int>)
    requires InWindow(q, e1, e2, i, 1)
    ensures |r| == e2 + 1 && r[0] == -1
    ensures forall c :: 1 <= c <= e2 ==> r[c] == RH(q, e1, e2, i, c)
  {
    seq(e2 + 1, c requires 0 <= c <= e2 => if c == 0 then -1 else RH(q, e1, e2, i, c))
  }

  /** Row i of RD as reversePass keeps it in DD_rev, entry 0 likewise -1. */
  ghost function RDRow(q: Pair, e1: nat, e2: nat, i: nat): (r: seq<int>)
    requires InWindow(q, e1, e2, i, 1)
    ensures |r| == e2 + 1 && r[0] == -1
    ensures forall c :: 1 <= c <= e2 ==> r[c] == RD(q, e1, e2, i, c)
  {
    seq(e2 + 1, c requires 0 <= c <= e2 => if c == 0 then -1 else RD(q, e1, e2, i, c))
  }

  /** (a, b) is scanned before (i, j): rows from e1 down, and inside a row columns from e2 down. */
  predicate ScanBefore(a: int, b: int, i: int, j: int) {
    a > i || (a == i && b > j)
  }

  // ---------------------------------------------------------------------
  // backtrack: global refill over the window and its walk
  // ---------------------------------------------------------------------

  /** A backtrack cell's value and direction code ('d', 'h' or 'v'). */
  datatype Step = Step(score: int, dir: char)

  /** Diagonal if it is at least both others, else horizontal if at least vertical, else vertical. */
  function BChoose(diag: int, horiz: int, vert: int): (s: Step)
    ensures s.score >= diag && s.score >= horiz && s.score >= vert
    ensures s.dir == 'd' <==> diag >= horiz && diag >= vert
    ensures s.dir == 'h' <==> (diag < horiz || diag < vert) && horiz >= vert
    ensures s.dir == 'v' <==> (diag < horiz || diag < vert) && horiz < vert
    ensures s.score == (if s.dir == 'd' then diag else if s.dir == 'h' then horiz else vert)
  {
    if diag >= horiz && diag >= vert then Step(diag, 'd')
    else if horiz >= vert then Step(horiz, 'h')
    else Step(vert, 'v')
  }

  /** The window backtrack refills: n rows from sb1 and m columns from sb2. */
  datatype Window = Window(q: Pair, sb1: nat, sb2: nat, n: nat, m: nat) {
    predicate Valid() {
      q.Valid() && 1 <= sb1 && 1 <= sb2 && sb1 + n <= |q.seq1| && sb2 + m <= |q.seq2|
    }
  }

  /** score[ii][jj]: 0 on both borders; inside, the value BChoose keeps. */
  function BScore(w: Window, ii: nat, jj: nat): int
    requires w.Valid() && ii <= w.n && jj <= w.m
    decreases ii + jj, 1
  {
    if ii == 0 || jj == 0 then 0 else BCell(w, ii, jj).score
  }

  function BCell(w: Window, ii: nat, jj: nat): Step
    requires w.Valid() && 0 < ii <= w.n && 0 < jj <= w.m
    decreases ii + jj, 0
  {
    BChoose(BScore(w, ii - 1, jj - 1) + Sub(w.q.seq1[w.sb1 + ii - 1], w.q.seq2[w.sb2 + jj - 1]),
            BScore(w, ii, jj - 1) - w.q.gapOpen - w.q.gapExtend,
            BScore(w, ii - 1, jj) - w.q.gapOpen - w.q.gapExtend)
  }

  /** direction[ii][jj]: the NUL character on the borders, the chosen code inside. */
  function BDir(w: Window, ii: nat, jj: nat): char
    requires w.Valid() && ii <= w.n && jj <= w.m
  {
    if ii == 0 || jj == 0 then 0 as char else BCell(w, ii, jj).dir
  }

  datatype Move = Diag | Horiz | Vert

  function Count(ms: seq<Move>, mv: Move): (c: nat)
    ensures c <= |ms|
  {
    if ms == [] then 0 else Count(ms[..|ms| - 1], mv) + (if ms[|ms| - 1] == mv then 1 else 0)
  }

  lemma CountAppend(ms: seq<Move>, more: seq<Move>, mv: Move)
    ensures Count(ms + more, mv) == Count(ms, mv) + Count(more, mv)
    decreases |more|
  {
    if more == [] {
      assert ms + more == ms;
    } else {
      assert ms + more == (ms + more[..|more| - 1]) + [more[|more| - 1]];
      CountAppend(ms, more[..|more| - 1], mv);
    }
  }

  /** Every move is one of the three kinds. */
  lemma {:induction false} CountTotal(ms: seq<Move>)
    ensures Count(ms, Diag) + Count(ms, Horiz) + Count(ms, Vert) == |ms|
  {
    if ms != [] {
      CountTotal(ms[..|ms| - 1]);
    }
  }

  /**
   * The moves of backtrack's walk from (ii, jj) to (0, 0), in the order it
   * takes them: from the end of the alignment towards its start.
   */
  function BWalk(w: Window, ii: nat, jj: nat): seq<Move>
    requires w.Valid() && ii <= w.n && jj <= w.m
    decreases ii + jj
  {
    if ii == 0 && jj == 0 then []
    else if ii > 0 && jj > 0 && BDir(w, ii, jj) == 'd' then [Diag] + BWalk(w, ii - 1, jj - 1)
    else if jj > 0 && (ii == 0 || BDir(w, ii, jj) == 'h') then [Horiz] + BWalk(w, ii, jj - 1)
    else [Vert] + BWalk(w, ii - 1, jj)
  }

  /**
   * The walk from (ii, jj) always reaches (0, 0): its diagonal and
   * vertical moves take exactly ii steps off the row, its diagonal and
   * horizontal moves exactly jj off the column.
   */
  lemma {:induction false} WalkCounts(w: Window, ii: nat, jj: nat)
    requires w.Valid() && ii <= w.n && jj <= w.m
    ensures Count(BWalk(w, ii, jj), Diag) + Count(BWalk(w, ii, jj), Vert) == ii
    ensures Count(BWalk(w, ii, jj), Diag) + Count(BWalk(w, ii, jj), Horiz) == jj
    decreases ii + jj
  {
    if ii > 0 || jj > 0 {
      var mv := MoveFor(ii, jj, BDir(w, ii, jj));
      var (i', j') := Before(ii, jj, mv);
      WalkStep(w, ii, jj);
      WalkCounts(w, i', j');
      CountAppend([mv], BWalk(w, i', j'), Diag);
      CountAppend([mv], BWalk(w, i', j'), Horiz);
      CountAppend([mv], BWalk(w, i', j'), Vert);
    }
  }

  /** The move backtrack's walk takes out of (ii, jj) when the direction stored there is d. */
  function MoveFor(ii: nat, jj: nat, d: char): Move {
    if ii > 0 && jj > 0 && d == 'd' then Diag
    else if jj > 0 && (ii == 0 || d == 'h') then Horiz
    else Vert
  }

  /** The cell a move leads back to from (ii, jj). */
  function Before(ii: nat, jj: nat, mv: Move): (nat, nat)
    requires mv == Horiz ==> jj > 0
    requires mv == Vert ==> ii > 0
    requires mv == Diag ==> ii > 0 && jj > 0
  {
    match mv
    case Diag => (ii - 1, jj - 1)
    case Horiz => (ii, jj - 1)
    case Vert => (ii - 1, jj)
  }

  /** One step of the walk: the next move, then the walk from the cell it leads back to. */
  lemma WalkStep(w: Window, ii: nat, jj: nat)
    requires w.Valid() && ii <= w.n && jj <= w.m && (ii > 0 || jj > 0)
    ensures var mv := MoveFor(ii, jj, BDir(w, ii, jj));
      var (i', j') := Before(ii, jj, mv);
      i' <= w.n && j' <= w.m && BWalk(w, ii, jj) == [mv] + BWalk(w, i', j')
  {
    var d := BDir(w, ii, jj);
    if ii > 0 && jj > 0 && d == 'd' {
      assert MoveFor(ii, jj, d) == Diag;
      assert BWalk(w, ii, jj) == [Diag] + BWalk(w, ii - 1, jj - 1);
    } else if jj > 0 && (ii == 0 || d == 'h') {
      assert MoveFor(ii, jj, d) == Horiz;
      assert BWalk(w, ii, jj) == [Horiz] + BWalk(w, ii, jj - 1);
    } else {
      assert MoveFor(ii, jj, d) == Vert;
      assert BWalk(w, ii, jj) == [Vert] + BWalk(w, ii - 1, jj);
    }
  }

  /** The walk takes at most n + m steps and at least max(n, m). */
  lemma WalkLength(w: Window)
    requires w.Valid()
    ensures w.n <= |BWalk(w, w.n, w.m)| <= w.n + w.m
    ensures w.m <= |BWalk(w, w.n, w.m)|
  {
    WalkCounts(w, w.n, w.m);
    CountTotal(BWalk(w, w.n, w.m));
  }

  // ---------------------------------------------------------------------
  // add / del: the run-length path encoding in displ
  // ---------------------------------------------------------------------

  function Last(l: seq<int>): int
    requires |l| > 0
  {
    l[|l| - 1]
  }

  /**
   * add(v): append v, except that while the last entry is negative, v is
   * slipped in just before that entry, which stays last.
   */
  function AddSpec(l: seq<int>, v: int): seq<int> {
    if |l| > 0 && Last(l) < 0 then l[..|l| - 1] + [v, Last(l)] else l + [v]
  }

  /** del(k): subtract k from a negative last entry, or append -k. */
  function DelSpec(l: seq<int>, k: int): seq<int> {
    if |l| > 0 && Last(l) < 0 then l[..|l| - 1] + [Last(l) - k] else l + [-k]
  }

  /** The call the backtrack walk makes for one move: add(0), add(1) or del(1). */
  function Emit(l: seq<int>, mv: Move): seq<int> {
    match mv
    case Diag => AddSpec(l, 0)
    case Horiz => AddSpec(l, 1)
    case Vert => DelSpec(l, 1)
  }

  /** displ[1..printPtr) after emitting the moves ms in order, starting from an empty path. */
  function Encode(ms: seq<Move>): seq<int> {
    if ms == [] then [] else Emit(Encode(ms[..|ms| - 1]), ms[|ms| - 1])
  }

  /** The displ value add receives for a move other than a vertical one. */
  function AddedValues(ms: seq<Move>): (r: seq<int>)
    ensures |r| == Count(ms, Diag) + Count(ms, Horiz)
    ensures forall k :: 0 <= k < |r| ==> r[k] == 0 || r[k] == 1
  {
    if ms == [] then []
    else if ms[|ms| - 1] == Vert then AddedValues(ms[..|ms| - 1])
    else AddedValues(ms[..|ms| - 1]) + [if ms[|ms| - 1] == Diag then 0 else 1]
  }

  /** The trailing entry of a path that has seen v vertical moves. */
  function VerticalTail(v: nat): seq<int> {
    if v > 0 then [-(v as int)] else []
  }

  lemma EmitOnShape(a: seq<int>, v: nat, mv: Move)
    requires forall k :: 0 <= k < |a| ==> a[k] == 0 || a[k] == 1
    ensures Emit(a + VerticalTail(v), mv)
         == (if mv == Vert then a else a + [if mv == Diag then 0 else 1]) + VerticalTail(if mv == Vert then v + 1 else v)
  {
    var l := a + VerticalTail(v);
    if v > 0 {
      assert |l| > 0 && Last(l) == -(v as int) && l[..|l| - 1] == a;
    } else {
      assert l == a;
      assert |l| > 0 ==> Last(l) >= 0;
    }
  }

  /**
   * The shape of the encoding: once a vertical move has been emitted the
   * last entry stays negative, so every later add lands before it and
   * every later del grows it. The path is therefore the add values in
   * emission order followed by one entry holding minus the number of
   * vertical moves.
   */
  lemma {:induction false} EncodeShape(ms: seq<Move>)
    ensures Encode(ms) == AddedValues(ms) + VerticalTail(Count(ms, Vert))
  {
    if ms != [] {
      var init := ms[..|ms| - 1];
      EncodeShape(init);
      EmitOnShape(AddedValues(init), Count(init, Vert), ms[|ms| - 1]);
    }
  }

  /** Entries equal to 0. */
  function Zeros(l: seq<int>): nat {
    if l == [] then 0 else Zeros(l[..|l| - 1]) + (if Last(l) == 0 then 1 else 0)
  }

  /** Sum of the positive entries. */
  function PosSum(l: seq<int>): nat {
    if l == [] then 0 else PosSum(l[..|l| - 1]) + (if Last(l) > 0 then Last(l) else 0)
  }

  /** Sum of the magnitudes of the negative entries. */
  function NegSum(l: seq<int>): nat {
    if l == [] then 0 else NegSum(l[..|l| - 1]) + (if Last(l) < 0 then -Last(l) else 0)
  }

  lemma {:induction false} AddedValuesSums(ms: seq<Move>)
    ensures Zeros(AddedValues(ms)) == Count(ms, Diag)
    ensures PosSum(AddedValues(ms)) == Count(ms, Horiz)
    ensures NegSum(AddedValues(ms)) == 0
  {
    if ms != [] {
      AddedValuesSums(ms[..|ms| - 1]);
      var r := AddedValues(ms);
      if ms[|ms| - 1] != Vert {
        assert r[..|r| - 1] == AddedValues(ms[..|ms| - 1]);
      }
    }
  }

  /**
   * What the encoding records: one 0 per diagonal move, positive entries
   * summing to the horizontal moves, negative entries whose magnitudes
   * sum to the vertical moves, and never more entries than moves.
   */
  lemma {:induction false} EncodeCounts(ms: seq<Move>)
    ensures Zeros(Encode(ms)) == Count(ms, Diag)
    ensures PosSum(Encode(ms)) == Count(ms, Horiz)
    ensures NegSum(Encode(ms)) == Count(ms, Vert)
    ensures |Encode(ms)| <= |ms|
  {
    EncodeShape(ms);
    AddedValuesSums(ms);
    CountTotal(ms);
    var a := AddedValues(ms);
    var v := Count(ms, Vert);
    if v > 0 {
      SumsAppend(a, -(v as int));
    } else {
      assert Encode(ms) == a;
    }
  }

  lemma SumsAppend(l: seq<int>, x: int)
    ensures Zeros(l + [x]) == Zeros(l) + (if x == 0 then 1 else 0)
    ensures PosSum(l + [x]) == PosSum(l) + (if x > 0 then x else 0)
    ensures NegSum(l + [x]) == NegSum(l) + (if x < 0 then -x else 0)
  {
    assert (l + [x])[..|l|] == l;
  }

  // ---------------------------------------------------------------------
  // tracePath: the columns laid out from displ
  // ---------------------------------------------------------------------

  /** Residues of sequence 1 an entry consumes: one for 0, none for a horizontal run, -e for a vertical run. */
  function Use1(e: int): nat {
    if e == 0 then 1 else if e > 0 then 0 else -e
  }

  /** Residues of sequence 2 an entry consumes: one for 0, e for a horizontal run, none for a vertical run. */
  function Use2(e: int): nat {
    if e == 0 then 1 else if e > 0 then e else 0
  }

  /** One column of the printed alignment. */
  datatype Column = Match(a: int, b: int) | GapIn1(b: int) | GapIn2(a: int)

  /**
   * s[k] as tracePath reads it. Nothing in tracePath keeps its indices
   * inside the vectors; outside them the read is undefined in the source
   * and yields 0 here.
   */
  function At(s: seq<int>, k: int): int {
    if 0 <= k < |s| then s[k] else 0
  }

  /** The columns one displ entry expands to, reading sequence 1 from i1 and sequence 2 from i2. */
  function Expand(s1: seq<int>, s2: seq<int>, e: int, i1: int, i2: int): (cs: seq<Column>)
    ensures |cs| == Use1(e) + Use2(e) - (if e == 0 then 1 else 0)
  {
    if e == 0 then [Match(At(s1, i1), At(s2, i2))]
    else if e > 0 then GapRun1(s2, i2, e)
    else GapRun2(s1, i1, -e)
  }

  /** k columns with a gap in sequence 1 over s2[i2 .. i2 + k). */
  function GapRun1(s2: seq<int>, i2: int, k: nat): (cs: seq<Column>)
    ensures |cs| == k
  {
    if k == 0 then [] else GapRun1(s2, i2, k - 1) + [GapIn1(At(s2, i2 + k - 1))]
  }

  /** k columns with a gap in sequence 2 over s1[i1 .. i1 + k). */
  function GapRun2(s1: seq<int>, i1: int, k: nat): (cs: seq<Column>)
    ensures |cs| == k
  {
    if k == 0 then [] else GapRun2(s1, i1, k - 1) + [GapIn2(At(s1, i1 + k - 1))]
  }

  /**
   * The columns tracePath lays out for the entries l[k..], with sequence 1
   * read from i1 and sequence 2 from i2: each entry's columns, the read
   * positions advancing by what the entry consumes.
   */
  function Trace(s1: seq<int>, s2: seq<int>, l: seq<int>, k: nat, i1: int, i2: int): seq<Column>
    decreases |l| - k
  {
    if k >= |l| then []
    else Expand(s1, s2, l[k], i1, i2) + Trace(s1, s2, l, k + 1, i1 + Use1(l[k]), i2 + Use2(l[k]))
  }

  /** The character a residue code prints as: char() keeps its low eight bits. */
  function Char(r: int): char {
    (r % 256) as char
  }

  /** Every character of s is a byte, as in a C++ string. */
  predicate IsBytes(s: string) {
    forall k :: 0 <= k < |s| ==> s[k] as int < 256
  }

  /** The value a byte has as a (signed) char: 128 .. 255 read as -128 .. -1. */
  function SignedChar(c: char): int
    requires c as int < 256
  {
    if c as int >= 128 then c as int - 256 else c as int
  }

  /** The aligned1 character of a column: the residue, or '-' where sequence 1 has a gap. */
  function TopChar(c: Column): char {
    match c
    case Match(a, _) => Char(a)
    case GapIn2(a) => Char(a)
    case GapIn1(_) => '-'
  }

  /** The aligned2 character of a column: the residue, or '-' where sequence 2 has a gap. */
  function BottomChar(c: Column): char {
    match c
    case Match(_, b) => Char(b)
    case GapIn1(b) => Char(b)
    case GapIn2(_) => '-'
  }

  /** The middle line: '|' over a matched pair of equal residues, a space everywhere else. */
  function MiddleChar(c: Column): char {
    if c.Match? && c.a == c.b then '|' else ' '
  }

  /** The three printed lines of a run of columns, one character per column in each. */
  function Rows(cs: seq<Column>): (r: (string, string, string))
    ensures |r.0| == |cs| && |r.1| == |cs| && |r.2| == |cs|
  {
    if cs == [] then ("", "", "")
    else
      var r := Rows(cs[..|cs| - 1]);
      var c := cs[|cs| - 1];
      (r.0 + [TopChar(c)], r.1 + [BottomChar(c)], r.2 + [MiddleChar(c)])
  }

  /**
   * Column k prints as its top and bottom characters, and the middle line
   * holds '|' exactly over a diagonal column whose two residues are equal,
   * where the top and bottom lines agree, and a space everywhere else.
   */
  lemma {:induction false} RowsColumns(cs: seq<Column>)
    ensures forall k :: 0 <= k < |cs| ==> Rows(cs).0[k] == TopChar(cs[k]) && Rows(cs).1[k] == BottomChar(cs[k])
    ensures forall k :: 0 <= k < |cs| ==> (Rows(cs).2[k] == '|' <==> cs[k].Match? && cs[k].a == cs[k].b)
    ensures forall k :: 0 <= k < |cs| && Rows(cs).2[k] == '|' ==> Rows(cs).0[k] == Rows(cs).1[k]
    ensures forall k :: 0 <= k < |cs| ==> Rows(cs).2[k] == '|' || Rows(cs).2[k] == ' '
    decreases |cs|
  {
    if cs != [] {
      var init := cs[..|cs| - 1];
      RowsColumns(init);
      forall k | 0 <= k < |init|
        ensures cs[k] == init[k]
      {
      }
    }
  }

  // ---------------------------------------------------------------------
  // What tracePath consumes
  // ---------------------------------------------------------------------

  /** The residue codes a run of columns takes from sequence 1, in order. */
  function Top(cs: seq<Column>): seq<int> {
    if cs == [] then [] else Top(cs[..|cs| - 1]) + TopOf(cs[|cs| - 1])
  }

  /** The code one column takes from sequence 1: none for a gap in sequence 1. */
  function TopOf(c: Column): seq<int> {
    match c
    case GapIn1(_) => []
    case Match(a, _) => [a]
    case GapIn2(a) => [a]
  }

  /** The residue codes a run of columns takes from sequence 2, in order. */
  function Bottom(cs: seq<Column>): seq<int> {
    if cs == [] then [] else Bottom(cs[..|cs| - 1]) + BottomOf(cs[|cs| - 1])
  }

  /** The code one column takes from sequence 2: none for a gap in sequence 2. */
  function BottomOf(c: Column): seq<int> {
    match c
    case GapIn2(_) => []
    case Match(_, b) => [b]
    case GapIn1(b) => [b]
  }

  /** The k codes of s from position i on, as tracePath reads them. */
  function Segment(s: seq<int>, i: int, k: nat): (r: seq<int>)
    ensures |r| == k
  {
    if k == 0 then [] else Segment(s, i, k - 1) + [At(s, i + k - 1)]
  }

  /** Residues of sequence 1 that the entries l[k..] consume. */
  function Used1(l: seq<int>, k: nat): nat
    decreases |l| - k
  {
    if k >= |l| then 0 else Use1(l[k]) + Used1(l, k + 1)
  }

  /** Residues of sequence 2 that the entries l[k..] consume. */
  function Used2(l: seq<int>, k: nat): nat
    decreases |l| - k
  {
    if k >= |l| then 0 else Use2(l[k]) + Used2(l, k + 1)
  }

  lemma {:induction false} TopAppend(a: seq<Column>, b: seq<Column>)
    ensures Top(a + b) == Top(a) + Top(b)
    decreases |b|
  {
    if b == [] {
      assert a + b == a;
    } else {
      TopAppend(a, b[..|b| - 1]);
      assert (a + b)[..|a + b| - 1] == a + b[..|b| - 1];
    }
  }

  lemma {:induction false} BottomAppend(a: seq<Column>, b: seq<Column>)
    ensures Bottom(a + b) == Bottom(a) + Bottom(b)
    decreases |b|
  {
    if b == [] {
      assert a + b == a;
    } else {
      BottomAppend(a, b[..|b| - 1]);
      assert (a + b)[..|a + b| - 1] == a + b[..|b| - 1];
    }
  }

  /** Reading j codes from i and then k codes from m = i + j reads the j + k codes from i. */
  lemma {:induction false} SegmentSplit(s: seq<int>, i: int, j: nat, m: int, k: nat, n: nat)
    requires m == i + j && n == j + k
    ensures Segment(s, i, j) + Segment(s, m, k) == Segment(s, i, n)
    decreases k
  {
    if k == 0 {
      assert Segment(s, i, j) + [] == Segment(s, i, j);
    } else {
      var k' := k - 1;
      var n' := n - 1;
      SegmentSplit(s, i, j, m, k', n');
      assert Segment(s, m, k) == Segment(s, m, k') + [At(s, m + k')];
      assert Segment(s, i, n) == Segment(s, i, n') + [At(s, i + n')];
      assert Segment(s, i, j) + Segment(s, m, k) == (Segment(s, i, j) + Segment(s, m, k')) + [At(s, m + k')];
    }
  }

  /** A run of gaps in sequence 1 reads nothing of it and k codes of sequence 2 from i. */
  lemma {:induction false} GapRun1Reads(s: seq<int>, i: int, k: nat)
    ensures Top(GapRun1(s, i, k)) == [] && Bottom(GapRun1(s, i, k)) == Segment(s, i, k)
  {
    if k > 0 {
      var k' := k - 1;
      var cs := GapRun1(s, i, k);
      GapRun1Reads(s, i, k');
      assert cs[..k'] == GapRun1(s, i, k');
    }
  }

  /** A run of gaps in sequence 2 reads k codes of sequence 1 from i and nothing of sequence 2. */
  lemma {:induction false} GapRun2Reads(s: seq<int>, i: int, k: nat)
    ensures Top(GapRun2(s, i, k)) == Segment(s, i, k) && Bottom(GapRun2(s, i, k)) == []
  {
    if k > 0 {
      var k' := k - 1;
      var cs := GapRun2(s, i, k);
      GapRun2Reads(s, i, k');
      assert cs[..k'] == GapRun2(s, i, k');
    }
  }

  /** One entry's columns read Use1 codes of sequence 1 from i1 and Use2 codes of sequence 2 from i2. */
  lemma ExpandReads(s1: seq<int>, s2: seq<int>, e: int, i1: int, i2: int)
    ensures Top(Expand(s1, s2, e, i1, i2)) == Segment(s1, i1, Use1(e))
    ensures Bottom(Expand(s1, s2, e, i1, i2)) == Segment(s2, i2, Use2(e))
  {
    if e == 0 {
      assert Expand(s1, s2, e, i1, i2)[..0] == [];
    } else if e > 0 {
      GapRun1Reads(s2, i2, e);
    } else {
      GapRun2Reads(s1, i1, -e);
    }
  }

  lemma TraceUnfold(s1: seq<int>, s2: seq<int>, l: seq<int>, k: nat, i1: int, i2: int, kk: nat, ii: int, jj: int)
    requires k < |l| && kk == k + 1 && ii == i1 + Use1(l[k]) && jj == i2 + Use2(l[k])
    ensures Trace(s1, s2, l, k, i1, i2) == Expand(s1, s2, l[k], i1, i2) + Trace(s1, s2, l, kk, ii, jj)
  {
    assert Trace(s1, s2, l, k, i1, i2)
        == Expand(s1, s2, l[k], i1, i2) + Trace(s1, s2, l, k + 1, i1 + Use1(l[k]), i2 + Use2(l[k]));
    TraceArgs(s1, s2, l, k, i1, i2, kk, ii, jj);
  }

  lemma TraceArgs(s1: seq<int>, s2: seq<int>, l: seq<int>, k: nat, i1: int, i2: int, kk: nat, ii: int, jj: int)
    requires k < |l| && kk == k + 1 && ii == i1 + Use1(l[k]) && jj == i2 + Use2(l[k])
    ensures Trace(s1, s2, l, k + 1, i1 + Use1(l[k]), i2 + Use2(l[k])) == Trace(s1, s2, l, kk, ii, jj)
  {
  }

  lemma UsedUnfold(l: seq<int>, k: nat, kk: nat)
    requires k < |l| && kk == k + 1
    ensures Used1(l, k) == Use1(l[k]) + Used1(l, kk) && Used2(l, k) == Use2(l[k]) + Used2(l, kk)
  {
  }

  /** The columns tracePath lays out for l[k..] read sequence 1 contiguously from i1, skipping nothing and reading nothing twice. */
  lemma {:induction false} TraceReads1(s1: seq<int>, s2: seq<int>, l: seq<int>, k: nat, i1: int, i2: int)
    ensures Top(Trace(s1, s2, l, k, i1, i2)) == Segment(s1, i1, Used1(l, k))
    decreases |l| - k
  {
    if k < |l| {
      var e := l[k];
      var kk := k + 1;
      var ii := i1 + Use1(e);
      var jj := i2 + Use2(e);
      var head := Expand(s1, s2, e, i1, i2);
      var rest := Trace(s1, s2, l, kk, ii, jj);
      TraceUnfold(s1, s2, l, k, i1, i2, kk, ii, jj);
      UsedUnfold(l, k, kk);
      ExpandReads(s1, s2, e, i1, i2);
      TraceReads1(s1, s2, l, kk, ii, jj);
      TopJoin(Trace(s1, s2, l, k, i1, i2), head, rest, s1, i1, Use1(e), ii, Used1(l, kk), Used1(l, k));
    }
  }

  /** Two stretches of columns reading adjacent segments of sequence 1 read their union. */
  lemma TopJoin(cs: seq<Column>, head: seq<Column>, rest: seq<Column>, s: seq<int>, i: int, a: nat, j: int, b: nat, n: nat)
    requires cs == head + rest && j == i + a && n == a + b
    requires Top(head) == Segment(s, i, a) && Top(rest) == Segment(s, j, b)
    ensures Top(cs) == Segment(s, i, n)
  {
    TopAppend(head, rest);
    SegmentSplit(s, i, a, j, b, n);
  }

  /** The same for sequence 2, read contiguously from i2. */
  lemma {:induction false} TraceReads2(s1: seq<int>, s2: seq<int>, l: seq<int>, k: nat, i1: int, i2: int)
    ensures Bottom(Trace(s1, s2, l, k, i1, i2)) == Segment(s2, i2, Used2(l, k))
    decreases |l| - k
  {
    if k < |l| {
      var e := l[k];
      var kk := k + 1;
      var ii := i1 + Use1(e);
      var jj := i2 + Use2(e);
      var head := Expand(s1, s2, e, i1, i2);
      var rest := Trace(s1, s2, l, kk, ii, jj);
      TraceUnfold(s1, s2, l, k, i1, i2, kk, ii, jj);
      UsedUnfold(l, k, kk);
      ExpandReads(s1, s2, e, i1, i2);
      TraceReads2(s1, s2, l, kk, ii, jj);
      BottomJoin(Trace(s1, s2, l, k, i1, i2), head, rest, s2, i2, Use2(e), jj, Used2(l, kk), Used2(l, k));
    }
  }

  /** Two stretches of columns reading adjacent segments of sequence 2 read their union. */
  lemma BottomJoin(cs: seq<Column>, head: seq<Column>, rest: seq<Column>, s: seq<int>, i: int, a: nat, j: int, b: nat, n: nat)
    requires cs == head + rest && j == i + a && n == a + b
    requires Bottom(head) == Segment(s, i, a) && Bottom(rest) == Segment(s, j, b)
    ensures Bottom(cs) == Segment(s, i, n)
  {
    BottomAppend(head, rest);
    SegmentSplit(s, i, a, j, b, n);
  }

  lemma {:induction false} UsedAppend(l: seq<int>, x: int, k: nat)
    requires k <= |l|
    ensures Used1(l + [x], k) == Used1(l, k) + Use1(x)
    ensures Used2(l + [x], k) == Used2(l, k) + Use2(x)
    decreases |l| - k
  {
    if k < |l| {
      UsedAppend(l, x, k + 1);
      assert (l + [x])[k] == l[k];
    }
  }

  /** Sequence 1 loses one residue per 0 entry and |e| per negative entry, sequence 2 one per 0 and e per positive entry. */
  lemma {:induction false} UsedSums(l: seq<int>)
    ensures Used1(l, 0) == Zeros(l) + NegSum(l)
    ensures Used2(l, 0) == Zeros(l) + PosSum(l)
  {
    if l != [] {
      var init := l[..|l| - 1];
      UsedSums(init);
      assert init + [Last(l)] == l;
      UsedAppend(init, Last(l), 0);
    }
  }

  /**
   * Laid out from the encoding of the whole backtrack walk, tracePath's
   * columns read exactly the window's n residues of sequence 1 from i1 and
   * its m residues of sequence 2 from i2, in order.
   */
  lemma TraceOfWalk(w: Window, s1: seq<int>, s2: seq<int>, i1: int, i2: int)
    requires w.Valid()
    ensures Top(Trace(s1, s2, Encode(BWalk(w, w.n, w.m)), 0, i1, i2)) == Segment(s1, i1, w.n)
    ensures Bottom(Trace(s1, s2, Encode(BWalk(w, w.n, w.m)), 0, i1, i2)) == Segment(s2, i2, w.m)
  {
    var ms := BWalk(w, w.n, w.m);
    TraceReads1(s1, s2, Encode(ms), 0, i1, i2);
    TraceReads2(s1, s2, Encode(ms), 0, i1, i2);
    UsedSums(Encode(ms));
    EncodeCounts(ms);
    WalkCounts(w, w.n, w.m);
  }

  /** Inside the sequence, the codes Segment reads are a slice of it. */
  lemma {:induction false} SegmentSlice(s: seq<int>, i: nat, k: nat)
    requires i + k <= |s|
    ensures Segment(s, i, k) == s[i..i + k]
    decreases k
  {
    if k > 0 {
      SegmentSlice(s, i, k - 1);
      assert s[i..i + k] == s[i..i + k - 1] + [s[i + k - 1]];
    }
  }

  /**
   * For the window backtrack walks, tracePath started at the window's
   * start cell prints exactly the window's residues: seq1[sb1 .. sb1 + n)
   * on the top line and seq2[sb2 .. sb2 + m) on the bottom line, in order,
   * with gaps between them.
   */
  lemma TraceOfWindow(w: Window)
    requires w.Valid()
    ensures Top(Trace(w.q.seq1, w.q.seq2, Encode(BWalk(w, w.n, w.m)), 0, w.sb1, w.sb2)) == w.q.seq1[w.sb1..w.sb1 + w.n]
    ensures Bottom(Trace(w.q.seq1, w.q.seq2, Encode(BWalk(w, w.n, w.m)), 0, w.sb1, w.sb2)) == w.q.seq2[w.sb2..w.sb2 + w.m]
  {
    var s1, s2 := w.q.seq1, w.q.seq2;
    TraceOfWalk(w, s1, s2, w.sb1, w.sb2);
    SegmentSlice(s1, w.sb1, w.n);
    SegmentSlice(s2, w.sb2, w.m);
  }

  lemma RowsSnoc(cs: seq<Column>, c: Column)
    ensures Rows(cs + [c]) == (Rows(cs).0 + [TopChar(c)], Rows(cs).1 + [BottomChar(c)], Rows(cs).2 + [MiddleChar(c)])
  {
    assert (cs + [c])[..|cs|] == cs;
  }

  // ---------------------------------------------------------------------
  // The text tracePath returns
  // ---------------------------------------------------------------------

  function DigitChar(d: nat): char
    requires d < 10
  {
    ('0' as int + d) as char
  }

  /** The decimal digits of n, most significant first, without leading zeros. */
  function Digits(n: nat): (r: string)
    ensures |r| > 0 && forall k :: 0 <= k < |r| ==> '0' <= r[k] <= '9'
    decreases n
  {
    if n < 10 then [DigitChar(n)] else Digits(n / 10) + [DigitChar(n % 10)]
  }

  /** to_string of an int: its decimal digits, with a leading '-' when negative. */
  function IntToString(i: int): string {
    if i < 0 then "-" + Digits(-i) else Digits(i)
  }

  /** The value of a string of decimal digits. */
  function DigitsValue(r: string): int {
    if r == [] then 0 else 10 * DigitsValue(r[..|r| - 1]) + (r[|r| - 1] as int - '0' as int)
  }

  /** to_string's digits read back as the number they came from. */
  lemma {:induction false} DigitsRoundTrip(n: nat)
    ensures DigitsValue(Digits(n)) == n
    decreases n
  {
    if n >= 10 {
      DigitsRoundTrip(n / 10);
      var r := Digits(n);
      assert r[..|r| - 1] == Digits(n / 10);
    }
  }

  /**
   * The report tracePath builds: the score line, the first sequence's line,
   * the middle line indented by 19 spaces, and the second sequence's line.
   */
  function Report(score: int, index1: int, index2: int, rows: (string, string, string)): string {
    "Alignment Score: " + IntToString(score) + "\n" +
    "Sequence " + IntToString(index1) + ": " + rows.0 + "\n" +
    "                   " + rows.2 + "\n" +
    "Sequence " + IntToString(index2) + ": " + rows.1 + "\n"
  }
}
